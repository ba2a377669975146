/**
 * IPaddressCounter end to end: every line is parsed into a 32-bit key and
 * observed in the pseudo-histogram, then the histogram is scanned for slots
 * holding 1. The first line that does not parse aborts the run with its error,
 * as the uncaught exception does in the program.
 */
module IPAddressCounter {
  import opened Results
  import opened AddressParser
  import opened PresenceCounter

  // ---------------------------------------------------------------------------
  // The keys of the input
  // ---------------------------------------------------------------------------

  /**
   * The keys of a run of `toLong` outcomes in order, or the first failure
   * among them: a line after a failing one is never looked at.
   */
  function Collect(rs: seq<Result<int, ParseError>>): (r: Result<seq<int>, ParseError>)
    ensures r.Success? ==> |r.value| == |rs|
  {
    if rs == [] then Success([])
    else
      var keys :- Collect(rs[..|rs| - 1]);
      var ip :- rs[|rs| - 1];
      Success(keys + [ip])
  }

  /** A successful collection holds, in order, the value of each outcome. */
  lemma {:induction false} CollectKeys(rs: seq<Result<int, ParseError>>)
    requires Collect(rs).Success?
    ensures forall j :: 0 <= j < |rs| ==> rs[j] == Success(Collect(rs).value[j])
  {
    if rs != [] {
      var init := rs[..|rs| - 1];
      CollectKeys(init);
      assert forall j :: 0 <= j < |init| ==> rs[j] == init[j];
    }
  }

  /** Conversely, outcomes that all succeed collect into their values. */
  lemma {:induction false} CollectAllSuccess(rs: seq<Result<int, ParseError>>, keys: seq<int>)
    requires |rs| == |keys| && forall j :: 0 <= j < |rs| ==> rs[j] == Success(keys[j])
    ensures Collect(rs) == Success(keys)
  {
    if rs != [] {
      var n := |rs| - 1;
      CollectAllSuccess(rs[..n], keys[..n]);
      assert keys == keys[..n] + [keys[n]];
    }
  }

  /** Collecting one more successful outcome appends its value. */
  lemma CollectStep(rs: seq<Result<int, ParseError>>, j: int)
    requires 0 <= j < |rs| && Collect(rs[..j]).Success? && rs[j].Success?
    ensures Collect(rs[..j + 1]) == Success(Collect(rs[..j]).value + [rs[j].value])
  {
    assert rs[..j + 1][..j] == rs[..j];
  }

  /** Once a prefix fails, the whole run fails with the same error. */
  lemma {:induction false} CollectKeepsFailure(rs: seq<Result<int, ParseError>>, j: int)
    requires 0 <= j <= |rs| && Collect(rs[..j]).Failure?
    ensures Collect(rs) == Collect(rs[..j])
  {
    if j == |rs| {
      assert rs[..j] == rs;
    } else {
      var init := rs[..|rs| - 1];
      assert init[..j] == rs[..j];
      CollectKeepsFailure(init, j);
    }
  }

  /** A failing run fails with its first failure, and every outcome before it is a success. */
  lemma {:induction false} CollectFirstFailure(rs: seq<Result<int, ParseError>>)
    requires Collect(rs).Failure?
    ensures exists j :: 0 <= j < |rs| && Collect(rs[..j]).Success? && rs[j] == Collect(rs).PropagateFailure()
  {
    var init := rs[..|rs| - 1];
    if Collect(init).Failure? {
      CollectFirstFailure(init);
      var j :| 0 <= j < |init| && Collect(init[..j]).Success? && init[j] == Collect(init).PropagateFailure();
      assert init[..j] == rs[..j];
    } else {
      assert rs[..|rs| - 1] == init;
    }
  }

  /** `toLong` applied to each line. */
  function LineResults(lines: seq<string>): (rs: seq<Result<int, ParseError>>)
    ensures |rs| == |lines|
  {
    seq(|lines|, j requires 0 <= j < |lines| => ToLong(lines[j]))
  }

  /** The keys of all lines in order, or the error of the first line that does not parse. */
  function ParseAll(lines: seq<string>): (r: Result<seq<int>, ParseError>)
    ensures r.Success? ==> |r.value| == |lines|
  {
    Collect(LineResults(lines))
  }

  /** A parsed input holds, in order, the key of each line, and every key lies in the address space. */
  lemma ParseAllKeys(lines: seq<string>)
    requires ParseAll(lines).Success?
    ensures forall j :: 0 <= j < |lines| ==> ToLong(lines[j]) == Success(ParseAll(lines).value[j])
    ensures forall j :: 0 <= j < |lines| ==> 0 <= ParseAll(lines).value[j] < ADDRESS_SPACE
  {
    CollectKeys(LineResults(lines));
    forall j | 0 <= j < |lines|
      ensures 0 <= ParseAll(lines).value[j] < ADDRESS_SPACE
    {
      assert LineResults(lines)[j] == ToLong(lines[j]);
    }
  }

  /** Lines that all parse give their keys in order. */
  lemma ParseAllOfKeys(lines: seq<string>, keys: seq<int>)
    requires |lines| == |keys| && forall j :: 0 <= j < |lines| ==> ToLong(lines[j]) == Success(keys[j])
    ensures ParseAll(lines) == Success(keys)
  {
    CollectAllSuccess(LineResults(lines), keys);
  }

  /** A failing input fails with the error of its first failing line, and every line before it parses. */
  lemma ParseAllFirstFailure(lines: seq<string>)
    requires ParseAll(lines).Failure?
    ensures exists j :: 0 <= j < |lines| && ParseAll(lines[..j]).Success? && ToLong(lines[j]) == ParseAll(lines).PropagateFailure()
  {
    CollectFirstFailure(LineResults(lines));
    var j :| 0 <= j < |lines| && Collect(LineResults(lines)[..j]).Success?
      && LineResults(lines)[j] == ParseAll(lines).PropagateFailure();
    assert LineResults(lines[..j]) == LineResults(lines)[..j];
  }

  /** Parsing one more line that parses appends its key. */
  lemma ParseAllStep(lines: seq<string>, j: int)
    requires 0 <= j < |lines| && ParseAll(lines[..j]).Success? && ToLong(lines[j]).Success?
    ensures ParseAll(lines[..j + 1]) == Success(ParseAll(lines[..j]).value + [ToLong(lines[j]).value])
  {
    var rs := LineResults(lines);
    assert LineResults(lines[..j]) == rs[..j];
    assert LineResults(lines[..j + 1]) == rs[..j + 1];
    CollectStep(rs, j);
  }

  /** A line that does not parse, after lines that do, decides the error of the whole input. */
  lemma ParseAllStops(lines: seq<string>, j: int)
    requires 0 <= j < |lines| && ParseAll(lines[..j]).Success? && ToLong(lines[j]).Failure?
    ensures ParseAll(lines) == ToLong(lines[j]).PropagateFailure()
  {
    var rs := LineResults(lines);
    assert LineResults(lines[..j]) == rs[..j];
    assert rs[..j + 1][..j] == rs[..j];
    CollectKeepsFailure(rs, j + 1);
  }

  /** The addresses that occur exactly once among `keys`. */
  ghost function UniqueKeys(keys: seq<int>): set<int> {
    set k | k in keys && multiset(keys)[k] == 1
  }

  // ---------------------------------------------------------------------------
  // The loop over the lines and the whole run
  // ---------------------------------------------------------------------------

  /** Observing one more key extends the replay of every slot by that key. */
  lemma ReplayStep(before: seq<bv8>, after: seq<bv8>, start: seq<bv8>, keys: seq<int>, ip: int)
    requires |before| == |after| == |start| == COUNT_LENGTH && 0 <= ip < ADDRESS_SPACE
    requires forall k :: 0 <= k < ADDRESS_SPACE ==> Slot(before, k) == Replay(Slot(start, k), keys, k)
    requires Slot(after, ip) == Next(Slot(before, ip))
    requires forall k :: 0 <= k < ADDRESS_SPACE && k != ip ==> Slot(after, k) == Slot(before, k)
    ensures forall k :: 0 <= k < ADDRESS_SPACE ==> Slot(after, k) == Replay(Slot(start, k), keys + [ip], k)
  {
    assert (keys + [ip])[..|keys|] == keys;
  }

  /**
   * The loop over the lines (`countIPs`): parse each line and observe its key.
   * On success every slot has replayed all keys; on the first bad line the
   * loop stops, the error is returned and the array holds the observations of
   * the lines before it. `read` is the number of lines observed.
   */
  method CountIPs(lines: seq<string>, count: array<bv8>) returns (outcome: Outcome<ParseError>, ghost read: nat)
    requires count.Length == COUNT_LENGTH
    modifies count
    ensures read <= |lines| && ParseAll(lines[..read]).Success?
    ensures forall k :: 0 <= k < ADDRESS_SPACE ==>
      Slot(count[..], k) == Replay(Slot(old(count[..]), k), ParseAll(lines[..read]).value, k)
    ensures outcome.Pass? <==> ParseAll(lines).Success?
    ensures outcome.Pass? ==> read == |lines|
    ensures outcome.Fail? ==> read < |lines| && ToLong(lines[read]) == Failure(outcome.error)
    ensures outcome.Fail? ==> ParseAll(lines) == Failure(outcome.error)
  {
    ghost var start := count[..];
    var j := 0;
    assert lines[..0] == [];
    while j < |lines|
      invariant 0 <= j <= |lines| && ParseAll(lines[..j]).Success?
      invariant forall k :: 0 <= k < ADDRESS_SPACE ==>
        Slot(count[..], k) == Replay(Slot(start, k), ParseAll(lines[..j]).value, k)
    {
      var r := ToLong(lines[j]);
      if r.Failure? {
        ParseAllStops(lines, j);
        return Fail(r.error), j;
      }
      var ip := r.value;
      ghost var before := count[..];
      Observe(count, ip);
      ReplayStep(before, count[..], start, ParseAll(lines[..j]).value, ip);
      ParseAllStep(lines, j);
      j := j + 1;
    }
    assert lines[..j] == lines;
    return Pass, j;
  }

  /**
   * From a zeroed histogram, after replaying keys that all lie in the address
   * space, the slots holding 1 are exactly the addresses seen once.
   */
  lemma OnesAreUniqueKeys(start: seq<bv8>, a: seq<bv8>, keys: seq<int>)
    requires |start| == |a| == COUNT_LENGTH
    requires forall i :: 0 <= i < |start| ==> start[i] == 0
    requires forall j :: 0 <= j < |keys| ==> 0 <= keys[j] < ADDRESS_SPACE
    requires forall k :: 0 <= k < ADDRESS_SPACE ==> Slot(a, k) == Replay(Slot(start, k), keys, k)
    ensures OnesBelow(a, ADDRESS_SPACE) == UniqueKeys(keys)
  {
    forall k | k in OnesBelow(a, ADDRESS_SPACE)
      ensures k in UniqueKeys(keys)
    {
      assert start[k / 4] == 0;
      ReplayFromZero(keys, k);
      assert k in multiset(keys);
    }
    forall k | k in UniqueKeys(keys)
      ensures k in OnesBelow(a, ADDRESS_SPACE)
    {
      var j :| 0 <= j < |keys| && keys[j] == k;
      assert start[k / 4] == 0;
      ReplayFromZero(keys, k);
    }
  }

  /**
   * The whole run (`main`): a zeroed array of COUNT_LENGTH bytes, the loop over
   * the lines, then the scan. The result is the number of addresses that occur
   * exactly once, or the error of the first line that does not parse.
   */
  method CountUniqueAddresses(lines: seq<string>) returns (r: Result<int, ParseError>)
    ensures ParseAll(lines).Failure? ==> r == ParseAll(lines).PropagateFailure()
    ensures ParseAll(lines).Success? ==> r == Success(|UniqueKeys(ParseAll(lines).value)|)
  {
    var count := new bv8[COUNT_LENGTH](_ => 0);
    ghost var zero := count[..];
    var outcome, read := CountIPs(lines, count);
    if outcome.Fail? {
      return Failure(outcome.error);
    }
    var unique := CountUnique(count);
    assert lines[..read] == lines;
    ParseAllKeys(lines);
    OnesAreUniqueKeys(zero, count[..], ParseAll(lines).value);
    r := Success(unique);
  }

  // ---------------------------------------------------------------------------
  // What the count means
  // ---------------------------------------------------------------------------

  /** The count depends only on how often each address occurs, not on the order of the lines. */
  lemma UniqueKeysOrderIndependent(keys1: seq<int>, keys2: seq<int>)
    requires multiset(keys1) == multiset(keys2)
    ensures UniqueKeys(keys1) == UniqueKeys(keys2)
  {
    assert forall k :: k in keys1 <==> k in multiset(keys1);
    assert forall k :: k in keys2 <==> k in multiset(keys2);
  }

  /** Of two different addresses, the one seen twice is not counted and the one seen once is. */
  lemma UniqueKeysOfRepeat(ka: int, kb: int)
    requires ka != kb
    ensures UniqueKeys([ka, ka, kb]) == {kb}
  {
    var keys := [ka, ka, kb];
    assert multiset(keys)[ka] == 2 && multiset(keys)[kb] == 1;
  }

  /** The dotted quads of three addresses parse into their keys. */
  lemma ParseAllOfThree(a0: nat, a1: nat, a2: nat, a3: nat, b0: nat, b1: nat, b2: nat, b3: nat)
    requires IsOctet(a0) && IsOctet(a1) && IsOctet(a2) && IsOctet(a3)
    requires IsOctet(b0) && IsOctet(b1) && IsOctet(b2) && IsOctet(b3)
    ensures ParseAll([Format(a0, a1, a2, a3), Format(a0, a1, a2, a3), Format(b0, b1, b2, b3)])
         == Success([Pack(a0, a1, a2, a3), Pack(a0, a1, a2, a3), Pack(b0, b1, b2, b3)])
  {
    var lines := [Format(a0, a1, a2, a3), Format(a0, a1, a2, a3), Format(b0, b1, b2, b3)];
    var keys := [Pack(a0, a1, a2, a3), Pack(a0, a1, a2, a3), Pack(b0, b1, b2, b3)];
    forall j | 0 <= j < 3
      ensures ToLong(lines[j]) == Success(keys[j])
    {
      if j < 2 {
        ToLongOfFormat(a0, a1, a2, a3);
      } else {
        ToLongOfFormat(b0, b1, b2, b3);
      }
    }
    ParseAllOfKeys(lines, keys);
  }

  /** Lines such as "1.1.1.1", "1.1.1.1", "2.2.2.2": exactly one address is seen once. */
  lemma RepeatedAddressExample(a0: nat, a1: nat, a2: nat, a3: nat, b0: nat, b1: nat, b2: nat, b3: nat)
    requires IsOctet(a0) && IsOctet(a1) && IsOctet(a2) && IsOctet(a3)
    requires IsOctet(b0) && IsOctet(b1) && IsOctet(b2) && IsOctet(b3)
    requires (a0, a1, a2, a3) != (b0, b1, b2, b3)
    ensures ParseAll([Format(a0, a1, a2, a3), Format(a0, a1, a2, a3), Format(b0, b1, b2, b3)]).Success?
    ensures |UniqueKeys(ParseAll([Format(a0, a1, a2, a3), Format(a0, a1, a2, a3), Format(b0, b1, b2, b3)]).value)| == 1
  {
    if Pack(a0, a1, a2, a3) == Pack(b0, b1, b2, b3) {
      PackInjective(a0, a1, a2, a3, b0, b1, b2, b3);
    }
    ParseAllOfThree(a0, a1, a2, a3, b0, b1, b2, b3);
    UniqueKeysOfRepeat(Pack(a0, a1, a2, a3), Pack(b0, b1, b2, b3));
  }

  /** With no lines there is nothing to count. */
  lemma EmptyInputExample()
    ensures ParseAll([]) == Success([]) && UniqueKeys([]) == {}
  {
  }
}
