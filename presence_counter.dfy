/**
 * The pseudo-histogram of IPaddressCounter: a byte array of 2^30 cells holding
 * one 2-bit saturating counter per IPv4 address, four per byte. Key `ip` lives
 * in byte `ip / 4` at bit offset `(ip & 3) * 2`. Observing a key moves its slot
 * 0 -> 1 -> 3 and leaves 3 alone; the final scan counts the slots holding 1.
 */
module PresenceCounter {
  import opened AddressParser

  /** `COUNT_LENGTH = 1 << 30`: bytes in the array, four 2-bit slots each. */
  const COUNT_LENGTH: nat := 0x4000_0000

  // ---------------------------------------------------------------------------
  // The abstract view of the array
  // ---------------------------------------------------------------------------

  /** Bit offset of key `k` inside its byte: `(k & 3) * 2`. */
  function Shift(k: int): (s: int)
    requires k >= 0
    ensures s in {0, 2, 4, 6}
  {
    (k % 4) * 2
  }

  /** The 2-bit slot at bit offset `s` of byte `b`: `(b >> s) & 3`. */
  function SlotOf(b: bv8, s: int): (v: bv8)
    requires s in {0, 2, 4, 6}
    ensures v <= 3
  {
    (b >> s) & 3
  }

  /** Byte `b` with the slot at bit offset `s` masked out: the six bits a write to that slot must keep. */
  function Outside(b: bv8, s: int): bv8
    requires s in {0, 2, 4, 6}
  {
    b & !(3 << s)
  }

  /** The slot of key `k`: byte `k / 4`, offset Shift(k). */
  function Slot(a: seq<bv8>, k: int): (v: bv8)
    requires 0 <= k < 4 * |a|
    ensures v <= 3
  {
    SlotOf(a[k / 4], Shift(k))
  }

  /**
   * One more observation of a slot: 0 becomes 1, 1 becomes 3 (2 is ORed into the
   * existing 1), and any other value stays as it is.
   */
  function Next(v: bv8): (r: bv8)
    ensures v <= r && r != 0
    ensures v <= 3 ==> r <= 3
  {
    if v == 0 then 1 else if v == 1 then 3 else v
  }

  /** The slot value the histogram promises for an address seen `n` times: 0 (no), 1 (one), 3 (many). */
  function Saturate(n: nat): bv8 {
    if n == 0 then 0 else if n == 1 then 1 else 3
  }

  /** `n` observations applied to a slot holding `v`. */
  function Iterate(v: bv8, n: nat): bv8 {
    if n == 0 then v else Next(Iterate(v, n - 1))
  }

  /** The value of key `k`'s slot after observing `keys` in order, starting from `v`. */
  function Replay(v: bv8, keys: seq<int>, k: int): bv8 {
    if keys == [] then v
    else
      var before := Replay(v, keys[..|keys| - 1], k);
      if keys[|keys| - 1] == k then Next(before) else before
  }

  /** Only the occurrences of `k` count, so replaying is iterating once per occurrence. */
  lemma {:induction false} ReplayIsIterate(v: bv8, keys: seq<int>, k: int)
    ensures Replay(v, keys, k) == Iterate(v, multiset(keys)[k])
  {
    if keys != [] {
      var init := keys[..|keys| - 1];
      ReplayIsIterate(v, init, k);
      assert keys == init + [keys[|keys| - 1]];
    }
  }

  /** From an empty slot, iterating gives the saturated count. */
  lemma {:induction false} IterateFromZero(n: nat)
    ensures Iterate(0, n) == Saturate(n)
  {
    if n > 0 {
      IterateFromZero(n - 1);
    }
  }

  /** From a zeroed array, each slot holds 0, 1 or 3 as its key occurred never, once or more than once. */
  lemma ReplayFromZero(keys: seq<int>, k: int)
    ensures Replay(0, keys, k) == Saturate(multiset(keys)[k])
  {
    ReplayIsIterate(0, keys, k);
    IterateFromZero(multiset(keys)[k]);
  }

  /** The final slot depends only on how often each key occurred, not on the order of the lines. */
  lemma ReplayOrderIndependent(v: bv8, keys1: seq<int>, keys2: seq<int>, k: int)
    requires multiset(keys1) == multiset(keys2)
    ensures Replay(v, keys1, k) == Replay(v, keys2, k)
  {
    ReplayIsIterate(v, keys1, k);
    ReplayIsIterate(v, keys2, k);
  }

  /** No observation lowers a slot; a slot that does not hold 2 never comes to hold 2; 3 is absorbing. */
  lemma {:induction false} IterateMonotone(v: bv8, n: nat)
    requires v <= 3
    ensures v <= Iterate(v, n) <= 3
    ensures v != 2 ==> Iterate(v, n) != 2
    ensures v == 3 ==> Iterate(v, n) == 3
  {
    if n > 0 {
      IterateMonotone(v, n - 1);
    }
  }

  /** After two or more observations from zero the slot is saturated at 3 and stays there. */
  lemma SaturatesAtThree(n: nat)
    requires n >= 2
    ensures Iterate(0, n) == 3 && Next(Iterate(0, n)) == 3
  {
    IterateFromZero(n);
  }

  /** Every 32-bit key has its own byte inside the array and its own slot inside the byte. */
  lemma SlotAddressing(k1: int, k2: int)
    requires 0 <= k1 < ADDRESS_SPACE && 0 <= k2 < ADDRESS_SPACE
    ensures 0 <= k1 / 4 < COUNT_LENGTH
    ensures k1 != k2 ==> k1 / 4 != k2 / 4 || Shift(k1) != Shift(k2)
  {
  }

  // ---------------------------------------------------------------------------
  // Bit-level facts about one byte
  // ---------------------------------------------------------------------------

  /** Two bytes that agree outside the slot at offset `s` agree on every other slot. */
  lemma SameOutsideSlot(b: bv8, c: bv8, s: int, t: int)
    requires s in {0, 2, 4, 6} && t in {0, 2, 4, 6} && s != t
    requires Outside(b, s) == Outside(c, s)
    ensures SlotOf(b, t) == SlotOf(c, t)
  {
    if s == 0 {
      if t == 2 {} else if t == 4 {} else {}
    } else if s == 2 {
      if t == 0 {} else if t == 4 {} else {}
    } else if s == 4 {
      if t == 0 {} else if t == 2 {} else {}
    } else {
      if t == 0 {} else if t == 2 {} else {}
    }
  }

  /** Two different keys sharing a byte sit at different offsets in it. */
  lemma SameByteOtherShift(k: int, ip: int)
    requires 0 <= k && 0 <= ip && k != ip && k / 4 == ip / 4
    ensures Shift(k) != Shift(ip)
  {
    assert k == 4 * (k / 4) + k % 4;
    assert ip == 4 * (ip / 4) + ip % 4;
  }

  /** The write-back of byte `ip / 4` with only the slot of `ip` changed keeps the slot of key `k` in the same byte. */
  lemma WriteKeepsSlotInByte(a: seq<bv8>, ip: int, c: bv8, k: int)
    requires |a| == COUNT_LENGTH && 0 <= ip < ADDRESS_SPACE && 0 <= k < ADDRESS_SPACE && k != ip
    requires k / 4 == ip / 4
    requires Outside(c, Shift(ip)) == Outside(a[ip / 4], Shift(ip))
    ensures Slot(a[ip / 4 := c], k) == Slot(a, k)
  {
    SameByteOtherShift(k, ip);
    SameOutsideSlot(a[ip / 4], c, Shift(ip), Shift(k));
    assert a[ip / 4 := c][k / 4] == c;
  }

  /** Writing back the byte of `ip` with only its two bits at Shift(ip) changed leaves key `k`'s slot alone. */
  lemma WriteKeepsSlot(a: seq<bv8>, ip: int, c: bv8, k: int)
    requires |a| == COUNT_LENGTH && 0 <= ip < ADDRESS_SPACE && 0 <= k < ADDRESS_SPACE && k != ip
    requires Outside(c, Shift(ip)) == Outside(a[ip / 4], Shift(ip))
    ensures Slot(a[ip / 4 := c], k) == Slot(a, k)
  {
    if k / 4 == ip / 4 {
      WriteKeepsSlotInByte(a, ip, c, k);
    } else {
      assert a[ip / 4 := c][k / 4] == a[k / 4];
    }
  }

  /** The same, for every key other than `ip`. */
  lemma WriteKeepsOtherSlots(a: seq<bv8>, ip: int, c: bv8)
    requires |a| == COUNT_LENGTH && 0 <= ip < ADDRESS_SPACE
    requires Outside(c, Shift(ip)) == Outside(a[ip / 4], Shift(ip))
    ensures forall k :: 0 <= k < ADDRESS_SPACE && k != ip ==> Slot(a[ip / 4 := c], k) == Slot(a, k)
  {
    forall k | 0 <= k < ADDRESS_SPACE && k != ip
      ensures Slot(a[ip / 4 := c], k) == Slot(a, k)
    {
      WriteKeepsSlot(a, ip, c, k);
    }
  }

  /** ORing 1 into an empty slot makes it 1; ORing 2 into a slot holding 1 makes it 3. */
  lemma OrAdvancesSlot(b: bv8, s: int)
    requires s in {0, 2, 4, 6}
    ensures SlotOf(b, s) == 0 ==> SlotOf(b | (1 << s), s) == 1
    ensures SlotOf(b, s) == 1 ==> SlotOf(b | (2 << s), s) == 3
    ensures Outside(b | (1 << s), s) == Outside(b, s)
    ensures Outside(b | (2 << s), s) == Outside(b, s)
  {
    if s == 0 {} else if s == 2 {} else if s == 4 {} else {}
  }

  // ---------------------------------------------------------------------------
  // The per-line update and the final scan
  // ---------------------------------------------------------------------------

  /**
   * One observation of `ip` (the body of the loop over lines): read byte ip / 4,
   * extract the slot, and write the byte back only when the slot was 0 or 1.
   */
  method Observe(count: array<bv8>, ip: int)
    requires count.Length == COUNT_LENGTH
    requires 0 <= ip < ADDRESS_SPACE
    modifies count
    ensures Slot(count[..], ip) == Next(old(Slot(count[..], ip)))
    ensures forall k :: 0 <= k < ADDRESS_SPACE && k != ip ==> Slot(count[..], k) == Slot(old(count[..]), k)
    ensures forall j :: 0 <= j < COUNT_LENGTH && j != ip / 4 ==> count[j] == old(count[j])
    ensures Outside(count[ip / 4], Shift(ip)) == Outside(old(count[ip / 4]), Shift(ip))
  {
    var i := ip / 4;
    var b := count[i];
    var shift := Shift(ip);
    var cnt := (b >> shift) & 3;
    assert cnt == SlotOf(b, shift);
    OrAdvancesSlot(b, shift);
    if cnt == 0 {
      b := b | (1 << shift);
      count[i] := b;
    } else if cnt == 1 {
      b := b | (2 << shift);
      count[i] := b;
    }
    assert count[..] == old(count[..])[i := b];
    WriteKeepsOtherSlots(old(count[..]), ip, b);
  }

  /** The keys below `n` whose slot holds exactly 1. */
  ghost function OnesBelow(a: seq<bv8>, n: int): set<int>
    requires 0 <= n <= 4 * |a|
  {
    set k | 0 <= k < n && Slot(a, k) == 1
  }

  /** Extending the range by one key adds that key exactly when its slot holds 1. */
  lemma OnesBelowStep(a: seq<bv8>, n: int)
    requires 0 <= n < 4 * |a|
    ensures |OnesBelow(a, n + 1)| == |OnesBelow(a, n)| + (if Slot(a, n) == 1 then 1 else 0)
  {
    var one := Slot(a, n) == 1;
    assert OnesBelow(a, n + 1) == OnesBelow(a, n) + (if one then {n} else {}) by {
      forall x | x in OnesBelow(a, n + 1) ensures x in OnesBelow(a, n) || (one && x == n) {}
    }
  }

  /** The four keys of byte `i` sit at offsets 0, 2, 4 and 6 of it. */
  lemma SlotsOfByte(a: seq<bv8>, i: int)
    requires 0 <= i < |a|
    ensures Slot(a, 4 * i) == a[i] & 3
    ensures Slot(a, 4 * i + 1) == (a[i] >> 2) & 3
    ensures Slot(a, 4 * i + 2) == (a[i] >> 4) & 3
    ensures Slot(a, 4 * i + 3) == (a[i] >> 6) & 3
  {
    assert (4 * i) / 4 == i && (4 * i) % 4 == 0;
    assert (4 * i + 1) / 4 == i && (4 * i + 1) % 4 == 1;
    assert (4 * i + 2) / 4 == i && (4 * i + 2) % 4 == 2;
    assert (4 * i + 3) / 4 == i && (4 * i + 3) % 4 == 3;
  }

  /** Scanning byte `i` adds one for each of its four slots that holds 1. */
  lemma OnesBelowByte(a: seq<bv8>, i: int)
    requires 0 <= i < |a|
    ensures |OnesBelow(a, 4 * i + 4)| == |OnesBelow(a, 4 * i)|
      + (if Slot(a, 4 * i) == 1 then 1 else 0) + (if Slot(a, 4 * i + 1) == 1 then 1 else 0)
      + (if Slot(a, 4 * i + 2) == 1 then 1 else 0) + (if Slot(a, 4 * i + 3) == 1 then 1 else 0)
  {
    OnesBelowStep(a, 4 * i);
    OnesBelowStep(a, 4 * i + 1);
    OnesBelowStep(a, 4 * i + 2);
    OnesBelowStep(a, 4 * i + 3);
  }

  /** At most one key per slot: the count never exceeds the number of slots scanned. */
  lemma {:induction false} OnesBelowBound(a: seq<bv8>, n: int)
    requires 0 <= n <= 4 * |a|
    ensures |OnesBelow(a, n)| <= n
  {
    if n > 0 {
      OnesBelowBound(a, n - 1);
      OnesBelowStep(a, n - 1);
    }
  }

  /** A zeroed array has no slot holding 1. */
  lemma OnesBelowOfZero(a: seq<bv8>, n: int)
    requires 0 <= n <= 4 * |a|
    requires forall i :: 0 <= i < |a| ==> a[i] == 0
    ensures OnesBelow(a, n) == {}
  {
    forall k | 0 <= k < n ensures Slot(a, k) == 0 {
      assert a[k / 4] == 0;
    }
  }

  /**
   * `countUnique`: scans every byte once, testing its four slots, and returns how
   * many slots hold exactly 1. The array is only read.
   */
  method CountUnique(count: array<bv8>) returns (unique: int)
    requires count.Length == COUNT_LENGTH
    ensures unique == |OnesBelow(count[..], ADDRESS_SPACE)|
    ensures 0 <= unique <= ADDRESS_SPACE
  {
    ghost var a := count[..];
    unique := 0;
    var i := 0;
    while i < COUNT_LENGTH
      invariant 0 <= i <= COUNT_LENGTH
      invariant unique == |OnesBelow(a, 4 * i)|
    {
      var b := count[i];
      assert b == a[i];
      OnesBelowByte(a, i);
      SlotsOfByte(a, i);
      if b & 3 == 1 {
        unique := unique + 1;
      }
      if (b >> 2) & 3 == 1 {
        unique := unique + 1;
      }
      if (b >> 4) & 3 == 1 {
        unique := unique + 1;
      }
      if (b >> 6) & 3 == 1 {
        unique := unique + 1;
      }
      i := i + 1;
    }
    OnesBelowBound(a, ADDRESS_SPACE);
  }
}
