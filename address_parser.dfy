/**
 * The dotted-quad parser of IPaddressCounter: `toLong` splits a line on '.',
 * `toDigit` reads each of the four fields with `Long.valueOf` and checks it is an
 * octet, and the octets are packed big-endian into one 32-bit key.
 * Every exception the Java code throws is a `Failure` here.
 */
module AddressParser {
  import opened Results

  /** The three IllegalArgumentException messages, each with the text it quotes. */
  datatype ParseError =
    | NoFourDigits(line: string)   // "No 4 digits in ip: "
    | NotANumber(field: string)    // "Not a number: "
    | OutOfRange(field: string)    // "IP digit is out of range: "

  const LONG_MIN: int := -0x8000_0000_0000_0000
  const LONG_MAX: int := 0x7FFF_FFFF_FFFF_FFFF

  /** Number of IPv4 addresses, 2^32: every key lies below it. */
  const ADDRESS_SPACE: int := 0x1_0000_0000

  // ---------------------------------------------------------------------------
  // Splitting on '.' as java.lang.String.split("\\.") does
  // ---------------------------------------------------------------------------

  /** Re-assembles fields with a '.' between neighbours. */
  function Join(fields: seq<string>): string
    requires |fields| >= 1
  {
    if |fields| == 1 then fields[0] else fields[0] + "." + Join(fields[1..])
  }

  /** All the pieces of `s` between dots, empty ones included. */
  function Fields(s: string): (r: seq<string>)
    ensures |r| >= 1
    ensures forall j :: 0 <= j < |r| ==> '.' !in r[j]
  {
    if |s| == 0 then [""]
    else
      var rest := Fields(s[1..]);
      if s[0] == '.' then [""] + rest
      else [[s[0]] + rest[0]] + rest[1..]
  }

  /** Removes the empty strings at the end, as split with limit 0 does. */
  function DropTrailingEmpty(fields: seq<string>): (r: seq<string>)
    ensures r <= fields
    ensures r == [] || r[|r| - 1] != ""
    ensures forall j :: |r| <= j < |fields| ==> fields[j] == ""
  {
    if |fields| == 0 then []
    else if fields[|fields| - 1] == "" then DropTrailingEmpty(fields[..|fields| - 1])
    else fields
  }

  /**
   * `line.split("\\.")`: a line without any dot is its own single field (so ""
   * gives [""]); otherwise the fields with the trailing empty ones dropped.
   */
  function SplitDots(s: string): (r: seq<string>)
    ensures forall j :: 0 <= j < |r| ==> '.' !in r[j]
  {
    if '.' !in s then [s] else DropTrailingEmpty(Fields(s))
  }

  /** Joining the pieces between the dots gives the line back. */
  lemma {:induction false} JoinOfFields(s: string)
    ensures Join(Fields(s)) == s
  {
    if |s| > 0 {
      JoinOfFields(s[1..]);
    }
  }

  /**
   * What split keeps: the line itself when it has no dot, otherwise a prefix of
   * its fields that does not end in an empty field, after which only empty fields follow.
   */
  lemma SplitDotsKeeps(s: string)
    ensures '.' !in s ==> SplitDots(s) == [s]
    ensures '.' in s ==> SplitDots(s) <= Fields(s) && (SplitDots(s) == [] || SplitDots(s)[|SplitDots(s)| - 1] != "")
    ensures '.' in s ==> forall j :: |SplitDots(s)| <= j < |Fields(s)| ==> Fields(s)[j] == ""
  {
  }

  /** A piece that holds no dot keeps its text in front of the first field of what follows. */
  lemma {:induction false} FieldsOfPrefix(f: string, t: string)
    requires '.' !in f
    ensures Fields(f + t) == [f + Fields(t)[0]] + Fields(t)[1..]
  {
    if |f| > 0 {
      assert (f + t)[1..] == f[1..] + t;
      FieldsOfPrefix(f[1..], t);
      assert [f[0]] + (f[1..] + Fields(t)[0]) == f + Fields(t)[0];
    } else {
      assert f + t == t;
      assert f + Fields(t)[0] == Fields(t)[0];
      assert Fields(t) == [Fields(t)[0]] + Fields(t)[1..];
    }
  }

  /** Splitting what Join assembled gives back the dot-free fields. */
  lemma {:induction false} FieldsOfJoin(fields: seq<string>)
    requires |fields| >= 1
    requires forall j :: 0 <= j < |fields| ==> '.' !in fields[j]
    ensures Fields(Join(fields)) == fields
  {
    if |fields| == 1 {
      FieldsOfPrefix(fields[0], "");
      assert fields[0] + "" == fields[0];
    } else {
      var tail := Join(fields[1..]);
      FieldsOfJoin(fields[1..]);
      FieldsOfPrefix(fields[0], "." + tail);
      assert ("." + tail)[1..] == tail;
      assert Fields("." + tail) == [""] + fields[1..];
      assert fields[0] + "" == fields[0];
      assert Join(fields) == fields[0] + ("." + tail);
    }
  }

  // ---------------------------------------------------------------------------
  // Long.valueOf on one field
  // ---------------------------------------------------------------------------

  predicate IsOctet(o: int) {
    0 <= o <= 255
  }

  predicate IsDigit(c: char) {
    '0' <= c <= '9'
  }

  predicate AllDigits(s: string) {
    forall j :: 0 <= j < |s| ==> IsDigit(s[j])
  }

  /** The value of a string of decimal digits, most significant first. */
  function DigitsValue(ds: string): nat
    requires AllDigits(ds)
  {
    if |ds| == 0 then 0
    else DigitsValue(ds[..|ds| - 1]) * 10 + (ds[|ds| - 1] as int - '0' as int)
  }

  /** Reads `ds` as decimal digits, most significant first; None as soon as a character is not an ASCII digit. */
  function ReadDigits(ds: string): (r: Option<nat>)
    ensures r.None? ==> exists j :: 0 <= j < |ds| && !IsDigit(ds[j])
  {
    if |ds| == 0 then Some(0)
    else
      match ReadDigits(ds[..|ds| - 1])
      case None => None
      case Some(v) =>
        var c := ds[|ds| - 1];
        if IsDigit(c) then Some(v * 10 + (c as int - '0' as int)) else None
  }

  /** Reading digits succeeds exactly on strings of digits, with the value they spell. */
  lemma {:induction false} ReadDigitsValue(ds: string)
    ensures ReadDigits(ds) == if AllDigits(ds) then Some(DigitsValue(ds)) else None
  {
    if |ds| > 0 {
      var init := ds[..|ds| - 1];
      ReadDigitsValue(init);
      if AllDigits(ds) {
        assert AllDigits(init) by {
          forall j | 0 <= j < |init| ensures IsDigit(init[j]) {
            assert init[j] == ds[j];
          }
        }
      }
    }
  }

  /**
   * `Long.valueOf(s)`: an optional '+' or '-' followed by one or more ASCII digits,
   * whose value fits in a signed 64-bit long; anything else is a NumberFormatException.
   */
  function ParseLong(s: string): (r: Option<int>)
    ensures r.Some? ==> LONG_MIN <= r.value <= LONG_MAX
  {
    var signed := |s| > 0 && (s[0] == '-' || s[0] == '+');
    var digits := if signed then s[1..] else s;
    if |digits| == 0 then None
    else
      match ReadDigits(digits)
      case None => None
      case Some(n) =>
        var v: int := if signed && s[0] == '-' then -(n as int) else n;
        if LONG_MIN <= v <= LONG_MAX then Some(v) else None
  }

  /** The text of a field after its optional leading '+' or '-'. */
  function Unsigned(s: string): (d: string)
    ensures |d| <= |s|
  {
    if |s| > 0 && (s[0] == '-' || s[0] == '+') then s[1..] else s
  }

  /** A decimal literal: an optional sign, then one or more ASCII digits. */
  predicate IsLiteral(s: string) {
    |Unsigned(s)| >= 1 && AllDigits(Unsigned(s))
  }

  /** The number a decimal literal spells, negated after a leading '-'. */
  function LiteralValue(s: string): int
    requires IsLiteral(s)
  {
    if s[0] == '-' then -(DigitsValue(Unsigned(s)) as int) else DigitsValue(Unsigned(s))
  }

  /**
   * Long.valueOf exactly: a literal whose value fits in a long is read as that
   * value, so "+7" and "007" are 7 and "-0" is 0; everything else throws.
   */
  lemma ParseLongExactly(s: string)
    ensures ParseLong(s) == if IsLiteral(s) && LONG_MIN <= LiteralValue(s) <= LONG_MAX
                            then Some(LiteralValue(s)) else None
  {
    ReadDigitsValue(Unsigned(s));
  }

  /** Whatever Long.valueOf accepts is a non-empty run of digits after an optional sign; a sign alone is refused. */
  lemma ParseLongForm(s: string)
    ensures ParseLong(s).Some? ==> |s| >= 1 && AllDigits(Unsigned(s))
    ensures ParseLong(s).Some? ==> exists j :: 0 <= j < |s| && IsDigit(s[j])
  {
    if ParseLong(s).Some? {
      var digits := Unsigned(s);
      ReadDigitsValue(digits);
      assert IsDigit(digits[0]);
      assert digits[0] == s[|s| - |digits|];
    }
  }

  /** The canonical decimal spelling of `n`, the partner of DigitsValue. */
  function Decimal(n: nat): (s: string)
    ensures |s| >= 1 && AllDigits(s)
    ensures DigitsValue(s) == n
  {
    if n < 10 then [('0' as int + n) as char]
    else
      var s := Decimal(n / 10) + [('0' as int + n % 10) as char];
      assert s[..|s| - 1] == Decimal(n / 10);
      s
  }

  /** A decimal spelling is read back as the number it spells, and a minus sign negates it. */
  lemma ParseLongOfDecimal(n: nat)
    ensures n <= LONG_MAX ==> ParseLong(Decimal(n)) == Some(n)
    ensures n > LONG_MAX ==> ParseLong(Decimal(n)) == None
  {
    var d := Decimal(n);
    ReadDigitsValue(d);
    assert IsDigit(d[0]);
  }

  /** A minus sign before a decimal spelling negates it, down to LONG_MIN; below that Long.valueOf throws. */
  lemma ParseLongOfNegatedDecimal(n: nat)
    ensures 0 < n <= -LONG_MIN ==> ParseLong("-" + Decimal(n)) == Some(-(n as int))
    ensures n > -LONG_MIN ==> ParseLong("-" + Decimal(n)) == None
  {
    var d := Decimal(n);
    ReadDigitsValue(d);
    assert IsDigit(d[0]);
    assert ("-" + d)[1..] == d;
  }

  /**
   * `toDigit`: NotANumber when Long.valueOf throws, OutOfRange for a long outside
   * [0, 255], the octet otherwise.
   */
  function ToDigit(s: string): (r: Result<int, ParseError>)
    ensures r.Success? ==> IsOctet(r.value) && ParseLong(s) == Some(r.value)
    ensures r.Failure? ==> r.error == NotANumber(s) || r.error == OutOfRange(s)
  {
    match ParseLong(s)
    case None => Failure(NotANumber(s))
    case Some(i) => if i < 0 || i > 255 then Failure(OutOfRange(s)) else Success(i)
  }

  /** toDigit accepts exactly the longs in [0, 255]; it says "not a number" exactly when Long.valueOf throws. */
  lemma ToDigitAccepts(s: string)
    ensures ToDigit(s).Success? <==> ParseLong(s).Some? && IsOctet(ParseLong(s).value)
    ensures ToDigit(s) == Failure(NotANumber(s)) <==> ParseLong(s).None?
  {
  }

  /** How toDigit treats numbers spelled in decimal: octets pass, the rest of the long range is out of range. */
  lemma ToDigitOfDecimal(n: nat)
    ensures n <= 255 ==> ToDigit(Decimal(n)) == Success(n)
    ensures 255 < n <= LONG_MAX ==> ToDigit(Decimal(n)) == Failure(OutOfRange(Decimal(n)))
    ensures n > LONG_MAX ==> ToDigit(Decimal(n)) == Failure(NotANumber(Decimal(n)))
  {
    ParseLongOfDecimal(n);
  }

  /** A minus sign before a decimal spelling: out of range down to LONG_MIN, not a number below it. */
  lemma ToDigitOfNegatedDecimal(n: nat)
    ensures 0 < n <= -LONG_MIN ==> ToDigit("-" + Decimal(n)) == Failure(OutOfRange("-" + Decimal(n)))
    ensures n > -LONG_MIN ==> ToDigit("-" + Decimal(n)) == Failure(NotANumber("-" + Decimal(n)))
  {
    ParseLongOfNegatedDecimal(n);
  }

  /**
   * toDigit exactly: "Not a number" unless the field is a literal whose value fits
   * in a long, then "out of range" unless that value is an octet, else the octet.
   */
  lemma ToDigitExactly(s: string)
    ensures ToDigit(s) ==
      if !IsLiteral(s) || !(LONG_MIN <= LiteralValue(s) <= LONG_MAX) then Failure(NotANumber(s))
      else if !IsOctet(LiteralValue(s)) then Failure(OutOfRange(s))
      else Success(LiteralValue(s))
  {
    ParseLongExactly(s);
  }

  /** A '+' sign is accepted, a sign alone is not a number. */
  lemma ToDigitPlusSign()
    ensures ToDigit("+7") == Success(7)
    ensures ToDigit("+") == Failure(NotANumber("+"))
  {
    ToDigitExactly("+7");
    ToDigitExactly("+");
  }

  /** Leading zeros are accepted, and so is minus zero. */
  lemma ToDigitLeadingZeros()
    ensures ToDigit("007") == Success(7)
    ensures ToDigit("-0") == Success(0)
  {
    ToDigitExactly("007");
    assert "007"[..2] == "00" && "00"[..1] == "0";
    ToDigitExactly("-0");
  }

  /** Leading zeros do not hide a value above 255. */
  lemma ToDigitLeadingZeroOutOfRange()
    ensures ToDigit("0256") == Failure(OutOfRange("0256"))
  {
    ToDigitExactly("0256");
    assert "0256"[..3] == "025" && "025"[..2] == "02" && "02"[..1] == "0" && "0"[..0] == "";
    assert DigitsValue("02") == 2;
    assert DigitsValue("0256") == 256;
  }

  /** A field holding a character other than a digit after its optional sign, or no digit at all, is not a number. */
  lemma ToDigitNotANumber(s: string, j: int)
    requires 0 <= j < |s| && !IsDigit(s[j])
    requires j > 0 || (s[0] != '-' && s[0] != '+') || |s| == 1
    ensures ToDigit(s) == Failure(NotANumber(s))
  {
    if |s| > 1 && (s[0] == '-' || s[0] == '+') {
      ReadDigitsValue(s[1..]);
      assert s[1..][j - 1] == s[j];
    } else {
      ReadDigitsValue(s);
    }
  }

  // ---------------------------------------------------------------------------
  // Packing four octets into a key, and taking them out again
  // ---------------------------------------------------------------------------

  /** `o0 << 24 | o1 << 16 | o2 << 8 | o3` for octets; the bit ranges are disjoint, so | is +. */
  function Pack(o0: int, o1: int, o2: int, o3: int): (key: int)
    ensures IsOctet(o0) && IsOctet(o1) && IsOctet(o2) && IsOctet(o3) ==> 0 <= key < ADDRESS_SPACE
  {
    o0 * 0x100_0000 + o1 * 0x1_0000 + o2 * 0x100 + o3
  }

  /** Octet `j` of a key, most significant first: `(key >> (24 - 8 * j)) & 0xFF`. */
  function Octet(key: int, j: int): int
    requires 0 <= j < 4
  {
    var scale := if j == 0 then 0x100_0000 else if j == 1 then 0x1_0000 else if j == 2 then 0x100 else 1;
    (key / scale) % 0x100
  }

  /** Multiplying by a positive number keeps the order. */
  lemma MulMonotone(a: int, b: int, d: int)
    requires a <= b && d > 0
    ensures a * d <= b * d
  {
    assert b * d - a * d == (b - a) * d;
  }

  /** Division by a positive `d` recovers the quotient and remainder of `x == q * d + r`. */
  lemma DivMod(x: int, q: int, r: int, d: int)
    requires d > 0 && 0 <= r < d && x == q * d + r
    ensures x / d == q && x % d == r
  {
    var q', r' := x / d, x % d;
    assert x == q' * d + r';
    if q' < q {
      MulMonotone(q' + 1, q, d);
    } else if q < q' {
      MulMonotone(q + 1, q', d);
    }
  }

  /** toLong's OR of shifted octets equals the sum Pack computes, in 32-bit arithmetic. */
  lemma PackIsBitwiseOr(o0: bv32, o1: bv32, o2: bv32, o3: bv32)
    requires o0 < 256 && o1 < 256 && o2 < 256 && o3 < 256
    ensures (o0 << 24) | (o1 << 16) | (o2 << 8) | o3 == o0 * 0x100_0000 + o1 * 0x1_0000 + o2 * 0x100 + o3
  {
  }

  /** 2^k. */
  function Pow2(k: nat): (p: nat)
    ensures p >= 1
  {
    if k == 0 then 1 else 2 * Pow2(k - 1)
  }

  /** The three shift distances of toLong as powers of two. */
  lemma Pow2Shifts()
    ensures Pow2(8) == 0x100 && Pow2(16) == 0x1_0000 && Pow2(24) == 0x100_0000
  {
    assert Pow2(4) == 16;
    assert Pow2(8) == 0x100;
    assert Pow2(16) == 0x1_0000;
  }

  /** Java's `|` on two non-negative longs, one bit at a time from the lowest. */
  function BitOr(a: nat, b: nat): (r: nat)
    ensures a <= r && b <= r
    decreases a + b
  {
    if a == 0 then b
    else if b == 0 then a
    else 2 * BitOr(a / 2, b / 2) + (if a % 2 == 1 || b % 2 == 1 then 1 else 0)
  }

  /** When every bit of `b` lies below bit `k` and every bit of `a` at or above it, OR is addition. */
  lemma {:induction false} BitOrDisjoint(a: nat, b: nat, c: nat, k: nat, p: nat)
    requires p == Pow2(k) && a == c * p && b < p
    ensures BitOr(a, b) == a + b
  {
    if k > 0 && a != 0 && b != 0 {
      var p' := Pow2(k - 1);
      assert a == 2 * (c * p');
      BitOrDisjoint(a / 2, b / 2, c, k - 1, p');
    }
  }

  /**
   * toLong's `(d0 << 24) | (d1 << 16) | (d2 << 8) | d3` on octets, with each
   * shift written as the multiplication it is for a long below 2^8, is Pack.
   */
  lemma PackIsBitOr(o0: int, o1: int, o2: int, o3: int)
    requires IsOctet(o0) && IsOctet(o1) && IsOctet(o2) && IsOctet(o3)
    ensures BitOr(BitOr(BitOr(o0 * 0x100_0000, o1 * 0x1_0000), o2 * 0x100), o3) == Pack(o0, o1, o2, o3)
  {
    Pow2Shifts();
    var x0 := o0 * 0x100_0000;
    BitOrDisjoint(x0, o1 * 0x1_0000, o0, 24, 0x100_0000);
    var x1 := x0 + o1 * 0x1_0000;
    BitOrDisjoint(x1, o2 * 0x100, o0 * 0x100 + o1, 16, 0x1_0000);
    var x2 := x1 + o2 * 0x100;
    BitOrDisjoint(x2, o3, o0 * 0x1_0000 + o1 * 0x100 + o2, 8, 0x100);
    assert BitOr(o0 * 0x100_0000, o1 * 0x1_0000) == x1;
    assert BitOr(BitOr(o0 * 0x100_0000, o1 * 0x1_0000), o2 * 0x100) == x2;
  }

  /** A packed key is a 32-bit value and the four octets come back out of it. */
  lemma OctetsOfPack(o0: int, o1: int, o2: int, o3: int)
    requires IsOctet(o0) && IsOctet(o1) && IsOctet(o2) && IsOctet(o3)
    ensures 0 <= Pack(o0, o1, o2, o3) < ADDRESS_SPACE
    ensures Octet(Pack(o0, o1, o2, o3), 0) == o0
    ensures Octet(Pack(o0, o1, o2, o3), 1) == o1
    ensures Octet(Pack(o0, o1, o2, o3), 2) == o2
    ensures Octet(Pack(o0, o1, o2, o3), 3) == o3
  {
    var key := Pack(o0, o1, o2, o3);
    DivMod(key, o0, o1 * 0x1_0000 + o2 * 0x100 + o3, 0x100_0000);
    DivMod(key, o0 * 0x100 + o1, o2 * 0x100 + o3, 0x1_0000);
    DivMod(key, o0 * 0x1_0000 + o1 * 0x100 + o2, o3, 0x100);
    DivMod(o0 * 0x100 + o1, o0, o1, 0x100);
    DivMod(o0 * 0x1_0000 + o1 * 0x100 + o2, o0 * 0x100 + o1, o2, 0x100);
    DivMod(key, o0 * 0x10000 + o1 * 0x100 + o2, o3, 0x100);
  }

  /** Every 32-bit key is the packing of its own octets. */
  lemma PackOfOctets(key: int)
    requires 0 <= key < ADDRESS_SPACE
    ensures IsOctet(Octet(key, 0)) && IsOctet(Octet(key, 1)) && IsOctet(Octet(key, 2)) && IsOctet(Octet(key, 3))
    ensures Pack(Octet(key, 0), Octet(key, 1), Octet(key, 2), Octet(key, 3)) == key
  {
    var q1, q2, q3 := key / 0x100_0000, key / 0x1_0000, key / 0x100;
    DivMod(key, q3, key % 0x100, 0x100);
    DivMod(q3, q2, q3 % 0x100, 0x100);
    DivMod(q2, q1, q2 % 0x100, 0x100);
    DivMod(key, q2, key % 0x1_0000, 0x1_0000);
    DivMod(key, q1, key % 0x100_0000, 0x100_0000);
  }

  /** Distinct quadruples of octets give distinct keys. */
  lemma PackInjective(a0: int, a1: int, a2: int, a3: int, b0: int, b1: int, b2: int, b3: int)
    requires IsOctet(a0) && IsOctet(a1) && IsOctet(a2) && IsOctet(a3)
    requires IsOctet(b0) && IsOctet(b1) && IsOctet(b2) && IsOctet(b3)
    requires Pack(a0, a1, a2, a3) == Pack(b0, b1, b2, b3)
    ensures a0 == b0 && a1 == b1 && a2 == b2 && a3 == b3
  {
    OctetsOfPack(a0, a1, a2, a3);
    OctetsOfPack(b0, b1, b2, b3);
  }

  // ---------------------------------------------------------------------------
  // toLong
  // ---------------------------------------------------------------------------

  /**
   * `toLong`: exactly four fields, each read by toDigit from left to right (the
   * first bad one decides the error), packed into the key.
   */
  function ToLong(line: string): (r: Result<int, ParseError>)
    ensures r.Success? ==> 0 <= r.value < ADDRESS_SPACE
    ensures |SplitDots(line)| != 4 <==> r == Failure(NoFourDigits(line))
  {
    var fields := SplitDots(line);
    if |fields| != 4 then Failure(NoFourDigits(line))
    else PackDigits(ToDigit(fields[0]), ToDigit(fields[1]), ToDigit(fields[2]), ToDigit(fields[3]))
  }

  /** The four toDigit outcomes of a line, left to right: the first failure, or the packed key. */
  function PackDigits(r0: Result<int, ParseError>, r1: Result<int, ParseError>,
                      r2: Result<int, ParseError>, r3: Result<int, ParseError>): (r: Result<int, ParseError>)
    requires r0.Success? ==> IsOctet(r0.value)
    requires r1.Success? ==> IsOctet(r1.value)
    requires r2.Success? ==> IsOctet(r2.value)
    requires r3.Success? ==> IsOctet(r3.value)
    ensures r.Success? ==> 0 <= r.value < ADDRESS_SPACE
  {
    var o0 :- r0;
    var o1 :- r1;
    var o2 :- r2;
    var o3 :- r3;
    OctetsOfPack(o0, o1, o2, o3);
    Success(Pack(o0, o1, o2, o3))
  }

  /** A successful line has four fields, and each of them is toDigit's reading of the matching octet of the key. */
  lemma ToLongOctets(line: string)
    requires ToLong(line).Success?
    ensures |SplitDots(line)| == 4
    ensures forall j :: 0 <= j < 4 ==> ToDigit(SplitDots(line)[j]) == Success(Octet(ToLong(line).value, j))
  {
    var f := SplitDots(line);
    PackDigitsOctets(ToDigit(f[0]), ToDigit(f[1]), ToDigit(f[2]), ToDigit(f[3]));
    assert ToLong(line) == PackDigits(ToDigit(f[0]), ToDigit(f[1]), ToDigit(f[2]), ToDigit(f[3]));
  }

  /** A successful packing holds each outcome's octet at its place in the key. */
  lemma PackDigitsOctets(r0: Result<int, ParseError>, r1: Result<int, ParseError>,
                         r2: Result<int, ParseError>, r3: Result<int, ParseError>)
    requires r0.Success? ==> IsOctet(r0.value)
    requires r1.Success? ==> IsOctet(r1.value)
    requires r2.Success? ==> IsOctet(r2.value)
    requires r3.Success? ==> IsOctet(r3.value)
    requires PackDigits(r0, r1, r2, r3).Success?
    ensures r0 == Success(Octet(PackDigits(r0, r1, r2, r3).value, 0))
    ensures r1 == Success(Octet(PackDigits(r0, r1, r2, r3).value, 1))
    ensures r2 == Success(Octet(PackDigits(r0, r1, r2, r3).value, 2))
    ensures r3 == Success(Octet(PackDigits(r0, r1, r2, r3).value, 3))
  {
    OctetsOfPack(r0.value, r1.value, r2.value, r3.value);
  }

  /** Of four outcomes, the packing fails with the error of the leftmost failure. */
  lemma PackDigitsFirstFailure(rs: seq<Result<int, ParseError>>)
    requires |rs| == 4 && forall j :: 0 <= j < 4 && rs[j].Success? ==> IsOctet(rs[j].value)
    requires PackDigits(rs[0], rs[1], rs[2], rs[3]).Failure?
    ensures exists j :: 0 <= j < 4 && rs[j] == PackDigits(rs[0], rs[1], rs[2], rs[3]) &&
                        (forall i :: 0 <= i < j ==> rs[i].Success?)
  {
    if rs[0].Failure? {
      assert rs[0] == PackDigits(rs[0], rs[1], rs[2], rs[3]);
    } else if rs[1].Failure? {
      assert rs[1] == PackDigits(rs[0], rs[1], rs[2], rs[3]);
    } else if rs[2].Failure? {
      assert rs[2] == PackDigits(rs[0], rs[1], rs[2], rs[3]);
    } else {
      assert rs[3] == PackDigits(rs[0], rs[1], rs[2], rs[3]);
    }
  }

  /** With four fields present, toLong fails exactly when some field fails, with the error of the leftmost one. */
  lemma ToLongFirstBadField(line: string)
    requires |SplitDots(line)| == 4 && ToLong(line).Failure?
    ensures exists j :: 0 <= j < 4 && ToDigit(SplitDots(line)[j]) == ToLong(line) &&
                        (forall i :: 0 <= i < j ==> ToDigit(SplitDots(line)[i]).Success?)
  {
    var f := SplitDots(line);
    var rs := [ToDigit(f[0]), ToDigit(f[1]), ToDigit(f[2]), ToDigit(f[3])];
    PackDigitsFirstFailure(rs);
    var j :| 0 <= j < 4 && rs[j] == PackDigits(rs[0], rs[1], rs[2], rs[3]) && (forall i :: 0 <= i < j ==> rs[i].Success?);
    assert forall i :: 0 <= i < 4 ==> rs[i] == ToDigit(f[i]);
  }

  /** Conversely, the leftmost failing field's error is the error of the whole line. */
  lemma ToLongFailsAt(line: string, j: int)
    requires |SplitDots(line)| == 4 && 0 <= j < 4
    requires forall i :: 0 <= i < j ==> ToDigit(SplitDots(line)[i]).Success?
    requires ToDigit(SplitDots(line)[j]).Failure?
    ensures ToLong(line) == Failure(ToDigit(SplitDots(line)[j]).error)
  {
  }

  /** Four fields that are all octets make the line their packed key. */
  lemma ToLongSucceeds(line: string)
    requires |SplitDots(line)| == 4
    requires forall i :: 0 <= i < 4 ==> ToDigit(SplitDots(line)[i]).Success?
    ensures ToLong(line) == Success(Pack(ToDigit(SplitDots(line)[0]).value, ToDigit(SplitDots(line)[1]).value,
                                         ToDigit(SplitDots(line)[2]).value, ToDigit(SplitDots(line)[3]).value))
  {
  }

  /** The dotted-quad spelling of four numbers. */
  function Format(o0: nat, o1: nat, o2: nat, o3: nat): string {
    Decimal(o0) + "." + Decimal(o1) + "." + Decimal(o2) + "." + Decimal(o3)
  }

  /** Split undoes Join when there are at least two dot-free fields and the last is not empty. */
  lemma SplitDotsOfJoin(fields: seq<string>)
    requires |fields| >= 2 && fields[|fields| - 1] != ""
    requires forall j :: 0 <= j < |fields| ==> '.' !in fields[j]
    ensures SplitDots(Join(fields)) == fields
  {
    FieldsOfJoin(fields);
    assert Join(fields)[|fields[0]|] == '.';
  }

  /** Four dot-free fields joined by dots, the last one not empty, split back into themselves. */
  lemma SplitDotsOfFour(f0: string, f1: string, f2: string, f3: string)
    requires '.' !in f0 && '.' !in f1 && '.' !in f2 && '.' !in f3 && f3 != ""
    ensures SplitDots(f0 + "." + f1 + "." + f2 + "." + f3) == [f0, f1, f2, f3]
  {
    var fields := [f0, f1, f2, f3];
    assert Join(fields[3..]) == f3;
    assert Join(fields[2..]) == f2 + "." + f3;
    assert Join(fields[1..]) == f1 + "." + (f2 + "." + f3);
    assert f0 + "." + f1 + "." + f2 + "." + f3 == Join(fields);
    SplitDotsOfJoin(fields);
  }

  /** A decimal spelling holds no dot. */
  lemma DecimalHasNoDot(n: nat)
    ensures '.' !in Decimal(n)
  {
  }

  /** The dotted quad of four numbers splits into their decimal spellings. */
  lemma SplitDotsOfFormat(o0: nat, o1: nat, o2: nat, o3: nat)
    ensures SplitDots(Format(o0, o1, o2, o3)) == [Decimal(o0), Decimal(o1), Decimal(o2), Decimal(o3)]
  {
    DecimalHasNoDot(o0);
    DecimalHasNoDot(o1);
    DecimalHasNoDot(o2);
    DecimalHasNoDot(o3);
    SplitDotsOfFour(Decimal(o0), Decimal(o1), Decimal(o2), Decimal(o3));
  }

  /** Round trip: toLong reads the dotted quad of any four octets as their packed key. */
  lemma ToLongOfFormat(o0: nat, o1: nat, o2: nat, o3: nat)
    requires IsOctet(o0) && IsOctet(o1) && IsOctet(o2) && IsOctet(o3)
    ensures ToLong(Format(o0, o1, o2, o3)) == Success(Pack(o0, o1, o2, o3))
  {
    SplitDotsOfFormat(o0, o1, o2, o3);
    ToDigitOfDecimal(o0);
    ToDigitOfDecimal(o1);
    ToDigitOfDecimal(o2);
    ToDigitOfDecimal(o3);
    ToLongSucceeds(Format(o0, o1, o2, o3));
  }

  /** With a trailing dot the last field is empty and dropped, so four fields remain. */
  lemma SplitDotsOfFourTrailingDot(f0: string, f1: string, f2: string, f3: string)
    requires '.' !in f0 && '.' !in f1 && '.' !in f2 && '.' !in f3 && f3 != ""
    ensures SplitDots(f0 + "." + f1 + "." + f2 + "." + f3 + ".") == [f0, f1, f2, f3]
  {
    var five := [f0, f1, f2, f3, ""];
    var line := f0 + "." + f1 + "." + f2 + "." + f3 + ".";
    assert Join(five[4..]) == "";
    assert Join(five[3..]) == f3 + "." + "";
    assert Join(five[2..]) == f2 + "." + (f3 + "." + "");
    assert Join(five[1..]) == f1 + "." + (f2 + "." + (f3 + "." + ""));
    assert line == Join(five);
    FieldsOfJoin(five);
    assert line[|f0|] == '.';
    assert DropTrailingEmpty(five) == five[..4];
  }

  /** So "1.2.3.4." is read as "1.2.3.4". */
  lemma ToLongTrailingDot(o0: nat, o1: nat, o2: nat, o3: nat)
    requires IsOctet(o0) && IsOctet(o1) && IsOctet(o2) && IsOctet(o3)
    ensures ToLong(Format(o0, o1, o2, o3) + ".") == Success(Pack(o0, o1, o2, o3))
  {
    DecimalHasNoDot(o0);
    DecimalHasNoDot(o1);
    DecimalHasNoDot(o2);
    DecimalHasNoDot(o3);
    SplitDotsOfFourTrailingDot(Decimal(o0), Decimal(o1), Decimal(o2), Decimal(o3));
    ToDigitOfDecimal(o0);
    ToDigitOfDecimal(o1);
    ToDigitOfDecimal(o2);
    ToDigitOfDecimal(o3);
    ToLongSucceeds(Format(o0, o1, o2, o3) + ".");
  }

  /** Any number of dot-free fields other than four, the last one not empty, is rejected before a field is read. */
  lemma ToLongWrongFieldCount(fields: seq<string>)
    requires |fields| >= 1 && |fields| != 4 && fields[|fields| - 1] != ""
    requires forall j :: 0 <= j < |fields| ==> '.' !in fields[j]
    ensures ToLong(Join(fields)) == Failure(NoFourDigits(Join(fields)))
  {
    if |fields| == 1 {
      assert SplitDots(Join(fields)) == fields;
    } else {
      SplitDotsOfJoin(fields);
    }
  }

  /** A line without a dot is one field, so it has no four digits. */
  lemma ToLongOneField()
    ensures ToLong("1234") == Failure(NoFourDigits("1234"))
  {
    ToLongWrongFieldCount(["1234"]);
  }

  /** The empty line is one empty field, so it has no four digits. */
  lemma ToLongEmptyLine()
    ensures SplitDots("") == [""]
    ensures ToLong("") == Failure(NoFourDigits(""))
  {
  }

  /** "1.2.3" has three fields. */
  lemma ToLongThreeFields()
    ensures ToLong("1.2.3") == Failure(NoFourDigits("1.2.3"))
  {
    assert "1.2.3" == Join(["1", "2", "3"]);
    ToLongWrongFieldCount(["1", "2", "3"]);
  }

  /** "1.2.3.4.5" has five fields. */
  lemma ToLongFiveFields()
    ensures ToLong("1.2.3.4.5") == Failure(NoFourDigits("1.2.3.4.5"))
  {
    assert "1.2.3.4.5" == Join(["1", "2", "3", "4", "5"]);
    ToLongWrongFieldCount(["1", "2", "3", "4", "5"]);
  }

  /** A line of dots only splits into no fields at all. */
  lemma ToLongOnlyDots()
    ensures SplitDots("...") == []
    ensures ToLong("...") == Failure(NoFourDigits("..."))
  {
    FieldsOfJoin(["", "", "", ""]);
    assert "..." == Join(["", "", "", ""]);
  }

  /**
   * A field that Long.valueOf rejects after a good first field, such as the "x"
   * of "1.x.3.4" or the empty field of "1..3.4", is not a number.
   */
  lemma ToLongNotANumber(f0: string, s: string, f2: string, f3: string)
    requires '.' !in f0 && '.' !in s && '.' !in f2 && '.' !in f3 && f3 != ""
    requires ToDigit(f0).Success? && ParseLong(s) == None
    ensures ToLong(f0 + "." + s + "." + f2 + "." + f3) == Failure(NotANumber(s))
  {
    SplitDotsOfFour(f0, s, f2, f3);
    ToDigitAccepts(s);
    ToLongFailsAt(f0 + "." + s + "." + f2 + "." + f3, 1);
  }

  /** "x", "" and a lone sign are not numbers. */
  lemma NotNumbers()
    ensures ParseLong("x") == None && ParseLong("") == None && ParseLong("-") == None
  {
  }

  /** A number above 255, such as the last field of "1.2.3.256", is out of range. */
  lemma ToLongAboveRange(o0: nat, o1: nat, o2: nat, n: nat)
    requires IsOctet(o0) && IsOctet(o1) && IsOctet(o2) && 255 < n <= LONG_MAX
    ensures ToLong(Format(o0, o1, o2, n)) == Failure(OutOfRange(Decimal(n)))
  {
    SplitDotsOfFormat(o0, o1, o2, n);
    ToDigitOfDecimal(o0);
    ToDigitOfDecimal(o1);
    ToDigitOfDecimal(o2);
    ToDigitOfDecimal(n);
    ToLongFailsAt(Format(o0, o1, o2, n), 3);
  }

  /** A negative number, such as the "-1" of "-1.2.3.4", is out of range rather than not a number. */
  lemma ToLongNegative(n: nat, o1: nat, o2: nat, o3: nat)
    requires 0 < n <= -LONG_MIN && IsOctet(o1) && IsOctet(o2) && IsOctet(o3)
    ensures ToLong("-" + Decimal(n) + "." + Decimal(o1) + "." + Decimal(o2) + "." + Decimal(o3))
         == Failure(OutOfRange("-" + Decimal(n)))
  {
    DecimalHasNoDot(n);
    DecimalHasNoDot(o1);
    DecimalHasNoDot(o2);
    DecimalHasNoDot(o3);
    assert '.' !in "-" + Decimal(n);
    SplitDotsOfFour("-" + Decimal(n), Decimal(o1), Decimal(o2), Decimal(o3));
    ToDigitOfNegatedDecimal(n);
    ToLongFailsAt("-" + Decimal(n) + "." + Decimal(o1) + "." + Decimal(o2) + "." + Decimal(o3), 0);
  }

  /** Fields are read left to right: an out-of-range first field wins over whatever follows. */
  lemma ToLongLeftmostError(n: nat, f1: string, f2: string, f3: string)
    requires 255 < n <= LONG_MAX
    requires '.' !in f1 && '.' !in f2 && '.' !in f3 && f3 != ""
    ensures ToLong(Decimal(n) + "." + f1 + "." + f2 + "." + f3) == Failure(OutOfRange(Decimal(n)))
  {
    DecimalHasNoDot(n);
    SplitDotsOfFour(Decimal(n), f1, f2, f3);
    ToDigitOfDecimal(n);
    ToLongFailsAt(Decimal(n) + "." + f1 + "." + f2 + "." + f3, 0);
  }
}
