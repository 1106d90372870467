/**
 * The two conversions of Go's `strconv` package that the probe relies on:
 * `ParseInt(s, 16, 32)` in `unicode2str` and `Itoa` for the status code and
 * the failure count.
 */
module Strconv {
  import opened Wrappers
  import opened ByteStrings

  const MAX_INT32: int := 0x7fff_ffff

  // ---------------------------------------------------------------------------
  // ParseInt(s, 16, 32)

  /** The value of one hexadecimal digit, either case; no other byte is a digit. */
  function HexDigit(b: Byte): Option<nat> {
    if 48 <= b <= 57 then Some(b - 48)
    else if 97 <= b <= 102 then Some(b - 87)
    else if 65 <= b <= 70 then Some(b - 55)
    else None
  }

  function Pow16(n: nat): nat {
    if n == 0 then 1 else 16 * Pow16(n - 1)
  }

  /** The big-endian value of a run of hexadecimal digits, or None at the first non-digit. */
  function HexDigits(s: Bytes): (r: Option<nat>)
    ensures r.Some? ==> r.value < Pow16(|s|)
    decreases |s|
  {
    if s == [] then Some(0)
    else
      match (HexDigits(s[..|s| - 1]), HexDigit(s[|s| - 1]))
      case (Some(high), Some(low)) => Some(high * 16 + low)
      case _ => None
  }

  /**
   * strconv.ParseInt(s, 16, 32): an optional sign, then at least one
   * hexadecimal digit, and the value must fit in 32 signed bits. No prefix
   * and no underscores are accepted with an explicit base.
   */
  function ParseHex(s: Bytes): (r: Option<int>)
    ensures r.Some? ==> -MAX_INT32 - 1 <= r.value <= MAX_INT32
    ensures r.Some? && |s| <= 4 ==> -0xfff <= r.value <= 0xffff
  {
    if s == [] then None
    else
      var negative := s[0] == 45;
      var digits := if s[0] == 43 || s[0] == 45 then s[1..] else s;
      if digits == [] then None
      else
        match HexDigits(digits)
        case None => None
        case Some(u) =>
          assert Pow16(1) == 16 && Pow16(2) == 256 && Pow16(3) == 4096 && Pow16(4) == 65536;
          var limit := if negative then MAX_INT32 + 1 else MAX_INT32;
          var magnitude: int := u;
          var value := if negative then -magnitude else magnitude;
          if u > limit then None else Some(value)
  }

  /** The digits `ParseHex` reads: the text after an optional `+` or `-`. */
  function SignStripped(s: Bytes): (d: Bytes)
    ensures |d| <= |s| && d == s[|s| - |d|..]
  {
    if s != [] && (s[0] == 43 || s[0] == 45) then s[1..] else s
  }

  /** A run of bytes has a value exactly when every byte of it is a hexadecimal digit. */
  lemma {:induction false} HexDigitsDefined(t: Bytes)
    ensures HexDigits(t).Some? <==> forall i | 0 <= i < |t| :: HexDigit(t[i]).Some?
    decreases |t|
  {
    if t != [] {
      var init := t[..|t| - 1];
      HexDigitsDefined(init);
      assert forall i | 0 <= i < |init| :: init[i] == t[i];
    }
  }

  /**
   * What `ParseHex` decides: it accepts exactly when at least one byte follows
   * the sign, all of them are hexadecimal digits and their value fits in 32
   * signed bits (one more for a `-`); the result is that value, negated after
   * a `-`.
   */
  lemma ParseHexSpec(s: Bytes)
    ensures ParseHex(s).Some? <==>
      SignStripped(s) != [] &&
      (forall i | 0 <= i < |SignStripped(s)| :: HexDigit(SignStripped(s)[i]).Some?) &&
      HexDigits(SignStripped(s)).Some? &&
      HexDigits(SignStripped(s)).value <= (if s[0] == 45 then MAX_INT32 + 1 else MAX_INT32)
    ensures ParseHex(s).Some? ==>
      var magnitude: int := HexDigits(SignStripped(s)).value;
      ParseHex(s).value == if s[0] == 45 then -magnitude else magnitude
  {
    HexDigitsDefined(SignStripped(s));
  }

  /** `-abc` parses to -0xabc and `+abc` to 0xabc. */
  lemma SignedExamples()
    ensures ParseHex([45, 97, 98, 99]) == Some(-0xabc)
    ensures ParseHex([43, 97, 98, 99]) == Some(0xabc)
  {
    var t: Bytes := [97, 98, 99];
    assert t[..2][..1] == t[..1] && t[..1][..0] == [] && t[..3] == t;
    assert HexDigits(t[..1]) == Some(10);
    assert HexDigits(t[..2]) == Some(0xab);
    assert HexDigits(t) == Some(0xabc);
    assert [45, 97, 98, 99][1..] == t && [43, 97, 98, 99][1..] == t;
  }

  /** The lower-case hexadecimal digit for a value below 16. */
  function HexByte(d: nat): (b: Byte)
    requires d < 16
    ensures HexDigit(b) == Some(d)
  {
    if d < 10 then 48 + d else 87 + d
  }

  /** Four lower-case hexadecimal digits: one of the spellings that can follow `\u` in an escape. */
  function Hex4(n: nat): (s: Bytes)
    requires n < 0x1_0000
    ensures |s| == 4
  {
    [HexByte(n / 4096), HexByte(n / 256 % 16), HexByte(n / 16 % 16), HexByte(n % 16)]
  }

  /** One more digit multiplies the value so far by 16 and adds the digit. */
  lemma HexDigitsSnoc(s: Bytes, high: nat, d: nat)
    requires d < 16 && HexDigits(s) == Some(high)
    ensures HexDigits(s + [HexByte(d)]) == Some(high * 16 + d)
  {
    var t := s + [HexByte(d)];
    assert t[..|t| - 1] == s;
  }

  /** Without a sign, ParseHex is the value of the digits when it fits. */
  lemma ParseUnsigned(s: Bytes, v: nat)
    requires s != [] && s[0] != 43 && s[0] != 45
    requires HexDigits(s) == Some(v) && v <= MAX_INT32
    ensures ParseHex(s) == Some(v)
  {
  }

  /** The four digits of a number below 0x10000 recombine to it. */
  lemma Hex4Value(n: nat)
    requires n < 0x1_0000
    ensures ((n / 4096 * 16 + n / 256 % 16) * 16 + n / 16 % 16) * 16 + n % 16 == n
  {
    assert n / 4096 * 16 + n / 256 % 16 == n / 256;
    assert n / 256 * 16 + n / 16 % 16 == n / 16;
  }

  /** Parsing the four digits of an escape gives back the code unit. */
  lemma ParseHex4(n: nat)
    requires n < 0x1_0000
    ensures ParseHex(Hex4(n)) == Some(n)
  {
    var d0, d1, d2, d3 := n / 4096, n / 256 % 16, n / 16 % 16, n % 16;
    var s1: Bytes := [] + [HexByte(d0)];
    var s2 := s1 + [HexByte(d1)];
    var s3 := s2 + [HexByte(d2)];
    var s4 := s3 + [HexByte(d3)];
    HexDigitsSnoc([], 0, d0);
    HexDigitsSnoc(s1, d0, d1);
    HexDigitsSnoc(s2, d0 * 16 + d1, d2);
    HexDigitsSnoc(s3, (d0 * 16 + d1) * 16 + d2, d3);
    Hex4Value(n);
    assert Hex4(n) == s4;
    ParseUnsigned(s4, n);
  }

  // ---------------------------------------------------------------------------
  // Itoa

  /** The decimal digits of a natural number, without leading zeros. */
  function Digits(n: nat): (r: Bytes)
    ensures |r| >= 1
    ensures forall i | 0 <= i < |r| :: 48 <= r[i] <= 57
    ensures n > 0 ==> r[0] != 48
    decreases n
  {
    if n < 10 then [48 + n] else Digits(n / 10) + [48 + n % 10]
  }

  /** strconv.Itoa: a minus sign for negative numbers, then the digits. */
  function Itoa(n: int): (r: Bytes)
    ensures |r| >= 1 && (r[0] == 45 <==> n < 0)
    ensures var digits := if n < 0 then r[1..] else r;
      digits != [] && (digits[0] == 48 ==> n == 0)
  {
    if n < 0 then [45] + Digits(-n) else Digits(n)
  }

  /** The value of a run of decimal digits, read most significant first. */
  function DecimalValue(s: Bytes): nat
    requires AllDecimal(s)
    decreases |s|
  {
    if s == [] then 0 else DecimalValue(s[..|s| - 1]) * 10 + (s[|s| - 1] - 48)
  }

  /** strconv.Atoi for the strings `Itoa` produces: an optional minus sign, then digits. */
  function Atoi(s: Bytes): Option<int> {
    if s == [] then None
    else
      var negative := s[0] == 45;
      var digits := if negative then s[1..] else s;
      if digits != [] && AllDecimal(digits) then
        var magnitude: int := DecimalValue(digits);
        var value := if negative then -magnitude else magnitude;
        Some(value)
      else None
  }

  predicate AllDecimal(s: Bytes) {
    forall i | 0 <= i < |s| :: 48 <= s[i] <= 57
  }

  lemma {:induction false} DigitsValue(n: nat)
    ensures DecimalValue(Digits(n)) == n
    decreases n
  {
    if n >= 10 {
      var d := Digits(n);
      DigitsValue(n / 10);
      assert d[..|d| - 1] == Digits(n / 10);
    }
  }

  /** Reading back the text of a number gives the number. */
  lemma {:induction false} ItoaRoundTrip(n: int)
    ensures Atoi(Itoa(n)) == Some(n)
  {
    if n < 0 {
      NegativeRoundTrip(n);
    } else {
      DigitsValue(n);
      assert Itoa(n) == Digits(n);
    }
  }

  lemma {:induction false} NegativeRoundTrip(n: int)
    requires n < 0
    ensures Atoi(Itoa(n)) == Some(n)
  {
    var d := Digits(-n);
    var t := [45] + d;
    assert Itoa(n) == t;
    DigitsValue(-n);
    assert t[0] == 45 && t[1..] == d;
    assert AllDecimal(d);
  }
}
