/**
 * The bytes that `fmt.Sprintf("%c", n)` produces for an integer `n`: the
 * UTF-8 encoding of the code point, or of U+FFFD when `n` is negative, a
 * surrogate or beyond U+10FFFF.
 */
module Utf8 {
  import opened Wrappers
  import opened ByteStrings

  const RUNE_ERROR: int := 0xFFFD
  const MAX_RUNE: int := 0x10_FFFF

  /** A code point that UTF-8 can encode: in range and not a surrogate. */
  predicate ValidRune(r: int) {
    0 <= r <= MAX_RUNE && !(0xD800 <= r <= 0xDFFF)
  }

  /** The replacement character U+FFFD, as UTF-8. */
  const RUNE_ERROR_BYTES: Bytes := [0xEF, 0xBF, 0xBD]

  function EncodeRune(n: int): (b: Bytes)
    ensures 1 <= |b| <= 4
    ensures !ValidRune(n) ==> b == RUNE_ERROR_BYTES
    ensures 0 <= n < 0x1_0000 ==> |b| <= 3
  {
    if !ValidRune(n) then RUNE_ERROR_BYTES
    else if n < 0x80 then [n]
    else if n < 0x800 then [0xC0 + n / 64, 0x80 + n % 64]
    else if n < 0x1_0000 then [0xE0 + n / 4096, 0x80 + n / 64 % 64, 0x80 + n % 64]
    else [0xF0 + n / 262144, 0x80 + n / 4096 % 64, 0x80 + n / 64 % 64, 0x80 + n % 64]
  }

  predicate IsContinuation(b: Byte) {
    0x80 <= b < 0xC0
  }

  /**
   * The code point that a complete UTF-8 sequence encodes, or None when the
   * bytes are not exactly one shortest-form encoding of a valid code point.
   */
  function DecodeRune(b: Bytes): Option<int> {
    if |b| == 1 && b[0] < 0x80 then Some(b[0])
    else if |b| == 2 && 0xC0 <= b[0] < 0xE0 && IsContinuation(b[1]) then
      var r: int := (b[0] as int - 0xC0) * 64 + (b[1] as int - 0x80);
      if r >= 0x80 then Some(r) else None
    else if |b| == 3 && 0xE0 <= b[0] < 0xF0 && IsContinuation(b[1]) && IsContinuation(b[2]) then
      var r: int := (b[0] as int - 0xE0) * 4096 + (b[1] as int - 0x80) * 64 + (b[2] as int - 0x80);
      if r >= 0x800 && ValidRune(r) then Some(r) else None
    else if |b| == 4 && 0xF0 <= b[0] < 0xF8 && IsContinuation(b[1]) && IsContinuation(b[2]) && IsContinuation(b[3]) then
      var r: int := (b[0] as int - 0xF0) * 262144 + (b[1] as int - 0x80) * 4096 + (b[2] as int - 0x80) * 64 + (b[3] as int - 0x80);
      if r >= 0x1_0000 && ValidRune(r) then Some(r) else None
    else None
  }

  /** Decoding the encoding of a valid code point gives it back. */
  lemma {:induction false} DecodeEncode(r: int)
    requires ValidRune(r)
    ensures DecodeRune(EncodeRune(r)) == Some(r)
  {
    if r < 0x80 {
    } else if r < 0x800 {
      Split64(r);
    } else if r < 0x1_0000 {
      DecodeEncode3(r);
    } else {
      DecodeEncode4(r);
    }
  }

  lemma {:induction false} DecodeEncode3(r: int)
    requires ValidRune(r) && 0x800 <= r < 0x1_0000
    ensures DecodeRune(EncodeRune(r)) == Some(r)
  {
    var q := r / 64;
    Split64(r);
    Split64(q);
    assert r / 4096 == q / 64;
    var b := EncodeRune(r);
    assert b == [0xE0 + q / 64, 0x80 + q % 64, 0x80 + r % 64];
    assert (q / 64) * 4096 + (q % 64) * 64 + r % 64 == r;
  }

  lemma {:induction false} DecodeEncode4(r: int)
    requires ValidRune(r) && 0x1_0000 <= r
    ensures DecodeRune(EncodeRune(r)) == Some(r)
  {
    var q := r / 64;
    var t := q / 64;
    Split64(r);
    Split64(q);
    Split64(t);
    assert r / 4096 == t && r / 262144 == t / 64;
    var b := EncodeRune(r);
    assert b == [0xF0 + t / 64, 0x80 + t % 64, 0x80 + q % 64, 0x80 + r % 64];
    assert (t / 64) * 262144 + (t % 64) * 4096 + (q % 64) * 64 + r % 64 == r;
  }

  /** A number in base 64: its last digit and the rest. */
  lemma {:induction false} Split64(r: int)
    requires 0 <= r
    ensures r == (r / 64) * 64 + r % 64 && 0 <= r % 64 < 64
    ensures r / 4096 == (r / 64) / 64 && r / 262144 == (r / 4096) / 64
  {
  }

  /** A decodable sequence is the encoding of what it decodes to: encodings are unique. */
  lemma {:induction false} EncodeDecode(b: Bytes)
    requires DecodeRune(b).Some?
    ensures EncodeRune(DecodeRune(b).value) == b
  {
    if |b| == 2 {
      DivMod64(b[0] as int - 0xC0, b[1] as int - 0x80);
    } else if |b| == 3 {
      EncodeDecode3(b);
    } else if |b| == 4 {
      EncodeDecode4(b);
    }
  }

  lemma {:induction false} EncodeDecode3(b: Bytes)
    requires |b| == 3 && DecodeRune(b).Some?
    ensures EncodeRune(DecodeRune(b).value) == b
  {
    var c0, c1, c2 := b[0] as int - 0xE0, b[1] as int - 0x80, b[2] as int - 0x80;
    var high := c0 * 64 + c1;
    var r := high * 64 + c2;
    assert DecodeRune(b) == Some(r);
    DivMod64(c0, c1);
    DivMod64(high, c2);
    assert EncodeRune(r) == [0xE0 + c0, 0x80 + c1, 0x80 + c2];
  }

  lemma {:induction false} EncodeDecode4(b: Bytes)
    requires |b| == 4 && DecodeRune(b).Some?
    ensures EncodeRune(DecodeRune(b).value) == b
  {
    var c0, c1, c2, c3 := b[0] as int - 0xF0, b[1] as int - 0x80, b[2] as int - 0x80, b[3] as int - 0x80;
    var top := c0 * 64 + c1;
    var high := top * 64 + c2;
    var r := high * 64 + c3;
    assert DecodeRune(b) == Some(r);
    DivMod64(c0, c1);
    DivMod64(top, c2);
    DivMod64(high, c3);
    assert r / 64 % 64 == c2 && r / 4096 % 64 == c1 && r / 262144 == c0;
    assert EncodeRune(r) == [0xF0 + c0, 0x80 + c1, 0x80 + c2, 0x80 + c3];
  }

  lemma {:induction false} DivMod64(q: int, d: int)
    requires 0 <= q && 0 <= d < 64
    ensures (q * 64 + d) / 64 == q && (q * 64 + d) % 64 == d
    ensures (q * 64 + d) / 4096 == q / 64 && (q * 64 + d) / 262144 == q / 4096
  {
  }
}
