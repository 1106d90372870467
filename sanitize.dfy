/**
 * The message sanitiser of url_monitor.go: `unicode2str` turns `\uXXXX`
 * escapes in a text into UTF-8, and `suberrmsg` keeps at most the first 1250
 * bytes of the result.
 *
 * Two behaviours of the code are kept as written. The text before the first
 * `\u` is treated like the text after one, so a leading `abc` becomes U+0ABC.
 * A piece whose first four bytes are not hexadecimal is kept, but the `\u`
 * in front of it is not put back.
 */
module Sanitize {
  import opened Wrappers
  import opened ByteStrings
  import opened Strconv
  import opened Utf8

  /** The most bytes `suberrmsg` keeps. */
  const LIMIT: nat := 1250

  /**
   * What one piece between separators contributes: nothing when empty; the
   * character its first four bytes (or all of it, when shorter) denote in
   * hexadecimal, followed by the remaining bytes; or, when those bytes do not
   * parse, the piece unchanged.
   */
  function DecodePiece(v: Bytes): (r: Bytes)
    ensures var head := v[..if |v| > 4 then 4 else |v|];
      match ParseHex(head)
      case None => r == v
      case Some(n) => r == EncodeRune(n) + v[|head|..]
  {
    if |v| == 0 then []
    else if |v| > 4 then
      match ParseHex(v[..4])
      case None => v
      case Some(n) => EncodeRune(n) + v[4..]
    else
      assert v[..|v|] == v && v[|v|..] == [];
      match ParseHex(v)
      case None => v
      case Some(n) => EncodeRune(n)
  }

  /** The pieces, each transformed by `f`, concatenated in order. */
  function ConcatMap(f: Bytes -> Bytes, pieces: seq<Bytes>): Bytes
    decreases |pieces|
  {
    if pieces == [] then []
    else ConcatMap(f, pieces[..|pieces| - 1]) + f(pieces[|pieces| - 1])
  }

  /** The decoded pieces, concatenated in order. */
  function DecodePieces(pieces: seq<Bytes>): Bytes {
    ConcatMap(DecodePiece, pieces)
  }

  /**
   * What `unicode2str` returns for `u`: each piece between `\u` separators
   * decoded on its own, concatenated in order.
   */
  function Decoded(u: Bytes): Bytes {
    DecodePieces(Split(u))
  }

  /**
   * What `suberrmsg` returns for `s`: the decoded text, cut to its first
   * LIMIT bytes. The cut counts bytes, so it may fall inside a multi-byte
   * character.
   */
  function Sanitized(s: Bytes): Bytes {
    var d := Decoded(s);
    if |d| > LIMIT then d[..LIMIT] else d
  }

  /** unicode2str, appending piece by piece; the error it declares is never assigned. */
  method Unicode2Str(u: Bytes) returns (context: Bytes)
    ensures context == Decoded(u)
  {
    var pieces := Split(u);
    context := [];
    for i := 0 to |pieces|
      invariant context == DecodePieces(pieces[..i])
    {
      var v := pieces[i];
      assert pieces[..i + 1][..i] == pieces[..i];
      if |v| < 1 {
        continue;
      }
      if |v| > 4 {
        var v1 := v[0..4];
        var v2 := v[4..|v|];
        var temp := ParseHex(v1);
        if temp.None? {
          context := context + v;
        } else {
          context := context + EncodeRune(temp.value);
          context := context + v2;
        }
      } else {
        var temp := ParseHex(v);
        if temp.None? {
          context := context + v;
        } else {
          context := context + EncodeRune(temp.value);
        }
      }
    }
    assert pieces[..|pieces|] == pieces;
  }

  /** suberrmsg. */
  method SubErrMsg(errmsg: Bytes) returns (submsg: Bytes)
    ensures |submsg| <= LIMIT
    ensures submsg <= Decoded(errmsg)
    ensures |Decoded(errmsg)| <= LIMIT ==> submsg == Decoded(errmsg)
    ensures |Decoded(errmsg)| > LIMIT ==> |submsg| == LIMIT
    ensures submsg == Sanitized(errmsg)
  {
    var u2s := Unicode2Str(errmsg);
    if |u2s| > LIMIT {
      submsg := u2s[0..LIMIT];
    } else {
      submsg := u2s;
    }
  }

  // ---------------------------------------------------------------------------
  // Properties of the decoding

  lemma {:induction false} ConcatMapAppend(f: Bytes -> Bytes, p: seq<Bytes>, q: seq<Bytes>)
    ensures ConcatMap(f, p + q) == ConcatMap(f, p) + ConcatMap(f, q)
    decreases |q|
  {
    if q == [] {
      assert p + q == p;
    } else {
      var q', last := q[..|q| - 1], q[|q| - 1];
      ConcatMapAppend(f, p, q');
      var pq := p + q;
      assert pq[..|pq| - 1] == p + q' && pq[|pq| - 1] == last;
    }
  }

  /** Decoding works piece by piece: a separator cuts the text into parts decoded on their own. */
  lemma DecodedAround(a: Bytes, b: Bytes)
    ensures Decoded(a + SEP + b) == Decoded(a) + Decoded(b)
  {
    SplitAround(a, b);
    ConcatMapAppend(DecodePiece, Split(a), Split(b));
  }

  /** A text without `\u` is a single piece. */
  lemma DecodedSinglePiece(t: Bytes)
    requires !HasSep(t)
    ensures Decoded(t) == DecodePiece(t)
  {
    SplitNoSep(t);
    var pieces := [t];
    assert pieces[..|pieces| - 1] == [];
    assert Decoded(t) == ConcatMap(DecodePiece, pieces) == ConcatMap(DecodePiece, []) + DecodePiece(t);
  }

  /** Two texts without `\u`, the first not ending in a backslash, join without one. */
  lemma NoSepAppend(a: Bytes, b: Bytes)
    requires !HasSep(a) && !HasSep(b)
    requires a == [] || a[|a| - 1] != SEP[0]
    ensures !HasSep(a + b)
  {
    if HasSep(a + b) {
      var i :| 0 <= i < |a + b| && SepAt(a + b, i);
      if i + 1 < |a| {
        assert SepAt(a, i);
      } else if i >= |a| {
        assert SepAt(b, i - |a|);
      }
    }
  }

  /** Hexadecimal digits never include the backslash that starts a separator. */
  lemma HexDigitsHaveNoSep(d: Bytes)
    requires forall i | 0 <= i < |d| :: HexDigit(d[i]).Some?
    ensures !HasSep(d) && (d == [] || d[|d| - 1] != SEP[0])
  {
    assert forall i | 0 <= i < |d| :: d[i] != SEP[0];
  }

  /**
   * An escape `\u` followed by four hexadecimal digits, in either case,
   * becomes the UTF-8 encoding of the code point they denote; the bytes after
   * the digits are kept.
   */
  lemma {:induction false} DecodesEscape(prefix: Bytes, d: Bytes, rest: Bytes)
    requires |d| == 4 && (forall i | 0 <= i < 4 :: HexDigit(d[i]).Some?) && !HasSep(rest)
    ensures HexDigits(d).Some? && HexDigits(d).value < 0x1_0000
    ensures Decoded(prefix + SEP + d + rest) == Decoded(prefix) + EncodeRune(HexDigits(d).value) + rest
  {
    HexDigitsDefined(d);
    var n := HexDigits(d).value;
    assert Pow16(1) == 16 && Pow16(2) == 256 && Pow16(3) == 4096 && Pow16(4) == 65536;
    ParseUnsigned(d, n);
    var v := d + rest;
    assert prefix + SEP + d + rest == prefix + SEP + v;
    DecodedAround(prefix, v);
    HexDigitsHaveNoSep(d);
    NoSepAppend(d, rest);
    DecodedSinglePiece(v);
    if rest == [] {
      assert v == d;
    } else {
      assert v[..4] == d && v[4..] == rest;
    }
  }

  /** The lower-case form written by Hex4 is one instance: the escape of `n` decodes to `n`. */
  lemma {:induction false} DecodesHex4Escape(prefix: Bytes, n: nat, rest: Bytes)
    requires n < 0x1_0000 && !HasSep(rest)
    ensures Decoded(prefix + SEP + Hex4(n) + rest) == Decoded(prefix) + EncodeRune(n) + rest
  {
    var d := Hex4(n);
    ParseHex4(n);
    HexDigitsDefined(d);
    assert forall i | 0 <= i < 4 :: HexDigit(d[i]).Some?;
    DecodesEscape(prefix, d, rest);
    ParseUnsigned(d, HexDigits(d).value);
  }

  /**
   * A piece whose leading bytes are not hexadecimal is kept, and the `\u`
   * before it is lost.
   */
  lemma {:induction false} UndecodableLosesSeparator(prefix: Bytes, v: Bytes)
    requires !HasSep(v) && v != []
    requires ParseHex(if |v| > 4 then v[..4] else v).None?
    ensures Decoded(prefix + SEP + v) == Decoded(prefix) + v
  {
    DecodedAround(prefix, v);
    DecodedSinglePiece(v);
  }

  /**
   * A signed escape parses to a negative number, which `%c` turns into
   * U+FFFD: `\u-abc` becomes the replacement character.
   */
  lemma {:induction false} NegativeEscapeIsReplaced(prefix: Bytes, d: Bytes, m: nat)
    requires 1 <= |d| <= 3 && HexDigits(d) == Some(m) && m > 0
    ensures Decoded(prefix + SEP + ([45] + d)) == Decoded(prefix) + RUNE_ERROR_BYTES
  {
    var v := [45] + d;
    assert v[0] == 45 && v[1..] == d;
    assert Pow16(1) == 16 && Pow16(2) == 256 && Pow16(3) == 4096;
    assert ParseHex(v) == Some(-(m as int));
    HexDigitsDefined(d);
    assert !HasSep(v) by {
      forall i | 0 <= i < |v| ensures v[i] != SEP[0] {
        if i > 0 { assert v[i] == d[i - 1] && HexDigit(d[i - 1]).Some?; }
      }
    }
    DecodedAround(prefix, v);
    DecodedSinglePiece(v);
  }

  /**
   * The text before the first `\u` is a piece like any other: it goes
   * through the same hexadecimal decoding as the text after a separator.
   */
  lemma {:induction false} LeadingPieceDecoded(a: Bytes, b: Bytes)
    requires !HasSep(a)
    ensures Decoded(a + SEP + b) == DecodePiece(a) + Decoded(b)
  {
    DecodedAround(a, b);
    DecodedSinglePiece(a);
  }

  /** The text before the first `\u` is decoded as well: a leading `abc` is U+0ABC. */
  lemma LeadingTextIsDecoded(b: Bytes)
    ensures Decoded(Ascii("abc") + SEP + b) == EncodeRune(0xabc) + Decoded(b)
  {
    var t: Bytes := [97, 98, 99];
    assert Ascii("abc") == t;
    assert !HasSep(t) by {
      assert forall i | 0 <= i < |t| :: t[i] != SEP[0];
    }
    LeadingPieceDecoded(t, b);
    assert t[..2][..1] == t[..1] && t[..1][..0] == [] && t[..3] == t;
    assert HexDigits(t[..1]) == Some(10);
    assert HexDigits(t[..2]) == Some(0xab);
    assert HexDigits(t) == Some(0xabc);
  }

  /** `\uZZZZ` decodes to `ZZZZ`: the escape is malformed and its `\u` disappears. */
  lemma MalformedEscapeIsDropped()
    ensures Decoded(SEP + Ascii("ZZZZ")) == Ascii("ZZZZ")
  {
    var v := Ascii("ZZZZ");
    assert !HasSep(v) by {
      assert forall i | 0 <= i < |v| :: v[i] != SEP[0];
    }
    assert v[..3][..2][..1][..0] == [];
    assert HexDigit(v[0]) == None;
    assert ParseHex(v).None? by {
      assert v[..1][..0] == [] && v[..2][..1] == v[..1] && v[..3][..2] == v[..2] && v[..4][..3] == v[..3];
    }
    UndecodableLosesSeparator([], v);
    assert Decoded([]) == [];
  }
}
