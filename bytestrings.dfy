/**
 * Go strings as byte sequences, and the parts of Go's `strings` package that
 * the probe uses: `Split` on the two-byte separator `\u`, `Contains` and an
 * ASCII `ToLower`.
 */
module ByteStrings {

  type Byte = b: int | 0 <= b < 256
  type Bytes = seq<Byte>

  /** The two bytes `\` and `u` that `unicode2str` splits on. */
  const SEP: Bytes := [92, 117]

  predicate IsAscii(s: string) {
    forall i | 0 <= i < |s| :: s[i] as int < 128
  }

  /** The bytes of an ASCII string literal. */
  function Ascii(s: string): (r: Bytes)
    requires IsAscii(s)
    ensures |r| == |s|
    ensures forall i | 0 <= i < |s| :: r[i] == s[i] as int
  {
    seq(|s|, i requires 0 <= i < |s| => s[i] as int)
  }

  // ---------------------------------------------------------------------------
  // strings.Split(s, "\\u")

  /** True iff the separator starts at position `i` of `s`. */
  predicate SepAt(s: Bytes, i: int) {
    0 <= i && i + 2 <= |s| && s[i] == SEP[0] && s[i + 1] == SEP[1]
  }

  predicate HasSep(s: Bytes) {
    exists i | 0 <= i < |s| :: SepAt(s, i)
  }

  /** Whether a text with one more byte in front holds the separator. */
  lemma HasSepCons(x: Byte, a: Bytes)
    ensures HasSep([x] + a) <==> SepAt([x] + a, 0) || HasSep(a)
  {
    var s := [x] + a;
    if HasSep(s) && !SepAt(s, 0) {
      var i :| 0 <= i < |s| && SepAt(s, i);
      assert SepAt(a, i - 1);
    }
    if HasSep(a) {
      var i :| 0 <= i < |a| && SepAt(a, i);
      assert SepAt(s, i + 1);
    }
  }

  /**
   * The pieces of `s` between the non-overlapping occurrences of the
   * separator, scanned from the left; there is always at least one piece.
   */
  function Split(s: Bytes): (r: seq<Bytes>)
    ensures |r| >= 1
    decreases |s|
  {
    if |s| < 2 then [s]
    else if s[0] == SEP[0] && s[1] == SEP[1] then [[]] + Split(s[2..])
    else
      var rest := Split(s[1..]);
      [[s[0]] + rest[0]] + rest[1..]
  }

  /** The inverse of `Split`: the pieces glued back with the separator. */
  function Join(pieces: seq<Bytes>): Bytes
    requires |pieces| >= 1
  {
    if |pieces| == 1 then pieces[0] else pieces[0] + SEP + Join(pieces[1..])
  }

  predicate NoPieceHasSep(pieces: seq<Bytes>) {
    forall k | 0 <= k < |pieces| :: !HasSep(pieces[k])
  }

  lemma {:induction false} SplitPiecesHaveNoSep(s: Bytes)
    ensures NoPieceHasSep(Split(s))
    decreases |s|
  {
    if |s| < 2 {
      assert !HasSep(s);
    } else if s[0] == SEP[0] && s[1] == SEP[1] {
      SplitPiecesHaveNoSep(s[2..]);
      assert !HasSep([]);
      ConsPiece([], Split(s[2..]));
    } else {
      var rest := Split(s[1..]);
      SplitPiecesHaveNoSep(s[1..]);
      var p := [s[0]] + rest[0];
      HasSepCons(s[0], rest[0]);
      if SepAt(p, 0) {
        // the separator would start at the first byte of `s`
        SplitFirstPieceIsPrefix(s[1..]);
        assert false;
      }
      assert !HasSep(rest[0]);
      ConsPiece(p, rest[1..]);
    }
  }

  lemma ConsPiece(p: Bytes, pieces: seq<Bytes>)
    requires !HasSep(p) && NoPieceHasSep(pieces)
    ensures NoPieceHasSep([p] + pieces)
  {
    forall k | 0 <= k < |[p] + pieces| ensures !HasSep(([p] + pieces)[k]) {
      if k > 0 { assert ([p] + pieces)[k] == pieces[k - 1]; }
    }
  }

  /** The first piece is a prefix of the input. */
  lemma {:induction false} SplitFirstPieceIsPrefix(s: Bytes)
    ensures |Split(s)[0]| <= |s| && Split(s)[0] == s[..|Split(s)[0]|]
    decreases |s|
  {
    if |s| >= 2 && !(s[0] == SEP[0] && s[1] == SEP[1]) {
      SplitFirstPieceIsPrefix(s[1..]);
    }
  }

  /** Gluing the pieces back together gives the input. */
  lemma {:induction false} JoinSplit(s: Bytes)
    ensures Join(Split(s)) == s
    decreases |s|
  {
    if |s| < 2 {
    } else if s[0] == SEP[0] && s[1] == SEP[1] {
      JoinSplit(s[2..]);
      assert s == [] + SEP + s[2..];
    } else {
      JoinSplit(s[1..]);
      JoinConsFirst(s[0], Split(s[1..]));
      assert s == [s[0]] + s[1..];
    }
  }

  /** Join, unfolded once on a piece put in front. */
  lemma {:induction false} JoinCons(a: Bytes, t: seq<Bytes>)
    ensures Join([a] + t) == if t == [] then a else a + SEP + Join(t)
  {
    assert ([a] + t)[1..] == t;
  }

  /** A byte put in front of the first piece goes in front of the joined text. */
  lemma {:induction false} JoinConsFirst(x: Byte, pieces: seq<Bytes>)
    requires |pieces| >= 1
    ensures Join([[x] + pieces[0]] + pieces[1..]) == [x] + Join(pieces)
  {
    var p, t := pieces[0], pieces[1..];
    assert pieces == [p] + t;
    JoinCons(p, t);
    JoinCons([x] + p, t);
    if t != [] {
      assert ([x] + p) + SEP + Join(t) == [x] + (p + SEP + Join(t));
    }
  }

  /** Splitting pieces that hold no separator, glued together, gives them back. */
  lemma {:induction false} SplitJoin(pieces: seq<Bytes>)
    requires |pieces| >= 1 && NoPieceHasSep(pieces)
    ensures Split(Join(pieces)) == pieces
    decreases |pieces|
  {
    if |pieces| == 1 {
      SplitNoSep(pieces[0]);
    } else {
      SplitJoin(pieces[1..]);
      SplitAfterSep(pieces[0], Join(pieces[1..]));
      assert pieces == [pieces[0]] + pieces[1..];
    }
  }

  /** A text without the separator is one piece. */
  lemma {:induction false} SplitNoSep(s: Bytes)
    requires !HasSep(s)
    ensures Split(s) == [s]
    decreases |s|
  {
    if |s| >= 2 {
      assert s == [s[0]] + s[1..];
      HasSepCons(s[0], s[1..]);
      SplitNoSep(s[1..]);
    }
  }

  /**
   * A separator after a text that holds none starts a new piece; since the
   * separator cannot overlap itself, this holds whatever the text ends with.
   */
  lemma {:induction false} SplitAfterSep(a: Bytes, b: Bytes)
    requires !HasSep(a)
    ensures Split(a + SEP + b) == [a] + Split(b)
    decreases |a|
  {
    var s := a + SEP + b;
    if a == [] {
      assert s[2..] == b;
    } else {
      assert a == [a[0]] + a[1..];
      HasSepCons(a[0], a[1..]);
      assert !(s[0] == SEP[0] && s[1] == SEP[1]) by {
        if |a| >= 2 { assert s[1] == a[1]; } else { assert s[1] == SEP[0]; }
      }
      SplitAfterSep(a[1..], b);
      assert s[1..] == a[1..] + SEP + b;
    }
  }

  /** The pieces of a concatenation around a separator are the pieces of each side. */
  lemma {:induction false} SplitAround(a: Bytes, b: Bytes)
    ensures Split(a + SEP + b) == Split(a) + Split(b)
  {
    var pa := Split(a);
    SplitPiecesHaveNoSep(a);
    JoinSplit(a);
    var pb := Split(b);
    SplitPiecesHaveNoSep(b);
    JoinSplit(b);
    JoinAppend(pa, pb);
    SplitJoin(pa + pb);
  }

  lemma {:induction false} JoinAppend(p: seq<Bytes>, q: seq<Bytes>)
    requires |p| >= 1 && |q| >= 1
    ensures Join(p + q) == Join(p) + SEP + Join(q)
    ensures NoPieceHasSep(p) && NoPieceHasSep(q) ==> NoPieceHasSep(p + q)
    decreases |p|
  {
    if |p| == 1 {
      assert (p + q)[1..] == q;
    } else {
      JoinAppend(p[1..], q);
      assert (p + q)[1..] == p[1..] + q;
    }
  }

  // ---------------------------------------------------------------------------
  // strings.Contains

  predicate HasPrefix(s: Bytes, prefix: Bytes) {
    |prefix| <= |s| && s[..|prefix|] == prefix
  }

  /** Whether `pattern` occurs in `text`, tried at each position from the left. */
  predicate Contains(text: Bytes, pattern: Bytes)
    decreases |text|
  {
    HasPrefix(text, pattern) || (|text| > 0 && Contains(text[1..], pattern))
  }

  /** The pattern occurs in the text starting at position `i`. */
  predicate OccursAt(text: Bytes, pattern: Bytes, i: int) {
    0 <= i && i + |pattern| <= |text| && text[i..i + |pattern|] == pattern
  }

  /** `Contains` holds exactly when the pattern occurs at some position. */
  lemma {:induction false} ContainsIffOccurs(text: Bytes, pattern: Bytes)
    ensures Contains(text, pattern) <==> exists i :: OccursAt(text, pattern, i)
    decreases |text|
  {
    if |text| > 0 {
      ContainsIffOccurs(text[1..], pattern);
      if Contains(text[1..], pattern) {
        var i :| OccursAt(text[1..], pattern, i);
        assert text[i + 1..i + 1 + |pattern|] == text[1..][i..i + |pattern|];
        assert OccursAt(text, pattern, i + 1);
      }
      if exists i :: OccursAt(text, pattern, i) {
        var i :| OccursAt(text, pattern, i);
        if i > 0 {
          assert text[1..][i - 1..i - 1 + |pattern|] == text[i..i + |pattern|];
          assert OccursAt(text[1..], pattern, i - 1);
        } else {
          assert HasPrefix(text, pattern);
        }
      }
    }
    if HasPrefix(text, pattern) {
      assert OccursAt(text, pattern, 0);
    }
    if exists i :: OccursAt(text, pattern, i) {
      var i :| OccursAt(text, pattern, i);
      if i == 0 { assert HasPrefix(text, pattern); }
    }
  }

  // ---------------------------------------------------------------------------
  // strings.ToLower

  function LowerByte(b: Byte): Byte {
    if 65 <= b <= 90 then b + 32 else b
  }

  /**
   * Lower-cases the ASCII letters and keeps every other byte: no upper-case
   * letter is left, and each byte is either kept or is an upper-case letter
   * moved to its lower-case partner.
   */
  function ToLower(s: Bytes): (r: Bytes)
    ensures |r| == |s|
    ensures forall i | 0 <= i < |r| :: !(65 <= r[i] <= 90)
    ensures forall i | 0 <= i < |s| :: r[i] == s[i] || (65 <= s[i] <= 90 && r[i] == s[i] + 32)
  {
    seq(|s|, i requires 0 <= i < |s| => LowerByte(s[i]))
  }
}
