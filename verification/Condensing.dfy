/**
 The condensing path of `ReadText`, which a text node takes by default: what it makes of
 text that `EncodeString` wrote.
 */
module Condensing {
  import opened CStrings
  import opened Utf8
  import opened Scan
  import opened Entities
  import opened Text
  import opened Escapes

  // ----- the specification: words separated by single spaces -----

  /** The end of the run of bytes other than 0x20 that starts at `i`. */
  function WordEnd(v: Bytes, i: nat): (r: nat)
    requires i <= |v|
    ensures i <= r <= |v|
    ensures r < |v| ==> v[r] == ' '
    ensures ' ' !in v[i..r]
    ensures i < |v| && v[i] != ' ' ==> i < r
    decreases |v| - i
  {
    if i < |v| && v[i] != ' ' then WordEnd(v, i + 1) else i
  }

  /** The maximal runs of bytes other than 0x20 in `v[i..]`. */
  function Words(v: Bytes, i: nat): (r: seq<Bytes>)
    requires i <= |v|
    decreases |v| - i
  {
    if i == |v| then []
    else if v[i] == ' ' then Words(v, i + 1)
    else [v[i..WordEnd(v, i)]] + Words(v, WordEnd(v, i))
  }

  function Join(ws: seq<Bytes>): Bytes {
    if ws == [] then []
    else if |ws| == 1 then ws[0]
    else ws[0] + " " + Join(ws[1..])
  }

  /** The text with its leading and trailing spaces removed and every run of spaces inside
      it replaced by one. Only 0x20 counts: other white space is escaped by the writer. */
  function Condense(v: Bytes): Bytes {
    Join(Words(v, 0))
  }

  /** What reading `v[i..]` appends inside the text, `space` telling whether spaces have
      just been skipped. */
  function Appended(v: Bytes, i: nat, space: bool): Bytes
    requires i <= |v|
    decreases |v| - i
  {
    if i == |v| then []
    else if v[i] == ' ' then Appended(v, i + 1, true)
    else (if space then " " else []) + [v[i]] + Appended(v, i + 1, false)
  }

  lemma {:induction false} AppendedWord(v: Bytes, i: nat)
    requires i <= |v|
    ensures Appended(v, i, false) == v[i..WordEnd(v, i)] + Appended(v, WordEnd(v, i), false)
    decreases |v| - i
  {
    if i < |v| && v[i] != ' ' {
      AppendedWord(v, i + 1);
      assert v[i..WordEnd(v, i)] == [v[i]] + v[i + 1..WordEnd(v, i)];
    }
  }

  /** After a space, the rest of the words follow, each after one space. */
  lemma {:induction false} AppendedWords(v: Bytes, i: nat)
    requires i <= |v|
    ensures Appended(v, i, true) == if Words(v, i) == [] then [] else " " + Join(Words(v, i))
    decreases |v| - i
  {
    if i < |v| {
      if v[i] == ' ' {
        AppendedWords(v, i + 1);
      } else {
        WordThenWords(v, i);
        assert Appended(v, i, true) == " " + Appended(v, i, false);
      }
    }
  }

  lemma {:induction false} WordThenWords(v: Bytes, i: nat)
    requires i < |v| && v[i] != ' '
    ensures Appended(v, i, false) == Join(Words(v, i))
    decreases |v| - i, 0
  {
    var e := WordEnd(v, i);
    AppendedWord(v, i);
    AppendedWords(v, e);
    var ws := Words(v, e);
    assert Words(v, i)[1..] == ws;
    if ws == [] {
      assert v[i..e] + [] == v[i..e];
    } else {
      assert v[i..e] + (" " + Join(ws)) == v[i..e] + " " + Join(ws);
    }
  }

  // ----- reading escaped text -----

  lemma CondenseStep(s: CString, p: nat, v: Bytes, i: nat, enc: Encoding, acc: Bytes, space: bool)
    requires i < |v| && CompleteAt(v, i, enc) && Has(s, p, Piece(v, i, enc))
    ensures p + |Piece(v, i, enc)| <= |s|
    ensures v[i] == ' ' ==> CharLength(v[i], enc) == |Piece(v, i, enc)| == 1
    ensures ReadCondensed(s, p, "<", enc, acc, space) ==
      if v[i] == ' ' then ReadCondensed(s, p + 1, "<", enc, acc, true)
      else ReadCondensed(s, p + |Piece(v, i, enc)|, "<", enc,
                         (if space then acc + " " else acc) + v[i..i + CharLength(v[i], enc)], false)
  {
    hide CharAt, Piece, CharLength, CompleteAt;
    PieceReads(s, p, v, i, enc);
    SpacePiece(s, p, v, i, enc);
    if Matches(s, p, "<", false) { HasAt(s, p, "<", 0); }
  }

  lemma SpacePiece(s: CString, p: nat, v: Bytes, i: nat, enc: Encoding)
    requires i < |v| && CompleteAt(v, i, enc) && Has(s, p, Piece(v, i, enc))
    ensures v[i] == ' ' ==> CharLength(v[i], enc) == |Piece(v, i, enc)| == 1 && p < |s| && s[p] == ' '
  {
    if v[i] == ' ' { HasAt(s, p, Piece(v, i, enc), 0); }
  }

  lemma AppendedStep(v: Bytes, i: nat, enc: Encoding, space: bool)
    requires i < |v| && CompleteAt(v, i, enc)
    ensures Appended(v, i, space) ==
      if v[i] == ' ' then Appended(v, i + 1, true)
      else (if space then " " else []) + v[i..i + CharLength(v[i], enc)] + Appended(v, i + CharLength(v[i], enc), false)
  {
    hide CharLength;
    if v[i] != ' ' {
      AppendedHigh(v, i + 1, i + CharLength(v[i], enc));
      assert v[i..i + CharLength(v[i], enc)] == [v[i]] + v[i + 1..i + CharLength(v[i], enc)];
    }
  }

  lemma {:induction false} AppendedHigh(v: Bytes, i: nat, j: nat)
    requires i <= j <= |v| && AllHigh(v, i, j)
    ensures Appended(v, i, false) == v[i..j] + Appended(v, j, false)
    decreases j - i
  {
    if i < j {
      AppendedHigh(v, i + 1, j);
      assert v[i..j] == [v[i]] + v[i + 1..j];
    }
  }

  predicate EndsInSpace(v: Bytes, i: nat, space: bool)
    requires i <= |v|
  {
    if i == |v| then space else v[|v| - 1] == ' '
  }

  lemma {:induction false} CondensedReads(s: CString, p: nat, v: Bytes, i: nat, enc: Encoding, acc: Bytes, space: bool)
    requires i <= |v| && Has(s, p, EncodeFrom(v, i)) && Complete(v, enc) && !HasHexRef(v)
    ensures ReadCondensed(s, p, "<", enc, acc, space)
         == ReadCondensed(s, p + |EncodeFrom(v, i)|, "<", enc, acc + Appended(v, i, space), EndsInSpace(v, i, space))
    decreases |v| - i
  {
    hide ReadCondensed, CharLength, Piece, EscapeByte, Has, Complete, HasHexRef, EncodeFrom, Appended;
    if i == |v| {
      EndOfText(v);
      assert acc + [] == acc;
    } else {
      CompleteRefs(v, i, enc);
      EncodeSplits(v, i, enc);
      var n := CharLength(v[i], enc);
      HasConcat(s, p, Piece(v, i, enc), EncodeFrom(v, i + n));
      CondenseStep(s, p, v, i, enc, acc, space);
      AppendedStep(v, i, enc, space);
      HighNotSpace(v, i, enc);
      var acc' := if v[i] == ' ' then acc else (if space then acc + " " else acc) + v[i..i + n];
      CondensedReads(s, p + |Piece(v, i, enc)|, v, i + n, enc, acc', v[i] == ' ');
      assert acc' + Appended(v, i + n, v[i] == ' ') == acc + Appended(v, i, space);
    }
  }

  lemma HighNotSpace(v: Bytes, i: nat, enc: Encoding)
    requires i < |v| && CompleteAt(v, i, enc)
    ensures EndsInSpace(v, i + CharLength(v[i], enc), v[i] == ' ') == EndsInSpace(v, i, true)
  {
  }

  lemma {:induction false} BlankThenTag(s: CString, p: nat, w: Bytes, enc: Encoding, acc: Bytes, space: bool)
    requires Has(s, p, w + "<") && IsBlank(w)
    ensures ReadCondensed(s, p, "<", enc, acc, space) == TextResult(acc, Pos(p + |w| + 1))
    decreases |w|
  {
    HasAt(s, p, w + "<", 0);
    if w == [] {
      assert w + "<" == "<";
    } else {
      assert IsSpace(w[0]) && s[p] == w[0];
      assert !Matches(s, p, "<", false) by { if Has(s, p, "<") { HasAt(s, p, "<", 0); } }
      assert w + "<" == [w[0]] + (w[1..] + "<");
      HasConcat(s, p, [w[0]], w[1..] + "<");
      BlankThenTag(s, p + 1, w[1..], enc, acc, true);
    }
  }

  // ----- leading white space -----

  function FirstNonSpace(v: Bytes, i: nat): (r: nat)
    requires i <= |v|
    ensures i <= r <= |v|
    ensures r < |v| ==> v[r] != ' '
    ensures Words(v, i) == Words(v, r)
    decreases |v| - i
  {
    if i < |v| && v[i] == ' ' then FirstNonSpace(v, i + 1) else i
  }

  /** The text, without its leading spaces, starts with bytes that UTF-8 mode skips. */
  predicate StartsZeroWidth(v: Bytes, enc: Encoding) {
    enc.Utf8? && IsZeroWidth(v, FirstNonSpace(v, 0))
  }

  /** White-space skipping stops at the first character that is not a space. */
  lemma {:induction false} LeadingSpaces(s: CString, p: nat, v: Bytes, i: nat, enc: Encoding)
    requires i <= |v| && Has(s, p, EncodeFrom(v, i)) && Complete(v, enc)
    ensures var k := FirstNonSpace(v, i);
      && |EncodeFrom(v, i)| == k - i + |EncodeFrom(v, k)|
      && Has(s, p + (k - i), EncodeFrom(v, k))
      && SkipFrom(s, p, enc) == SkipFrom(s, p + (k - i), enc)
    decreases |v| - i
  {
    hide Complete, EncodeFrom, SkipFrom, Has;
    if i < |v| && v[i] == ' ' {
      SpaceEncodes(v, i);
      HasConcat(s, p, " ", EncodeFrom(v, i + 1));
      HasAt(s, p, " ", 0);
      SkipSpace(s, p, enc);
      LeadingSpaces(s, p + 1, v, i + 1, enc);
    }
  }

  lemma SpaceEncodes(v: Bytes, i: nat)
    requires i < |v| && v[i] == ' '
    ensures EncodeFrom(v, i) == " " + EncodeFrom(v, i + 1)
  {
  }

  lemma SkipSpace(s: CString, p: nat, enc: Encoding)
    requires p < |s| && s[p] == ' '
    ensures SkipFrom(s, p, enc) == SkipFrom(s, p + 1, enc)
  {
  }

  lemma ZeroWidthPiece(s: CString, p: nat, v: Bytes, k: nat)
    requires k < |v| && CompleteAt(v, k, Utf8) && Has(s, p, Piece(v, k, Utf8)) && IsZeroWidth(s, p)
    ensures IsZeroWidth(v, k)
  {
    EscapeShape(v[k]);
    HasAt(s, p, Piece(v, k, Utf8), 0);
    assert v[k] as int == 0xEF && Piece(v, k, Utf8) == v[k..k + 3];
    HasAt(s, p, v[k..k + 3], 1);
    HasAt(s, p, v[k..k + 3], 2);
  }

  lemma SkipStops(s: CString, p: nat, v: Bytes, k: nat, enc: Encoding)
    requires k < |v| && v[k] != ' ' && Has(s, p, EncodeFrom(v, k)) && CompleteAt(v, k, enc) && !HexRefAt(v, k)
    requires enc.Utf8? ==> !IsZeroWidth(v, k)
    ensures p < |s| && SkipFrom(s, p, enc) == p
  {
    hide EncodeFrom, EscapeByte, Piece, CharLength, Has;
    EncodeSplits(v, k, enc);
    HasConcat(s, p, Piece(v, k, enc), EncodeFrom(v, k + CharLength(v[k], enc)));
    PieceReads(s, p, v, k, enc);
    if enc.Utf8? && IsZeroWidth(s, p) { ZeroWidthPiece(s, p, v, k); }
  }

  /** Escaped text, followed by any white space and the next tag, is read as its condensed
      form and reading stops just past the `<`. White space written as a reference stays. */
  lemma CondensedRoundTrip(s: CString, p: nat, v: Bytes, w: Bytes, enc: Encoding)
    requires Has(s, p, EncodeFrom(v, 0) + (w + "<")) && IsBlank(w)
    requires Complete(v, enc) && !HasHexRef(v) && !StartsZeroWidth(v, enc)
    ensures TextAt(s, p, true, "<", enc, true) == TextResult(Condense(v), Pos(p + |EncodeFrom(v, 0)| + |w| + 1))
  {
    hide ReadCondensed, EncodeFrom, EscapeByte, CharLength, Has, SkipFrom, Complete, HasHexRef, Words, Appended;
    var k, end := FirstNonSpace(v, 0), p + |EncodeFrom(v, 0)|;
    HasConcat(s, p, EncodeFrom(v, 0), w + "<");
    LeadingSpaces(s, p, v, 0, enc);
    if k < |v| {
      CompleteRefs(v, k, enc);
      SkipStops(s, p + k, v, k, enc);
      CondensedReads(s, p + k, v, k, enc, [], false);
      WordThenWords(v, k);
      BlankThenTag(s, end, w, enc, [] + Appended(v, k, false), EndsInSpace(v, k, false));
      assert [] + Appended(v, k, false) == Condense(v);
    } else {
      EndOfText(v);
      BlankAndTag(s, end, w, enc);
    }
  }

  lemma CompleteRefs(v: Bytes, k: nat, enc: Encoding)
    requires k < |v| && Complete(v, enc) && !HasHexRef(v)
    ensures CompleteAt(v, k, enc) && !HexRefAt(v, k)
  {
  }

  lemma EndOfText(v: Bytes)
    ensures Words(v, |v|) == [] && EncodeFrom(v, |v|) == []
    ensures forall space :: Appended(v, |v|, space) == []
  {
  }

  lemma BlankAndTag(s: CString, p: nat, w: Bytes, enc: Encoding)
    requires Has(s, p, w + "<") && IsBlank(w)
    ensures p < |s| && SkipFrom(s, p, enc) == p + |w|
    ensures ReadCondensed(s, p + |w|, "<", enc, [], false) == TextResult([], Pos(p + |w| + 1))
  {
    hide ReadCondensed, SkipFrom, Has, IsBlank;
    HasConcat(s, p, w, "<");
    HasAt(s, p + |w|, "<", 0);
    SkipBlank(s, p, w, enc);
    AtTag(s, p + |w|, enc);
  }

  lemma AtTag(s: CString, p: nat, enc: Encoding)
    requires p < |s| && s[p] == '<'
    ensures SkipFrom(s, p, enc) == p
    ensures ReadCondensed(s, p, "<", enc, [], false) == TextResult([], Pos(p + 1))
  {
    assert Has(s, p, "<");
  }

  // ----- condensing is idempotent -----

  predicate IsWord(w: Bytes) {
    w != [] && ' ' !in w
  }

  lemma {:induction false} WordsAreWords(v: Bytes, i: nat)
    requires i <= |v|
    ensures forall k | 0 <= k < |Words(v, i)| :: IsWord(Words(v, i)[k])
    ensures !HasHexRef(v) ==> forall k | 0 <= k < |Words(v, i)| :: !HasHexRef(Words(v, i)[k])
    decreases |v| - i
  {
    if i < |v| {
      if v[i] == ' ' {
        WordsAreWords(v, i + 1);
      } else {
        var w, e := v[i..WordEnd(v, i)], WordEnd(v, i);
        WordsAreWords(v, e);
        if HasHexRef(w) {
          var k :| 0 <= k < |w| && HexRefAt(w, k);
          assert HexRefAt(v, i + k);
        }
      }
    }
  }

  lemma {:induction false} WordEndIs(v: Bytes, i: nat, e: nat)
    requires i <= e <= |v| && ' ' !in v[i..e] && (e < |v| ==> v[e] == ' ')
    ensures WordEnd(v, i) == e
    decreases e - i
  {
    if i < e {
      assert v[i] == v[i..e][0] && v[i + 1..e] == v[i..e][1..];
      WordEndIs(v, i + 1, e);
    }
  }

  lemma WordsStep(v: Bytes, i: nat)
    requires i < |v|
    ensures Words(v, i) == if v[i] == ' ' then Words(v, i + 1) else [v[i..WordEnd(v, i)]] + Words(v, WordEnd(v, i))
    ensures Words(v, |v|) == []
  {
  }

  /** Splitting does not depend on what stands before. */
  lemma {:induction false} WordsSuffix(v: Bytes, i: nat, j: nat)
    requires i + j <= |v|
    ensures Words(v, i + j) == Words(v[i..], j)
    decreases |v| - i - j
  {
    hide Words, WordEnd;
    var t := v[i..];
    if i + j == |v| {
      EndOfText(v);
      EndOfText(t);
    } else {
      WordsStep(v, i + j);
      WordsStep(t, j);
      if v[i + j] == ' ' {
        WordsSuffix(v, i, j + 1);
      } else {
        var e := WordEnd(v, i + j);
        assert t[j..e - i] == v[i + j..e];
        WordEndIs(t, j, e - i);
        WordsSuffix(v, i, e - i);
      }
    }
  }

  lemma {:induction false} WordsOfJoin(ws: seq<Bytes>)
    requires forall k | 0 <= k < |ws| :: IsWord(ws[k])
    ensures Words(Join(ws), 0) == ws
  {
    if ws != [] {
      var t, w, rest := Join(ws), ws[0], ws[1..];
      WordsOfJoin(rest);
      assert IsWord(w) && t[..|w|] == w && t[0] == w[0] && w[0] in w;
      WordEndIs(t, 0, |w|);
      if rest == [] {
        assert t == w;
      } else {
        assert t[|w| + 1..] == Join(rest);
        WordsSuffix(t, |w| + 1, 0);
        assert Words(t, |w|) == Words(t, |w| + 1);
      }
      assert Words(t, 0) == [t[0..|w|]] + rest;
    }
  }

  lemma {:induction false} JoinHexRef(ws: seq<Bytes>)
    requires forall k | 0 <= k < |ws| :: !HasHexRef(ws[k])
    ensures !HasHexRef(Join(ws))
  {
    if |ws| > 1 && HasHexRef(Join(ws)) {
      JoinHexRef(ws[1..]);
      var t, w := Join(ws), ws[0];
      var i :| 0 <= i < |t| && HexRefAt(t, i);
      assert t[|w|] == ' ' && t[|w| + 1..] == Join(ws[1..]);
      if i < |w| {
        assert i + 1 != |w| && i + 2 != |w|;
        assert HexRefAt(w, i);
      } else {
        assert HexRefAt(Join(ws[1..]), i - |w| - 1);
      }
    }
  }

  /** The condensed text has no space at either end and no two in a row, so condensing it
      again, or writing and reading it again, changes nothing. */
  lemma CondenseIdempotent(v: Bytes)
    ensures Condense(Condense(v)) == Condense(v)
    ensures !HasHexRef(v) ==> !HasHexRef(Condense(v))
  {
    WordsAreWords(v, 0);
    WordsOfJoin(Words(v, 0));
    if !HasHexRef(v) { JoinHexRef(Words(v, 0)); }
  }

  /** Cutting at spaces cuts no character. */
  lemma {:induction false} WordsAreComplete(v: Bytes, i: nat, enc: Encoding)
    requires i <= |v| && Complete(v, enc)
    ensures forall k | 0 <= k < |Words(v, i)| :: Complete(Words(v, i)[k], enc)
    decreases |v| - i
  {
    hide Complete;
    if i < |v| {
      if v[i] == ' ' {
        WordsAreComplete(v, i + 1, enc);
      } else {
        WordsAreComplete(v, WordEnd(v, i), enc);
        WordIsComplete(v, i, WordEnd(v, i), enc);
      }
    }
  }

  lemma WordIsComplete(v: Bytes, i: nat, e: nat, enc: Encoding)
    requires i <= e <= |v| && Complete(v, enc) && (e < |v| ==> v[e] == ' ')
    ensures Complete(v[i..e], enc)
  {
    var w := v[i..e];
    forall k | 0 <= k < |w| ensures CompleteAt(w, k, enc) {
      assert CompleteAt(v, i + k, enc) && w[k] == v[i + k];
      var n := CharLength(w[k], enc);
      assert AllHigh(v, i + k + 1, i + k + n);
      forall j | k + 1 <= j < k + n ensures w[j] as int >= 0x80 { assert w[j] == v[i + j]; }
    }
  }

  lemma {:induction false} JoinIsComplete(ws: seq<Bytes>, enc: Encoding)
    requires forall k | 0 <= k < |ws| :: Complete(ws[k], enc)
    ensures Complete(Join(ws), enc)
  {
    hide Complete;
    if ws == [] {
      NoWords();
      ConcatIsComplete(Join(ws), Join(ws), enc);
      assert Join(ws) + Join(ws) == Join(ws);
    } else if |ws| > 1 {
      JoinIsComplete(ws[1..], enc);
      ConcatIsComplete(ws[0], " ", enc);
      ConcatIsComplete(ws[0] + " ", Join(ws[1..]), enc);
    }
  }

  lemma ConcatIsComplete(a: Bytes, b: Bytes, enc: Encoding)
    requires (Complete(a, enc) || a == []) && (Complete(b, enc) || b == [] || b == " ")
    ensures Complete(a + b, enc)
  {
    forall i | 0 <= i < |a + b| ensures CompleteAt(a + b, i, enc) {
      if i < |a| {
        assert CompleteAt(a, i, enc);
      } else {
        assert (a + b)[i] == b[i - |a|] && (b != " " ==> CompleteAt(b, i - |a|, enc));
        var n := CharLength(b[i - |a|], enc);
        forall k | i + 1 <= k < i + n ensures (a + b)[k] as int >= 0x80 { assert (a + b)[k] == b[k - |a|]; }
      }
    }
  }

  lemma CondensedStartsAlike(v: Bytes, enc: Encoding)
    requires !StartsZeroWidth(v, enc)
    ensures !StartsZeroWidth(Condense(v), enc)
  {
    hide Words, Join, WordEnd;
    var k, t := FirstNonSpace(v, 0), Condense(v);
    NoWords();
    if k < |v| { WordsStep(v, k); } else { EndOfText(v); }
    if k < |v| {
      var e := WordEnd(v, k);
      JoinStarts(Words(v, 0));
      assert v[k..e][0] == v[k];
      assert FirstNonSpace(t, 0) == 0;
      if IsZeroWidth(t, 0) { assert IsZeroWidth(v, k) by { ZeroWidthInWord(t, v, k, e); } }
    }
  }

  lemma NoWords()
    ensures Join([]) == []
  {
  }

  lemma ZeroWidthInWord(t: Bytes, v: Bytes, k: nat, e: nat)
    requires k <= e <= |v| && e - k <= |t| && t[..e - k] == v[k..e] && (e - k < |t| ==> t[e - k] == ' ')
    requires IsZeroWidth(t, 0)
    ensures IsZeroWidth(v, k)
  {
    assert e - k > 2;
    var x := t[..e - k];
    assert x[0] == v[k] && x[1] == v[k + 1] && x[2] == v[k + 2];
  }

  lemma JoinStarts(ws: seq<Bytes>)
    requires ws != []
    ensures var t, n := Join(ws), |ws[0]|; n <= |t| && t[..n] == ws[0] && (n < |t| ==> t[n] == ' ')
  {
  }

  /** Writing and reading twice gives what doing it once gives. */
  lemma CondensedTwice(s: CString, p: nat, v: Bytes, w: Bytes, s': CString, p': nat, w': Bytes, enc: Encoding)
    requires Complete(v, enc) && !HasHexRef(v) && !StartsZeroWidth(v, enc) && IsBlank(w) && IsBlank(w')
    requires Has(s, p, EncodeFrom(v, 0) + (w + "<"))
    requires Has(s', p', EncodeFrom(TextAt(s, p, true, "<", enc, true).text, 0) + (w' + "<"))
    ensures TextAt(s', p', true, "<", enc, true).text == TextAt(s, p, true, "<", enc, true).text
  {
    hide TextAt, EncodeFrom, Has, HasHexRef, Complete, StartsZeroWidth, Words, Join;
    CondensedRoundTrip(s, p, v, w, enc);
    CondenseIdempotent(v);
    WordsAreComplete(v, 0, enc);
    JoinIsComplete(Words(v, 0), enc);
    CondensedStartsAlike(v, enc);
    CondensedRoundTrip(s', p', Condense(v), w', enc);
  }
}
