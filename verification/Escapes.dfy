/**
 Reading back what `EncodeString` writes, with all white space kept.
 */
module Escapes {
  import opened CStrings
  import opened Options
  import opened Utf8
  import opened Scan
  import opened Entities
  import opened Text
  import Numeric

  predicate IsDelimiter(e: Byte) {
    e == '\"' || e == '\'' || e == '<'
  }

  // ----- one character -----

  lemma EscapeShape(c: Byte)
    ensures EscapeByte(c) != [] && !IsDelimiter(EscapeByte(c)[0]) && EscapeByte(c)[0] as int >= 32
    ensures EscapeByte(c)[0] == '&' || EscapeByte(c) == [c]
    ensures EscapeByte(c)[0] == ' ' ==> c == ' '
  {
  }

  /** A control byte written as a two-digit hexadecimal reference is read back. */
  lemma TwoDigits(h: nat, l: nat)
    requires h < 16 && l < 16
    ensures Numeric.Value([UpperHex(h), UpperHex(l)], 16) == 16 * h + l
  {
    var t := [UpperHex(h), UpperHex(l)];
    assert t[..1] == [t[0]] && t[..1][..0] == [];
    assert Numeric.Value([], 16) == 0;
    assert Numeric.Value(t[..1], 16) == h;
  }

  lemma ControlReads(s: CString, p: nat, c: Byte, enc: Encoding)
    requires c as int < 32 && Has(s, p, EscapeByte(c))
    ensures p < |s| && CharAt(s, p, enc) == Character([c], Pos(p + 6))
  {
    hide Has, EntityAt, Numeric.Value;
    var h, l := c as int / 16, c as int % 16;
    var t := [UpperHex(h), UpperHex(l)];
    assert EscapeByte(c) == "&#x" + t + ";";
    TwoDigits(h, l);
    var ucs := Numeric.HexReference(s, p, t, enc);
    HasAt(s, p, EscapeByte(c), 0);
  }

  lemma NamedReads(s: CString, p: nat, k: nat, enc: Encoding)
    requires k < |ENTITY| && Has(s, p, ENTITY[k].0)
    ensures p < |s| && CharAt(s, p, enc) == Character([ENTITY[k].1], Pos(p + |ENTITY[k].0|))
  {
    HasAt(s, p, ENTITY[k].0, 0);
    HasAt(s, p, ENTITY[k].0, 1);
    HasAt(s, p, ENTITY[k].0, 2);
    assert s[p] == '&' && s[p + 1] != '#';
    forall j | 0 <= j < k ensures !Has(s, p, ENTITY[j].0) {
      if Has(s, p, ENTITY[j].0) {
        HasAt(s, p, ENTITY[j].0, 1);
        HasAt(s, p, ENTITY[j].0, 2);
      }
    }
    NamedFrom(s, p, 0, k);
  }

  lemma {:induction false} NamedFrom(s: CString, p: nat, j: nat, k: nat)
    requires j <= k < |ENTITY| && Has(s, p, ENTITY[k].0) && p < |s|
    requires forall i | j <= i < k :: !Has(s, p, ENTITY[i].0)
    ensures NamedEntity(s, p, j) == Character([ENTITY[k].1], Pos(p + |ENTITY[k].0|))
    decreases k - j
  {
    if j < k { NamedFrom(s, p, j + 1, k); }
  }

  /** Any single byte is read back from its escape. */
  lemma EscapeReads(s: CString, p: nat, c: Byte, enc: Encoding)
    requires Has(s, p, EscapeByte(c)) && CharLength(c, enc) == 1
    ensures p < |s| && CharAt(s, p, enc) == Character([c], Pos(p + |EscapeByte(c)|))
  {
    HasAt(s, p, EscapeByte(c), 0);
    if c == '&' { NamedReads(s, p, 0, enc); }
    else if c == '<' { NamedReads(s, p, 1, enc); }
    else if c == '>' { NamedReads(s, p, 2, enc); }
    else if c == '\"' { NamedReads(s, p, 3, enc); }
    else if c == '\'' { NamedReads(s, p, 4, enc); }
    else if c as int < 32 { ControlReads(s, p, c, enc); }
  }

  /** Bytes from 0x80 up are written unchanged. */
  lemma {:induction false} HighUnchanged(v: Bytes, i: nat, j: nat)
    requires i <= j <= |v| && AllHigh(v, i, j)
    ensures EncodeFrom(v, i) == v[i..j] + EncodeFrom(v, j)
    decreases j - i
  {
    if i < j {
      HighUnchanged(v, i + 1, j);
      assert EscapeByte(v[i]) == [v[i]] && EncodeFrom(v, i) == [v[i]] + EncodeFrom(v, i + 1);
      assert v[i..j] == [v[i]] + v[i + 1..j];
      Associates([v[i]], v[i + 1..j], EncodeFrom(v, j));
    }
  }

  /** How the escaped form of `v[i..]` starts, away from character references: the source
      character at `i` takes `n` bytes, which are written as `Piece(v, i, enc)`. */
  function Piece(v: Bytes, i: nat, enc: Encoding): (r: Bytes)
    requires i < |v| && CompleteAt(v, i, enc)
    ensures r != []
  {
    var n := CharLength(v[i], enc);
    if n == 1 then EscapeByte(v[i]) else v[i..i + n]
  }

  lemma EncodeSplits(v: Bytes, i: nat, enc: Encoding)
    requires i < |v| && CompleteAt(v, i, enc) && !HexRefAt(v, i)
    ensures EncodeFrom(v, i) == Piece(v, i, enc) + EncodeFrom(v, i + CharLength(v[i], enc))
  {
    hide EscapeByte, EncodeFrom;
    if CharLength(v[i], enc) > 1 {
      HighUnchanged(v, i, i + CharLength(v[i], enc));
    } else {
      EncodeByte(v, i);
    }
  }

  lemma EncodeByte(v: Bytes, i: nat)
    requires i < |v| && !HexRefAt(v, i)
    ensures EncodeFrom(v, i) == EscapeByte(v[i]) + EncodeFrom(v, i + 1)
  {
    hide EscapeByte, HexRefAt;
  }

  lemma PieceReads(s: CString, p: nat, v: Bytes, i: nat, enc: Encoding)
    requires i < |v| && CompleteAt(v, i, enc) && Has(s, p, Piece(v, i, enc))
    ensures p < |s| && !IsDelimiter(s[p]) && (s[p] == ' ' ==> v[i] == ' ') && (IsSpace(s[p]) ==> s[p] == ' ')
    ensures CharAt(s, p, enc) == Character(v[i..i + CharLength(v[i], enc)], Pos(p + |Piece(v, i, enc)|))
  {
    var n := CharLength(v[i], enc);
    HasAt(s, p, Piece(v, i, enc), 0);
    if n == 1 {
      EscapeShape(v[i]);
      EscapeReads(s, p, v[i], enc);
      assert v[i..i + 1] == [v[i]];
    } else {
      assert s[p] == v[i];
    }
  }

  // ----- whole strings -----

  lemma KeepStep(s: CString, p: nat, v: Bytes, i: nat, e: Byte, enc: Encoding, acc: Bytes)
    requires i < |v| && CompleteAt(v, i, enc) && Has(s, p, Piece(v, i, enc)) && IsDelimiter(e)
    ensures ReadKeep(s, p, [e], enc, acc)
         == ReadKeep(s, p + |Piece(v, i, enc)|, [e], enc, acc + v[i..i + CharLength(v[i], enc)])
  {
    hide CharAt, Piece, CharLength;
    PieceReads(s, p, v, i, enc);
    if Matches(s, p, [e], false) { HasAt(s, p, [e], 0); }
  }

  /** Reading the escaped form of `v[i..]` appends exactly `v[i..]`. */
  lemma {:induction false} KeepReadsBack(s: CString, p: nat, v: Bytes, i: nat, e: Byte, enc: Encoding, acc: Bytes)
    requires i <= |v| && Has(s, p, EncodeFrom(v, i)) && IsDelimiter(e)
    requires Complete(v, enc) && !HasHexRef(v)
    ensures ReadKeep(s, p, [e], enc, acc) == ReadKeep(s, p + |EncodeFrom(v, i)|, [e], enc, acc + v[i..])
    decreases |v| - i
  {
    hide ReadKeep, CharLength, EscapeByte, Piece;
    if i == |v| {
      assert acc + v[i..] == acc;
    } else {
      hide EncodeFrom, Has;
      var n := CharLength(v[i], enc);
      assert CompleteAt(v, i, enc) && !HexRefAt(v, i);
      EncodeSplits(v, i, enc);
      HasConcat(s, p, Piece(v, i, enc), EncodeFrom(v, i + n));
      KeepStep(s, p, v, i, e, enc, acc);
      KeepReadsBack(s, p + |Piece(v, i, enc)|, v, i + n, e, enc, acc + v[i..i + n]);
      assert acc + v[i..i + n] + v[i + n..] == acc + v[i..];
    }
  }

  lemma StopsAt(s: CString, p: nat, e: Byte, enc: Encoding, acc: Bytes)
    requires p < |s| && s[p] == e
    ensures ReadKeep(s, p, [e], enc, acc) == TextResult(acc, Pos(p + 1))
  {
  }

  // ----- a character reference is never read back -----

  lemma EscapeSemicolon(c: Byte)
    ensures EscapeByte(c) != []
    ensures |EscapeByte(c)| > 1 ==> EscapeByte(c)[|EscapeByte(c)| - 1] == ';'
    ensures |EscapeByte(c)| > 1 ==> forall k | 0 <= k < |EscapeByte(c)| - 1 :: EscapeByte(c)[k] != ';'
    ensures |EscapeByte(c)| == 1 || c == ';' || c == 'x' ==> EscapeByte(c) == [c]
  {
  }

  lemma FirstSemicolon(s: CString, p: nat, x: nat)
    requires p <= x <= |s|
    requires forall k | p <= k < x :: s[k] != ';'
    ensures FindByte(s, p, ';') >= x
    ensures x < |s| && s[x] == ';' ==> FindByte(s, p, ';') == x
    ensures x < |s| && s[x] != ';' ==> FindByte(s, p, ';') > x
  {
    var r := FindByte(s, p, ';');
    assert r >= x;
    if x < r { assert s[p..r][x - p] == s[x]; }
  }

  lemma EncodeAtReference(v: Bytes, i: nat) returns (j: nat)
    requires i < |v| && HexRefAt(v, i)
    ensures j == CopyEnd(v, i) && i + 2 <= j < |v|
    ensures EncodeFrom(v, i) == v[i..j] + EncodeFrom(v, j)
    ensures EncodeFrom(v, j) == EscapeByte(v[j]) + EncodeFrom(v, j + 1)
    ensures v[j] == ';' ==> i + 3 <= j
    ensures v[j] != ';' ==> j == |v| - 1 && EncodeFrom(v, j + 1) == []
    ensures forall k | i < k < j :: v[k] != ';'
  {
    hide EscapeByte;
    j := CopyEnd(v, i);
  }

  /** The escaped form at a copied reference: the copied bytes, the byte copying stopped
      at, and the rest. */
  lemma CopySplits(s: CString, p: nat, v: Bytes, i: nat) returns (j: nat)
    requires i < |v| && HexRefAt(v, i) && Has(s, p, EncodeFrom(v, i))
    ensures j == CopyEnd(v, i) && i + 2 <= j < |v|
    ensures v[j] == ';' ==> i + 3 <= j
    ensures v[j] != ';' ==> j == |v| - 1 && EncodeFrom(v, j + 1) == []
    ensures Has(s, p, v[i..j]) && Has(s, p + (j - i), EscapeByte(v[j]))
    ensures Has(s, p + (j - i) + |EscapeByte(v[j])|, EncodeFrom(v, j + 1))
    ensures |EncodeFrom(v, i)| == j - i + |EscapeByte(v[j])| + |EncodeFrom(v, j + 1)|
    ensures forall k | i < k < j :: v[k] != ';'
  {
    hide EncodeFrom, Has, EscapeByte;
    j := EncodeAtReference(v, i);
    HasConcat(s, p, v[i..j], EncodeFrom(v, j));
    HasConcat(s, p + (j - i), EscapeByte(v[j]), EncodeFrom(v, j + 1));
  }

  lemma NoSemicolonCopied(s: CString, p: nat, v: Bytes, i: nat, j: nat)
    requires i <= j <= |v| && Has(s, p, v[i..j])
    requires forall k | i < k < j :: v[k] != ';'
    ensures p + (j - i) <= |s| && forall k | p < k < p + (j - i) :: s[k] != ';'
  {
    HasIff(s, p, v[i..j]);
    forall k | p < k < p + (j - i) ensures s[k] != ';' { assert s[k] == v[i..j][k - p] == v[i + (k - p)]; }
  }

  /** After `"&#x"` copied from `i`, the first semicolon is the one that ended the copying,
      or it lies beyond the delimiter, or it ends the escape of the string's last byte. */
  lemma CopiedSemicolon(s: CString, p: nat, v: Bytes, i: nat, e: Byte) returns (semi: nat, j: nat)
    requires i < |v| && HexRefAt(v, i) && Has(s, p, EncodeFrom(v, i)) && IsDelimiter(e)
    requires Ch(s, p + |EncodeFrom(v, i)|) == e
    ensures j == CopyEnd(v, i) && i + 2 <= j < |v|
    ensures Has(s, p, "&#x") && p + 3 <= |s| && semi == FindByte(s, p + 3, ';')
    ensures v[j] == ';' ==> i + 3 <= j && semi == p + (j - i) && Has(s, semi + 1, EncodeFrom(v, j + 1))
    ensures v[j] == ';' ==> p + |EncodeFrom(v, i)| == semi + 1 + |EncodeFrom(v, j + 1)|
    ensures v[j] != ';' ==>
      && j == |v| - 1
      && (semi > p + |EncodeFrom(v, i)| || (semi == p + |EncodeFrom(v, i)| - 1 && |EscapeByte(v[j])| > 1))
  {
    hide EncodeFrom, EscapeByte, CopyEnd, Has, FindByte;
    j := CopySplits(s, p, v, i);
    EscapeSemicolon(v[j]);
    CopiedPrefix(s, p, v, i, j);
    NoSemicolonCopied(s, p, v, i, j);
    semi := FindByte(s, p + 3, ';');
    HasAt(s, p + (j - i), EscapeByte(v[j]), 0);
    if v[j] == ';' {
      FirstSemicolon(s, p + 3, p + (j - i));
    } else {
      SemicolonAtEnd(s, p + 3, p + (j - i), EscapeByte(v[j]));
    }
  }

  lemma SemicolonAtEnd(s: CString, p: nat, q: nat, t: Bytes)
    requires Has(s, q, t) && t != [] && Ch(s, q + |t|) != ';' && q + |t| < |s|
    requires forall k | p <= k < q :: s[k] != ';'
    requires forall k | 0 <= k < |t| - 1 :: t[k] != ';'
    requires |t| == 1 ==> t[0] != ';' && p <= q + 1
    requires |t| > 1 ==> t[|t| - 1] == ';' && p <= q + |t| - 1
    ensures FindByte(s, p, ';') > q + |t| || (FindByte(s, p, ';') == q + |t| - 1 && |t| > 1)
  {
    HasIff(s, q, t);
    var last := q + |t| - 1;
    assert s[last] == t[|t| - 1];
    forall k | p <= k < last ensures s[k] != ';' {
      if k >= q { assert s[q + (k - q)] == t[k - q]; }
    }
    FirstSemicolon(s, p, if |t| == 1 then last + 1 else last);
  }

  lemma CopiedPrefix(s: CString, p: nat, v: Bytes, i: nat, j: nat)
    requires i < |v| && HexRefAt(v, i) && i + 2 <= j < |v|
    requires Has(s, p, v[i..j]) && Has(s, p + (j - i), EscapeByte(v[j]))
    ensures Has(s, p, "&#x")
  {
    HasIff(s, p, v[i..j]);
    assert v[i..j][0] == '&' && v[i..j][1] == '#' && (i + 2 < j ==> v[i..j][2] == 'x');
    if j == i + 2 { HasAt(s, p + 2, EscapeByte(v[j]), 0); }
    HasIff(s, p, "&#x");
  }

  lemma TwoHexDigits(s: CString, open: nat, q: nat, h: nat, l: nat)
    requires open + 2 <= q < |s| && s[open] == s[q - 2] == 'x' && h < 16 && l < 16
    requires DigitValue(s[q - 1], 16) == Some(h) && DigitValue(s[q], 16) == Some(l)
    ensures ScanDigits(s, open, q, 16, 1, 0) == Some(h * 16 + l)
  {
    assert ScanDigits(s, open, q - 2, 16, 256, l + 16 * h) == Some(h * 16 + l);
    assert ScanDigits(s, open, q - 1, 16, 16, l) == Some(h * 16 + l);
  }

  lemma UpperHexReads(d: nat)
    requires d < 16
    ensures DigitValue(UpperHex(d), 16) == Some(d)
  {
  }

  /** A reference that ends in the escape of a control byte reads as that byte; the last
      letter of a named escape is no hexadecimal digit. */
  lemma EscapeAsDigits(s: CString, open: nat, end: nat, c: Byte)
    requires |EscapeByte(c)| > 1 && open < |s| && s[open] == 'x'
    requires open < end - |EscapeByte(c)| + 2 && |EscapeByte(c)| <= end <= |s|
    requires Has(s, end - |EscapeByte(c)|, EscapeByte(c))
    ensures var r := ScanDigits(s, open, end - 2, 16, 1, 0); r.Some? ==> r.value < 0x80
  {
    var t := EscapeByte(c);
    var start := end - |t|;
    HasAt(s, start, t, |t| - 2);
    if c as int < 32 {
      HasAt(s, start, t, 2);
      HasAt(s, start, t, 3);
      UpperHexReads(c as int / 16);
      UpperHexReads(c as int % 16);
      TwoHexDigits(s, open, end - 2, c as int / 16, c as int % 16);
    } else {
      hide UpperHex, Has;
      assert t[|t| - 2] == 'p' || t[|t| - 2] == 't' || t[|t| - 2] == 's';
    }
  }

  predicate HexRefFrom(v: Bytes, i: nat) {
    exists k | i <= k < |v| :: HexRefAt(v, k)
  }

  lemma CodePointSmall(ucs: nat, enc: Encoding)
    requires ucs < 0x80
    ensures |CodePointBytes(ucs, enc)| == 1
  {
  }

  /** Reading a copied reference continues after the semicolon that `GetEntity` finds. */
  lemma ReferenceStep(s: CString, p: nat, e: Byte, enc: Encoding, acc: Bytes)
    requires Has(s, p, "&#x") && IsDelimiter(e)
    ensures p + 2 < |s| && s[p + 2] == 'x'
    ensures ReadKeep(s, p, [e], enc, acc) ==
      var c := NumericEntity(s, p + 2, 16, enc);
      if !c.p.Pos? then TextResult(acc + c.value, c.p) else ReadKeep(s, c.p.i, [e], enc, acc + c.value)
  {
    HasIff(s, p, "&#x");
    assert "&#x"[0] == '&' && "&#x"[1] == '#' && "&#x"[2] == 'x';
    assert CharLength('&', enc) == 1;
    assert CharAt(s, p, enc) == NumericEntity(s, p + 2, 16, enc);
    if Matches(s, p, [e], false) { HasAt(s, p, [e], 0); }
  }

  /** The bytes of a reference are fewer than the bytes it is written with. */
  lemma ReferenceShrinks(s: CString, open: nat, enc: Encoding)
    requires open < |s| && s[open] == 'x'
    ensures var c := NumericEntity(s, open, 16, enc);
      c.p.Pos? ==> |c.value| < c.p.i - open + 2 && c.p.i == FindByte(s, open + 1, ';') + 1
  {
    var semi := FindByte(s, open + 1, ';');
    if semi == open + 1 && semi < |s| {
      CodePointSmall(0, enc);
      assert ScanDigits(s, open, open, 16, 1, 0) == Some(0);
    }
  }

  /** If reading the escaped form of `v[i..]` stops at the delimiter that follows it, it has
      appended no more bytes than `v[i..]` has, and fewer when a reference was copied. */
  lemma {:induction false} KeepShrinks(s: CString, p: nat, v: Bytes, i: nat, e: Byte, enc: Encoding, acc: Bytes)
    requires i <= |v| && Has(s, p, EncodeFrom(v, i)) && IsDelimiter(e)
    requires Ch(s, p + |EncodeFrom(v, i)|) == e && Complete(v, enc)
    ensures var r := ReadKeep(s, p, [e], enc, acc);
      r.p == Pos(p + |EncodeFrom(v, i)| + 1) ==>
        |r.text| <= |acc| + |v| - i && (HexRefFrom(v, i) ==> |r.text| < |acc| + |v| - i)
    decreases |v| - i, 1
  {
    hide ReadKeep, CharLength, EscapeByte, Piece, Has;
    if i == |v| {
      StopsAt(s, p, e, enc, acc);
    } else if HexRefAt(v, i) {
      ReferenceKeepShrinks(s, p, v, i, e, enc, acc);
    } else {
      var n := CharLength(v[i], enc);
      assert CompleteAt(v, i, enc);
      EncodeSplits(v, i, enc);
      hide EncodeFrom;
      HasConcat(s, p, Piece(v, i, enc), EncodeFrom(v, i + n));
      KeepStep(s, p, v, i, e, enc, acc);
      KeepShrinks(s, p + |Piece(v, i, enc)|, v, i + n, e, enc, acc + v[i..i + n]);
      if HexRefFrom(v, i) { SkipRaw(v, i, enc); }
    }
  }

  lemma {:induction false} ReferenceKeepShrinks(s: CString, p: nat, v: Bytes, i: nat, e: Byte, enc: Encoding,
                                                acc: Bytes)
    requires i < |v| && HexRefAt(v, i) && Has(s, p, EncodeFrom(v, i)) && IsDelimiter(e)
    requires Ch(s, p + |EncodeFrom(v, i)|) == e && Complete(v, enc)
    ensures var r := ReadKeep(s, p, [e], enc, acc);
      r.p == Pos(p + |EncodeFrom(v, i)| + 1) ==> |r.text| < |acc| + |v| - i
    decreases |v| - i, 0
  {
    hide ReadKeep, CharLength, EscapeByte, Piece, Has, NumericEntity, EncodeFrom, Complete, FindByte;
    var semi, j := CopiedSemicolon(s, p, v, i, e);
    ReferenceStep(s, p, e, enc, acc);
    ReferenceShrinks(s, p + 2, enc);
    var c := NumericEntity(s, p + 2, 16, enc);
    if v[j] == ';' {
      if c.p.Pos? { KeepShrinks(s, semi + 1, v, j + 1, e, enc, acc + c.value); }
    } else if semi == p + |EncodeFrom(v, i)| - 1 {
      CopyAtEnd(s, p, v, i, e, enc, acc);
    }
  }

  lemma SkipRaw(v: Bytes, i: nat, enc: Encoding)
    requires i < |v| && CompleteAt(v, i, enc) && !HexRefAt(v, i) && HexRefFrom(v, i)
    ensures HexRefFrom(v, i + CharLength(v[i], enc))
  {
    var k :| i <= k < |v| && HexRefAt(v, k);
    assert v[k] == '&';
  }

  /** The case of `KeepShrinks` where copying ran to the last byte and its escape supplied
      the semicolon. */
  lemma CopyAtEnd(s: CString, p: nat, v: Bytes, i: nat, e: Byte, enc: Encoding, acc: Bytes)
    requires i < |v| && HexRefAt(v, i) && Has(s, p, EncodeFrom(v, i)) && IsDelimiter(e)
    requires Has(s, p, "&#x") && Ch(s, p + |EncodeFrom(v, i)|) == e
    requires v[CopyEnd(v, i)] != ';' && |EscapeByte(v[CopyEnd(v, i)])| > 1
    requires FindByte(s, p + 3, ';') == p + |EncodeFrom(v, i)| - 1
    ensures |ReadKeep(s, p, [e], enc, acc).text| < |acc| + |v| - i
  {
    hide EncodeFrom, EscapeByte, Has, ReadKeep;
    ReferenceStep(s, p, e, enc, acc);
    var j := CopySplits(s, p, v, i);
    var end := p + |EncodeFrom(v, i)|;
    EscapeAsDigits(s, p + 2, end, v[j]);
    hide ScanDigits;
    var c := NumericEntity(s, p + 2, 16, enc);
    if c.p.Pos? {
      CodePointSmall(ScanDigits(s, p + 2, end - 2, 16, 1, 0).value, enc);
      StopsAt(s, end, e, enc, acc + c.value);
    }
  }

  /** A string between delimiters is read back, and reading stops just past the delimiter,
      exactly when the string has nothing in it that looks like a hexadecimal character
      reference. Every other byte string round-trips, NULs and control bytes included. */
  lemma KeepRoundTrip(s: CString, p: nat, v: Bytes, e: Byte, enc: Encoding, condense: bool)
    requires Has(s, p, EncodeFrom(v, 0) + [e]) && IsDelimiter(e) && Complete(v, enc)
    ensures TextAt(s, p, false, [e], enc, condense) == TextResult(v, Pos(p + |EncodeFrom(v, 0)| + 1))
       <==> !HasHexRef(v)
  {
    hide ReadKeep, EncodeFrom;
    HasConcat(s, p, EncodeFrom(v, 0), [e]);
    var end := p + |EncodeFrom(v, 0)|;
    HasAt(s, end, [e], 0);
    if HasHexRef(v) {
      KeepShrinks(s, p, v, 0, e, enc, []);
    } else {
      KeepReadsBack(s, p, v, 0, e, enc, []);
      StopsAt(s, end, e, enc, [] + v[0..]);
      assert [] + v[0..] == v;
    }
  }
}
