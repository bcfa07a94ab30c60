/**
 When the parser stays inside its input. A terminator that occurs later in the input is
 not enough: a numeric reference is read from its semicolon back to the nearest `x` or
 `#`, so it can reach over the terminator.
 */
module Bounds {
  import opened CStrings
  import opened Options
  import opened Utf8
  import opened Scan
  import opened Entities
  import opened Escapes
  import opened Text
  import opened Trees
  import opened Parser

  // ----- a single string between delimiters -----

  /** The closing quote is there, and yet reading runs past the end of the input. */
  lemma TerminatorPassedOver()
    ensures '\"' in "&#x\"x0;"
    ensures TextAt("&#x\"x0;", 0, false, "\"", Legacy, true).p == Pos(|"&#x\"x0;"| + 1)
  {
    var s: CString := "&#x\"x0;";
    assert s[3] == '\"';
    assert FindByte(s, 3, ';') == 6;
    assert DigitValue(s[5], 16) == Some(0);
    assert ScanDigits(s, 2, 4, 16, 16, 0) == Some(0);
    assert ScanDigits(s, 2, 5, 16, 1, 0) == Some(0);
    assert CharAt(s, 0, Legacy) == Character([ByteOf(0)], Pos(7));
  }

  /** No `e` stands between a numeric reference that starts at `i` and its semicolon. */
  predicate RefClear(s: CString, i: nat, e: Byte)
    requires i < |s|
  {
    s[i] == '&' && Ch(s, i + 1) == '#' ==>
      FindByte(s, i, ';') == |s| || e !in s[i..FindByte(s, i, ';')]
  }

  predicate RefsClear(s: CString, p: nat, k: nat, e: Byte)
    requires k <= |s|
  {
    forall i | p <= i < k :: RefClear(s, i, e)
  }

  predicate CompleteFrom(s: CString, p: nat, enc: Encoding) {
    forall i | p <= i < |s| :: CompleteAt(s, i, enc)
  }

  lemma {:induction false} FindByteSkip(s: CString, p: nat, q: nat, c: Byte)
    requires p <= q <= |s| && c !in s[p..q]
    ensures FindByte(s, p, c) == FindByte(s, q, c)
    decreases q - p
  {
    if p < q {
      assert s[p] == s[p..q][0] && s[p + 1..q] == s[p..q][1..];
      FindByteSkip(s, p + 1, q, c);
    }
  }

  lemma EntityClear(s: CString, p: nat, e: Byte, enc: Encoding)
    requires p < |s| && s[p] == '&' && RefClear(s, p, e) && IsDelimiter(e)
    ensures var c := EntityAt(s, p, enc); c.p.Pos? ==> e !in s[p..c.p.i]
  {
    hide ScanDigits, CodePointBytes;
    var c := EntityAt(s, p, enc);
    if Ch(s, p + 1) == '#' && p + 2 < |s| {
      var open := if s[p + 2] == 'x' then p + 2 else p + 1;
      assert ';' !in s[p..open + 1];
      FindByteSkip(s, p, open + 1, ';');
      var semi := FindByte(s, open + 1, ';');
      if semi < |s| { assert s[p..semi + 1] == s[p..semi] + [';']; }
    } else {
      NamedClear(s, p, 0, e);
    }
  }

  lemma {:induction false} NamedClear(s: CString, p: nat, i: nat, e: Byte)
    requires p < |s| && s[p] == '&' && i <= |ENTITY| && IsDelimiter(e)
    ensures e !in s[p..NamedEntity(s, p, i).p.i]
    decreases |ENTITY| - i
  {
    if i < |ENTITY| {
      if Has(s, p, ENTITY[i].0) {
        assert s[p..p + |ENTITY[i].0|] == ENTITY[i].0;
        NoDelimiters(i, e);
      } else {
        NamedClear(s, p, i + 1, e);
      }
    }
  }

  lemma NoDelimiters(i: nat, e: Byte)
    requires i < |ENTITY| && IsDelimiter(e)
    ensures e !in ENTITY[i].0
  {
  }

  lemma CharClear(s: CString, p: nat, e: Byte, enc: Encoding)
    requires p < |s| && CompleteAt(s, p, enc) && RefClear(s, p, e) && IsDelimiter(e) && s[p] != e
    ensures var c := CharAt(s, p, enc);
      !c.p.Wild? && (c.p.Pos? ==> p < c.p.i <= |s| && e !in s[p..c.p.i])
  {
    if s[p] == '&' { EntityClear(s, p, e, enc); }
    hide EntityAt;
  }

  /** No numeric reference that starts inside a character reaches over `e` if the character
      does not. */
  lemma InnerClear(s: CString, p: nat, e: Byte, enc: Encoding)
    requires p < |s| && CompleteAt(s, p, enc) && RefClear(s, p, e) && IsDelimiter(e)
    ensures var c := CharAt(s, p, enc); c.p.Pos? && c.p.i <= |s| ==> RefsClear(s, p, c.p.i, e)
  {
    hide EntityAt;
    if s[p] == '&' { InnerEntityClear(s, p, e, enc); }
  }

  lemma InnerEntityClear(s: CString, p: nat, e: Byte, enc: Encoding)
    requires p < |s| && s[p] == '&' && RefClear(s, p, e)
    ensures var c := EntityAt(s, p, enc); c.p.Pos? ==> RefsClear(s, p, c.p.i, e)
  {
    hide ScanDigits, CodePointBytes;
    var c := EntityAt(s, p, enc);
    if c.p.Pos? {
      if Ch(s, p + 1) == '#' && p + 2 < |s| {
        Semicolon(s, p);
        var semi := FindByte(s, p, ';');
        forall i | p <= i < c.p.i ensures RefClear(s, i, e) {
          if i < semi { LaterClear(s, p, i, e); }
        }
      } else {
        NamedInside(s, p, 0);
      }
    }
  }

  lemma LaterClear(s: CString, p: nat, i: nat, e: Byte)
    requires p <= |s| && p <= i <= FindByte(s, p, ';') < |s| && e !in s[p..FindByte(s, p, ';')]
    ensures RefClear(s, i, e)
  {
    var semi := FindByte(s, p, ';');
    assert s[p..semi][i - p..] == s[i..semi] && s[p..semi][..i - p] == s[p..i];
    FindByteSkip(s, p, i, ';');
  }

  /** The semicolon of a numeric reference is the next one. */
  lemma Semicolon(s: CString, p: nat)
    requires p + 2 < |s| && s[p] == '&' && s[p + 1] == '#'
    ensures FindByte(s, p, ';') == FindByte(s, (if s[p + 2] == 'x' then p + 2 else p + 1) + 1, ';')
  {
    var open := if s[p + 2] == 'x' then p + 2 else p + 1;
    assert ';' !in s[p..open + 1];
    FindByteSkip(s, p, open + 1, ';');
  }

  lemma {:induction false} NamedInside(s: CString, p: nat, i: nat)
    requires p < |s| && s[p] == '&' && i <= |ENTITY|
    ensures var c := NamedEntity(s, p, i);
      c.p.Pos? && c.p.i <= |s| && forall j | p < j < c.p.i :: s[j] != '&'
    decreases |ENTITY| - i
  {
    if i < |ENTITY| {
      var t := ENTITY[i].0;
      if Has(s, p, t) {
        forall j | p < j < p + |t| ensures s[j] != '&' {
          HasAt(s, p, t, j - p);
          OneAmpersand(i, j - p);
        }
      } else {
        NamedInside(s, p, i + 1);
      }
    }
  }

  lemma OneAmpersand(i: nat, j: nat)
    requires i < |ENTITY| && 0 < j < |ENTITY[i].0|
    ensures ENTITY[i].0[j] != '&'
  {
  }

  /** A numeric reference with `e` inside is no character, or ends past the first `e`. */
  lemma RefPassesOver(s: CString, p: nat, e: Byte, enc: Encoding)
    requires p < |s| && !RefClear(s, p, e) && IsDelimiter(e)
    ensures FindByte(s, p, e) < FindByte(s, p, ';') < |s|
    ensures var c := CharAt(s, p, enc); c.p.Null? || c.p == Pos(FindByte(s, p, ';') + 1)
  {
    hide ScanDigits, CodePointBytes, NamedEntity;
    var semi := FindByte(s, p, ';');
    var j :| 0 <= j < semi - p && s[p..semi][j] == e;
    assert s[p + j] == e;
    FindByteBefore(s, p, p + j, e);
    Semicolon(s, p);
  }

  lemma {:induction false} FindByteBefore(s: CString, p: nat, j: nat, e: Byte)
    requires p <= j < |s| && s[j] == e
    ensures FindByte(s, p, e) <= j
    decreases j - p
  {
    if s[p] != e { FindByteBefore(s, p + 1, j, e); }
  }

  /** Reading up to a delimiter either gives up or stops just past the first delimiter if and
      only if no numeric reference before it reaches over it. With no delimiter at all, that is
      one past the end of the input. */
  lemma {:induction false} KeepStopsIff(s: CString, p: nat, e: Byte, enc: Encoding, acc: Bytes)
    requires p <= |s| && CompleteFrom(s, p, enc) && IsDelimiter(e)
    ensures var k, r := FindByte(s, p, e), ReadKeep(s, p, [e], enc, acc);
      r.p == Null || (r.p == Pos(k + 1) <==> RefsClear(s, p, k, e))
    decreases |s| - p
  {
    hide RefClear, CharAt, CompleteAt;
    HasMeans(s, p, [e], 0);
    if p == |s| {
    } else if s[p] == e {
      StopsAt(s, p, e, enc, acc);
    } else if RefClear(s, p, e) {
      CharClear(s, p, e, enc);
      InnerClear(s, p, e, enc);
      var c := CharAt(s, p, enc);
      if c.p.Pos? {
        FindByteSkip(s, p, c.p.i, e);
        KeepStopsIff(s, c.p.i, e, enc, acc + c.value);
      }
    } else {
      RefPassesOver(s, p, e, enc);
    }
  }

  /** The numeric reference that starts at `i` gives up. */
  predicate GivesUp(s: CString, i: nat)
    requires i < |s|
  {
    && s[i] == '&' && Ch(s, i + 1) == '#' && i + 2 < |s|
    && if s[i + 2] == 'x' then NoNumber(s, i + 2, 16) else NoNumber(s, i + 1, 10)
  }

  /** There is no semicolon, or a byte that is no digit comes, from there to the left, before the
      byte that opens the digits. */
  predicate NoNumber(s: CString, open: nat, base: nat)
    requires open < |s|
  {
    var last := FindByte(s, open + 1, ';') - 1;
    last + 1 == |s| || exists j :: open < j <= last && StopsDigits(s, open, j, last, base)
  }

  predicate StopsDigits(s: CString, open: nat, j: nat, last: nat, base: nat)
    requires open < j <= last < |s|
  {
    DigitValue(s[j], base).None? && forall m | j <= m <= last :: s[m] != s[open]
  }

  lemma {:induction false} ScanFails(s: CString, open: nat, q: nat, base: nat, mult: nat, ucs: nat)
    requires open <= q < |s|
    ensures ScanDigits(s, open, q, base, mult, ucs).None?
       <==> exists j :: open < j <= q && StopsDigits(s, open, j, q, base)
    decreases q
  {
    hide DigitValue, ScanDigits;
    if s[q] == s[open] || q == open {
      ScanStops(s, open, q, base, mult, ucs);
    } else if DigitValue(s[q], base).None? {
      ScanStops(s, open, q, base, mult, ucs);
      assert StopsDigits(s, open, q, q, base);
    } else {
      var m, u := ScanOn(s, open, q, base, mult, ucs);
      ScanFails(s, open, q - 1, base, m, u);
      if ScanDigits(s, open, q, base, mult, ucs).None? {
        var j :| open < j <= q - 1 && StopsDigits(s, open, j, q - 1, base);
        assert StopsDigits(s, open, j, q, base);
      } else {
        forall j | open < j <= q ensures !StopsDigits(s, open, j, q, base) {
          assert j < q ==> !StopsDigits(s, open, j, q - 1, base);
        }
      }
    }
  }

  lemma ScanStops(s: CString, open: nat, q: nat, base: nat, mult: nat, ucs: nat)
    requires open <= q < |s|
    ensures s[q] == s[open] || q == open ==> ScanDigits(s, open, q, base, mult, ucs).Some?
    ensures s[q] != s[open] && q != open && DigitValue(s[q], base).None? ==>
      ScanDigits(s, open, q, base, mult, ucs).None?
  {
    hide DigitValue;
  }

  lemma ScanOn(s: CString, open: nat, q: nat, base: nat, mult: nat, ucs: nat) returns (m: nat, u: nat)
    requires open < q < |s| && s[q] != s[open] && DigitValue(s[q], base).Some?
    ensures ScanDigits(s, open, q, base, mult, ucs) == ScanDigits(s, open, q - 1, base, m, u)
  {
    hide DigitValue;
    var d := DigitValue(s[q], base).value;
    m, u := mult * base % TWO_32, (ucs + mult * d % TWO_32) % TWO_64;
  }

  lemma NoNumberIff(s: CString, open: nat, base: nat, enc: Encoding)
    requires open < |s|
    ensures NumericEntity(s, open, base, enc).p.Null? <==> NoNumber(s, open, base)
  {
    hide ScanDigits, CodePointBytes, StopsDigits;
    var semi := FindByte(s, open + 1, ';');
    if semi < |s| { ScanFails(s, open, semi - 1, base, 1, 0); }
  }

  lemma GivesUpIff(s: CString, p: nat, enc: Encoding)
    requires p < |s|
    ensures CharAt(s, p, enc).p.Null? <==> GivesUp(s, p)
  {
    hide NoNumber, NumericEntity, NamedEntity;
    if s[p] == '&' && Ch(s, p + 1) == '#' && p + 2 < |s| {
      if s[p + 2] == 'x' { NoNumberIff(s, p + 2, 16, enc); } else { NoNumberIff(s, p + 1, 10, enc); }
    }
  }

  /** Reading from `p` on, character by character and up to an `e`, comes to `q`. */
  predicate ComesTo(s: CString, e: Byte, enc: Encoding, p: nat, q: nat)
    decreases q - p
  {
    || p == q
    || (p < q && p < |s| && s[p] != e && CharAt(s, p, enc).p.Pos? && ComesTo(s, e, enc, CharAt(s, p, enc).p.i, q))
  }

  /** Reading up to a delimiter gives up if and only if it comes to a numeric reference that does. */
  lemma {:induction false} KeepGivesUpIff(s: CString, p: nat, e: Byte, enc: Encoding, acc: Bytes)
    requires p <= |s| && IsDelimiter(e)
    ensures ReadKeep(s, p, [e], enc, acc).p.Null?
       <==> exists i :: p <= i < |s| && GivesUp(s, i) && ComesTo(s, e, enc, p, i)
    decreases |s| - p
  {
    hide CharAt, GivesUp;
    HasMeans(s, p, [e], 0);
    if p == |s| {
    } else if s[p] == e {
      StopsAt(s, p, e, enc, acc);
      assert !GivesUp(s, p) by { GivesUpAtAmpersand(s, p); }
    } else {
      GivesUpIff(s, p, enc);
      var c := CharAt(s, p, enc);
      assert ComesTo(s, e, enc, p, p);
      if c.p.Pos? {
        assert forall i | p < i :: ComesTo(s, e, enc, p, i) <==> ComesTo(s, e, enc, c.p.i, i);
        if c.p.i <= |s| { KeepGivesUpIff(s, c.p.i, e, enc, acc + c.value); }
      }
    }
  }

  lemma GivesUpAtAmpersand(s: CString, i: nat)
    requires i < |s|
    ensures GivesUp(s, i) ==> s[i] == '&'
  {
    hide NoNumber;
  }

  /** When no numeric reference reaches over the first delimiter, reading ends inside the input
      if and only if there is a delimiter. */
  lemma KeepInBounds(s: CString, p: nat, e: Byte, enc: Encoding, condense: bool)
    requires p <= |s| && CompleteFrom(s, p, enc) && IsDelimiter(e) && RefsClear(s, p, FindByte(s, p, e), e)
    ensures var r := TextAt(s, p, false, [e], enc, condense);
      !r.p.Wild? && (r.p.Pos? ==> (r.p.i <= |s| <==> e in s[p..]))
  {
    hide RefsClear, CompleteFrom, ReadKeep;
    KeepStopsIff(s, p, e, enc, []);
    var k := FindByte(s, p, e);
    if k < |s| { assert s[p..][k - p] == e; } else { assert s[p..k] == s[p..]; }
  }

  // ----- the whole parser -----

  /** A quote that follows an equals sign from `p` on is closed. */
  predicate QuotesClosed(s: CString, p: nat, enc: Encoding) {
    forall i | p <= i < |s| && s[i] == '=' :: QuoteClosed(s, SkipFrom(s, i + 1, enc))
  }

  /** A quote at `q` stands again later on, and no numeric reference up to there reaches over it. */
  predicate QuoteClosed(s: CString, q: nat) {
    q < |s| && (s[q] == '\'' || s[q] == '\"') ==>
      var k := FindByte(s, q + 1, s[q]);
      k < |s| && RefsClear(s, q + 1, k, s[q])
  }

  predicate TagsClosed(s: CString, p: nat, open: CString, close: CString) {
    forall i | p <= i < |s| && Has(s, i, open) :: FindTag(s, i + |open|, close) < |s|
  }

  /** What a caller can check, from `p` on, so that the parser never leaves its input. */
  predicate WellTerminated(s: CString, p: nat, enc: Encoding) {
    && CompleteFrom(s, p, enc) && QuotesClosed(s, p, enc)
    && TagsClosed(s, p, COMMENT_OPEN, COMMENT_CLOSE) && TagsClosed(s, p, CDATA_OPEN, CDATA_CLOSE)
  }

  lemma WellTerminatedLater(s: CString, p: nat, q: nat, enc: Encoding)
    requires WellTerminated(s, p, enc) && p <= q
    ensures WellTerminated(s, q, enc)
  {
    hide CompleteAt, QuoteClosed, Has, FindTag;
  }

  lemma ValueInBounds(s: CString, p: nat, name: Bytes, cfg: Config, err: Error)
    requires p < |s| && s[p] == '=' && CompleteFrom(s, p, cfg.enc) && QuotesClosed(s, p, cfg.enc)
    ensures var a := ParseAttributeValue(s, p, name, cfg, err); a.p.Null? || (a.p.Pos? && a.p.i <= |s|)
  {
    hide TextAt, SkipFrom, RefsClear, UnquotedEnd, CompleteAt;
    var v := SkipFrom(s, p + 1, cfg.enc);
    assert QuoteClosed(s, v);
    if v < |s| && (s[v] == '\'' || s[v] == '\"') {
      var k := FindByte(s, v + 1, s[v]);
      KeepInBounds(s, v + 1, s[v], cfg.enc, cfg.condense);
      assert s[v + 1..][k - (v + 1)] == s[v];
    }
  }

  lemma AttributeInBounds(s: CString, p: nat, cfg: Config, err: Error)
    requires p <= |s| && WellTerminated(s, p, cfg.enc)
    ensures var a := ParseAttribute(s, p, cfg, err); a.p.Null? || (a.p.Pos? && a.p.i <= |s|)
  {
    hide WellTerminated, ParseAttributeValue, SkipFrom, NameAt;
    var q := SkipWs(s, p, cfg.enc);
    if q.Pos? && q.i < |s| {
      var n := NameAt(s, q.i);
      if n.p.Pos? && n.p.i < |s| {
        var e := SkipFrom(s, n.p.i, cfg.enc);
        if e < |s| && s[e] == '=' {
          WellTerminatedLater(s, p, e, cfg.enc);
          assert CompleteFrom(s, e, cfg.enc) && QuotesClosed(s, e, cfg.enc) by { QuotesOf(s, e, cfg.enc); }
          ValueInBounds(s, e, n.name, cfg, err);
        }
      }
    }
  }

  lemma QuotesOf(s: CString, p: nat, enc: Encoding)
    requires WellTerminated(s, p, enc)
    ensures CompleteFrom(s, p, enc) && QuotesClosed(s, p, enc)
  {
  }

  lemma {:induction false} CondensedInBounds(s: CString, p: nat, enc: Encoding, acc: Bytes, space: bool)
    requires p <= |s| && CompleteFrom(s, p, enc)
    ensures !ReadCondensed(s, p, "<", enc, acc, space).p.Wild?
    decreases |s| - p
  {
    if p < |s| {
      assert CompleteAt(s, p, enc);
      CharInBounds(s, p, enc);
      hide CharAt, CompleteAt;
      if Matches(s, p, "<", false) {
      } else if IsSpace(s[p]) {
        CondensedInBounds(s, p + 1, enc, acc, true);
      } else {
        var c := CharAt(s, p, enc);
        if c.p.Pos? { CondensedInBounds(s, c.p.i, enc, if space then acc + " " + c.value else acc + c.value, false); }
      }
    }
  }

  lemma CharInBounds(s: CString, p: nat, enc: Encoding)
    requires p < |s| && CompleteAt(s, p, enc)
    ensures !CharAt(s, p, enc).p.Wild? && (CharAt(s, p, enc).p.Pos? ==> p < CharAt(s, p, enc).p.i <= |s|)
  {
    hide EntityAt;
  }

  lemma {:induction false} KeptInBounds(s: CString, p: nat, enc: Encoding, acc: Bytes)
    requires p <= |s| && CompleteFrom(s, p, enc)
    ensures !ReadKeep(s, p, "<", enc, acc).p.Wild?
    decreases |s| - p
  {
    if p < |s| && !Matches(s, p, "<", false) {
      assert CompleteAt(s, p, enc);
      CharInBounds(s, p, enc);
      hide CharAt, CompleteAt;
      var c := CharAt(s, p, enc);
      if c.p.Pos? { KeptInBounds(s, c.p.i, enc, acc + c.value); }
    }
  }

  lemma TextInBounds(s: CString, p: nat, cdata: bool, cfg: Config, err: Error)
    requires p < |s| && WellTerminated(s, p, cfg.enc)
    ensures !ParseText(s, p, cdata, cfg, err).p.Wild?
  {
    hide CompleteAt, QuotesClosed, ReadKeep, ReadCondensed;
    if Matches(s, p, CDATA_OPEN, false) {
      var e := FindTag(s, p + 9, CDATA_CLOSE);
      assert e < |s|;
      CDataEnd(s, e, cfg);
    } else {
      KeptInBounds(s, p, cfg.enc, []);
      CondensedInBounds(s, SkipFrom(s, p, cfg.enc), cfg.enc, [], false);
    }
  }

  lemma CDataEnd(s: CString, e: nat, cfg: Config)
    requires e < |s| && Matches(s, e, CDATA_CLOSE, false)
    ensures TextAt(s, e, false, CDATA_CLOSE, cfg.enc, cfg.condense).p == Pos(e + 3)
  {
  }

  lemma {:induction false} DeclarationInBounds(s: CString, p: nat, cfg: Config, err: Error, d: Node)
    requires p <= |s| && d.Declaration? && WellTerminated(s, p, cfg.enc)
    ensures !DeclarationLoop(s, p, cfg, err, d).p.Wild?
    decreases |s| - p
  {
    hide WellTerminated, ParseAttribute, SkipFrom, SetField, FieldAt, JunkEnd;
    if p < |s| && s[p] != '>' {
      var q := SkipFrom(s, p, cfg.enc);
      WellTerminatedLater(s, p, q, cfg.enc);
      AttributeInBounds(s, q, cfg, err);
      var f, a := FieldAt(s, q), ParseAttribute(s, q, cfg, err);
      if f.NoField? {
        JunkAdvances(s, p, cfg.enc);
        WellTerminatedLater(s, p, JunkEnd(s, q), cfg.enc);
        DeclarationInBounds(s, JunkEnd(s, q), cfg, err, d);
      } else if a.p.Pos? {
        WellTerminatedLater(s, p, a.p.i, cfg.enc);
        DeclarationInBounds(s, a.p.i, cfg, err, SetField(d, f, a.attribute.value));
      }
    }
  }

  /** Every node, element and document is parsed inside its input. */
  lemma {:induction false} NodeInBounds(s: CString, p: nat, cfg: Config, err: Error)
    requires p < |s| && s[p] == '<' && WellTerminated(s, p, cfg.enc)
    ensures !ParseNode(s, p, cfg, err).p.Wild?
    decreases |s| - p, 1
  {
    hide WellTerminated, ParseElement, ParseText, ParseUnknown, DeclarationLoop;
    match Identify(s, p)
    case DeclarationKind =>
      WellTerminatedLater(s, p, p + 5, cfg.enc);
      if Matches(s, p, XML_OPEN, true) { DeclarationInBounds(s, p + 5, cfg, err, Declaration([], [], [])); }
    case CommentKind => CommentInBounds(s, p, cfg, err);
    case CDataKind => TextInBounds(s, p, true, cfg, err);
    case UnknownKind =>
    case ElementKind => ElementInBounds(s, p, cfg, err);
  }

  lemma CommentInBounds(s: CString, p: nat, cfg: Config, err: Error)
    requires p < |s| && s[p] == '<' && WellTerminated(s, p, cfg.enc)
    ensures !ParseComment(s, p, err).p.Wild?
  {
    hide CompleteFrom, QuotesClosed;
    if Matches(s, p, COMMENT_OPEN, false) { assert FindTag(s, p + 4, COMMENT_CLOSE) < |s|; }
  }

  lemma {:induction false} ElementInBounds(s: CString, p: nat, cfg: Config, err: Error)
    requires p < |s| && s[p] == '<' && WellTerminated(s, p, cfg.enc)
    ensures !ParseElement(s, p, cfg, err).p.Wild?
    decreases |s| - p, 0
  {
    hide WellTerminated, AttributeLoop, NameAt, SkipFrom;
    var q := SkipWs(s, p + 1, cfg.enc);
    if q.Pos? {
      var n := NameAt(s, q.i);
      if n.p.Pos? && n.p.i < |s| {
        WellTerminatedLater(s, p, n.p.i, cfg.enc);
        LoopInBounds(s, n.p.i, n.name, [], cfg, err);
      }
    }
  }

  lemma {:induction false} LoopInBounds(s: CString, p: nat, name: Bytes, attributes: seq<Attribute>, cfg: Config,
                                        err: Error)
    requires p <= |s| && WellTerminated(s, p, cfg.enc)
    ensures !AttributeLoop(s, p, name, attributes, cfg, err).p.Wild?
    decreases |s| - p, 4
  {
    hide WellTerminated, ParseAttribute, SkipFrom, ReadValue, IndexOf, SetAttribute, Has;
    if p < |s| {
      var q := SkipFrom(s, p, cfg.enc);
      WellTerminatedLater(s, p, q, cfg.enc);
      WellTerminatedLater(s, p, q + 1, cfg.enc);
      if q < |s| && s[q] == '>' { ContentInBounds(s, q + 1, [], cfg, err); }
      AttributeInBounds(s, q, cfg, err);
      var a := ParseAttribute(s, q, cfg, err);
      if a.p.Pos? {
        WellTerminatedLater(s, p, a.p.i, cfg.enc);
        LoopInBounds(s, a.p.i, name, SetAttribute(attributes, a.attribute.name, a.attribute.value), cfg, a.err);
      }
    }
  }

  lemma {:induction false} ContentInBounds(s: CString, p: nat, acc: seq<Node>, cfg: Config, err: Error)
    requires p <= |s| && WellTerminated(s, p, cfg.enc)
    ensures !ReadValue(s, p, acc, cfg, err).p.Wild?
    decreases |s| - p, 2
  {
    hide WellTerminated, ParseNode, ParseText, Matches, IsBlank;
    var w := SkipWs(s, p, cfg.enc);
    if w.Pos? && w.i < |s| {
      var start := if cfg.condense then w.i else p;
      WellTerminatedLater(s, p, w.i, cfg.enc);
      if s[w.i] == '<' { NodeInBounds(s, w.i, cfg, err); } else { TextInBounds(s, start, false, cfg, err); }
      var n := if s[w.i] == '<' then ParseNode(s, w.i, cfg, err) else ParseText(s, start, false, cfg, err);
      var acc' := if s[w.i] != '<' && IsBlank(n.node.value) then acc else acc + [n.node];
      if n.p.Pos? && p < n.p.i {
        WellTerminatedLater(s, p, n.p.i, cfg.enc);
        ContentInBounds(s, n.p.i, acc', cfg, n.err);
      }
    }
  }

  /** The condition in the encoding of the document; one that is not declared yet may turn out
      to be either. */
  predicate WellTerminatedFor(s: CString, p: nat, enc: Encoding) {
    if enc.Undeclared? then WellTerminated(s, p, Utf8) && WellTerminated(s, p, Legacy) else WellTerminated(s, p, enc)
  }

  lemma {:induction false} DocumentLoopInBounds(s: CString, p: nat, acc: seq<Node>, cfg: Config, err: Error)
    requires p <= |s| && WellTerminatedFor(s, p, cfg.enc)
    ensures !DocumentLoop(s, p, acc, cfg, err).p.Wild?
    decreases |s| - p
  {
    hide WellTerminated, ParseNode, SkipFrom;
    if p < |s| && s[p] == '<' {
      if cfg.enc.Undeclared? { UndeclaredIsLegacy(s, p); }
      NodeInBounds(s, p, cfg, err);
      var n := ParseNode(s, p, cfg, err);
      var cfg' := cfg.(enc := EncodingAfter(cfg.enc, n.node));
      if n.p.Pos? {
        var q := SkipWs(s, n.p.i, cfg'.enc);
        if q.Pos? {
          StillWellTerminated(s, p, q.i, cfg.enc, n.node);
          DocumentLoopInBounds(s, q.i, acc + [n.node], cfg', n.err);
        }
      }
    }
  }

  lemma StillWellTerminated(s: CString, p: nat, q: nat, enc: Encoding, n: Node)
    requires WellTerminatedFor(s, p, enc) && p <= q
    ensures WellTerminatedFor(s, q, EncodingAfter(enc, n))
  {
    hide WellTerminated;
    if enc.Undeclared? {
      WellTerminatedLater(s, p, q, Utf8);
      WellTerminatedLater(s, p, q, Legacy);
    } else {
      WellTerminatedLater(s, p, q, enc);
    }
  }

  lemma {:induction false} SameSkip(s: CString, p: nat)
    requires p <= |s|
    ensures SkipFrom(s, p, Undeclared) == SkipFrom(s, p, Legacy)
    decreases |s| - p
  {
    if p < |s| { SameSkip(s, p + 1); }
  }

  lemma UndeclaredIsLegacy(s: CString, p: nat)
    requires WellTerminated(s, p, Legacy)
    ensures WellTerminated(s, p, Undeclared)
  {
    hide RefsClear, TagsClosed, SkipFrom;
    forall i | p <= i < |s| ensures CompleteAt(s, i, Undeclared) { assert CompleteAt(s, i, Legacy); }
    forall i | p <= i < |s| && s[i] == '=' ensures QuoteClosed(s, SkipFrom(s, i + 1, Undeclared)) {
      SameSkip(s, i + 1);
      assert QuoteClosed(s, SkipFrom(s, i + 1, Legacy));
    }
  }

  /** A document whose comments and CDATA sections are closed, whose quotes are closed before a
      reference reaches over them, and whose characters are complete is parsed without ever
      leaving it. */
  lemma DocumentInBounds(s: CString, cfg: Config)
    requires WellTerminatedFor(s, 0, cfg.enc)
    ensures var r := ParseDocument(s, cfg); r.p.Null? || (r.p.Pos? && r.p.i <= |s|)
  {
    hide WellTerminated, DocumentLoop, SkipFrom;
    if s != [] {
      var enc := if cfg.enc.Undeclared? && Has(s, 0, ByteOrderMark()) then Utf8 else cfg.enc;
      var q := SkipFrom(s, 0, enc);
      StillWellTerminated(s, 0, q, enc, Comment([]));
      DocumentLoopInBounds(s, q, [], cfg.(enc := enc), NoError);
    }
  }
}
