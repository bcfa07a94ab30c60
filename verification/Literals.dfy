/**
 What the tables and tests of the scanner and the printer mean, with every byte written out. The
 standards these come from are sections 2.3, 4.1 and 4.6 of XML 1.0 and section 3 of RFC 3629.
 */
module Literals {
  import opened CStrings
  import opened Options
  import opened Utf8
  import opened Scan
  import opened Entities
  import opened Escapes
  import opened Trees
  import opened Location
  import opened Parser
  import opened Printing
  import opened Quirks

  // ----- entities -----

  /** The five names of section 4.6 of XML 1.0. */
  lemma NamedEntities(s: CString, p: nat, enc: Encoding)
    requires p < |s|
    ensures Has(s, p, "&amp;") ==> CharAt(s, p, enc) == Character("&", Pos(p + 5))
    ensures Has(s, p, "&lt;") ==> CharAt(s, p, enc) == Character("<", Pos(p + 4))
    ensures Has(s, p, "&gt;") ==> CharAt(s, p, enc) == Character(">", Pos(p + 4))
    ensures Has(s, p, "&quot;") ==> CharAt(s, p, enc) == Character("\"", Pos(p + 6))
    ensures Has(s, p, "&apos;") ==> CharAt(s, p, enc) == Character("\'", Pos(p + 6))
  {
    hide CharAt, Has;
    assert ENTITY[0].0 == "&amp;" && ENTITY[1].0 == "&lt;" && ENTITY[2].0 == "&gt;";
    assert ENTITY[3].0 == "&quot;" && ENTITY[4].0 == "&apos;";
    forall k | 0 <= k < 5 && Has(s, p, ENTITY[k].0)
      ensures CharAt(s, p, enc) == Character([ENTITY[k].1], Pos(p + |ENTITY[k].0|))
    {
      NamedReads(s, p, k, enc);
    }
  }

  /** An ampersand that begins none of them and no reference is bare. */
  lemma BareIs(s: CString, p: nat)
    requires p < |s|
    ensures IsBare(s, p) <==>
      && s[p] == '&' && !(p + 2 < |s| && s[p + 1] == '#')
      && !Has(s, p, "&amp;") && !Has(s, p, "&lt;") && !Has(s, p, "&gt;") && !Has(s, p, "&quot;") && !Has(s, p, "&apos;")
  {
    hide Has;
    assert ENTITY[0].0 == "&amp;" && ENTITY[1].0 == "&lt;" && ENTITY[2].0 == "&gt;";
    assert ENTITY[3].0 == "&quot;" && ENTITY[4].0 == "&apos;";
  }

  /** How each byte is written; the digits of control bytes are upper case. */
  lemma EscapesAre(c: Byte)
    ensures c == '&' ==> EscapeByte(c) == "&amp;"
    ensures c == '<' ==> EscapeByte(c) == "&lt;"
    ensures c == '>' ==> EscapeByte(c) == "&gt;"
    ensures c == '\"' ==> EscapeByte(c) == "&quot;"
    ensures c == '\'' ==> EscapeByte(c) == "&apos;"
    ensures c as int < 32 ==>
      EscapeByte(c) == "&#x" + ["0123456789ABCDEF"[c as int / 16], "0123456789ABCDEF"[c as int % 16]] + ";"
    ensures c as int >= 32 && c !in "&<>\"\'" ==> EscapeByte(c) == [c]
  {
    if c as int < 32 {
      HexDigitIs(c as int / 16);
      HexDigitIs(c as int % 16);
    }
  }

  lemma HexDigitIs(d: nat)
    requires d < 16
    ensures UpperHex(d) == "0123456789ABCDEF"[d]
  {
  }

  /** Only `&#x` with something before it ends is copied, up to the next semicolon or to the last
      byte; everything else is written byte by byte. */
  lemma EncodesAs(v: Bytes, i: nat)
    requires i < |v|
    ensures !Has(v, i, "&#x") ==> EncodeFrom(v, i) == EscapeByte(v[i]) + EncodeFrom(v, i + 1)
    ensures Has(v, i, "&#x") ==> exists e ::
      && i < e < |v| && (v[e] == ';' || e == |v| - 1) && ';' !in v[i..e]
      && EncodeFrom(v, i) == v[i..e] + EncodeFrom(v, e)
  {
    hide EscapeByte;
    HasIff(v, i, "&#x");
    assert "&#x"[0] == '&' && "&#x"[1] == '#' && "&#x"[2] == 'x';
    if HexRefAt(v, i) {
      var e := CopyEnd(v, i);
      assert v[i] != ';';
      assert i < e < |v| && ';' !in v[i..e];
    }
  }

  lemma HexRefIs(v: Bytes)
    ensures HasHexRef(v) <==> exists i | 0 <= i < |v| :: Has(v, i, "&#x")
  {
    assert "&#x"[0] == '&' && "&#x"[1] == '#' && "&#x"[2] == 'x';
    forall i | 0 <= i < |v| ensures HexRefAt(v, i) <==> Has(v, i, "&#x") { HasIff(v, i, "&#x"); }
  }

  // ----- numeric references -----

  /** The digits of a reference, decimal or hexadecimal in either letter case. */
  lemma DigitsAre(c: Byte, d: nat)
    ensures DigitValue(c, 10) == Some(d) <==> d < 10 && c == "0123456789"[d]
    ensures DigitValue(c, 16) == Some(d) <==> d < 16 && (c == "0123456789ABCDEF"[d] || c == "0123456789abcdef"[d])
  {
    if d < 16 {
      HexDigitIs(d);
      assert d >= 10 ==> "0123456789abcdef"[d] == ('a' as int + d - 10) as char;
      assert d < 10 ==> "0123456789abcdef"[d] == "0123456789"[d] == ('0' as int + d) as char;
    }
  }

  /** A reference stands for the UTF-8 form of its number in UTF-8 mode, and otherwise for the
      number modulo 256. */
  lemma ReferenceBytes(ucs: nat, enc: Encoding)
    ensures !enc.Utf8? ==> CodePointBytes(ucs, enc) == [(ucs % 256) as char]
    ensures enc.Utf8? && ucs < 0x200000 ==>
      forall b :: b == CodePointBytes(ucs, enc) <==> Decode(b) == Some(ucs)
    ensures enc.Utf8? && ucs >= 0x200000 ==> CodePointBytes(ucs, enc) == []
    ensures TWO_32 == 4294967296
  {
    hide Encode, Decode;
    if enc.Utf8? && ucs < 0x200000 {
      forall b ensures b == CodePointBytes(ucs, enc) <==> Decode(b) == Some(ucs) { EncodeDecode(ucs, b); }
    }
    if ucs >= 0x200000 { NothingAbove(ucs); }
  }

  lemma NothingAbove(ucs: nat)
    requires ucs >= 0x200000
    ensures Encode(ucs) == []
  {
  }

  // ----- white space -----

  /** Tab, line feed, vertical tab, form feed, carriage return and space are white space. */
  predicate SpaceByte(c: Byte) {
    c as int in {9, 10, 11, 12, 13, 32}
  }

  /** The byte order mark and the two noncharacters U+FFFE and U+FFFF. */
  predicate Invisible(s: CString, p: nat) {
    && p + 2 < |s| && s[p] as int == 0xEF
    && (s[p + 1] as int, s[p + 2] as int) in {(0xBB, 0xBF), (0xBF, 0xBE), (0xBF, 0xBF)}
  }

  /** Skipping passes exactly these bytes, and in UTF-8 mode these sequences. */
  lemma SkippingIs(s: CString, p: nat, enc: Encoding)
    requires p < |s|
    ensures SpaceByte(s[p]) ==> SkipFrom(s, p, enc) == SkipFrom(s, p + 1, enc)
    ensures enc.Utf8? && Invisible(s, p) ==> SkipFrom(s, p, enc) == SkipFrom(s, p + 3, enc)
    ensures !SpaceByte(s[p]) && !(enc.Utf8? && Invisible(s, p)) ==> SkipFrom(s, p, enc) == p
  {
  }

  /** In UTF-8 mode these sequences take no column and every other one that begins with 0xEF takes
      one; a line break starts a row, and everything else is one column a character. */
  lemma ColumnsAre(s: CString, tab: nat, c: Cursor)
    requires c.p + 2 < |s| && tab >= 1 && s[c.p] as int == 0xEF
    ensures Invisible(s, c.p) ==> Step(s, tab, Utf8, c) == Cursor(c.row, c.col, c.p + 3)
    ensures !Invisible(s, c.p) ==> Step(s, tab, Utf8, c) == Cursor(c.row, c.col + 1, c.p + 3)
    ensures Step(s, tab, Legacy, c) == Step(s, tab, Undeclared, c) == Cursor(c.row, c.col + 1, c.p + 1)
  {
  }

  /** The same for the count byte by byte. */
  lemma TallyIs(s: CString, tab: nat, enc: Encoding, i: nat, t: Tally)
    requires i < |s| && tab >= 1 && t.skip == 0 && !(t.pending.AfterCR? && s[i] as int == 10)
    requires !(t.pending.AfterLF? && s[i] as int == 13)
    ensures s[i] as int == 13 ==> TallyByte(s, i, tab, enc, t) == Tally(t.row + 1, 0, AfterCR, 0)
    ensures s[i] as int == 10 ==> TallyByte(s, i, tab, enc, t) == Tally(t.row + 1, 0, AfterLF, 0)
    ensures enc.Utf8? && Invisible(s, i) ==> TallyByte(s, i, tab, enc, t) == Tally(t.row, t.col, NoBreak, 2)
    ensures s[i] as int !in {9, 10, 13} && s[i] as int < 0x80 ==>
      TallyByte(s, i, tab, enc, t) == Tally(t.row, t.col + 1, NoBreak, 0)
  {
  }

  // ----- names -----

  predicate Letter(c: Byte) {
    65 <= c as int <= 90 || 97 <= c as int <= 122
  }

  /** A name begins with a letter, an underscore or a byte from 127 up, and goes on with these,
      digits, hyphens, dots and colons as far as they reach. */
  lemma NameIs(s: CString, p: nat)
    requires p < |s|
    ensures var n := NameAt(s, p);
      && (n.p.Pos? <==> Letter(s[p]) || s[p] == '_' || s[p] as int >= 127)
      && (n.p.Pos? ==>
            && n.name == s[p..n.p.i]
            && (forall k | p <= k < n.p.i ::
                  Letter(s[k]) || 48 <= s[k] as int <= 57 || s[k] in "_-.:" || s[k] as int >= 127)
            && (n.p.i < |s| ==>
                  var c := s[n.p.i];
                  !Letter(c) && !(48 <= c as int <= 57) && c !in "_-.:" && c as int < 127))
  {
    if StartsName(s[p]) { NameBytes(s, p); }
  }

  lemma {:induction false} NameBytes(s: CString, p: nat)
    requires p <= |s|
    ensures forall k | p <= k < NameEnd(s, p) :: ContinuesName(s[k])
    decreases |s| - p
  {
    if p < |s| && ContinuesName(s[p]) { NameBytes(s, p + 1); }
  }

  // ----- kinds of nodes -----

  /** `<?xml` in any letter case, `<!--`, `<![CDATA[` and `<!` open what they always do; a name
      opens an element and anything else an unknown node. */
  lemma KindsAre(s: CString, p: nat)
    requires p < |s| && s[p] == '<'
    ensures p + 4 < |s| && s[p + 1] == '?' && s[p + 2] in "xX" && s[p + 3] in "mM" && s[p + 4] in "lL" ==>
      Identify(s, p) == DeclarationKind
    ensures Has(s, p, "<!--") ==> Identify(s, p) == CommentKind
    ensures Has(s, p, "<![CDATA[") ==> Identify(s, p) == CDataKind
    ensures Has(s, p, "<!") && !Has(s, p, "<!--") && !Has(s, p, "<![CDATA[") ==> Identify(s, p) == UnknownKind
    ensures p + 1 < |s| && (Letter(s[p + 1]) || s[p + 1] == '_' || s[p + 1] as int >= 127) ==>
      Identify(s, p) == ElementKind
  {
    hide Has;
    KindByBytes(s, p);
    AnyCase(s, p, "<?xml");
    HasMeans(s, p, "<!--", 1);
    HasMeans(s, p, "<![CDATA[", 1);
    HasMeans(s, p, "<!--", 2);
    HasMeans(s, p, "<![CDATA[", 2);
    HasMeans(s, p, "<!", 1);
  }

  lemma KindByBytes(s: CString, p: nat)
    requires p < |s| && s[p] == '<'
    ensures Matches(s, p, COMMENT_OPEN, false) <==> Has(s, p, "<!--")
    ensures Matches(s, p, CDATA_OPEN, false) <==> Has(s, p, "<![CDATA[")
    ensures Matches(s, p, "<!", false) <==> Has(s, p, "<!")
    ensures Matches(s, p, XML_OPEN, true) <==> Matches(s, p, "<?xml", true)
    ensures p + 1 < |s| && s[p + 1] != '?' ==> !Matches(s, p, XML_OPEN, true)
  {
  }

  /** A literal matches in any letter case when each byte is it or differs by 32 from a letter. */
  lemma AnyCase(s: CString, p: nat, t: CString)
    requires t != []
    ensures Matches(s, p, t, true) <==>
      p + |t| <= |s| && forall k {:trigger t[k]} | 0 <= k < |t| ::
        s[p + k] == t[k] || (Letter(s[p + k]) && Letter(t[k]) && (s[p + k] as int - t[k] as int) in {32, -32})
  {
    HasIff(Lower(s), p, Lower(t));
  }

  // ----- attributes -----

  /** A value without quotes ends in front of white space, a slash or a closing bracket. */
  lemma {:induction false} UnquotedIs(s: CString, p: nat)
    requires p <= |s|
    ensures var e := UnquotedEnd(s, p);
      && (forall k | p <= k < e :: !SpaceByte(s[k]) && s[k] !in "/>\'\"")
      && (e < |s| ==> SpaceByte(s[e]) || s[e] in "/>\'\"")
      && (e < |s| ==> (EndsUnquoted(s[e]) <==> SpaceByte(s[e]) || s[e] == '/' || s[e] == '>'))
    decreases |s| - p
  {
    if p < |s| && UnquotedEnd(s, p) > p { UnquotedIs(s, p + 1); }
  }

  /** Whatever else stands in a declaration is passed over up to white space or a closing bracket. */
  lemma {:induction false} JunkIs(s: CString, p: nat)
    requires p <= |s|
    ensures var e := JunkEnd(s, p);
      (forall k | p <= k < e :: !SpaceByte(s[k]) && s[k] != '>') && (e < |s| ==> SpaceByte(s[e]) || s[e] == '>')
    decreases |s| - p
  {
    if p < |s| && JunkEnd(s, p) > p { JunkIs(s, p + 1); }
  }

  /** A value is printed in double quotes unless it holds one, and then in single ones. */
  lemma PrintedAttributeIs(a: Attribute)
    ensures '\"' !in a.value ==>
      PrintAttribute(a) == EncodeFrom(a.name, 0) + "=\"" + EncodeFrom(a.value, 0) + "\""
    ensures '\"' in a.value ==>
      PrintAttribute(a) == EncodeFrom(a.name, 0) + "=\'" + EncodeFrom(a.value, 0) + "\'"
  {
    hide EncodeFrom;
    assert EncodeFrom(a.name, 0) + "=" + "\"" == EncodeFrom(a.name, 0) + "=\"";
    assert EncodeFrom(a.name, 0) + "=" + "\'" == EncodeFrom(a.name, 0) + "=\'";
  }

  /** Setting an attribute changes the value of that name only, in place or at the end. */
  lemma SettingIs(attributes: seq<Attribute>, name: Bytes, value: Bytes)
    requires DistinctNames(attributes)
    ensures var r := Trees.SetAttribute(attributes, name, value);
      && DistinctNames(r) && Attribute(name, value) in r
      && |r| == |attributes| + (if exists a <- attributes :: a.name == name then 0 else 1)
      && (forall k | 0 <= k < |attributes| :: r[k].name == attributes[k].name)
      && (forall k | 0 <= k < |attributes| && attributes[k].name != name :: r[k] == attributes[k])
  {
    var r, k := Trees.SetAttribute(attributes, name, value), IndexOf(attributes, name);
    if k < |attributes| {
      assert attributes[k] in attributes && r[k] == Attribute(name, value);
    } else {
      assert r[|attributes|] == Attribute(name, value);
    }
  }

  // ----- characters -----

  /** Only the lead bytes 0xC2 to 0xF4 announce more than one byte. */
  lemma LengthsAre(lead: Byte)
    ensures LeadLength(lead) == 2 <==> 0xC2 <= lead as int <= 0xDF
    ensures LeadLength(lead) == 3 <==> 0xE0 <= lead as int <= 0xEF
    ensures LeadLength(lead) == 4 <==> 0xF0 <= lead as int <= 0xF4
  {
  }

  /** A character that the end of the input cuts short by one byte is padded with a NUL, and the
      pointer then stands one past the end; by more, it has no meaning. */
  lemma CutCharacter(s: CString, p: nat)
    requires p < |s| && LeadLength(s[p]) > |s| - p
    ensures CharAt(s, p, Utf8) == Character(s[p..] + seq(LeadLength(s[p]) - (|s| - p), _ => 0 as char),
      if LeadLength(s[p]) == |s| - p + 1 then Pos(|s| + 1) else Wild)
  {
  }
}
