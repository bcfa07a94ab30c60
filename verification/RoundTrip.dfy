/**
 Parsing what the printer prints gives back the same tree.
 */
module RoundTrip {
  import opened CStrings
  import opened Utf8
  import opened Scan
  import opened Entities
  import opened Numeric
  import opened Text
  import opened Escapes
  import opened Condensing
  import opened Trees
  import opened Parser
  import opened Printing

  // ----- what can be written and read back -----

  /** Indentation and line breaks are white space. */
  predicate StyleOk(st: Style) {
    IsBlank(st.indent) && IsBlank(st.lineBreak)
  }

  /** The printer adds white space and the parser keeps white space. */
  predicate Loose(st: Style, cfg: Config) {
    !cfg.condense && !(st.indent == [] && st.lineBreak == [])
  }

  /** No plain text has other children beside it, where printed white space would become part
      of it. */
  predicate LaidOut(n: Node, loose: bool) {
    n.Element? ==>
      && (forall k | 0 <= k < |n.children| :: LaidOut(n.children[k], loose))
      && (loose && !IsSimple(n.children) ==> NoPlainText(n.children))
  }

  predicate NoPlainText(nodes: seq<Node>) {
    forall k | 0 <= k < |nodes| :: !IsPlainText(nodes[k])
  }

  predicate NameOk(t: Bytes, enc: Encoding) {
    IsName(t) && '\0' !in t && !(enc.Utf8? && IsZeroWidth(t, 0))
  }

  predicate ValueOk(v: Bytes, enc: Encoding) {
    Complete(v, enc) && !HasHexRef(v)
  }

  predicate AttributesOk(attributes: seq<Attribute>, enc: Encoding) {
    && DistinctNames(attributes)
    && forall k | 0 <= k < |attributes| :: NameOk(attributes[k].name, enc) && ValueOk(attributes[k].value, enc)
  }

  /** Where skipping white space in the printed text stops: it passes spaces and, in UTF-8 mode,
      the zero-width sequences. */
  function SkippedTo(v: Bytes, i: nat, enc: Encoding): (r: nat)
    requires i <= |v|
    ensures i <= r <= |v|
    decreases |v| - i
  {
    if i < |v| && v[i] == ' ' then SkippedTo(v, i + 1, enc)
    else if i < |v| && enc.Utf8? && IsZeroWidth(v, i) then SkippedTo(v, i + 3, enc)
    else i
  }

  /** Text with something in it. When white space is condensed it must already be condensed, and
      what comes first must not be skipped; when it is kept, something must be left after what
      is skipped. */
  predicate PlainTextOk(v: Bytes, cfg: Config) {
    && ValueOk(v, cfg.enc) && !IsBlank(v)
    && if cfg.condense then !StartsZeroWidth(v, cfg.enc) && Condense(v) == v else SkippedTo(v, 0, cfg.enc) < |v|
  }

  predicate RawOk(v: Bytes, close: Bytes) {
    '\0' !in v && forall k | 0 <= k < |v| :: !Has(v, k, close)
  }

  /** An unknown node that `Identify` takes for one, and not for an end tag. */
  predicate UnknownOk(v: Bytes) {
    && '\0' !in v && '>' !in v
    && (v != [] ==> v[0] != '/' && !StartsName(v[0]) && v[0] != '?')
    && !Has(v, 0, "!--") && !Has(v, 0, "![CDATA[")
  }

  /** The value of a declaration is printed as it is, between double quotes. */
  predicate FieldOk(v: Bytes, enc: Encoding) {
    Complete(v, enc) && '\0' !in v && '\"' !in v && '&' !in v
  }

  predicate IsPlainText(n: Node) {
    n.Text? && !n.cdata
  }

  predicate NotAdjacent(nodes: seq<Node>) {
    forall k | 0 <= k < |nodes| - 1 :: !(IsPlainText(nodes[k]) && IsPlainText(nodes[k + 1]))
  }

  predicate NodeOk(n: Node, cfg: Config) {
    match n
    case Text(v, cdata) => if cdata then RawOk(v, CDATA_CLOSE) else PlainTextOk(v, cfg)
    case Comment(v) => RawOk(v, COMMENT_CLOSE)
    case Unknown(v) => UnknownOk(v)
    case Declaration(v, e, a) => FieldOk(v, cfg.enc) && FieldOk(e, cfg.enc) && FieldOk(a, cfg.enc)
    case Element(name, attributes, children) =>
      && NameOk(name, cfg.enc)
      && AttributesOk(attributes, cfg.enc)
      && NotAdjacent(children)
      && forall k | 0 <= k < |children| :: NodeOk(children[k], cfg)
  }

  // ----- positions -----

  /** Only white space stands between `p` and `q`. */
  predicate BlankTo(s: CString, p: nat, q: nat) {
    p <= q <= |s| && IsBlank(s[p..q])
  }

  lemma SkipTo(s: CString, p: nat, q: nat, enc: Encoding)
    requires BlankTo(s, p, q) && q < |s| && !IsSpace(s[q]) && !(enc.Utf8? && IsZeroWidth(s, q))
    ensures SkipFrom(s, p, enc) == q
  {
    SkipBlank(s, p, s[p..q], enc);
  }

  lemma SkipNone(s: CString, p: nat, enc: Encoding)
    requires p < |s| && 32 < s[p] as int < 0x80
    ensures SkipFrom(s, p, enc) == p
    ensures s[p] in " =>\"\'/" ==> !ContinuesName(s[p])
  {
  }

  // ----- names and attributes -----

  /** A name has nothing in it to escape. */
  lemma {:induction false} NameUnchanged(t: Bytes, i: nat)
    requires i <= |t| && forall k | 0 <= k < |t| :: ContinuesName(t[k])
    ensures EncodeFrom(t, i) == t[i..]
    decreases |t| - i
  {
    if i < |t| {
      NameUnchanged(t, i + 1);
      assert ContinuesName(t[i]);
      assert EscapeByte(t[i]) == [t[i]] && !HexRefAt(t, i);
    }
  }

  lemma ZeroWidthInName(s: CString, p: nat, t: Bytes)
    requires Has(s, p, t) && IsName(t) && !ContinuesName(Ch(s, p + |t|)) && IsZeroWidth(s, p)
    ensures IsZeroWidth(t, 0)
  {
    HasIff(s, p, t);
    assert ContinuesName(s[p + 1]) && ContinuesName(s[p + 2]);
    assert |t| >= 3;
    assert s[p + 0] == t[0] && s[p + 1] == t[1] && s[p + 2] == t[2];
  }

  /** A name in the input, followed by something that ends it. */
  lemma NameReads(s: CString, p: nat, t: Bytes, enc: Encoding)
    requires Has(s, p, t) && NameOk(t, enc) && !ContinuesName(Ch(s, p + |t|))
    ensures p < |s| && SkipFrom(s, p, enc) == p
    ensures NameAt(s, p) == Name(t, Pos(p + |t|))
    ensures StartsName(s[p]) && s[p] != '/' && s[p] != '>' && s[p] != '?' && s[p] != '!'
  {
    HasAt(s, p, t, 0);
    NameAtReads(s, p, t);
    if enc.Utf8? && IsZeroWidth(s, p) { ZeroWidthInName(s, p, t); }
  }

  lemma PrintAttributeParts(a: Attribute, enc: Encoding)
    requires NameOk(a.name, enc)
    ensures PrintAttribute(a) == a.name + (['=', QuoteFor(a.value)] + (EncodeFrom(a.value, 0) + [QuoteFor(a.value)]))
  {
    NameUnchanged(a.name, 0);
    hide EncodeFrom;
    assert EncodeFrom(a.name, 0) == a.name;
  }

  lemma ValueReads(s: CString, p: nat, name: Bytes, v: Bytes, cfg: Config, err: Error)
    requires Has(s, p, ['=', QuoteFor(v)] + (EncodeFrom(v, 0) + [QuoteFor(v)])) && ValueOk(v, cfg.enc)
    ensures p < |s| && s[p] == '='
    ensures ParseAttributeValue(s, p, name, cfg, err)
         == AttributeResult(Attribute(name, v), Pos(p + 3 + |EncodeFrom(v, 0)|), err)
  {
    hide EncodeFrom, TextAt, Complete, HasHexRef;
    var q := QuoteFor(v);
    HasConcat(s, p, ['=', q], EncodeFrom(v, 0) + [q]);
    HasAt(s, p, ['=', q], 0);
    HasAt(s, p, ['=', q], 1);
    KeepRoundTrip(s, p + 2, v, q, cfg.enc, cfg.condense);
  }

  /** A printed attribute is parsed back, up to and including its closing quote. */
  lemma AttributeReads(s: CString, p: nat, a: Attribute, cfg: Config, err: Error)
    requires Has(s, p, PrintAttribute(a)) && NameOk(a.name, cfg.enc) && ValueOk(a.value, cfg.enc)
    ensures p < |s| && SkipFrom(s, p, cfg.enc) == p && s[p] != '/' && s[p] != '>'
    ensures ParseAttribute(s, p, cfg, err) == AttributeResult(a, Pos(p + |PrintAttribute(a)|), err)
  {
    hide EncodeFrom, NameAt, ParseAttributeValue, ValueOk, NameOk, PrintAttribute, SkipFrom, Has, ContinuesName,
         StartsName;
    PrintAttributeParts(a, cfg.enc);
    var rest := ['=', QuoteFor(a.value)] + (EncodeFrom(a.value, 0) + [QuoteFor(a.value)]);
    HasConcat(s, p, a.name, rest);
    ValueReads(s, p + |a.name|, a.name, a.value, cfg, err);
    SkipNone(s, p + |a.name|, cfg.enc);
    NameReads(s, p, a.name, cfg.enc);
  }

  /** Reading the printed attributes from the `i`th on, with the earlier ones read. */
  lemma {:induction false} AttributesRead(s: CString, p: nat, name: Bytes, attributes: seq<Attribute>, i: nat,
                                          cfg: Config, err: Error)
    requires i <= |attributes| && AttributesOk(attributes, cfg.enc)
    requires Has(s, p, PrintAttributes(attributes, i)) && p + |PrintAttributes(attributes, i)| < |s|
    ensures AttributeLoop(s, p, name, attributes[..i], cfg, err)
         == AttributeLoop(s, p + |PrintAttributes(attributes, i)|, name, attributes, cfg, err)
    decreases |attributes| - i
  {
    hide AttributeLoop, PrintAttribute, PrintAttributes, Has, AttributesOk;
    if i == |attributes| {
      assert attributes[..i] == attributes;
      AttributesStep(attributes, i, cfg.enc);
    } else {
      var q := NextAttributeRead(s, p, name, attributes, i, cfg, err);
      AttributesRead(s, q, name, attributes, i + 1, cfg, err);
    }
  }

  lemma NextAttributeRead(s: CString, p: nat, name: Bytes, attributes: seq<Attribute>, i: nat,
                          cfg: Config, err: Error) returns (q: nat)
    requires i < |attributes| && AttributesOk(attributes, cfg.enc)
    requires Has(s, p, PrintAttributes(attributes, i)) && p + |PrintAttributes(attributes, i)| < |s|
    ensures Has(s, q, PrintAttributes(attributes, i + 1))
    ensures q + |PrintAttributes(attributes, i + 1)| == p + |PrintAttributes(attributes, i)|
    ensures AttributeLoop(s, p, name, attributes[..i], cfg, err)
         == AttributeLoop(s, q, name, attributes[..i + 1], cfg, err)
  {
    hide AttributeLoop, PrintAttribute, PrintAttributes, Has, SkipFrom, ParseAttribute, AttributesOk, NameOk, ValueOk,
         DistinctNames;
    AttributesStep(attributes, i, cfg.enc);
    var a, t, rest := attributes[i], PrintAttribute(attributes[i]), PrintAttributes(attributes, i + 1);
    HasConcat(s, p, " " + t, rest);
    HasConcat(s, p, " ", t);
    q := p + 1 + |t|;
    AttributeReads(s, p + 1, a, cfg, err);
    AttributeStep(s, p, name, attributes, i, cfg, err);
  }

  lemma AttributesStep(attributes: seq<Attribute>, i: nat, enc: Encoding)
    requires i <= |attributes| && AttributesOk(attributes, enc)
    ensures DistinctNames(attributes)
    ensures i < |attributes| ==> NameOk(attributes[i].name, enc) && ValueOk(attributes[i].value, enc)
    ensures PrintAttributes(attributes, i) ==
      if i == |attributes| then [] else " " + PrintAttribute(attributes[i]) + PrintAttributes(attributes, i + 1)
  {
    hide PrintAttribute, ValueOk;
  }

  lemma AttributeStep(s: CString, p: nat, name: Bytes, attributes: seq<Attribute>, i: nat, cfg: Config, err: Error)
    requires i < |attributes| && DistinctNames(attributes) && Has(s, p, " ") && p + 1 < |s|
    requires SkipFrom(s, p + 1, cfg.enc) == p + 1 && s[p + 1] != '/' && s[p + 1] != '>'
    requires var r := ParseAttribute(s, p + 1, cfg, err);
      r.attribute == attributes[i] && r.p.Pos? && r.p.i < |s| && r.err == err
    ensures AttributeLoop(s, p, name, attributes[..i], cfg, err)
         == AttributeLoop(s, ParseAttribute(s, p + 1, cfg, err).p.i, name, attributes[..i + 1], cfg, err)
  {
    hide ParseAttribute;
    HasAt(s, p, " ", 0);
    SkipSpace(s, p, cfg.enc);
    hide SkipFrom;
    var k := IndexOf(attributes[..i], attributes[i].name);
    assert k == i by { assert forall j | 0 <= j < i :: attributes[..i][j] == attributes[j]; }
    assert attributes[..i] + [attributes[i]] == attributes[..i + 1];
  }

  // ----- comments, CDATA and unknown nodes -----

  lemma NotInside(s: CString, p: nat, v: Bytes, close: CString, k: nat)
    requires Has(s, p, v) && Has(s, p + |v|, close) && RawOk(v, close) && k < |v|
    requires close == CDATA_CLOSE || close == COMMENT_CLOSE
    ensures !Has(s, p + k, close)
  {
    HasIff(s, p, v);
    HasIff(s, p + |v|, close);
    HasMeans(s, p + k, close, 0);
    HasMeans(s, p + k, close, 1);
    HasMeans(s, p + k, close, 2);
    HasIff(v, k, close);
    assert close[0] != close[2] && close[1] != close[2];
    assert k + 3 > |v| ==> s[p + |v| + (k + 2 - |v|)] == close[k + 2 - |v|];
    assert k + 3 <= |v| ==> s[p + (k + 0)] == v[k + 0] && s[p + (k + 1)] == v[k + 1] && s[p + (k + 2)] == v[k + 2];
  }

  /** The closing tag is found right after the value, although it could start inside it. */
  lemma CloseFound(s: CString, p: nat, v: Bytes, close: CString)
    requires Has(s, p, v + close) && RawOk(v, close) && (close == CDATA_CLOSE || close == COMMENT_CLOSE)
    ensures p + |v| + 3 <= |s| && s[p..p + |v|] == v && FindTag(s, p, close) == p + |v|
  {
    hide FindTag, RawOk;
    HasConcat(s, p, v, close);
    assert Matches(s, p + |v|, close, false);
    forall k | p <= k < p + |v| ensures !Matches(s, k, close, false) { NotInside(s, p, v, close, k - p); }
    var r := FindTag(s, p, close);
    assert r >= p + |v|;
  }

  lemma CommentReads(s: CString, p: nat, v: Bytes, cfg: Config, err: Error)
    requires Has(s, p, COMMENT_OPEN + v + COMMENT_CLOSE) && RawOk(v, COMMENT_CLOSE)
    ensures p < |s| && s[p] == '<' && !Matches(s, p, "</", false)
    ensures ParseNode(s, p, cfg, err) == NodeResult(Comment(v), Pos(p + |v| + 7), err)
  {
    hide Has, FindTag, RawOk, ParseText, ParseDeclaration, ParseUnknown, ParseElement;
    assert COMMENT_OPEN + v + COMMENT_CLOSE == COMMENT_OPEN + (v + COMMENT_CLOSE);
    HasConcat(s, p, COMMENT_OPEN, v + COMMENT_CLOSE);
    CloseFound(s, p + 4, v, COMMENT_CLOSE);
    OpensWith(s, p, COMMENT_OPEN);
  }

  /** The bytes a node opens with settle what `Identify` says. */
  lemma OpensWith(s: CString, p: nat, open: CString)
    requires Has(s, p, open) && (open == COMMENT_OPEN || open == CDATA_OPEN)
    ensures p < |s| && s[p] == '<' && !Matches(s, p, "</", false)
    ensures Identify(s, p) == if open == COMMENT_OPEN then CommentKind else CDataKind
  {
    HasIff(s, p, open);
    assert s[p + 0] == open[0] && s[p + 1] == open[1] == '!' && s[p + 2] == open[2];
    SecondByte(s, p);
    if Matches(s, p, COMMENT_OPEN, false) { HasAt(s, p, COMMENT_OPEN, 2); }
  }

  lemma SecondByte(s: CString, p: nat)
    requires p + 1 < |s|
    ensures s[p + 1] != '?' ==> !Matches(s, p, XML_OPEN, true)
    ensures s[p + 1] != '!' ==>
      !Matches(s, p, COMMENT_OPEN, false) && !Matches(s, p, CDATA_OPEN, false) && !Matches(s, p, "<!", false)
    ensures s[p + 1] != '/' ==> !Matches(s, p, "</", false)
  {
    if Matches(s, p, XML_OPEN, true) {
      HasAt(Lower(s), p, Lower(XML_OPEN), 1);
      assert ToLower(s[p + 1]) == ToLower('?');
    }
    if Matches(s, p, COMMENT_OPEN, false) { HasAt(s, p, COMMENT_OPEN, 1); }
    if Matches(s, p, CDATA_OPEN, false) { HasAt(s, p, CDATA_OPEN, 1); }
    if Matches(s, p, "<!", false) { HasAt(s, p, "<!", 1); }
    if Matches(s, p, "</", false) { HasAt(s, p, "</", 1); }
  }

  lemma CDataReads(s: CString, p: nat, v: Bytes, cfg: Config, err: Error)
    requires Has(s, p, CDATA_OPEN + v + CDATA_CLOSE) && RawOk(v, CDATA_CLOSE)
    ensures p < |s| && s[p] == '<' && !Matches(s, p, "</", false)
    ensures ParseNode(s, p, cfg, err) == NodeResult(Text(v, true), Pos(p + |v| + 12), err)
  {
    hide Has, FindTag, RawOk, ParseComment, ParseDeclaration, ParseUnknown, ParseElement;
    assert CDATA_OPEN + v + CDATA_CLOSE == CDATA_OPEN + (v + CDATA_CLOSE);
    HasConcat(s, p, CDATA_OPEN, v + CDATA_CLOSE);
    CloseFound(s, p + 9, v, CDATA_CLOSE);
    OpensWith(s, p, CDATA_OPEN);
  }

  lemma InsideUnknown(s: CString, p: nat, v: Bytes, x: Bytes)
    requires Has(s, p, v + ">") && Has(s, p, x) && '>' !in x
    ensures Has(v, 0, x)
  {
    HasAt(s, p, v + ">", |v|);
    HasMeans(s, p, x, |v|);
    assert |x| <= |v|;
    HasIff(s, p, v + ">");
    HasIff(s, p, x);
    forall k | 0 <= k < |x| ensures v[0 + k] == x[k] { assert (v + ">")[k] == v[k]; }
    HasIff(v, 0, x);
  }

  lemma UnknownReads(s: CString, p: nat, v: Bytes, cfg: Config, err: Error)
    requires Has(s, p, "<" + v + ">") && UnknownOk(v)
    ensures p < |s| && s[p] == '<' && !Matches(s, p, "</", false)
    ensures ParseNode(s, p, cfg, err) == NodeResult(Unknown(v), Pos(p + |v| + 2), err)
  {
    hide ParseText, ParseComment, ParseDeclaration, ParseElement, Has, FindByte, Matches;
    assert "<" + v + ">" == "<" + (v + ">");
    HasConcat(s, p, "<", v + ">");
    HasAt(s, p, "<", 0);
    HasAt(s, p + 1, v + ">", 0);
    HasConcat(s, p + 1, v, ">");
    HasAt(s, p + 1 + |v|, ">", 0);
    SecondByte(s, p);
    UnknownKinds(s, p, v);
    FindClose(s, p + 1, v);
  }

  lemma UnknownKinds(s: CString, p: nat, v: Bytes)
    requires p < |s| && s[p] == '<' && Has(s, p + 1, v + ">") && UnknownOk(v)
    ensures !Matches(s, p, COMMENT_OPEN, false) && !Matches(s, p, CDATA_OPEN, false)
  {
    if Matches(s, p, COMMENT_OPEN, false) {
      HasConcat(s, p, "<", "!--");
      assert "<" + "!--" == COMMENT_OPEN;
      InsideUnknown(s, p + 1, v, "!--");
    }
    if Matches(s, p, CDATA_OPEN, false) {
      HasConcat(s, p, "<", "![CDATA[");
      assert "<" + "![CDATA[" == CDATA_OPEN;
      InsideUnknown(s, p + 1, v, "![CDATA[");
    }
  }

  lemma FindClose(s: CString, p: nat, v: Bytes)
    requires Has(s, p, v + ">") && '>' !in v
    ensures FindByte(s, p, '>') == p + |v| < |s| && s[p..p + |v|] == v
  {
    HasConcat(s, p, v, ">");
    HasAt(s, p + |v|, ">", 0);
    FindByteAt(s, p, v, '>');
  }

  // ----- declarations -----

  /** Text without a quote or an ampersand is read as it stands. */
  lemma {:induction false} KeepRaw(s: CString, p: nat, v: Bytes, i: nat, enc: Encoding, acc: Bytes)
    requires Has(s, p, v) && i <= |v| && Complete(v, enc) && '\"' !in v && '&' !in v
    ensures ReadKeep(s, p + i, "\"", enc, acc) == ReadKeep(s, p + |v|, "\"", enc, acc + v[i..])
    decreases |v| - i
  {
    hide ReadKeep, CharLength, Has;
    if i == |v| {
      assert acc + v[i..] == acc;
    } else {
      assert CompleteAt(v, i, enc);
      var n := CharLength(v[i], enc);
      RawStep(s, p, v, i, enc, acc);
      KeepRaw(s, p, v, i + n, enc, acc + v[i..i + n]);
      assert acc + v[i..i + n] + v[i + n..] == acc + v[i..];
    }
  }

  lemma RawStep(s: CString, p: nat, v: Bytes, i: nat, enc: Encoding, acc: Bytes)
    requires Has(s, p, v) && i < |v| && CompleteAt(v, i, enc) && v[i] != '\"' && v[i] != '&'
    ensures ReadKeep(s, p + i, "\"", enc, acc)
         == ReadKeep(s, p + i + CharLength(v[i], enc), "\"", enc, acc + v[i..i + CharLength(v[i], enc)])
  {
    hide CharAt, CharLength;
    RawChar(s, p, v, i, enc);
    HasMeans(s, p + i, "\"", 0);
  }

  lemma RawChar(s: CString, p: nat, v: Bytes, i: nat, enc: Encoding)
    requires Has(s, p, v) && i < |v| && CompleteAt(v, i, enc) && v[i] != '&'
    ensures p + i < |s| && s[p + i] == v[i]
    ensures var n := CharLength(v[i], enc); CharAt(s, p + i, enc) == Character(v[i..i + n], Pos(p + i + n))
  {
    hide Has;
    HasAt(s, p, v, i);
    var n := CharLength(v[i], enc);
    HasSlice(s, p, v, i, i + n);
    HasIff(s, p + i, v[i..i + n]);
    assert n == 1 ==> v[i..i + n] == [v[i]];
  }

  lemma MatchesAnyCase(s: CString, p: nat, t: CString)
    requires Has(s, p, t) && t != []
    ensures Matches(s, p, t, true)
  {
    HasIff(s, p, t);
    HasIff(Lower(s), p, Lower(t));
  }

  function FieldName(f: Field): CString {
    match f
    case VersionField => VERSION
    case EncodingField => ENCODING
    case StandaloneField => STANDALONE
    case NoField => "?>"
  }

  /** The first letter of what stands in a declaration tells which field it is. */
  lemma FieldFound(s: CString, p: nat, f: Field)
    requires Has(s, p, FieldName(f))
    ensures p < |s| && FieldAt(s, p) == f
  {
    hide Has, Lower;
    HasAt(s, p, FieldName(f), 0);
    if !f.NoField? { MatchesAnyCase(s, p, FieldName(f)); }
    HasMeans(Lower(s), p, Lower(VERSION), 0);
    HasMeans(Lower(s), p, Lower(ENCODING), 0);
    HasMeans(Lower(s), p, Lower(STANDALONE), 0);
    assert ToLower(VERSION[0]) == 'v' && ToLower(ENCODING[0]) == 'e' && ToLower(STANDALONE[0]) == 's';
  }

  lemma RawAttributeReads(s: CString, p: nat, name: Bytes, v: Bytes, cfg: Config, err: Error)
    requires Has(s, p, name + ("=\"" + (v + "\""))) && NameOk(name, cfg.enc) && FieldOk(v, cfg.enc)
    ensures p < |s| && SkipFrom(s, p, cfg.enc) == p
    ensures ParseAttribute(s, p, cfg, err) == AttributeResult(Attribute(name, v), Pos(p + |name| + |v| + 3), err)
  {
    hide NameAt, NameOk, SkipFrom, Has, ContinuesName, StartsName, ReadKeep;
    HasConcat(s, p, name, "=\"" + (v + "\""));
    var e := p + |name|;
    HasConcat(s, e, "=\"", v + "\"");
    HasAt(s, e, "=\"", 0);
    HasAt(s, e, "=\"", 1);
    HasConcat(s, e + 2, v, "\"");
    HasAt(s, e + 2 + |v|, "\"", 0);
    SkipNone(s, e, cfg.enc);
    SkipNone(s, e + 1, cfg.enc);
    NameReads(s, p, name, cfg.enc);
    KeepRaw(s, e + 2, v, 0, cfg.enc, []);
    StopsAt(s, e + 2 + |v|, '\"', cfg.enc, [] + v[0..]);
    assert [] + v[0..] == v;
  }

  /** A space and a printed field set that field, and leave the field's last space. */
  lemma FieldReads(s: CString, p: nat, f: Field, v: Bytes, cfg: Config, err: Error, d: Node)
    requires !f.NoField? && d.Declaration? && FieldOk(v, cfg.enc)
    requires Has(s, p, " " + PrintField(FieldName(f), v))
    ensures var q := p + |PrintField(FieldName(f), v)|;
      && q + 1 <= |s| && Has(s, q, " ")
      && DeclarationLoop(s, p, cfg, err, d)
         == DeclarationLoop(s, q, cfg, err, if v == [] then d else SetField(d, f, v))
  {
    hide ParseAttribute, Has, FieldAt, SkipFrom, DeclarationLoop;
    var name := FieldName(f);
    HasConcat(s, p, " ", PrintField(name, v));
    HasAt(s, p, " ", 0);
    if v != [] {
      var t := name + ("=\"" + (v + "\""));
      assert PrintField(name, v) == t + " ";
      HasConcat(s, p + 1, t, " ");
      HasConcat(s, p + 1, name, "=\"" + (v + "\""));
      assert NameOk(name, cfg.enc) by { FieldNameOk(f, cfg.enc); }
      RawAttributeReads(s, p + 1, name, v, cfg, err);
      HasAt(s, p + 1 + |t|, " ", 0);
      FieldFound(s, p + 1, f);
      DeclarationStep(s, p, cfg, err, d);
    }
  }

  lemma FieldNameOk(f: Field, enc: Encoding)
    requires !f.NoField?
    ensures NameOk(FieldName(f), enc)
  {
  }

  lemma DeclarationStep(s: CString, p: nat, cfg: Config, err: Error, d: Node)
    requires d.Declaration? && Has(s, p, " ") && p + 1 < |s| && !FieldAt(s, p + 1).NoField?
    requires SkipFrom(s, p + 1, cfg.enc) == p + 1
    requires var a := ParseAttribute(s, p + 1, cfg, err); a.p.Pos? && a.p.i <= |s| && a.err == err
    ensures var a := ParseAttribute(s, p + 1, cfg, err);
      DeclarationLoop(s, p, cfg, err, d)
      == DeclarationLoop(s, a.p.i, cfg, err, SetField(d, FieldAt(s, p + 1), a.attribute.value))
  {
    hide ParseAttribute, SetField, FieldAt, SkipFrom;
    HasAt(s, p, " ", 0);
    SkipSpace(s, p, cfg.enc);
  }

  lemma DeclarationEnds(s: CString, p: nat, cfg: Config, err: Error, d: Node)
    requires d.Declaration? && Has(s, p, " ") && Has(s, p + 1, "?>")
    ensures DeclarationLoop(s, p, cfg, err, d) == NodeResult(d, Pos(p + 3), err)
  {
    hide FieldAt, SkipFrom, JunkEnd, Has;
    HasAt(s, p, " ", 0);
    HasAt(s, p + 1, "?>", 0);
    HasAt(s, p + 1, "?>", 1);
    SkipSpace(s, p, cfg.enc);
    SkipNone(s, p + 1, cfg.enc);
    FieldFound(s, p + 1, NoField);
    JunkBeforeClose(s, p + 1);
  }

  lemma JunkBeforeClose(s: CString, p: nat)
    requires p + 1 < |s| && s[p] == '?' && s[p + 1] == '>'
    ensures JunkEnd(s, p) == p + 1
  {
  }

  lemma FieldIsCString(v: Bytes, enc: Encoding)
    requires FieldOk(v, enc)
    ensures CStr(v) == v
  {
  }

  lemma DeclarationStart(s: CString, p: nat, cfg: Config, err: Error)
    requires Has(s, p, XML_OPEN)
    ensures p + 5 <= |s| && s[p] == '<' && !Matches(s, p, "</", false)
    ensures ParseNode(s, p, cfg, err) == DeclarationLoop(s, p + 5, cfg, err, Declaration([], [], []))
  {
    hide Has, DeclarationLoop, ParseText, ParseComment, ParseUnknown, ParseElement;
    HasAt(s, p, XML_OPEN, 0);
    HasAt(s, p, XML_OPEN, 1);
    HasIff(s, p, XML_OPEN);
    MatchesAnyCase(s, p, XML_OPEN);
    SecondByte(s, p);
  }

  lemma DeclarationReads(s: CString, p: nat, d: Node, cfg: Config, err: Error)
    requires d.Declaration? && NodeOk(d, cfg)
    requires Has(s, p, XML_OPEN + " " + PrintField(VERSION, d.version) + PrintField(ENCODING, d.encoding)
                       + PrintField(STANDALONE, d.standalone) + "?>")
    ensures p < |s| && s[p] == '<' && !Matches(s, p, "</", false)
    ensures ParseNode(s, p, cfg, err)
         == NodeResult(d, Pos(p + 8 + |PrintField(VERSION, d.version)| + |PrintField(ENCODING, d.encoding)|
                              + |PrintField(STANDALONE, d.standalone)|), err)
  {
    hide Has, PrintField, DeclarationLoop, FieldOk, ParseNode, Matches, CStr;
    FieldIsCString(d.version, cfg.enc);
    FieldIsCString(d.encoding, cfg.enc);
    FieldIsCString(d.standalone, cfg.enc);
    var f1, f2 := PrintField(VERSION, d.version), PrintField(ENCODING, d.encoding);
    var f3 := PrintField(STANDALONE, d.standalone);
    HasConcat(s, p, XML_OPEN + " " + f1 + f2 + f3, "?>");
    HasConcat(s, p, XML_OPEN + " " + f1 + f2, f3);
    HasConcat(s, p, XML_OPEN + " " + f1, f2);
    HasConcat(s, p, XML_OPEN + " ", f1);
    HasConcat(s, p, XML_OPEN, " ");
    DeclarationStart(s, p, cfg, err);
    var q, d0 := p + 5, Declaration([], [], []);
    HasAt(s, q, " ", 0);
    HasConcat(s, q, " ", f1);
    FieldReads(s, q, VersionField, d.version, cfg, err, d0);
    HasConcat(s, q + |f1|, " ", f2);
    FieldReads(s, q + |f1|, EncodingField, d.encoding, cfg, err, d0.(version := d.version));
    HasConcat(s, q + |f1| + |f2|, " ", f3);
    FieldReads(s, q + |f1| + |f2|, StandaloneField, d.standalone, cfg, err, d.(standalone := []));
    DeclarationEnds(s, q + |f1| + |f2| + |f3|, cfg, err, d);
  }

  // ----- text -----

  lemma CondensedStart(v: Bytes)
    requires Condense(v) == v && v != []
    ensures FirstNonSpace(v, 0) == 0
  {
    WordsAreWords(v, 0);
    var ws := Words(v, 0);
    assert ws != [] && IsWord(ws[0]) && v[0] == ws[0][0];
    assert ws[0][0] in ws[0];
  }

  lemma NotAllSpaces(v: Bytes, i: nat)
    requires i <= |v| && !IsBlank(v[i..])
    ensures FirstNonSpace(v, i) < |v|
    decreases |v| - i
  {
    if i < |v| && v[i] == ' ' {
      var k :| 0 <= k < |v[i..]| && !IsSpace(v[i..][k]);
      assert k > 0 && v[i + 1..][k - 1] == v[i..][k];
      NotAllSpaces(v, i + 1);
    }
  }

  /** White-space skipping does not jump over a printed text, and stops inside it. */
  lemma SkipIntoText(s: CString, p: nat, v: Bytes, cfg: Config)
    requires Has(s, p, EncodeFrom(v, 0)) && PlainTextOk(v, cfg)
    ensures p < |s| && s[p] != '<'
    ensures var q := SkipFrom(s, p, cfg.enc);
      q < |s| && s[q] != '<' && (cfg.condense ==> q == p)
  {
    hide EncodeFrom, Complete, HasHexRef, Condense, SkipFrom, Has, StartsZeroWidth, SkippedTo;
    assert v[0..] == v;
    NotAllSpaces(v, 0);
    CompleteRefs(v, 0, cfg.enc);
    FirstPiece(s, p, v, 0, cfg.enc);
    if cfg.condense {
      CondensedStart(v);
      NoZeroWidth(v, cfg.enc);
      SkipStops(s, p, v, 0, cfg.enc);
    } else {
      SkipPrinted(s, p, v, 0, cfg.enc);
    }
  }

  lemma NoZeroWidth(v: Bytes, enc: Encoding)
    requires !StartsZeroWidth(v, enc) && FirstNonSpace(v, 0) == 0
    ensures enc.Utf8? ==> !IsZeroWidth(v, 0)
  {
  }

  lemma {:induction false} SkipPrinted(s: CString, p: nat, v: Bytes, i: nat, enc: Encoding)
    requires i <= |v| && Has(s, p, EncodeFrom(v, i)) && ValueOk(v, enc) && SkippedTo(v, i, enc) < |v|
    ensures SkipFrom(s, p, enc) < |s| && s[SkipFrom(s, p, enc)] != '<'
    decreases |v| - i
  {
    hide EncodeFrom, Complete, HasHexRef, SkipFrom, Has, IsZeroWidth;
    CompleteRefs(v, i, enc);
    if v[i] == ' ' {
      SpaceEncodes(v, i);
      HasConcat(s, p, " ", EncodeFrom(v, i + 1));
      HasAt(s, p, " ", 0);
      SkipSpace(s, p, enc);
      SkipPrinted(s, p + 1, v, i + 1, enc);
    } else if enc.Utf8? && IsZeroWidth(v, i) {
      ZeroWidthPrinted(s, p, v, i);
      SkipPrinted(s, p + 3, v, i + 3, enc);
    } else {
      SkipStops(s, p, v, i, enc);
      FirstPiece(s, p, v, i, enc);
    }
  }

  lemma ZeroWidthPrinted(s: CString, p: nat, v: Bytes, i: nat)
    requires i < |v| && Has(s, p, EncodeFrom(v, i)) && CompleteAt(v, i, Utf8) && !HexRefAt(v, i) && IsZeroWidth(v, i)
    ensures Has(s, p + 3, EncodeFrom(v, i + 3)) && SkipFrom(s, p, Utf8) == SkipFrom(s, p + 3, Utf8) && p + 3 <= |s|
  {
    hide EncodeFrom, Has;
    EncodeSplits(v, i, Utf8);
    var t := v[i..i + 3];
    HasConcat(s, p, t, EncodeFrom(v, i + 3));
    HasAt(s, p, t, 0);
    HasAt(s, p, t, 1);
    HasAt(s, p, t, 2);
  }

  lemma FirstPiece(s: CString, p: nat, v: Bytes, k: nat, enc: Encoding)
    requires k < |v| && Has(s, p, EncodeFrom(v, k)) && CompleteAt(v, k, enc) && !HexRefAt(v, k)
    ensures p < |s| && s[p] != '<'
  {
    hide EncodeFrom, Has;
    EncodeSplits(v, k, enc);
    HasConcat(s, p, Piece(v, k, enc), EncodeFrom(v, k + CharLength(v[k], enc)));
    PieceReads(s, p, v, k, enc);
  }

  /** A printed text, followed by white space and a tag, is parsed back. */
  lemma TextReads(s: CString, p: nat, v: Bytes, w: Bytes, cfg: Config, err: Error)
    requires Has(s, p, EncodeFrom(v, 0) + (w + "<")) && PlainTextOk(v, cfg)
    requires if cfg.condense then IsBlank(w) else w == []
    ensures p < |s| && s[p] != '<'
    ensures ParseText(s, p, false, cfg, err) == NodeResult(Text(v, false), Pos(p + |EncodeFrom(v, 0)| + |w|), err)
  {
    hide EncodeFrom, Has, Condense, Complete, HasHexRef, IsBlank;
    HasConcat(s, p, EncodeFrom(v, 0), w + "<");
    SkipIntoText(s, p, v, cfg);
    HasMeans(s, p, CDATA_OPEN, 0);
    if cfg.condense {
      CondensedRoundTrip(s, p, v, w, cfg.enc);
    } else {
      assert w + "<" == "<";
      KeepRoundTrip(s, p, v, '<', cfg.enc, false);
      KeepEither(s, p, cfg.enc);
    }
  }

  lemma KeepEither(s: CString, p: nat, enc: Encoding)
    requires p <= |s|
    ensures TextAt(s, p, true, "<", enc, false) == TextAt(s, p, false, "<", enc, false)
  {
  }

  // ----- children -----

  predicate Between(s: CString, p: nat, q: nat, cfg: Config) {
    BlankTo(s, p, q) && (!cfg.condense && p < q ==> q < |s| && s[q] == '<')
  }

  lemma BlankIsBetween(s: CString, p: nat, w: Bytes, cfg: Config)
    requires Has(s, p, w) && IsBlank(w) && (cfg.condense || w == [] || (p + |w| < |s| && s[p + |w|] == '<'))
    ensures Between(s, p, p + |w|, cfg)
  {
  }

  lemma TagIsNotBlank(s: CString, p: nat, q: nat, cfg: Config)
    requires Between(s, p, q, cfg) && q < |s| && s[q] == '<'
    ensures SkipFrom(s, p, cfg.enc) == q
  {
    SkipTo(s, p, q, cfg.enc);
  }

  lemma NodeChild(s: CString, p: nat, q: nat, n: Node, x: nat, acc: seq<Node>, cfg: Config, err: Error)
    requires Between(s, p, q, cfg) && q < |s| && s[q] == '<' && !Matches(s, q, "</", false)
    requires ParseNode(s, q, cfg, err) == NodeResult(n, Pos(x), err)
    ensures p < x <= |s| && ReadValue(s, p, acc, cfg, err) == ReadValue(s, x, acc + [n], cfg, err)
  {
    hide ParseNode, SkipFrom, Matches;
    TagIsNotBlank(s, p, q, cfg);
  }

  lemma TextChild(s: CString, p: nat, q: nat, v: Bytes, w: Bytes, acc: seq<Node>, cfg: Config, err: Error)
    requires Between(s, p, q, cfg) && Has(s, q, EncodeFrom(v, 0) + (w + "<")) && PlainTextOk(v, cfg)
    requires if cfg.condense then IsBlank(w) else w == []
    ensures var x := q + |EncodeFrom(v, 0)| + |w|;
      x <= |s| && ReadValue(s, p, acc, cfg, err) == ReadValue(s, x, acc + [Text(v, false)], cfg, err)
  {
    hide EncodeFrom, Has, SkipFrom, ParseNode, ParseText, Complete, HasHexRef, Condense;
    HasConcat(s, q, EncodeFrom(v, 0), w + "<");
    TextReads(s, q, v, w, cfg, err);
    SkipIntoText(s, q, v, cfg);
    SkipBetween(s, p, q, cfg.enc);
  }

  lemma SkipBetween(s: CString, p: nat, q: nat, enc: Encoding)
    requires BlankTo(s, p, q)
    ensures SkipFrom(s, p, enc) == SkipFrom(s, q, enc)
  {
    SkipBlank(s, p, s[p..q], enc);
  }

  lemma EndChild(s: CString, p: nat, q: nat, name: Bytes, acc: seq<Node>, cfg: Config, err: Error)
    requires Between(s, p, q, cfg) && Has(s, q, EndTag(name))
    ensures ReadValue(s, p, acc, cfg, err) == ChildrenResult(acc, Pos(q), err)
  {
    hide SkipFrom, ParseNode, ParseText;
    EndTagStart(s, q, name);
    TagIsNotBlank(s, p, q, cfg);
  }

  lemma EndTagStart(s: CString, q: nat, name: Bytes)
    requires Has(s, q, EndTag(name))
    ensures q < |s| && s[q] == '<' && Matches(s, q, "</", false)
  {
    HasAt(s, q, EndTag(name), 0);
    assert EndTag(name) == "</" + (name + ">");
    HasConcat(s, q, "</", name + ">");
  }

  /** The white space printed after the `i`th child. */
  function Gap(nodes: seq<Node>, i: nat, depth: nat, st: Style): Bytes {
    st.lineBreak + Repeat(st.indent, if i + 1 < |nodes| then depth + 1 else depth)
  }

  /** The printed children from the `i`th on, without the white space before it, up to and
      including the end tag. */
  function Tail(nodes: seq<Node>, i: nat, depth: nat, st: Style, name: Bytes): Bytes
    requires i <= |nodes|
    decreases |nodes| - i
  {
    if i == |nodes| then EndTag(name)
    else Core(nodes[i], depth + 1, st) + (Gap(nodes, i, depth, st) + Tail(nodes, i + 1, depth, st, name))
  }

  lemma {:induction false} PrintFromIsTail(nodes: seq<Node>, i: nat, depth: nat, st: Style, name: Bytes)
    requires i <= |nodes|
    ensures PrintFrom(nodes, i, depth + 1, st) + (Repeat(st.indent, depth) + EndTag(name))
         == Repeat(st.indent, if i < |nodes| then depth + 1 else depth) + Tail(nodes, i, depth, st, name)
    decreases |nodes| - i
  {
    hide Core, Repeat, EndTag;
    if i < |nodes| {
      PrintFromIsTail(nodes, i + 1, depth, st, name);
      var r, c, lb := Repeat(st.indent, depth + 1), Core(nodes[i], depth + 1, st), st.lineBreak;
      var rest := PrintFrom(nodes, i + 1, depth + 1, st);
      var end := Repeat(st.indent, depth) + EndTag(name);
      var next := Repeat(st.indent, if i + 1 < |nodes| then depth + 1 else depth);
      var tail := Tail(nodes, i + 1, depth, st, name);
      assert PrintFrom(nodes, i, depth + 1, st) == r + c + lb + rest;
      Regroup(r, c, lb, rest, end, next, tail);
    } else {
      assert [] + (Repeat(st.indent, depth) + EndTag(name)) == Repeat(st.indent, depth) + EndTag(name);
    }
  }

  lemma Regroup(r: Bytes, c: Bytes, lb: Bytes, rest: Bytes, end: Bytes, next: Bytes, tail: Bytes)
    requires rest + end == next + tail
    ensures r + c + lb + rest + end == r + (c + (lb + next + tail))
  {
    assert r + c + lb + rest + end == r + (c + (lb + (rest + end)));
    assert lb + (next + tail) == lb + next + tail;
  }

  lemma {:induction false} RepeatBlank(t: Bytes, k: nat)
    ensures IsBlank(t) ==> IsBlank(Repeat(t, k))
    ensures t == [] ==> Repeat(t, k) == []
  {
    if k > 0 { RepeatBlank(t, k - 1); }
  }

  lemma GapBlank(nodes: seq<Node>, i: nat, depth: nat, st: Style, cfg: Config)
    requires StyleOk(st)
    ensures IsBlank(Gap(nodes, i, depth, st)) && (cfg.condense || Loose(st, cfg) || Gap(nodes, i, depth, st) == [])
  {
    RepeatBlank(st.indent, if i + 1 < |nodes| then depth + 1 else depth);
    hide Repeat;
  }

  lemma TailStart(nodes: seq<Node>, i: nat, depth: nat, st: Style, name: Bytes)
    requires i <= |nodes| && (i < |nodes| ==> !IsPlainText(nodes[i]))
    ensures Tail(nodes, i, depth, st, name) != [] && Tail(nodes, i, depth, st, name)[0] == '<'
  {
    if i < |nodes| { CoreStart(nodes[i], depth + 1, st); }
  }

  lemma CoreStart(n: Node, depth: nat, st: Style)
    requires !IsPlainText(n)
    ensures Core(n, depth, st) != [] && Core(n, depth, st)[0] == '<'
  {
    hide PrintAttributes, PrintFrom, CStr, PrintField, Repeat;
  }

  /** Reading the printed children from the `i`th on gives these children and stops at the
      end tag. */
  lemma {:induction false} ChildrenRead(s: CString, p: nat, q: nat, nodes: seq<Node>, i: nat, depth: nat, st: Style,
                                        name: Bytes, cfg: Config, err: Error) returns (x: nat)
    requires i <= |nodes| && Between(s, p, q, cfg) && Has(s, q, Tail(nodes, i, depth, st, name)) && StyleOk(st)
    requires NotAdjacent(nodes)
    requires forall k | 0 <= k < |nodes| :: NodeOk(nodes[k], cfg) && LaidOut(nodes[k], Loose(st, cfg))
    requires Loose(st, cfg) ==> NoPlainText(nodes)
    ensures x + |EndTag(name)| == q + |Tail(nodes, i, depth, st, name)| && Has(s, x, EndTag(name))
    ensures ReadValue(s, p, nodes[..i], cfg, err) == ChildrenResult(nodes, Pos(x), err)
    decreases nodes, |nodes| - i, 0
  {
    hide Has, ReadValue, Core, Gap, EndTag, NodeOk, StyleOk, Between, ParseNode, Matches, LaidOut, Loose, IsBlank;
    if i == |nodes| {
      assert nodes[..i] == nodes;
      x := q;
      EndChild(s, p, q, name, nodes, cfg, err);
    } else {
      var c, gap, tail := Core(nodes[i], depth + 1, st), Gap(nodes, i, depth, st), Tail(nodes, i + 1, depth, st, name);
      HasConcat(s, q, c, gap + tail);
      HasConcat(s, q + |c|, gap, tail);
      GapBlank(nodes, i, depth, st, cfg);
      assert nodes[..i] + [nodes[i]] == nodes[..i + 1];
      if IsPlainText(nodes[i]) {
        PlainChild(s, p, q, nodes, i, depth, st, name, cfg, err);
        NoGap(s, q + |c| + |gap|, cfg);
        x := ChildrenRead(s, q + |c| + |gap|, q + |c| + |gap|, nodes, i + 1, depth, st, name, cfg, err);
      } else {
        NodeReads(s, q, nodes[i], depth + 1, st, cfg, err);
        NodeChild(s, p, q, nodes[i], q + |c|, nodes[..i], cfg, err);
        TailAfterBlank(s, q + |c| + |gap|, nodes, i + 1, depth, st, name, cfg);
        BlankIsBetween(s, q + |c|, gap, cfg);
        x := ChildrenRead(s, q + |c|, q + |c| + |gap|, nodes, i + 1, depth, st, name, cfg, err);
      }
    }
  }

  /** Where the printer adds white space that the parser keeps, a tag follows. */
  lemma TailAfterBlank(s: CString, q: nat, nodes: seq<Node>, i: nat, depth: nat, st: Style, name: Bytes, cfg: Config)
    requires i <= |nodes| && Has(s, q, Tail(nodes, i, depth, st, name)) && (Loose(st, cfg) ==> NoPlainText(nodes))
    ensures Loose(st, cfg) ==> q < |s| && s[q] == '<'
  {
    hide Has, Tail, Loose;
    if Loose(st, cfg) {
      TailStart(nodes, i, depth, st, name);
      HasAt(s, q, Tail(nodes, i, depth, st, name), 0);
    }
  }

  lemma NoGap(s: CString, q: nat, cfg: Config)
    requires q <= |s|
    ensures Between(s, q, q, cfg)
  {
  }

  lemma CutAfterTag(e: Bytes, gap: Bytes, tail: Bytes)
    requires tail != [] && tail[0] == '<'
    ensures e + (gap + tail) == e + (gap + "<") + tail[1..]
  {
    assert tail == "<" + tail[1..];
  }

  lemma PlainChild(s: CString, p: nat, q: nat, nodes: seq<Node>, i: nat, depth: nat, st: Style, name: Bytes,
                   cfg: Config, err: Error)
    requires i < |nodes| && IsPlainText(nodes[i]) && Between(s, p, q, cfg) && Has(s, q, Tail(nodes, i, depth, st, name))
    requires NotAdjacent(nodes) && NodeOk(nodes[i], cfg) && StyleOk(st) && !Loose(st, cfg)
    ensures var x := q + |Core(nodes[i], depth + 1, st)| + |Gap(nodes, i, depth, st)|;
      x <= |s| && ReadValue(s, p, nodes[..i], cfg, err) == ReadValue(s, x, nodes[..i] + [nodes[i]], cfg, err)
  {
    hide Has, ReadValue, EncodeFrom, PlainTextOk, Core, Gap, Tail, NotAdjacent, NodeOk, Between, IsBlank;
    PlainNode(nodes[i], depth + 1, st, cfg);
    TailStep(nodes, i, depth, st, name);
    NextIsTag(nodes, i, depth, st, name);
    GapBlank(nodes, i, depth, st, cfg);
    var v := nodes[i].value;
    var e, gap, tail := EncodeFrom(v, 0), Gap(nodes, i, depth, st), Tail(nodes, i + 1, depth, st, name);
    CutAfterTag(e, gap, tail);
    HasConcat(s, q, e + (gap + "<"), tail[1..]);
    TextChild(s, p, q, v, gap, nodes[..i], cfg, err);
  }

  lemma PlainNode(n: Node, depth: nat, st: Style, cfg: Config)
    requires IsPlainText(n) && NodeOk(n, cfg)
    ensures PlainTextOk(n.value, cfg) && Core(n, depth, st) == EncodeFrom(n.value, 0) && n == Text(n.value, false)
  {
  }

  lemma TailStep(nodes: seq<Node>, i: nat, depth: nat, st: Style, name: Bytes)
    requires i < |nodes|
    ensures Tail(nodes, i, depth, st, name)
         == Core(nodes[i], depth + 1, st) + (Gap(nodes, i, depth, st) + Tail(nodes, i + 1, depth, st, name))
  {
  }

  lemma NextIsTag(nodes: seq<Node>, i: nat, depth: nat, st: Style, name: Bytes)
    requires i < |nodes| && IsPlainText(nodes[i]) && NotAdjacent(nodes)
    ensures Tail(nodes, i + 1, depth, st, name) != [] && Tail(nodes, i + 1, depth, st, name)[0] == '<'
  {
    hide Tail;
    assert i + 1 < |nodes| ==> !IsPlainText(nodes[i + 1]);
    TailStart(nodes, i + 1, depth, st, name);
  }

  // ----- nodes -----

  /** The start of a printed element up to its attributes. */
  lemma ElementStart(s: CString, p: nat, name: Bytes, attributes: seq<Attribute>, rest: Bytes, cfg: Config, err: Error)
    requires NameOk(name, cfg.enc) && AttributesOk(attributes, cfg.enc)
    requires rest != [] && (rest[0] == ' ' || rest[0] == '>')
    requires Has(s, p, "<" + (name + (PrintAttributes(attributes, 0) + rest)))
    ensures var q := p + 1 + |name| + |PrintAttributes(attributes, 0)|;
      && p < |s| && s[p] == '<' && !Matches(s, p, "</", false) && q <= |s| && Has(s, q, rest)
      && ParseNode(s, p, cfg, err) == AttributeLoop(s, q, name, attributes, cfg, err)
  {
    hide Has, AttributeLoop, NameAt, SkipFrom, NameOk, AttributesOk, Matches, StartsName, ContinuesName,
         PrintAttributes, ParseText, ParseComment, ParseUnknown, ParseDeclaration;
    var t := PrintAttributes(attributes, 0);
    HasConcat(s, p, "<", name + (t + rest));
    HasConcat(s, p + 1, name, t + rest);
    HasConcat(s, p + 1 + |name|, t, rest);
    HasAt(s, p, "<", 0);
    AfterName(s, p + 1 + |name|, attributes, rest);
    NameReads(s, p + 1, name, cfg.enc);
    SecondByte(s, p);
    assert attributes[..0] == [];
    HasAt(s, p + 1 + |name| + |t|, rest, 0);
    AttributesRead(s, p + 1 + |name|, name, attributes, 0, cfg, err);
  }

  lemma AfterName(s: CString, q: nat, attributes: seq<Attribute>, rest: Bytes)
    requires rest != [] && (rest[0] == ' ' || rest[0] == '>')
    requires Has(s, q, PrintAttributes(attributes, 0) + rest)
    ensures q < |s| && !ContinuesName(Ch(s, q))
  {
    hide PrintAttribute;
    HasAt(s, q, PrintAttributes(attributes, 0) + rest, 0);
  }

  lemma ElementClosed(s: CString, q: nat, name: Bytes, attributes: seq<Attribute>, cfg: Config, err: Error)
    requires Has(s, q, " />")
    ensures AttributeLoop(s, q, name, attributes, cfg, err)
         == NodeResult(Element(name, attributes, []), Pos(q + 3), err)
  {
    HasIff(s, q, " />");
    assert s[q + 0] == " />"[0] && s[q + 1] == " />"[1] && s[q + 2] == " />"[2];
    SkipSpace(s, q, cfg.enc);
    SkipNone(s, q + 1, cfg.enc);
    hide SkipFrom;
  }

  lemma ElementOpened(s: CString, q: nat, name: Bytes, attributes: seq<Attribute>, cfg: Config, err: Error)
    requires Has(s, q, ">")
    ensures q < |s|
    ensures AttributeLoop(s, q, name, attributes, cfg, err) == ParseContent(s, q + 1, name, attributes, cfg, err)
  {
    HasAt(s, q, ">", 0);
    SkipNone(s, q, cfg.enc);
    hide SkipFrom, ParseContent;
  }

  lemma ContentReads(s: CString, p: nat, name: Bytes, attributes: seq<Attribute>, children: seq<Node>, x: nat,
                     cfg: Config, err: Error)
    requires p <= |s| && ReadValue(s, p, [], cfg, err) == ChildrenResult(children, Pos(x), err)
    requires Has(s, x, EndTag(name))
    ensures ParseContent(s, p, name, attributes, cfg, err)
         == NodeResult(Element(name, attributes, children), Pos(x + |EndTag(name)|), err)
  {
    EndTagStart(s, x, name);
    hide ReadValue;
  }

  lemma NameHasNoNul(name: Bytes, enc: Encoding)
    requires NameOk(name, enc)
    ensures '\0' !in name
  {
  }

  /** The printed form of an element, cut where the parser cuts it. */
  lemma ElementCore(name: Bytes, attributes: seq<Attribute>, children: seq<Node>, depth: nat, st: Style)
    requires '\0' !in name
    ensures var c := Core(Element(name, attributes, children), depth, st);
      && (children == [] ==> c == "<" + (name + (PrintAttributes(attributes, 0) + " />")))
      && (IsSimple(children) ==>
            c == "<" + (name + (PrintAttributes(attributes, 0)
                 + (">" + (EncodeFrom(children[0].value, 0) + EndTag(name))))))
      && (children != [] && !IsSimple(children) ==>
            c == "<" + (name + (PrintAttributes(attributes, 0)
                 + (">" + (st.lineBreak + Repeat(st.indent, depth + 1) + Tail(children, 0, depth, st, name))))))
  {
    hide PrintAttributes, PrintFrom, Repeat, EndTag, EncodeFrom, Tail, Core;
    PrintFromIsTail(children, 0, depth, st, name);
    CoreOfElement(name, attributes, children, depth, st);
    var t := PrintAttributes(attributes, 0);
    var start := "<" + name + t;
    if children == [] {
      GroupsRight("<", name, t, " />");
    } else if IsSimple(children) {
      var e, end := EncodeFrom(children[0].value, 0), EndTag(name);
      GroupsRight(start, ">", e, end);
      GroupsRight("<", name, t, ">" + (e + end));
    } else {
      var lb, body := st.lineBreak, PrintFrom(children, 0, depth + 1, st);
      var r, end := Repeat(st.indent, depth), EndTag(name);
      GroupsRight(start + ">" + lb, body, r, end);
      GroupsRight(start, ">", lb, body + (r + end));
      GroupsRight("<", name, t, ">" + (lb + (body + (r + end))));
      Associates(lb, Repeat(st.indent, depth + 1), Tail(children, 0, depth, st, name));
    }
  }

  lemma GroupsRight(a: Bytes, b: Bytes, c: Bytes, d: Bytes)
    ensures a + b + c + d == a + (b + (c + d))
  {
  }

  lemma CoreOfElement(name: Bytes, attributes: seq<Attribute>, children: seq<Node>, depth: nat, st: Style)
    requires '\0' !in name
    ensures var start := "<" + name + PrintAttributes(attributes, 0);
      Core(Element(name, attributes, children), depth, st)
      == if children == [] then start + " />"
           else if IsSimple(children) then start + ">" + EncodeFrom(children[0].value, 0) + EndTag(name)
           else start + ">" + st.lineBreak + PrintFrom(children, 0, depth + 1, st) + Repeat(st.indent, depth)
                + EndTag(name)
  {
    hide PrintAttributes, PrintFrom, Repeat, EndTag, EncodeFrom;
    assert CStr(name) == name;
    if IsSimple(children) { assert Core(children[0], depth + 1, st) == EncodeFrom(children[0].value, 0); }
  }

  /** Every printable node other than plain text is parsed back from its printed form. */
  lemma {:induction false} NodeReads(s: CString, p: nat, n: Node, depth: nat, st: Style, cfg: Config, err: Error)
    requires NodeOk(n, cfg) && !IsPlainText(n) && StyleOk(st) && LaidOut(n, Loose(st, cfg))
    requires Has(s, p, Core(n, depth, st))
    ensures p < |s| && s[p] == '<' && !Matches(s, p, "</", false)
    ensures ParseNode(s, p, cfg, err) == NodeResult(n, Pos(p + |Core(n, depth, st)|), err)
    decreases n, 0, 1
  {
    hide ParseNode, Matches, Has, StyleOk, LaidOut, Loose;
    match n
    case Text(v, _) => CDataReads(s, p, v, cfg, err);
    case Comment(v) => CommentReads(s, p, v, cfg, err);
    case Unknown(v) => UnknownReads(s, p, v, cfg, err);
    case Declaration(_, _, _) => DeclarationReads(s, p, n, cfg, err);
    case Element(name, attributes, children) => ElementReads(s, p, name, attributes, children, depth, st, cfg, err);
  }

  lemma {:induction false} ElementReads(s: CString, p: nat, name: Bytes, attributes: seq<Attribute>,
                                        children: seq<Node>, depth: nat, st: Style, cfg: Config, err: Error)
    requires NodeOk(Element(name, attributes, children), cfg) && StyleOk(st)
    requires LaidOut(Element(name, attributes, children), Loose(st, cfg))
    requires Has(s, p, Core(Element(name, attributes, children), depth, st))
    ensures p < |s| && s[p] == '<' && !Matches(s, p, "</", false)
    ensures var n := Element(name, attributes, children);
      ParseNode(s, p, cfg, err) == NodeResult(n, Pos(p + |Core(n, depth, st)|), err)
    decreases children, |children|, 2
  {
    hide ParseNode, Matches, Has, StyleOk, Core, PrintAttributes, EncodeFrom, Tail, EndTag, NameOk, AttributesOk,
         ParseContent, AttributeLoop, ReadValue, Repeat, Between, Loose, IsBlank;
    NameHasNoNul(name, cfg.enc);
    ElementCore(name, attributes, children, depth, st);
    var q := p + 1 + |name| + |PrintAttributes(attributes, 0)|;
    if children == [] {
      ElementStart(s, p, name, attributes, " />", cfg, err);
      ElementClosed(s, q, name, attributes, cfg, err);
    } else if IsSimple(children) {
      var e, end := EncodeFrom(children[0].value, 0), EndTag(name);
      ElementStart(s, p, name, attributes, ">" + (e + end), cfg, err);
      HasConcat(s, q, ">", e + end);
      ElementOpened(s, q, name, attributes, cfg, err);
      SimpleContent(s, q + 1, name, children, cfg, err);
      ContentReads(s, q + 1, name, attributes, children, q + 1 + |e|, cfg, err);
    } else {
      var w, tail := st.lineBreak + Repeat(st.indent, depth + 1), Tail(children, 0, depth, st, name);
      ElementStart(s, p, name, attributes, ">" + (w + tail), cfg, err);
      NodesInside(s, q, name, attributes, children, depth, st, cfg, err);
    }
  }

  /** The content of an element that does not consist of plain text only. */
  lemma {:induction false} NodesInside(s: CString, q: nat, name: Bytes, attributes: seq<Attribute>,
                                       children: seq<Node>, depth: nat, st: Style, cfg: Config, err: Error)
    requires NodeOk(Element(name, attributes, children), cfg) && StyleOk(st) && !IsSimple(children)
    requires LaidOut(Element(name, attributes, children), Loose(st, cfg))
    requires Has(s, q, ">" + (st.lineBreak + Repeat(st.indent, depth + 1) + Tail(children, 0, depth, st, name)))
    ensures var body := ">" + (st.lineBreak + Repeat(st.indent, depth + 1) + Tail(children, 0, depth, st, name));
      AttributeLoop(s, q, name, attributes, cfg, err)
      == NodeResult(Element(name, attributes, children), Pos(q + |body|), err)
    decreases children, |children|, 1
  {
    hide Has, StyleOk, Core, Tail, EndTag, NameOk, AttributesOk, ParseContent, AttributeLoop, ReadValue, Repeat,
         Between, Loose, IsBlank;
    var w, tail := st.lineBreak + Repeat(st.indent, depth + 1), Tail(children, 0, depth, st, name);
    HasConcat(s, q, ">", w + tail);
    HasConcat(s, q + 1, w, tail);
    ElementOpened(s, q, name, attributes, cfg, err);
    LeadBlank(depth, st, cfg);
    TailAfterBlank(s, q + 1 + |w|, children, 0, depth, st, name, cfg);
    BlankIsBetween(s, q + 1, w, cfg);
    var x := ChildrenRead(s, q + 1, q + 1 + |w|, children, 0, depth, st, name, cfg, err);
    assert children[..0] == [];
    ContentReads(s, q + 1, name, attributes, children, x, cfg, err);
  }

  lemma LeadBlank(depth: nat, st: Style, cfg: Config)
    requires StyleOk(st)
    ensures var w := st.lineBreak + Repeat(st.indent, depth + 1);
      IsBlank(w) && (cfg.condense || Loose(st, cfg) || w == [])
  {
    RepeatBlank(st.indent, depth + 1);
    hide Repeat;
  }

  /** An element with plain text only. */
  lemma SimpleContent(s: CString, p: nat, name: Bytes, children: seq<Node>, cfg: Config, err: Error)
    requires IsSimple(children) && NodeOk(children[0], cfg)
    requires Has(s, p, EncodeFrom(children[0].value, 0) + EndTag(name))
    ensures var x := p + |EncodeFrom(children[0].value, 0)|;
      Has(s, x, EndTag(name)) && ReadValue(s, p, [], cfg, err) == ChildrenResult(children, Pos(x), err)
  {
    hide Has, ReadValue, EncodeFrom, PlainTextOk, Between;
    var v := children[0].value;
    assert PlainTextOk(v, cfg);
    var e, end := EncodeFrom(v, 0), EndTag(name);
    HasConcat(s, p, e, end);
    assert e + end == e + ([] + "<") + end[1..];
    HasConcat(s, p, e + ([] + "<"), end[1..]);
    HasAt(s, p + |e|, end, 0);
    NoGap(s, p, cfg);
    TextChild(s, p, p, v, [], [], cfg, err);
    NoGap(s, p + |e|, cfg);
    assert [] + [Text(v, false)] == children;
    EndChild(s, p + |e|, p + |e|, name, children, cfg, err);
  }

  // ----- documents -----

  /** Top-level nodes that are read back. Each is judged in the encoding in force where it
      stands, which a declaration may have settled. */
  predicate DocumentOk(nodes: seq<Node>, i: nat, cfg: Config)
    requires i <= |nodes|
    decreases |nodes| - i
  {
    i == |nodes|
    || (!IsPlainText(nodes[i]) && NodeOk(nodes[i], cfg)
        && DocumentOk(nodes, i + 1, cfg.(enc := EncodingAfter(cfg.enc, nodes[i]))))
  }

  lemma PrintTopLevel(nodes: seq<Node>, i: nat, st: Style)
    requires i < |nodes|
    ensures PrintFrom(nodes, i, 0, st) == Core(nodes[i], 0, st) + (st.lineBreak + PrintFrom(nodes, i + 1, 0, st))
  {
    hide Core;
    assert Repeat(st.indent, 0) == [];
    Associates(Core(nodes[i], 0, st), st.lineBreak, PrintFrom(nodes, i + 1, 0, st));
  }

  /** One round of the document's loop. */
  lemma DocumentStep(s: CString, p: nat, n: Node, x: nat, acc: seq<Node>, cfg: Config, err: Error)
    requires p < |s| && s[p] == '<' && ParseNode(s, p, cfg, err) == NodeResult(n, Pos(x), err)
    ensures p < x <= |s| && DocumentLoop(s, p, acc, cfg, err) ==
      var cfg' := cfg.(enc := EncodingAfter(cfg.enc, n));
      if x == |s| then DocumentEnd(acc + [n], Null, err)
      else DocumentLoop(s, SkipFrom(s, x, cfg'.enc), acc + [n], cfg', err)
  {
    hide ParseNode, SkipFrom, EncodingAfter;
  }

  lemma {:induction false} TopLevelReads(s: CString, p: nat, nodes: seq<Node>, i: nat, st: Style, cfg: Config)
    requires i < |nodes| && Has(s, p, PrintFrom(nodes, i, 0, st)) && p + |PrintFrom(nodes, i, 0, st)| == |s|
    requires DocumentOk(nodes, i, cfg) && StyleOk(st)
    requires forall k | i <= k < |nodes| :: LaidOut(nodes[k], Loose(st, cfg))
    ensures p < |s| && s[p] == '<'
    ensures DocumentLoop(s, p, nodes[..i], cfg, NoError)
         == DocumentResult(nodes, if st.lineBreak == [] then Null else Pos(|s|), NoError)
    decreases |nodes| - i
  {
    hide Core, PrintFrom, Has, DocumentLoop, ParseNode, NodeOk, Matches, EncodingAfter, SkipFrom, LaidOut;
    var c, rest := Core(nodes[i], 0, st), PrintFrom(nodes, i + 1, 0, st);
    PrintTopLevel(nodes, i, st);
    HasConcat(s, p, c, st.lineBreak + rest);
    HasConcat(s, p + |c|, st.lineBreak, rest);
    NodeReads(s, p, nodes[i], 0, st, cfg, NoError);
    DocumentStep(s, p, nodes[i], p + |c|, nodes[..i], cfg, NoError);
    var cfg' := cfg.(enc := EncodingAfter(cfg.enc, nodes[i]));
    assert nodes[..i] + [nodes[i]] == nodes[..i + 1];
    BreakBlank(st, cfg);
    SkipBlank(s, p + |c|, st.lineBreak, cfg'.enc);
    if i + 1 < |nodes| {
      TopLevelReads(s, p + |c| + |st.lineBreak|, nodes, i + 1, st, cfg');
      SkipNone(s, p + |c| + |st.lineBreak|, cfg'.enc);
    } else {
      assert nodes[..i + 1] == nodes;
      AtEnd(s, nodes, i + 1, st, cfg');
    }
  }

  lemma BreakBlank(st: Style, cfg: Config)
    requires StyleOk(st)
    ensures IsBlank(st.lineBreak)
  {
  }

  lemma AtEnd(s: CString, nodes: seq<Node>, i: nat, st: Style, cfg: Config)
    requires i == |nodes| && nodes != []
    ensures PrintFrom(nodes, i, 0, st) == []
    ensures SkipFrom(s, |s|, cfg.enc) == |s|
    ensures DocumentLoop(s, |s|, nodes, cfg, NoError) == DocumentResult(nodes, Pos(|s|), NoError)
    ensures DocumentEnd(nodes, Null, NoError) == DocumentResult(nodes, Null, NoError)
  {
  }

  // ----- the printed text is a C string -----

  lemma {:induction false} EncodedHasNoNul(v: Bytes, i: nat)
    requires i <= |v| && !HasHexRef(v)
    ensures '\0' !in EncodeFrom(v, i)
    decreases |v| - i
  {
    hide EscapeByte, EncodeFrom;
    if i < |v| {
      assert !HexRefAt(v, i);
      EscapeHasNoNul(v[i]);
      EncodeByte(v, i);
      EncodedHasNoNul(v, i + 1);
    } else {
      EndOfText(v);
    }
  }

  lemma EscapeHasNoNul(c: Byte)
    ensures '\0' !in EscapeByte(c)
  {
  }

  lemma {:induction false} RepeatHasNoNul(t: Bytes, k: nat)
    requires '\0' !in t
    ensures '\0' !in Repeat(t, k)
  {
    if k > 0 { RepeatHasNoNul(t, k - 1); }
  }

  lemma {:induction false} AttributesHaveNoNul(attributes: seq<Attribute>, i: nat, enc: Encoding)
    requires i <= |attributes| && AttributesOk(attributes, enc)
    ensures '\0' !in PrintAttributes(attributes, i)
    decreases |attributes| - i
  {
    hide EncodeFrom, HasHexRef, Complete;
    if i < |attributes| {
      var a := attributes[i];
      PrintAttributeParts(a, enc);
      EncodedHasNoNul(a.value, 0);
      AttributesHaveNoNul(attributes, i + 1, enc);
    }
  }

  lemma {:induction false} CoreHasNoNul(n: Node, depth: nat, st: Style, cfg: Config)
    requires NodeOk(n, cfg) && '\0' !in st.indent && '\0' !in st.lineBreak
    ensures '\0' !in Core(n, depth, st)
    decreases n, 0
  {
    hide EncodeFrom, HasHexRef, Complete, Repeat, PrintAttributes, PrintFrom;
    match n
    case Text(v, cdata) => if !cdata { EncodedHasNoNul(v, 0); }
    case Comment(v) =>
    case Unknown(v) =>
    case Declaration(_, _, _) =>
    case Element(name, attributes, children) =>
      AttributesHaveNoNul(attributes, 0, cfg.enc);
      RepeatHasNoNul(st.indent, depth);
      if children != [] { CoreHasNoNul(children[0], depth + 1, st, cfg); }
      NodesHaveNoNul(children, 0, depth + 1, st, cfg);
  }

  lemma {:induction false} NodesHaveNoNul(nodes: seq<Node>, i: nat, depth: nat, st: Style, cfg: Config)
    requires i <= |nodes| && (forall k | 0 <= k < |nodes| :: NodeOk(nodes[k], cfg))
    requires '\0' !in st.indent && '\0' !in st.lineBreak
    ensures '\0' !in PrintFrom(nodes, i, depth, st)
    decreases nodes, |nodes| - i
  {
    hide Core, NodeOk, Repeat;
    if i < |nodes| {
      CoreHasNoNul(nodes[i], depth, st, cfg);
      RepeatHasNoNul(st.indent, depth);
      NodesHaveNoNul(nodes, i + 1, depth, st, cfg);
    }
  }

  /** A printable document is printed without a NUL, so it can be handed to the parser. */
  lemma {:induction false} PrintedIsCString(nodes: seq<Node>, i: nat, st: Style, cfg: Config)
    requires i <= |nodes| && DocumentOk(nodes, i, cfg) && StyleOk(st)
    ensures '\0' !in PrintFrom(nodes, i, 0, st)
    decreases |nodes| - i
  {
    hide Core, NodeOk, EncodingAfter, PrintFrom;
    if i < |nodes| {
      PrintTopLevel(nodes, i, st);
      CoreHasNoNul(nodes[i], 0, st, cfg);
      PrintedIsCString(nodes, i + 1, st, cfg.(enc := EncodingAfter(cfg.enc, nodes[i])));
    } else {
      PrintNone(nodes, st);
    }
  }

  lemma PrintNone(nodes: seq<Node>, st: Style)
    ensures PrintFrom(nodes, |nodes|, 0, st) == []
  {
  }

  /** Parsing what the printer prints gives back the same nodes and no error, for every
      indentation and line break made of white space. */
  lemma DocumentRoundTrip(nodes: seq<Node>, st: Style, cfg: Config)
    requires nodes != [] && DocumentOk(nodes, 0, cfg) && StyleOk(st)
    requires forall k | 0 <= k < |nodes| :: LaidOut(nodes[k], Loose(st, cfg))
    ensures '\0' !in PrintFrom(nodes, 0, 0, st)
    ensures var s: CString := PrintFrom(nodes, 0, 0, st);
      ParseDocument(s, cfg) == DocumentResult(nodes, if st.lineBreak == [] then Null else Pos(|s|), NoError)
  {
    hide PrintFrom, DocumentLoop, DocumentOk, StyleOk, SkipFrom, LaidOut, Loose;
    PrintedIsCString(nodes, 0, st, cfg);
    var s: CString := PrintFrom(nodes, 0, 0, st);
    assert Has(s, 0, s);
    assert nodes[..0] == [];
    TopLevelReads(s, 0, nodes, 0, st, cfg);
    SkipNone(s, 0, cfg.enc);
    HasMeans(s, 0, ByteOrderMark(), 0);
  }
}
