/**
 The recursive-descent parser as functions of the input and a position. Each result holds
 the tree built so far, the pointer returned and the document's error after the call; a
 tree is built and linked even when parsing fails half way through it.
 */
module Parser {
  import opened CStrings
  import opened Utf8
  import opened Scan
  import opened Entities
  import opened Text
  import opened Trees

  const VERSION: CString := "version"
  const ENCODING: CString := "encoding"
  const STANDALONE: CString := "standalone"
  const XML_OPEN: CString := "<?xml"
  const COMMENT_OPEN: CString := "<!--"
  const COMMENT_CLOSE: CString := "-->"
  const CDATA_OPEN: CString := "<![CDATA["
  const CDATA_CLOSE: CString := "]]>"

  /** The error a document holds; the first one raised stays. */
  datatype Error =
    | NoError
    | ParsingElement | FailedToReadElementName | ReadingElementValue | ReadingAttributes
    | ParsingEmpty | ReadingEndTag | ParsingUnknown | ParsingComment | ParsingDeclaration
    | DocumentEmpty | ParsingCData

  function Raise(err: Error, e: Error): Error {
    if err.NoError? then e else err
  }

  /** The encoding in force and the global switch `condenseWhiteSpace`. */
  datatype Config = Config(enc: Encoding, condense: bool)

  datatype AttributeResult = AttributeResult(attribute: Attribute, p: Ptr, err: Error)
  datatype NodeResult = NodeResult(node: Node, p: Ptr, err: Error)
  datatype ChildrenResult = ChildrenResult(children: seq<Node>, p: Ptr, err: Error)

  /** The first position at or after `p` where `tag` stands, or `|s|`. */
  function FindTag(s: CString, p: nat, tag: CString): (r: nat)
    requires p <= |s|
    ensures p <= r <= |s|
    ensures r == |s| || Matches(s, r, tag, false)
    ensures forall k | p <= k < r :: !Matches(s, k, tag, false)
    decreases |s| - p
  {
    if p == |s| || Matches(s, p, tag, false) then p else FindTag(s, p + 1, tag)
  }

  // ----- attributes -----

  predicate EndsUnquoted(c: Byte) {
    IsSpace(c) || c == '/' || c == '>'
  }

  /** Where an attribute value without quotes stops. */
  function UnquotedEnd(s: CString, p: nat): (r: nat)
    requires p <= |s|
    ensures p <= r <= |s|
    decreases |s| - p
  {
    if p == |s| || EndsUnquoted(s[p]) || s[p] == '\'' || s[p] == '\"' then p else UnquotedEnd(s, p + 1)
  }

  /** `TiXmlAttribute::Parse` from the `=` on. */
  function ParseAttributeValue(s: CString, p: nat, name: Bytes, cfg: Config, err: Error): (r: AttributeResult)
    requires p < |s|
    ensures !err.NoError? ==> r.err == err
    ensures r.p.Pos? ==> p < r.p.i <= |s| + 1
  {
    var q := SkipWs(s, p + 1, cfg.enc);
    if q.Null? || q.i == |s| then AttributeResult(Attribute(name, []), Null, Raise(err, ReadingAttributes))
    else if s[q.i] == '\'' || s[q.i] == '\"' then
      var t := TextAt(s, q.i + 1, false, [s[q.i]], cfg.enc, cfg.condense);
      AttributeResult(Attribute(name, t.text), t.p, err)
    else
      var e := UnquotedEnd(s, q.i);
      if e < |s| && !EndsUnquoted(s[e]) then
        AttributeResult(Attribute(name, s[q.i..e]), Null, Raise(err, ReadingAttributes))
      else AttributeResult(Attribute(name, s[q.i..e]), Pos(e), err)
  }

  /** `TiXmlAttribute::Parse` */
  function ParseAttribute(s: CString, p: nat, cfg: Config, err: Error): (r: AttributeResult)
    requires p <= |s|
    ensures !err.NoError? ==> r.err == err
    ensures r.p.Pos? ==> p < r.p.i <= |s| + 1
  {
    var q := SkipWs(s, p, cfg.enc);
    if q.Null? || q.i == |s| then AttributeResult(Attribute([], []), Null, err)
    else
      var n := NameAt(s, q.i);
      if n.p.Null? || n.p.i == |s| then AttributeResult(Attribute(n.name, []), Null, Raise(err, ReadingAttributes))
      else
        var e := SkipFrom(s, n.p.i, cfg.enc);
        if Ch(s, e) != '=' then AttributeResult(Attribute(n.name, []), Null, Raise(err, ReadingAttributes))
        else ParseAttributeValue(s, e, n.name, cfg, err)
  }

  // ----- leaves -----

  /** `TiXmlText::Parse` */
  function ParseText(s: CString, p: nat, cdata: bool, cfg: Config, err: Error): (r: NodeResult)
    requires p <= |s|
    ensures !err.NoError? ==> r.err == err
    ensures r.node.Text?
    ensures p < |s| && s[p] != '<' && r.p.Pos? ==> p < r.p.i <= |s|
    ensures cdata && r.p.Pos? ==> p < r.p.i <= |s|
  {
    if cdata || Matches(s, p, CDATA_OPEN, false) then
      if !Matches(s, p, CDATA_OPEN, false) then NodeResult(Text([], true), Null, Raise(err, ParsingCData))
      else
        var e := FindTag(s, p + 9, CDATA_CLOSE);
        NodeResult(Text(s[p + 9..e], true), TextAt(s, e, false, CDATA_CLOSE, cfg.enc, cfg.condense).p, err)
    else
      var t := TextAt(s, p, true, "<", cfg.enc, cfg.condense);
      NodeResult(Text(t.text, false), if t.p.Pos? then Pos(t.p.i - 1) else t.p, err)
  }

  /** `TiXmlComment::Parse` */
  function ParseComment(s: CString, p: nat, err: Error): (r: NodeResult)
    requires p < |s| && s[p] == '<'
    ensures !err.NoError? ==> r.err == err
    ensures r.p.Pos? ==> p < r.p.i <= |s|
  {
    if !Matches(s, p, COMMENT_OPEN, false) then NodeResult(Comment([]), Null, Raise(err, ParsingComment))
    else
      var e := FindTag(s, p + 4, COMMENT_CLOSE);
      NodeResult(Comment(s[p + 4..e]), Forward(s, e, 3), err)
  }

  /** `TiXmlUnknown::Parse` */
  function ParseUnknown(s: CString, p: nat, err: Error): (r: NodeResult)
    requires p < |s| && s[p] == '<'
    ensures !err.NoError? ==> r.err == err
    ensures r.p.Pos? && p < r.p.i <= |s|
  {
    var e := FindByte(s, p + 1, '>');
    NodeResult(Unknown(s[p + 1..e]), Pos(if e < |s| then e + 1 else e), err)
  }

  /** The end of whatever stands in a declaration that is not an attribute. */
  function JunkEnd(s: CString, p: nat): (r: nat)
    requires p <= |s|
    ensures p <= r <= |s|
    ensures p < |s| && s[p] != '>' && !IsSpace(s[p]) ==> p < r
    decreases |s| - p
  {
    if p == |s| || s[p] == '>' || IsSpace(s[p]) then p else JunkEnd(s, p + 1)
  }

  lemma JunkAdvances(s: CString, p: nat, enc: Encoding)
    requires p < |s| && s[p] != '>'
    ensures p < JunkEnd(s, SkipFrom(s, p, enc)) <= |s|
  {
  }

  datatype Field = VersionField | EncodingField | StandaloneField | NoField

  function FieldAt(s: CString, p: nat): Field {
    if Matches(s, p, VERSION, true) then VersionField
    else if Matches(s, p, ENCODING, true) then EncodingField
    else if Matches(s, p, STANDALONE, true) then StandaloneField
    else NoField
  }

  function SetField(d: Node, f: Field, value: Bytes): (r: Node)
    requires d.Declaration?
    ensures r.Declaration?
  {
    match f
    case VersionField => d.(version := CStr(value))
    case EncodingField => d.(encoding := CStr(value))
    case StandaloneField => d.(standalone := CStr(value))
    case NoField => d
  }

  /** The loop of `TiXmlDeclaration::Parse` over `version`, `encoding` and `standalone`. The
      attribute it parses them with belongs to no document, so nothing in it is ever recorded as
      an error. */
  function DeclarationLoop(s: CString, p: nat, cfg: Config, err: Error, d: Node): (r: NodeResult)
    requires p <= |s| && d.Declaration?
    ensures r.node.Declaration? && r.err == err
    ensures r.p.Pos? ==> p < r.p.i <= |s|
    decreases |s| - p
  {
    if p == |s| then NodeResult(d, Null, err)
    else if s[p] == '>' then NodeResult(d, Pos(p + 1), err)
    else
      var q := SkipFrom(s, p, cfg.enc);
      var f := FieldAt(s, q);
      if f.NoField? then DeclarationLoop(s, JunkEnd(s, q), cfg, err, d)
      else
        var a := ParseAttribute(s, q, cfg, err);
        var d' := SetField(d, f, a.attribute.value);
        if a.p.Null? then NodeResult(d', Null, err)
        else if a.p.Wild? || a.p.i > |s| then NodeResult(d', Wild, err)
        else DeclarationLoop(s, a.p.i, cfg, err, d')
  }

  /** `TiXmlDeclaration::Parse`. Past its opening it never changes the error. */
  function ParseDeclaration(s: CString, p: nat, cfg: Config, err: Error): (r: NodeResult)
    requires p < |s| && s[p] == '<'
    ensures !err.NoError? ==> r.err == err
    ensures r.node.Declaration? && (Matches(s, p, XML_OPEN, true) ==> r.err == err)
    ensures r.p.Pos? ==> p < r.p.i <= |s|
  {
    if !Matches(s, p, XML_OPEN, true) then NodeResult(Declaration([], [], []), Null, Raise(err, ParsingDeclaration))
    else DeclarationLoop(s, p + 5, cfg, err, Declaration([], [], []))
  }

  // ----- elements -----

  datatype Kind = DeclarationKind | CommentKind | CDataKind | UnknownKind | ElementKind

  /** `Identify` at a `<` */
  function Identify(s: CString, p: nat): Kind
    requires p < |s| && s[p] == '<'
  {
    if Matches(s, p, XML_OPEN, true) then DeclarationKind
    else if Matches(s, p, COMMENT_OPEN, false) then CommentKind
    else if Matches(s, p, CDATA_OPEN, false) then CDataKind
    else if Matches(s, p, "<!", false) then UnknownKind
    else if StartsName(Ch(s, p + 1)) then ElementKind
    else UnknownKind
  }

  /** The `Parse` of the node that `Identify` finds at a `<`. It never returns a position
      at or before its start, nor one past the end of the input. */
  function ParseNode(s: CString, p: nat, cfg: Config, err: Error): (r: NodeResult)
    requires p < |s| && s[p] == '<'
    ensures !err.NoError? ==> r.err == err
    ensures r.p.Pos? ==> p < r.p.i <= |s|
    decreases |s| - p, 1
  {
    match Identify(s, p)
    case DeclarationKind => ParseDeclaration(s, p, cfg, err)
    case CommentKind => ParseComment(s, p, err)
    case CDataKind => ParseText(s, p, true, cfg, err)
    case UnknownKind => ParseUnknown(s, p, err)
    case ElementKind => ParseElement(s, p, cfg, err)
  }

  /** `TiXmlElement::Parse` */
  function ParseElement(s: CString, p: nat, cfg: Config, err: Error): (r: NodeResult)
    requires p < |s| && s[p] == '<'
    ensures !err.NoError? ==> r.err == err
    ensures r.p.Pos? ==> p < r.p.i <= |s|
    decreases |s| - p, 0
  {
    var q := SkipWs(s, p + 1, cfg.enc);
    var n := if q.Null? then Name([], Null) else NameAt(s, q.i);
    if n.p.Null? || n.p.i == |s| then NodeResult(Element(n.name, [], []), Null, Raise(err, FailedToReadElementName))
    else AttributeLoop(s, n.p.i, n.name, [], cfg, err)
  }

  function EndTag(name: Bytes): Bytes {
    "</" + name + ">"
  }

  /** The loop of `TiXmlElement::Parse` over attributes, up to the end of the element. An
      attribute that is already there is updated, and the element then ends with a null
      pointer and no error. */
  function AttributeLoop(s: CString, p: nat, name: Bytes, attributes: seq<Attribute>, cfg: Config,
                         err: Error): (r: NodeResult)
    requires p <= |s|
    ensures !err.NoError? ==> r.err == err
    ensures r.p.Pos? ==> p <= r.p.i <= |s|
    decreases |s| - p, 4
  {
    if p == |s| then NodeResult(Element(name, attributes, []), Pos(p), err)
    else
      var q := SkipFrom(s, p, cfg.enc);
      if q == |s| then NodeResult(Element(name, attributes, []), Null, Raise(err, ReadingAttributes))
      else if s[q] == '/' then
        if Ch(s, q + 1) != '>' then NodeResult(Element(name, attributes, []), Null, Raise(err, ParsingEmpty))
        else NodeResult(Element(name, attributes, []), Pos(q + 2), err)
      else if s[q] == '>' then ParseContent(s, q + 1, name, attributes, cfg, err)
      else
        var a := ParseAttribute(s, q, cfg, err);
        if a.p.Wild? || (a.p.Pos? && a.p.i > |s|) then NodeResult(Element(name, attributes, []), Wild, a.err)
        else if a.p.Null? || a.p.i == |s| then
          NodeResult(Element(name, attributes, []), Null, Raise(a.err, ParsingElement))
        else
          var found := IndexOf(attributes, a.attribute.name) < |attributes|;
          var value := if found then CStr(a.attribute.value) else a.attribute.value;
          var attributes' := SetAttribute(attributes, a.attribute.name, value);
          if found then NodeResult(Element(name, attributes', []), Null, a.err)
          else AttributeLoop(s, a.p.i, name, attributes', cfg, a.err)
  }

  /** The end of `TiXmlElement::Parse`: the content of the element and its end tag. */
  function ParseContent(s: CString, p: nat, name: Bytes, attributes: seq<Attribute>, cfg: Config,
                        err: Error): (r: NodeResult)
    requires p <= |s|
    ensures !err.NoError? ==> r.err == err
    ensures r.p.Pos? ==> p < r.p.i <= |s|
    decreases |s| - p, 3
  {
    var v := ReadValue(s, p, [], cfg, err);
    var e := Element(name, attributes, v.children);
    if v.p.Wild? then NodeResult(e, Wild, v.err)
    else if v.p.Null? || v.p.i == |s| then NodeResult(e, Null, Raise(v.err, ReadingEndTag))
    else if Has(s, v.p.i, EndTag(name)) then NodeResult(e, Pos(v.p.i + |EndTag(name)|), v.err)
    else NodeResult(e, Null, Raise(v.err, ReadingEndTag))
  }

  /** `TiXmlElement::ReadValue` from `p`, with `acc` linked so far. */
  function ReadValue(s: CString, p: nat, acc: seq<Node>, cfg: Config, err: Error): (r: ChildrenResult)
    requires p <= |s|
    ensures !err.NoError? ==> r.err == err
    ensures r.p.Pos? ==> p <= r.p.i <= |s|
    decreases |s| - p, 2
  {
    var w := SkipWs(s, p, cfg.enc);
    if w.Null? then ChildrenResult(acc, Null, Raise(err, ReadingElementValue))
    else if w.i == |s| then ChildrenResult(acc, Pos(|s|), err)
    else if s[w.i] == '<' && Matches(s, w.i, "</", false) then ChildrenResult(acc, Pos(w.i), err)
    else
      var n :=
        if s[w.i] == '<' then ParseNode(s, w.i, cfg, err)
        else ParseText(s, if cfg.condense then w.i else p, false, cfg, err);
      var acc' := if s[w.i] != '<' && IsBlank(n.node.value) then acc else acc + [n.node];
      if n.p.Null? then ChildrenResult(acc', Null, Raise(n.err, ReadingElementValue))
      else if n.p.Wild? then ChildrenResult(acc', Wild, n.err)
      else ReadValue(s, n.p.i, acc', cfg, n.err)
  }

  // ----- documents -----

  /** The encoding in force after a top-level node: an undeclared one is settled by the
      first declaration. */
  function EncodingAfter(enc: Encoding, n: Node): Encoding {
    if !(enc.Undeclared? && n.Declaration?) then enc
    else
      var e := CStr(n.encoding);
      if e == [] || Matches(e, 0, "UTF-8", true) || Matches(e, 0, "UTF8", true) then Utf8 else Legacy
  }

  datatype DocumentResult = DocumentResult(children: seq<Node>, p: Ptr, err: Error)

  /** The loop of `TiXmlDocument::Parse` over top-level nodes. */
  function DocumentLoop(s: CString, p: nat, acc: seq<Node>, cfg: Config, err: Error): (r: DocumentResult)
    requires p <= |s|
    ensures !err.NoError? ==> r.err == err
    ensures r.p.Pos? ==> r.p.i <= |s|
    decreases |s| - p
  {
    if p == |s| || s[p] != '<' then DocumentEnd(acc, Pos(p), err)
    else
      var n := ParseNode(s, p, cfg, err);
      var cfg' := cfg.(enc := EncodingAfter(cfg.enc, n.node));
      if !n.p.Pos? then DocumentEnd(acc + [n.node], n.p, n.err)
      else
        var q := SkipWs(s, n.p.i, cfg'.enc);
        if q.Null? then DocumentEnd(acc + [n.node], Null, n.err)
        else DocumentLoop(s, q.i, acc + [n.node], cfg', n.err)
  }

  function DocumentEnd(children: seq<Node>, p: Ptr, err: Error): (r: DocumentResult)
    ensures !err.NoError? ==> r.err == err
  {
    if children == [] then DocumentResult(children, Null, Raise(err, DocumentEmpty))
    else DocumentResult(children, p, err)
  }

  /** `TiXmlDocument::Parse` on a document that already has the children `acc`. */
  function ParseOnto(s: CString, acc: seq<Node>, cfg: Config): DocumentResult {
    if s == [] then DocumentResult(acc, Null, DocumentEmpty)
    else
      var enc := if cfg.enc.Undeclared? && Has(s, 0, ByteOrderMark()) then Utf8 else cfg.enc;
      DocumentLoop(s, SkipFrom(s, 0, enc), acc, cfg.(enc := enc), NoError)
  }

  /** `TiXmlDocument::Parse` on an empty document. */
  function ParseDocument(s: CString, cfg: Config): DocumentResult {
    ParseOnto(s, [], cfg)
  }

  function ByteOrderMark(): CString {
    [ByteOf(0xEF), ByteOf(0xBB), ByteOf(0xBF)]
  }

  lemma MarkIs(s: CString)
    ensures Has(s, 0, ByteOrderMark())
       <==> |s| >= 3 && s[0] as int == 0xEF && s[1] as int == 0xBB && s[2] as int == 0xBF
  {
    HasIff(s, 0, ByteOrderMark());
    assert ByteOrderMark()[0] as int == 0xEF && ByteOrderMark()[1] as int == 0xBB && ByteOrderMark()[2] as int == 0xBF;
  }
}
