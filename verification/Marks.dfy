/**
 The calls of `Stamp` that a parse makes, in order: one where a node or an attribute starts, and
 one where the first error is found. Each function follows the function of `Parser` with the
 same structure.
 */
module Marks {
  import opened CStrings
  import opened Scan
  import opened Trees
  import opened Location
  import opened Parser

  /** All calls are inside the input and in one encoding. */
  predicate MarksIn(s: CString, enc: Encoding, marks: seq<Mark>) {
    forall m <- marks :: m.now <= |s| && m.enc == enc
  }

  function Start(p: nat, enc: Encoding): seq<Mark> {
    [Mark(p, enc, false)]
  }

  /** `SetError`, which looks at the position only if it has one and this is the first error. */
  function ErrorAt(p: Ptr, enc: Encoding, first: bool): seq<Mark> {
    if first && p.Pos? then [Mark(p.i, enc, true)] else []
  }

  // ----- attributes -----

  /** `first` says that an error of the attribute is recorded: it belongs to a document, which has
      none yet. */
  function ValueMarks(s: CString, p: nat, cfg: Config, first: bool): (r: seq<Mark>)
    requires p < |s|
    ensures MarksIn(s, cfg.enc, r)
  {
    var q := SkipWs(s, p + 1, cfg.enc);
    if q.Null? || q.i == |s| then ErrorAt(q, cfg.enc, first)
    else if s[q.i] == '\'' || s[q.i] == '\"' then []
    else UnquotedMarks(s, q.i, cfg.enc, first)
  }

  function UnquotedMarks(s: CString, p: nat, enc: Encoding, first: bool): (r: seq<Mark>)
    requires p <= |s|
    ensures MarksIn(s, enc, r)
  {
    var e := UnquotedEnd(s, p);
    if e < |s| && !EndsUnquoted(s[e]) then ErrorAt(Pos(e), enc, first) else []
  }

  function AttributeMarks(s: CString, p: nat, cfg: Config, first: bool): (r: seq<Mark>)
    requires p <= |s|
    ensures MarksIn(s, cfg.enc, r)
  {
    var q := SkipWs(s, p, cfg.enc);
    if q.Null? || q.i == |s| then []
    else
      var n := NameAt(s, q.i);
      Start(q.i, cfg.enc) +
      if n.p.Null? || n.p.i == |s| then ErrorAt(q, cfg.enc, first)
      else
        var e := SkipFrom(s, n.p.i, cfg.enc);
        if Ch(s, e) != '=' then ErrorAt(Pos(e), cfg.enc, first) else ValueMarks(s, e, cfg, first)
  }

  // ----- leaves -----

  function TextMarks(s: CString, p: nat, cdata: bool, cfg: Config, err: Error): (r: seq<Mark>)
    requires p <= |s|
    ensures MarksIn(s, cfg.enc, r)
  {
    Start(p, cfg.enc)
    + if cdata && !Matches(s, p, CDATA_OPEN, false) then ErrorAt(Pos(p), cfg.enc, err.NoError?) else []
  }

  function CommentMarks(s: CString, p: nat, cfg: Config, err: Error): (r: seq<Mark>)
    requires p < |s|
    ensures MarksIn(s, cfg.enc, r)
  {
    Start(p, cfg.enc)
    + if Matches(s, p, COMMENT_OPEN, false) then [] else ErrorAt(Pos(p), cfg.enc, err.NoError?)
  }

  function DeclarationLoopMarks(s: CString, p: nat, cfg: Config, err: Error): (r: seq<Mark>)
    requires p <= |s|
    ensures MarksIn(s, cfg.enc, r)
    decreases |s| - p
  {
    if p == |s| || s[p] == '>' then []
    else
      var q := SkipFrom(s, p, cfg.enc);
      if FieldAt(s, q).NoField? then DeclarationLoopMarks(s, JunkEnd(s, q), cfg, err)
      else
        var a := ParseAttribute(s, q, cfg, err);
        AttributeMarks(s, q, cfg, false)
        + if a.p.Pos? && a.p.i <= |s| then DeclarationLoopMarks(s, a.p.i, cfg, err) else []
  }

  function DeclarationMarks(s: CString, p: nat, cfg: Config, err: Error): (r: seq<Mark>)
    requires p < |s|
    ensures MarksIn(s, cfg.enc, r)
  {
    if Matches(s, p, XML_OPEN, true) then Start(p, cfg.enc) + DeclarationLoopMarks(s, p + 5, cfg, err) else []
  }

  // ----- elements -----

  function NodeMarks(s: CString, p: nat, cfg: Config, err: Error): (r: seq<Mark>)
    requires p < |s| && s[p] == '<'
    ensures MarksIn(s, cfg.enc, r)
    decreases |s| - p, 1
  {
    match Identify(s, p)
    case DeclarationKind => DeclarationMarks(s, p, cfg, err)
    case CommentKind => CommentMarks(s, p, cfg, err)
    case CDataKind => TextMarks(s, p, true, cfg, err)
    case UnknownKind => Start(p, cfg.enc)
    case ElementKind => ElementMarks(s, p, cfg, err)
  }

  function ElementMarks(s: CString, p: nat, cfg: Config, err: Error): (r: seq<Mark>)
    requires p < |s| && s[p] == '<'
    ensures MarksIn(s, cfg.enc, r)
    decreases |s| - p, 0
  {
    var q := SkipWs(s, p + 1, cfg.enc);
    var n := if q.Null? then Name([], Null) else NameAt(s, q.i);
    Start(p, cfg.enc) +
    if n.p.Null? || n.p.i == |s| then ErrorAt(q, cfg.enc, err.NoError?)
    else LoopMarks(s, n.p.i, n.name, [], cfg, err)
  }

  function LoopMarks(s: CString, p: nat, name: Bytes, attributes: seq<Attribute>, cfg: Config,
                     err: Error): (r: seq<Mark>)
    requires p <= |s|
    ensures MarksIn(s, cfg.enc, r)
    decreases |s| - p, 5
  {
    if p == |s| then []
    else
      var q := SkipFrom(s, p, cfg.enc);
      if q == |s| then ErrorAt(Pos(p), cfg.enc, err.NoError?)
      else if s[q] == '/' then
        if Ch(s, q + 1) != '>' then ErrorAt(Pos(q + 1), cfg.enc, err.NoError?) else []
      else if s[q] == '>' then ContentMarks(s, q + 1, name, cfg, err)
      else
        AttributeMarks(s, q, cfg, err.NoError?) + AfterAttribute(s, q, name, attributes, cfg, err)
  }

  function AfterAttribute(s: CString, p: nat, name: Bytes, attributes: seq<Attribute>, cfg: Config,
                          err: Error): (r: seq<Mark>)
    requires p < |s|
    ensures MarksIn(s, cfg.enc, r)
    decreases |s| - p, 4
  {
    var a := ParseAttribute(s, p, cfg, err);
    if a.p.Wild? || (a.p.Pos? && a.p.i > |s|) then []
    else if a.p.Null? || a.p.i == |s| then ErrorAt(Pos(p), cfg.enc, a.err.NoError?)
    else if IndexOf(attributes, a.attribute.name) < |attributes| then []
    else
      var attributes' := SetAttribute(attributes, a.attribute.name, a.attribute.value);
      LoopMarks(s, a.p.i, name, attributes', cfg, a.err)
  }

  function ContentMarks(s: CString, p: nat, name: Bytes, cfg: Config, err: Error): (r: seq<Mark>)
    requires p <= |s|
    ensures MarksIn(s, cfg.enc, r)
    decreases |s| - p, 4
  {
    var v := ReadValue(s, p, [], cfg, err);
    ValuesMarks(s, p, cfg, err)
    + if v.p.Pos? && v.p.i < |s| && Has(s, v.p.i, EndTag(name)) then []
      else ErrorAt(v.p, cfg.enc, v.err.NoError?)
  }

  function ValuesMarks(s: CString, p: nat, cfg: Config, err: Error): (r: seq<Mark>)
    requires p <= |s|
    ensures MarksIn(s, cfg.enc, r)
    decreases |s| - p, 3
  {
    var w := SkipWs(s, p, cfg.enc);
    if w.Null? || w.i == |s| then []
    else if s[w.i] == '<' && Matches(s, w.i, "</", false) then []
    else
      var n := ChildAt(s, p, w.i, cfg, err);
      ChildMarks(s, p, w.i, cfg, err) + RestMarks(s, n.p, cfg, n.err)
  }

  /** What `ReadValue` parses at `w`, after white space from `p` on. */
  function ChildAt(s: CString, p: nat, w: nat, cfg: Config, err: Error): (r: NodeResult)
    requires p <= w < |s|
    ensures s[w] != '<' ==> r.node.Text?
  {
    if s[w] == '<' then ParseNode(s, w, cfg, err)
    else ParseText(s, if cfg.condense then w else p, false, cfg, err)
  }

  lemma ChildAdvances(s: CString, p: nat, cfg: Config, err: Error)
    requires p <= |s| && SkipFrom(s, p, cfg.enc) < |s|
    ensures var r := ChildAt(s, p, SkipFrom(s, p, cfg.enc), cfg, err).p; r.Pos? ==> p < r.i <= |s|
  {
    hide ParseNode, ParseText;
  }

  function ChildMarks(s: CString, p: nat, w: nat, cfg: Config, err: Error): (r: seq<Mark>)
    requires p <= w < |s|
    ensures MarksIn(s, cfg.enc, r)
    decreases |s| - w, 2
  {
    if s[w] == '<' then NodeMarks(s, w, cfg, err)
    else TextMarks(s, if cfg.condense then w else p, false, cfg, err)
  }

  /** The calls of `ReadValue` when it goes on at `p`. */
  function RestMarks(s: CString, p: Ptr, cfg: Config, err: Error): (r: seq<Mark>)
    ensures MarksIn(s, cfg.enc, r)
    decreases if p.Pos? then |s| - p.i else 0, 4
  {
    if p.Pos? && p.i <= |s| then ValuesMarks(s, p.i, cfg, err) else []
  }

  /** What `ReadValue` gives when it goes on at `p`, with `acc` linked so far. */
  function ReadRest(s: CString, p: Ptr, acc: seq<Node>, cfg: Config, err: Error): (r: ChildrenResult)
    requires p.Pos? ==> p.i <= |s|
  {
    match p
    case Null => ChildrenResult(acc, Null, Raise(err, ReadingElementValue))
    case Wild => ChildrenResult(acc, Wild, err)
    case Pos(i) => ReadValue(s, i, acc, cfg, err)
  }

  lemma GoesOn(s: CString, p: Ptr, acc: seq<Node>, cfg: Config, err: Error)
    requires p.Pos? ==> p.i <= |s|
    ensures p.Pos? ==> ReadRest(s, p, acc, cfg, err) == ReadValue(s, p.i, acc, cfg, err)
    ensures p.Null? ==> ReadRest(s, p, acc, cfg, err) == ChildrenResult(acc, p, Raise(err, ReadingElementValue))
    ensures p.Wild? ==> ReadRest(s, p, acc, cfg, err) == ChildrenResult(acc, p, err)
    ensures RestMarks(s, p, cfg, err) == if p.Pos? then ValuesMarks(s, p.i, cfg, err) else []
  {
    hide ReadValue, ValuesMarks;
  }

  /** One round of `ReadValue`, and its calls. */
  lemma ValueRound(s: CString, p: nat, acc: seq<Node>, cfg: Config, err: Error)
    requires p <= |s| && SkipFrom(s, p, cfg.enc) < |s|
    requires var w := SkipFrom(s, p, cfg.enc); !(s[w] == '<' && Matches(s, w, "</", false))
    ensures var w := SkipFrom(s, p, cfg.enc);
      var n := ChildAt(s, p, w, cfg, err);
      var acc' := if s[w] == '<' || !IsBlank(n.node.value) then acc + [n.node] else acc;
      && (n.p.Pos? ==> p < n.p.i <= |s|)
      && ReadValue(s, p, acc, cfg, err) == ReadRest(s, n.p, acc', cfg, n.err)
      && ValuesMarks(s, p, cfg, err) == ChildMarks(s, p, w, cfg, err) + RestMarks(s, n.p, cfg, n.err)
  {
    hide ParseNode, ParseText, Matches, IsBlank, SkipFrom, ChildMarks, RestMarks;
    ChildAdvances(s, p, cfg, err);
  }

  /** Where `ReadValue` stops. */
  lemma ValueStops(s: CString, p: nat, acc: seq<Node>, cfg: Config, err: Error)
    requires p <= |s|
    requires var w := SkipFrom(s, p, cfg.enc); w == |s| || (s[w] == '<' && Matches(s, w, "</", false))
    ensures ValuesMarks(s, p, cfg, err) == []
    ensures ReadValue(s, p, acc, cfg, err)
         == if p == |s| then ChildrenResult(acc, Null, Raise(err, ReadingElementValue))
            else ChildrenResult(acc, Pos(SkipFrom(s, p, cfg.enc)), err)
  {
    hide SkipFrom, Matches;
  }

  // ----- documents -----

  function DocumentLoopMarks(s: CString, p: nat, cfg: Config, err: Error): (r: seq<Mark>)
    requires p <= |s|
    ensures Within(s, r)
    decreases |s| - p, 0
  {
    if p == |s| || s[p] != '<' then []
    else
      var n := ParseNode(s, p, cfg, err);
      var cfg' := cfg.(enc := EncodingAfter(cfg.enc, n.node));
      NodeMarks(s, p, cfg, err) + AfterNode(s, n, cfg')
  }

  function AfterNode(s: CString, n: NodeResult, cfg: Config): (r: seq<Mark>)
    ensures Within(s, r)
    decreases if n.p.Pos? then |s| - n.p.i else 0, 1
  {
    if n.p.Pos? && n.p.i < |s| then DocumentLoopMarks(s, SkipFrom(s, n.p.i, cfg.enc), cfg, n.err) else []
  }

  /** One round of the loop over top-level nodes, and its calls. */
  lemma DocumentRound(s: CString, p: nat, acc: seq<Node>, cfg: Config, err: Error)
    requires p < |s| && s[p] == '<'
    ensures var n := ParseNode(s, p, cfg, err);
      var cfg' := cfg.(enc := EncodingAfter(cfg.enc, n.node));
      && DocumentLoop(s, p, acc, cfg, err)
         == (if n.p.Pos? && n.p.i < |s| then
               DocumentLoop(s, SkipFrom(s, n.p.i, cfg'.enc), acc + [n.node], cfg', n.err)
             else DocumentEnd(acc + [n.node], if n.p.Pos? then Null else n.p, n.err))
      && DocumentLoopMarks(s, p, cfg, err) == NodeMarks(s, p, cfg, err) + AfterNode(s, n, cfg')
  {
    hide ParseNode, SkipFrom, EncodingAfter, NodeMarks, AfterNode;
  }

  lemma DocumentStops(s: CString, p: nat, acc: seq<Node>, cfg: Config, err: Error)
    requires p == |s| || (p < |s| && s[p] != '<')
    ensures DocumentLoop(s, p, acc, cfg, err) == DocumentEnd(acc, Pos(p), err)
    ensures DocumentLoopMarks(s, p, cfg, err) == []
  {
  }

  function DocumentMarks(s: CString, cfg: Config): (r: seq<Mark>)
    ensures Within(s, r)
  {
    if s == [] then []
    else
      var enc := if cfg.enc.Undeclared? && Has(s, 0, ByteOrderMark()) then Utf8 else cfg.enc;
      DocumentLoopMarks(s, SkipFrom(s, 0, enc), cfg.(enc := enc), NoError)
  }

  /** A document's parse starts in the first row and column. */
  function FreshTrack(): Track {
    Track(Cursor(0, 0, 0), Nowhere)
  }

  /** Where a parse finds its error. */
  function ErrorPlace(s: CString, tab: int, cfg: Config): Place {
    Follow(s, tab, FreshTrack(), DocumentMarks(s, cfg)).place
  }
}
