/**
 Where the parser keeps white space and the printer adds some: the round trip fails exactly
 for trees in which plain text has other children beside it.
 */
module Layout {
  import opened CStrings
  import opened Utf8
  import opened Scan
  import opened Entities
  import opened Text
  import opened Escapes
  import opened Condensing
  import opened Trees
  import opened Parser
  import opened Printing
  import opened RoundTrip

  // ----- white space before a text is kept -----

  lemma BlankChar(s: CString, p: nat, enc: Encoding)
    requires p < |s| && IsSpace(s[p])
    ensures CharAt(s, p, enc) == Character([s[p]], Pos(p + 1)) && s[p] != '<'
  {
  }

  lemma {:induction false} KeepBlank(s: CString, p: nat, w: Bytes, enc: Encoding, acc: Bytes)
    requires Has(s, p, w) && IsBlank(w)
    ensures p + |w| <= |s| && ReadKeep(s, p, "<", enc, acc) == ReadKeep(s, p + |w|, "<", enc, acc + w)
    decreases |w|
  {
    hide CharAt;
    if w == [] {
      assert acc + w == acc;
    } else {
      HasAt(s, p, w, 0);
      HasSlice(s, p, w, 1, |w|);
      BlankChar(s, p, enc);
      HasMeans(s, p, "<", 0);
      KeepBlank(s, p + 1, w[1..], enc, acc + [s[p]]);
      assert acc + [s[p]] + w[1..] == acc + w;
    }
  }

  lemma TextWithBlanks(s: CString, p: nat, w: Bytes, v: Bytes, gap: Bytes, cfg: Config)
    requires Has(s, p, w + (EncodeFrom(v, 0) + (gap + "<"))) && IsBlank(w) && IsBlank(gap) && ValueOk(v, cfg.enc)
    ensures var x := p + |w| + |EncodeFrom(v, 0)| + |gap|;
      x < |s| && s[x] == '<' && TextAt(s, p, true, "<", cfg.enc, false) == TextResult(w + v + gap, Pos(x + 1))
  {
    hide ReadKeep, EncodeFrom, Has, Complete, HasHexRef, IsBlank;
    var e := EncodeFrom(v, 0);
    HasConcat(s, p, w, e + (gap + "<"));
    HasConcat(s, p + |w|, e, gap + "<");
    HasConcat(s, p + |w| + |e|, gap, "<");
    HasAt(s, p + |w| + |e| + |gap|, "<", 0);
    KeepBlank(s, p, w, cfg.enc, []);
    KeepReadsBack(s, p + |w|, v, 0, '<', cfg.enc, [] + w);
    assert [] + w + v[0..] == w + v;
    KeepBlank(s, p + |w| + |e|, gap, cfg.enc, w + v);
    StopsAt(s, p + |w| + |e| + |gap|, '<', cfg.enc, w + v + gap);
  }

  /** A text between white space is linked together with that white space. */
  lemma TextBetweenBlanks(s: CString, p: nat, w: Bytes, v: Bytes, gap: Bytes, acc: seq<Node>, cfg: Config, err: Error)
    requires Has(s, p, w + (EncodeFrom(v, 0) + (gap + "<"))) && IsBlank(w) && IsBlank(gap)
    requires PlainTextOk(v, cfg) && !cfg.condense
    ensures var x := p + |w| + |EncodeFrom(v, 0)| + |gap|;
      x <= |s| && ReadValue(s, p, acc, cfg, err) == ReadValue(s, x, acc + [Text(w + v + gap, false)], cfg, err)
  {
    hide EncodeFrom, Has, SkipFrom, ParseNode, Complete, HasHexRef, Condense, TextAt, StartsZeroWidth;
    var e := EncodeFrom(v, 0);
    TextWithBlanks(s, p, w, v, gap, cfg);
    HasConcat(s, p, w, e + (gap + "<"));
    HasConcat(s, p + |w|, e, gap + "<");
    SkipBlank(s, p, w, cfg.enc);
    SkipIntoText(s, p + |w|, v, cfg);
    NotATag(s, p, w);
    NotBlank(w, v, gap);
  }

  lemma NotATag(s: CString, p: nat, w: Bytes)
    requires Has(s, p, w) && IsBlank(w) && p + |w| < |s| && s[p + |w|] != '<'
    ensures !Matches(s, p, CDATA_OPEN, false)
  {
    HasMeans(s, p, CDATA_OPEN, 0);
    HasMeans(s, p, w, 0);
    assert w != [] ==> IsSpace(w[0]);
  }

  lemma NotBlank(w: Bytes, v: Bytes, gap: Bytes)
    requires !IsBlank(v)
    ensures !IsBlank(w + v + gap)
  {
    var k :| 0 <= k < |v| && !IsSpace(v[k]);
    assert (w + v + gap)[|w| + k] == v[k];
  }

  // ----- what is linked stays linked -----

  lemma {:induction false} ReadValueKeeps(s: CString, p: nat, acc: seq<Node>, cfg: Config, err: Error)
    requires p <= |s|
    ensures acc <= ReadValue(s, p, acc, cfg, err).children
    decreases |s| - p
  {
    hide ReadValue;
    var next, q, err' := ReadValueRound(s, p, acc, cfg, err);
    if q.Pos? { ReadValueKeeps(s, q.i, next, cfg, err'); }
  }

  /** One round of `ReadValue`: it ends with the children `next`, or goes on from `q` with them. */
  lemma ReadValueRound(s: CString, p: nat, acc: seq<Node>, cfg: Config, err: Error)
    returns (next: seq<Node>, q: Ptr, err': Error)
    requires p <= |s|
    ensures acc <= next
    ensures if q.Pos? then p < q.i <= |s| && ReadValue(s, p, acc, cfg, err) == ReadValue(s, q.i, next, cfg, err')
            else ReadValue(s, p, acc, cfg, err).children == next
  {
    hide ParseNode, ParseText, SkipFrom, Matches, IsBlank;
    var w := SkipWs(s, p, cfg.enc);
    if p < |s| && s[p] == '<' { SkipNone(s, p, cfg.enc); }
    if w.Pos? && w.i < |s| && !(s[w.i] == '<' && Matches(s, w.i, "</", false)) {
      var n :=
        if s[w.i] == '<' then ParseNode(s, w.i, cfg, err)
        else ParseText(s, if cfg.condense then w.i else p, false, cfg, err);
      next := if s[w.i] != '<' && IsBlank(n.node.value) then acc else acc + [n.node];
      q, err' := n.p, n.err;
    } else {
      next, q, err' := acc, Null, err;
    }
  }

  lemma {:induction false} DocumentLoopKeeps(s: CString, p: nat, acc: seq<Node>, cfg: Config, err: Error)
    requires p <= |s|
    ensures acc <= DocumentLoop(s, p, acc, cfg, err).children
    decreases |s| - p
  {
    hide ParseNode, SkipFrom, EncodingAfter;
    if p < |s| && s[p] == '<' {
      var n := ParseNode(s, p, cfg, err);
      var cfg' := cfg.(enc := EncodingAfter(cfg.enc, n.node));
      if n.p.Pos? { DocumentLoopKeeps(s, SkipFrom(s, n.p.i, cfg'.enc), acc + [n.node], cfg', n.err); }
    }
  }

  /** Parsing into a document that has children already appends to them what parsing into an
      empty one gives. */
  lemma {:induction false} DocumentLoopAppends(s: CString, p: nat, acc: seq<Node>, cfg: Config, err: Error)
    requires p <= |s|
    ensures DocumentLoop(s, p, acc, cfg, err).children == acc + DocumentLoop(s, p, [], cfg, err).children
    ensures acc != [] && DocumentLoop(s, p, [], cfg, err).children == [] ==>
      DocumentLoop(s, p, acc, cfg, err) == DocumentResult(acc, Pos(p), err)
    ensures acc == [] || DocumentLoop(s, p, [], cfg, err).children != [] ==>
      && DocumentLoop(s, p, acc, cfg, err).err == DocumentLoop(s, p, [], cfg, err).err
      && DocumentLoop(s, p, acc, cfg, err).p == DocumentLoop(s, p, [], cfg, err).p
    decreases |s| - p
  {
    hide ParseNode, SkipFrom, EncodingAfter;
    if p < |s| && s[p] == '<' {
      var n := ParseNode(s, p, cfg, err);
      var cfg' := cfg.(enc := EncodingAfter(cfg.enc, n.node));
      if n.p.Pos? {
        var q := SkipFrom(s, n.p.i, cfg'.enc);
        DocumentLoopAppends(s, q, acc + [n.node], cfg', n.err);
        DocumentLoopAppends(s, q, [] + [n.node], cfg', n.err);
      }
    }
  }

  // ----- one node out of place is enough -----

  lemma SimpleIsLaidOut(n: Node)
    requires !LaidOut(n, true)
    ensures n.Element? && n.children != [] && !IsSimple(n.children) && Misplaced(n.children, 0)
  {
  }

  predicate Misplaced(nodes: seq<Node>, i: nat) {
    exists k | i <= k < |nodes| :: IsPlainText(nodes[k]) || !LaidOut(nodes[k], true)
  }

  lemma GapIsNotEmpty(t: Bytes, k: nat)
    requires k > 0
    ensures |Repeat(t, k)| >= |t|
  {
  }

  /** Another node stands where `nodes[i]` should. */
  lemma Displaced(s: CString, p: nat, nodes: seq<Node>, i: nat, n: Node, cfg: Config, err: Error)
    requires p <= |s| && i < |nodes| && n != nodes[i]
    ensures ReadValue(s, p, nodes[..i] + [n], cfg, err).children != nodes
  {
    hide ReadValue;
    ReadValueKeeps(s, p, nodes[..i] + [n], cfg, err);
    assert (nodes[..i] + [n])[i] == n;
  }

  lemma TextDisplaced(s: CString, p: nat, w: Bytes, nodes: seq<Node>, i: nat, depth: nat, st: Style, name: Bytes,
                      cfg: Config, err: Error)
    requires i < |nodes| && IsPlainText(nodes[i]) && Has(s, p, w + Tail(nodes, i, depth, st, name)) && w != []
    requires IsBlank(w)
    requires NotAdjacent(nodes) && NodeOk(nodes[i], cfg) && StyleOk(st) && !cfg.condense
    ensures p <= |s| && ReadValue(s, p, nodes[..i], cfg, err).children != nodes
  {
    hide Has, ReadValue, EncodeFrom, PlainTextOk, Core, Gap, Tail, NotAdjacent, NodeOk, IsBlank;
    PlainNode(nodes[i], depth + 1, st, cfg);
    TailStep(nodes, i, depth, st, name);
    NextIsTag(nodes, i, depth, st, name);
    GapBlank(nodes, i, depth, st, cfg);
    var v := nodes[i].value;
    var e, gap, tail := EncodeFrom(v, 0), Gap(nodes, i, depth, st), Tail(nodes, i + 1, depth, st, name);
    CutAfterTag(e, gap, tail);
    assert w + (e + (gap + "<") + tail[1..]) == w + (e + (gap + "<")) + tail[1..];
    HasConcat(s, p, w + (e + (gap + "<")), tail[1..]);
    TextBetweenBlanks(s, p, w, v, gap, nodes[..i], cfg, err);
    assert |w + v + gap| > |v|;
    Displaced(s, p + |w| + |e| + |gap|, nodes, i, Text(w + v + gap, false), cfg, err);
  }

  /** Reading the printed children does not give these children if one of them is misplaced. */
  lemma {:induction false} ChildrenDiffer(s: CString, p: nat, w: Bytes, nodes: seq<Node>, i: nat, depth: nat, st: Style,
                                          name: Bytes, cfg: Config, err: Error)
    requires i <= |nodes| && Has(s, p, w + Tail(nodes, i, depth, st, name)) && w != [] && IsBlank(w)
    requires StyleOk(st) && Loose(st, cfg) && Misplaced(nodes, i)
    requires NotAdjacent(nodes) && forall k | 0 <= k < |nodes| :: NodeOk(nodes[k], cfg)
    ensures p <= |s| && ReadValue(s, p, nodes[..i], cfg, err).children != nodes
    decreases nodes, |nodes| - i, 0
  {
    hide Has, ReadValue, Core, Gap, EndTag, NodeOk, StyleOk, ParseNode, Matches, LaidOut, IsBlank, Tail;
    var c, gap, tail := Core(nodes[i], depth + 1, st), Gap(nodes, i, depth, st), Tail(nodes, i + 1, depth, st, name);
    TailStep(nodes, i, depth, st, name);
    HasConcat(s, p, w, c + (gap + tail));
    HasConcat(s, p + |w|, c, gap + tail);
    if IsPlainText(nodes[i]) {
      TextDisplaced(s, p, w, nodes, i, depth, st, name, cfg, err);
    } else if !LaidOut(nodes[i], true) {
      NodeDiffers(s, p + |w|, nodes[i], depth + 1, st, cfg, err);
      StepToNode(s, p, w, nodes[..i], cfg, err);
      ReadValueDisplaced(s, p, p + |w|, nodes, i, cfg, err);
    } else {
      NodeReads(s, p + |w|, nodes[i], depth + 1, st, cfg, err);
      StepToNode(s, p, w, nodes[..i], cfg, err);
      assert nodes[..i] + [nodes[i]] == nodes[..i + 1];
      GapBlank(nodes, i, depth, st, cfg);
      GapLoose(nodes, i, depth, st, cfg);
      ChildrenDiffer(s, p + |w| + |c|, gap, nodes, i + 1, depth, st, name, cfg, err);
    }
  }

  lemma GapLoose(nodes: seq<Node>, i: nat, depth: nat, st: Style, cfg: Config)
    requires Loose(st, cfg) && i + 1 < |nodes|
    ensures Gap(nodes, i, depth, st) != []
  {
    GapIsNotEmpty(st.indent, depth + 1);
  }

  /** After white space a tag starts a node. */
  lemma StepToNode(s: CString, p: nat, w: Bytes, acc: seq<Node>, cfg: Config, err: Error)
    requires Has(s, p, w) && IsBlank(w)
    requires p + |w| < |s| && s[p + |w|] == '<' && !Matches(s, p + |w|, "</", false)
    ensures var n := ParseNode(s, p + |w|, cfg, err);
      ReadValue(s, p, acc, cfg, err) ==
        if n.p.Null? then ChildrenResult(acc + [n.node], Null, Raise(n.err, ReadingElementValue))
        else if n.p.Wild? then ChildrenResult(acc + [n.node], Wild, n.err)
        else ReadValue(s, n.p.i, acc + [n.node], cfg, n.err)
  {
    hide ParseNode, SkipFrom, Matches;
    SkipBlank(s, p, w, cfg.enc);
    SkipNone(s, p + |w|, cfg.enc);
  }

  lemma ReadValueDisplaced(s: CString, p: nat, q: nat, nodes: seq<Node>, i: nat, cfg: Config, err: Error)
    requires p <= |s| && q < |s| && s[q] == '<' && i < |nodes| && ParseNode(s, q, cfg, err).node != nodes[i]
    requires var n := ParseNode(s, q, cfg, err);
      ReadValue(s, p, nodes[..i], cfg, err) ==
        if n.p.Null? then ChildrenResult(nodes[..i] + [n.node], Null, Raise(n.err, ReadingElementValue))
        else if n.p.Wild? then ChildrenResult(nodes[..i] + [n.node], Wild, n.err)
        else ReadValue(s, n.p.i, nodes[..i] + [n.node], cfg, n.err)
    ensures ReadValue(s, p, nodes[..i], cfg, err).children != nodes
  {
    hide ParseNode, ReadValue;
    var n := ParseNode(s, q, cfg, err);
    assert (nodes[..i] + [n.node])[i] == n.node;
    if n.p.Pos? { Displaced(s, n.p.i, nodes, i, n.node, cfg, n.err); }
  }

  /** An element that is not laid out is parsed to something else. */
  lemma {:induction false} NodeDiffers(s: CString, p: nat, n: Node, depth: nat, st: Style, cfg: Config, err: Error)
    requires NodeOk(n, cfg) && !LaidOut(n, true) && StyleOk(st) && Loose(st, cfg) && Has(s, p, Core(n, depth, st))
    ensures p < |s| && s[p] == '<' && !Matches(s, p, "</", false) && ParseNode(s, p, cfg, err).node != n
    decreases n, 0, 1
  {
    hide ParseNode, Matches, Has, StyleOk, Core, PrintAttributes, EncodeFrom, Tail, EndTag, NameOk, AttributesOk,
         ParseContent, AttributeLoop, ReadValue, Repeat, IsBlank;
    var name, attributes, children := n.name, n.attributes, n.children;
    SimpleIsLaidOut(n);
    NameHasNoNul(name, cfg.enc);
    ElementCore(name, attributes, children, depth, st);
    var q := p + 1 + |name| + |PrintAttributes(attributes, 0)|;
    var w, tail := st.lineBreak + Repeat(st.indent, depth + 1), Tail(children, 0, depth, st, name);
    ElementStart(s, p, name, attributes, ">" + (w + tail), cfg, err);
    HasConcat(s, q, ">", w + tail);
    ElementOpened(s, q, name, attributes, cfg, err);
    LeadBlank(depth, st, cfg);
    GapIsNotEmpty(st.indent, depth + 1);
    ChildrenDiffer(s, q + 1, w, children, 0, depth, st, name, cfg, err);
    assert children[..0] == [];
    ContentIs(s, q + 1, name, attributes, cfg, err);
  }

  lemma ContentIs(s: CString, p: nat, name: Bytes, attributes: seq<Attribute>, cfg: Config, err: Error)
    requires p <= |s|
    ensures ParseContent(s, p, name, attributes, cfg, err).node
         == Element(name, attributes, ReadValue(s, p, [], cfg, err).children)
  {
    hide ReadValue;
  }

  // ----- documents -----

  lemma {:induction false} LaidOutTight(n: Node)
    ensures LaidOut(n, false)
  {
    if n.Element? {
      forall k | 0 <= k < |n.children| ensures LaidOut(n.children[k], false) { LaidOutTight(n.children[k]); }
    }
  }

  lemma {:induction false} TopLevelDiffers(s: CString, p: nat, nodes: seq<Node>, i: nat, st: Style, cfg: Config)
    requires i <= |nodes| && Has(s, p, PrintFrom(nodes, i, 0, st))
    requires DocumentOk(nodes, i, cfg) && StyleOk(st) && Loose(st, cfg)
    requires exists k | i <= k < |nodes| :: !LaidOut(nodes[k], true)
    ensures p < |s| && s[p] == '<' && DocumentLoop(s, p, nodes[..i], cfg, NoError).children != nodes
    decreases |nodes| - i
  {
    hide Core, PrintFrom, Has, DocumentLoop, ParseNode, NodeOk, Matches, EncodingAfter, SkipFrom, LaidOut, IsBlank;
    var c, rest := Core(nodes[i], 0, st), PrintFrom(nodes, i + 1, 0, st);
    PrintTopLevel(nodes, i, st);
    HasConcat(s, p, c, st.lineBreak + rest);
    HasConcat(s, p + |c|, st.lineBreak, rest);
    var cfg' := cfg.(enc := EncodingAfter(cfg.enc, nodes[i]));
    if !LaidOut(nodes[i], true) {
      NodeDiffers(s, p, nodes[i], 0, st, cfg, NoError);
      DocumentDisplaced(s, p, nodes, i, cfg);
    } else {
      NodeReads(s, p, nodes[i], 0, st, cfg, NoError);
      DocumentStep(s, p, nodes[i], p + |c|, nodes[..i], cfg, NoError);
      assert nodes[..i] + [nodes[i]] == nodes[..i + 1];
      SkipBlank(s, p + |c|, st.lineBreak, cfg'.enc);
      TopLevelDiffers(s, p + |c| + |st.lineBreak|, nodes, i + 1, st, cfg');
      SkipNone(s, p + |c| + |st.lineBreak|, cfg'.enc);
    }
  }

  lemma DocumentDisplaced(s: CString, p: nat, nodes: seq<Node>, i: nat, cfg: Config)
    requires p < |s| && s[p] == '<' && i < |nodes| && ParseNode(s, p, cfg, NoError).node != nodes[i]
    ensures DocumentLoop(s, p, nodes[..i], cfg, NoError).children != nodes
  {
    hide ParseNode, SkipFrom, EncodingAfter;
    var n := ParseNode(s, p, cfg, NoError);
    var cfg' := cfg.(enc := EncodingAfter(cfg.enc, n.node));
    assert (nodes[..i] + [n.node])[i] == n.node;
    if n.p.Pos? { DocumentLoopKeeps(s, SkipFrom(s, n.p.i, cfg'.enc), nodes[..i] + [n.node], cfg', n.err); }
  }

  /** Printed with white space and parsed, a document gives back exactly its nodes and no error
      if and only if white space is condensed, or none is printed, or no plain text has other
      children beside it. */
  lemma DocumentRoundTripIff(nodes: seq<Node>, st: Style, cfg: Config)
    requires nodes != [] && DocumentOk(nodes, 0, cfg) && StyleOk(st)
    ensures '\0' !in PrintFrom(nodes, 0, 0, st)
    ensures var s: CString := PrintFrom(nodes, 0, 0, st);
      ParseDocument(s, cfg) == DocumentResult(nodes, if st.lineBreak == [] then Null else Pos(|s|), NoError)
      <==> (Loose(st, cfg) ==> forall k | 0 <= k < |nodes| :: LaidOut(nodes[k], true))
  {
    hide PrintFrom, DocumentLoop, DocumentOk, StyleOk, SkipFrom, LaidOut, Loose;
    PrintedIsCString(nodes, 0, st, cfg);
    if Loose(st, cfg) && exists k | 0 <= k < |nodes| :: !LaidOut(nodes[k], true) {
      var s: CString := PrintFrom(nodes, 0, 0, st);
      assert Has(s, 0, s);
      assert nodes[..0] == [];
      TopLevelDiffers(s, 0, nodes, 0, st, cfg);
      SkipNone(s, 0, cfg.enc);
      HasMeans(s, 0, ByteOrderMark(), 0);
    } else {
      forall k | 0 <= k < |nodes| ensures LaidOut(nodes[k], Loose(st, cfg)) { LaidOutTight(nodes[k]); }
      DocumentRoundTrip(nodes, st, cfg);
    }
  }
}
