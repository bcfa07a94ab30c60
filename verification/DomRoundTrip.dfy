/**
 The round trip for the document object model: a tree on the heap, printed by the visitor, is
 parsed back to the same tree.
 */
module DomRoundTrip {
  import opened CStrings
  import opened Entities
  import opened Trees
  import opened Parser
  import opened Printing
  import opened Dom
  import opened Visiting
  import opened RoundTrip
  import opened Layout

  /** What the parser can build: no document below the root, nothing below a leaf, and no value in
      a declaration besides its fields. */
  predicate IsParsed(t: Tree) {
    match t.payload
    case DocumentData => false
    case ElementData(_) => AllParsed(t.children)
    case DeclarationData(_, _, _) => t.children == [] && t.value == []
    case _ => t.children == []
  }

  predicate AllParsed(ts: seq<Tree>) {
    forall i | 0 <= i < |ts| :: IsParsed(ts[i])
  }

  /** The value that such a tree stands for. */
  function NodeOf(t: Tree): Node
    requires IsParsed(t)
    decreases t, 0
  {
    if t.payload.ElementData? then Element(t.value, t.payload.attributes, NodesOf(t.children)) else LeafNode(t)
  }

  function NodesOf(ts: seq<Tree>): (r: seq<Node>)
    requires AllParsed(ts)
    ensures |r| == |ts| && forall i | 0 <= i < |ts| :: r[i] == NodeOf(ts[i])
    decreases ts
  {
    if ts == [] then []
    else
      var n := |ts| - 1;
      NodesOf(ts[..n]) + [NodeOf(ts[n])]
  }

  function TreeOf(n: Node): Tree
    decreases n, 0
  {
    match n
    case Element(name, attributes, children) => Tree(name, ElementData(attributes), TreesOf(children))
    case Text(v, cdata) => Tree(v, TextData(cdata), [])
    case Comment(v) => Tree(v, CommentData, [])
    case Unknown(v) => Tree(v, UnknownData, [])
    case Declaration(v, e, s) => Tree([], DeclarationData(v, e, s), [])
  }

  function TreesOf(nodes: seq<Node>): (r: seq<Tree>)
    ensures |r| == |nodes| && forall i | 0 <= i < |nodes| :: r[i] == TreeOf(nodes[i])
    decreases nodes
  {
    if nodes == [] then []
    else
      var n := |nodes| - 1;
      TreesOf(nodes[..n]) + [TreeOf(nodes[n])]
  }

  /** Nothing is lost between the two. */
  lemma {:induction false} SameTree(t: Tree)
    requires IsParsed(t)
    ensures TreeOf(NodeOf(t)) == t
    decreases t, 0
  {
    if t.payload.ElementData? { SameTrees(t.children); }
  }

  lemma {:induction false} SameTrees(ts: seq<Tree>)
    requires AllParsed(ts)
    ensures TreesOf(NodesOf(ts)) == ts
    decreases ts
  {
    forall i | 0 <= i < |ts| ensures TreesOf(NodesOf(ts))[i] == ts[i] { SameTree(ts[i]); }
  }

  lemma {:induction false} SameNode(n: Node)
    ensures IsParsed(TreeOf(n)) && NodeOf(TreeOf(n)) == n
    decreases n, 0
  {
    if n.Element? { SameNodes(n.children); }
  }

  lemma {:induction false} SameNodes(nodes: seq<Node>)
    ensures AllParsed(TreesOf(nodes)) && NodesOf(TreesOf(nodes)) == nodes
    decreases nodes
  {
    forall i | 0 <= i < |nodes| ensures IsParsed(TreesOf(nodes)[i]) && NodeOf(TreesOf(nodes)[i]) == nodes[i] {
      SameNode(nodes[i]);
    }
  }

  /** The visitor makes of a tree what the printer's function makes of its value. */
  lemma {:induction false} PrintedAsNode(t: Tree, depth: nat, st: Style)
    requires IsParsed(t)
    ensures PrintTree(t, depth, st) == PrintNode(NodeOf(t), depth, st)
    decreases t, 0
  {
    hide Repeat, PrintAttributes, CStr;
    if t.payload.ElementData? {
      var nodes := NodesOf(t.children);
      assert OnlyText(t.children) <==> IsSimple(nodes) by { if |nodes| == 1 { LeafIsText(t.children[0]); } }
      if OnlyText(t.children) {
        assert Core(nodes[0], depth + 1, st) == EncodeFrom(t.children[0].value, 0);
      }
      PrintedAsNodes(t.children, 0, depth + 1, st);
    }
  }

  lemma LeafIsText(t: Tree)
    requires IsParsed(t)
    ensures t.payload == TextData(false) <==> NodeOf(t).Text? && !NodeOf(t).cdata
    ensures t.payload == TextData(false) ==> NodeOf(t).value == t.value
  {
  }

  lemma {:induction false} PrintedAsNodes(ts: seq<Tree>, i: nat, depth: nat, st: Style)
    requires AllParsed(ts) && i <= |ts|
    ensures PrintTrees(ts, i, depth, st) == PrintFrom(NodesOf(ts), i, depth, st)
    decreases ts, |ts| - i
  {
    hide PrintTree, PrintNode;
    if i < |ts| {
      PrintedAsNode(ts[i], depth, st);
      PrintedAsNodes(ts, i + 1, depth, st);
    }
  }

  /** A document that is printed and parsed again is the same tree, without an error, if and only if
      the printer's white space does not get into its texts. */
  lemma DomRoundTripIff(t: Tree, st: Style, cfg: Config)
    requires t.payload.DocumentData? && t.children != [] && AllParsed(t.children)
    requires DocumentOk(NodesOf(t.children), 0, cfg) && StyleOk(st)
    ensures '\0' !in PrintTree(t, 0, st)
    ensures var s: CString := PrintTree(t, 0, st);
      var r := ParseDocument(s, cfg);
      TreesOf(r.children) == t.children && r.err == NoError && r.p == (if st.lineBreak == [] then Null else Pos(|s|))
      <==> (Loose(st, cfg) ==> forall k | 0 <= k < |t.children| :: LaidOut(NodeOf(t.children[k]), true))
  {
    hide ParseDocument, DocumentOk, StyleOk, LaidOut, Loose, PrintTrees, PrintFrom;
    var nodes := NodesOf(t.children);
    PrintedAsNodes(t.children, 0, 0, st);
    DocumentRoundTripIff(nodes, st, cfg);
    SameTrees(t.children);
    var r := ParseDocument(PrintTree(t, 0, st), cfg);
    SameNodes(r.children);
  }
}
