/**
 `TiXmlPrinter` as a visitor of the nodes on the heap: it goes from child to child by the sibling
 links and from attribute to attribute around the ring, and builds the text of the tree.
 */
module Visiting {
  import opened CStrings
  import opened Entities
  import opened Trees
  import opened Parser
  import opened Printing
  import opened Attributes
  import opened Dom

  // ----- the text of a tree on the heap -----

  predicate OnlyText(ts: seq<Tree>) {
    |ts| == 1 && ts[0].payload == TextData(false)
  }

  /** A text, comment, unknown node or declaration; nothing below it is printed. */
  function LeafNode(t: Tree): Node
    requires !t.payload.DocumentData? && !t.payload.ElementData?
  {
    match t.payload
    case TextData(cdata) => Text(t.value, cdata)
    case CommentData => Comment(t.value)
    case UnknownData => Unknown(t.value)
    case DeclarationData(v, e, s) => Declaration(v, e, s)
  }

  /** The text of a node without the indentation before it and the line break after it. */
  function TreeCore(t: Tree, depth: nat, st: Style): Bytes
    requires !t.payload.DocumentData?
    decreases t, 0
  {
    if !t.payload.ElementData? then Core(LeafNode(t), depth, st)
    else
      var start := "<" + CStr(t.value) + PrintAttributes(t.payload.attributes, 0);
      if t.children == [] then start + " />"
      else if OnlyText(t.children) then start + ">" + EncodeFrom(t.children[0].value, 0) + EndTag(CStr(t.value))
      else
        start + ">" + st.lineBreak + PrintTrees(t.children, 0, depth + 1, st)
        + Repeat(st.indent, depth) + EndTag(CStr(t.value))
  }

  /** The text of a node on its own lines; a document, wherever it stands, is the text of its
      children. */
  function PrintTree(t: Tree, depth: nat, st: Style): Bytes
    decreases t, 1
  {
    if t.payload.DocumentData? then PrintTrees(t.children, 0, depth, st)
    else Repeat(st.indent, depth) + TreeCore(t, depth, st) + st.lineBreak
  }

  function PrintTrees(ts: seq<Tree>, i: nat, depth: nat, st: Style): Bytes
    requires i <= |ts|
    decreases ts, |ts| - i
  {
    if i == |ts| then [] else PrintTree(ts[i], depth, st) + PrintTrees(ts, i + 1, depth, st)
  }

  /** What visiting a node appends; plain text alone in its element stands on its own. */
  function Visited(t: Tree, depth: nat, simple: bool, st: Style): Bytes {
    if simple && t.payload == TextData(false) then EncodeFrom(t.value, 0) else PrintTree(t, depth, st)
  }

  /** What visiting the children from the `i`th on appends. */
  function Remaining(ts: seq<Tree>, i: nat, depth: nat, simple: bool, st: Style): Bytes
    requires i <= |ts| && (simple ==> OnlyText(ts))
  {
    if !simple then PrintTrees(ts, i, depth, st) else if i == 0 then EncodeFrom(ts[0].value, 0) else []
  }

  lemma RemainingStep(ts: seq<Tree>, i: nat, depth: nat, simple: bool, st: Style)
    requires i < |ts| && (simple ==> OnlyText(ts))
    ensures Remaining(ts, i, depth, simple, st)
         == Visited(ts[i], depth, simple, st) + Remaining(ts, i + 1, depth, simple, st)
  {
  }

  function StartOf(t: Tree, depth: nat, st: Style): Bytes
    requires t.payload.ElementData?
  {
    Repeat(st.indent, depth) + "<" + CStr(t.value) + PrintAttributes(t.payload.attributes, 0)
  }

  /** What `VisitEnter` appends. */
  function Opening(t: Tree, depth: nat, st: Style): Bytes
    requires t.payload.ElementData?
  {
    StartOf(t, depth, st)
    + if t.children == [] then " />" + st.lineBreak else if OnlyText(t.children) then ">" else ">" + st.lineBreak
  }

  /** What `VisitExit` appends. */
  function Closing(t: Tree, depth: nat, simple: bool, st: Style): Bytes {
    if t.children == [] then []
    else (if simple then [] else Repeat(st.indent, depth)) + EndTag(CStr(t.value)) + st.lineBreak
  }

  /** Entering, visiting and leaving an element makes the text of the element. */
  lemma ElementParts(t: Tree, depth: nat, st: Style)
    requires t.payload.ElementData?
    ensures var simple := OnlyText(t.children);
      Opening(t, depth, st) + Remaining(t.children, 0, depth + 1, simple, st) + Closing(t, depth, simple, st)
      == PrintTree(t, depth, st)
  {
    hide Repeat, CStr, PrintAttributes, EncodeFrom, PrintTrees;
    var c, i := TreeCore(t, depth, st), Repeat(st.indent, depth);
    var lb, end := st.lineBreak, EndTag(CStr(t.value));
    var start := "<" + CStr(t.value) + PrintAttributes(t.payload.attributes, 0);
    assert Opening(t, depth, st)
        == i + start + (if t.children == [] then " />" + lb else if OnlyText(t.children) then ">" else ">" + lb);
    if t.children == [] {
      NoTrees(t.children, depth + 1, st);
      assert i + start + (" />" + lb) + [] + [] == i + c + lb;
    } else if OnlyText(t.children) {
      var e := EncodeFrom(t.children[0].value, 0);
      assert i + start + ">" + e + ([] + end + lb) == i + c + lb;
    } else {
      var body := PrintTrees(t.children, 0, depth + 1, st);
      assert i + start + (">" + lb) + body + (i + end + lb) == i + c + lb;
    }
  }

  lemma NoTrees(ts: seq<Tree>, depth: nat, st: Style)
    requires ts == []
    ensures PrintTrees(ts, 0, depth, st) == []
  {
  }

  lemma Joins(a: Bytes, b: Bytes, c: Bytes, d: Bytes)
    ensures a + b + c + d == a + (b + c + d)
  {
  }

  class Printer {
    var depth: nat
    var simpleTextPrint: bool
    var buffer: Bytes
    var indent: Bytes
    var lineBreak: Bytes

    constructor ()
      ensures depth == 0 && !simpleTextPrint && buffer == [] && indent == "    " && lineBreak == "\n"
    {
      depth, simpleTextPrint, buffer, indent, lineBreak := 0, false, [], "    ", "\n";
    }

    function GetStyle(): Style
      reads this
    {
      Style(indent, lineBreak)
    }

    method SetStreamPrinting()
      modifies this`indent, this`lineBreak
      ensures GetStyle() == Style([], [])
    {
      indent, lineBreak := [], [];
    }

    method DoIndent()
      modifies this`buffer
      ensures buffer == old(buffer) + Repeat(indent, depth)
    {
      var i := 0;
      while i < depth
        invariant i <= depth && buffer == old(buffer) + Repeat(indent, i)
      {
        buffer := buffer + indent;
        i := i + 1;
      }
    }

    method DoLineBreak()
      modifies this`buffer
      ensures buffer == old(buffer) + lineBreak
    {
      buffer := buffer + lineBreak;
    }

    method AppendAttribute(a: Attribute)
      modifies this`buffer
      ensures buffer == old(buffer) + PrintAttribute(a)
    {
      hide EncodeFrom;
      var n := EncodeString(a.name, []);
      var v := EncodeString(a.value, []);
      assert n == EncodeFrom(a.name, 0) && v == EncodeFrom(a.value, 0);
      var q := if '\"' !in a.value then '\"' else '\'';
      buffer := buffer + (n + "=" + [q] + v + [q]);
    }

    /** The loop of `VisitEnter` over the attributes, from `First` by `Next`. */
    method AppendAttributes(attributeSet: AttributeSet)
      requires attributeSet.Valid()
      modifies this`buffer
      ensures buffer == old(buffer) + PrintAttributes(attributeSet.Model(), 0)
    {
      hide PrintAttribute, AttributeSet.Valid, AttributeSet.Model, EnumeratedCount, PrintAttributes;
      ghost var attributes := attributeSet.Model();
      ghost var n := EnumeratedCount(attributes);
      StopsThere(attributes, 0);
      attributeSet.FirstIs();
      var attrib := attributeSet.First();
      ghost var i := 0;
      while attrib != null
        invariant i <= n && attrib == if i < n then attributeSet.nodes[i] else null
        invariant buffer + PrintAttributes(attributes, i) == old(buffer) + PrintAttributes(attributes, 0)
        decreases n - i
      {
        ghost var before := buffer;
        attributeSet.Step(i);
        StopsThere(attributes, i);
        buffer := buffer + " ";
        AppendAttribute(Attribute(attrib.name, attrib.value));
        assert buffer == before + (" " + PrintAttribute(attributes[i]));
        Associates(before, " " + PrintAttribute(attributes[i]), PrintAttributes(attributes, i + 1));
        attrib := attrib.Next();
        i := i + 1;
      }
      StopsThere(attributes, i);
      assert buffer + [] == buffer;
    }

    /** The start of a tag up to its attributes. */
    method AppendStart(element: XmlNode)
      requires element.Valid() && element.kind.ElementNode? && this !in element.Repr
      modifies this`buffer
      ensures buffer == old(buffer) + StartOf(element.Content(), depth, GetStyle())
    {
      hide XmlNode.Valid, XmlNode.Content, XmlNode.ChildTrees, PrintAttributes, CStr, Repeat, AttributeSet.Valid,
           AttributeSet.Model;
      ghost var before, t := buffer, element.Content();
      element.ContentIs();
      element.AttributesOwned();
      DoIndent();
      buffer := buffer + "<";
      buffer := buffer + CStr(element.value);
      AppendAttributes(element.attributeSet);
      Joins(before, Repeat(indent, depth), "<", CStr(element.value));
      Associates(before, Repeat(indent, depth) + "<" + CStr(element.value), PrintAttributes(t.payload.attributes, 0));
      element.Untouched();
    }

    /** `VisitEnter` on an element. */
    method VisitEnter(element: XmlNode)
      requires element.Valid() && element.kind.ElementNode? && this !in element.Repr
      modifies this`buffer, this`simpleTextPrint, this`depth
      ensures depth == old(depth) + 1
      ensures simpleTextPrint == (old(simpleTextPrint) || OnlyText(element.Content().children))
      ensures buffer == old(buffer) + Opening(element.Content(), old(depth), GetStyle())
    {
      hide XmlNode.Valid, XmlNode.Content, XmlNode.ChildTrees, OnlyText, StartOf;
      element.ContentIs();
      ghost var before, t, start := buffer, element.Content(), StartOf(element.Content(), depth, GetStyle());
      EndChildren(element);
      AppendStart(element);
      if element.firstChild == null {
        buffer := buffer + " />";
        DoLineBreak();
        Joins(before, start, " />", lineBreak);
        Associates(start, " />", lineBreak);
      } else {
        buffer := buffer + ">";
        if element.firstChild.kind.TextNode? && element.lastChild == element.firstChild && !element.firstChild.cdata {
          simpleTextPrint := true;
          Associates(before, start, ">");
        } else {
          DoLineBreak();
          Joins(before, start, ">", lineBreak);
          Associates(start, ">", lineBreak);
        }
      }
      depth := depth + 1;
      element.Untouched();
    }

    /** `VisitExit` from an element. */
    method VisitExit(element: XmlNode)
      requires element.Valid() && this !in element.Repr && depth > 0
      modifies this`buffer, this`simpleTextPrint, this`depth
      ensures depth == old(depth) - 1
      ensures simpleTextPrint == (old(simpleTextPrint) && element.Content().children == [])
      ensures buffer == old(buffer) + Closing(element.Content(), depth, old(simpleTextPrint), GetStyle())
    {
      hide XmlNode.Valid, XmlNode.Content, XmlNode.ChildTrees, Repeat, CStr;
      element.ContentIs();
      EndChildren(element);
      depth := depth - 1;
      if element.firstChild == null {
        assert buffer + [] == buffer;
      } else {
        ghost var start := buffer;
        ghost var lead := if simpleTextPrint then [] else Repeat(indent, depth);
        if simpleTextPrint {
          simpleTextPrint := false;
        } else {
          DoIndent();
        }
        assert buffer == start + lead;
        buffer := buffer + "</";
        buffer := buffer + CStr(element.value);
        buffer := buffer + ">";
        Joins(start + lead, "</", CStr(element.value), ">");
        DoLineBreak();
        Joins(start, lead, EndTag(CStr(element.value)), lineBreak);
      }
      element.Untouched();
    }

    method VisitText(text: XmlNode)
      requires text.kind.TextNode? && text.Valid() && this !in text.Repr
      modifies this`buffer
      ensures buffer == old(buffer) + Visited(text.Content(), depth, simpleTextPrint, GetStyle())
    {
      hide XmlNode.Valid, XmlNode.Content, XmlNode.ChildTrees, Repeat, CStr, EncodeFrom;
      text.ContentIs();
      ghost var t, st := text.Content(), GetStyle();
      assert LeafNode(t) == Text(text.value, text.cdata);
      if text.cdata {
        DoIndent();
        ghost var start := buffer;
        assert TreeCore(t, depth, st) == CDATA_OPEN + CStr(text.value) + CDATA_CLOSE;
        buffer := buffer + CDATA_OPEN;
        buffer := buffer + CStr(text.value);
        buffer := buffer + CDATA_CLOSE;
        Joins(start, CDATA_OPEN, CStr(text.value), CDATA_CLOSE);
        DoLineBreak();
        Joins(old(buffer), Repeat(indent, depth), CDATA_OPEN + CStr(text.value) + CDATA_CLOSE, lineBreak);
      } else if simpleTextPrint {
        var str := EncodeString(text.value, []);
        buffer := buffer + str;
        assert str == EncodeFrom(text.value, 0);
      } else {
        DoIndent();
        var str := EncodeString(text.value, []);
        assert str == EncodeFrom(text.value, 0);
        assert TreeCore(t, depth, st) == str;
        buffer := buffer + str;
        DoLineBreak();
        Joins(old(buffer), Repeat(indent, depth), str, lineBreak);
      }
      text.Untouched();
    }

    method VisitDeclaration(declaration: XmlNode)
      requires declaration.kind.DeclarationNode? && declaration.Valid() && this !in declaration.Repr
      modifies this`buffer
      ensures buffer == old(buffer) + PrintTree(declaration.Content(), depth, GetStyle())
    {
      hide XmlNode.Valid, XmlNode.Content, XmlNode.ChildTrees, Repeat;
      declaration.ContentIs();
      ghost var t := declaration.Content();
      assert LeafNode(t) == Declaration(declaration.version, declaration.encoding, declaration.standalone);
      DoIndent();
      var str := XML_OPEN + " ";
      str := str + PrintField(VERSION, declaration.version);
      str := str + PrintField(ENCODING, declaration.encoding);
      str := str + PrintField(STANDALONE, declaration.standalone);
      str := str + "?>";
      assert TreeCore(t, depth, GetStyle()) == str;
      buffer := buffer + str;
      DoLineBreak();
      Joins(old(buffer), Repeat(indent, depth), str, lineBreak);
      declaration.Untouched();
    }

    method VisitComment(comment: XmlNode)
      requires comment.kind.CommentNode? && comment.Valid() && this !in comment.Repr
      modifies this`buffer
      ensures buffer == old(buffer) + PrintTree(comment.Content(), depth, GetStyle())
    {
      hide XmlNode.Valid, XmlNode.Content, XmlNode.ChildTrees, Repeat, CStr;
      comment.ContentIs();
      ghost var t := comment.Content();
      assert LeafNode(t) == Comment(comment.value);
      DoIndent();
      ghost var start := buffer;
      assert TreeCore(t, depth, GetStyle()) == COMMENT_OPEN + CStr(comment.value) + COMMENT_CLOSE;
      buffer := buffer + COMMENT_OPEN;
      buffer := buffer + CStr(comment.value);
      buffer := buffer + COMMENT_CLOSE;
      Joins(start, COMMENT_OPEN, CStr(comment.value), COMMENT_CLOSE);
      DoLineBreak();
      Joins(old(buffer), Repeat(indent, depth), COMMENT_OPEN + CStr(comment.value) + COMMENT_CLOSE, lineBreak);
      comment.Untouched();
    }

    method VisitUnknown(unknown: XmlNode)
      requires unknown.kind.UnknownNode? && unknown.Valid() && this !in unknown.Repr
      modifies this`buffer
      ensures buffer == old(buffer) + PrintTree(unknown.Content(), depth, GetStyle())
    {
      hide XmlNode.Valid, XmlNode.Content, XmlNode.ChildTrees, Repeat, CStr;
      unknown.ContentIs();
      ghost var t := unknown.Content();
      assert LeafNode(t) == Unknown(unknown.value);
      DoIndent();
      ghost var start := buffer;
      assert TreeCore(t, depth, GetStyle()) == "<" + CStr(unknown.value) + ">";
      buffer := buffer + "<";
      buffer := buffer + CStr(unknown.value);
      buffer := buffer + ">";
      Joins(start, "<", CStr(unknown.value), ">");
      DoLineBreak();
      Joins(old(buffer), Repeat(indent, depth), "<" + CStr(unknown.value) + ">", lineBreak);
      unknown.Untouched();
    }

    /** `Accept`: visit a node and, between entering and leaving an element or a document, its
        children. */
    method Accept(node: XmlNode)
      requires node.Valid() && this !in node.Repr
      requires simpleTextPrint ==> node.Content().payload == TextData(false)
      modifies this`buffer, this`simpleTextPrint, this`depth
      ensures depth == old(depth) && simpleTextPrint == old(simpleTextPrint)
      ensures buffer == old(buffer) + Visited(node.Content(), depth, simpleTextPrint, GetStyle())
      decreases node.Repr, 1
    {
      hide XmlNode.Valid, XmlNode.Content, XmlNode.ChildTrees, PrintTrees, TreeCore;
      node.ContentIs();
      match node.kind {
        case DocumentNode => VisitChildren(node);
        case ElementNode =>
          ghost var t, st := node.Content(), GetStyle();
          VisitEnter(node);
          node.Untouched();
          VisitChildren(node);
          node.Untouched();
          VisitExit(node);
          Joins(old(buffer), Opening(t, depth, st), Remaining(t.children, 0, depth + 1, OnlyText(t.children), st),
                Closing(t, depth, OnlyText(t.children), st));
          ElementParts(t, depth, st);
        case TextNode => VisitText(node);
        case CommentNode => VisitComment(node);
        case UnknownNode => VisitUnknown(node);
        case DeclarationNode => VisitDeclaration(node);
      }
      node.Untouched();
    }

    /** The loop of `Accept` over the children. */
    method VisitChildren(node: XmlNode)
      requires node.Valid() && this !in node.Repr
      requires simpleTextPrint ==> OnlyText(node.Content().children)
      modifies this`buffer, this`simpleTextPrint, this`depth
      ensures depth == old(depth) && simpleTextPrint == old(simpleTextPrint)
      ensures buffer == old(buffer) + Remaining(node.Content().children, 0, depth, simpleTextPrint, GetStyle())
      decreases node.Repr, 0
    {
      hide XmlNode.Valid, XmlNode.Content, XmlNode.ChildTrees, Remaining, Visited;
      node.ContentIs();
      EndChildren(node);
      ghost var ts, st, simple := node.Content().children, GetStyle(), simpleTextPrint;
      var child := node.firstChild;
      ghost var i := 0;
      while child != null
        invariant i <= |node.children| == |ts| && child == if i < |node.children| then node.children[i] else null
        invariant forall o | o in old(node.Repr) :: unchanged(o)
        invariant node.Valid() && node.ChildTrees(|node.children|) == ts
        invariant depth == old(depth) && simpleTextPrint == simple
        invariant buffer + Remaining(ts, i, depth, simple, st) == old(buffer) + Remaining(ts, 0, depth, simple, st)
        decreases |ts| - i
      {
        ghost var before := buffer;
        node.ChildAt(i);
        RemainingStep(ts, i, depth, simple, st);
        assert simple ==> ts[i].payload == TextData(false);
        Accept(child);
        node.Untouched();
        node.ChildAt(i);
        Associates(before, Visited(ts[i], depth, simple, st), Remaining(ts, i + 1, depth, simple, st));
        child := child.next;
        i := i + 1;
      }
      NoneRemain(ts, depth, simple, st);
      assert buffer + [] == buffer;
    }
  }

  lemma NoneRemain(ts: seq<Tree>, depth: nat, simple: bool, st: Style)
    requires simple ==> OnlyText(ts)
    ensures Remaining(ts, |ts|, depth, simple, st) == []
  {
  }

  /** Enumerating attributes and printing them stop in the same place. */
  lemma StopsThere(attributes: seq<Attribute>, i: nat)
    requires i <= EnumeratedCount(attributes)
    ensures PrintAttributes(attributes, i)
         == if i == EnumeratedCount(attributes) then []
            else " " + PrintAttribute(attributes[i]) + PrintAttributes(attributes, i + 1)
  {
    hide PrintAttribute;
  }

  /** The first and last child, as the printer looks at them. */
  lemma EndChildren(node: XmlNode)
    requires node.Valid()
    ensures node.firstChild == if node.children == [] then null else node.children[0]
    ensures |node.Content().children| == |node.children|
    ensures node.firstChild == null ==> !OnlyText(node.Content().children)
    ensures node.firstChild != null ==>
      (OnlyText(node.Content().children)
       <==> node.firstChild.kind.TextNode? && node.lastChild == node.firstChild && !node.firstChild.cdata)
  {
    hide XmlNode.Valid, XmlNode.Content, XmlNode.ChildTrees;
    node.EndsAre();
    node.ContentIs();
    if node.firstChild != null {
      node.ChildAt(0);
      node.children[0].ContentIs();
    }
  }
}
