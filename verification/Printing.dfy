/**
 The text that `TiXmlPrinter` makes of a tree, as a function.
 */
module Printing {
  import opened CStrings
  import opened Entities
  import opened Trees
  import opened Parser

  datatype Style = Style(indent: Bytes, lineBreak: Bytes)

  function Repeat(t: Bytes, k: nat): Bytes {
    if k == 0 then [] else Repeat(t, k - 1) + t
  }

  /** `TiXmlAttribute::Print`: single quotes around a value that holds a double one. */
  function QuoteFor(value: Bytes): Byte {
    if '\"' in value then '\'' else '\"'
  }

  function PrintAttribute(a: Attribute): Bytes {
    EncodeFrom(a.name, 0) + "=" + [QuoteFor(a.value)] + EncodeFrom(a.value, 0) + [QuoteFor(a.value)]
  }

  /** Where going from attribute to attribute stops: at the end, or in front of one, other than
      the first, whose name and value are both empty, which is taken for the sentinel. */
  predicate Stops(attributes: seq<Attribute>, i: nat)
    requires i <= |attributes|
  {
    i == |attributes| || (i > 0 && attributes[i] == Attribute([], []))
  }

  /** The attributes from the `i`th on, each after a space. */
  function PrintAttributes(attributes: seq<Attribute>, i: nat): Bytes
    requires i <= |attributes|
    decreases |attributes| - i
  {
    if Stops(attributes, i) then [] else " " + PrintAttribute(attributes[i]) + PrintAttributes(attributes, i + 1)
  }

  function PrintField(name: Bytes, value: Bytes): Bytes {
    if value == [] then [] else name + "=\"" + value + "\" "
  }

  /** An element whose only child is plain text is printed on one line. */
  predicate IsSimple(children: seq<Node>) {
    |children| == 1 && children[0].Text? && !children[0].cdata
  }

  /** The text of a node without the indentation before it and the line break after it. */
  function Core(n: Node, depth: nat, st: Style): Bytes
    decreases n, 0
  {
    match n
    case Text(v, cdata) => if cdata then CDATA_OPEN + CStr(v) + CDATA_CLOSE else EncodeFrom(v, 0)
    case Comment(v) => COMMENT_OPEN + CStr(v) + COMMENT_CLOSE
    case Unknown(v) => "<" + CStr(v) + ">"
    case Declaration(v, e, s) =>
      XML_OPEN + " " + PrintField(VERSION, v) + PrintField(ENCODING, e) + PrintField(STANDALONE, s) + "?>"
    case Element(name, attributes, children) =>
      var start := "<" + CStr(name) + PrintAttributes(attributes, 0);
      if children == [] then start + " />"
      else if IsSimple(children) then start + ">" + Core(children[0], depth + 1, st) + EndTag(CStr(name))
      else
        start + ">" + st.lineBreak + PrintFrom(children, 0, depth + 1, st)
        + Repeat(st.indent, depth) + EndTag(CStr(name))
  }

  function PrintNode(n: Node, depth: nat, st: Style): Bytes
    decreases n, 1
  {
    Repeat(st.indent, depth) + Core(n, depth, st) + st.lineBreak
  }

  /** The nodes from the `i`th on, each on its own line. */
  function PrintFrom(nodes: seq<Node>, i: nat, depth: nat, st: Style): Bytes
    requires i <= |nodes|
    decreases nodes, |nodes| - i
  {
    if i == |nodes| then [] else PrintNode(nodes[i], depth, st) + PrintFrom(nodes, i + 1, depth, st)
  }
}
