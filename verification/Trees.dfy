/**
 The values a document tree is made of.
 */
module Trees {
  import opened CStrings

  datatype Attribute = Attribute(name: Bytes, value: Bytes)

  datatype Node =
    | Element(name: Bytes, attributes: seq<Attribute>, children: seq<Node>)
    | Text(value: Bytes, cdata: bool)
    | Comment(value: Bytes)
    | Unknown(value: Bytes)
    | Declaration(version: Bytes, encoding: Bytes, standalone: Bytes)

  /** The position of the attribute called `name`, or `|attributes|`. */
  function IndexOf(attributes: seq<Attribute>, name: Bytes): (r: nat)
    ensures r <= |attributes|
    ensures r < |attributes| ==> attributes[r].name == name
    ensures forall k | 0 <= k < r :: attributes[k].name != name
  {
    if attributes == [] || attributes[0].name == name then 0 else 1 + IndexOf(attributes[1..], name)
  }

  /** `SetAttribute`: update the value in place, or append. */
  function SetAttribute(attributes: seq<Attribute>, name: Bytes, value: Bytes): seq<Attribute> {
    var k := IndexOf(attributes, name);
    if k < |attributes| then attributes[k := Attribute(name, value)] else attributes + [Attribute(name, value)]
  }

  predicate DistinctNames(attributes: seq<Attribute>) {
    forall i, j | 0 <= i < j < |attributes| :: attributes[i].name != attributes[j].name
  }
}
