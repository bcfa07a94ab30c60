/**
 `TiXmlAttributeSet`: the attributes of an element in a circular, doubly linked list with
 a sentinel.
 */
module Attributes {
  import opened CStrings
  import opened Trees

  class AttributeNode {
    var name: Bytes
    var value: Bytes
    var prev: AttributeNode?
    var next: AttributeNode?

    constructor (name: Bytes, value: Bytes)
      ensures this.name == name && this.value == value && prev == null && next == null
    {
      this.name, this.value, prev, next := name, value, null, null;
    }

    method SetValue(value: Bytes)
      modifies this`value
      ensures this.value == value
    {
      this.value := value;
    }

    /** The next attribute. The sentinel is recognised by its empty name and value. */
    method Next() returns (r: AttributeNode?)
      requires next != null
      ensures r == if next.value == [] && next.name == [] then null else next
    {
      if next.value == [] && next.name == [] { return null; }
      return next;
    }
  }

  class AttributeSet {
    const sentinel: AttributeNode
    ghost var nodes: seq<AttributeNode>

    ghost function Repr(): set<object>
      reads this
    {
      {this, sentinel} + set n | n in nodes
    }

    /** The node at position `i` of the ring, which the sentinel closes. */
    ghost function RingAt(i: int): AttributeNode
      requires -1 <= i <= |nodes|
      reads this
    {
      if 0 <= i < |nodes| then nodes[i] else sentinel
    }

    ghost predicate IsRing()
      reads this, sentinel, nodes
    {
      && sentinel !in nodes
      && (forall i, j | 0 <= i < j < |nodes| :: nodes[i] != nodes[j])
      && sentinel.next == RingAt(0) && sentinel.prev == RingAt(|nodes| - 1)
      && (forall i {:trigger nodes[i].next} | 0 <= i < |nodes| :: nodes[i].next == RingAt(i + 1))
      && (forall i {:trigger nodes[i].prev} | 0 <= i < |nodes| :: nodes[i].prev == RingAt(i - 1))
    }

    /** The attributes in order. */
    ghost function Model(): (r: seq<Attribute>)
      reads this, nodes
      ensures |r| == |nodes|
    {
      seq(|nodes|, i requires 0 <= i < |nodes| reads this, nodes => Attribute(nodes[i].name, nodes[i].value))
    }

    ghost predicate Valid()
      reads this, sentinel, nodes
    {
      IsRing() && sentinel.name == [] && sentinel.value == [] && DistinctNames(Model())
    }

    constructor ()
      ensures Valid() && Model() == [] && fresh(Repr())
    {
      sentinel := new AttributeNode([], []);
      nodes := [];
      new;
      sentinel.next := sentinel;
      sentinel.prev := sentinel;
    }

    method First() returns (r: AttributeNode?)
      requires Valid()
      ensures r == if nodes == [] then null else nodes[0]
    {
      return if sentinel.next == sentinel then null else sentinel.next;
    }

    method Last() returns (r: AttributeNode?)
      requires Valid()
      ensures r == if nodes == [] then null else nodes[|nodes| - 1]
    {
      return if sentinel.prev == sentinel then null else sentinel.prev;
    }

    method Find(name: Bytes) returns (r: AttributeNode?)
      requires Valid()
      ensures var k := IndexOf(Model(), name); r == if k < |nodes| then nodes[k] else null
    {
      var node := sentinel.next;
      ghost var i := 0;
      while node != sentinel
        invariant 0 <= i <= |nodes| && node == RingAt(i)
        invariant forall j | 0 <= j < i :: Model()[j].name != name
        decreases |nodes| - i
      {
        if node.name == name {
          IndexIs(Model(), name, i);
          return node;
        }
        node, i := node.next, i + 1;
      }
      IndexIs(Model(), name, i);
      return null;
    }

    method Add(a: AttributeNode)
      requires Valid() && a !in nodes && a != sentinel && IndexOf(Model(), a.name) == |nodes|
      modifies this, sentinel, nodes, a`next, a`prev
      ensures Valid() && nodes == old(nodes) + [a]
      ensures Model() == old(Model()) + [Attribute(a.name, a.value)]
    {
      a.next := sentinel;
      a.prev := sentinel.prev;
      sentinel.prev.next := a;
      sentinel.prev := a;
      nodes := nodes + [a];
      assert Model() == old(Model()) + [Attribute(a.name, a.value)];
    }

    method Remove(removeMe: AttributeNode) returns (ghost k: nat)
      requires Valid() && removeMe in nodes
      modifies this, sentinel, nodes
      ensures k < |old(nodes)| && removeMe == old(nodes)[k] && removeMe.next == null && removeMe.prev == null
      ensures Valid() && nodes == old(nodes)[..k] + old(nodes)[k + 1..]
      ensures Model() == old(Model())[..k] + old(Model())[k + 1..]
    {
      var node := sentinel.next;
      k := 0;
      while node != removeMe
        invariant k <= |nodes| && node == RingAt(k)
        invariant forall j | 0 <= j < k :: nodes[j] != removeMe
        decreases |nodes| - k
      {
        node, k := node.next, k + 1;
      }
      Unlink(node, k);
    }

    method Unlink(node: AttributeNode, ghost k: nat)
      requires Valid() && k < |nodes| && node == nodes[k]
      modifies this, sentinel, nodes
      ensures node.next == null && node.prev == null
      ensures Valid() && nodes == old(nodes)[..k] + old(nodes)[k + 1..]
      ensures Model() == old(Model())[..k] + old(Model())[k + 1..]
    {
      ghost var model := Model();
      UnlinkRing(node, k);
      hide IsRing;
      assert Model() == model[..k] + model[k + 1..];
      DistinctWithout(model, k);
    }

    method UnlinkRing(node: AttributeNode, ghost k: nat)
      requires IsRing() && k < |nodes| && node == nodes[k]
      modifies this, sentinel`next, sentinel`prev, nodes
      ensures node.next == null && node.prev == null
      ensures IsRing() && nodes == old(nodes)[..k] + old(nodes)[k + 1..]
      ensures forall n <- old(nodes) :: n.name == old(n.name) && n.value == old(n.value)
    {
      ghost var before := nodes;
      assert node.prev == RingAt(k - 1) && node.next == RingAt(k + 1);
      node.prev.next := node.next;
      node.next.prev := node.prev;
      node.next := null;
      node.prev := null;
      nodes := nodes[..k] + nodes[k + 1..];
      forall i {:trigger nodes[i].next} | 0 <= i < |nodes| ensures nodes[i].next == RingAt(i + 1) {
        if i < k { assert nodes[i] == before[i]; } else { assert nodes[i] == before[i + 1]; }
      }
      forall i {:trigger nodes[i].prev} | 0 <= i < |nodes| ensures nodes[i].prev == RingAt(i - 1) {
        if i < k { assert nodes[i] == before[i]; } else { assert nodes[i] == before[i + 1]; }
      }
    }

    /** `TiXmlElement::SetAttribute` */
    method SetAttribute(name: Bytes, value: Bytes)
      requires Valid()
      modifies this, sentinel, nodes
      ensures Valid() && forall k | |old(nodes)| <= k < |nodes| :: fresh(nodes[k])
      ensures old(nodes) <= nodes
      ensures Model() == Trees.SetAttribute(old(Model()), name, value)
    {
      var node := Find(name);
      if node != null {
        node.SetValue(value);
        assert Model() == Trees.SetAttribute(old(Model()), name, value);
        return;
      }
      var attrib := new AttributeNode(name, value);
      Add(attrib);
    }

    /** `TiXmlElement::RemoveAttribute` */
    method RemoveAttribute(name: Bytes)
      requires Valid()
      modifies this, sentinel, nodes
      ensures Valid() && Repr() <= old(Repr())
      ensures var k := IndexOf(old(Model()), name);
        Model() == if k < |old(Model())| then old(Model())[..k] + old(Model())[k + 1..] else old(Model())
    {
      var node := Find(name);
      if node != null {
        ghost var k := Remove(node);
      }
    }

    /** The loop of the callers that go from `First` by `Next`. */
    method Enumerate() returns (attributes: seq<Attribute>)
      requires Valid()
      ensures attributes == if nodes == [] then [] else Model()[..Enumerated(Model(), 0)]
    {
      attributes := [];
      var a := First();
      ghost var i := 0;
      while a != null
        invariant i <= |nodes| && (a != null ==> i < |nodes| && a == nodes[i])
        invariant attributes == Model()[..i]
        invariant nodes == [] ==> a == null
        invariant a != null ==> Enumerated(Model(), i) == Enumerated(Model(), 0)
        invariant a == null && nodes != [] ==> i == Enumerated(Model(), 0)
        decreases |nodes| - i, a
      {
        attributes := attributes + [Attribute(a.name, a.value)];
        a := a.Next();
        i := i + 1;
      }
    }

    /** The attribute loop of `TiXmlElement::CopyTo`. */
    method CopyTo(target: AttributeSet)
      requires Valid() && target.Valid() && target != this && target.sentinel != sentinel
      requires sentinel !in target.nodes && target.sentinel !in nodes
      requires forall i, j | 0 <= i < |nodes| && 0 <= j < |target.nodes| :: nodes[i] != target.nodes[j]
      modifies target, target.sentinel, target.nodes
      ensures target.Valid() && forall k | |old(target.nodes)| <= k < |target.nodes| :: fresh(target.nodes[k])
      ensures old(target.nodes) <= target.nodes
      ensures target.Model() == CopiesOnto(old(target.Model()), Model(), EnumeratedCount(Model()))
    {
      hide IsRing, Model, DistinctNames, EnumeratedCount, Trees.SetAttribute, IndexOf, CStr;
      var a := First();
      ghost var i := 0;
      assert nodes != [] ==> i < EnumeratedCount(Model());
      while a != null
        invariant unchanged(this, sentinel, nodes)
        invariant a == (if i < EnumeratedCount(Model()) then nodes[i] else null)
        invariant i <= EnumeratedCount(Model())
        invariant target.Valid() && forall k | |old(target.nodes)| <= k < |target.nodes| :: fresh(target.nodes[k])
        invariant old(target.nodes) <= target.nodes
        invariant target.Model() == CopiesOnto(old(target.Model()), Model(), i)
        decreases |nodes| - i
      {
        Step(i);
        target.SetAttribute(CStr(a.name), CStr(a.value));
        assert unchanged(this, sentinel, nodes);
        Step(i);
        a := a.Next();
        i := i + 1;
      }
    }

    /** What `First` finds. */
    lemma FirstIs()
      requires Valid()
      ensures if nodes == [] then EnumeratedCount(Model()) == 0 else EnumeratedCount(Model()) > 0
    {
    }

    /** What `Next` finds at position `i`. */
    lemma Step(i: nat)
      requires Valid() && i < EnumeratedCount(Model())
      ensures Model()[i] == Attribute(nodes[i].name, nodes[i].value) && nodes[i].next != null
      ensures nodes[i].next.value == [] && nodes[i].next.name == [] <==> i + 1 == EnumeratedCount(Model())
      ensures i + 1 < EnumeratedCount(Model()) ==> nodes[i].next == nodes[i + 1]
    {
      assert nodes[i].next == RingAt(i + 1);
      assert i + 1 < |nodes| ==> Model()[i + 1] == Attribute(nodes[i + 1].name, nodes[i + 1].value);
    }
  }

  /** How many attributes `Next` has enumerated when it stops: it takes an attribute whose
      name and value are both empty for the sentinel. */
  function Enumerated(attributes: seq<Attribute>, from: nat): (r: nat)
    requires from < |attributes|
    ensures from < r <= |attributes|
    ensures r < |attributes| ==> attributes[r] == Attribute([], [])
    ensures forall i | from < i < r :: attributes[i] != Attribute([], [])
    decreases |attributes| - from
  {
    if from + 1 == |attributes| || attributes[from + 1] == Attribute([], []) then from + 1
    else Enumerated(attributes, from + 1)
  }

  /** How many attributes `First` and `Next` enumerate. */
  function EnumeratedCount(attributes: seq<Attribute>): (r: nat)
    ensures r <= |attributes| && (attributes != [] ==> r > 0)
  {
    if attributes == [] then 0 else Enumerated(attributes, 0)
  }

  /** The enumeration is complete exactly when no attribute but the first has both an
      empty name and an empty value. */
  lemma EnumerationComplete(attributes: seq<Attribute>)
    ensures EnumeratedCount(attributes) == |attributes|
       <==> forall i | 0 < i < |attributes| :: attributes[i] != Attribute([], [])
  {
    if attributes != [] {
      var k := Enumerated(attributes, 0);
      assert k < |attributes| ==> attributes[k] == Attribute([], []);
    }
  }

  /** The first `n` attributes, set one after the other on a list through `c_str`. */
  function CopiesOnto(base: seq<Attribute>, attributes: seq<Attribute>, n: nat): seq<Attribute>
    requires n <= |attributes|
  {
    if n == 0 then base else
      Trees.SetAttribute(CopiesOnto(base, attributes, n - 1), CStr(attributes[n - 1].name),
                         CStr(attributes[n - 1].value))
  }

  function Copies(attributes: seq<Attribute>, n: nat): seq<Attribute>
    requires n <= |attributes|
  {
    CopiesOnto([], attributes, n)
  }

  predicate HasNoNul(a: Attribute) {
    '\0' !in a.name && '\0' !in a.value
  }

  /** A copy never has more attributes, and none with a NUL. */
  lemma {:induction false} CopiesAreClean(attributes: seq<Attribute>, n: nat)
    requires n <= |attributes|
    ensures |Copies(attributes, n)| <= n
    ensures forall i | 0 <= i < |Copies(attributes, n)| :: HasNoNul(Copies(attributes, n)[i])
  {
    if n > 0 { CopiesAreClean(attributes, n - 1); }
  }

  lemma {:induction false} CopiesOfClean(attributes: seq<Attribute>, n: nat)
    requires n <= |attributes| && DistinctNames(attributes)
    requires forall i | 0 <= i < n :: HasNoNul(attributes[i])
    ensures Copies(attributes, n) == attributes[..n]
  {
    if n > 0 {
      CopiesOfClean(attributes, n - 1);
      assert HasNoNul(attributes[n - 1]);
      IndexIs(attributes[..n - 1], attributes[n - 1].name, n - 1);
    }
  }

  /** Copying the attributes of an element gives back the same list exactly when they have
      no NUL and the enumeration does not stop early. */
  lemma CopyIsExact(attributes: seq<Attribute>)
    requires DistinctNames(attributes)
    ensures Copies(attributes, EnumeratedCount(attributes)) == attributes
       <==> && (forall i | 0 <= i < |attributes| :: HasNoNul(attributes[i]))
            && (forall i | 0 < i < |attributes| :: attributes[i] != Attribute([], []))
  {
    var n := EnumeratedCount(attributes);
    EnumerationComplete(attributes);
    CopiesAreClean(attributes, n);
    if n == |attributes| && forall i | 0 <= i < n :: HasNoNul(attributes[i]) {
      CopiesOfClean(attributes, n);
    }
  }

  lemma DistinctWithout(attributes: seq<Attribute>, k: nat)
    requires DistinctNames(attributes) && k < |attributes|
    ensures DistinctNames(attributes[..k] + attributes[k + 1..])
  {
  }

  lemma {:induction false} IndexIs(attributes: seq<Attribute>, name: Bytes, k: nat)
    requires k <= |attributes| && (k < |attributes| ==> attributes[k].name == name)
    requires forall j | 0 <= j < k :: attributes[j].name != name
    ensures IndexOf(attributes, name) == k
  {
    assert IndexOf(attributes, name) >= k;
  }
}
