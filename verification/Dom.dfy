/**
 The document object model on the heap: nodes in doubly linked sibling lists, with parents.
 */
module Dom {
  import opened CStrings
  import opened Trees
  import opened Attributes

  datatype NodeKind = DocumentNode | ElementNode | TextNode | CommentNode | UnknownNode | DeclarationNode

  datatype Payload =
    | DocumentData
    | ElementData(attributes: seq<Attribute>)
    | TextData(cdata: bool)
    | CommentData
    | UnknownData
    | DeclarationData(version: Bytes, encoding: Bytes, standalone: Bytes)

  /** What a node and everything below it hold, without the links. */
  datatype Tree = Tree(value: Bytes, payload: Payload, children: seq<Tree>)

  /** A change of a list: from position `at` on, `added` new entries instead of `dropped` old
      ones. */
  datatype Splice = Splice(at: nat, dropped: nat, added: nat) {
    predicate Keeps(i: nat) {
      i < at || i >= at + added
    }

    /** Where an entry that is kept was before. */
    function Old(i: nat): nat
      requires Keeps(i)
    {
      if i < at then i else i - added + dropped
    }
  }

  predicate Fits<T>(before: seq<T>, after: seq<T>, e: Splice) {
    e.at + e.dropped <= |before| && e.at + e.added <= |after|
  }

  predicate IsSplice<T(==)>(before: seq<T>, after: seq<T>, e: Splice)
    requires Fits(before, after, e)
  {
    after == before[..e.at] + after[e.at..e.at + e.added] + before[e.at + e.dropped..]
  }

  lemma SpliceAt<T>(before: seq<T>, after: seq<T>, e: Splice, i: nat)
    requires Fits(before, after, e) && IsSplice(before, after, e) && i < |after| && e.Keeps(i)
    ensures e.Old(i) < |before| && after[i] == before[e.Old(i)]
  {
  }

  lemma SpliceIs<T>(before: seq<T>, after: seq<T>, e: Splice, middle: seq<T>)
    requires e.at + e.dropped <= |before| && |middle| == e.added
    requires after == before[..e.at] + middle + before[e.at + e.dropped..]
    ensures Fits(before, after, e) && IsSplice(before, after, e) && after[e.at..e.at + e.added] == middle
    ensures e.added > 0 ==> after[e.at] == middle[0]
  {
  }

  lemma WithoutMiddle<T>(a: seq<T>, b: seq<T>)
    ensures a + [] + b == a + b
  {
  }

  lemma InsertedDistinct<T>(before: seq<T>, k: nat, x: T, after: seq<T>)
    requires k <= |before| && after == before[..k] + [x] + before[k..] && x !in before
    requires forall i, j | 0 <= i < j < |before| :: before[i] != before[j]
    ensures forall i, j | 0 <= i < j < |after| :: after[i] != after[j]
  {
    forall i, j | 0 <= i < j < |after| ensures after[i] != after[j] {
      assert i != k ==> after[i] == before[if i < k then i else i - 1];
      assert j != k ==> after[j] == before[if j < k then j else j - 1];
    }
  }

  lemma SpliceSize<T>(before: seq<T>, after: seq<T>, e: Splice)
    requires Fits(before, after, e) && IsSplice(before, after, e)
    ensures |after| == |before| - e.dropped + e.added
  {
  }

  lemma SpliceFrom<T>(before: seq<T>, after: seq<T>, e: Splice)
    requires Fits(before, after, e) && |after| == |before| - e.dropped + e.added
    requires forall i | 0 <= i < |after| && e.Keeps(i) :: after[i] == before[e.Old(i)]
    ensures IsSplice(before, after, e)
  {
    var spliced := before[..e.at] + after[e.at..e.at + e.added] + before[e.at + e.dropped..];
    forall i | 0 <= i < |after| ensures after[i] == spliced[i] {
      assert e.Keeps(i) ==> after[i] == before[e.Old(i)];
    }
  }

  class XmlNode {
    const kind: NodeKind
    const attributeSet: AttributeSet
    var value: Bytes
    var cdata: bool
    var version: Bytes
    var encoding: Bytes
    var standalone: Bytes
    var parent: XmlNode?
    var firstChild: XmlNode?
    var lastChild: XmlNode?
    var prev: XmlNode?
    var next: XmlNode?

    ghost var children: seq<XmlNode>
    ghost var Repr: set<object>

    /** Child `i` points at its neighbours and its parent. */
    ghost predicate PlacedAt(i: nat)
      requires i < |children|
      reads `children, children`parent, children`prev, children`next
    {
      && children[i].parent == this
      && children[i].prev == (if i == 0 then null else children[i - 1])
      && children[i].next == (if i + 1 == |children| then null else children[i + 1])
    }

    /** The sibling list spells `children`. */
    ghost predicate Linked()
      reads `firstChild, `lastChild, `children, children`parent, children`prev, children`next
    {
      && (forall i, j | 0 <= i < j < |children| :: children[i] != children[j])
      && firstChild == (if children == [] then null else children[0])
      && lastChild == (if children == [] then null else children[|children| - 1])
      && (forall i | 0 <= i < |children| :: PlacedAt(i))
    }

    ghost predicate OwnsAttributes()
      reads `Repr, Repr - {this}
      ensures OwnsAttributes() ==> forall i | 0 <= i < |attributeSet.nodes| :: attributeSet.nodes[i] in Repr - {this}
    {
      attributeSet in Repr && attributeSet.Repr() <= Repr - {this}
    }

    ghost predicate Owns(c: XmlNode)
      reads `Repr, c`Repr, attributeSet
    {
      c.Repr <= Repr - {this} && c.Repr !! attributeSet.Repr()
    }

    /** The node and everything below it form a tree. Its own place among its siblings is
        not part of this. */
    ghost predicate Valid()
      reads `firstChild, `lastChild, `children, `Repr, Repr - {this}
      decreases Repr
    {
      && this in Repr
      && OwnsAttributes() && attributeSet.Valid()
      && (forall i | 0 <= i < |children| :: children[i] in Repr - {this} && Owns(children[i]) && children[i].Valid())
      && (forall i, j | 0 <= i < j < |children| :: children[i].Repr !! children[j].Repr)
      && Linked()
    }

    ghost function Data(): Payload
      reads `cdata, `version, `encoding, `standalone, attributeSet, attributeSet.nodes
    {
      match kind
      case DocumentNode => DocumentData
      case ElementNode => ElementData(attributeSet.Model())
      case TextNode => TextData(cdata)
      case CommentNode => CommentData
      case UnknownNode => UnknownData
      case DeclarationNode => DeclarationData(version, encoding, standalone)
    }

    /** The tree that this node is the root of. */
    ghost function Content(): (r: Tree)
      requires Valid()
      reads `value, `cdata, `version, `encoding, `standalone
      reads `firstChild, `lastChild, `children, `Repr, Repr - {this}
      decreases Repr, 1
    {
      Tree(value, Data(), ChildTrees(|children|))
    }

    /** What the first `n` children hold. */
    ghost function ChildTrees(n: nat): (r: seq<Tree>)
      requires Valid() && n <= |children|
      reads `firstChild, `lastChild, `children, `Repr, Repr - {this}
      ensures |r| == n && forall i | 0 <= i < n :: r[i] == children[i].Content()
      decreases Repr, 0, n
    {
      if n == 0 then [] else ChildTrees(n - 1) + [children[n - 1].Content()]
    }

    constructor (kind: NodeKind, value: Bytes)
      ensures Valid() && fresh(Repr) && this.kind == kind && this.value == value && children == []
      ensures !cdata && version == [] && encoding == [] && standalone == []
      ensures parent == null && prev == null && next == null && attributeSet.nodes == []
    {
      this.kind, this.value := kind, value;
      cdata, version, encoding, standalone := false, [], [], [];
      parent, firstChild, lastChild, prev, next := null, null, null, null, null;
      attributeSet := new AttributeSet();
      children := [];
      Repr := {};
      new;
      Repr := {this} + attributeSet.Repr();
    }

    // ----- the sibling list -----

    /** `LinkEndChild` of a node that is not a document. */
    method LinkLast(node: XmlNode)
      requires Linked() && this !in children && node !in children && node !in Repr + {this}
      modifies `firstChild, `lastChild, `children, `Repr, node`parent, node`prev, node`next, children`next
      ensures Linked() && children == old(children) + [node]
      ensures Repr == old(Repr + node.Repr)
      ensures OnlyLinks(this, old(Repr), old(children)) && SameData(this)
    {
      node.parent := this;
      node.prev := lastChild;
      node.next := null;
      if lastChild != null {
        lastChild.next := node;
      } else {
        firstChild := node;
      }
      lastChild := node;
      ghost var before := children;
      Repr := Repr + node.Repr;
      children := children + [node];
      forall i | 0 <= i < |children| ensures PlacedAt(i) {
        if i < |before| { assert old(PlacedAt(i)); }
      }
    }

    /** The links that `InsertBeforeChild` sets. */
    method LinkBefore(beforeThis: XmlNode, node: XmlNode, ghost k: nat)
      requires Linked() && this !in children && node !in children && node != this && k < |children|
      requires beforeThis == children[k]
      modifies `firstChild, `children, node`parent, node`prev, node`next, children`next, children`prev
      ensures Linked() && children == old(children[..k]) + [node] + old(children[k..])
    {
      node.parent := this;
      assert PlacedAt(k);
      node.next := beforeThis;
      node.prev := beforeThis.prev;
      if beforeThis.prev != null {
        beforeThis.prev.next := node;
      } else {
        assert firstChild == beforeThis;
        firstChild := node;
      }
      beforeThis.prev := node;
      ghost var before := children;
      children := children[..k] + [node] + children[k..];
      InsertedDistinct(before, k, node, children);
      forall i | 0 <= i < |children| ensures PlacedAt(i) {
        if i < k { assert children[i] == before[i] && old(PlacedAt(i)); }
        if i > k { assert children[i] == before[i - 1] && old(PlacedAt(i - 1)); }
      }
    }

    /** The same, with the nodes below the new child taken over. */
    method TakeBefore(beforeThis: XmlNode, node: XmlNode, ghost k: nat)
      requires Linked() && this !in children && node !in children && node !in Repr + {this} && k < |children|
      requires beforeThis == children[k]
      modifies `firstChild, `children, `Repr, node`parent, node`prev, node`next, children`next, children`prev
      ensures Linked() && children == old(children[..k]) + [node] + old(children[k..])
      ensures Repr == old(Repr + node.Repr)
      ensures OnlyLinks(this, old(Repr), old(children)) && SameData(this)
    {
      hide Linked;
      LinkBefore(beforeThis, node, k);
      Repr := Repr + node.Repr;
    }

    /** The links that `InsertAfterChild` sets. */
    method LinkAfter(afterThis: XmlNode, node: XmlNode, ghost k: nat)
      requires Linked() && this !in children && node !in children && node != this && k < |children|
      requires afterThis == children[k]
      modifies `lastChild, `children, node`parent, node`prev, node`next, children`next, children`prev
      ensures Linked() && children == old(children[..k + 1]) + [node] + old(children[k + 1..])
    {
      node.parent := this;
      assert PlacedAt(k);
      node.prev := afterThis;
      node.next := afterThis.next;
      if afterThis.next != null {
        afterThis.next.prev := node;
      } else {
        assert lastChild == afterThis;
        lastChild := node;
      }
      afterThis.next := node;
      ghost var before := children;
      children := children[..k + 1] + [node] + children[k + 1..];
      InsertedDistinct(before, k + 1, node, children);
      forall i | 0 <= i < |children| ensures PlacedAt(i) {
        if i <= k { assert children[i] == before[i] && old(PlacedAt(i)); }
        if i > k + 1 { assert children[i] == before[i - 1] && old(PlacedAt(i - 1)); }
      }
    }

    /** The same, with the nodes below the new child taken over. */
    method TakeAfter(afterThis: XmlNode, node: XmlNode, ghost k: nat)
      requires Linked() && this !in children && node !in children && node !in Repr + {this} && k < |children|
      requires afterThis == children[k]
      modifies `lastChild, `children, `Repr, node`parent, node`prev, node`next, children`next, children`prev
      ensures Linked() && children == old(children[..k + 1]) + [node] + old(children[k + 1..])
      ensures Repr == old(Repr + node.Repr)
      ensures OnlyLinks(this, old(Repr), old(children)) && SameData(this)
    {
      hide Linked;
      LinkAfter(afterThis, node, k);
      Repr := Repr + node.Repr;
    }

    /** The links that `ReplaceChild` sets. */
    method LinkInstead(replaceThis: XmlNode, node: XmlNode, ghost k: nat)
      requires Linked() && this !in children && node !in children && node != this && k < |children|
      requires replaceThis == children[k]
      modifies `firstChild, `lastChild, `children, node`parent, node`prev, node`next, children`next, children`prev
      ensures Linked() && children == old(children)[k := node]
    {
      assert PlacedAt(k);
      node.next := replaceThis.next;
      node.prev := replaceThis.prev;
      if replaceThis.next != null {
        replaceThis.next.prev := node;
      } else {
        lastChild := node;
      }
      if replaceThis.prev != null {
        replaceThis.prev.next := node;
      } else {
        firstChild := node;
      }
      node.parent := this;
      children := children[k := node];
      forall i | 0 <= i < |children| ensures PlacedAt(i) {
        if i != k { assert old(PlacedAt(i)); }
      }
    }

    /** The same, with the nodes below the old child given up for those below the new one. */
    method TakeInstead(replaceThis: XmlNode, node: XmlNode, ghost k: nat)
      requires Linked() && this !in children && node !in children && node !in Repr + {this} && k < |children|
      requires replaceThis == children[k]
      modifies `firstChild, `lastChild, `children, `Repr, node`parent, node`prev, node`next, children`next,
               children`prev
      ensures Linked() && children == old(children)[k := node]
      ensures Repr == old(Repr - replaceThis.Repr + node.Repr)
      ensures OnlyLinks(this, old(Repr), old(children)) && SameData(this)
    {
      hide Linked;
      LinkInstead(replaceThis, node, k);
      Repr := Repr - replaceThis.Repr + node.Repr;
    }

    /** The links that `RemoveChild` sets. */
    method Unlink(removeThis: XmlNode, ghost k: nat)
      requires Linked() && this !in children && k < |children| && removeThis == children[k]
      modifies `firstChild, `lastChild, `children, `Repr, children`next, children`prev
      ensures Linked() && children == old(children[..k]) + old(children[k + 1..])
      ensures Repr == old(Repr - removeThis.Repr)
      ensures OnlyLinks(this, old(Repr), old(children)) && SameData(this)
    {
      assert PlacedAt(k);
      if removeThis.next != null {
        removeThis.next.prev := removeThis.prev;
      } else {
        lastChild := removeThis.prev;
      }
      if removeThis.prev != null {
        removeThis.prev.next := removeThis.next;
      } else {
        firstChild := removeThis.next;
      }
      ghost var before := children;
      Repr := Repr - removeThis.Repr;
      children := children[..k] + children[k + 1..];
      forall i | 0 <= i < |children| ensures PlacedAt(i) {
        if i < k { assert children[i] == before[i] && old(PlacedAt(i)); }
        if i >= k { assert children[i] == before[i + 1] && old(PlacedAt(i + 1)); }
      }
    }

    /** After the links among the children have changed, each child is still what it was. */
    twostate lemma ChildKept(i: nat)
      requires old(Valid()) && OnlyLinks(this, old(Repr), old(children)) && i < |old(children)|
      ensures var c := old(children[i]);
        && c.Valid() && c.Content() == old(ChildTrees(|children|))[i] && c.Repr == old(c.Repr)
        && c in old(Repr) && c != this && old(Owns(c))
    {
      hide Linked, AttributeSet.Valid;
      var c := old(children[i]);
      assert old(Owns(c)) && old(c.Valid());
      forall o | o in old(c.Repr) && o != c ensures unchanged(o) {
      }
    }

    /** The children's own nodes stay apart. */
    twostate lemma ChildrenApart()
      requires old(Valid()) && OnlyLinks(this, old(Repr), old(children))
      ensures var c := old(children); forall i, j | 0 <= i < j < |c| :: c[i].Repr !! c[j].Repr
    {
      hide Linked, AttributeSet.Valid, Valid;
      OldChildrenApart();
      assert forall i | 0 <= i < |old(children)| :: SameShape(old(children)[i]);
    }

    twostate lemma OldChildrenApart()
      requires old(Valid())
      ensures var c := old(children); forall i, j | 0 <= i < j < |c| :: old(c[i].Repr) !! old(c[j].Repr)
    {
    }

    /** The attributes are untouched by what happens to the links among the children. */
    twostate lemma AttributesKept()
      requires old(Valid()) && OnlyLinks(this, old(Repr), old(children))
      ensures attributeSet.Valid() && attributeSet.Repr() == old(attributeSet.Repr())
      ensures attributeSet.Model() == old(attributeSet.Model())
      ensures attributeSet in attributeSet.Repr() && attributeSet.Repr() <= old(Repr) - {this}
    {
      hide Linked;
      assert forall j | 0 <= j < |old(children)| :: old(Owns(children[j])) && old(children[j].Valid());
      forall i | 0 <= i < |old(attributeSet.nodes)| ensures unchanged(old(attributeSet.nodes)[i]) {
        assert old(attributeSet.nodes)[i] in old(attributeSet.Repr());
      }
    }

    /** At most one child has left the list and at most one node has come in its place. */
    twostate predicate Spliced(e: Splice)
      reads this, Repr, children
    {
      && old(Valid()) && e.dropped <= 1 && e.added <= 1
      && Fits(old(children), children, e) && IsSplice(old(children), children, e)
      && (e.added == 1 ==> old(Repr) !! children[e.at].Repr)
      && var kept := if e.dropped == 1 then old(Repr) - old(children[e.at].Repr) else old(Repr);
         Repr == if e.added == 1 then kept + children[e.at].Repr else kept
    }

    twostate lemma SplicedValid(e: Splice)
      requires Spliced(e) && OnlyLinks(this, old(Repr), old(children)) && Linked()
      requires e.added == 1 ==> children[e.at].Valid()
      ensures Valid()
    {
      hide Linked, OnlyLinks, AttributeSet.Valid, AttributeSet.Repr, IsSplice;
      AttributesKept();
      ChildrenApart();
      if e.dropped == 1 { ChildKept(e.at); }
      forall i | 0 <= i < |children|
        ensures children[i] in Repr - {this} && Owns(children[i]) && children[i].Valid()
        ensures e.Keeps(i) ==> children[i].Repr <= old(Repr)
      {
        if e.Keeps(i) {
          SpliceAt(old(children), children, e, i);
          ChildKept(e.Old(i));
        }
      }
      forall i, j | 0 <= i < j < |children| ensures children[i].Repr !! children[j].Repr {
        if e.Keeps(i) && e.Keeps(j) {
          SpliceAt(old(children), children, e, i);
          SpliceAt(old(children), children, e, j);
        }
      }
    }

    twostate lemma SplicedTrees(e: Splice)
      requires Spliced(e) && OnlyLinks(this, old(Repr), old(children)) && Valid()
      ensures Fits(old(ChildTrees(|children|)), ChildTrees(|children|), e)
           && IsSplice(old(ChildTrees(|children|)), ChildTrees(|children|), e)
    {
      hide Valid, Content, OnlyLinks, ChildTrees, IsSplice;
      ChildrenAreValid();
      SpliceSize(old(children), children, e);
      forall i | 0 <= i < |children| && e.Keeps(i)
        ensures ChildTrees(|children|)[i] == old(ChildTrees(|children|))[e.Old(i)]
      {
        SpliceAt(old(children), children, e, i);
        ChildKept(e.Old(i));
      }
      SpliceFrom(old(ChildTrees(|children|)), ChildTrees(|children|), e);
    }

    /** What splicing the list of children makes of the tree. */
    twostate lemma SplicedContent(e: Splice)
      requires Spliced(e) && OnlyLinks(this, old(Repr), old(children)) && SameData(this) && Linked()
      requires e.added == 1 ==> children[e.at].Valid()
      ensures Valid()
      ensures Content() == WithChildren(old(Content()),
          old(Content().children[..e.at])
          + (if e.added == 1 then [children[e.at].Content()] else [])
          + old(Content().children[e.at + e.dropped..]))
    {
      hide Valid, Linked, OnlyLinks, ChildTrees, AttributeSet.Model;
      SplicedValid(e);
      AttributesKept();
      SplicedTrees(e);
      assert ChildTrees(|children|)[e.at..e.at + e.added] == if e.added == 1 then [children[e.at].Content()] else [];
    }

    lemma ChildrenAreValid()
      requires Valid()
      ensures forall i | 0 <= i < |children| :: children[i].Valid()
    {
    }

    lemma Footprint()
      requires Valid()
      ensures this in Repr && Linked() && Content().children == ChildTrees(|children|)
      ensures this !in children && forall i | 0 <= i < |children| :: children[i] in Repr - {this}
    {
    }

    /** Nothing but this node's place among its siblings has changed. */
    twostate lemma Relinked()
      requires old(Valid()) && SameShape(this) && forall o | o in old(Repr) && o != this :: unchanged(o)
      ensures Valid() && Content() == old(Content())
    {
    }

    /** `LinkEndChild`: append a node that is not linked anywhere; a document is refused. */
    method LinkEndChild(node: XmlNode) returns (r: XmlNode?)
      requires Valid() && node.Valid() && node.Repr !! Repr
      modifies `firstChild, `lastChild, `children, `Repr, node`parent, node`prev, node`next, children`next
      ensures Valid()
      ensures node.kind.DocumentNode? ==> r == null && Content() == old(Content()) && Repr == old(Repr)
      ensures !node.kind.DocumentNode? ==>
        r == node && Repr == old(Repr + node.Repr) && children == old(children) + [node]
      ensures !node.kind.DocumentNode? ==>
          && node.Valid() && node.Content() == old(node.Content())
          && Content() == WithChildren(old(Content()), old(Content().children) + [node.Content()])
    {
      hide Valid, Linked, Content, ChildTrees, OnlyLinks, SameData;
      if node.kind.DocumentNode? { return null; }
      ghost var all := children;
      Footprint();
      node.Footprint();
      LinkLast(node);
      assert children == all[..|all|] + children[|all|..|all| + 1] + all[|all|..];
      node.Relinked();
      ghost var trees := old(Content().children);
      assert trees[..|all|] == trees && trees[|all|..] == [];
      SplicedContent(Splice(|all|, 0, 1));
      return node;
    }

    // ----- copies -----

    lemma WhenChildless()
      requires children == []
      ensures Valid() <==>
        this in Repr && OwnsAttributes() && attributeSet.Valid() && firstChild == null && lastChild == null
    {
    }

    /** When only the attributes have changed, the children are what they were. */
    twostate lemma AttributesReplaced()
      requires old(Valid()) && attributeSet.Valid() && this in Repr && OwnsAttributes()
      requires forall o | o in old(Repr) && o != this && o !in old(attributeSet.Repr()) :: unchanged(o)
      requires unchanged(`firstChild, `lastChild, `children, `value) && Repr == old(Repr) + attributeSet.Repr()
      requires forall o | o in attributeSet.Repr() :: o in old(attributeSet.Repr()) || fresh(o)
      ensures Valid() && ChildTrees(|children|) == old(ChildTrees(|children|))
    {
      hide Linked, AttributeSet.Valid, Content, ChildTrees;
      forall i | 0 <= i < |children|
        ensures children[i] in Repr - {this} && Owns(children[i]) && children[i].Valid()
        ensures children[i].Content() == old(ChildTrees(|children|))[i] && children[i].Repr == old(children[i].Repr)
      {
        var c := children[i];
        assert old(Owns(c)) && old(c.Valid());
        c.Untouched();
      }
      OldChildrenApart();
    }

    lemma AttributesOwned()
      requires Valid()
      ensures this in Repr && attributeSet.Valid() && attributeSet in Repr - {this}
      ensures attributeSet.Repr() <= Repr - {this}
      ensures attributeSet.sentinel in Repr && forall i | 0 <= i < |attributeSet.nodes| :: attributeSet.nodes[i] in Repr
    {
    }

    /** The attributes in `TiXmlElement::CopyTo`. */
    method CopyAttributes(target: XmlNode)
      requires Valid() && target.Valid() && target.Repr !! Repr
      modifies target`Repr, target.attributeSet, target.attributeSet.sentinel, target.attributeSet.nodes
      ensures target.Valid() && fresh(target.Repr - old(target.Repr)) && target.Repr !! Repr
      ensures target.children == old(target.children)
      ensures target.ChildTrees(|target.children|) == old(target.ChildTrees(|target.children|))
      ensures target.attributeSet.Model()
           == old(CopiesOnto(target.attributeSet.Model(), attributeSet.Model(), EnumeratedCount(attributeSet.Model())))
    {
      hide Valid, Linked, ChildTrees, AttributeSet.Valid, AttributeSet.Model, CopiesOnto, EnumeratedCount;
      AttributesOwned();
      target.AttributesOwned();
      attributeSet.CopyTo(target.attributeSet);
      target.Repr := target.Repr + target.attributeSet.Repr();
      target.AttributesReplaced();
    }

    /** `TiXmlNode::CopyTo` */
    method CopyValue(target: XmlNode)
      requires target.Valid()
      modifies target`value
      ensures target.Valid() && target.Content() == old(target.Content()).(value := CStr(value))
    {
      hide Valid, Content, ChildTrees;
      target.ContentIs();
      target.value := CStr(value);
      target.ContentIs();
    }

    /** What texts and declarations copy besides. */
    method CopyFields(target: XmlNode)
      requires target.Valid() && target.kind == kind && !kind.ElementNode?
      modifies target`cdata, target`version, target`encoding, target`standalone
      ensures target.Valid() && target.Content() == old(target.Content()).(payload := Data())
    {
      hide Valid, Content, ChildTrees;
      target.ContentIs();
      match kind {
        case TextNode => target.cdata := cdata;
        case DeclarationNode =>
          target.version, target.encoding, target.standalone := version, encoding, standalone;
        case _ =>
      }
      target.ContentIs();
    }

    /** `CopyTo` of the derived classes. */
    method CopyTo(target: XmlNode)
      requires Valid() && target.Valid() && target.Repr !! Repr && target.kind == kind
      modifies target.Repr
      ensures target.Valid() && fresh(target.Repr - old(target.Repr))
      ensures unchanged(target`parent, target`prev, target`next)
      ensures target.Content() == CopiedOnto(old(target.Content()), old(Content()))
      decreases Repr, 1
    {
      hide Valid, Content, ChildTrees, AttributeSet.Valid, AttributeSet.Model, CopiesOnto, EnumeratedCount, CopiedAll;
      AttributesOwned();
      target.AttributesOwned();
      ContentIs();
      target.ContentIs();
      CopyValue(target);
      if kind.ElementNode? {
        target.ContentIs();
        CopyAttributes(target);
        target.ContentIs();
      } else {
        CopyFields(target);
      }
      Untouched();
      if kind.ElementNode? || kind.DocumentNode? { CopyChildren(target); }
    }

    /** What a walk over the children needs to know of child `i`. */
    lemma ChildAt(i: nat)
      requires Valid() && i < |children|
      ensures var c := children[i];
        && c.Valid() && c.Repr < Repr && c.Content() == ChildTrees(|children|)[i]
        && (c.Content().payload.DocumentData? <==> c.kind.DocumentNode?)
        && c.next == if i + 1 < |children| then children[i + 1] else null
    {
      hide AttributeSet.Valid, AttributeSet.Repr;
      assert Owns(children[i]) && PlacedAt(i);
    }

    lemma EndsAre()
      requires Valid()
      ensures firstChild == if children == [] then null else children[0]
      ensures lastChild == firstChild <==> |children| <= 1
    {
      hide AttributeSet.Valid, AttributeSet.Repr, Owns, OwnsAttributes;
    }

    lemma ContentIs()
      requires Valid()
      ensures Content() == Tree(value, Data(), ChildTrees(|children|))
    {
    }

    twostate lemma Untouched()
      requires old(Valid()) && forall o | o in old(Repr) :: unchanged(o)
      ensures Valid() && Content() == old(Content()) && ChildTrees(|children|) == old(ChildTrees(|children|))
      ensures Repr == old(Repr)
    {
    }

    /** One round of the loop of `CopyTo` over the children. */
    method CopyChild(target: XmlNode, node: XmlNode, ghost i: nat)
      requires Valid() && target.Valid() && target.Repr !! Repr && i < |children| && node == children[i]
      modifies target.Repr
      ensures target.Valid() && fresh(target.Repr - old(target.Repr))
      ensures unchanged(target`parent, target`prev, target`next)
      ensures var t := old(ChildTrees(|children|))[i];
        target.Content() == WithChildren(old(target.Content()),
          if t.payload.DocumentData? then old(target.Content().children)
          else old(target.Content().children) + [Copied(t)])
      decreases Repr, 0, 0
    {
      hide Valid, Linked, Content, ChildTrees, CopiedAll, Copied;
      ChildAt(i);
      target.Footprint();
      var copy := node.Clone();
      target.Untouched();
      var linked := target.LinkEndChild(copy);
    }

    /** The loop of `CopyTo` over the children. */
    method CopyChildren(target: XmlNode)
      requires Valid() && target.Valid() && target.Repr !! Repr
      modifies target.Repr
      ensures target.Valid() && fresh(target.Repr - old(target.Repr))
      ensures unchanged(target`parent, target`prev, target`next)
      ensures target.Content() == WithChildren(old(target.Content()),
        old(target.Content().children) + CopiedAll(old(ChildTrees(|children|))))
      decreases Repr, 0, 1
    {
      hide Valid, Linked, Content, ChildTrees, CopiedAll;
      Footprint();
      target.Footprint();
      ghost var trees := ChildTrees(|children|);
      NoneCopied();
      ghost var base := target.Content();
      assert base.children + CopiedAll(trees[..0]) == base.children;
      var node := firstChild;
      ghost var i := 0;
      while node != null
        invariant i <= |children| && node == if i < |children| then children[i] else null
        invariant forall o | o in old(Repr) :: unchanged(o)
        invariant Valid() && ChildTrees(|children|) == trees
        invariant target.Valid() && fresh(target.Repr - old(target.Repr))
        invariant unchanged(target`parent, target`prev, target`next)
        invariant target.Content() == WithChildren(base, base.children + CopiedAll(trees[..i]))
        decreases |children| - i
      {
        CopyChild(target, node, i);
        Untouched();
        ChildAt(i);
        OneMoreCopied(base.children, trees, i);
        node := node.next;
        i := i + 1;
      }
      assert trees[..i] == trees;
    }

    method Clone() returns (r: XmlNode)
      requires Valid()
      ensures r.Valid() && fresh(r) && fresh(r.Repr) && r.kind == kind && r.parent == null && r.prev == null
      ensures r.next == null
      ensures r.Content() == Copied(Content())
      decreases Repr, 2
    {
      hide Valid, Content, ChildTrees, Linked, Copied, CStr;
      Footprint();
      r := new XmlNode(kind, if kind.ElementNode? then CStr(value) else []);
      Untouched();
      r.Footprint();
      r.ContentIs();
      ghost var blank := r.Content();
      CopyTo(r);
      CopiedOntoEmpty(blank, Content());
      Untouched();
    }

    lemma {:induction false} ContentIsWellNamed()
      requires Valid()
      ensures WellNamed(Content())
      decreases Repr
    {
      forall i | 0 <= i < |children| ensures WellNamed(children[i].Content()) {
        ChildAt(i);
        children[i].ContentIsWellNamed();
      }
    }

    /** `Clone` gives back an equal tree exactly when the tree is copyable. */
    lemma CloneIsExact()
      requires Valid()
      ensures Copied(Content()) == Content() <==> Copyable(Content())
    {
      ContentIsWellNamed();
      CopiedIsExact(Content());
    }

    // ----- the list operations -----

    method InsertEndChild(addThis: XmlNode) returns (r: XmlNode?)
      requires Valid() && addThis.Valid()
      modifies `firstChild, `lastChild, `children, `Repr, children`next
      ensures Valid()
      ensures addThis.kind.DocumentNode? ==> r == null && unchanged(this) && unchanged(set c | c in old(children))
      ensures !addThis.kind.DocumentNode? ==>
        && r != null && fresh(r) && children == old(children) + [r]
        && Content() == WithChildren(old(Content()), old(Content().children) + [Copied(old(addThis.Content()))])
    {
      hide Valid, Content, ChildTrees, Linked, Copied;
      Footprint();
      if addThis.kind.DocumentNode? { return null; }
      var node := addThis.Clone();
      Untouched();
      r := LinkEndChild(node);
    }

    /** A node that is not linked anywhere comes in front of child `k`. */
    method AdoptBefore(beforeThis: XmlNode, node: XmlNode, ghost k: nat)
      requires Valid() && node.Valid() && node.Repr !! Repr && k < |children| && beforeThis == children[k]
      modifies `firstChild, `lastChild, `children, `Repr, node`parent, node`prev, node`next, children`prev,
               children`next
      ensures Valid() && children == old(children[..k]) + [node] + old(children[k..])
      ensures Content() == WithChildren(old(Content()),
        old(Content().children[..k]) + [old(node.Content())] + old(Content().children[k..]))
    {
      hide Valid, Content, ChildTrees, Linked, IsSplice, OnlyLinks, SameData;
      Footprint();
      node.Footprint();
      TakeBefore(beforeThis, node, k);
      node.Relinked();
      SpliceIs(old(children), children, Splice(k, 0, 1), [node]);
      SplicedContent(Splice(k, 0, 1));
    }

    /** A node that is not linked anywhere comes after child `k`. */
    method AdoptAfter(afterThis: XmlNode, node: XmlNode, ghost k: nat)
      requires Valid() && node.Valid() && node.Repr !! Repr && k < |children| && afterThis == children[k]
      modifies `firstChild, `lastChild, `children, `Repr, node`parent, node`prev, node`next, children`prev,
               children`next
      ensures Valid() && children == old(children[..k + 1]) + [node] + old(children[k + 1..])
      ensures Content() == WithChildren(old(Content()),
        old(Content().children[..k + 1]) + [old(node.Content())] + old(Content().children[k + 1..]))
    {
      hide Valid, Content, ChildTrees, Linked, IsSplice, OnlyLinks, SameData;
      Footprint();
      node.Footprint();
      TakeAfter(afterThis, node, k);
      node.Relinked();
      SpliceIs(old(children), children, Splice(k + 1, 0, 1), [node]);
      SplicedContent(Splice(k + 1, 0, 1));
    }

    /** A node that is not linked anywhere takes the place of child `k`. */
    method AdoptInstead(replaceThis: XmlNode, node: XmlNode, ghost k: nat)
      requires Valid() && node.Valid() && node.Repr !! Repr && k < |children| && replaceThis == children[k]
      modifies `firstChild, `lastChild, `children, `Repr, node`parent, node`prev, node`next, children`prev,
               children`next
      ensures Valid() && children == old(children[..k]) + [node] + old(children[k + 1..])
      ensures Content() == WithChildren(old(Content()),
        old(Content().children[..k]) + [old(node.Content())] + old(Content().children[k + 1..]))
    {
      hide Valid, Content, ChildTrees, Linked, IsSplice, OnlyLinks, SameData;
      Footprint();
      node.Footprint();
      TakeInstead(replaceThis, node, k);
      node.Relinked();
      ghost var e := Splice(k, 1, 1);
      assert e.at + e.dropped == k + 1 && children == old(children)[..k] + [node] + old(children)[k + 1..];
      SpliceIs(old(children), children, e, [node]);
      SplicedContent(e);
    }

    method InsertBeforeChild(beforeThis: XmlNode?, addThis: XmlNode) returns (r: XmlNode?, ghost k: nat)
      requires Valid() && addThis.Valid()
      requires beforeThis != null && beforeThis.parent == this ==> beforeThis in children
      modifies `firstChild, `lastChild, `children, `Repr, children`prev, children`next
      ensures Valid()
      ensures r == null <==> beforeThis == null || old(beforeThis.parent) != this || addThis.kind.DocumentNode?
      ensures r == null ==> unchanged(this) && unchanged(set c | c in old(children))
      ensures r != null ==>
        && k < |old(children)| && old(children)[k] == beforeThis
        && fresh(r) && children == old(children[..k]) + [r] + old(children[k..])
        && Content() == WithChildren(old(Content()),
             old(Content().children[..k]) + [Copied(old(addThis.Content()))] + old(Content().children[k..]))
    {
      hide Valid, Content, ChildTrees, Linked, Copied;
      Footprint();
      if beforeThis == null || beforeThis.parent != this { return null, 0; }
      if addThis.kind.DocumentNode? { return null, 0; }
      k :| k < |children| && children[k] == beforeThis;
      var node := addThis.Clone();
      Untouched();
      AdoptBefore(beforeThis, node, k);
      r := node;
    }

    method InsertAfterChild(afterThis: XmlNode?, addThis: XmlNode) returns (r: XmlNode?, ghost k: nat)
      requires Valid() && addThis.Valid()
      requires afterThis != null && afterThis.parent == this ==> afterThis in children
      modifies `firstChild, `lastChild, `children, `Repr, children`prev, children`next
      ensures Valid()
      ensures r == null <==> afterThis == null || old(afterThis.parent) != this || addThis.kind.DocumentNode?
      ensures r == null ==> unchanged(this) && unchanged(set c | c in old(children))
      ensures r != null ==>
        && k < |old(children)| && old(children)[k] == afterThis
        && fresh(r) && children == old(children[..k + 1]) + [r] + old(children[k + 1..])
        && Content() == WithChildren(old(Content()),
             old(Content().children[..k + 1]) + [Copied(old(addThis.Content()))] + old(Content().children[k + 1..]))
    {
      hide Valid, Content, ChildTrees, Linked, Copied;
      Footprint();
      if afterThis == null || afterThis.parent != this { return null, 0; }
      if addThis.kind.DocumentNode? { return null, 0; }
      k :| k < |children| && children[k] == afterThis;
      var node := addThis.Clone();
      Untouched();
      AdoptAfter(afterThis, node, k);
      r := node;
    }

    method ReplaceChild(replaceThis: XmlNode, withThis: XmlNode) returns (r: XmlNode?, ghost k: nat)
      requires Valid() && withThis.Valid()
      requires replaceThis.parent == this ==> replaceThis in children
      modifies `firstChild, `lastChild, `children, `Repr, children`prev, children`next
      ensures Valid()
      ensures r == null <==> old(replaceThis.parent) != this
      ensures r == null ==> unchanged(this) && unchanged(set c | c in old(children))
      ensures r != null ==>
        && k < |old(children)| && old(children)[k] == replaceThis
        && fresh(r) && children == old(children[..k]) + [r] + old(children[k + 1..])
        && Content() == WithChildren(old(Content()),
             old(Content().children[..k]) + [Copied(old(withThis.Content()))] + old(Content().children[k + 1..]))
    {
      hide Valid, Content, ChildTrees, Linked, Copied;
      Footprint();
      if replaceThis.parent != this { return null, 0; }
      k :| k < |children| && children[k] == replaceThis;
      var node := withThis.Clone();
      Untouched();
      AdoptInstead(replaceThis, node, k);
      r := node;
    }

    /** Child `k` goes. */
    method Disown(removeThis: XmlNode, ghost k: nat)
      requires Valid() && k < |children| && removeThis == children[k]
      modifies `firstChild, `lastChild, `children, `Repr, children`prev, children`next
      ensures Valid() && children == old(children[..k]) + old(children[k + 1..]) && Repr == old(Repr - removeThis.Repr)
      ensures Content() == WithChildren(old(Content()), old(Content().children[..k]) + old(Content().children[k + 1..]))
    {
      hide Valid, Content, ChildTrees, Linked, IsSplice, OnlyLinks, SameData;
      Footprint();
      ghost var trees := Content().children;
      Unlink(removeThis, k);
      WithoutMiddle(old(children)[..k], old(children)[k + 1..]);
      SpliceIs(old(children), children, Splice(k, 1, 0), []);
      SplicedContent(Splice(k, 1, 0));
      WithoutMiddle(trees[..k], trees[k + 1..]);
    }

    /** A node that is not a child is refused (the source also asserts). */
    method RemoveChild(removeThis: XmlNode) returns (removed: bool, ghost k: nat)
      requires Valid()
      requires removeThis.parent == this ==> removeThis in children
      modifies `firstChild, `lastChild, `children, `Repr, children`prev, children`next
      ensures Valid()
      ensures removed <==> old(removeThis.parent) == this
      ensures !removed ==> unchanged(this) && unchanged(set c | c in old(children))
      ensures removed ==>
        && k < |old(children)| && old(children)[k] == removeThis && Repr !! old(removeThis.Repr)
        && children == old(children[..k]) + old(children[k + 1..])
        && Content() == WithChildren(old(Content()), old(Content().children[..k]) + old(Content().children[k + 1..]))
    {
      hide Valid, Content, ChildTrees, Linked;
      Footprint();
      if removeThis.parent != this { return false, 0; }
      k :| k < |children| && children[k] == removeThis;
      Disown(removeThis, k);
      removed := true;
    }

    /** Every child is deleted, once and in order. */
    method Clear() returns (ghost deleted: seq<XmlNode>)
      requires Valid()
      modifies `firstChild, `lastChild, `children, `Repr
      ensures Valid() && deleted == old(children) && children == []
      ensures Content() == WithChildren(old(Content()), [])
    {
      hide Valid, Linked, Content, ChildTrees;
      Footprint();
      deleted := [];
      var node := firstChild;
      while node != null
        invariant Valid() && unchanged(this)
        invariant |deleted| <= |children| && deleted == children[..|deleted|]
        invariant node == if |deleted| < |children| then children[|deleted|] else null
        decreases |children| - |deleted|
      {
        ChildAt(|deleted|);
        var temp := node;
        node := node.next;
        deleted := deleted + [temp];
      }
      AttributesOwned();
      ContentIs();
      firstChild := null;
      lastChild := null;
      children := [];
      Repr := {this} + attributeSet.Repr();
      WhenChildless();
      ContentIs();
    }

    // ----- the attributes of an element -----

    method SetAttribute(name: Bytes, value: Bytes)
      requires Valid() && kind.ElementNode?
      modifies `Repr, attributeSet, attributeSet.sentinel, attributeSet.nodes
      ensures Valid() && children == old(children)
      ensures Content()
           == old(Content()).(payload := ElementData(Trees.SetAttribute(old(attributeSet.Model()), name, value)))
    {
      hide Valid, Content, ChildTrees, Linked, AttributeSet.Valid, AttributeSet.Model, Trees.SetAttribute;
      AttributesOwned();
      ContentIs();
      attributeSet.SetAttribute(name, value);
      Repr := Repr + attributeSet.Repr();
      AttributesReplaced();
      ContentIs();
    }

    method RemoveAttribute(name: Bytes)
      requires Valid() && kind.ElementNode?
      modifies attributeSet, attributeSet.sentinel, attributeSet.nodes
      ensures Valid() && children == old(children)
      ensures var attributes, k := old(attributeSet.Model()), IndexOf(old(attributeSet.Model()), name);
        Content() == old(Content()).(payload := ElementData(
          if k < |attributes| then attributes[..k] + attributes[k + 1..] else attributes))
    {
      hide Valid, Content, ChildTrees, Linked, AttributeSet.Valid, AttributeSet.Model, IndexOf;
      AttributesOwned();
      ContentIs();
      attributeSet.RemoveAttribute(name);
      AttributesReplaced();
      ContentIs();
    }
  }

  /** What a copy of a tree holds: every value up to its first NUL, the attributes that the
      enumeration reaches, the children of an element or a document that are not documents
      themselves, and of other nodes no children at all. */
  function Copied(t: Tree): Tree {
    match t.payload
    case DocumentData => Tree(CStr(t.value), DocumentData, CopiedAll(t.children))
    case ElementData(attributes) =>
      Tree(CStr(t.value), ElementData(Copies(attributes, EnumeratedCount(attributes))), CopiedAll(t.children))
    case _ => Tree(CStr(t.value), t.payload, [])
  }

  /** What copying a tree onto the node of another one makes of that: attributes are set, and
      children appended. */
  function CopiedOnto(base: Tree, t: Tree): Tree {
    match t.payload
    case DocumentData => Tree(CStr(t.value), DocumentData, base.children + CopiedAll(t.children))
    case ElementData(attributes) =>
      var before := if base.payload.ElementData? then base.payload.attributes else [];
      Tree(CStr(t.value), ElementData(CopiesOnto(before, attributes, EnumeratedCount(attributes))),
           base.children + CopiedAll(t.children))
    case _ => Tree(CStr(t.value), t.payload, base.children)
  }

  lemma CopiedOntoEmpty(base: Tree, t: Tree)
    requires base.children == [] && (base.payload.ElementData? ==> base.payload.attributes == [])
    ensures CopiedOnto(base, t) == Copied(t)
  {
    assert [] + CopiedAll(t.children) == CopiedAll(t.children);
  }

  function CopiedAll(ts: seq<Tree>): seq<Tree> {
    if ts == [] then []
    else
      var n := |ts| - 1;
      CopiedAll(ts[..n]) + if ts[n].payload.DocumentData? then [] else [Copied(ts[n])]
  }

  lemma NoneCopied()
    ensures CopiedAll([]) == []
  {
  }

  lemma OneMoreCopied(base: seq<Tree>, ts: seq<Tree>, i: nat)
    requires i < |ts|
    ensures base + CopiedAll(ts[..i + 1])
         == base + CopiedAll(ts[..i]) + if ts[i].payload.DocumentData? then [] else [Copied(ts[i])]
    ensures base + CopiedAll(ts[..i]) + [] == base + CopiedAll(ts[..i])
  {
    assert ts[..i + 1][..i] == ts[..i];
  }

  /** The trees that a copy preserves. */
  predicate Copyable(t: Tree) {
    && '\0' !in t.value
    && match t.payload
       case DocumentData => CopyableAll(t.children)
       case ElementData(attributes) =>
         && (forall i | 0 <= i < |attributes| :: HasNoNul(attributes[i]))
         && (forall i | 0 < i < |attributes| :: attributes[i] != Attribute([], []))
         && CopyableAll(t.children)
       case _ => t.children == []
  }

  predicate CopyableAll(ts: seq<Tree>) {
    forall i | 0 <= i < |ts| :: !ts[i].payload.DocumentData? && Copyable(ts[i])
  }

  predicate WellNamed(t: Tree) {
    && (t.payload.ElementData? ==> DistinctNames(t.payload.attributes))
    && forall i | 0 <= i < |t.children| :: WellNamed(t.children[i])
  }

  /** A copy of a tree is the same tree exactly when the tree is copyable. */
  lemma {:induction false} CopiedIsExact(t: Tree)
    requires WellNamed(t)
    ensures Copied(t) == t <==> Copyable(t)
  {
    if t.payload.ElementData? { CopyIsExact(t.payload.attributes); }
    if t.payload.ElementData? || t.payload.DocumentData? { CopiedAllIsExact(t.children); }
  }

  lemma CopyableAllButLast(ts: seq<Tree>)
    requires ts != []
    ensures var n := |ts| - 1;
      CopyableAll(ts) <==> CopyableAll(ts[..n]) && !ts[n].payload.DocumentData? && Copyable(ts[n])
  {
    hide Copyable;
    var n := |ts| - 1;
    assert forall i | 0 <= i < n :: ts[..n][i] == ts[i];
  }

  lemma EqualAtTheEnd<T>(a: seq<T>, x: T, b: seq<T>, y: T)
    ensures a + [x] == b + [y] <==> a == b && x == y
  {
    if a + [x] == b + [y] {
      assert a == (a + [x])[..|a|] && x == (a + [x])[|a|];
      assert b == (b + [y])[..|b|] && y == (b + [y])[|b|];
    }
  }

  lemma {:induction false} CopiedAllIsExact(ts: seq<Tree>)
    requires forall i | 0 <= i < |ts| :: WellNamed(ts[i])
    ensures |CopiedAll(ts)| <= |ts| && (CopiedAll(ts) == ts <==> CopyableAll(ts))
  {
    hide Copied, Copyable, CopyableAll, WellNamed;
    if ts == [] {
      NoneCopyable();
    } else {
      var n := |ts| - 1;
      assert ts == ts[..n] + [ts[n]];
      assert forall i | 0 <= i < n :: ts[..n][i] == ts[i];
      CopiedAllIsExact(ts[..n]);
      CopiedIsExact(ts[n]);
      CopyableAllButLast(ts);
      EqualAtTheEnd(CopiedAll(ts[..n]), Copied(ts[n]), ts[..n], ts[n]);
    }
  }

  lemma NoneCopyable()
    ensures CopyableAll([])
  {
  }

  function WithChildren(t: Tree, children: seq<Tree>): Tree {
    t.(children := children)
  }

  /** Only the place of `c` among its siblings may have changed. */
  twostate predicate SameShape(c: XmlNode)
    reads c
  {
    unchanged(c`value, c`cdata, c`version, c`encoding, c`standalone, c`firstChild, c`lastChild, c`children, c`Repr)
  }

  twostate predicate SameData(c: XmlNode)
    reads c
  {
    unchanged(c`value, c`cdata, c`version, c`encoding, c`standalone)
  }

  /** Of what `n` owns, nothing but the links among its children has changed. */
  twostate predicate OnlyLinks(n: XmlNode, owned: set<object>, children: seq<XmlNode>)
    reads owned, children
  {
    && (forall o | o in owned && o != n && o !in children :: unchanged(o))
    && (forall i | 0 <= i < |children| :: SameShape(children[i]))
  }
}
