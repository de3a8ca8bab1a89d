/** Deep copies (etree/etree.go:132-135, 289-295, 576-592, 747-754, 801-908). */
module HeapCopy {
  import opened Basics
  import opened XmlModel
  import opened ETree
  import opened HeapTree

  lemma CopiedUpTo(ts: seq<ITree>, i: nat, copies: seq<ITree>, c: ITree)
    requires i < |ts| && EraseAll(copies) == EraseAll(ts[..i]) && Erase(c) == Erase(ts[i])
    ensures EraseAll(copies + [c]) == EraseAll(ts[..i + 1])
  {
    Snoc(ts, i);
    AddLast(ts[..i], ts[i]);
    AddLast(copies, c);
  }

  /**
   dup: a tree of new objects with the same value, whose tokens name their copied holder as parent.
   */
  method Dup(k: Token, parent: Element?, ghost t: ITree, ghost p: Element?)
    returns (k': Token, ghost t': ITree)
    requires k == TokenOf(t) && Holds(t, p)
    ensures k' == TokenOf(t') && Holds(t', parent) && Distinct(t')
    ensures Erase(t') == Erase(t)
    ensures forall o :: o in Objects(t') ==> fresh(o)
    ensures Holds(t, p)
    decreases t, 1
  {
    ObjectsExist(t);
    match k
    case LeafToken(l) =>
      var l' := new Leaf(l.value, parent);
      k', t' := LeafToken(l'), ILeaf(l', l.value);
    case ElementToken(e) =>
      var ne := new Element(e.space, e.tag, [], [], parent);
      ghost var copies := DupChildren(e, ne, t, p);
      ne.attr := e.attr;
      k', t' := ElementToken(ne), IElem(ne, e.space, e.tag, e.attr, copies);
  }

  /** The copies made so far hang below ne and consist of new objects. */
  ghost predicate Attached(ne: Element, copies: seq<ITree>)
    reads ne, ObjectsAll(copies)
  {
    ne.child == TokensOf(copies) && HoldsAll(copies, ne) && DistinctAll(copies) && ne !in ObjectsAll(copies)
  }

  /** One turn of the loop: ne.Child[i] = t.dup(ne). */
  method DupNext(c: Token, ne: Element, ghost k: ITree, ghost p: Element?, ghost copies: seq<ITree>)
    returns (ghost copy: ITree)
    requires c == TokenOf(k) && Holds(k, p) && Attached(ne, copies) && ne !in Objects(k)
    modifies ne`child
    ensures Attached(ne, copies + [copy]) && Erase(copy) == Erase(k)
    ensures forall o :: o in ObjectsAll(copies + [copy]) ==> o in ObjectsAll(copies) || fresh(o)
    decreases k, 2
  {
    AllObjectsExist(copies);
    var c';
    c', copy := Dup(c, ne, k, p);
    AddLast(copies, copy);
    ne.child := ne.child + [c'];
    HoldsLast(copies, copy, ne);
  }

  /** The child loop of dup. */
  method DupChildren(e: Element, ne: Element, ghost t: ITree, ghost p: Element?) returns (ghost copies: seq<ITree>)
    requires t.IElem? && t.e == e && Holds(t, p)
    requires ne !in Objects(t) && ne.child == []
    modifies ne`child
    ensures Attached(ne, copies) && EraseAll(copies) == EraseAll(t.kids)
    ensures forall o :: o in ObjectsAll(copies) ==> fresh(o)
    ensures Holds(t, p)
    decreases t, 0
  {
    ObjectsExist(t);
    copies := [];
    var child := e.child;
    for i := 0 to |child|
      invariant child == TokensOf(t.kids) && Holds(t, p)
      invariant Attached(ne, copies) && EraseAll(copies) == EraseAll(t.kids[..i])
      invariant forall o :: o in ObjectsAll(copies) ==> fresh(o)
    {
      KidAt(t.kids, i);
      HeldKid(t.kids, i, e);
      ghost var copy := DupNext(child[i], ne, t.kids[i], e, copies);
      CopiedUpTo(t.kids, i, copies, copy);
      copies := copies + [copy];
    }
    assert t.kids[..|child|] == t.kids;
  }

  /** Element.Copy: a parentless deep copy that shares no object with the original. */
  method Copy(e: Element, ghost t: ITree, ghost p: Element?) returns (c: Element, ghost t': ITree)
    requires t.IElem? && t.e == e && Holds(t, p)
    ensures t'.IElem? && t'.e == c && Holds(t', null) && Distinct(t') && Erase(t') == Erase(t)
    ensures (forall o :: o in Objects(t') ==> fresh(o)) && Objects(t') !! Objects(t)
    ensures Holds(t, p)
  {
    ObjectsExist(t);
    var k;
    k, t' := Dup(ElementToken(e), null, t, p);
    c := k.e;
  }

  /**
   Document.Copy copies the element by value: the copied children name the intermediate element as
   their parent, not the copied document.
   */
  method CopyDocument(d: Element, ghost t: ITree) returns (c: Element, inner: Element, ghost copies: seq<ITree>)
    requires t.IElem? && t.e == d && Holds(t, null)
    ensures fresh(c) && fresh(inner) && c != inner
    ensures c.space == d.space && c.tag == d.tag && c.attr == d.attr && c.parent == null
    ensures c.child == TokensOf(copies) && HoldsAll(copies, inner)
    ensures DistinctAll(copies) && EraseAll(copies) == EraseAll(t.kids)
    ensures (forall o :: o in ObjectsAll(copies) ==> fresh(o)) && c !in ObjectsAll(copies)
    ensures Holds(t, null)
  {
    ObjectsExist(t);
    ghost var t';
    inner, t' := Copy(d, t, null);
    ObjectsExist(t');
    copies := t'.kids;
    c := new Element(inner.space, inner.tag, inner.attr, inner.child, inner.parent);
  }

  /** Whatever later changes only objects of the copy does not show in the original, and the other way round. */
  twostate lemma CopyIsIndependent(t: ITree, new p: Element?, new copy: ITree)
    requires old(allocated(p)) && old(Holds(t, p)) && Objects(t) !! Objects(copy)
    requires forall o: object :: old(allocated(o)) && o !in Objects(copy) ==> unchanged(o)
    ensures Holds(t, p)
  {
    ObjectsWere(t);
    TreeStill(t, p);
  }
}
