/** Which objects make up a tree, and what the tree is as a value (etree/etree.go:84-122). */
module HeapTree {
  import opened Basics
  import opened XmlModel
  import opened ETree

  /** A tree together with the objects that hold it. */
  datatype ITree =
    | IElem(e: Element, space: string, tag: string, attr: seq<Attr>, kids: seq<ITree>)
    | ILeaf(l: Leaf, value: LeafValue)

  ghost function Erase(t: ITree): (n: XNode)
    decreases t, 1
  {
    match t
    case ILeaf(_, v) => XNode.Leaf(v)
    case IElem(_, space, tag, attr, kids) => XNode.Elem(space, tag, attr, EraseAll(kids))
  }

  ghost function EraseAll(ts: seq<ITree>): (ns: seq<XNode>)
    ensures |ns| == |ts|
    decreases ts, 0
  {
    if ts == [] then [] else EraseAll(ts[..|ts| - 1]) + [Erase(ts[|ts| - 1])]
  }

  ghost function TokenOf(t: ITree): (k: Token) {
    match t
    case ILeaf(l, _) => LeafToken(l)
    case IElem(e, _, _, _, _) => ElementToken(e)
  }

  ghost function TokensOf(ts: seq<ITree>): (ks: seq<Token>)
    ensures |ks| == |ts|
  {
    if ts == [] then [] else TokensOf(ts[..|ts| - 1]) + [TokenOf(ts[|ts| - 1])]
  }

  ghost function Objects(t: ITree): (os: set<object>)
    decreases t, 1
  {
    match t
    case ILeaf(l, _) => {l}
    case IElem(e, _, _, _, kids) => {e} + ObjectsAll(kids)
  }

  ghost function ObjectsAll(ts: seq<ITree>): (os: set<object>)
    decreases ts, 0
  {
    if ts == [] then {} else ObjectsAll(ts[..|ts| - 1]) + Objects(ts[|ts| - 1])
  }

  /** No object is used twice. */
  ghost predicate Distinct(t: ITree)
    decreases t, 1
  {
    t.IElem? ==> t.e !in ObjectsAll(t.kids) && DistinctAll(t.kids)
  }

  ghost predicate DistinctAll(ts: seq<ITree>)
    decreases ts, 0
  {
    ts != [] ==>
      var k := |ts| - 1; DistinctAll(ts[..k]) && Distinct(ts[k]) && ObjectsAll(ts[..k]) !! Objects(ts[k])
  }

  /** The objects hold this tree below p, and every object names its holder as parent. */
  ghost predicate Holds(t: ITree, p: Element?)
    reads Objects(t)
    decreases t, 1
  {
    match t
    case ILeaf(l, v) => l.value == v && l.parent == p
    case IElem(e, space, tag, attr, kids) =>
      && e.space == space && e.tag == tag && e.attr == attr && e.parent == p
      && e.child == TokensOf(kids)
      && HoldsAll(kids, e)
  }

  ghost predicate HoldsAll(ts: seq<ITree>, p: Element?)
    reads ObjectsAll(ts)
    decreases ts, 0
  {
    ts != [] ==> HoldsAll(ts[..|ts| - 1], p) && Holds(ts[|ts| - 1], p)
  }

  // ------------------------------------------------------------- lists of trees

  /** Adding a tree at the end of a list. */
  lemma AddLast(ts: seq<ITree>, t: ITree)
    ensures EraseAll(ts + [t]) == EraseAll(ts) + [Erase(t)]
    ensures TokensOf(ts + [t]) == TokensOf(ts) + [TokenOf(t)]
    ensures ObjectsAll(ts + [t]) == ObjectsAll(ts) + Objects(t)
    ensures DistinctAll(ts + [t]) == (DistinctAll(ts) && Distinct(t) && ObjectsAll(ts) !! Objects(t))
  {
    assert (ts + [t])[..|ts|] == ts;
  }

  lemma HoldsLast(ts: seq<ITree>, t: ITree, p: Element?)
    ensures HoldsAll(ts + [t], p) == (HoldsAll(ts, p) && Holds(t, p))
  {
    assert (ts + [t])[..|ts|] == ts;
  }

  // ------------------------------------------------------------- untouched objects

  twostate predicate Same(new os: set<object>)
    reads os
  {
    forall o :: o in os ==> old(allocated(o)) && unchanged(o)
  }

  twostate lemma SameSubset(new os: set<object>, new part: set<object>)
    requires Same(os) && part <= os
    ensures Same(part)
  {
  }

  /** An element among unchanged objects has its old fields. */
  twostate lemma SameElement(new os: set<object>, e: Element)
    requires Same(os) && e in os
    ensures e.space == old(e.space) && e.tag == old(e.tag) && e.attr == old(e.attr)
    ensures e.child == old(e.child) && e.parent == old(e.parent)
  {
  }

  twostate lemma HoldsStill(ts: seq<ITree>, new p: Element?)
    requires old(allocated(p)) && old(HoldsAll(ts, p)) && Same(ObjectsAll(ts))
    ensures HoldsAll(ts, p)
  {
  }

  twostate lemma TreeStill(t: ITree, new p: Element?)
    requires old(allocated(p)) && old(Holds(t, p)) && Same(Objects(t))
    ensures Holds(t, p)
  {
  }

  lemma {:induction false} ObjectsExist(t: ITree)
    ensures forall o :: o in Objects(t) ==> allocated(o)
    decreases t, 1
  {
    if t.IElem? {
      AllObjectsExist(t.kids);
    }
  }

  lemma {:induction false} AllObjectsExist(ts: seq<ITree>)
    ensures forall o :: o in ObjectsAll(ts) ==> allocated(o)
    decreases ts, 0
  {
    if ts != [] {
      ObjectsExist(ts[|ts| - 1]);
      AllObjectsExist(ts[..|ts| - 1]);
    }
  }

  /** The same for the objects of the old heap. */
  twostate lemma {:induction false} ObjectsWere(t: ITree)
    ensures forall o :: o in Objects(t) ==> old(allocated(o))
    decreases t, 1
  {
    if t.IElem? {
      AllObjectsWere(t.kids);
    }
  }

  twostate lemma {:induction false} AllObjectsWere(ts: seq<ITree>)
    ensures forall o :: o in ObjectsAll(ts) ==> old(allocated(o))
    decreases ts, 0
  {
    if ts != [] {
      ObjectsWere(ts[|ts| - 1]);
      AllObjectsWere(ts[..|ts| - 1]);
    }
  }

  /** One tree of a list. */
  lemma {:induction false} KidAt(ts: seq<ITree>, i: nat)
    requires i < |ts|
    ensures TokensOf(ts)[i] == TokenOf(ts[i]) && EraseAll(ts)[i] == Erase(ts[i])
    ensures Objects(ts[i]) <= ObjectsAll(ts)
    ensures DistinctAll(ts) ==> Distinct(ts[i])
  {
    if i < |ts| - 1 {
      KidAt(ts[..|ts| - 1], i);
    }
  }

  lemma {:induction false} HeldKid(ts: seq<ITree>, i: nat, p: Element?)
    requires i < |ts| && HoldsAll(ts, p)
    ensures Holds(ts[i], p)
  {
    if i < |ts| - 1 {
      HeldKid(ts[..|ts| - 1], i, p);
    }
  }
}
