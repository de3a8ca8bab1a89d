/** Changing the children of one element somewhere in a tree of objects. */
module HeapEdit {
  import opened Basics
  import opened XmlModel
  import opened ETree
  import opened HeapTree

  /** Element x is part of the tree. */
  ghost predicate Has(t: ITree, x: Element)
    decreases t, 1
  {
    t.IElem? && (t.e == x || HasAll(t.kids, x))
  }

  ghost predicate HasAll(ts: seq<ITree>, x: Element)
    decreases ts, 0
  {
    ts != [] && (HasAll(ts[..|ts| - 1], x) || Has(ts[|ts| - 1], x))
  }

  /** The children of x. */
  ghost function KidsAt(t: ITree, x: Element): (ks: seq<ITree>)
    decreases t, 1
  {
    if t.ILeaf? then [] else if t.e == x then t.kids else KidsAtAll(t.kids, x)
  }

  ghost function KidsAtAll(ts: seq<ITree>, x: Element): (ks: seq<ITree>)
    decreases ts, 0
  {
    if ts == [] then []
    else if Has(ts[|ts| - 1], x) then KidsAt(ts[|ts| - 1], x)
    else KidsAtAll(ts[..|ts| - 1], x)
  }

  /** The tree with other children for x. */
  ghost function Replace(t: ITree, x: Element, ks: seq<ITree>): (r: ITree)
    decreases t, 1
  {
    if t.ILeaf? then t
    else if t.e == x then t.(kids := ks)
    else t.(kids := ReplaceAll(t.kids, x, ks))
  }

  ghost function ReplaceAll(ts: seq<ITree>, x: Element, ks: seq<ITree>): (r: seq<ITree>)
    ensures |r| == |ts|
    decreases ts, 0
  {
    if ts == [] then [] else ReplaceAll(ts[..|ts| - 1], x, ks) + [Replace(ts[|ts| - 1], x, ks)]
  }

  // ------------------------------------------------------------------- basic facts

  lemma {:induction false} HasObject(t: ITree, x: Element)
    requires Has(t, x)
    ensures x in Objects(t) && ObjectsAll(KidsAt(t, x)) <= Objects(t)
    decreases t, 1
  {
    if t.e != x {
      HasObjectAll(t.kids, x);
    }
  }

  lemma {:induction false} HasObjectAll(ts: seq<ITree>, x: Element)
    requires HasAll(ts, x)
    ensures x in ObjectsAll(ts) && ObjectsAll(KidsAtAll(ts, x)) <= ObjectsAll(ts)
    decreases ts, 0
  {
    if Has(ts[|ts| - 1], x) {
      HasObject(ts[|ts| - 1], x);
    } else {
      HasObjectAll(ts[..|ts| - 1], x);
    }
  }

  lemma {:induction false} ReplaceNothing(t: ITree, x: Element, ks: seq<ITree>)
    requires !Has(t, x)
    ensures Replace(t, x, ks) == t
    decreases t, 1
  {
    if t.IElem? {
      ReplaceNothingAll(t.kids, x, ks);
    }
  }

  lemma {:induction false} ReplaceNothingAll(ts: seq<ITree>, x: Element, ks: seq<ITree>)
    requires !HasAll(ts, x)
    ensures ReplaceAll(ts, x, ks) == ts
    decreases ts, 0
  {
    if ts != [] {
      ReplaceNothingAll(ts[..|ts| - 1], x, ks);
      ReplaceNothing(ts[|ts| - 1], x, ks);
    }
  }

  /** In a list of disjoint trees at most one holds x. */
  lemma OnlyOne(ts: seq<ITree>, x: Element)
    requires ts != [] && DistinctAll(ts)
    ensures !(HasAll(ts[..|ts| - 1], x) && Has(ts[|ts| - 1], x))
  {
    if HasAll(ts[..|ts| - 1], x) && Has(ts[|ts| - 1], x) {
      HasObjectAll(ts[..|ts| - 1], x);
      HasObject(ts[|ts| - 1], x);
    }
  }

  /** The children put in are new or were children of x before. */
  ghost predicate Exchange(t: ITree, x: Element, ks: seq<ITree>) {
    && DistinctAll(ks) && x !in ObjectsAll(ks)
    && ObjectsAll(ks) !! (Objects(t) - ObjectsAll(KidsAt(t, x)))
  }

  lemma {:induction false} ReplaceObjects(t: ITree, x: Element, ks: seq<ITree>)
    requires Distinct(t) && Has(t, x) && Exchange(t, x, ks)
    ensures Distinct(Replace(t, x, ks))
    ensures Objects(Replace(t, x, ks)) == (Objects(t) - ObjectsAll(KidsAt(t, x))) + ObjectsAll(ks)
    decreases t, 2
  {
    if t.e != x {
      HasObjectAll(t.kids, x);
      ReplaceObjectsAll(t.kids, x, ks);
    }
  }

  lemma SwapInUnion(a: set<object>, c: set<object>, k: set<object>, n: set<object>)
    requires k <= c && a !! c
    ensures a + ((c - k) + n) == ((a + c) - k) + n
    ensures n !! ((a + c) - k) ==> n !! a && n !! (c - k)
  {
  }

  lemma {:induction false} ReplaceObjectsAll(ts: seq<ITree>, x: Element, ks: seq<ITree>)
    requires DistinctAll(ts) && HasAll(ts, x) && DistinctAll(ks) && x !in ObjectsAll(ks)
    requires ObjectsAll(ks) !! (ObjectsAll(ts) - ObjectsAll(KidsAtAll(ts, x)))
    ensures DistinctAll(ReplaceAll(ts, x, ks))
    ensures ObjectsAll(ReplaceAll(ts, x, ks)) == (ObjectsAll(ts) - ObjectsAll(KidsAtAll(ts, x))) + ObjectsAll(ks)
    decreases ts, 1
  {
    OnlyOne(ts, x);
    if Has(ts[|ts| - 1], x) {
      ReplaceInLast(ts, x, ks);
    } else {
      var front, c := ts[..|ts| - 1], ts[|ts| - 1];
      HasObjectAll(front, x);
      SwapInUnion(Objects(c), ObjectsAll(front), ObjectsAll(KidsAtAll(front, x)), ObjectsAll(ks));
      ReplaceObjectsAll(front, x, ks);
      ReplaceInFront(ts, x, ks);
    }
  }

  lemma ReplaceInFront(ts: seq<ITree>, x: Element, ks: seq<ITree>)
    requires ts != [] && DistinctAll(ts) && !Has(ts[|ts| - 1], x) && HasAll(ts[..|ts| - 1], x)
    requires ObjectsAll(ks) !! (ObjectsAll(ts) - ObjectsAll(KidsAtAll(ts, x)))
    requires var front := ts[..|ts| - 1];
             && DistinctAll(ReplaceAll(front, x, ks))
             && ObjectsAll(ReplaceAll(front, x, ks))
                == (ObjectsAll(front) - ObjectsAll(KidsAtAll(front, x))) + ObjectsAll(ks)
    ensures DistinctAll(ReplaceAll(ts, x, ks))
    ensures ObjectsAll(ReplaceAll(ts, x, ks)) == (ObjectsAll(ts) - ObjectsAll(KidsAtAll(ts, x))) + ObjectsAll(ks)
  {
    var front, c := ts[..|ts| - 1], ts[|ts| - 1];
    HasObjectAll(front, x);
    SwapInUnion(Objects(c), ObjectsAll(front), ObjectsAll(KidsAtAll(front, x)), ObjectsAll(ks));
    ReplaceNothing(c, x, ks);
    AddLast(ReplaceAll(front, x, ks), c);
  }

  lemma ReplaceInLast(ts: seq<ITree>, x: Element, ks: seq<ITree>)
    requires ts != [] && DistinctAll(ts) && Has(ts[|ts| - 1], x) && DistinctAll(ks) && x !in ObjectsAll(ks)
    requires ObjectsAll(ks) !! (ObjectsAll(ts) - ObjectsAll(KidsAtAll(ts, x)))
    ensures DistinctAll(ReplaceAll(ts, x, ks))
    ensures ObjectsAll(ReplaceAll(ts, x, ks)) == (ObjectsAll(ts) - ObjectsAll(KidsAtAll(ts, x))) + ObjectsAll(ks)
    decreases ts, 0
  {
    var front, c := ts[..|ts| - 1], ts[|ts| - 1];
    OnlyOne(ts, x);
    HasObject(c, x);
    SwapInUnion(ObjectsAll(front), Objects(c), ObjectsAll(KidsAt(c, x)), ObjectsAll(ks));
    ReplaceNothingAll(front, x, ks);
    ReplaceObjects(c, x, ks);
    AddLast(front, Replace(c, x, ks));
  }

  // ------------------------------------------------------------------ on the heap

  /** What the objects of x hold. */
  lemma {:induction false} HeldAt(t: ITree, p: Element?, x: Element)
    requires Has(t, x) && Holds(t, p) && Distinct(t)
    ensures x.child == TokensOf(KidsAt(t, x)) && HoldsAll(KidsAt(t, x), x)
    ensures DistinctAll(KidsAt(t, x)) && x !in ObjectsAll(KidsAt(t, x))
    decreases t, 1
  {
    if t.e != x {
      HeldAtAll(t.kids, t.e, x);
    }
  }

  lemma {:induction false} HeldAtAll(ts: seq<ITree>, p: Element?, x: Element)
    requires HasAll(ts, x) && HoldsAll(ts, p) && DistinctAll(ts)
    ensures x.child == TokensOf(KidsAtAll(ts, x)) && HoldsAll(KidsAtAll(ts, x), x)
    ensures DistinctAll(KidsAtAll(ts, x)) && x !in ObjectsAll(KidsAtAll(ts, x))
    decreases ts, 0
  {
    if Has(ts[|ts| - 1], x) {
      HeldAt(ts[|ts| - 1], p, x);
    } else {
      HeldAtAll(ts[..|ts| - 1], p, x);
    }
  }

  /** x got the children ks and nothing outside x and its children changed. */
  twostate predicate Edited(new x: Element, new kids: seq<ITree>, new ks: seq<ITree>, new rest: set<object>)
    reads x, ObjectsAll(ks), rest
  {
    && old(allocated(x))
    && x.child == TokensOf(ks) && HoldsAll(ks, x)
    && x.space == old(x.space) && x.tag == old(x.tag) && x.attr == old(x.attr) && x.parent == old(x.parent)
    && Same(rest)
  }

  twostate lemma {:induction false} ReplaceHolds(t: ITree, new p: Element?, new x: Element, new ks: seq<ITree>)
    requires old(allocated(p)) && old(allocated(x)) && Distinct(t) && Has(t, x) && old(Holds(t, p))
    requires Edited(x, KidsAt(t, x), ks, Objects(t) - ObjectsAll(KidsAt(t, x)) - {x})
    ensures Holds(Replace(t, x, ks), p)
    decreases t, 1
  {
    if t.e != x {
      var rest := Objects(t) - ObjectsAll(KidsAt(t, x)) - {x};
      HasObjectAll(t.kids, x);
      SameElement(rest, t.e);
      SameSubset(rest, ObjectsAll(t.kids) - ObjectsAll(KidsAtAll(t.kids, x)) - {x});
      ReplaceHoldsAll(t.kids, t.e, x, ks);
      TokensReplaced(t.kids, x, ks);
    }
  }

  lemma {:induction false} TokensReplaced(ts: seq<ITree>, x: Element, ks: seq<ITree>)
    ensures TokensOf(ReplaceAll(ts, x, ks)) == TokensOf(ts)
  {
    if ts != [] {
      TokensReplaced(ts[..|ts| - 1], x, ks);
      AddLast(ReplaceAll(ts[..|ts| - 1], x, ks), Replace(ts[|ts| - 1], x, ks));
    }
  }

  twostate lemma {:induction false} ReplaceHoldsAll(ts: seq<ITree>, new p: Element?, new x: Element, new ks: seq<ITree>)
    requires old(allocated(p)) && old(allocated(x)) && DistinctAll(ts) && HasAll(ts, x) && old(HoldsAll(ts, p))
    requires Edited(x, KidsAtAll(ts, x), ks, ObjectsAll(ts) - ObjectsAll(KidsAtAll(ts, x)) - {x})
    ensures HoldsAll(ReplaceAll(ts, x, ks), p)
    decreases ts, 0
  {
    var front, c := ts[..|ts| - 1], ts[|ts| - 1];
    var rest := ObjectsAll(ts) - ObjectsAll(KidsAtAll(ts, x)) - {x};
    OnlyOne(ts, x);
    if Has(c, x) {
      HasObject(c, x);
      ReplaceNothingAll(front, x, ks);
      SameSubset(rest, ObjectsAll(front));
      HoldsStill(front, p);
      SameSubset(rest, Objects(c) - ObjectsAll(KidsAt(c, x)) - {x});
      ReplaceHolds(c, p, x, ks);
      HoldsLast(front, Replace(c, x, ks), p);
    } else {
      HasObjectAll(front, x);
      ReplaceNothing(c, x, ks);
      SameSubset(rest, Objects(c));
      TreeStill(c, p);
      SameSubset(rest, ObjectsAll(front) - ObjectsAll(KidsAtAll(front, x)) - {x});
      ReplaceHoldsAll(front, p, x, ks);
      HoldsLast(ReplaceAll(front, x, ks), c, p);
    }
  }
}
