/** The picture of a tree of objects that queries look at. */
module HeapStore {
  import opened Basics
  import opened XmlModel
  import opened ETree
  import opened HeapTree
  import opened PathModel
  import E = PathEngine
  import D = Descendants

  /** The elements among the children. */
  ghost function ElementRefs(ts: seq<ITree>): (r: seq<Element>)
  {
    if ts == [] then []
    else ElementRefs(ts[..|ts| - 1]) + if ts[|ts| - 1].IElem? then [ts[|ts| - 1].e] else []
  }

  ghost function TextIn(ts: seq<ITree>): (s: string) {
    if ts != [] && ts[0].ILeaf? && ts[0].value.CharData? then ts[0].value.data else ""
  }

  ghost function StoreOf(t: ITree, p: Option<Element>): (st: Store<Element>)
    decreases t, 1
  {
    match t
    case ILeaf(_, _) => map[]
    case IElem(e, space, tag, attr, kids) =>
      StoreAll(kids, Some(e))[e := View(space, tag, attr, ElementRefs(kids), TextIn(kids), p)]
  }

  ghost function StoreAll(ts: seq<ITree>, p: Option<Element>): (st: Store<Element>)
    decreases ts, 0
  {
    if ts == [] then map[] else StoreAll(ts[..|ts| - 1], p) + StoreOf(ts[|ts| - 1], p)
  }

  /** How many elements a tree has. */
  ghost function Count(t: ITree): (n: nat)
    decreases t, 1
  {
    if t.ILeaf? then 0 else 1 + CountAll(t.kids)
  }

  ghost function CountAll(ts: seq<ITree>): (n: nat)
    decreases ts, 0
  {
    if ts == [] then 0 else CountAll(ts[..|ts| - 1]) + Count(ts[|ts| - 1])
  }

  /** The height of an element: the number of elements below it. */
  ghost function RankOf(t: ITree): (r: map<Element, nat>)
    decreases t, 1
  {
    match t
    case ILeaf(_, _) => map[]
    case IElem(e, _, _, _, kids) => RankAll(kids)[e := CountAll(kids)]
  }

  ghost function RankAll(ts: seq<ITree>): (r: map<Element, nat>)
    decreases ts, 0
  {
    if ts == [] then map[] else RankAll(ts[..|ts| - 1]) + RankOf(ts[|ts| - 1])
  }

  // ----------------------------------------------------------------- keys and sizes

  lemma {:induction false} StoreInObjects(t: ITree, p: Option<Element>)
    ensures forall x :: x in StoreOf(t, p) ==> x in Objects(t)
    decreases t, 1
  {
    if t.IElem? {
      StoreAllInObjects(t.kids, Some(t.e));
    }
  }

  lemma {:induction false} StoreAllInObjects(ts: seq<ITree>, p: Option<Element>)
    ensures forall x :: x in StoreAll(ts, p) ==> x in ObjectsAll(ts)
    decreases ts, 0
  {
    if ts != [] {
      StoreAllInObjects(ts[..|ts| - 1], p);
      StoreInObjects(ts[|ts| - 1], p);
    }
  }

  lemma {:induction false} StoreKeys(t: ITree, p: Option<Element>)
    requires Distinct(t)
    ensures forall x :: x in StoreOf(t, p) ==> x in Objects(t)
    ensures StoreOf(t, p).Keys == RankOf(t).Keys && |StoreOf(t, p).Keys| == Count(t)
    decreases t, 1
  {
    StoreInObjects(t, p);
    if t.IElem? {
      StoreAllKeys(t.kids, Some(t.e));
      AddKey(StoreAll(t.kids, Some(t.e)).Keys, StoreOf(t, p).Keys, t.e);
      assert RankOf(t).Keys == RankAll(t.kids).Keys + {t.e};
    }
  }

  lemma AddKey(a: set<Element>, b: set<Element>, x: Element)
    requires x !in a && b == a + {x}
    ensures |b| == |a| + 1
  {
  }

  lemma AddKeys(a: set<Element>, b: set<Element>, c: set<Element>)
    requires a !! b && c == a + b
    ensures |c| == |a| + |b|
  {
  }

  lemma {:induction false} StoreAllKeys(ts: seq<ITree>, p: Option<Element>)
    requires DistinctAll(ts)
    ensures forall x :: x in StoreAll(ts, p) ==> x in ObjectsAll(ts)
    ensures StoreAll(ts, p).Keys == RankAll(ts).Keys && |StoreAll(ts, p).Keys| == CountAll(ts)
    decreases ts, 0
  {
    StoreAllInObjects(ts, p);
    if ts != [] {
      var front, c := ts[..|ts| - 1], ts[|ts| - 1];
      StoreAllKeys(front, p);
      StoreKeys(c, p);
      AddKeys(StoreAll(front, p).Keys, StoreOf(c, p).Keys, StoreAll(ts, p).Keys);
      assert RankAll(ts).Keys == RankAll(front).Keys + RankOf(c).Keys;
    }
  }

  /** One picture is part of another. */
  ghost predicate Part<V>(m: map<Element, V>, all: map<Element, V>) {
    forall x {:trigger m[x]} {:trigger x in m} :: x in m ==> x in all && all[x] == m[x]
  }

  lemma SplitParts(ts: seq<ITree>, p: Option<Element>)
    requires ts != [] && DistinctAll(ts)
    ensures var front, c := ts[..|ts| - 1], ts[|ts| - 1];
            && Part(StoreAll(front, p), StoreAll(ts, p)) && Part(StoreOf(c, p), StoreAll(ts, p))
            && Part(RankAll(front), RankAll(ts)) && Part(RankOf(c), RankAll(ts))
  {
    var front, c := ts[..|ts| - 1], ts[|ts| - 1];
    StoreAllKeys(front, p);
    StoreKeys(c, p);
  }

  lemma KidParts(t: ITree, p: Option<Element>)
    requires t.IElem? && Distinct(t)
    ensures Part(StoreAll(t.kids, Some(t.e)), StoreOf(t, p)) && Part(RankAll(t.kids), RankOf(t))
  {
    StoreAllKeys(t.kids, Some(t.e));
  }

  // ---------------------------------------------------------------- the list of kids

  lemma {:induction false} RefsAreObjects(ts: seq<ITree>, x: Element)
    requires x in ElementRefs(ts)
    ensures x in ObjectsAll(ts)
  {
    var front, c := ts[..|ts| - 1], ts[|ts| - 1];
    if x in ElementRefs(front) {
      RefsAreObjects(front, x);
    }
  }

  lemma {:induction false} RefsNoDup(ts: seq<ITree>)
    requires DistinctAll(ts)
    ensures NoDup(ElementRefs(ts))
  {
    if ts != [] {
      var front, c := ts[..|ts| - 1], ts[|ts| - 1];
      RefsNoDup(front);
      if c.IElem? && c.e in ElementRefs(front) {
        RefsAreObjects(front, c.e);
      }
    }
  }

  /** A child element is stored with its holder as parent and less height than the whole list. */
  lemma {:induction false} RefIsStored(ts: seq<ITree>, p: Option<Element>, x: Element)
    requires DistinctAll(ts) && x in ElementRefs(ts)
    ensures x in StoreAll(ts, p) && StoreAll(ts, p)[x].parent == p
    ensures x in RankAll(ts) && RankAll(ts)[x] < CountAll(ts)
  {
    var front, c := ts[..|ts| - 1], ts[|ts| - 1];
    SplitParts(ts, p);
    if c.IElem? && x == c.e {
      assert StoreOf(c, p)[x].parent == p && RankOf(c)[x] == CountAll(c.kids);
    } else {
      RefIsStored(front, p, x);
    }
  }

  // --------------------------------------------------------------------- a forest

  lemma RootIsRooted(t: ITree, p: Option<Element>, st: Store<Element>, rank: map<Element, nat>)
    requires t.IElem? && Distinct(t) && Count(t) <= |st| && (p.Some? ==> p.value in st)
    requires Part(StoreOf(t, p), st) && Part(RankOf(t), rank)
    ensures t.e in st && Rooted(st, rank, t.e)
  {
    var refs := ElementRefs(t.kids);
    KidParts(t, p);
    RefsNoDup(t.kids);
    assert t.e in StoreOf(t, p) && StoreOf(t, p)[t.e].kids == refs;
    assert t.e in RankOf(t) && RankOf(t)[t.e] == CountAll(t.kids);
    forall k | k in refs
      ensures k in st && Look(st, k).parent == Some(t.e) && k in rank && rank[k] < rank[t.e]
    {
      RefIsStored(t.kids, Some(t.e), k);
      assert StoreOf(t, p)[k] == StoreAll(t.kids, Some(t.e))[k];
      assert RankOf(t)[k] == RankAll(t.kids)[k];
    }
  }

  lemma PartOfPart<V>(a: map<Element, V>, b: map<Element, V>, c: map<Element, V>)
    requires Part(a, b) && Part(b, c)
    ensures Part(a, c)
  {
    forall x | x in a ensures x in c && c[x] == a[x] {
      assert b[x] == a[x];
    }
  }

  lemma {:induction false} TreeIsRooted(t: ITree, p: Option<Element>, st: Store<Element>, rank: map<Element, nat>,
                                        x: Element)
    requires Distinct(t) && Count(t) <= |st| && (p.Some? ==> p.value in st) && x in StoreOf(t, p)
    requires Part(StoreOf(t, p), st) && Part(RankOf(t), rank)
    ensures x in st && Rooted(st, rank, x)
    decreases t, 1
  {
    RootIsRooted(t, p, st, rank);
    if x != t.e {
      KidParts(t, p);
      PartOfPart(StoreAll(t.kids, Some(t.e)), StoreOf(t, p), st);
      PartOfPart(RankAll(t.kids), RankOf(t), rank);
      KidsAreRooted(t.kids, Some(t.e), st, rank, x);
    }
  }

  lemma {:induction false} KidsAreRooted(ts: seq<ITree>, p: Option<Element>, st: Store<Element>,
                                         rank: map<Element, nat>, x: Element)
    requires DistinctAll(ts) && CountAll(ts) <= |st| && (p.Some? ==> p.value in st) && x in StoreAll(ts, p)
    requires Part(StoreAll(ts, p), st) && Part(RankAll(ts), rank)
    ensures x in st && Rooted(st, rank, x)
    decreases ts, 0
  {
    var front, c := ts[..|ts| - 1], ts[|ts| - 1];
    SplitParts(ts, p);
    if x in StoreOf(c, p) {
      PartOfPart(StoreOf(c, p), StoreAll(ts, p), st);
      PartOfPart(RankOf(c), RankAll(ts), rank);
      TreeIsRooted(c, p, st, rank, x);
    } else {
      PartOfPart(StoreAll(front, p), StoreAll(ts, p), st);
      PartOfPart(RankAll(front), RankAll(ts), rank);
      KidsAreRooted(front, p, st, rank, x);
    }
  }

  /** The picture of a tree whose objects are all different is a forest. */
  lemma StoreIsForest(t: ITree)
    requires t.IElem? && Distinct(t)
    ensures t.e in StoreOf(t, None) && Forest(StoreOf(t, None), RankOf(t))
  {
    var st, rank := StoreOf(t, None), RankOf(t);
    StoreKeys(t, None);
    assert |st| == |st.Keys|;
    forall x | x in st ensures Rooted(st, rank, x) {
      TreeIsRooted(t, None, st, rank, x);
    }
    ForestFromElements(st, rank);
  }

  // --------------------------------------------------------------- a true picture

  ghost function LeafSet(t: ITree): (ls: set<Leaf>)
    decreases t, 1
  {
    match t
    case ILeaf(l, _) => {l}
    case IElem(_, _, _, _, kids) => LeafSetAll(kids)
  }

  ghost function LeafSetAll(ts: seq<ITree>): (ls: set<Leaf>)
    decreases ts, 0
  {
    if ts == [] then {} else LeafSetAll(ts[..|ts| - 1]) + LeafSet(ts[|ts| - 1])
  }

  lemma {:induction false} RefsOfTokens(ts: seq<ITree>)
    ensures ElementsOf(TokensOf(ts)) == ElementRefs(ts)
  {
    if ts != [] {
      var front := ts[..|ts| - 1];
      RefsOfTokens(front);
      assert TokensOf(ts)[..|ts| - 1] == TokensOf(front);
    }
  }

  lemma {:induction false} FirstLeaf(ts: seq<ITree>)
    requires ts != [] && ts[0].ILeaf?
    ensures ts[0].l in LeafSetAll(ts)
  {
    if |ts| > 1 {
      FirstLeaf(ts[..|ts| - 1]);
    }
  }

  ghost function ParentOption(p: Element?): (o: Option<Element>) {
    if p == null then None else Some(p)
  }

  lemma RootLooks(t: ITree, p: Element?)
    requires t.IElem? && Holds(t, p)
    ensures t.e in StoreOf(t, ParentOption(p)) && E.LooksLike(t.e, StoreOf(t, ParentOption(p))[t.e])
    ensures t.e.TextLeaf() <= LeafSetAll(t.kids)
  {
    RefsOfTokens(t.kids);
    if t.kids != [] {
      KidAt(t.kids, 0);
      HeldKid(t.kids, 0, t.e);
      if t.kids[0].ILeaf? {
        FirstLeaf(t.kids);
      }
    }
  }

  lemma {:induction false} TreeLooks(t: ITree, p: Element?, x: Element)
    requires Distinct(t) && Holds(t, p) && x in StoreOf(t, ParentOption(p))
    ensures E.LooksLike(x, StoreOf(t, ParentOption(p))[x]) && x.TextLeaf() <= LeafSet(t)
    decreases t, 1
  {
    RootLooks(t, p);
    if x != t.e {
      KidParts(t, ParentOption(p));
      KidsLook(t.kids, t.e, x);
    }
  }

  lemma {:induction false} KidsLook(ts: seq<ITree>, p: Element, x: Element)
    requires DistinctAll(ts) && HoldsAll(ts, p) && x in StoreAll(ts, Some(p))
    ensures E.LooksLike(x, StoreAll(ts, Some(p))[x]) && x.TextLeaf() <= LeafSetAll(ts)
    decreases ts, 0
  {
    var front, c := ts[..|ts| - 1], ts[|ts| - 1];
    SplitParts(ts, Some(p));
    if x in StoreOf(c, Some(p)) {
      TreeLooks(c, p, x);
    } else {
      KidsLook(front, p, x);
    }
  }

  /** What the objects hold is what a query sees. */
  lemma StoreIsPicture(t: ITree)
    requires t.IElem? && Distinct(t) && Holds(t, null)
    ensures E.Pictured(StoreOf(t, None), LeafSet(t))
  {
    var st := StoreOf(t, None);
    StoreIsForest(t);
    forall x | x in st ensures x.TextLeaf() <= LeafSet(t) && E.LooksLike(x, st[x]) {
      TreeLooks(t, null, x);
    }
  }

  // ------------------------------------------------------------- everything is below

  lemma {:induction false} TreeIsBelow(t: ITree, p: Option<Element>, st: Store<Element>, root: Element, d: nat,
                                       x: Element)
    returns (d': nat)
    requires Distinct(t) && Part(StoreOf(t, p), st) && x in StoreOf(t, p)
    requires t.IElem? ==> D.LiesBelow(st, root, t.e, d)
    ensures d <= d' && D.LiesBelow(st, root, x, d')
    decreases t, 1
  {
    if x == t.e {
      d' := d;
    } else {
      KidParts(t, p);
      PartOfPart(StoreAll(t.kids, Some(t.e)), StoreOf(t, p), st);
      assert StoreOf(t, p)[t.e].kids == ElementRefs(t.kids);
      assert st[t.e] == StoreOf(t, p)[t.e];
      d' := KidsAreBelow(t.kids, t.e, st, root, d, x);
    }
  }

  lemma {:induction false} KidsAreBelow(ts: seq<ITree>, p: Element, st: Store<Element>, root: Element, d: nat,
                                        x: Element)
    returns (d': nat)
    requires DistinctAll(ts) && Part(StoreAll(ts, Some(p)), st) && x in StoreAll(ts, Some(p))
    requires D.LiesBelow(st, root, p, d)
    requires forall k :: k in ElementRefs(ts) ==> k in Look(st, p).kids
    ensures d < d' && D.LiesBelow(st, root, x, d')
    decreases ts, 0
  {
    var front, c := ts[..|ts| - 1], ts[|ts| - 1];
    SplitParts(ts, Some(p));
    if x in StoreOf(c, Some(p)) {
      PartOfPart(StoreOf(c, Some(p)), StoreAll(ts, Some(p)), st);
      assert c.e in ElementRefs(ts);
      assert StoreOf(c, Some(p))[c.e].parent == Some(p);
      assert st[c.e].parent == Some(p);
      d' := TreeIsBelow(c, Some(p), st, root, d + 1, x);
    } else {
      PartOfPart(StoreAll(front, Some(p)), StoreAll(ts, Some(p)), st);
      d' := KidsAreBelow(front, p, st, root, d, x);
    }
  }

  // ------------------------------------------------------------ finding by name

  /** The elements of a tree with this name. */
  ghost function Tagged(t: ITree, space: string, tag: string): (r: set<Element>)
    decreases t, 1
  {
    match t
    case ILeaf(_, _) => {}
    case IElem(e, s, n, _, kids) =>
      TaggedAll(kids, space, tag) + if SpaceMatch(space, s) && tag == n then {e} else {}
  }

  ghost function TaggedAll(ts: seq<ITree>, space: string, tag: string): (r: set<Element>)
    decreases ts, 0
  {
    if ts == [] then {} else TaggedAll(ts[..|ts| - 1], space, tag) + Tagged(ts[|ts| - 1], space, tag)
  }

  lemma {:induction false} TaggedInStore(t: ITree, p: Option<Element>, space: string, tag: string, x: Element)
    requires Distinct(t)
    ensures x in Tagged(t, space, tag) <==> x in StoreOf(t, p) && ElementMatch(StoreOf(t, p)[x], space, tag)
    decreases t, 1
  {
    if t.IElem? {
      StoreAllKeys(t.kids, Some(t.e));
      TaggedAllInStore(t.kids, Some(t.e), space, tag, x);
    }
  }

  lemma {:induction false} TaggedAllInStore(ts: seq<ITree>, p: Option<Element>, space: string, tag: string, x: Element)
    requires DistinctAll(ts)
    ensures x in TaggedAll(ts, space, tag) <==> x in StoreAll(ts, p) && ElementMatch(StoreAll(ts, p)[x], space, tag)
    decreases ts, 0
  {
    if ts != [] {
      SplitParts(ts, p);
      TaggedAllInStore(ts[..|ts| - 1], p, space, tag, x);
      TaggedInStore(ts[|ts| - 1], p, space, tag, x);
    }
  }

  lemma BelowRootIsStored(t: ITree, x: Element, d: nat)
    requires t.IElem? && Distinct(t) && d > 0 && D.LiesBelow(StoreOf(t, None), t.e, x, d)
    ensures x in StoreAll(t.kids, Some(t.e))
  {
    StoreIsForest(t);
    D.BelowIsLower(StoreOf(t, None), RankOf(t), t.e, x, d);
  }

  lemma StoredIsBelowRoot(t: ITree, x: Element) returns (d: nat)
    requires t.IElem? && Distinct(t) && x in StoreAll(t.kids, Some(t.e))
    ensures d > 0 && D.LiesBelow(StoreOf(t, None), t.e, x, d)
  {
    KidParts(t, None);
    d := KidsAreBelow(t.kids, t.e, StoreOf(t, None), t.e, 0, x);
  }

  lemma BelowRoot(t: ITree, x: Element)
    requires t.IElem? && Distinct(t)
    ensures (exists d: nat :: d > 0 && D.LiesBelow(StoreOf(t, None), t.e, x, d)) <==> x in StoreAll(t.kids, Some(t.e))
  {
    if x in StoreAll(t.kids, Some(t.e)) {
      var d := StoredIsBelowRoot(t, x);
      assert exists d: nat :: d > 0 && D.LiesBelow(StoreOf(t, None), t.e, x, d);
    } else {
      forall d: nat | d > 0 ensures !D.LiesBelow(StoreOf(t, None), t.e, x, d) {
        if D.LiesBelow(StoreOf(t, None), t.e, x, d) {
          BelowRootIsStored(t, x, d);
        }
      }
    }
  }

  lemma TaggedBelowRoot(t: ITree, space: string, tag: string, x: Element)
    requires t.IElem? && Distinct(t)
    ensures x in TaggedAll(t.kids, space, tag)
       <==> x in StoreAll(t.kids, Some(t.e)) && ElementMatch(Look(StoreOf(t, None), x), space, tag)
  {
    KidParts(t, None);
    TaggedAllInStore(t.kids, Some(t.e), space, tag, x);
  }

  /** `//space:tag` from the root finds exactly the elements below the root with that name, each once. */
  lemma DeepTagFinds(t: ITree, space: string, tag: string, x: Element)
    requires t.IElem? && Distinct(t)
    ensures NoDup(Query(StoreOf(t, None), D.DeepTag(space, tag), t.e))
    ensures x in Query(StoreOf(t, None), D.DeepTag(space, tag), t.e) <==> x in TaggedAll(t.kids, space, tag)
  {
    BelowRoot(t, x);
    TaggedBelowRoot(t, space, tag, x);
    StoreIsForest(t);
    D.DeepTagExact(StoreOf(t, None), RankOf(t), space, tag, t.e, x);
  }

  /** The elements below the root with the name, in breadth-first order. */
  ghost function Breadth(t: ITree, space: string, tag: string): (r: seq<Element>)
    requires t.IElem? && Distinct(t)
  {
    StoreIsForest(t);
    D.DeepTagList(StoreOf(t, None), RankOf(t), space, tag, t.e);
    TaggedKids(StoreOf(t, None), Select(StoreOf(t, None), Selector.Descendants, t.e)[1..], space, tag)
  }

  lemma DeepTagOrder(t: ITree, space: string, tag: string)
    requires t.IElem? && Distinct(t)
    ensures Query(StoreOf(t, None), D.DeepTag(space, tag), t.e) == Breadth(t, space, tag)
  {
    StoreIsForest(t);
    D.DeepTagList(StoreOf(t, None), RankOf(t), space, tag, t.e);
  }
}
