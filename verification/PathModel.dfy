/**
 What a path query means (etree/path.go), independent of queues and buffers.

 A `Store` is a picture of an element tree at one moment: every element, named by a value of an
 arbitrary type N, with the data a query can look at.
 */
module PathModel {
  import opened Basics

  datatype View<N> = View(space: string, tag: string, attr: seq<Attr>, kids: seq<N>,
                          text: string, parent: Option<N>)

  type Store<N> = map<N, View<N>>

  datatype Selector = Self | Parent | Children | Descendants | ByTag(space: string, tag: string)

  /** `Pos` holds the compiled index: 0-based from the front, or negative from the end. */
  datatype Filter =
    | Pos(index: int)
    | HasAttr(space: string, key: string)
    | AttrVal(space: string, key: string, val: string)
    | HasChild(space: string, tag: string)
    | ChildText(space: string, tag: string, text: string)

  datatype Segment = Segment(sel: Selector, filters: seq<Filter>)

  type Group = seq<Segment>

  type Path = seq<Group>

  /** What is known of element e; nothing for an element that is not stored. */
  function Look<N>(st: Store<N>, e: N): (v: View<N>) {
    if e in st then st[e] else View("", "", [], [], "", None)
  }

  ghost predicate Within<N>(st: Store<N>, es: seq<N>) {
    forall x :: x in es ==> x in st
  }

  /** Kids and parents of a stored element are stored too. */
  ghost predicate Closed<N>(st: Store<N>) {
    && (forall e {:trigger st[e].kids} :: e in st ==> Within(st, st[e].kids))
    && (forall e {:trigger st[e].parent} :: e in st && st[e].parent.Some? ==> st[e].parent.value in st)
  }

  /** Kids have a smaller height than their parent; heights fit below the number of elements. */
  ghost predicate Ranked<N>(st: Store<N>, rank: map<N, nat>) {
    forall e {:trigger rank[e]} {:trigger st[e].kids} :: e in st ==>
      e in rank && rank[e] < |st| && Below(rank, st[e].kids, rank[e])
  }

  /** All these elements have height below n. */
  ghost predicate Below<N>(rank: map<N, nat>, es: seq<N>, n: nat) {
    forall x :: x in es ==> x in rank && rank[x] < n
  }

  /** Kids name their holder as parent, and an element lists each kid once. */
  ghost predicate Linked<N>(st: Store<N>) {
    forall e {:trigger st[e].kids} :: e in st ==>
      && NoDup(st[e].kids)
      && forall k :: k in st[e].kids ==> Look(st, k).parent == Some(e)
  }

  /** A finite forest of elements with consistent parent pointers. */
  ghost predicate Forest<N>(st: Store<N>, rank: map<N, nat>) {
    Closed(st) && Linked(st) && Ranked(st, rank)
  }

  /** What makes a forest, at one element. */
  ghost predicate Rooted<N>(st: Store<N>, rank: map<N, nat>, e: N)
    requires e in st
  {
    && Within(st, st[e].kids) && NoDup(st[e].kids)
    && (forall k :: k in st[e].kids ==> Look(st, k).parent == Some(e))
    && (st[e].parent.Some? ==> st[e].parent.value in st)
    && e in rank && rank[e] < |st| && Below(rank, st[e].kids, rank[e])
  }

  lemma ForestFromElements<N>(st: Store<N>, rank: map<N, nat>)
    requires forall e :: e in st ==> Rooted(st, rank, e)
    ensures Forest(st, rank)
  {
  }

  // ---------------------------------------------------------------- selectors

  predicate ElementMatch<N>(v: View<N>, space: string, tag: string) {
    SpaceMatch(space, v.space) && tag == v.tag
  }

  function TaggedKids<N>(st: Store<N>, kids: seq<N>, space: string, tag: string): (r: seq<N>)
  {
    if kids == [] then []
    else
      var n := |kids| - 1;
      TaggedKids(st, kids[..n], space, tag)
      + if ElementMatch(Look(st, kids[n]), space, tag) then [kids[n]] else []
  }

  /** The kids of a row of elements, row order kept. */
  function KidsOf<N>(st: Store<N>, es: seq<N>): (r: seq<N>)
  {
    if es == [] then [] else Look(st, es[0]).kids + KidsOf(st, es[1..])
  }

  /** A row of elements, then all their kids, then all grandkids, for at most n rows. */
  function LevelOrder<N>(st: Store<N>, row: seq<N>, n: nat): (r: seq<N>)
    decreases n
  {
    if n == 0 || row == [] then [] else row + LevelOrder(st, KidsOf(st, row), n - 1)
  }

  function Select<N>(st: Store<N>, sel: Selector, e: N): (r: seq<N>)
  {
    match sel
    case Self => [e]
    case Parent => if Look(st, e).parent.Some? then [Look(st, e).parent.value] else []
    case Children => Look(st, e).kids
    case Descendants => LevelOrder(st, [e], |st|)
    case ByTag(space, tag) => TaggedKids(st, Look(st, e).kids, space, tag)
  }

  // ------------------------------------------------------------------ filters

  predicate AttrMatch(a: Attr, f: Filter)
    requires f.HasAttr? || f.AttrVal?
  {
    SpaceMatch(f.space, a.space) && f.key == a.key && (f.AttrVal? ==> f.val == a.value)
  }

  predicate KidMatch<N>(v: View<N>, f: Filter)
    requires f.HasChild? || f.ChildText?
  {
    ElementMatch(v, f.space, f.tag) && (f.ChildText? ==> f.text == v.text)
  }

  /** How many of the kids satisfy a child filter. */
  function CountKids<N>(st: Store<N>, kids: seq<N>, f: Filter): (c: nat)
    requires f.HasChild? || f.ChildText?
  {
    if kids == [] then 0
    else CountKids(st, kids[..|kids| - 1], f) + if KidMatch(Look(st, kids[|kids| - 1]), f) then 1 else 0
  }

  /** How many copies of a candidate a filter passes on: the code counts every matching child. */
  function Copies<N>(st: Store<N>, f: Filter, x: N): (c: nat)
    requires !f.Pos?
  {
    if f.HasAttr? || f.AttrVal? then
      if exists i :: 0 <= i < |Look(st, x).attr| && AttrMatch(Look(st, x).attr[i], f) then 1 else 0
    else
      CountKids(st, Look(st, x).kids, f)
  }

  function Repeat<T>(x: T, n: nat): (r: seq<T>)
    ensures |r| == n && forall i :: 0 <= i < n ==> r[i] == x
  {
    seq(n, _ => x)
  }

  function Expand<N>(st: Store<N>, f: Filter, es: seq<N>): (r: seq<N>)
    requires !f.Pos?
  {
    if es == [] then []
    else Expand(st, f, es[..|es| - 1]) + Repeat(es[|es| - 1], Copies(st, f, es[|es| - 1]))
  }

  function Pick<T>(es: seq<T>, index: int): (r: seq<T>)
  {
    if index >= 0 then
      if index < |es| then [es[index]] else []
    else
      if -index <= |es| then [es[|es| + index]] else []
  }

  function FilterStep<N>(st: Store<N>, f: Filter, es: seq<N>): (r: seq<N>)
  {
    if f.Pos? then Pick(es, f.index) else Expand(st, f, es)
  }

  function FilterAll<N>(st: Store<N>, fs: seq<Filter>, es: seq<N>): (r: seq<N>)
  {
    if fs == [] then es
    else FilterStep(st, fs[|fs| - 1], FilterAll(st, fs[..|fs| - 1], es))
  }

  // ------------------------------------------------------------------ meaning

  function Apply<N>(st: Store<N>, seg: Segment, e: N): (r: seq<N>)
  {
    FilterAll(st, seg.filters, Select(st, seg.sel, e))
  }

  /** The recursive flat-map meaning of the remaining segments at one element. */
  function Meaning<N>(st: Store<N>, segs: Group, e: N): (r: seq<N>)
    decreases |segs|, 0, 0
  {
    if segs == [] then [e] else MeaningAll(st, segs[1..], Apply(st, segs[0], e))
  }

  function MeaningAll<N>(st: Store<N>, segs: Group, es: seq<N>): (r: seq<N>)
    decreases |segs|, 1, |es|
  {
    if es == [] then [] else Meaning(st, segs, es[0]) + MeaningAll(st, segs, es[1..])
  }

  /** All groups of a path, one after the other. */
  function PathMeaning<N>(st: Store<N>, path: Path, e: N): (r: seq<N>)
  {
    if path == [] then []
    else PathMeaning(st, path[..|path| - 1], e) + Meaning(st, path[|path| - 1], e)
  }

  /** What a query returns. */
  function Query<N(==)>(st: Store<N>, path: Path, e: N): (r: seq<N>)
  {
    Dedup(PathMeaning(st, path, e))
  }

  // ------------------------------------------------------- queries stay inside

  lemma {:induction false} TaggedKidsExact<N>(st: Store<N>, kids: seq<N>, space: string, tag: string, x: N)
    ensures x in TaggedKids(st, kids, space, tag) <==> x in kids && ElementMatch(Look(st, x), space, tag)
  {
    if kids != [] {
      var n := |kids| - 1;
      TaggedKidsExact(st, kids[..n], space, tag, x);
      assert kids == kids[..n] + [kids[n]];
    }
  }

  lemma {:induction false} KidsOfWithin<N>(st: Store<N>, es: seq<N>)
    requires Closed(st) && Within(st, es)
    ensures Within(st, KidsOf(st, es))
  {
    if es != [] {
      KidsOfWithin(st, es[1..]);
    }
  }

  lemma {:induction false} LevelOrderWithin<N>(st: Store<N>, row: seq<N>, n: nat)
    requires Closed(st) && Within(st, row)
    ensures Within(st, LevelOrder(st, row, n))
    decreases n
  {
    if n != 0 && row != [] {
      KidsOfWithin(st, row);
      LevelOrderWithin(st, KidsOf(st, row), n - 1);
    }
  }

  lemma SelectWithin<N>(st: Store<N>, sel: Selector, e: N)
    requires Closed(st) && e in st
    ensures Within(st, Select(st, sel, e))
  {
    match sel
    case Descendants => LevelOrderWithin(st, [e], |st|);
    case ByTag(space, tag) =>
      forall x | x in Select(st, sel, e) ensures x in st {
        TaggedKidsExact(st, st[e].kids, space, tag, x);
      }
    case Self =>
    case Children =>
    case Parent =>
  }

  lemma {:induction false} ExpandIsSubset<N>(st: Store<N>, f: Filter, es: seq<N>, x: N)
    requires !f.Pos? && x in Expand(st, f, es)
    ensures x in es
  {
    if es != [] {
      var n := |es| - 1;
      if x in Expand(st, f, es[..n]) {
        ExpandIsSubset(st, f, es[..n], x);
      }
    }
  }

  lemma {:induction false} FilterAllIsSubset<N>(st: Store<N>, fs: seq<Filter>, es: seq<N>, x: N)
    requires x in FilterAll(st, fs, es)
    ensures x in es
  {
    if fs != [] {
      var n := |fs| - 1;
      var inner := FilterAll(st, fs[..n], es);
      if !fs[n].Pos? {
        ExpandIsSubset(st, fs[n], inner, x);
      }
      FilterAllIsSubset(st, fs[..n], es, x);
    }
  }

  lemma FilterAllWithin<N>(st: Store<N>, fs: seq<Filter>, es: seq<N>)
    requires Within(st, es)
    ensures Within(st, FilterAll(st, fs, es))
  {
    forall x | x in FilterAll(st, fs, es) ensures x in st {
      FilterAllIsSubset(st, fs, es, x);
    }
  }

  lemma ApplyWithin<N>(st: Store<N>, seg: Segment, e: N)
    requires Closed(st) && e in st
    ensures Within(st, Apply(st, seg, e))
  {
    SelectWithin(st, seg.sel, e);
    FilterAllWithin(st, seg.filters, Select(st, seg.sel, e));
  }

  lemma {:induction false} MeaningWithin<N>(st: Store<N>, segs: Group, e: N)
    requires Closed(st) && e in st
    ensures Within(st, Meaning(st, segs, e))
    decreases |segs|, 0, 0
  {
    if segs != [] {
      ApplyWithin(st, segs[0], e);
      MeaningAllWithin(st, segs[1..], Apply(st, segs[0], e));
    }
  }

  lemma {:induction false} MeaningAllWithin<N>(st: Store<N>, segs: Group, es: seq<N>)
    requires Closed(st) && Within(st, es)
    ensures Within(st, MeaningAll(st, segs, es))
    decreases |segs|, 1, |es|
  {
    if es != [] {
      MeaningWithin(st, segs, es[0]);
      MeaningAllWithin(st, segs, es[1..]);
    }
  }

  lemma {:induction false} PathMeaningWithin<N>(st: Store<N>, path: Path, e: N)
    requires Closed(st) && e in st
    ensures Within(st, PathMeaning(st, path, e))
  {
    if path != [] {
      PathMeaningWithin(st, path[..|path| - 1], e);
      MeaningWithin(st, path[|path| - 1], e);
    }
  }

  lemma {:induction false} PathMeaningMember<N>(st: Store<N>, path: Path, e: N, x: N)
    ensures x in PathMeaning(st, path, e) <==> exists i :: 0 <= i < |path| && x in Meaning(st, path[i], e)
  {
    if path != [] {
      var n := |path| - 1;
      PathMeaningMember(st, path[..n], e, x);
      if i :| 0 <= i < |path| && x in Meaning(st, path[i], e) {
        assert i < n ==> path[..n][i] == path[i];
      }
      if i :| 0 <= i < n && x in Meaning(st, path[..n][i], e) {
        assert path[..n][i] == path[i];
      }
    }
  }

  /** A query answers each once with exactly the elements that some group means, all of them stored. */
  lemma QueryIsSet<N>(st: Store<N>, path: Path, e: N)
    requires Closed(st) && e in st
    ensures NoDup(Query(st, path, e)) && Within(st, Query(st, path, e))
    ensures forall x :: x in Query(st, path, e) <==> exists i :: 0 <= i < |path| && x in Meaning(st, path[i], e)
  {
    var m := PathMeaning(st, path, e);
    PathMeaningWithin(st, path, e);
    DedupIsSet(m);
    assert Query(st, path, e) == Dedup(m);
    forall x | x in Dedup(m) ensures x in st {
      DedupMember(m, x);
    }
    forall x ensures x in Query(st, path, e) <==> exists i :: 0 <= i < |path| && x in Meaning(st, path[i], e) {
      PathMeaningMember(st, path, e, x);
    }
  }

  // -------------------------------------------------- facts used by the engine

  lemma {:induction false} MeaningAllConcat<N>(st: Store<N>, segs: Group, a: seq<N>, b: seq<N>)
    ensures MeaningAll(st, segs, a + b) == MeaningAll(st, segs, a) + MeaningAll(st, segs, b)
    decreases |a|
  {
    if a == [] {
      assert a + b == b;
    } else {
      MeaningAllConcat(st, segs, a[1..], b);
      assert (a + b)[1..] == a[1..] + b;
    }
  }

  lemma {:induction false} MeaningAllHas<N>(st: Store<N>, segs: Group, es: seq<N>, x: N, y: N)
    requires x in es && y in Meaning(st, segs, x)
    ensures y in MeaningAll(st, segs, es)
    decreases |es|
  {
    if x != es[0] {
      MeaningAllHas(st, segs, es[1..], x, y);
    }
  }

  lemma {:induction false} MeaningAllOfNone<N>(st: Store<N>, es: seq<N>)
    ensures MeaningAll(st, [], es) == es
  {
    if es != [] {
      MeaningAllOfNone(st, es[1..]);
      assert es == [es[0]] + es[1..];
    }
  }

  // ------------------------------------------------ breadth-first listing

  /**
   A breadth-first walk in progress: `seen` has been listed, the queue holds `a + b`, where `a` is
   the rest of the current row and `b` the kids of the part of the row already listed.
   */
  ghost predicate Walking<N>(st: Store<N>, total: seq<N>, seen: seq<N>, a: seq<N>, b: seq<N>, n: nat)
  {
    total == seen + a + LevelOrder(st, b + KidsOf(st, a), n)
  }

  lemma WalkStart<N>(st: Store<N>, e: N)
    ensures Walking(st, Select(st, Descendants, e), [], [], [e], |st|)
  {
    assert [e] + [] == [e];
    assert [] + [] + LevelOrder(st, [e], |st|) == LevelOrder(st, [e], |st|);
  }

  lemma WalkTurn<N>(st: Store<N>, total: seq<N>, seen: seq<N>, b: seq<N>, n: nat)
    requires Walking(st, total, seen, [], b, n) && n > 0
    ensures Walking(st, total, seen, b, [], n - 1)
  {
    var rest := LevelOrder(st, KidsOf(st, b), n - 1);
    assert b + KidsOf(st, []) == b && [] + KidsOf(st, b) == KidsOf(st, b);
    assert LevelOrder(st, b, n) == b + rest;
    Assoc(seen, b, rest);
    assert seen + [] == seen;
  }

  lemma WalkStep<N>(st: Store<N>, total: seq<N>, seen: seq<N>, a: seq<N>, b: seq<N>, n: nat)
    requires Walking(st, total, seen, a, b, n) && a != []
    ensures Walking(st, total, seen + [a[0]], a[1..], b + Look(st, a[0]).kids, n)
  {
    var kids, rest := Look(st, a[0]).kids, KidsOf(st, a[1..]);
    Assoc(b, kids, rest);
    assert KidsOf(st, a) == kids + rest;
    assert seen + a == seen + [a[0]] + a[1..];
  }

  /** Serving the front of the queue `a + b`. */
  lemma WalkNext<N>(st: Store<N>, rank: map<N, nat>, total: seq<N>, seen: seq<N>, q: seq<N>,
                    a: seq<N>, b: seq<N>, n: nat)
    returns (a': seq<N>, b': seq<N>, n': nat)
    requires Ranked(st, rank) && Walking(st, total, seen, a, b, n)
    requires q == a + b && q != [] && q[0] in st
    requires Below(rank, a, n + 1) && Below(rank, b, n)
    ensures Walking(st, total, seen + [q[0]], a', b', n')
    ensures q[1..] + st[q[0]].kids == a' + b'
    ensures Below(rank, a', n' + 1) && Below(rank, b', n')
    ensures |seen| < |total|
  {
    if a == [] {
      assert q == b && b[0] in b;
      WalkTurn(st, total, seen, b, n);
      a', b', n' := WalkServe(st, rank, total, seen, b, [], n - 1);
      assert b + [] == b;
    } else {
      a', b', n' := WalkServe(st, rank, total, seen, a, b, n);
    }
  }

  lemma WalkServe<N>(st: Store<N>, rank: map<N, nat>, total: seq<N>, seen: seq<N>,
                    a: seq<N>, b: seq<N>, n: nat)
    returns (a': seq<N>, b': seq<N>, n': nat)
    requires Ranked(st, rank) && Walking(st, total, seen, a, b, n)
    requires a != [] && a[0] in st
    requires Below(rank, a, n + 1) && Below(rank, b, n)
    ensures Walking(st, total, seen + [a[0]], a', b', n')
    ensures (a + b)[0] == a[0] && (a + b)[1..] + st[a[0]].kids == a' + b'
    ensures Below(rank, a', n' + 1) && Below(rank, b', n')
    ensures |seen| < |total|
  {
    WalkStep(st, total, seen, a, b, n);
    Serve(a, b, st[a[0]].kids);
    assert a[0] in a;
    a', b', n' := a[1..], b + st[a[0]].kids, n;
  }

  lemma WalkEnd<N>(st: Store<N>, total: seq<N>, seen: seq<N>, n: nat)
    requires Walking(st, total, seen, [], [], n)
    ensures total == seen
  {
    assert [] + KidsOf(st, []) == [];
  }

  /** The elements that m turns of the queue list. */
  ghost function Serving<N>(st: Store<N>, q: seq<N>, m: nat): (r: seq<N>)
    decreases m
  {
    if m == 0 || q == [] then [] else [q[0]] + Serving(st, q[1..] + Look(st, q[0]).kids, m - 1)
  }

  /** The queue runs empty after exactly m turns. */
  ghost predicate Drains<N>(st: Store<N>, q: seq<N>, m: nat)
    decreases m
  {
    if m == 0 then q == [] else q != [] && Drains(st, q[1..] + Look(st, q[0]).kids, m - 1)
  }

  /** A queue that still has to list exactly `rest`. */
  ghost predicate Owes<N>(st: Store<N>, q: seq<N>, rest: seq<N>) {
    Drains(st, q, |rest|) && rest == Serving(st, q, |rest|)
  }

  lemma OwesEnd<N>(st: Store<N>, rest: seq<N>)
    requires Owes(st, [], rest)
    ensures rest == []
  {
  }

  lemma OwesStep<N>(st: Store<N>, q: seq<N>, rest: seq<N>)
    requires Closed(st) && Within(st, q) && Owes(st, q, rest) && q != []
    ensures q[0] in st && Within(st, q[1..] + st[q[0]].kids)
    ensures rest != [] && rest[0] == q[0] && Owes(st, q[1..] + st[q[0]].kids, rest[1..])
  {
    assert q[0] in q;
  }

  lemma OwesBack<N>(st: Store<N>, q: seq<N>, x: N, rest: seq<N>)
    requires q != [] && q[0] == x && Owes(st, q[1..] + Look(st, x).kids, rest)
    ensures Owes(st, q, [x] + rest)
  {
    assert ([x] + rest)[1..] == rest;
  }

  lemma {:induction false} WalkOwes<N>(st: Store<N>, rank: map<N, nat>, total: seq<N>, seen: seq<N>,
                                       q: seq<N>, a: seq<N>, b: seq<N>, n: nat)
    returns (rest: seq<N>)
    requires Closed(st) && Ranked(st, rank) && Walking(st, total, seen, a, b, n)
    requires q == a + b && Within(st, q)
    requires Below(rank, a, n + 1) && Below(rank, b, n)
    ensures total == seen + rest && Owes(st, q, rest)
    decreases |total| - |seen|
  {
    if q == [] {
      WalkEnd(st, total, seen, n);
      rest := [];
    } else {
      assert q[0] in q;
      var a', b', n' := WalkNext(st, rank, total, seen, q, a, b, n);
      rest := WalkOwes(st, rank, total, seen + [q[0]], q[1..] + st[q[0]].kids, a', b', n');
      OwesBack(st, q, q[0], rest);
      Assoc(seen, [q[0]], rest);
      rest := [q[0]] + rest;
    }
  }

  /** In a forest the breadth-first queue started at e drains, and lists e's level order. */
  lemma QueueListsLevels<N>(st: Store<N>, rank: map<N, nat>, e: N)
    requires Closed(st) && Ranked(st, rank) && e in st
    ensures Owes(st, [e], Select(st, Descendants, e))
  {
    WalkStart(st, e);
    var total := Select(st, Descendants, e);
    assert [] + [e] == [e];
    var rest := WalkOwes(st, rank, total, [], [e], [], [e], |st|);
    assert [] + rest == rest;
  }

  // ------------------------------------------------ evaluating a group by a queue

  /** A queue entry: an element and the segments still to be applied to it. */
  datatype Node<N> = Node(e: N, segments: Group)

  ghost function Nodes<N>(es: seq<N>, segs: Group): (r: seq<Node<N>>)
    ensures |r| == |es| && forall i :: 0 <= i < |es| ==> r[i] == Node(es[i], segs)
  {
    seq(|es|, i requires 0 <= i < |es| => Node(es[i], segs))
  }

  /**
   A group evaluation in progress: the queue holds the elements `a` that wait for all of `segs`,
   then the elements `b` that come from elements before `a` and wait for one segment less.
   Their contributions to the result come in the opposite order.
   */
  ghost predicate Evaluating<N>(st: Store<N>, total: seq<N>, results: seq<N>, segs: Group,
                                a: seq<N>, b: seq<N>)
  {
    && segs != [] && (|segs| == 1 ==> b == [])
    && Dedup(results + (MeaningAll(st, segs[1..], b) + MeaningAll(st, segs, a))) == total
  }

  ghost function Queued<N>(segs: Group, a: seq<N>, b: seq<N>): (q: seq<Node<N>>)
    requires segs != []
  {
    Nodes(a, segs) + Nodes(b, segs[1..])
  }

  lemma EvalStart<N>(st: Store<N>, results: seq<N>, segs: Group, e: N)
    requires segs != []
    ensures Evaluating(st, Dedup(results + Meaning(st, segs, e)), results, segs, [e], [])
    ensures Queued(segs, [e], []) == [Node(e, segs)]
  {
    assert MeaningAll(st, segs, [e]) == Meaning(st, segs, e) + MeaningAll(st, segs, [e][1..]);
    assert [] + Meaning(st, segs, e) == Meaning(st, segs, e);
    assert Meaning(st, segs, e) + [] == Meaning(st, segs, e);
  }

  /** When the elements of one generation are used up, the next generation takes their place. */
  lemma EvalTurn<N>(st: Store<N>, total: seq<N>, results: seq<N>, segs: Group, b: seq<N>)
    requires Evaluating(st, total, results, segs, [], b) && b != []
    ensures |segs| > 1 && Evaluating(st, total, results, segs[1..], b, [])
    ensures Queued(segs, [], b) == Queued(segs[1..], b, [])
  {
    var m := MeaningAll(st, segs[1..], b);
    assert m + MeaningAll(st, segs, []) == m;
    assert MeaningAll(st, segs[1..][1..], []) + m == m;
    assert Nodes([], segs) + Nodes(b, segs[1..]) == Nodes(b, segs[1..]);
    assert Nodes(b, segs[1..]) + Nodes([], segs[1..][1..]) == Nodes(b, segs[1..]);
  }

  /** Evaluating the front node when more segments remain: its candidates join `b`. */
  lemma EvalInner<N>(st: Store<N>, total: seq<N>, results: seq<N>, segs: Group, a: seq<N>, b: seq<N>)
    requires Evaluating(st, total, results, segs, a, b) && a != [] && |segs| > 1
    ensures Evaluating(st, total, results, segs, a[1..], b + Apply(st, segs[0], a[0]))
  {
    var c := Apply(st, segs[0], a[0]);
    var mb, mc, ma := MeaningAll(st, segs[1..], b), MeaningAll(st, segs[1..], c), MeaningAll(st, segs, a[1..]);
    MeaningAllConcat(st, segs[1..], b, c);
    Assoc(mb, mc, ma);
    assert MeaningAll(st, segs, a) == mc + ma;
  }

  /** Evaluating the front node on the last segment: its candidates are results. */
  lemma EvalLast<N>(st: Store<N>, total: seq<N>, results: seq<N>, segs: Group, a: seq<N>)
    requires Evaluating(st, total, results, segs, a, []) && a != [] && |segs| == 1
    ensures Evaluating(st, total, Dedup(results + Apply(st, segs[0], a[0])), segs, a[1..], [])
  {
    var c := Apply(st, segs[0], a[0]);
    var ma := MeaningAll(st, segs, a[1..]);
    assert segs[1..] == [];
    MeaningAllOfNone(st, c);
    assert MeaningAll(st, segs[1..], []) == [];
    assert [] + MeaningAll(st, segs, a) == c + ma;
    assert [] + ma == ma;
    Assoc(results, c, ma);
    DedupPrefix(results + c, ma);
  }

  lemma EvalEnd<N>(st: Store<N>, total: seq<N>, results: seq<N>, segs: Group)
    requires Evaluating(st, total, results, segs, [], []) && NoDup(results)
    ensures results == total
  {
    assert MeaningAll(st, segs[1..], []) + MeaningAll(st, segs, []) == [];
    assert results + [] == results;
    DedupOfNoDup(results);
  }

  /** One turn of the evaluation loop, whichever of the cases applies. */
  lemma EvalNext<N>(st: Store<N>, total: seq<N>, results: seq<N>, q: seq<Node<N>>,
                    segs: Group, a: seq<N>, b: seq<N>)
    returns (segs': Group, a': seq<N>, b': seq<N>)
    requires Evaluating(st, total, results, segs, a, b) && q == Queued(segs, a, b) && q != []
    ensures q[0].segments != []
    ensures var c := Apply(st, q[0].segments[0], q[0].e);
            if |q[0].segments| == 1
            then Evaluating(st, total, Dedup(results + c), segs', a', b') && q[1..] == Queued(segs', a', b')
            else Evaluating(st, total, results, segs', a', b')
                 && q[1..] + Nodes(c, q[0].segments[1..]) == Queued(segs', a', b')
    ensures |segs'| < |segs| || (|segs'| == |segs| && |a'| < |a|)
  {
    if a == [] {
      EvalTurn(st, total, results, segs, b);
      segs', a', b' := EvalServe(st, total, results, q, segs[1..], b, []);
    } else {
      segs', a', b' := EvalServe(st, total, results, q, segs, a, b);
    }
  }

  lemma QueuedServe<N>(segs: Group, a: seq<N>, b: seq<N>, c: seq<N>)
    requires segs != [] && a != []
    ensures Queued(segs, a, b)[1..] + Nodes(c, segs[1..]) == Queued(segs, a[1..], b + c)
    ensures Queued(segs, a, [])[1..] == Queued(segs, a[1..], [])
  {
  }

  lemma EvalServe<N>(st: Store<N>, total: seq<N>, results: seq<N>, q: seq<Node<N>>,
                     segs: Group, a: seq<N>, b: seq<N>)
    returns (segs': Group, a': seq<N>, b': seq<N>)
    requires Evaluating(st, total, results, segs, a, b) && q == Queued(segs, a, b) && a != []
    ensures q != [] && q[0].segments != []
    ensures var c := Apply(st, q[0].segments[0], q[0].e);
            if |q[0].segments| == 1
            then Evaluating(st, total, Dedup(results + c), segs', a', b') && q[1..] == Queued(segs', a', b')
            else Evaluating(st, total, results, segs', a', b')
                 && q[1..] + Nodes(c, q[0].segments[1..]) == Queued(segs', a', b')
    ensures |segs'| == |segs| && |a'| < |a|
  {
    assert q[0] == Node(a[0], segs);
    var c := Apply(st, segs[0], a[0]);
    if |segs| == 1 {
      EvalLast(st, total, results, segs, a);
      QueuedServe(segs, a, [], []);
      segs', a', b' := segs, a[1..], [];
    } else {
      EvalInner(st, total, results, segs, a, b);
      QueuedServe(segs, a, b, c);
      segs', a', b' := segs, a[1..], b + c;
    }
  }
}
