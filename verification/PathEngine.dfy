/** The queue-driven query evaluator of etree/path.go, refined to `PathModel.Query`. */
module PathEngine {
  import opened Basics
  import opened ETree
  import opened Fifos
  import opened PathModel

  /** Element e looks as v says. */
  ghost predicate LooksLike(e: Element, v: View<Element>)
    reads e, e.TextLeaf()
  {
    && v.space == e.space && v.tag == e.tag && v.attr == e.attr
    && v.kids == ElementsOf(e.child)
    && v.text == e.Text()
    && v.parent == if e.parent == null then None else Some(e.parent)
  }

  /** `st` is a true picture of its elements; `leaves` holds the text tokens it depends on. */
  ghost predicate Pictured(st: Store<Element>, leaves: set<Leaf>)
    reads st.Keys, leaves
  {
    && Closed(st)
    && forall e {:trigger LooksLike(e, st[e])} :: e in st ==> e.TextLeaf() <= leaves && LooksLike(e, st[e])
  }

  lemma Looks(st: Store<Element>, leaves: set<Leaf>)
    requires Pictured(st, leaves)
    ensures Parented(st)
  {
    forall e | e in st ensures st[e].kids == ElementsOf(e.child) {
      assert LooksLike(e, st[e]);
    }
  }

  lemma KidsLook(e: Element, st: Store<Element>, leaves: set<Leaf>)
    requires Pictured(st, leaves) && e in st
    ensures LooksLike(e, st[e])
    ensures forall k :: k in ElementsOf(e.child) ==> k in st && LooksLike(k, Look(st, k))
  {
    assert LooksLike(e, st[e]);
    forall k | k in ElementsOf(e.child) ensures k in st && LooksLike(k, Look(st, k)) {
      assert k in st[e].kids;
      assert LooksLike(k, st[k]);
    }
  }

  class Pather {
    const queue: Fifo<Node<Element>>
    var results: seq<Element>
    var inResults: map<Element, bool>
    var candidates: seq<Element>
    var scratch: seq<Element>

    /** The result list has no repeats and the result map is its membership test. */
    static ghost predicate Agree(results: seq<Element>, inResults: map<Element, bool>)
    {
      && NoDup(results)
      && (forall x :: x in inResults && inResults[x] ==> x in results)
      && (forall x :: x in results ==> x in inResults && inResults[x])
    }

    constructor ()
      ensures Agree(results, inResults) && results == [] && scratch == []
      ensures queue.Valid() && queue.Contents == [] && fresh(queue) && fresh(queue.data)
    {
      queue := new Fifo<Node<Element>>();
      results, inResults, candidates, scratch := [], map[], [], [];
    }

    // ---------------------------------------------------------------- selectors

    method SelectChildren(e: Element)
      modifies this`candidates
      ensures candidates == old(candidates) + ElementsOf(e.child)
    {
      var child := e.child;
      for i := 0 to |child|
        invariant candidates == old(candidates) + ElementsOf(child[..i])
      {
        ElementsOfSnoc(child, i);
        if child[i].ElementToken? {
          candidates := candidates + [child[i].e];
        }
      }
      assert child[..|child|] == child;
    }

    method SelectChildrenByTag(space: string, tag: string, e: Element, ghost st: Store<Element>)
      requires Named(st, ElementsOf(e.child))
      modifies this`candidates
      ensures candidates == old(candidates) + TaggedKids(st, ElementsOf(e.child), space, tag)
    {
      var child := e.child;
      ghost var got := [];
      for i := 0 to |child|
        invariant candidates == old(candidates) + got
        invariant got == TaggedKids(st, ElementsOf(child[..i]), space, tag)
      {
        ElementsOfSnoc(child, i);
        if child[i].ElementToken? {
          var c := child[i].e;
          ElementIsListed(child, i);
          TaggedKidsSnoc(st, ElementsOf(child[..i]), c, space, tag);
          if SpaceMatch(space, c.space) && tag == c.tag {
            Assoc(old(candidates), got, [c]);
            candidates, got := candidates + [c], got + [c];
          }
        }
      }
      assert child[..|child|] == child;
    }

    method SelectDescendants(start: Element, ghost st: Store<Element>)
      requires start in st && Closed(st) && Parented(st)
      requires Owes(st, [start], Select(st, Descendants, start))
      modifies this`candidates
      ensures candidates == old(candidates) + Select(st, Descendants, start)
    {
      var found := ListDescendants(start, st);
      candidates := candidates + found;
    }

    method ApplySelector(sel: Selector, e: Element, ghost st: Store<Element>, ghost rank: map<Element, nat>,
                         ghost leaves: set<Leaf>)
      requires e in st && Pictured(st, leaves) && Ranked(st, rank)
      modifies this`candidates
      ensures candidates == old(candidates) + Select(st, sel, e) && Pictured(st, leaves)
    {
      assert LooksLike(e, st[e]);
      match sel
      case Self =>
        candidates := candidates + [e];
      case Parent =>
        if e.parent != null {
          candidates := candidates + [e.parent];
        }
      case Children =>
        SelectChildren(e);
      case Descendants =>
        QueueListsLevels(st, rank, e);
        Looks(st, leaves);
        SelectDescendants(e, st);
      case ByTag(space, tag) =>
        KidsLook(e, st, leaves);
        SelectChildrenByTag(space, tag, e, st);
    }

    // ------------------------------------------------------------------ filters

    method FilterPos(index: int)
      requires scratch == []
      modifies this`candidates, this`scratch
      ensures scratch == [] && candidates == Pick(old(candidates), index)
    {
      if index >= 0 {
        if index < |candidates| {
          scratch := scratch + [candidates[index]];
        }
      } else {
        if -index <= |candidates| {
          scratch := scratch + [candidates[|candidates| + index]];
        }
      }
      candidates, scratch := scratch, [];
    }

    /** The attribute loop of filterAttr and filterAttrVal: the break makes it one copy at most. */
    method PassByAttr(c: Element, f: Filter, ghost st: Store<Element>)
      requires (f.HasAttr? || f.AttrVal?) && Look(st, c).attr == c.attr
      modifies this`scratch
      ensures scratch == old(scratch) + Repeat(c, Copies(st, f, c))
    {
      var attr := c.attr;
      for i := 0 to |attr|
        invariant scratch == old(scratch)
        invariant forall j :: 0 <= j < i ==> !AttrMatch(attr[j], f)
      {
        var a := attr[i];
        if SpaceMatch(f.space, a.space) && f.key == a.key && (f.HasAttr? || f.val == a.value) {
          assert AttrMatch(attr[i], f);
          scratch := scratch + [c];
          assert Repeat(c, 1) == [c];
          return;
        }
      }
      assert old(scratch) + Repeat(c, 0) == old(scratch);
    }

    /** The child loop of filterChild and filterChildText: one copy for every matching child. */
    method PassByChild(c: Element, f: Filter, ghost st: Store<Element>)
      requires f.HasChild? || f.ChildText?
      requires forall k :: k in ElementsOf(c.child) ==> LooksLike(k, Look(st, k))
      modifies this`scratch
      ensures scratch == old(scratch) + Repeat(c, CountKids(st, ElementsOf(c.child), f))
    {
      var child := c.child;
      ghost var n: nat := 0;
      for i := 0 to |child|
        invariant n == CountKids(st, ElementsOf(child[..i]), f)
        invariant scratch == old(scratch) + Repeat(c, n)
      {
        ElementsOfSnoc(child, i);
        if child[i].ElementToken? {
          var cc := child[i].e;
          ElementIsListed(child, i);
          CountKidsSnoc(st, ElementsOf(child[..i]), cc, f);
          KidMatchHere(cc, Look(st, cc), f);
          RepeatSnoc(old(scratch), c, n);
          if SpaceMatch(f.space, cc.space) && f.tag == cc.tag && (f.HasChild? || f.text == cc.Text()) {
            scratch, n := scratch + [c], n + 1;
          }
        }
      }
      assert child[..|child|] == child;
    }

    method ApplyFilter(f: Filter, ghost st: Store<Element>, ghost leaves: set<Leaf>)
      requires scratch == [] && Within(st, candidates) && Pictured(st, leaves)
      modifies this`candidates, this`scratch
      ensures scratch == [] && candidates == FilterStep(st, f, old(candidates)) && Pictured(st, leaves)
    {
      if f.Pos? {
        FilterPos(f.index);
        return;
      }
      for i := 0 to |candidates|
        invariant candidates == old(candidates)
        invariant scratch == Expand(st, f, candidates[..i])
      {
        assert candidates[..i + 1][..i] == candidates[..i];
        assert candidates[i] in candidates;
        KidsLook(candidates[i], st, leaves);
        if f.HasAttr? || f.AttrVal? {
          PassByAttr(candidates[i], f, st);
        } else {
          PassByChild(candidates[i], f, st);
        }
      }
      assert candidates[..|candidates|] == candidates;
      candidates, scratch := scratch, [];
    }

    method ApplySegment(seg: Segment, e: Element, ghost st: Store<Element>, ghost rank: map<Element, nat>,
                        ghost leaves: set<Leaf>)
      requires scratch == [] && e in st && Pictured(st, leaves) && Ranked(st, rank)
      modifies this`candidates, this`scratch
      ensures scratch == [] && candidates == Apply(st, seg, e) && Pictured(st, leaves)
    {
      candidates := [];
      ApplySelector(seg.sel, e, st, rank, leaves);
      SelectWithin(st, seg.sel, e);
      assert [] + Select(st, seg.sel, e) == Select(st, seg.sel, e);
      ApplyFilters(seg.filters, st, leaves);
    }

    method ApplyFilters(fs: seq<Filter>, ghost st: Store<Element>, ghost leaves: set<Leaf>)
      requires scratch == [] && Within(st, candidates) && Pictured(st, leaves)
      modifies this`candidates, this`scratch
      ensures scratch == [] && candidates == FilterAll(st, fs, old(candidates)) && Pictured(st, leaves)
    {
      for i := 0 to |fs|
        invariant scratch == [] && candidates == FilterAll(st, fs[..i], old(candidates))
        invariant Pictured(st, leaves)
      {
        assert fs[..i + 1][..i] == fs[..i];
        FilterAllWithin(st, fs[..i], old(candidates));
        ApplyFilter(fs[i], st, leaves);
      }
      assert fs[..|fs|] == fs;
    }

    // ---------------------------------------------------------------- traversal

    /** Records one candidate in the result map and list, unless it is there already. */
    method Record(c: Element)
      requires Agree(results, inResults)
      modifies this`results, this`inResults
      ensures Agree(results, inResults)
      ensures results == if c in old(results) then old(results) else old(results) + [c]
    {
      if !(c in inResults && inResults[c]) {
        inResults := inResults[c := true];
        results := results + [c];
      }
    }

    method RecordAll(ghost st: Store<Element>, ghost leaves: set<Leaf>)
      requires Agree(results, inResults) && Pictured(st, leaves)
      modifies this`results, this`inResults
      ensures Pictured(st, leaves)
      ensures Agree(results, inResults) && results == Dedup(old(results) + candidates)
    {
      ghost var before := results;
      DedupOfNoDup(before);
      assert before + [] == before;
      for i := 0 to |candidates|
        invariant Agree(results, inResults) && results == Dedup(before + candidates[..i])
      {
        DedupNext(before, candidates, i);
        Record(candidates[i]);
      }
      assert candidates[..|candidates|] == candidates;
    }

    method QueueAll(remain: Group, ghost st: Store<Element>, ghost leaves: set<Leaf>)
      requires queue.Valid() && Pictured(st, leaves)
      modifies queue, queue.data
      ensures Pictured(st, leaves)
      ensures queue.Valid() && (queue.data == old(queue.data) || fresh(queue.data))
      ensures queue.Contents == old(queue.Contents) + Nodes(candidates, remain)
    {
      for i := 0 to |candidates|
        invariant queue.Valid() && (queue.data == old(queue.data) || fresh(queue.data))
        invariant queue.Contents == old(queue.Contents) + Nodes(candidates[..i], remain)
      {
        queue.Add(Node(candidates[i], remain));
        assert Nodes(candidates[..i + 1], remain)
            == Nodes(candidates[..i], remain) + [Node(candidates[i], remain)];
      }
      assert candidates[..|candidates|] == candidates;
    }

    method Eval(n: Node<Element>, ghost st: Store<Element>, ghost rank: map<Element, nat>,
                ghost leaves: set<Leaf>)
      requires queue.Valid() && Agree(results, inResults) && scratch == []
      requires n.segments != [] && n.e in st && Pictured(st, leaves) && Ranked(st, rank)
      modifies this, queue, queue.data
      ensures queue.Valid() && (queue.data == old(queue.data) || fresh(queue.data))
      ensures Agree(results, inResults) && scratch == [] && Pictured(st, leaves)
      ensures candidates == Apply(st, n.segments[0], n.e)
      ensures |n.segments| == 1 ==>
                results == Dedup(old(results) + candidates) && queue.Contents == old(queue.Contents)
      ensures |n.segments| > 1 ==>
                results == old(results)
                && queue.Contents == old(queue.Contents) + Nodes(candidates, n.segments[1..])
    {
      var seg, remain := n.segments[0], n.segments[1..];
      ApplySegment(seg, n.e, st, rank, leaves);
      if |remain| == 0 {
        RecordAll(st, leaves);
      } else {
        QueueAll(remain, st, leaves);
      }
    }

    method PutNode(n: Node<Element>, ghost st: Store<Element>, ghost leaves: set<Leaf>)
      requires queue.Valid() && Pictured(st, leaves)
      modifies queue, queue.data
      ensures queue.Valid() && (queue.data == old(queue.data) || fresh(queue.data)) && Pictured(st, leaves)
      ensures queue.Contents == old(queue.Contents) + [n]
    {
      queue.Add(n);
    }

    method TakeNode(ghost st: Store<Element>, ghost leaves: set<Leaf>) returns (n: Node<Element>)
      requires queue.Valid() && queue.Contents != [] && Pictured(st, leaves)
      modifies queue, queue.data
      ensures queue.Valid() && queue.data == old(queue.data) && Pictured(st, leaves)
      ensures n == old(queue.Contents)[0] && queue.Contents == old(queue.Contents)[1..]
    {
      n := queue.Remove();
    }

    /** The inner loop of traverse: one group, from its first node until the queue runs empty. */
    method RunGroup(e: Element, group: Group, ghost st: Store<Element>, ghost rank: map<Element, nat>,
                    ghost leaves: set<Leaf>)
      requires queue.Valid() && queue.Contents == [] && Agree(results, inResults) && scratch == []
      requires group != [] && e in st && Pictured(st, leaves) && Ranked(st, rank)
      modifies this, queue, queue.data
      ensures queue.Valid() && queue.Contents == [] && (queue.data == old(queue.data) || fresh(queue.data))
      ensures Agree(results, inResults) && scratch == [] && Pictured(st, leaves)
      ensures results == Dedup(old(results) + Meaning(st, group, e))
    {
      ghost var total := Dedup(results + Meaning(st, group, e));
      EvalStart(st, results, group, e);
      PutNode(Node(e, group), st, leaves);
      ghost var segs, a, b := group, [e], [];
      assert queue.Contents == Queued(segs, a, b);
      while queue.Len() > 0
        invariant queue.Valid() && (queue.data == old(queue.data) || fresh(queue.data))
        invariant Agree(results, inResults) && scratch == [] && Pictured(st, leaves)
        invariant Evaluating(st, total, results, segs, a, b)
        invariant queue.Contents == Queued(segs, a, b) && Housed(st, queue.Contents)
        decreases |segs|, |a|
      {
        ghost var segs', a', b' := EvalNext(st, total, results, queue.Contents, segs, a, b);
        HousedNext(st, queue.Contents);
        var n := TakeNode(st, leaves);
        Eval(n, st, rank, leaves);
        segs, a, b := segs', a', b';
      }
      EvalEnd(st, total, results, segs);
    }

    /**
     All groups in turn.  The result map and list carry over from group to group, so the answer is
     the first-occurrence de-duplication of all groups' meanings, in order.
     */
    method Traverse(e: Element, path: Path, ghost st: Store<Element>, ghost rank: map<Element, nat>,
                    ghost leaves: set<Leaf>)
      returns (r: seq<Element>)
      requires queue.Valid() && queue.Contents == [] && Agree(results, inResults) && scratch == []
      requires (forall g :: g in path ==> g != []) && e in st && Pictured(st, leaves) && Ranked(st, rank)
      modifies this, queue, queue.data
      ensures queue.Valid() && queue.Contents == [] && (queue.data == old(queue.data) || fresh(queue.data))
      ensures Agree(results, inResults) && scratch == []
      ensures r == results == Dedup(old(results) + PathMeaning(st, path, e))
    {
      ghost var before := results;
      DedupOfNoDup(before);
      assert before + [] == before;
      for i := 0 to |path|
        invariant queue.Valid() && queue.Contents == [] && (queue.data == old(queue.data) || fresh(queue.data))
        invariant Agree(results, inResults) && scratch == [] && Pictured(st, leaves)
        invariant results == Dedup(before + PathMeaning(st, path[..i], e))
      {
        PathMeaningSnoc(st, before, path, i, e);
        assert path[i] in path;
        RunGroup(e, path[i], st, rank, leaves);
      }
      assert path[..|path|] == path;
      r := results;
    }
  }

  /** FindElementsPath: a new pather for every query. */
  method FindElements(e: Element, path: Path, ghost st: Store<Element>, ghost rank: map<Element, nat>,
                      ghost leaves: set<Leaf>)
    returns (r: seq<Element>)
    requires (forall g :: g in path ==> g != []) && e in st && Pictured(st, leaves) && Ranked(st, rank)
    ensures r == Query(st, path, e)
    ensures NoDup(r) && Within(st, r)
  {
    var p := new Pather();
    r := p.Traverse(e, path, st, rank, leaves);
    assert [] + PathMeaning(st, path, e) == PathMeaning(st, path, e);
    QueryIsSet(st, path, e);
  }

  /** Every queued element is stored. */
  ghost predicate Housed<N>(st: Store<N>, q: seq<Node<N>>) {
    forall i :: 0 <= i < |q| ==> q[i].e in st
  }

  lemma HousedNext<N>(st: Store<N>, q: seq<Node<N>>)
    requires Closed(st) && Housed(st, q) && q != [] && q[0].segments != []
    ensures Housed(st, q[1..])
    ensures Housed(st, q[1..] + Nodes(Apply(st, q[0].segments[0], q[0].e), q[0].segments[1..]))
  {
    ApplyWithin(st, q[0].segments[0], q[0].e);
  }

  lemma DedupNext<T>(before: seq<T>, s: seq<T>, i: nat)
    requires i < |s|
    ensures var r := Dedup(before + s[..i]);
            Dedup(before + s[..i + 1]) == if s[i] in r then r else r + [s[i]]
  {
    assert s[..i + 1] == s[..i] + [s[i]];
    Assoc(before, s[..i], [s[i]]);
    DedupSnoc(before + s[..i], s[i]);
  }

  lemma DedupOfThree<T>(a: seq<T>, b: seq<T>, c: seq<T>)
    ensures Dedup(Dedup(a + b) + c) == Dedup(a + (b + c))
  {
    DedupPrefix(a + b, c);
    Assoc(a, b, c);
  }

  lemma PathMeaningSnoc<N>(st: Store<N>, before: seq<N>, path: Path, i: nat, e: N)
    requires i < |path|
    ensures Dedup(Dedup(before + PathMeaning(st, path[..i], e)) + Meaning(st, path[i], e))
         == Dedup(before + PathMeaning(st, path[..i + 1], e))
  {
    DedupOfThree(before, PathMeaning(st, path[..i], e), Meaning(st, path[i], e));
    assert path[..i + 1][..i] == path[..i];
  }

  lemma KidMatchHere(e: Element, v: View<Element>, f: Filter)
    requires LooksLike(e, v) && (f.HasChild? || f.ChildText?)
    ensures KidMatch(v, f) == (SpaceMatch(f.space, e.space) && f.tag == e.tag && (f.HasChild? || f.text == e.Text()))
  {
  }

  lemma CountKidsSnoc<N>(st: Store<N>, kids: seq<N>, c: N, f: Filter)
    requires f.HasChild? || f.ChildText?
    ensures CountKids(st, kids + [c], f) == CountKids(st, kids, f) + if KidMatch(Look(st, c), f) then 1 else 0
  {
    assert (kids + [c])[..|kids|] == kids;
  }

  lemma RepeatSnoc<T>(s: seq<T>, x: T, n: nat)
    ensures s + Repeat(x, n) + [x] == s + Repeat(x, n + 1)
  {
  }

  /** The loop of selectDescendants: e and everything below it, row by row. */
  method ListDescendants(start: Element, ghost st: Store<Element>) returns (found: seq<Element>)
    requires start in st && Closed(st) && Parented(st)
    requires Owes(st, [start], Select(st, Descendants, start))
    ensures found == Select(st, Descendants, start)
  {
    var queue := new Fifo<Element>();
    queue.Add(start);
    found := [];
    ghost var rest := Select(st, Descendants, start);
    assert queue.Contents == [start];
    while queue.Len() > 0
      invariant fresh(queue) && fresh(queue.data) && queue.Valid()
      invariant Within(st, queue.Contents) && Owes(st, queue.Contents, rest)
      invariant found + rest == Select(st, Descendants, start)
      decreases |rest|
    {
      OwesStep(st, queue.Contents, rest);
      Shift([], found, rest);
      var e := queue.Remove();
      found, rest := found + [e], rest[1..];
      AddElements(queue, e.child);
    }
    OwesEnd(st, rest);
  }

  /** The child tokens are as stored. */
  ghost predicate Parented(st: Store<Element>)
    reads st.Keys
  {
    forall e {:trigger st[e].kids} :: e in st ==> st[e].kids == ElementsOf(e.child)
  }

  method AddElements(queue: Fifo<Element>, child: seq<Token>)
    requires queue.Valid()
    modifies queue, queue.data
    ensures queue.Valid() && (queue.data == old(queue.data) || fresh(queue.data))
    ensures queue.Contents == old(queue.Contents) + ElementsOf(child)
  {
    for i := 0 to |child|
      invariant queue.Valid() && (queue.data == old(queue.data) || fresh(queue.data))
      invariant queue.Contents == old(queue.Contents) + ElementsOf(child[..i])
    {
      ElementsOfSnoc(child, i);
      if child[i].ElementToken? {
        queue.Add(child[i].e);
      }
    }
    assert child[..|child|] == child;
  }

  /** The names of these elements are as stored. */
  ghost predicate Named(st: Store<Element>, es: seq<Element>)
    reads es
  {
    forall x :: x in es ==> x.space == Look(st, x).space && x.tag == Look(st, x).tag
  }

  lemma ElementsOfSnoc(child: seq<Token>, i: nat)
    requires i < |child|
    ensures ElementsOf(child[..i + 1])
         == if child[i].ElementToken? then ElementsOf(child[..i]) + [child[i].e] else ElementsOf(child[..i])
  {
    assert child[..i + 1][..i] == child[..i];
  }

  lemma TaggedKidsSnoc<N>(st: Store<N>, kids: seq<N>, c: N, space: string, tag: string)
    ensures TaggedKids(st, kids + [c], space, tag)
         == if ElementMatch(Look(st, c), space, tag) then TaggedKids(st, kids, space, tag) + [c]
            else TaggedKids(st, kids, space, tag)
  {
    assert (kids + [c])[..|kids|] == kids;
  }

  lemma {:induction false} ElementIsListed(child: seq<Token>, i: nat)
    requires i < |child| && child[i].ElementToken?
    ensures child[i].e in ElementsOf(child)
  {
    if i < |child| - 1 {
      ElementIsListed(child[..|child| - 1], i);
    }
  }
}
