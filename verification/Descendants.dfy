/** What the descendant selector lists (etree/path.go), and what a `//tag` query finds. */
module Descendants {
  import opened Basics
  import opened PathModel

  /** The elements exactly d levels below e. */
  ghost function Row<N>(st: Store<N>, e: N, d: nat): (r: seq<N>)
  {
    if d == 0 then [e] else KidsOf(st, Row(st, e, d - 1))
  }

  /** Climbing d parent links from x, each matched by the parent's child list, arrives at e. */
  ghost predicate LiesBelow<N>(st: Store<N>, e: N, x: N, d: nat)
    decreases d
  {
    if d == 0 then x == e
    else
      var p := Look(st, x).parent;
      p.Some? && x in Look(st, p.value).kids && LiesBelow(st, e, p.value, d - 1)
  }

  /** e itself or an element somewhere below it. */
  ghost predicate InSubtree<N>(st: Store<N>, e: N, x: N) {
    exists d: nat :: LiesBelow(st, e, x, d)
  }

  // ------------------------------------------------------------ single rows

  lemma {:induction false} KidsOfHolder<N>(st: Store<N>, es: seq<N>, x: N) returns (p: N)
    requires Closed(st) && Linked(st) && Within(st, es) && x in KidsOf(st, es)
    ensures p in es && p in st && x in st[p].kids && x in st && st[x].parent == Some(p)
  {
    if x in Look(st, es[0]).kids {
      p := es[0];
      assert Within(st, st[p].kids);
    } else {
      p := KidsOfHolder(st, es[1..], x);
    }
  }

  lemma {:induction false} KidsOfHas<N>(st: Store<N>, es: seq<N>, p: N, x: N)
    requires p in es && x in Look(st, p).kids
    ensures x in KidsOf(st, es)
  {
    if p != es[0] {
      KidsOfHas(st, es[1..], p, x);
    }
  }

  lemma {:induction false} KidsOfNoDup<N>(st: Store<N>, es: seq<N>)
    requires Closed(st) && Linked(st) && Within(st, es) && NoDup(es)
    ensures NoDup(KidsOf(st, es))
  {
    if es != [] {
      var first, rest := st[es[0]].kids, KidsOf(st, es[1..]);
      KidsOfNoDup(st, es[1..]);
      forall x | x in rest ensures x !in first {
        var p := KidsOfHolder(st, es[1..], x);
        assert p != es[0];
      }
      NoDupConcat(first, rest);
    }
  }

  lemma NoDupConcat<T>(a: seq<T>, b: seq<T>)
    requires NoDup(a) && NoDup(b) && forall x :: x in b ==> x !in a
    ensures NoDup(a + b)
  {
    var s := a + b;
    forall i, j | 0 <= i < j < |s| ensures s[i] != s[j] {
      if i < |a| <= j {
        assert s[i] in a && s[j] in b;
      }
    }
  }

  lemma {:induction false} RowFacts<N>(st: Store<N>, e: N, d: nat)
    requires Closed(st) && Linked(st) && e in st
    ensures Within(st, Row(st, e, d)) && NoDup(Row(st, e, d))
  {
    if d > 0 {
      RowFacts(st, e, d - 1);
      KidsOfWithin(st, Row(st, e, d - 1));
      KidsOfNoDup(st, Row(st, e, d - 1));
    }
  }

  /** A row is exactly the elements that lie that far below. */
  lemma {:induction false} RowExact<N>(st: Store<N>, e: N, d: nat, x: N)
    requires Closed(st) && Linked(st) && e in st
    ensures x in Row(st, e, d) <==> LiesBelow(st, e, x, d)
  {
    if d > 0 {
      var above := Row(st, e, d - 1);
      RowFacts(st, e, d - 1);
      if x in Row(st, e, d) {
        var p := KidsOfHolder(st, above, x);
        RowExact(st, e, d - 1, p);
      }
      if LiesBelow(st, e, x, d) {
        var p := Look(st, x).parent.value;
        RowExact(st, e, d - 1, p);
        KidsOfHas(st, above, p, x);
      }
    }
  }

  // ------------------------------------------------------------ rows together

  /** Lying d levels below costs at least d of height. */
  lemma {:induction false} BelowIsLower<N>(st: Store<N>, rank: map<N, nat>, e: N, x: N, d: nat)
    requires Forest(st, rank) && e in st && LiesBelow(st, e, x, d)
    ensures x in st && x in rank && e in rank && rank[x] + d <= rank[e] < |st|
  {
    var kids := st[e].kids;
    if d > 0 {
      var p := st[x].parent.value;
      BelowIsLower(st, rank, e, p, d - 1);
      assert Below(rank, st[p].kids, rank[p]);
    }
  }

  /** An element lies below e at one depth only. */
  lemma {:induction false} DepthIsUnique<N>(st: Store<N>, rank: map<N, nat>, e: N, x: N, c: nat, d: nat)
    requires Forest(st, rank) && e in st && LiesBelow(st, e, x, c) && LiesBelow(st, e, x, d)
    ensures c == d
  {
    if c == 0 {
      BelowIsLower(st, rank, e, x, d);
    } else if d == 0 {
      BelowIsLower(st, rank, e, x, c);
    } else {
      DepthIsUnique(st, rank, e, Look(st, x).parent.value, c - 1, d - 1);
    }
  }

  lemma {:induction false} LevelDepth<N>(st: Store<N>, e: N, d: nat, n: nat, x: N) returns (k: nat)
    requires Closed(st) && Linked(st) && e in st && x in LevelOrder(st, Row(st, e, d), n)
    ensures d <= k < d + n && LiesBelow(st, e, x, k)
    decreases n
  {
    if x in Row(st, e, d) {
      RowExact(st, e, d, x);
      k := d;
    } else {
      k := LevelDepth(st, e, d + 1, n - 1, x);
    }
  }

  lemma NotInRow<N>(st: Store<N>, rank: map<N, nat>, e: N, d: nat, n: nat, x: N)
    requires Forest(st, rank) && e in st && x in LevelOrder(st, Row(st, e, d + 1), n)
    ensures x !in Row(st, e, d)
  {
    var k := LevelDepth(st, e, d + 1, n, x);
    if x in Row(st, e, d) {
      RowExact(st, e, d, x);
      DepthIsUnique(st, rank, e, x, d, k);
    }
  }

  lemma {:induction false} LevelsNoDup<N>(st: Store<N>, rank: map<N, nat>, e: N, d: nat, n: nat)
    requires Forest(st, rank) && e in st
    ensures NoDup(LevelOrder(st, Row(st, e, d), n))
    decreases n
  {
    var row := Row(st, e, d);
    if n > 0 && row != [] {
      LevelsNoDup(st, rank, e, d + 1, n - 1);
      RowFacts(st, e, d);
      var rest := LevelOrder(st, Row(st, e, d + 1), n - 1);
      forall x | x in rest ensures x !in row {
        NotInRow(st, rank, e, d, n - 1, x);
      }
      NoDupConcat(row, rest);
    }
  }

  lemma LevelsOfRow<N>(st: Store<N>, e: N, d: nat, n: nat, x: N)
    requires n > 0
    ensures x in Row(st, e, d) ==> x in LevelOrder(st, Row(st, e, d), n)
    ensures Row(st, e, d) != [] && x in LevelOrder(st, Row(st, e, d + 1), n - 1) ==>
              x in LevelOrder(st, Row(st, e, d), n)
  {
  }

  /** A row is listed when no row before it is empty. */
  lemma {:induction false} RowIsListed<N>(st: Store<N>, e: N, d: nat, k: nat, n: nat, x: N)
    requires d <= k < d + n && x in Row(st, e, k)
    requires forall j: nat :: d <= j <= k ==> Row(st, e, j) != []
    ensures x in LevelOrder(st, Row(st, e, d), n)
    decreases n
  {
    LevelsOfRow(st, e, d, n, x);
    if d < k {
      RowIsListed(st, e, d + 1, k, n - 1, x);
    }
  }

  lemma LevelsHaveRow<N>(st: Store<N>, e: N, d: nat, k: nat, n: nat, x: N)
    requires Closed(st) && Linked(st) && e in st
    requires d <= k < d + n && LiesBelow(st, e, x, k)
    ensures x in LevelOrder(st, Row(st, e, d), n)
  {
    forall j: nat | d <= j <= k ensures Row(st, e, j) != [] {
      RowIsNonEmpty(st, e, j, k, x);
    }
    RowExact(st, e, k, x);
    RowIsListed(st, e, d, k, n, x);
  }

  lemma {:induction false} RowIsNonEmpty<N>(st: Store<N>, e: N, d: nat, k: nat, x: N)
    requires Closed(st) && Linked(st) && e in st && d <= k && LiesBelow(st, e, x, k)
    ensures Row(st, e, d) != []
    decreases k
  {
    if k == d {
      RowExact(st, e, d, x);
    } else {
      RowIsNonEmpty(st, e, d, k - 1, Look(st, x).parent.value);
    }
  }

  /** The descendant selector lists the start element and everything below it, each exactly once. */
  lemma DescendantsExact<N>(st: Store<N>, rank: map<N, nat>, e: N, x: N)
    requires Forest(st, rank) && e in st
    ensures NoDup(Select(st, Selector.Descendants, e))
    ensures x in Select(st, Selector.Descendants, e) <==> InSubtree(st, e, x)
  {
    assert Row(st, e, 0) == [e];
    LevelsNoDup(st, rank, e, 0, |st|);
    if x in LevelOrder(st, Row(st, e, 0), |st|) {
      var k := LevelDepth(st, e, 0, |st|, x);
    }
    if d: nat :| LiesBelow(st, e, x, d) {
      BelowIsLower(st, rank, e, x, d);
      LevelsHaveRow(st, e, 0, d, |st|, x);
    }
  }

  /** The level of the i-th element listed. */
  ghost function DepthAt<N>(st: Store<N>, e: N, d: nat, n: nat, i: nat): (k: nat)
    requires i < |LevelOrder(st, Row(st, e, d), n)|
    decreases n
  {
    var m := |Row(st, e, d)|;
    if i < m then d else DepthAt(st, e, d + 1, n - 1, i - m)
  }

  lemma {:induction false} DepthAtHolds<N>(st: Store<N>, e: N, d: nat, n: nat, i: nat)
    requires Closed(st) && Linked(st) && e in st && i < |LevelOrder(st, Row(st, e, d), n)|
    ensures LiesBelow(st, e, LevelOrder(st, Row(st, e, d), n)[i], DepthAt(st, e, d, n, i))
    decreases n
  {
    var m := |Row(st, e, d)|;
    if i < m {
      RowExact(st, e, d, Row(st, e, d)[i]);
    } else {
      DepthAtHolds(st, e, d + 1, n - 1, i - m);
    }
  }

  lemma {:induction false} DepthAtGrows<N>(st: Store<N>, e: N, d: nat, n: nat, i: nat, j: nat)
    requires i <= j < |LevelOrder(st, Row(st, e, d), n)|
    ensures d <= DepthAt(st, e, d, n, i) <= DepthAt(st, e, d, n, j)
    decreases n
  {
    var m := |Row(st, e, d)|;
    if j >= m {
      DepthAtGrows(st, e, d + 1, n - 1, if i < m then j - m else i - m, j - m);
    }
  }

  /** They come in breadth-first order: nobody is listed before an element of a higher level. */
  lemma BreadthFirst<N>(st: Store<N>, rank: map<N, nat>, e: N, i: nat, j: nat, c: nat, k: nat)
    requires Forest(st, rank) && e in st && i < j < |Select(st, Selector.Descendants, e)|
    requires LiesBelow(st, e, Select(st, Selector.Descendants, e)[i], c)
    requires LiesBelow(st, e, Select(st, Selector.Descendants, e)[j], k)
    ensures c <= k
  {
    assert Row(st, e, 0) == [e];
    DepthAtGrows(st, e, 0, |st|, i, j);
    DepthAtHolds(st, e, 0, |st|, i);
    DepthAtHolds(st, e, 0, |st|, j);
    var all := Select(st, Selector.Descendants, e);
    DepthIsUnique(st, rank, e, all[i], c, DepthAt(st, e, 0, |st|, i));
    DepthIsUnique(st, rank, e, all[j], k, DepthAt(st, e, 0, |st|, j));
  }

  // --------------------------------------------------------------- `//tag`

  /** What `//space:tag` compiles to. */
  function DeepTag(space: string, tag: string): (p: Path) {
    [[Segment(Self, []), Segment(Selector.Descendants, []), Segment(ByTag(space, tag), [])]]
  }

  lemma {:induction false} MeaningAllOne<N>(st: Store<N>, seg: Segment, es: seq<N>, x: N) returns (p: N)
    requires x in MeaningAll(st, [seg], es)
    ensures p in es && x in Apply(st, seg, p)
  {
    var c := Apply(st, seg, es[0]);
    MeaningAllOfNone(st, c);
    assert Meaning(st, [seg], es[0]) == MeaningAll(st, [seg][1..], c) && [seg][1..] == [];
    if x in c {
      p := es[0];
    } else {
      p := MeaningAllOne(st, seg, es[1..], x);
    }
  }

  lemma DeepTagMeaning<N>(st: Store<N>, space: string, tag: string, e: N)
    ensures PathMeaning(st, DeepTag(space, tag), e)
         == MeaningAll(st, [Segment(ByTag(space, tag), [])], Select(st, Selector.Descendants, e))
  {
    var t := [Segment(ByTag(space, tag), [])];
    var dt := [Segment(Selector.Descendants, [])] + t;
    var g := [Segment(Self, [])] + dt;
    assert DeepTag(space, tag)[0] == g;
    assert g[1..] == dt && dt[1..] == t;
    assert PathMeaning(st, [g], e) == PathMeaning(st, [], e) + Meaning(st, g, e) by {
      var none: Path := [];
      assert [g][..0] == none;
    }
    assert Apply(st, g[0], e) == [e];
    assert Meaning(st, g, e) == Meaning(st, dt, e) + MeaningAll(st, dt, [e][1..]);
    assert Meaning(st, dt, e) + [] == Meaning(st, dt, e);
  }

  lemma DeepTagSound<N>(st: Store<N>, rank: map<N, nat>, space: string, tag: string, e: N, x: N) returns (d: nat)
    requires Forest(st, rank) && e in st
    requires x in MeaningAll(st, [Segment(ByTag(space, tag), [])], Select(st, Selector.Descendants, e))
    ensures d > 0 && LiesBelow(st, e, x, d) && ElementMatch(Look(st, x), space, tag)
  {
    var p := MeaningAllOne(st, Segment(ByTag(space, tag), []), Select(st, Selector.Descendants, e), x);
    TaggedKidsExact(st, Look(st, p).kids, space, tag, x);
    DescendantsExact(st, rank, e, p);
    var c: nat :| LiesBelow(st, e, p, c);
    BelowIsLower(st, rank, e, p, c);
    assert x in st[p].kids;
    d := c + 1;
  }

  lemma DeepTagComplete<N>(st: Store<N>, rank: map<N, nat>, space: string, tag: string, e: N, x: N, d: nat)
    requires Forest(st, rank) && e in st
    requires d > 0 && LiesBelow(st, e, x, d) && ElementMatch(Look(st, x), space, tag)
    ensures x in MeaningAll(st, [Segment(ByTag(space, tag), [])], Select(st, Selector.Descendants, e))
  {
    var p := Look(st, x).parent.value;
    assert LiesBelow(st, e, p, d - 1);
    DescendantsExact(st, rank, e, p);
    TaggedKidsExact(st, Look(st, p).kids, space, tag, x);
    var seg := Segment(ByTag(space, tag), []);
    assert Apply(st, seg, p) == TaggedKids(st, Look(st, p).kids, space, tag);
    var c := Apply(st, seg, p);
    MeaningAllOfNone(st, c);
    assert Meaning(st, [seg], p) == MeaningAll(st, [seg][1..], c) && [seg][1..] == [];
    MeaningAllHas(st, [seg], Select(st, Selector.Descendants, e), p, x);
  }

  /** `//space:tag` finds exactly the elements below e with that name, each once. */
  lemma DeepTagExact<N>(st: Store<N>, rank: map<N, nat>, space: string, tag: string, e: N, x: N)
    requires Forest(st, rank) && e in st
    ensures NoDup(Query(st, DeepTag(space, tag), e))
    ensures x in Query(st, DeepTag(space, tag), e)
       <==> (exists d: nat :: d > 0 && LiesBelow(st, e, x, d)) && ElementMatch(Look(st, x), space, tag)
  {
    var found := MeaningAll(st, [Segment(ByTag(space, tag), [])], Select(st, Selector.Descendants, e));
    DeepTagMeaning(st, space, tag, e);
    DedupIsSet(found);
    DedupMember(found, x);
    assert Query(st, DeepTag(space, tag), e) == Dedup(found);
    assert x in Query(st, DeepTag(space, tag), e) <==> x in found;
    if x in found {
      var d := DeepTagSound(st, rank, space, tag, e, x);
      assert exists d: nat :: d > 0 && LiesBelow(st, e, x, d);
    } else if ElementMatch(Look(st, x), space, tag) {
      if d: nat :| d > 0 && LiesBelow(st, e, x, d) {
        DeepTagComplete(st, rank, space, tag, e, x, d);
      }
    }
  }

  // ------------------------------------------------------- the order of what `//tag` finds

  lemma {:induction false} KidsBelow<N>(st: Store<N>, rank: map<N, nat>, es: seq<N>, n: nat)
    requires Ranked(st, rank) && Within(st, es) && Below(rank, es, n + 1)
    ensures Below(rank, KidsOf(st, es), n)
  {
    if es != [] {
      KidsBelow(st, rank, es[1..], n);
    }
  }

  lemma {:induction false} KidsOfConcat<N>(st: Store<N>, a: seq<N>, b: seq<N>)
    ensures KidsOf(st, a + b) == KidsOf(st, a) + KidsOf(st, b)
    decreases |a|
  {
    if a == [] {
      assert a + b == b;
    } else {
      KidsOfConcat(st, a[1..], b);
      assert (a + b)[1..] == a[1..] + b;
      Assoc(Look(st, a[0]).kids, KidsOf(st, a[1..]), KidsOf(st, b));
    }
  }

  /** The listing is the first row and then the kids of everybody listed, in the order of their parents. */
  lemma {:induction false} LevelsAreKids<N>(st: Store<N>, rank: map<N, nat>, row: seq<N>, n: nat)
    requires Closed(st) && Ranked(st, rank) && Within(st, row) && Below(rank, row, n)
    ensures LevelOrder(st, row, n) == row + KidsOf(st, LevelOrder(st, row, n))
    decreases n
  {
    if row == [] {
      assert LevelOrder(st, row, n) == [] && KidsOf<N>(st, []) == [];
    } else {
      assert row[0] in row && n > 0;
      var kids := KidsOf(st, row);
      KidsBelow(st, rank, row, n - 1);
      KidsOfWithin(st, row);
      LevelsAreKids(st, rank, kids, n - 1);
      KidsOfConcat(st, row, LevelOrder(st, kids, n - 1));
    }
  }

  lemma {:induction false} TaggedKidsConcat<N>(st: Store<N>, a: seq<N>, b: seq<N>, space: string, tag: string)
    ensures TaggedKids(st, a + b, space, tag) == TaggedKids(st, a, space, tag) + TaggedKids(st, b, space, tag)
    decreases |b|
  {
    if b == [] {
      assert a + b == a;
    } else {
      var n := |b| - 1;
      TaggedKidsConcat(st, a, b[..n], space, tag);
      assert (a + b)[..|a| + n] == a + b[..n];
      var last := if ElementMatch(Look(st, b[n]), space, tag) then [b[n]] else [];
      Assoc(TaggedKids(st, a, space, tag), TaggedKids(st, b[..n], space, tag), last);
    }
  }

  lemma {:induction false} TaggedRows<N>(st: Store<N>, es: seq<N>, space: string, tag: string)
    ensures MeaningAll(st, [Segment(ByTag(space, tag), [])], es) == TaggedKids(st, KidsOf(st, es), space, tag)
  {
    if es != [] {
      var seg := Segment(ByTag(space, tag), []);
      var kids := Look(st, es[0]).kids;
      TaggedRows(st, es[1..], space, tag);
      assert Apply(st, seg, es[0]) == TaggedKids(st, kids, space, tag);
      MeaningAllOfNone(st, Apply(st, seg, es[0]));
      assert [seg][1..] == [];
      assert Meaning(st, [seg], es[0]) == Apply(st, seg, es[0]);
      TaggedKidsConcat(st, kids, KidsOf(st, es[1..]), space, tag);
    }
  }

  lemma {:induction false} TaggedNoDup<N>(st: Store<N>, es: seq<N>, space: string, tag: string)
    requires NoDup(es)
    ensures NoDup(TaggedKids(st, es, space, tag))
  {
    if es != [] {
      var n := |es| - 1;
      TaggedNoDup(st, es[..n], space, tag);
      TaggedKidsExact(st, es[..n], space, tag, es[n]);
      assert es[n] !in es[..n];
    }
  }

  /** `//space:tag` finds them in breadth-first order: what is left of the listing below e. */
  lemma DeepTagList<N>(st: Store<N>, rank: map<N, nat>, space: string, tag: string, e: N)
    requires Forest(st, rank) && e in st
    ensures var all := Select(st, Selector.Descendants, e);
            all != [] && all[0] == e && Query(st, DeepTag(space, tag), e) == TaggedKids(st, all[1..], space, tag)
  {
    var all := Select(st, Selector.Descendants, e);
    assert Below(rank, [e], |st|) && Within(st, [e]);
    LevelsAreKids(st, rank, [e], |st|);
    assert all[1..] == KidsOf(st, all);
    DeepTagMeaning(st, space, tag, e);
    TaggedRows(st, all, space, tag);
    DescendantsExact(st, rank, e, e);
    TaggedNoDup(st, all[1..], space, tag);
    DedupOfNoDup(TaggedKids(st, all[1..], space, tag));
  }
}
