/**
 The automaton of `KeepOnce` is exact: for every list of filters it calls harmful there is a tree on
 which the code's answer differs from the documented one.
 */
module KeepOnceNeeded {
  import opened Basics
  import opened PathModel
  import opened KeepOnce
  import D = Descendants

  /** The elements of the tree: a root, its candidates, and the candidates' children. */
  datatype Name = Root | Cand(i: nat) | Kid(i: nat, t: nat, j: nat)

  /** More than every position that occurs, and at least two. */
  function Size(fs: seq<Filter>): (k: nat)
    ensures k >= 2
    ensures forall t :: 0 <= t < |fs| && fs[t].Pos? ==> fs[t].index < k && -fs[t].index < k
  {
    if fs == [] then 2
    else
      var k, f := Size(fs[..|fs| - 1]), fs[|fs| - 1];
      if f.Pos? && f.index >= k then f.index + 1
      else if f.Pos? && -f.index >= k then 1 - f.index
      else k
  }

  function Cands(k: nat): (r: seq<Name>)
  {
    seq(k, i requires 0 <= i => Cand(i))
  }

  /** The children made for the t-th filter. */
  function Block(i: nat, t: nat, n: nat): (r: seq<Name>)
  {
    seq(n, j requires 0 <= j => Kid(i, t, j))
  }

  function Kids(i: nat, n: nat, k: nat): (r: seq<Name>)
    decreases n
  {
    if n == 0 then [] else Kids(i, n - 1, k) + Block(i, n - 1, k)
  }

  lemma {:induction false} KidsMember(i: nat, n: nat, k: nat, x: Name)
    ensures x in Kids(i, n, k) <==> x.Kid? && x.i == i && x.t < n && x.j < k
    decreases n
  {
    if n > 0 {
      KidsMember(i, n - 1, k, x);
      if x.Kid? && x.i == i && x.t == n - 1 && x.j < k {
        assert Block(i, n - 1, k)[x.j] == x;
      }
    }
  }

  lemma {:induction false} KidsNoDup(i: nat, n: nat, k: nat)
    ensures NoDup(Kids(i, n, k))
    decreases n
  {
    if n > 0 {
      KidsNoDup(i, n - 1, k);
      var front, back := Kids(i, n - 1, k), Block(i, n - 1, k);
      forall p, q | 0 <= p < |front| && 0 <= q < |back| ensures front[p] != back[q] {
        KidsMember(i, n - 1, k, front[p]);
      }
    }
  }

  function AttrFor(f: Filter): (a: Attr) {
    match f
    case HasAttr(space, key) => Attr(space, key, "")
    case AttrVal(space, key, val) => Attr(space, key, val)
    case _ => Attr("", "", "")
  }

  /** q is the name of the candidates. */
  function ViewOf(q: (string, string), fs: seq<Filter>, k: nat, w: Name): (v: View<Name>)
  {
    match w
    case Root => View("", "", [], Cands(k), "", None)
    case Cand(i) =>
      View(q.0, q.1, seq(|fs|, t requires 0 <= t < |fs| => AttrFor(fs[t])), Kids(i, |fs|, k), "", Some(Root))
    case Kid(i, t, _) =>
      if t < |fs| && fs[t].HasChild? then View(fs[t].space, fs[t].tag, [], [], "", Some(Cand(i)))
      else if t < |fs| && fs[t].ChildText? then View(fs[t].space, fs[t].tag, [], [], fs[t].text, Some(Cand(i)))
      else View("", "", [], [], "", Some(Cand(i)))
  }

  function NamesOf(fs: seq<Filter>, k: nat): (s: set<Name>) {
    {Root} + (set i: nat | i < k :: Cand(i))
    + (set i: nat, t: nat, j: nat | i < k && t < |fs| && j < k :: Kid(i, t, j))
  }

  function World(q: (string, string), fs: seq<Filter>, k: nat): (st: Store<Name>) {
    map w | w in NamesOf(fs, k) :: ViewOf(q, fs, k, w)
  }

  function Rank(fs: seq<Filter>, k: nat): (r: map<Name, nat>) {
    map w | w in NamesOf(fs, k) :: if w.Root? then 2 else if w.Cand? then 1 else 0
  }

  lemma CandsMember(k: nat, x: Name)
    ensures x in Cands(k) <==> x.Cand? && x.i < k
  {
    if x.Cand? && x.i < k {
      assert Cands(k)[x.i] == x;
    }
  }

  lemma KidIsLinked(q: (string, string), fs: seq<Filter>, k: nat, e: Name, c: Name)
    requires e in World(q, fs, k) && c in World(q, fs, k)[e].kids
    ensures c in NamesOf(fs, k) && ViewOf(q, fs, k, c).parent == Some(e)
    ensures Rank(fs, k)[c] < Rank(fs, k)[e]
  {
    if e.Root? {
      CandsMember(k, c);
    } else if e.Cand? {
      KidsMember(e.i, |fs|, k, c);
    }
  }

  lemma WorldIsTall(q: (string, string), fs: seq<Filter>, k: nat)
    requires fs != [] && k >= 2
    ensures |World(q, fs, k)| >= 3
  {
    var three := {Root, Cand(0), Kid(0, 0, 0)};
    assert three <= World(q, fs, k).Keys;
    CardMono(three, World(q, fs, k).Keys);
  }

  lemma WorldIsRooted(q: (string, string), fs: seq<Filter>, k: nat, e: Name)
    requires fs != [] && k >= 2 && e in World(q, fs, k)
    ensures Rooted(World(q, fs, k), Rank(fs, k), e)
  {
    var st := World(q, fs, k);
    WorldIsTall(q, fs, k);
    forall c | c in st[e].kids
      ensures c in st && Look(st, c).parent == Some(e) && Rank(fs, k)[c] < Rank(fs, k)[e]
    {
      KidIsLinked(q, fs, k, e, c);
    }
    if e.Cand? {
      KidsNoDup(e.i, |fs|, k);
    }
  }

  /** The tree is a proper one. */
  lemma WorldIsForest(q: (string, string), fs: seq<Filter>, k: nat)
    requires fs != [] && k >= 2
    ensures Forest(World(q, fs, k), Rank(fs, k)) && Root in World(q, fs, k)
  {
    forall e | e in World(q, fs, k) ensures Rooted(World(q, fs, k), Rank(fs, k), e) {
      WorldIsRooted(q, fs, k, e);
    }
    ForestFromElements(World(q, fs, k), Rank(fs, k));
  }

  lemma CardMono<T>(a: set<T>, b: set<T>)
    requires a <= b
    ensures |a| <= |b|
  {
    assert b == a + (b - a);
  }

  // ------------------------------------------ every candidate passes every filter

  lemma {:induction false} CountBlock(q: (string, string), fs: seq<Filter>, k: nat, i: nat, t: nat, n: nat)
    requires i < k && t < |fs| && n <= k && (fs[t].HasChild? || fs[t].ChildText?)
    ensures CountKids(World(q, fs, k), Block(i, t, n), fs[t]) == n
    decreases n
  {
    if n > 0 {
      CountBlock(q, fs, k, i, t, n - 1);
      assert Block(i, t, n)[..n - 1] == Block(i, t, n - 1);
      assert Kid(i, t, n - 1) in NamesOf(fs, k);
    }
  }

  lemma {:induction false} CountConcat<N>(st: Store<N>, a: seq<N>, b: seq<N>, f: Filter)
    requires f.HasChild? || f.ChildText?
    ensures CountKids(st, a + b, f) == CountKids(st, a, f) + CountKids(st, b, f)
  {
    if b == [] {
      assert a + b == a;
    } else {
      var n := |b| - 1;
      CountConcat(st, a, b[..n], f);
      assert (a + b)[..|a + b| - 1] == a + b[..n];
    }
  }

  lemma CountGrows<N>(st: Store<N>, a: seq<N>, b: seq<N>, f: Filter)
    requires f.HasChild? || f.ChildText?
    ensures CountKids(st, a + b, f) >= CountKids(st, a, f)
    ensures CountKids(st, a + b, f) >= CountKids(st, b, f)
  {
    CountConcat(st, a, b, f);
  }

  lemma {:induction false} CountAll(st: Store<Name>, i: nat, t: nat, n: nat, k: nat, f: Filter)
    requires t < n && (f.HasChild? || f.ChildText?) && CountKids(st, Block(i, t, k), f) == k
    ensures CountKids(st, Kids(i, n, k), f) >= k
    decreases n
  {
    CountGrows(st, Kids(i, n - 1, k), Block(i, n - 1, k), f);
    if t < n - 1 {
      CountAll(st, i, t, n - 1, k, f);
    }
  }

  lemma CandPasses(q: (string, string), fs: seq<Filter>, k: nat, t: nat, x: Name)
    requires t < |fs| && !fs[t].Pos? && x.Cand? && x.i < k
    ensures var c := Copies(World(q, fs, k), fs[t], x);
            if fs[t].HasAttr? || fs[t].AttrVal? then c == 1 else c >= k
  {
    var st := World(q, fs, k);
    assert x in NamesOf(fs, k);
    if fs[t].HasAttr? || fs[t].AttrVal? {
      assert Look(st, x) == ViewOf(q, fs, k, x);
      assert AttrMatch(Look(st, x).attr[t], fs[t]);
    } else {
      CountBlock(q, fs, k, x.i, t, k);
      CountAll(st, x.i, t, |fs|, k, fs[t]);
    }
  }

  ghost predicate AllCands(k: nat, s: seq<Name>) {
    forall i :: 0 <= i < |s| ==> s[i].Cand? && s[i].i < k
  }

  lemma RepeatOne<T>(x: T)
    ensures Repeat(x, 1) == [x]
  {
  }

  lemma {:induction false} KeepAll(q: (string, string), fs: seq<Filter>, k: nat, t: nat, s: seq<Name>)
    requires t < |fs| && !fs[t].Pos? && k > 0 && AllCands(k, s)
    ensures Keep(World(q, fs, k), fs[t], s) == s
    ensures fs[t].HasAttr? || fs[t].AttrVal? ==> Expand(World(q, fs, k), fs[t], s) == s
    ensures AllCands(k, Expand(World(q, fs, k), fs[t], s))
  {
    if s != [] {
      var x := s[|s| - 1];
      KeepAll(q, fs, k, t, s[..|s| - 1]);
      CandPasses(q, fs, k, t, x);
      assert s == s[..|s| - 1] + [x];
      RepeatOne(x);
    }
  }

  // ----------------------------------------------- the automaton's states, realised

  ghost predicate Copied(k: nat, c: seq<Name>, x: Name) {
    x.Cand? && x.i < k && |c| >= k && c == Repeat(x, |c|)
  }

  ghost predicate Single(k: nat, c: seq<Name>) {
    |c| == 1 && AllCands(k, c)
  }

  /** The code's list starts with k copies of the first candidate and ends with k of the last. */
  ghost predicate Swollen(k: nat, c: seq<Name>) {
    && AllCands(k, c) && |c| >= k
    && (forall i :: 0 <= i < k ==> c[i] == Cand(0))
    && (forall i :: |c| - k <= i < |c| ==> c[i] == Cand(k - 1))
  }

  ghost predicate Exhibits(r: Relation, k: nat, c: seq<Name>, d: seq<Name>)
    requires k > 0
  {
    match r
    case SameMany => c == d == Cands(k)
    case SameOne => c == d && Single(k, d)
    case DupMany => d == Cands(k) && Swollen(k, c)
    case DupOne => Single(k, d) && Copied(k, c, d[0])
    case DiffOne => Single(k, c) && Single(k, d) && c != d
    case DiffDup => Single(k, d) && c != [] && c[0] != d[0] && Copied(k, c, c[0])
    case OnlyOne => d == [] && Single(k, c)
    case OnlyDup => d == [] && c != [] && Copied(k, c, c[0])
    case Empty => true
  }

  lemma ExhibitsPick(r: Relation, k: nat, index: int, c: seq<Name>, d: seq<Name>)
    requires k >= 2 && index < k && -index < k && Exhibits(r, k, c, d)
    ensures Exhibits(Next(r, Pos(index)), k, Pick(c, index), Pick(d, index))
  {
    if r.DupMany? && index < 0 {
      assert c[|c| + index] == Cand(k - 1);
    }
  }

  lemma CopiedGrows(q: (string, string), fs: seq<Filter>, k: nat, t: nat, c: seq<Name>, x: Name)
    requires t < |fs| && (fs[t].HasChild? || fs[t].ChildText?) && k > 0
    requires x.Cand? && x.i < k && c != [] && c == Repeat(x, |c|)
    ensures var c' := Expand(World(q, fs, k), fs[t], c); c' != [] && c'[0] == x && Copied(k, c', x)
  {
    CandPasses(q, fs, k, t, x);
    var n := ExpandRepeat(World(q, fs, k), fs[t], x, |c|);
  }

  lemma ExpandFront<N>(st: Store<N>, f: Filter, c: seq<N>, x: N, k: nat)
    requires !f.Pos? && c != [] && c[0] == x && Copies(st, f, x) >= k
    ensures var r := Expand(st, f, c); |r| >= k && forall i :: 0 <= i < k ==> r[i] == x
  {
    assert c == Repeat(x, 1) + c[1..];
    ExpandConcat(st, f, Repeat(x, 1), c[1..]);
    var m := ExpandRepeat(st, f, x, 1);
  }

  lemma ExpandBack<N>(st: Store<N>, f: Filter, c: seq<N>, x: N, k: nat)
    requires !f.Pos? && c != [] && c[|c| - 1] == x && Copies(st, f, x) >= k
    ensures var r := Expand(st, f, c); |r| >= k && forall i :: |r| - k <= i < |r| ==> r[i] == x
  {
  }

  lemma SwollenGrows(q: (string, string), fs: seq<Filter>, k: nat, t: nat, c: seq<Name>)
    requires t < |fs| && (fs[t].HasChild? || fs[t].ChildText?) && k > 0
    requires AllCands(k, c) && c != [] && c[0] == Cand(0) && c[|c| - 1] == Cand(k - 1)
    ensures Swollen(k, Expand(World(q, fs, k), fs[t], c))
  {
    KeepAll(q, fs, k, t, c);
    CandPasses(q, fs, k, t, Cand(0));
    CandPasses(q, fs, k, t, Cand(k - 1));
    ExpandFront(World(q, fs, k), fs[t], c, Cand(0), k);
    ExpandBack(World(q, fs, k), fs[t], c, Cand(k - 1), k);
  }

  lemma ExhibitsCands(r: Relation, k: nat, c: seq<Name>, d: seq<Name>)
    requires k > 0 && Exhibits(r, k, c, d) && !r.Empty?
    ensures AllCands(k, c) && AllCands(k, d) && c != []
    ensures r.SameMany? || r.DupMany? ==> c[0] == Cand(0) && c[|c| - 1] == Cand(k - 1)
    ensures !r.SameMany? && !r.DupMany? ==> c == Repeat(c[0], |c|)
  {
  }

  lemma ExhibitsChild(q: (string, string), fs: seq<Filter>, k: nat, t: nat, r: Relation, c: seq<Name>, d: seq<Name>)
    requires t < |fs| && (fs[t].HasChild? || fs[t].ChildText?) && k >= 2 && Exhibits(r, k, c, d) && !r.Empty?
    ensures Exhibits(Next(r, fs[t]), k, Expand(World(q, fs, k), fs[t], c), d)
  {
    ExhibitsCands(r, k, c, d);
    if r.SameMany? || r.DupMany? {
      SwollenGrows(q, fs, k, t, c);
    } else {
      CopiedGrows(q, fs, k, t, c, c[0]);
    }
  }

  lemma ExhibitsFilter(q: (string, string), fs: seq<Filter>, k: nat, t: nat, r: Relation, c: seq<Name>, d: seq<Name>)
    requires t < |fs| && !fs[t].Pos? && k >= 2 && Exhibits(r, k, c, d)
    ensures Exhibits(Next(r, fs[t]), k, Expand(World(q, fs, k), fs[t], c), Keep(World(q, fs, k), fs[t], d))
  {
    if !r.Empty? {
      ExhibitsCands(r, k, c, d);
      KeepAll(q, fs, k, t, d);
      if fs[t].HasAttr? || fs[t].AttrVal? {
        KeepAll(q, fs, k, t, c);
      } else {
        ExhibitsChild(q, fs, k, t, r, c, d);
      }
    }
  }

  /** From any list the start state describes, each filter leads to lists that exhibit the next state. */
  lemma {:induction false} ExhibitsAll(q: (string, string), fs: seq<Filter>, n: nat, start: Relation, es: seq<Name>)
    requires n <= |fs| && Exhibits(start, Size(fs), es, es)
    ensures var k := Size(fs);
            Exhibits(Outcome(start, fs[..n]), k,
                     FilterAll(World(q, fs, k), fs[..n], es), DocAll(World(q, fs, k), fs[..n], es))
  {
    if n > 0 {
      ExhibitsAll(q, fs, n - 1, start, es);
      var k := Size(fs);
      var st := World(q, fs, k);
      var pre := fs[..n - 1];
      assert fs[..n][..n - 1] == pre && fs[..n][n - 1] == fs[n - 1];
      var r, c, d := Outcome(start, pre), FilterAll(st, pre, es), DocAll(st, pre, es);
      if fs[n - 1].Pos? {
        ExhibitsPick(r, k, fs[n - 1].index, c, d);
      } else {
        ExhibitsFilter(q, fs, k, n - 1, r, c, d);
      }
    }
  }

  lemma DedupCopied(k: nat, c: seq<Name>, x: Name)
    requires k > 0 && Copied(k, c, x)
    ensures Dedup(c) == [x]
  {
    DedupRepeat([], x, |c|);
    assert [] + Repeat(x, |c|) == c && [] + [x] == [x];
  }

  lemma HarmfulDiffers(r: Relation, k: nat, c: seq<Name>, d: seq<Name>)
    requires k > 0 && Exhibits(r, k, c, d) && !Harmless(r)
    ensures Dedup(c) != Dedup(d)
  {
    DedupOfNoDup(d);
    if r.DiffOne? || r.OnlyOne? {
      DedupOfNoDup(c);
    } else {
      DedupCopied(k, c, c[0]);
    }
  }

  // ---------------------------------------------------------------- the exact condition

  /** Code and documentation select the same elements from e. */
  ghost predicate AgreeOn(sel: Selector, fs: seq<Filter>, st: Store<Name>, e: Name) {
    Dedup(FilterAll(st, fs, Select(st, sel, e))) == Dedup(DocAll(st, fs, Select(st, sel, e)))
  }

  /** The segment selects the same elements in every tree. */
  ghost predicate AlwaysAgree(sel: Selector, fs: seq<Filter>) {
    forall st: Store<Name>, rank: map<Name, nat>, e: Name :: Forest(st, rank) && e in st ==> AgreeOn(sel, fs, st, e)
  }

  /** The element from which the selector selects the candidates. */
  function Viewpoint(sel: Selector): (e: Name) {
    match sel
    case Self => Cand(0)
    case Parent => Kid(0, 0, 0)
    case _ => Root
  }

  function NameFor(sel: Selector): (q: (string, string)) {
    if sel.ByTag? then (sel.space, sel.tag) else ("", "")
  }

  lemma {:induction false} AllTagged(st: Store<Name>, kids: seq<Name>, space: string, tag: string)
    requires forall x :: x in kids ==> ElementMatch(Look(st, x), space, tag)
    ensures TaggedKids(st, kids, space, tag) == kids
  {
    if kids != [] {
      AllTagged(st, kids[..|kids| - 1], space, tag);
      assert kids == kids[..|kids| - 1] + [kids[|kids| - 1]];
    }
  }

  /** Seen from there, the selection is the list of candidates, or one of them. */
  lemma Selection(sel: Selector, fs: seq<Filter>, k: nat)
    requires !sel.Descendants? && fs != [] && k >= 2
    ensures var st := World(NameFor(sel), fs, k);
            && Viewpoint(sel) in st
            && Exhibits(StartOf(sel), k, Select(st, sel, Viewpoint(sel)), Select(st, sel, Viewpoint(sel)))
  {
    var st := World(NameFor(sel), fs, k);
    assert Cand(0) in NamesOf(fs, k) && Kid(0, 0, 0) in NamesOf(fs, k);
    if sel.ByTag? {
      forall x | x in Cands(k) ensures ElementMatch(Look(st, x), sel.space, sel.tag) {
        CandsMember(k, x);
        assert x in NamesOf(fs, k);
      }
      AllTagged(st, Cands(k), sel.space, sel.tag);
    }
  }

  /**
   The exact condition: for every selector but the descendants, repeated candidates are invisible in
   every tree if and only if the automaton ends in a harmless state.  For the descendants a harmless
   state is enough.
   */
  lemma KeepOnceExact(sel: Selector, fs: seq<Filter>)
    ensures Harmless(Outcome(StartOf(sel), fs)) ==> AlwaysAgree(sel, fs)
    ensures !sel.Descendants? && AlwaysAgree(sel, fs) ==> Harmless(Outcome(StartOf(sel), fs))
  {
    var start := StartOf(sel);
    if Harmless(Outcome(start, fs)) {
      forall st: Store<Name>, rank: map<Name, nat>, e: Name | Forest(st, rank) && e in st
        ensures AgreeOn(sel, fs, st, e) {
        KeepOnceSound(st, start, fs, Select(st, sel, e));
      }
    } else if !sel.Descendants? {
      var k, q, e := Size(fs), NameFor(sel), Viewpoint(sel);
      var st, rank := World(q, fs, k), Rank(fs, k);
      WorldIsForest(q, fs, k);
      Selection(sel, fs, k);
      var es := Select(st, sel, e);
      ExhibitsAll(q, fs, |fs|, start, es);
      assert fs[..|fs|] == fs;
      HarmfulDiffers(Outcome(start, fs), k, FilterAll(st, fs, es), DocAll(st, fs, es));
      assert Forest(st, rank) && !AgreeOn(sel, fs, st, e);
    }
  }

  /** The smallest harmful case: `*[tag][2]` on a tree whose first candidate has the child twice. */
  lemma SecondAfterTag(space: string, tag: string)
    ensures !AlwaysAgree(Children, [HasChild(space, tag), Pos(1)])
    ensures AlwaysAgree(Children, [HasChild(space, tag), Pos(0)])
            && AlwaysAgree(Children, [HasChild(space, tag), Pos(-1)])
  {
    var f := HasChild(space, tag);
    assert [f, Pos(1)][..1] == [f] && [f, Pos(0)][..1] == [f] && [f, Pos(-1)][..1] == [f];
    assert Outcome(SameMany, [f]) == DupMany by {
      assert [f][..0] == [];
    }
    KeepOnceExact(Children, [f, Pos(1)]);
    KeepOnceExact(Children, [f, Pos(0)]);
    KeepOnceExact(Children, [f, Pos(-1)]);
  }

  // ------------------------------------------------------------------- descendants

  /** The last descendant has no children: they would be listed behind it. */
  lemma LastHasNoKids(st: Store<Name>, rank: map<Name, nat>, e: Name)
    requires Forest(st, rank) && e in st
    ensures var all := Select(st, Descendants, e);
            all != [] && all[|all| - 1] in st && st[all[|all| - 1]].kids == []
  {
    var all := Select(st, Descendants, e);
    D.DescendantsExact(st, rank, e, e);
    assert D.LiesBelow(st, e, e, 0);
    var n := |all| - 1;
    var x := all[n];
    SelectWithin(st, Descendants, e);
    D.DescendantsExact(st, rank, e, x);
    var d: nat :| D.LiesBelow(st, e, x, d);
    if st[x].kids != [] {
      var c := st[x].kids[0];
      assert Rooted(st, rank, x) by {
        assert x in st;
      }
      assert D.LiesBelow(st, e, c, d + 1);
      D.DescendantsExact(st, rank, e, c);
      var i :| 0 <= i < |all| && all[i] == c;
      D.BelowIsLower(st, rank, e, x, d);
      D.BreadthFirst(st, rank, e, i, n, d + 1, d);
    }
  }

  /** So for the descendants the automaton can call a segment harmful that never does harm. */
  lemma DescendantsNeedLess(space: string, tag: string)
    ensures var fs := [Pos(-1), HasChild(space, tag), Pos(1)];
            !Harmless(Outcome(StartOf(Descendants), fs)) && AlwaysAgree(Descendants, fs)
  {
    var f := HasChild(space, tag);
    var fs := [Pos(-1), f, Pos(1)];
    assert fs[..2][..1] == [Pos(-1)] && fs[..2] == [Pos(-1), f] && [Pos(-1)][..0] == [];
    assert Outcome(SameMany, [Pos(-1)]) == SameOne && Outcome(SameMany, [Pos(-1), f]) == DupOne;
    forall st: Store<Name>, rank: map<Name, nat>, e: Name | Forest(st, rank) && e in st
      ensures AgreeOn(Descendants, fs, st, e) {
      LastHasNoKids(st, rank, e);
      LastIsDropped(st, f, Select(st, Descendants, e));
    }
  }

  lemma FilterAllSnoc(st: Store<Name>, fs: seq<Filter>, f: Filter, all: seq<Name>)
    ensures FilterAll(st, fs + [f], all) == FilterStep(st, f, FilterAll(st, fs, all))
    ensures DocAll(st, fs + [f], all) == DocStep(st, f, DocAll(st, fs, all))
  {
    assert (fs + [f])[..|fs|] == fs;
  }

  lemma LastIsDropped(st: Store<Name>, f: Filter, all: seq<Name>)
    requires f.HasChild? && all != [] && all[|all| - 1] in st && st[all[|all| - 1]].kids == []
    ensures var fs := [Pos(-1), f, Pos(1)]; FilterAll(st, fs, all) == [] && DocAll(st, fs, all) == []
  {
    var x := all[|all| - 1];
    assert Copies(st, f, x) == 0 && [x][..0] == [];
    assert Expand(st, f, []) == [] && Keep(st, f, []) == [];
    assert Expand(st, f, [x]) == [] && Keep(st, f, [x]) == [];
    FilterAllSnoc(st, [], Pos(-1), all);
    FilterAllSnoc(st, [Pos(-1)], f, all);
    FilterAllSnoc(st, [Pos(-1), f], Pos(1), all);
    assert [] + [Pos(-1)] == [Pos(-1)] && [Pos(-1)] + [f] == [Pos(-1), f];
    assert [Pos(-1), f] + [Pos(1)] == [Pos(-1), f, Pos(1)];
  }
}
