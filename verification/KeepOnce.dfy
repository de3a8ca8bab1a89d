/**
 Child filters: what the documentation promises and what the code does.

 The documentation says `[tag]` and `[tag='val']` select elements (etree/path.go:34-40).  The code
 adds a candidate once for every matching child.  The difference can only show through a later
 position filter of the same segment.  `Outcome` runs a segment's filters through a small automaton
 that decides exactly when it does.
 */
module KeepOnce {
  import opened Basics
  import opened PathModel

  // ------------------------------------------------------ the documented meaning

  /** The documented filter: a candidate stays once, or goes. */
  function Keep<N>(st: Store<N>, f: Filter, es: seq<N>): (r: seq<N>)
    requires !f.Pos?
  {
    if es == [] then []
    else
      var x := es[|es| - 1];
      Keep(st, f, es[..|es| - 1]) + if Copies(st, f, x) > 0 then [x] else []
  }

  function DocStep<N>(st: Store<N>, f: Filter, es: seq<N>): (r: seq<N>) {
    if f.Pos? then Pick(es, f.index) else Keep(st, f, es)
  }

  function DocAll<N>(st: Store<N>, fs: seq<Filter>, es: seq<N>): (r: seq<N>)
  {
    if fs == [] then es else DocStep(st, fs[|fs| - 1], DocAll(st, fs[..|fs| - 1], es))
  }

  function DocMeaning<N>(st: Store<N>, segs: Group, e: N): (r: seq<N>)
    decreases |segs|, 0, 0
  {
    if segs == [] then [e]
    else DocMeaningAll(st, segs[1..], DocAll(st, segs[0].filters, Select(st, segs[0].sel, e)))
  }

  function DocMeaningAll<N>(st: Store<N>, segs: Group, es: seq<N>): (r: seq<N>)
    decreases |segs|, 1, |es|
  {
    if es == [] then [] else DocMeaning(st, segs, es[0]) + DocMeaningAll(st, segs, es[1..])
  }

  function DocPathMeaning<N>(st: Store<N>, path: Path, e: N): (r: seq<N>)
  {
    if path == [] then []
    else DocPathMeaning(st, path[..|path| - 1], e) + DocMeaning(st, path[|path| - 1], e)
  }

  function DocQuery<N(==)>(st: Store<N>, path: Path, e: N): (r: seq<N>) {
    Dedup(DocPathMeaning(st, path, e))
  }

  // --------------------------------------------------------------- the automaton

  /** How the code's candidate list can relate to the documented one after some filters. */
  datatype Relation =
    | SameMany   // equal lists
    | SameOne    // equal lists of at most one element
    | DupMany    // the code repeats elements in place
    | DupOne     // the same, for at most one element
    | DiffOne    // at most one element each, possibly different ones
    | DiffDup    // the same, with repetitions in the code's list
    | OnlyOne    // nothing documented, at most one element in the code
    | OnlyDup    // nothing documented, repetitions of one element in the code
    | Empty      // nothing left

  predicate EndPosition(index: int) {
    index == 0 || index == -1
  }

  function Next(r: Relation, f: Filter): (r': Relation)
  {
    match f
    case HasAttr(_, _) => r
    case AttrVal(_, _, _) => r
    case Pos(index) =>
      (match r
       case SameMany => SameOne
       case SameOne => if EndPosition(index) then SameOne else Empty
       case DupMany => if EndPosition(index) then SameOne else DiffOne
       case DupOne => if EndPosition(index) then SameOne else OnlyOne
       case DiffOne => if EndPosition(index) then DiffOne else Empty
       case DiffDup => if EndPosition(index) then DiffOne else OnlyOne
       case OnlyOne => if EndPosition(index) then OnlyOne else Empty
       case OnlyDup => OnlyOne
       case Empty => Empty)
    case _ =>
      (match r
       case SameMany => DupMany
       case SameOne => DupOne
       case DiffOne => DiffDup
       case OnlyOne => OnlyDup
       case _ => r)
  }

  function Outcome(start: Relation, fs: seq<Filter>): (r: Relation)
  {
    if fs == [] then start else Next(Outcome(start, fs[..|fs| - 1]), fs[|fs| - 1])
  }

  predicate Harmless(r: Relation) {
    r.SameMany? || r.SameOne? || r.DupMany? || r.DupOne? || r.Empty?
  }

  // ----------------------------------------------------- repeating elements in place

  /** d with its i-th element repeated m[i] times. */
  ghost function Blow<T>(d: seq<T>, m: seq<nat>): (c: seq<T>)
    requires |d| == |m|
  {
    if d == [] then []
    else Blow(d[..|d| - 1], m[..|d| - 1]) + Repeat(d[|d| - 1], m[|d| - 1])
  }

  ghost predicate Positive(m: seq<nat>) {
    forall i :: 0 <= i < |m| ==> m[i] > 0
  }

  ghost predicate Stutters<T>(c: seq<T>, d: seq<T>) {
    exists m: seq<nat> :: |m| == |d| && Positive(m) && c == Blow(d, m)
  }

  lemma BlowSnoc<T>(d: seq<T>, m: seq<nat>, x: T, k: nat)
    requires |d| == |m|
    ensures Blow(d + [x], m + [k]) == Blow(d, m) + Repeat(x, k)
  {
    assert (d + [x])[..|d|] == d && (m + [k])[..|d|] == m;
  }

  lemma {:induction false} BlowEnds<T>(d: seq<T>, m: seq<nat>)
    requires |d| == |m| && Positive(m)
    ensures var c := Blow(d, m);
            (d == [] <==> c == []) && (d != [] ==> c[0] == d[0] && c[|c| - 1] == d[|d| - 1])
  {
    if d != [] {
      BlowEnds(d[..|d| - 1], m[..|d| - 1]);
    }
  }

  lemma {:induction false} DedupRepeat<T>(s: seq<T>, x: T, k: nat)
    requires k > 0
    ensures Dedup(s + Repeat(x, k)) == Dedup(s + [x])
  {
    if k == 1 {
      assert Repeat(x, 1) == [x];
    } else {
      DedupRepeat(s, x, k - 1);
      assert s + Repeat(x, k) == s + Repeat(x, k - 1) + [x];
      DedupSnoc(s + Repeat(x, k - 1), x);
      DedupSnoc(s, x);
    }
  }

  lemma {:induction false} DedupBlow<T>(d: seq<T>, m: seq<nat>)
    requires |d| == |m| && Positive(m)
    ensures Dedup(Blow(d, m)) == Dedup(d)
  {
    if d != [] {
      var d', x := d[..|d| - 1], d[|d| - 1];
      var b := Blow(d', m[..|d| - 1]);
      DedupBlow(d', m[..|d| - 1]);
      DedupRepeat(b, x, m[|d| - 1]);
      DedupSnoc(b, x);
      DedupSnoc(d', x);
      assert d == d' + [x];
    }
  }

  lemma {:induction false} ExpandConcat<N>(st: Store<N>, f: Filter, a: seq<N>, b: seq<N>)
    requires !f.Pos?
    ensures Expand(st, f, a + b) == Expand(st, f, a) + Expand(st, f, b)
  {
    if b == [] {
      assert a + b == a;
    } else {
      var n := |b| - 1;
      ExpandConcat(st, f, a, b[..n]);
      assert (a + b)[..|a + b| - 1] == a + b[..n];
    }
  }

  lemma {:induction false} ExpandRepeat<N>(st: Store<N>, f: Filter, x: N, k: nat) returns (n: nat)
    requires !f.Pos?
    ensures Expand(st, f, Repeat(x, k)) == Repeat(x, n)
    ensures Copies(st, f, x) == 0 ==> n == 0
    ensures Copies(st, f, x) > 0 ==> n >= k
    ensures k > 0 ==> n >= Copies(st, f, x)
  {
    if k == 0 {
      n := 0;
    } else {
      var n' := ExpandRepeat(st, f, x, k - 1);
      assert Repeat(x, k)[..k - 1] == Repeat(x, k - 1);
      n := n' + Copies(st, f, x);
      assert Repeat(x, n') + Repeat(x, Copies(st, f, x)) == Repeat(x, n);
    }
  }

  /** A filter that is not a position keeps the stutter. */
  lemma {:induction false} StutterStep<N>(st: Store<N>, f: Filter, d: seq<N>, m: seq<nat>) returns (m': seq<nat>)
    requires !f.Pos? && |d| == |m| && Positive(m)
    ensures |m'| == |Keep(st, f, d)| && Positive(m')
    ensures Expand(st, f, Blow(d, m)) == Blow(Keep(st, f, d), m')
  {
    if d == [] {
      m' := [];
    } else {
      var n := |d| - 1;
      var x := d[n];
      m' := StutterStep(st, f, d[..n], m[..n]);
      ExpandConcat(st, f, Blow(d[..n], m[..n]), Repeat(x, m[n]));
      var k := ExpandRepeat(st, f, x, m[n]);
      if Copies(st, f, x) > 0 {
        BlowSnoc(Keep(st, f, d[..n]), m', x, k);
        m' := m' + [k];
      } else {
        var e := Expand(st, f, Blow(d[..n], m[..n]));
        assert e + Repeat(x, 0) == e;
        assert Keep(st, f, d) == Keep(st, f, d[..n]);
      }
    }
  }

  ghost function Ones(n: nat): (m: seq<nat>) {
    seq(n, _ => 1)
  }

  lemma {:induction false} BlowOnes<T>(d: seq<T>)
    ensures Blow(d, Ones(|d|)) == d
  {
    if d != [] {
      var n := |d| - 1;
      BlowOnes(d[..n]);
      assert Ones(|d|)[..n] == Ones(n);
      assert d == d[..n] + Repeat(d[n], 1);
    }
  }

  lemma SelfStutters<T>(d: seq<T>)
    ensures Stutters(d, d)
  {
    BlowOnes(d);
    assert Positive(Ones(|d|));
  }

  lemma {:induction false} ExpandIsKeep<N>(st: Store<N>, f: Filter, es: seq<N>)
    requires f.HasAttr? || f.AttrVal?
    ensures Expand(st, f, es) == Keep(st, f, es)
  {
    if es != [] {
      ExpandIsKeep(st, f, es[..|es| - 1]);
      var x := es[|es| - 1];
      assert Repeat(x, 0) == [] && Repeat(x, 1) == [x];
    }
  }

  lemma {:induction false} KeepShrinks<N>(st: Store<N>, f: Filter, es: seq<N>)
    requires !f.Pos?
    ensures |Keep(st, f, es)| <= |es|
  {
    if es != [] {
      KeepShrinks(st, f, es[..|es| - 1]);
    }
  }

  // ------------------------------------------------------------------- soundness

  /** What the automaton's state says about the two lists. */
  ghost predicate Describes<T>(r: Relation, c: seq<T>, d: seq<T>) {
    match r
    case SameMany => c == d
    case SameOne => c == d && |d| <= 1
    case DupMany => Stutters(c, d)
    case DupOne => Stutters(c, d) && |d| <= 1
    case DiffOne => |c| <= 1 && |d| <= 1
    case DiffDup => |d| <= 1
    case OnlyOne => d == [] && |c| <= 1
    case OnlyDup => d == []
    case Empty => c == [] && d == []
  }

  lemma DescribesPick<T>(r: Relation, index: int, c: seq<T>, d: seq<T>)
    requires Describes(r, c, d)
    ensures Describes(Next(r, Pos(index)), Pick(c, index), Pick(d, index))
  {
    if r.DupMany? || r.DupOne? {
      var m: seq<nat> :| |m| == |d| && Positive(m) && c == Blow(d, m);
      BlowEnds(d, m);
    }
  }

  lemma DescribesFilter<N>(st: Store<N>, r: Relation, f: Filter, c: seq<N>, d: seq<N>)
    requires !f.Pos? && Describes(r, c, d)
    ensures Describes(Next(r, f), Expand(st, f, c), Keep(st, f, d))
  {
    KeepShrinks(st, f, d);
    if f.HasAttr? || f.AttrVal? {
      ExpandIsKeep(st, f, c);
      KeepShrinks(st, f, c);
    }
    if r.SameMany? || r.SameOne? {
      SelfStutters(d);
    }
    if Stutters(c, d) {
      var m: seq<nat> :| |m| == |d| && Positive(m) && c == Blow(d, m);
      var m' := StutterStep(st, f, d, m);
      assert Stutters(Expand(st, f, c), Keep(st, f, d));
    }
  }

  lemma {:induction false} DescribesAll<N>(st: Store<N>, start: Relation, fs: seq<Filter>, es: seq<N>)
    requires Describes(start, es, es)
    ensures Describes(Outcome(start, fs), FilterAll(st, fs, es), DocAll(st, fs, es))
  {
    if fs != [] {
      var n := |fs| - 1;
      DescribesAll(st, start, fs[..n], es);
      var c, d := FilterAll(st, fs[..n], es), DocAll(st, fs[..n], es);
      if fs[n].Pos? {
        DescribesPick(Outcome(start, fs[..n]), fs[n].index, c, d);
      } else {
        DescribesFilter(st, Outcome(start, fs[..n]), fs[n], c, d);
      }
    }
  }

  /** When the automaton ends harmlessly, code and documentation select the same elements. */
  lemma KeepOnceSound<N>(st: Store<N>, start: Relation, fs: seq<Filter>, es: seq<N>)
    requires Describes(start, es, es) && Harmless(Outcome(start, fs))
    ensures Dedup(FilterAll(st, fs, es)) == Dedup(DocAll(st, fs, es))
  {
    DescribesAll(st, start, fs, es);
    var c, d := FilterAll(st, fs, es), DocAll(st, fs, es);
    if Stutters(c, d) {
      var m: seq<nat> :| |m| == |d| && Positive(m) && c == Blow(d, m);
      DedupBlow(d, m);
    }
  }

  // ----------------------------------------------------------------- whole paths

  function StartOf(sel: Selector): (r: Relation) {
    if sel.Self? || sel.Parent? then SameOne else SameMany
  }

  predicate SegmentIsSafe(seg: Segment) {
    Harmless(Outcome(StartOf(seg.sel), seg.filters))
  }

  ghost predicate GroupIsSafe(segs: Group) {
    forall i :: 0 <= i < |segs| ==> SegmentIsSafe(segs[i])
  }

  ghost predicate PathIsSafe(path: Path) {
    forall i :: 0 <= i < |path| ==> GroupIsSafe(path[i])
  }

  /** Repeated candidates never contribute anything new. */
  lemma {:induction false} MeaningOfDedup<N>(st: Store<N>, segs: Group, es: seq<N>)
    ensures Dedup(MeaningAll(st, segs, es)) == Dedup(MeaningAll(st, segs, Dedup(es)))
    decreases |es|
  {
    if es != [] {
      var es', x := es[..|es| - 1], es[|es| - 1];
      var last := Meaning(st, segs, x);
      MeaningOfDedup(st, segs, es');
      assert es == es' + [x];
      MeaningAllConcat(st, segs, es', [x]);
      MeaningAllSingle(st, segs, x);
      DedupMember(es', x);
      if x in es' {
        forall y | y in last ensures y in MeaningAll(st, segs, es') {
          MeaningAllHas(st, segs, es', x, y);
        }
        DedupAbsorb(MeaningAll(st, segs, es'), last);
      } else {
        MeaningAllConcat(st, segs, Dedup(es'), [x]);
        DedupCongruent(MeaningAll(st, segs, es'), MeaningAll(st, segs, Dedup(es')), last, last);
      }
    }
  }

  lemma MeaningAllSingle<N>(st: Store<N>, segs: Group, x: N)
    ensures MeaningAll(st, segs, [x]) == Meaning(st, segs, x)
  {
    assert MeaningAll(st, segs, [x][1..]) == [];
    assert Meaning(st, segs, x) + [] == Meaning(st, segs, x);
  }

  lemma {:induction false} GroupKeepsMeaning<N>(st: Store<N>, segs: Group, e: N)
    requires GroupIsSafe(segs)
    ensures Dedup(Meaning(st, segs, e)) == Dedup(DocMeaning(st, segs, e))
    decreases |segs|, 0, 0
  {
    if segs != [] {
      var all := Select(st, segs[0].sel, e);
      var c, d := FilterAll(st, segs[0].filters, all), DocAll(st, segs[0].filters, all);
      assert SegmentIsSafe(segs[0]);
      KeepOnceSound(st, StartOf(segs[0].sel), segs[0].filters, all);
      MeaningOfDedup(st, segs[1..], c);
      MeaningOfDedup(st, segs[1..], d);
      RowKeepsMeaning(st, segs[1..], d);
    }
  }

  lemma {:induction false} RowKeepsMeaning<N>(st: Store<N>, segs: Group, es: seq<N>)
    requires GroupIsSafe(segs)
    ensures Dedup(MeaningAll(st, segs, es)) == Dedup(DocMeaningAll(st, segs, es))
    decreases |segs|, 1, |es|
  {
    if es != [] {
      GroupKeepsMeaning(st, segs, es[0]);
      RowKeepsMeaning(st, segs, es[1..]);
      DedupCongruent(Meaning(st, segs, es[0]), DocMeaning(st, segs, es[0]),
                     MeaningAll(st, segs, es[1..]), DocMeaningAll(st, segs, es[1..]));
    }
  }

  lemma {:induction false} PathKeepsMeaning<N>(st: Store<N>, path: Path, e: N)
    requires PathIsSafe(path)
    ensures Dedup(PathMeaning(st, path, e)) == Dedup(DocPathMeaning(st, path, e))
  {
    if path != [] {
      var n := |path| - 1;
      PathKeepsMeaning(st, path[..n], e);
      GroupKeepsMeaning(st, path[n], e);
      DedupCongruent(PathMeaning(st, path[..n], e), DocPathMeaning(st, path[..n], e),
                     Meaning(st, path[n], e), DocMeaning(st, path[n], e));
    }
  }

  /** A safe path answers as documented, on every tree. */
  lemma QueryIsDocumented<N>(st: Store<N>, path: Path, e: N)
    requires PathIsSafe(path)
    ensures Query(st, path, e) == DocQuery(st, path, e)
  {
    PathKeepsMeaning(st, path, e);
  }

  /** Without a position filter behind a child filter a segment is always safe. */
  lemma {:induction false} NoPositionBehindChild(start: Relation, fs: seq<Filter>)
    requires start.SameMany? || start.SameOne?
    requires forall i, j :: 0 <= i < j < |fs| && (fs[i].HasChild? || fs[i].ChildText?) ==> !fs[j].Pos?
    ensures Harmless(Outcome(start, fs))
    ensures (forall i :: 0 <= i < |fs| ==> !fs[i].HasChild? && !fs[i].ChildText?)
            ==> Outcome(start, fs) in {SameMany, SameOne, Empty}
  {
    if fs != [] {
      NoPositionBehindChild(start, fs[..|fs| - 1]);
    }
  }
}
