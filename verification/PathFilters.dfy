/**
 What every selector and filter selects, in terms of names, attributes, children and text
 (etree/path.go:29-40, 319-499).
 */
module PathFilters {
  import opened Basics
  import opened PathModel
  import opened PathCompiler
  import opened PathRoundTrip
  import opened Strings

  // ---------------------------------------------------------------------- names

  /** The element has the name asked for; no namespace asked for means any. */
  ghost predicate Named<N>(v: View<N>, space: string, tag: string) {
    (space == "" || v.space == space) && v.tag == tag
  }

  /** Some attribute has the name asked for. */
  ghost predicate Carries<N>(v: View<N>, space: string, key: string) {
    exists i :: 0 <= i < |v.attr| && (space == "" || v.attr[i].space == space) && v.attr[i].key == key
  }

  /** Some attribute has the name and the value asked for. */
  ghost predicate CarriesValue<N>(v: View<N>, space: string, key: string, val: string) {
    exists i :: 0 <= i < |v.attr| && (space == "" || v.attr[i].space == space) && v.attr[i].key == key
                && v.attr[i].value == val
  }

  /** The places of the children with the name asked for. */
  ghost function NamedKids<N>(st: Store<N>, v: View<N>, space: string, tag: string): (r: set<int>) {
    set j | 0 <= j < |v.kids| && Named(Look(st, v.kids[j]), space, tag)
  }

  /** The places of the children with the name and the text asked for. */
  ghost function TextKids<N>(st: Store<N>, v: View<N>, space: string, tag: string, text: string): (r: set<int>) {
    set j | 0 <= j < |v.kids| && Named(Look(st, v.kids[j]), space, tag) && Look(st, v.kids[j]).text == text
  }

  // ------------------------------------------------------------------- selectors

  /** The selectors, one by one; the descendants are those of DescendantsExact, in the order of BreadthFirst. */
  lemma SelectExactly<N>(st: Store<N>, e: N, space: string, tag: string, x: N)
    ensures Select(st, Self, e) == [e]
    ensures x in Select(st, Parent, e) <==> Look(st, e).parent == Some(x)
    ensures Select(st, Children, e) == Look(st, e).kids
    ensures x in Select(st, ByTag(space, tag), e) <==> x in Look(st, e).kids && Named(Look(st, x), space, tag)
  {
    TaggedKidsExact(st, Look(st, e).kids, space, tag, x);
  }

  // --------------------------------------------------------------------- filters

  lemma ExpandLast<N>(st: Store<N>, f: Filter, es: seq<N>, x: N)
    requires !f.Pos?
    ensures FilterStep(st, f, es + [x]) == FilterStep(st, f, es) + Repeat(x, Copies(st, f, x))
  {
    assert (es + [x])[..|es|] == es;
  }

  lemma RepeatUpToOne<T>(x: T)
    ensures Repeat(x, 0) == [] && Repeat(x, 1) == [x]
  {
  }

  /** `[@key]` keeps exactly the candidates that have the attribute, in order, each once. */
  lemma HasAttrExactly<N>(st: Store<N>, space: string, key: string, es: seq<N>, x: N)
    ensures FilterStep(st, HasAttr(space, key), []) == []
    ensures FilterStep(st, HasAttr(space, key), es + [x])
         == FilterStep(st, HasAttr(space, key), es) + if Carries(Look(st, x), space, key) then [x] else []
  {
    ExpandLast(st, HasAttr(space, key), es, x);
    RepeatUpToOne(x);
    var v, f := Look(st, x), HasAttr(space, key);
    assert Carries(v, space, key) <==> exists i :: 0 <= i < |v.attr| && AttrMatch(v.attr[i], f);
  }

  lemma AttrValMatches<N>(v: View<N>, space: string, key: string, val: string)
    ensures CarriesValue(v, space, key, val)
       <==> exists i :: 0 <= i < |v.attr| && AttrMatch(v.attr[i], AttrVal(space, key, val))
  {
    var f := AttrVal(space, key, val);
    if CarriesValue(v, space, key, val) {
      var i :| 0 <= i < |v.attr| && (space == "" || v.attr[i].space == space) && v.attr[i].key == key
               && v.attr[i].value == val;
      var a := v.attr[i];
      assert a.key == f.key && a.value == f.val && (f.space == "" || f.space == a.space);
      assert AttrMatch(a, f);
    }
    if i :| 0 <= i < |v.attr| && AttrMatch(v.attr[i], f) {
      assert (space == "" || v.attr[i].space == space) && v.attr[i].key == key && v.attr[i].value == val;
    }
  }

  /** `[@key='val']` keeps exactly the candidates that have the attribute with the value, in order, each once. */
  lemma AttrValExactly<N>(st: Store<N>, space: string, key: string, val: string, es: seq<N>, x: N)
    ensures FilterStep(st, AttrVal(space, key, val), []) == []
    ensures FilterStep(st, AttrVal(space, key, val), es + [x])
         == FilterStep(st, AttrVal(space, key, val), es)
            + if CarriesValue(Look(st, x), space, key, val) then [x] else []
  {
    ExpandLast(st, AttrVal(space, key, val), es, x);
    RepeatUpToOne(x);
    var v := Look(st, x);
    AttrValMatches(v, space, key, val);
  }

  lemma OneLess(at: set<int>, n: int)
    ensures |at| == |at - {n}| + if n in at then 1 else 0
  {
    assert n in at ==> at == (at - {n}) + {n};
    assert n !in at ==> at == at - {n};
  }

  lemma {:induction false} CountIsPlaces<N>(st: Store<N>, kids: seq<N>, f: Filter, at: set<int>)
    requires f.HasChild? || f.ChildText?
    requires forall j :: j in at <==> 0 <= j < |kids| && Named(Look(st, kids[j]), f.space, f.tag)
                                      && (f.ChildText? ==> Look(st, kids[j]).text == f.text)
    ensures CountKids(st, kids, f) == |at|
  {
    if kids == [] {
      forall j: int ensures j !in at {
      }
    } else {
      var n := |kids| - 1;
      CountIsPlaces(st, kids[..n], f, at - {n});
      assert KidMatch(Look(st, kids[n]), f) <==> n in at;
      OneLess(at, n);
    }
  }

  /** `[tag]` keeps a candidate once for every child with the name. */
  lemma HasChildExactly<N>(st: Store<N>, space: string, tag: string, es: seq<N>, x: N)
    ensures FilterStep(st, HasChild(space, tag), []) == []
    ensures FilterStep(st, HasChild(space, tag), es + [x])
         == FilterStep(st, HasChild(space, tag), es) + Repeat(x, |NamedKids(st, Look(st, x), space, tag)|)
  {
    ExpandLast(st, HasChild(space, tag), es, x);
    CountIsPlaces(st, Look(st, x).kids, HasChild(space, tag), NamedKids(st, Look(st, x), space, tag));
  }

  /** `[tag='text']` keeps a candidate once for every child with the name and the text. */
  lemma ChildTextExactly<N>(st: Store<N>, space: string, tag: string, text: string, es: seq<N>, x: N)
    ensures FilterStep(st, ChildText(space, tag, text), []) == []
    ensures FilterStep(st, ChildText(space, tag, text), es + [x])
         == FilterStep(st, ChildText(space, tag, text), es) + Repeat(x, |TextKids(st, Look(st, x), space, tag, text)|)
  {
    ExpandLast(st, ChildText(space, tag, text), es, x);
    CountIsPlaces(st, Look(st, x).kids, ChildText(space, tag, text), TextKids(st, Look(st, x), space, tag, text));
  }

  /** x stands in the list with n others before it, or with n others behind it. */
  ghost predicate StandsAt<N>(es: seq<N>, x: N, n: nat, fromEnd: bool) {
    n < |es| && es[if fromEnd then |es| - 1 - n else n] == x
  }

  /** `[#]` keeps the candidate with so many others before it; a negative number counts from the last. */
  lemma PosExactly<N>(st: Store<N>, index: int, es: seq<N>, x: N)
    ensures |FilterStep(st, Pos(index), es)| <= 1
    ensures x in FilterStep(st, Pos(index), es)
       <==> StandsAt(es, x, if index >= 0 then index else -1 - index, index < 0)
  {
  }

  /** Which candidates pass a filter that is no position. */
  ghost predicate Passes<N>(st: Store<N>, f: Filter, x: N)
    requires !f.Pos?
  {
    match f
    case HasAttr(space, key) => Carries(Look(st, x), space, key)
    case AttrVal(space, key, val) => CarriesValue(Look(st, x), space, key, val)
    case HasChild(space, tag) =>
      exists j :: 0 <= j < |Look(st, x).kids| && Named(Look(st, Look(st, x).kids[j]), space, tag)
    case ChildText(space, tag, text) =>
      exists j :: 0 <= j < |Look(st, x).kids| && Named(Look(st, Look(st, x).kids[j]), space, tag)
                  && Look(st, Look(st, x).kids[j]).text == text
  }

  lemma SomePlace(at: set<int>)
    ensures |at| > 0 <==> exists j :: j in at
  {
    if !exists j :: j in at {
      forall j: int ensures j !in at {
      }
      assert at == {};
    }
  }

  lemma CopiesExactly<N>(st: Store<N>, f: Filter, x: N)
    requires !f.Pos?
    ensures Copies(st, f, x) > 0 <==> Passes(st, f, x)
  {
    var v := Look(st, x);
    match f
    case HasAttr(space, key) =>
      assert Carries(v, space, key) <==> exists i :: 0 <= i < |v.attr| && AttrMatch(v.attr[i], f);
    case AttrVal(space, key, val) =>
      AttrValMatches(v, space, key, val);
    case HasChild(space, tag) =>
      var at := NamedKids(st, v, space, tag);
      CountIsPlaces(st, v.kids, f, at);
      SomePlace(at);
      assert forall j :: j in at <==> 0 <= j < |v.kids| && Named(Look(st, v.kids[j]), space, tag);
    case ChildText(space, tag, text) =>
      var at := TextKids(st, v, space, tag, text);
      CountIsPlaces(st, v.kids, f, at);
      SomePlace(at);
      assert forall j :: j in at <==> 0 <= j < |v.kids| && Named(Look(st, v.kids[j]), space, tag)
                                      && Look(st, v.kids[j]).text == text;
  }

  /** A filter that is no position keeps exactly the candidates that pass it. */
  lemma {:induction false} FilterExactly<N>(st: Store<N>, f: Filter, es: seq<N>, x: N)
    requires !f.Pos?
    ensures x in FilterStep(st, f, es) <==> x in es && Passes(st, f, x)
  {
    if es != [] {
      var n := |es| - 1;
      FilterExactly(st, f, es[..n], x);
      assert es == es[..n] + [es[n]];
      ExpandLast(st, f, es[..n], es[n]);
      CopiesExactly(st, f, x);
      var again := Repeat(es[n], Copies(st, f, es[n]));
      assert x in again ==> x == es[n] && Copies(st, f, x) > 0;
      assert x == es[n] && Copies(st, f, x) > 0 ==> again[0] == x;
    }
  }

  // ------------------------------------------------------------- from text to elements

  /** A path of one segment. */
  lemma OneSegment<N>(st: Store<N>, seg: Segment, e: N)
    ensures PathMeaning(st, [[seg]], e) == Apply(st, seg, e)
  {
    assert [[seg]][..0] == [] && [seg][1..] == [];
    MeaningAllOfNone(st, Apply(st, seg, e));
    assert [] + Apply(st, seg, e) == Apply(st, seg, e);
  }

  lemma OneFilter<N>(st: Store<N>, sel: Selector, f: Filter, e: N)
    ensures Apply(st, Segment(sel, [f]), e) == FilterStep(st, f, Select(st, sel, e))
  {
    var none: seq<Filter> := [];
    var es := Select(st, sel, e);
    assert [f][..0] == none && FilterAll(st, none, es) == es;
    assert FilterAll(st, [f], es) == FilterStep(st, f, es);
  }

  lemma StarText(f: Filter)
    requires FilterIsNormal(f)
    ensures var p := [[Segment(Children, [f])]]; PathIsNormal(p) && PrintPath(p) == "*[" + PrintFilter(f) + "]"
  {
    var seg := Segment(Children, [f]);
    var pieces := FilterPieces([f]);
    assert pieces == [PrintFilter(f) + "]"] by {
      assert [f][..0] == [];
    }
    assert ["*"] + pieces == ["*", PrintFilter(f) + "]"] && ["*", PrintFilter(f) + "]"][1..] == [PrintFilter(f) + "]"];
    assert Join(["*", PrintFilter(f) + "]"], "[") == "*" + "[" + (PrintFilter(f) + "]");
    Assoc("*[", PrintFilter(f), "]");
    assert SegmentTexts([seg]) == [PrintSegment(seg)];
    assert PrintGroup([seg]) == PrintSegment(seg);
    assert GroupTexts([[seg]]) == [PrintGroup([seg])];
  }

  /**
   From the text on: `*[filter]` is answered with exactly the children that pass the filter.
   */
  lemma StarExactly<N>(st: Store<N>, f: Filter, path: string, e: N, x: N)
    requires FilterIsNormal(f) && !f.Pos? && path == "*[" + PrintFilter(f) + "]"
    ensures CompilePath(path).Parsed?
    ensures x in Query(st, CompilePath(path).value, e) <==> x in Look(st, e).kids && Passes(st, f, x)
  {
    var p := [[Segment(Children, [f])]];
    StarText(f);
    PathRoundTrips(p);
    OneSegment(st, p[0][0], e);
    OneFilter(st, Children, f, e);
    FilterExactly(st, f, Look(st, e).kids, x);
    DedupMember(PathMeaning(st, p, e), x);
  }

  /** `*[@key='val']` is answered with exactly the children that have the attribute with the value. */
  lemma StarAttrValExactly<N>(st: Store<N>, key: string, val: string, path: string, e: N, x: N)
    requires FilterIsNormal(AttrVal("", key, val)) && path == "*[@" + key + "='" + val + "']"
    ensures CompilePath(path).Parsed?
    ensures x in Query(st, CompilePath(path).value, e)
       <==> x in Look(st, e).kids
            && exists i :: 0 <= i < |Look(st, x).attr|
                           && Look(st, x).attr[i].key == key && Look(st, x).attr[i].value == val
  {
    var f := AttrVal("", key, val);
    assert PrintFilter(f) == "@" + key + "='" + val + "'";
    Assoc5("*[", "@", key, "='", val + "'" + "]");
    assert path == "*[" + PrintFilter(f) + "]";
    StarExactly(st, f, path, e, x);
  }
}
