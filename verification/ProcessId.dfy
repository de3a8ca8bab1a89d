/** SetProcessId on objects (lib/controller/bpmn.go:54-78; etree/etree.go:417-427). */
module ProcessId {
  import opened Basics
  import opened Strings
  import opened XmlModel
  import opened ETree
  import opened HeapTree
  import opened HeapStore
  import opened HeapEdit
  import opened ProcessScripts
  import PathModel
  import RT = PathRoundTrip
  import HR = HeapReader
  import HW = HeapWriter
  import R = XmlReader
  import L = XmlLexing
  import opened Scripts

  // -------------------------------------------------------------------------- ids

  function Normalize(id: string): (s: string)
  {
    seq(|id|, i requires 0 <= i < |id| => if id[i] in {'-', ':', '#'} then '_' else id[i])
  }

  /** The id of the i-th process. */
  function IdText(id: string, i: nat): (s: string) {
    "deplid_" + Normalize(id) + if i > 0 then "_" + Decimal(i) else ""
  }

  /** The replacer: three characters become an underscore, every other one stays. */
  lemma NormalizeExactly(id: string, i: nat)
    requires i < |id|
    ensures |Normalize(id)| == |id|
    ensures Normalize(id)[i] == '_' <==> id[i] == '_' || id[i] == '-' || id[i] == ':' || id[i] == '#'
    ensures Normalize(id)[i] != '_' ==> Normalize(id)[i] == id[i]
  {
  }

  /** Different processes get different ids, whatever the deployment id. */
  lemma IdsAreDistinct(id: string, i: nat, j: nat)
    requires IdText(id, i) == IdText(id, j)
    ensures i == j
  {
    var b := "deplid_" + Normalize(id);
    var u, v := if i > 0 then "_" + Decimal(i) else "", if j > 0 then "_" + Decimal(j) else "";
    Cut(b, u);
    Cut(b, v);
    assert u == v;
    if i > 0 && j > 0 {
      Cut("_", Decimal(i));
      Cut("_", Decimal(j));
      DecimalInjective(i, j);
    }
  }

  // ------------------------------------------------------------------- attributes

  /** The first attribute with key id, in whatever namespace, gets the value. */
  function SetId(attr: seq<Attr>, v: string): (r: seq<Attr>)
  {
    if attr == [] then []
    else if attr[0].key == "id" then [attr[0].(value := v)] + attr[1..]
    else [attr[0]] + SetId(attr[1..], v)
  }

  /** SelectAttr("id") and the assignment through the pointer it returns. */
  method AssignId(attr: seq<Attr>, v: string) returns (r: seq<Attr>)
    ensures r == SetId(attr, v)
  {
    for i := 0 to |attr|
      invariant SetId(attr, v) == attr[..i] + SetId(attr[i..], v)
    {
      if SpaceMatch("", attr[i].space) && attr[i].key == "id" {
        assert attr[i..][0] == attr[i] && attr[i..][1..] == attr[i + 1..];
        return attr[..i] + [attr[i].(value := v)] + attr[i + 1..];
      }
      assert attr[i..][1..] == attr[i + 1..] && attr[..i] + [attr[i]] == attr[..i + 1];
    }
    assert attr[..|attr|] == attr && attr[|attr|..] == [];
    return attr;
  }

  // ------------------------------------------------------------------------ trees

  /** The tree with the ids of the elements of m set, and nothing else changed. */
  ghost function WithIds(t: ITree, m: map<Element, string>): (r: ITree)
    decreases t, 1
  {
    match t
    case ILeaf(_, _) => t
    case IElem(e, space, tag, attr, kids) =>
      IElem(e, space, tag, if e in m then SetId(attr, m[e]) else attr, WithIdsAll(kids, m))
  }

  ghost function WithIdsAll(ts: seq<ITree>, m: map<Element, string>): (r: seq<ITree>)
    ensures |r| == |ts|
    decreases ts, 0
  {
    if ts == [] then [] else WithIdsAll(ts[..|ts| - 1], m) + [WithIds(ts[|ts| - 1], m)]
  }

  /** The attribute is the one SelectAttr("id") finds: the first with key id, in whatever namespace. */
  ghost predicate IsId(attr: seq<Attr>, i: nat) {
    i < |attr| && attr[i].key == "id" && forall j :: 0 <= j < i ==> attr[j].key != "id"
  }

  /** The same attributes, except that the id has the value v. */
  ghost predicate IdChanged(attr: seq<Attr>, attr': seq<Attr>, v: string) {
    && |attr'| == |attr|
    && forall i :: 0 <= i < |attr| ==>
         && attr'[i].space == attr[i].space && attr'[i].key == attr[i].key
         && attr'[i].value == if IsId(attr, i) then v else attr[i].value
  }

  lemma {:induction false} SetIdExactly(attr: seq<Attr>, v: string)
    ensures IdChanged(attr, SetId(attr, v), v)
  {
    if attr != [] {
      var r := SetId(attr, v);
      if attr[0].key == "id" {
        assert IsId(attr, 0);
        assert forall i :: 0 < i < |attr| ==> !IsId(attr, i) && r[i] == attr[i];
      } else {
        SetIdExactly(attr[1..], v);
        forall i | 0 < i < |attr| ensures IsId(attr, i) <==> IsId(attr[1..], i - 1) {
          assert forall j :: 0 <= j < i - 1 ==> attr[1..][j] == attr[j + 1];
          assert forall j :: 0 < j < i ==> attr[j] == attr[1..][j - 1];
        }
      }
    }
  }

  /** The same tree of the same objects, except that the elements of m have their value as id. */
  ghost predicate Renumbered(t: ITree, t': ITree, m: map<Element, string>)
    decreases t, 1
  {
    match t
    case ILeaf(_, _) => t' == t
    case IElem(e, space, tag, attr, kids) =>
      && t'.IElem? && t'.e == e && t'.space == space && t'.tag == tag
      && (if e in m then IdChanged(attr, t'.attr, m[e]) else t'.attr == attr)
      && RenumberedAll(kids, t'.kids, m)
  }

  ghost predicate RenumberedAll(ts: seq<ITree>, ts': seq<ITree>, m: map<Element, string>)
    decreases ts, 0
  {
    && |ts'| == |ts|
    && (ts != [] ==>
          && RenumberedAll(ts[..|ts| - 1], ts'[..|ts| - 1], m)
          && Renumbered(ts[|ts| - 1], ts'[|ts| - 1], m))
  }

  lemma {:induction false} WithIdsExactly(t: ITree, m: map<Element, string>)
    ensures Renumbered(t, WithIds(t, m), m)
    decreases t, 1
  {
    if t.IElem? {
      if t.e in m {
        SetIdExactly(t.attr, m[t.e]);
      }
      WithIdsAllExactly(t.kids, m);
    }
  }

  lemma {:induction false} WithIdsAllExactly(ts: seq<ITree>, m: map<Element, string>)
    ensures RenumberedAll(ts, WithIdsAll(ts, m), m)
    decreases ts, 0
  {
    if ts != [] {
      var n := |ts| - 1;
      WithIdsAllExactly(ts[..n], m);
      WithIdsExactly(ts[n], m);
      assert WithIdsAll(ts, m)[..n] == WithIdsAll(ts[..n], m);
    }
  }

  lemma {:induction false} WithIdsObjects(t: ITree, m: map<Element, string>)
    ensures Objects(WithIds(t, m)) == Objects(t) && TokenOf(WithIds(t, m)) == TokenOf(t)
    ensures Distinct(WithIds(t, m)) == Distinct(t)
    decreases t, 1
  {
    if t.IElem? {
      WithIdsAllObjects(t.kids, m);
    }
  }

  lemma {:induction false} WithIdsAllObjects(ts: seq<ITree>, m: map<Element, string>)
    ensures ObjectsAll(WithIdsAll(ts, m)) == ObjectsAll(ts) && TokensOf(WithIdsAll(ts, m)) == TokensOf(ts)
    ensures DistinctAll(WithIdsAll(ts, m)) == DistinctAll(ts)
    decreases ts, 0
  {
    if ts != [] {
      var front, c := ts[..|ts| - 1], ts[|ts| - 1];
      WithIdsAllObjects(front, m);
      WithIdsObjects(c, m);
      AddLast(WithIdsAll(front, m), WithIds(c, m));
    }
  }

  lemma {:induction false} WithIdsElsewhere(t: ITree, m: map<Element, string>, x: Element, v: string)
    requires x !in Objects(t)
    ensures WithIds(t, m[x := v]) == WithIds(t, m)
    decreases t, 1
  {
    if t.IElem? {
      WithIdsAllElsewhere(t.kids, m, x, v);
    }
  }

  lemma {:induction false} WithIdsAllElsewhere(ts: seq<ITree>, m: map<Element, string>, x: Element, v: string)
    requires x !in ObjectsAll(ts)
    ensures WithIdsAll(ts, m[x := v]) == WithIdsAll(ts, m)
    decreases ts, 0
  {
    if ts != [] {
      WithIdsAllElsewhere(ts[..|ts| - 1], m, x, v);
      WithIdsElsewhere(ts[|ts| - 1], m, x, v);
    }
  }

  lemma {:induction false} NoIds(t: ITree)
    ensures WithIds(t, map[]) == t
    decreases t, 1
  {
    if t.IElem? {
      NoIdsAll(t.kids);
    }
  }

  lemma {:induction false} NoIdsAll(ts: seq<ITree>)
    ensures WithIdsAll(ts, map[]) == ts
    decreases ts, 0
  {
    if ts != [] {
      NoIdsAll(ts[..|ts| - 1]);
      NoIds(ts[|ts| - 1]);
    }
  }

  // ---------------------------------------------------------------------- on the heap

  /** Only the attributes of x changed, by setting its id. */
  twostate predicate IdSet(x: Element, v: string, new rest: set<object>)
    reads x, rest
  {
    && x.attr == SetId(old(x.attr), v)
    && x.space == old(x.space) && x.tag == old(x.tag) && x.child == old(x.child) && x.parent == old(x.parent)
    && Same(rest)
  }

  lemma ElementHolds(t: ITree, kids': seq<ITree>, attr': seq<Attr>, p: Element?)
    requires t.IElem? && TokensOf(kids') == TokensOf(t.kids)
    requires t.e.space == t.space && t.e.tag == t.tag && t.e.attr == attr' && t.e.parent == p
    requires t.e.child == TokensOf(t.kids) && HoldsAll(kids', t.e)
    ensures Holds(IElem(t.e, t.space, t.tag, attr', kids'), p)
  {
  }

  twostate lemma IdHoldsHere(t: ITree, new p: Element?, new m: map<Element, string>, new v: string)
    requires old(allocated(p)) && old(allocated(m)) && t.IElem? && Distinct(t) && t.e !in m
             && old(Holds(WithIds(t, m), p))
    requires IdSet(t.e, v, Objects(t) - {t.e})
    ensures Holds(WithIds(t, m[t.e := v]), p)
  {
    WithIdsAllObjects(t.kids, m);
    WithIdsAllElsewhere(t.kids, m, t.e, v);
    SameSubset(Objects(t) - {t.e}, ObjectsAll(t.kids));
    HoldsStill(WithIdsAll(t.kids, m), t.e);
    ElementHolds(t, WithIdsAll(t.kids, m), t.e.attr, p);
  }

  twostate lemma {:induction false} IdHolds(t: ITree, new p: Element?, new m: map<Element, string>,
                                            new x: Element, new v: string)
    requires old(allocated(p)) && old(allocated(m)) && old(allocated(x)) && Distinct(t) && x !in m
             && old(Holds(WithIds(t, m), p))
    requires IdSet(x, v, Objects(t) - {x})
    ensures Holds(WithIds(t, m[x := v]), p)
    decreases t, 1
  {
    var rest := Objects(t) - {x};
    if t.ILeaf? {
      SameSubset(rest, Objects(t));
      TreeStill(t, p);
    } else if t.e == x {
      IdHoldsHere(t, p, m, v);
    } else {
      WithIdsAllObjects(t.kids, m);
      WithIdsAllObjects(t.kids, m[x := v]);
      SameSubset(rest, ObjectsAll(t.kids) - {x});
      SameElement(rest, t.e);
      IdHoldsAll(t.kids, t.e, m, x, v);
      ElementHolds(t, WithIdsAll(t.kids, m[x := v]), t.e.attr, p);
    }
  }

  twostate lemma {:induction false} IdHoldsAll(ts: seq<ITree>, new p: Element?, new m: map<Element, string>,
                                               new x: Element, new v: string)
    requires old(allocated(p)) && old(allocated(m)) && old(allocated(x)) && DistinctAll(ts) && x !in m
             && old(HoldsAll(WithIdsAll(ts, m), p))
    requires IdSet(x, v, ObjectsAll(ts) - {x})
    ensures HoldsAll(WithIdsAll(ts, m[x := v]), p)
    decreases ts, 0
  {
    if ts != [] {
      var front, c := ts[..|ts| - 1], ts[|ts| - 1];
      var rest := ObjectsAll(ts) - {x};
      assert WithIdsAll(ts, m)[..|ts| - 1] == WithIdsAll(front, m);
      SameSubset(rest, ObjectsAll(front) - {x});
      SameSubset(rest, Objects(c) - {x});
      IdHoldsAll(front, p, m, x, v);
      IdHolds(c, p, m, x, v);
      HoldsLast(WithIdsAll(front, m[x := v]), WithIds(c, m[x := v]), p);
    }
  }

  /** The ids given to the first n of the elements found. */
  ghost function IdMap(found: seq<Element>, id: string, n: nat): (m: map<Element, string>)
    requires n <= |found|
    decreases n
  {
    if n == 0 then map[] else IdMap(found, id, n - 1)[found[n - 1] := IdText(id, n - 1)]
  }

  lemma {:induction false} IdMapHas(found: seq<Element>, id: string, n: nat, i: nat)
    requires i < n <= |found| && NoDup(found)
    ensures found[i] in IdMap(found, id, n) && IdMap(found, id, n)[found[i]] == IdText(id, i)
    decreases n
  {
    if i < n - 1 {
      IdMapHas(found, id, n - 1, i);
    }
  }

  lemma {:induction false} IdMapWhere(found: seq<Element>, id: string, n: nat, x: Element) returns (i: nat)
    requires n <= |found| && x in IdMap(found, id, n)
    ensures i < n && found[i] == x && IdMap(found, id, n)[x] == IdText(id, i)
    decreases n
  {
    if found[n - 1] == x {
      i := n - 1;
    } else {
      i := IdMapWhere(found, id, n - 1, x);
    }
  }

  ghost predicate Injective(m: map<Element, string>) {
    forall x, y :: x in m && y in m && m[x] == m[y] ==> x == y
  }

  lemma IdMapInjective(found: seq<Element>, id: string)
    ensures Injective(IdMap(found, id, |found|))
    ensures forall x :: x in IdMap(found, id, |found|) ==>
              exists i: nat :: IdMap(found, id, |found|)[x] == IdText(id, i)
  {
    var m := IdMap(found, id, |found|);
    forall x, y | x in m && y in m && m[x] == m[y] ensures x == y {
      var i := IdMapWhere(found, id, |found|, x);
      var j := IdMapWhere(found, id, |found|, y);
      IdsAreDistinct(id, i, j);
    }
    forall x | x in m ensures exists i: nat :: m[x] == IdText(id, i) {
      var i := IdMapWhere(found, id, |found|, x);
    }
  }

  lemma IdMapKeys(found: seq<Element>, id: string, keys: set<Element>)
    requires NoDup(found) && forall x :: x in found <==> x in keys
    ensures IdMap(found, id, |found|).Keys == keys
  {
    var m := IdMap(found, id, |found|);
    forall x | x in m.Keys ensures x in keys {
      var i := IdMapWhere(found, id, |found|, x);
    }
    forall x | x in keys ensures x in m.Keys {
      var i := FirstIndex(found, x);
      IdMapHas(found, id, |found|, i);
    }
  }

  /** The loop of SetProcessId. */
  method AssignIds(found: seq<Element>, id: string, ghost doc: Element, ghost t: ITree)
    requires Doc(doc, t) && NoDup(found) && forall x :: x in found ==> x in Objects(t)
    modifies Objects(t)
    ensures Holds(WithIds(t, IdMap(found, id, |found|)), null)
  {
    NoIds(t);
    for i := 0 to |found|
      invariant Holds(WithIds(t, IdMap(found, id, i)), null)
    {
      var element := found[i];
      ghost var m := IdMap(found, id, i);
      if element in m {
        ghost var j := IdMapWhere(found, id, i, element);
      }
      WithIdsObjects(t, m);
      ObjectsExist(t);
      var attr := AssignId(element.attr, IdText(id, i));
      assert Holds(WithIds(t, m), null);
      AssignAttr(element, attr, IdText(id, i), t, m);
    }
  }

  method AssignAttr(x: Element, attr: seq<Attr>, v: string, ghost t: ITree, ghost m: map<Element, string>)
    requires Distinct(t) && x in Objects(t) && x !in m && Holds(WithIds(t, m), null) && attr == SetId(x.attr, v)
    modifies x`attr
    ensures Holds(WithIds(t, m[x := v]), null)
  {
    ObjectsExist(t);
    x.attr := attr;
    IdHolds(t, null, m, x, v);
  }

  lemma ProcessQueryIsNormal()
    ensures "//bpmn:process" == "//" + RT.PrintName("bpmn", "process")
    ensures RT.SelectorIsNormal(PathModel.ByTag("bpmn", "process"))
  {
    assert RT.PrintName("bpmn", "process") == "bpmn:process";
  }

  /**
   SetProcessId: the document is written as it was read, except that the id attributes of the process
   elements have new values, all different, numbered in the order in which the processes are found.
   t is the document read, t' the document written, m the ids, and found the processes.
   */
  method SetProcessId(xml: string, id: string)
    returns (r: Outcome, ghost t: ITree, ghost t': ITree, ghost m: map<Element, string>, ghost found: seq<Element>)
    ensures r.Error? <==> !R.ReadFrom(R.NEW_DOCUMENT, xml).Accepted?
    ensures r.Ok? ==>
              && t.IElem? && Distinct(t) && Erase(t) == R.ReadFrom(R.NEW_DOCUMENT, xml).root
              && Renumbered(t, t', m) && r.text == WriteNodes(EraseAll(t'.kids), DEFAULTS)
              && m.Keys == TaggedAll(t.kids, "bpmn", "process") && Injective(m)
              && found == Breadth(t, "bpmn", "process") && Numbered(found, m, id)
  {
    var doc := new Element("", "", [], [], null);
    ghost var t0 := IElem(doc, "", "", [], []);
    m, found, t' := map[], [], t0;
    assert Erase(t0) == R.NEW_DOCUMENT;
    var err;
    err, t := HR.ReadFrom(doc, xml, t0, null);
    if err != HR.NoError {
      return Error, t, t', m, found;
    }
    r, t', m, found := Renumber(doc, id, t);
  }

  /**
   Both rewrites of Deploy, one after the other.  The second never fails: what the first one writes is
   read again, as the normal form t of the secured document, and written with new ids.
   */
  method PrepareDiagram(xml: string, id: string)
    returns (r: Outcome, ghost t: ITree, ghost t': ITree, ghost m: map<Element, string>, ghost found: seq<Element>)
    ensures r.Ok? <==> R.ReadFrom(R.NEW_DOCUMENT, xml).Accepted?
    ensures r.Ok? ==>
              && R.ReadFrom(R.NEW_DOCUMENT, xml).root.Elem? && t.IElem?
              && EraseAll(t.kids) == L.Normalize(ReflagAll(SecureAll(R.ReadFrom(R.NEW_DOCUMENT, xml).root.kids)))
              && Renumbered(t, t', m) && r.text == WriteNodes(EraseAll(t'.kids), DEFAULTS)
              && m.Keys == TaggedAll(t.kids, "bpmn", "process") && Numbered(found, m, id)
  {
    var secured := SecureProcessScripts(xml);
    if R.ReadFrom(R.NEW_DOCUMENT, xml).Accepted? {
      SecuredIsReadBack(xml, DEFAULTS);
    }
    if secured.Error? {
      var none := new Element("", "", [], [], null);
      ghost var t0 := IElem(none, "", "", [], []);
      return Error, t0, t0, map[], [];
    }
    r, t, t', m, found := SetProcessId(secured.text, id);
  }

  /** Exactly the elements of the list have ids: the prefix, the normalized id, and but for the first their place. */
  ghost predicate Numbered(found: seq<Element>, m: map<Element, string>, id: string) {
    && (forall x :: x in m ==> x in found)
    && forall i :: 0 <= i < |found| ==>
         found[i] in m && m[found[i]] == "deplid_" + Normalize(id) + if i == 0 then "" else "_" + Decimal(i)
  }

  method Renumber(doc: Element, id: string, ghost t: ITree)
    returns (r: Outcome, ghost t': ITree, ghost m: map<Element, string>, ghost places: seq<Element>)
    requires Doc(doc, t)
    modifies Objects(t)
    ensures m.Keys == TaggedAll(t.kids, "bpmn", "process") && Injective(m)
    ensures places == Breadth(t, "bpmn", "process") && Numbered(places, m, id)
    ensures t'.IElem? && Renumbered(t, t', m) && r == Ok(WriteNodes(EraseAll(t'.kids), DEFAULTS))
  {
    ProcessQueryIsNormal();
    ObjectsExist(t);
    ghost var keys := TaggedAll(t.kids, "bpmn", "process");
    var found := FindInOrder(doc, "//bpmn:process", t, "bpmn", "process");
    places := found;
    IdMapKeys(found, id, keys);
    forall x | x in found ensures x in Objects(t) {
      TaggedIsInsideAll(t.kids, "bpmn", "process", x);
      HasObjectAll(t.kids, x);
    }
    AssignIds(found, id, doc, t);
    m := IdMap(found, id, |found|);
    IdMapInjective(found, id);
    IdMapNumbers(found, id);
    t' := WithIds(t, m);
    WithIdsExactly(t, m);
    RootKeepsKids(t, m);
    var text := HW.WriteChildren(doc, DEFAULTS, "", t', null);
    ghost var written := WriteNodes(EraseAll(t'.kids), DEFAULTS);
    assert "" + written == written;
    r := Ok(text);
  }

  lemma IdMapNumbers(found: seq<Element>, id: string)
    requires NoDup(found)
    ensures Numbered(found, IdMap(found, id, |found|), id)
  {
    var m := IdMap(found, id, |found|);
    forall x | x in m ensures x in found {
      var i := IdMapWhere(found, id, |found|, x);
    }
    forall i | 0 <= i < |found| ensures found[i] in m && m[found[i]] == IdText(id, i) {
      IdMapHas(found, id, |found|, i);
    }
  }

  lemma RootKeepsKids(t: ITree, m: map<Element, string>)
    requires t.IElem?
    ensures WithIds(t, m).IElem? && WithIds(t, m).e == t.e && WithIds(t, m).kids == WithIdsAll(t.kids, m)
  {
  }
}
