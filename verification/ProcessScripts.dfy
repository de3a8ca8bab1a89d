/** SecureProcessScripts on objects (lib/controller/bpmn.go:30-52; etree/etree.go:297-320, 497-507). */
module ProcessScripts {
  import opened Basics
  import opened XmlModel
  import opened ETree
  import opened HeapTree
  import opened HeapStore
  import opened HeapEdit
  import opened HeapText
  import opened Scripts
  import PathModel
  import RT = PathRoundTrip
  import Q = PathQuery
  import HR = HeapReader
  import HW = HeapWriter
  import R = XmlReader
  import L = XmlLexing
  import St = XmlStable

  // ------------------------------------------------ work still to be done on a tree

  /** The value of the tree once the elements of r have got the prefix. */
  ghost function Finish(t: ITree, r: set<Element>): (n: XNode)
    decreases t, 1
  {
    match t
    case ILeaf(_, v) => XNode.Leaf(v)
    case IElem(e, space, tag, attr, kids) =>
      XNode.Elem(space, tag, attr, if e in r then PrefixKids(FinishAll(kids, r)) else FinishAll(kids, r))
  }

  ghost function FinishAll(ts: seq<ITree>, r: set<Element>): (ns: seq<XNode>)
    ensures |ns| == |ts|
    decreases ts, 0
  {
    if ts == [] then [] else FinishAll(ts[..|ts| - 1], r) + [Finish(ts[|ts| - 1], r)]
  }

  lemma {:induction false} FinishFirst(t: ITree, ts: seq<ITree>, r: set<Element>)
    ensures FinishAll([t] + ts, r) == [Finish(t, r)] + FinishAll(ts, r)
    decreases |ts|
  {
    var all := [t] + ts;
    if ts == [] {
      assert all == [t] && all[..0] == [];
    } else {
      FinishFirst(t, ts[..|ts| - 1], r);
      assert all[..|all| - 1] == [t] + ts[..|ts| - 1];
    }
  }

  /** With nothing left to do the value is that of the tree. */
  lemma {:induction false} FinishNone(t: ITree)
    ensures Finish(t, {}) == Erase(t)
    decreases t, 1
  {
    if t.IElem? {
      FinishNoneAll(t.kids);
    }
  }

  lemma {:induction false} FinishNoneAll(ts: seq<ITree>)
    ensures FinishAll(ts, {}) == EraseAll(ts)
    decreases ts, 0
  {
    if ts != [] {
      FinishNoneAll(ts[..|ts| - 1]);
      FinishNone(ts[|ts| - 1]);
    }
  }

  /** An element outside the tree makes no difference. */
  lemma {:induction false} FinishForgets(t: ITree, r: set<Element>, x: Element)
    requires !Has(t, x)
    ensures Finish(t, r - {x}) == Finish(t, r)
    decreases t, 1
  {
    if t.IElem? {
      FinishForgetsAll(t.kids, r, x);
    }
  }

  lemma {:induction false} FinishForgetsAll(ts: seq<ITree>, r: set<Element>, x: Element)
    requires !HasAll(ts, x)
    ensures FinishAll(ts, r - {x}) == FinishAll(ts, r)
    decreases ts, 0
  {
    if ts != [] {
      FinishForgetsAll(ts[..|ts| - 1], r, x);
      FinishForgets(ts[|ts| - 1], r, x);
    }
  }

  ghost function Prefixed(kids: seq<ITree>, l: Leaf): (r: seq<ITree>) {
    SetTextKids(kids, l, PREFIX + TextIn(kids))
  }

  lemma PrefixedFinish(kids: seq<ITree>, l: Leaf, r: set<Element>)
    ensures FinishAll(Prefixed(kids, l), r) == PrefixKids(FinishAll(kids, r))
  {
    if kids != [] {
      assert kids == [kids[0]] + kids[1..];
      FinishFirst(kids[0], kids[1..], r);
      assert FinishAll(kids, r)[1..] == FinishAll(kids[1..], r);
    }
    if LeadsWithText(kids) {
      FinishFirst(Prefixed(kids, l)[0], kids[1..], r);
    } else {
      assert PREFIX + "" == PREFIX;
      FinishFirst(Prefixed(kids, l)[0], kids, r);
    }
  }

  lemma NotInside(ts: seq<ITree>, x: Element)
    requires x !in ObjectsAll(ts)
    ensures !HasAll(ts, x)
  {
    if HasAll(ts, x) {
      HasObjectAll(ts, x);
    }
  }

  /** Prefixing x is one step of the work. */
  lemma {:induction false} FinishStep(t: ITree, x: Element, l: Leaf, r: set<Element>)
    requires Distinct(t) && Has(t, x) && x in r
    ensures Finish(Replace(t, x, Prefixed(KidsAt(t, x), l)), r - {x}) == Finish(t, r)
    decreases t, 1
  {
    var ks := Prefixed(KidsAt(t, x), l);
    if t.e == x {
      NotInside(t.kids, x);
      PrefixedFinish(t.kids, l, r - {x});
      FinishForgetsAll(t.kids, r, x);
    } else {
      FinishStepAll(t.kids, x, l, r);
    }
  }

  lemma {:induction false} FinishStepAll(ts: seq<ITree>, x: Element, l: Leaf, r: set<Element>)
    requires DistinctAll(ts) && HasAll(ts, x) && x in r
    ensures FinishAll(ReplaceAll(ts, x, Prefixed(KidsAtAll(ts, x), l)), r - {x}) == FinishAll(ts, r)
    decreases ts, 0
  {
    var front, c := ts[..|ts| - 1], ts[|ts| - 1];
    var ks := Prefixed(KidsAtAll(ts, x), l);
    var front', c' := ReplaceAll(front, x, ks), Replace(c, x, ks);
    assert ReplaceAll(ts, x, ks)[..|ts| - 1] == front';
    OnlyOne(ts, x);
    if Has(c, x) {
      ReplaceNothingAll(front, x, ks);
      FinishForgetsAll(front, r, x);
      FinishStep(c, x, l, r);
    } else {
      ReplaceNothing(c, x, ks);
      FinishForgets(c, r, x);
      FinishStepAll(front, x, l, r);
    }
  }

  // ---------------------------------------------------- names are not affected

  lemma {:induction false} TaggedFirst(t: ITree, ts: seq<ITree>, space: string, tag: string)
    ensures TaggedAll([t] + ts, space, tag) == Tagged(t, space, tag) + TaggedAll(ts, space, tag)
    decreases |ts|
  {
    var all := [t] + ts;
    if ts == [] {
      assert all == [t] && all[..0] == [];
    } else {
      TaggedFirst(t, ts[..|ts| - 1], space, tag);
      assert all[..|all| - 1] == [t] + ts[..|ts| - 1];
    }
  }

  lemma PrefixedTagged(kids: seq<ITree>, l: Leaf, space: string, tag: string)
    ensures TaggedAll(Prefixed(kids, l), space, tag) == TaggedAll(kids, space, tag)
  {
    if LeadsWithText(kids) {
      assert kids == [kids[0]] + kids[1..];
      TaggedFirst(kids[0], kids[1..], space, tag);
      TaggedFirst(Prefixed(kids, l)[0], kids[1..], space, tag);
    } else {
      TaggedFirst(Prefixed(kids, l)[0], kids, space, tag);
    }
  }

  lemma {:induction false} ReplaceTagged(t: ITree, x: Element, l: Leaf, space: string, tag: string)
    requires Distinct(t) && Has(t, x)
    ensures Tagged(Replace(t, x, Prefixed(KidsAt(t, x), l)), space, tag) == Tagged(t, space, tag)
    decreases t, 1
  {
    if t.e == x {
      PrefixedTagged(t.kids, l, space, tag);
    } else {
      ReplaceTaggedAll(t.kids, x, l, space, tag);
    }
  }

  lemma {:induction false} ReplaceTaggedAll(ts: seq<ITree>, x: Element, l: Leaf, space: string, tag: string)
    requires DistinctAll(ts) && HasAll(ts, x)
    ensures TaggedAll(ReplaceAll(ts, x, Prefixed(KidsAtAll(ts, x), l)), space, tag) == TaggedAll(ts, space, tag)
    decreases ts, 0
  {
    var front, c := ts[..|ts| - 1], ts[|ts| - 1];
    var ks := Prefixed(KidsAtAll(ts, x), l);
    assert ReplaceAll(ts, x, ks)[..|ts| - 1] == ReplaceAll(front, x, ks);
    OnlyOne(ts, x);
    if Has(c, x) {
      ReplaceNothingAll(front, x, ks);
      ReplaceTagged(c, x, l, space, tag);
    } else {
      ReplaceNothing(c, x, ks);
      ReplaceTaggedAll(front, x, l, space, tag);
    }
  }

  lemma {:induction false} TaggedIsInside(t: ITree, space: string, tag: string, x: Element)
    requires x in Tagged(t, space, tag)
    ensures Has(t, x)
    decreases t, 1
  {
    if t.e != x {
      TaggedIsInsideAll(t.kids, space, tag, x);
    }
  }

  lemma {:induction false} TaggedIsInsideAll(ts: seq<ITree>, space: string, tag: string, x: Element)
    requires x in TaggedAll(ts, space, tag)
    ensures HasAll(ts, x)
    decreases ts, 0
  {
    if x in Tagged(ts[|ts| - 1], space, tag) {
      TaggedIsInside(ts[|ts| - 1], space, tag, x);
    } else {
      TaggedIsInsideAll(ts[..|ts| - 1], space, tag, x);
    }
  }

  // ------------------------------------------------------------- all the scripts

  ghost function ScriptsIn(ts: seq<ITree>): (r: set<Element>) {
    TaggedAll(ts, "camunda", "script") + TaggedAll(ts, "bpmn", "script")
  }

  /** The elements of r in this tree are its scripts. */
  ghost predicate Covers(t: ITree, r: set<Element>)
    decreases t, 1
  {
    t.IElem? ==> (t.e in r <==> IsScript(t.space, t.tag)) && CoversAll(t.kids, r)
  }

  ghost predicate CoversAll(ts: seq<ITree>, r: set<Element>)
    decreases ts, 0
  {
    ts != [] ==> CoversAll(ts[..|ts| - 1], r) && Covers(ts[|ts| - 1], r)
  }

  lemma {:induction false} CoveredFinish(t: ITree, r: set<Element>)
    requires Covers(t, r)
    ensures Finish(t, r) == Secure(Erase(t))
    decreases t, 1
  {
    if t.IElem? {
      CoveredFinishAll(t.kids, r);
    }
  }

  lemma {:induction false} CoveredFinishAll(ts: seq<ITree>, r: set<Element>)
    requires CoversAll(ts, r)
    ensures FinishAll(ts, r) == SecureAll(EraseAll(ts))
    decreases ts, 0
  {
    if ts != [] {
      CoveredFinishAll(ts[..|ts| - 1], r);
      CoveredFinish(ts[|ts| - 1], r);
      assert EraseAll(ts)[..|ts| - 1] == EraseAll(ts[..|ts| - 1]);
    }
  }

  /** r is right about every stored element. */
  ghost predicate Knows(st: PathModel.Store<Element>, r: set<Element>) {
    forall x {:trigger x in r} {:trigger st[x]} :: x in st ==> (x in r <==> IsScript(st[x].space, st[x].tag))
  }

  lemma {:induction false} KnownIsCovered(t: ITree, p: Option<Element>, st: PathModel.Store<Element>, r: set<Element>)
    requires Distinct(t) && Part(StoreOf(t, p), st) && Knows(st, r)
    ensures Covers(t, r)
    decreases t, 1
  {
    if t.IElem? {
      KidParts(t, p);
      PartOfPart(StoreAll(t.kids, Some(t.e)), StoreOf(t, p), st);
      assert StoreOf(t, p)[t.e].space == t.space && StoreOf(t, p)[t.e].tag == t.tag;
      KnownIsCoveredAll(t.kids, Some(t.e), st, r);
    }
  }

  lemma {:induction false} KnownIsCoveredAll(ts: seq<ITree>, p: Option<Element>, st: PathModel.Store<Element>,
                                             r: set<Element>)
    requires DistinctAll(ts) && Part(StoreAll(ts, p), st) && Knows(st, r)
    ensures CoversAll(ts, r)
    decreases ts, 0
  {
    if ts != [] {
      SplitParts(ts, p);
      PartOfPart(StoreAll(ts[..|ts| - 1], p), StoreAll(ts, p), st);
      PartOfPart(StoreOf(ts[|ts| - 1], p), StoreAll(ts, p), st);
      KnownIsCoveredAll(ts[..|ts| - 1], p, st, r);
      KnownIsCovered(ts[|ts| - 1], p, st, r);
    }
  }

  lemma ScriptsAreCovered(ts: seq<ITree>, p: Option<Element>)
    requires DistinctAll(ts)
    ensures CoversAll(ts, ScriptsIn(ts))
  {
    var st := StoreAll(ts, p);
    forall x | x in st ensures x in ScriptsIn(ts) <==> IsScript(st[x].space, st[x].tag) {
      TaggedAllInStore(ts, p, "camunda", "script", x);
      TaggedAllInStore(ts, p, "bpmn", "script", x);
    }
    KnownIsCoveredAll(ts, p, st, ScriptsIn(ts));
  }

  // ----------------------------------------------------------------- the two loops

  /** A document whose objects hold tree t. */
  ghost predicate Doc(doc: Element, t: ITree)
    reads Objects(t)
  {
    t.IElem? && t.e == doc && Distinct(t) && Holds(t, null)
  }

  /** doc.FindElements("//space:tag"): compiled, then run by the queue-driven evaluator. */
  method FindInOrder(doc: Element, path: string, ghost t: ITree, ghost space: string, ghost tag: string)
    returns (found: seq<Element>)
    requires Doc(doc, t)
    requires path == "//" + RT.PrintName(space, tag) && RT.SelectorIsNormal(PathModel.ByTag(space, tag))
    ensures Doc(doc, t)
    ensures NoDup(found) && forall x :: x in found <==> x in TaggedAll(t.kids, space, tag)
    ensures found == Breadth(t, space, tag)
  {
    ObjectsExist(t);
    DeepTagOrder(t, space, tag);
    RT.DeepTagCompiles(space, tag);
    StoreIsForest(t);
    StoreIsPicture(t);
    var answer := Q.FindElements(doc, path, StoreOf(t, None), RankOf(t), LeafSet(t));
    found := answer.value;
    forall x ensures x in found <==> x in TaggedAll(t.kids, space, tag) {
      DeepTagFinds(t, space, tag, x);
    }
  }

  /** The same where the order does not matter. */
  method FindByName(doc: Element, path: string, ghost t: ITree, ghost space: string, ghost tag: string)
    returns (found: seq<Element>)
    requires Doc(doc, t)
    requires path == "//" + RT.PrintName(space, tag) && RT.SelectorIsNormal(PathModel.ByTag(space, tag))
    ensures Doc(doc, t)
    ensures NoDup(found) && forall x :: x in found <==> x in TaggedAll(t.kids, space, tag)
  {
    found := FindInOrder(doc, path, t, space, tag);
  }

  /** script.SetText(prefix + script.Text()) */
  method PrefixScript(x: Element, ghost doc: Element, ghost t: ITree, ghost r: set<Element>) returns (ghost t': ITree)
    requires Doc(doc, t) && Has(t, x) && x in r
    modifies Objects(t)
    ensures Doc(doc, t') && (forall o :: o in Objects(t') ==> o in Objects(t) || fresh(o))
    ensures Finish(t', r - {x}) == Finish(t, r)
    ensures forall space, tag :: Tagged(t', space, tag) == Tagged(t, space, tag)
  {
    ghost var kids := KidsAt(t, x);
    ObjectsExist(t);
    HasObject(t, x);
    HeldAt(t, null, x);
    TextOfKids(x, kids);
    var l := SetText(x, PREFIX + x.Text(), kids);
    ghost var ks := Prefixed(kids, l);
    ReplaceHolds(t, null, x, ks);
    ReplaceObjects(t, x, ks);
    FinishStep(t, x, l, r);
    forall space, tag ensures Tagged(Replace(t, x, ks), space, tag) == Tagged(t, space, tag) {
      ReplaceTagged(t, x, l, space, tag);
    }
    t' := Replace(t, x, ks);
  }

  lemma TextOfKids(x: Element, kids: seq<ITree>)
    requires x.child == TokensOf(kids) && HoldsAll(kids, x)
    ensures x.Text() == TextIn(kids) && x.TextLeaf() <= LeafSetAll(kids)
    ensures forall o :: o in x.TextLeaf() ==> o in ObjectsAll(kids)
  {
    if kids != [] {
      KidAt(kids, 0);
      HeldKid(kids, 0, x);
      if kids[0].ILeaf? {
        FirstLeaf(kids);
      }
    }
  }

  lemma RootTagged(t: ITree, space: string, tag: string)
    requires t.IElem? && Distinct(t)
    ensures TaggedAll(t.kids, space, tag) == Tagged(t, space, tag) - {t.e}
  {
    if t.e in TaggedAll(t.kids, space, tag) {
      TaggedIsInsideAll(t.kids, space, tag, t.e);
      HasObjectAll(t.kids, t.e);
    }
  }

  /** Same names as before, for every name. */
  ghost predicate SameNames(t: ITree, t': ITree) {
    forall space, tag :: Tagged(t', space, tag) == Tagged(t, space, tag)
  }

  ghost function Members(s: seq<Element>): (r: set<Element>) {
    set x | x in s
  }

  lemma MembersNext(s: seq<Element>, i: nat)
    requires i < |s|
    ensures Members(s[..i + 1]) == Members(s[..i]) + {s[i]}
  {
    assert s[..i + 1] == s[..i] + [s[i]];
  }

  /** One of the loops of SecureProcessScripts. */
  method PrefixAll(found: seq<Element>, ghost doc: Element, ghost t: ITree, ghost r: set<Element>,
                   ghost space: string, ghost tag: string)
    returns (ghost t': ITree)
    requires Doc(doc, t) && NoDup(found)
    requires forall x :: x in found <==> x in TaggedAll(t.kids, space, tag)
    requires TaggedAll(t.kids, space, tag) <= r
    modifies Objects(t)
    ensures Doc(doc, t') && (forall o :: o in Objects(t') ==> o in Objects(t) || fresh(o)) && SameNames(t, t')
    ensures Finish(t', r - TaggedAll(t.kids, space, tag)) == Finish(t, r)
  {
    t' := t;
    ghost var left := r;
    for i := 0 to |found|
      invariant Doc(doc, t') && (forall o :: o in Objects(t') ==> o in Objects(t) || fresh(o)) && SameNames(t, t')
      invariant forall j :: i <= j < |found| ==> found[j] in left
      invariant left == r - Members(found[..i])
      invariant Finish(t', left) == Finish(t, r)
    {
      ghost var x := found[i];
      RootTagged(t, space, tag);
      TaggedIsInside(t', space, tag, x);
      t' := PrefixScript(found[i], doc, t', left);
      left := left - {x};
      MembersNext(found, i);
    }
    assert found[..|found|] == found;
    assert Members(found) == TaggedAll(t.kids, space, tag);
  }

  lemma DifferentSpaces(ts: seq<ITree>, p: Option<Element>)
    requires DistinctAll(ts)
    ensures ScriptsIn(ts) - TaggedAll(ts, "camunda", "script") == TaggedAll(ts, "bpmn", "script")
  {
    forall x | x in TaggedAll(ts, "bpmn", "script") ensures x !in TaggedAll(ts, "camunda", "script") {
      TaggedAllInStore(ts, p, "camunda", "script", x);
      TaggedAllInStore(ts, p, "bpmn", "script", x);
    }
  }

  lemma FinishDoc(t: ITree)
    requires t.IElem? && Distinct(t)
    ensures Finish(t, ScriptsIn(t.kids)) == XNode.Elem(t.space, t.tag, t.attr, SecureAll(EraseAll(t.kids)))
  {
    ScriptsAreCovered(t.kids, Some(t.e));
    CoveredFinishAll(t.kids, ScriptsIn(t.kids));
    RootTagged(t, "camunda", "script");
    RootTagged(t, "bpmn", "script");
  }

  lemma CamundaQueryIsNormal()
    ensures "//camunda:script" == "//" + RT.PrintName("camunda", "script")
    ensures RT.SelectorIsNormal(PathModel.ByTag("camunda", "script"))
  {
    assert RT.PrintName("camunda", "script") == "camunda:script";
  }

  lemma BpmnQueryIsNormal()
    ensures "//bpmn:script" == "//" + RT.PrintName("bpmn", "script")
    ensures RT.SelectorIsNormal(PathModel.ByTag("bpmn", "script"))
  {
    assert RT.PrintName("bpmn", "script") == "bpmn:script";
  }

  /** Both loops: the objects then hold the secured tree. */
  method SecureDocument(doc: Element, ghost t: ITree) returns (ghost t': ITree)
    requires Doc(doc, t)
    modifies Objects(t)
    ensures Doc(doc, t') && Erase(t') == XNode.Elem(t.space, t.tag, t.attr, SecureAll(EraseAll(t.kids)))
  {
    CamundaQueryIsNormal();
    BpmnQueryIsNormal();
    ObjectsExist(t);
    var found := FindByName(doc, "//camunda:script", t, "camunda", "script");
    ghost var t1 := PrefixAll(found, doc, t, ScriptsIn(t.kids), "camunda", "script");
    DifferentSpaces(t.kids, Some(doc));
    RootTagged(t, "bpmn", "script");
    RootTagged(t1, "bpmn", "script");
    ghost var left := TaggedAll(t.kids, "bpmn", "script");
    found := FindByName(doc, "//bpmn:script", t1, "bpmn", "script");
    t' := PrefixAll(found, doc, t1, left, "bpmn", "script");
    assert left - left == {};
    FinishNone(t');
    FinishDoc(t);
  }

  const DEFAULTS: WriteSettings := WriteSettings(false, false, false)

  datatype Outcome = Ok(text: string) | Error

  /** What SecureProcessScripts is for: the text of the secured tree, or an error if the text is not read. */
  ghost function Secured(xml: string): (r: Outcome) {
    match R.ReadFrom(R.NEW_DOCUMENT, xml)
    case Accepted(d) => if d.Elem? then Ok(WriteNodes(SecureAll(d.kids), DEFAULTS)) else Error
    case _ => Error
  }

  method SecureProcessScripts(xml: string) returns (r: Outcome)
    ensures r == Secured(xml) && (r.Ok? <==> R.ReadFrom(R.NEW_DOCUMENT, xml).Accepted?)
  {
    var doc := new Element("", "", [], [], null);
    ghost var t0 := IElem(doc, "", "", [], []);
    assert Erase(t0) == R.NEW_DOCUMENT;
    var err;
    ghost var t;
    err, t := HR.ReadFrom(doc, xml, t0, null);
    if err != HR.NoError {
      return Error;
    }
    ghost var t' := SecureDocument(doc, t);
    var text := HW.WriteChildren(doc, DEFAULTS, "", t', null);
    assert "" + WriteNodes(EraseAll(t'.kids), DEFAULTS) == WriteNodes(EraseAll(t'.kids), DEFAULTS);
    return Ok(text);
  }

  /**
   End to end, for every text that is read: the text produced is read again as the normal form of the
   secured document.  That is the secured document itself, up to the whitespace flags of the changed
   text, if and only if the secured document is legal, as it is when the document read was.
   */
  lemma SecuredIsReadBack(xml: string, settings: WriteSettings)
    requires R.ReadFrom(R.NEW_DOCUMENT, xml).Accepted?
    ensures R.ReadFrom(R.NEW_DOCUMENT, xml).root.Elem?
    ensures var kids := R.ReadFrom(R.NEW_DOCUMENT, xml).root.kids;
            var secured := ReflagAll(SecureAll(kids));
            var again := R.ReadFrom(R.NEW_DOCUMENT, WriteNodes(SecureAll(kids), settings));
            && again == R.Accepted(R.NEW_DOCUMENT.(kids := L.Normalize(secured)))
            && (again == R.Accepted(R.NEW_DOCUMENT.(kids := secured)) <==> L.LegalNodes(secured))
            && (L.LegalNodes(kids) ==> L.LegalNodes(secured))
  {
    St.ReadIsReadable(xml);
    var kids := R.ReadFrom(R.NEW_DOCUMENT, xml).root.kids;
    var secured := ReflagAll(SecureAll(kids));
    SecureAllFits(kids, false);
    ReflagAllWritesAlike(SecureAll(kids), settings);
    R.WriteReadNormalizes(secured, settings);
    R.RoundTripExactly(secured, settings);
    if L.LegalNodes(kids) {
      SecureAllFits(kids, true);
    }
  }
}
