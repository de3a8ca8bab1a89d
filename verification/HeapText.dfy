/** SetText on objects, and what a later Indent makes of the text (etree/etree.go:309-320, 511-574). */
module HeapText {
  import opened Basics
  import opened XmlModel
  import opened ETree
  import opened HeapTree
  import I = Indent
  import H = HeapIndent

  ghost predicate LeadsWithText(kids: seq<ITree>) {
    kids != [] && kids[0].ILeaf? && kids[0].value.CharData?
  }

  /** The children after SetText; l is the token made when there is no leading text. */
  ghost function SetTextKids(kids: seq<ITree>, l: Leaf, text: string): (r: seq<ITree>) {
    if LeadsWithText(kids) then [ILeaf(kids[0].l, CharData(text, kids[0].value.whitespace))] + kids[1..]
    else [ILeaf(l, CharData(text, false))] + kids
  }

  /** Putting one tree before a list. */
  lemma {:induction false} AddFirst(t: ITree, ts: seq<ITree>)
    ensures TokensOf([t] + ts) == [TokenOf(t)] + TokensOf(ts)
    ensures ObjectsAll([t] + ts) == Objects(t) + ObjectsAll(ts)
    ensures DistinctAll([t] + ts) == (Distinct(t) && DistinctAll(ts) && Objects(t) !! ObjectsAll(ts))
    decreases |ts|
  {
    var all := [t] + ts;
    if ts == [] {
      assert all == [t] && all[..0] == [];
    } else {
      AddFirst(t, ts[..|ts| - 1]);
      assert all[..|all| - 1] == [t] + ts[..|ts| - 1];
    }
  }

  lemma {:induction false} HoldsFirst(t: ITree, ts: seq<ITree>, p: Element?)
    ensures HoldsAll([t] + ts, p) == (Holds(t, p) && HoldsAll(ts, p))
    decreases |ts|
  {
    var all := [t] + ts;
    if ts == [] {
      assert all == [t] && all[..0] == [];
    } else {
      HoldsFirst(t, ts[..|ts| - 1], p);
      assert all[..|all| - 1] == [t] + ts[..|ts| - 1];
    }
  }

  /** SetText: the leading text token keeps its whitespace flag; otherwise a token is put first. */
  method SetText(e: Element, text: string, ghost kids: seq<ITree>) returns (ghost l: Leaf)
    requires e.child == TokensOf(kids) && HoldsAll(kids, e) && DistinctAll(kids) && e !in ObjectsAll(kids)
    modifies e`child, e.TextLeaf()`value
    ensures e.child == TokensOf(SetTextKids(kids, l, text)) && HoldsAll(SetTextKids(kids, l, text), e)
    ensures e.Text() == text
    ensures DistinctAll(SetTextKids(kids, l, text)) && e !in ObjectsAll(SetTextKids(kids, l, text))
    ensures LeadsWithText(kids) ==> ObjectsAll(SetTextKids(kids, l, text)) == ObjectsAll(kids)
    ensures !LeadsWithText(kids) ==> fresh(l) && ObjectsAll(SetTextKids(kids, l, text)) == ObjectsAll(kids) + {l}
  {
    AllObjectsExist(kids);
    if kids != [] {
      KidAt(kids, 0);
      HeldKid(kids, 0, e);
    }
    if |e.child| > 0 && e.child[0].LeafToken? && e.child[0].l.value.CharData? {
      var cd := e.child[0].l;
      l := cd;
      ghost var rest := kids[1..];
      assert kids == [kids[0]] + rest;
      AddFirst(kids[0], rest);
      HoldsFirst(kids[0], rest, e);
      ghost var first := ILeaf(cd, CharData(text, kids[0].value.whitespace));
      AddFirst(first, rest);
      cd.value := CharData(text, cd.value.whitespace);
      HoldsFirst(first, rest, e);
    } else {
      var cd := new Leaf(CharData(text, false), e);
      l := cd;
      ghost var first := ILeaf(cd, CharData(text, false));
      AddFirst(first, kids);
      e.child := [LeafToken(cd)] + e.child;
      HoldsFirst(first, kids, e);
    }
  }

  // ----------------------------------------------------------------- Indent afterwards

  lemma {:induction false} EraseFirst(t: ITree, ts: seq<ITree>)
    ensures EraseAll([t] + ts) == [Erase(t)] + EraseAll(ts)
    decreases |ts|
  {
    var all := [t] + ts;
    if ts == [] {
      assert all == [t] && all[..0] == [];
    } else {
      EraseFirst(t, ts[..|ts| - 1]);
      assert all[..|all| - 1] == [t] + ts[..|ts| - 1];
    }
  }

  /** On values, SetText is what the indentation lemma speaks of. */
  lemma SetTextErases(t: ITree, l: Leaf, text: string)
    requires t.IElem?
    ensures Erase(t.(kids := SetTextKids(t.kids, l, text))) == I.WithText(Erase(t), text)
  {
    if LeadsWithText(t.kids) {
      var rest := t.kids[1..];
      assert t.kids == [t.kids[0]] + rest;
      EraseFirst(t.kids[0], rest);
      EraseFirst(ILeaf(t.kids[0].l, CharData(text, t.kids[0].value.whitespace)), rest);
    } else {
      EraseFirst(ILeaf(l, CharData(text, false)), t.kids);
      if t.kids != [] {
        KidAt(t.kids, 0);
      }
    }
  }

  lemma {:induction false} CoreFirst(c: ITree, ts: seq<ITree>)
    ensures H.CoreAllI([c] + ts) == (if H.FlaggedI(c) then [] else [H.CoreI(c)]) + H.CoreAllI(ts)
    decreases |ts|
  {
    var all := [c] + ts;
    if ts == [] {
      assert all == [c] && all[..0] == [];
    } else {
      CoreFirst(c, ts[..|ts| - 1]);
      assert all[..|all| - 1] == [c] + ts[..|ts| - 1];
    }
  }

  /** The leading token of an element belongs to what Indent keeps exactly when it is not flagged. */
  lemma LeadingLeaf(t: ITree, c: ITree, rest: seq<ITree>)
    requires t.IElem? && Distinct(t) && t.kids == [c] + rest && c.ILeaf?
    ensures c.l in Objects(H.CoreI(t)) <==> !H.FlaggedI(c)
  {
    CoreFirst(c, rest);
    H.CoreAllObjects(rest);
    AddFirst(c, rest);
    if !H.FlaggedI(c) {
      AddFirst(H.CoreI(c), H.CoreAllI(rest));
    } else {
      assert [] + H.CoreAllI(rest) == H.CoreAllI(rest);
    }
  }

  /** The leading text token stood for indentation. */
  ghost predicate LeadsWithFlag(kids: seq<ITree>) {
    LeadsWithText(kids) && kids[0].value.whitespace
  }

  /**
   SetText, then Indent, for every element, style and depth: the token that holds the text is still
   in the tree if and only if it did not stand for indentation before.
   */
  method SetTextThenIndent(e: Element, text: string, depth: nat, style: I.Style, ghost t: ITree, ghost p: Element?)
    returns (ghost l: Leaf, ghost t': ITree)
    requires t.IElem? && t.e == e && Distinct(t) && Holds(t, p)
    modifies Objects(t)
    ensures t'.IElem? && t'.e == e && Distinct(t') && Holds(t', p)
    ensures Erase(t') == I.IndentNode(style, depth, I.WithText(Erase(t), text))
    ensures if LeadsWithText(t.kids) then l == t.kids[0].l else fresh(l)
    ensures l in Objects(t') <==> !LeadsWithFlag(t.kids)
  {
    ObjectsExist(t);
    HeldText(e, t);
    l := SetText(e, text, t.kids);
    ghost var kids := SetTextKids(t.kids, l, text);
    ghost var t1 := t.(kids := kids);
    SetTextErases(t, l, text);
    assert kids == [kids[0]] + kids[1..];
    LeadingLeaf(t1, kids[0], kids[1..]);
    ObjectsExist(t1);
    if LeadsWithText(t.kids) {
      l := t.kids[0].l;
    }
    t' := H.IndentElement(e, depth, style, t1, p);
    H.CoreObjects(t');
  }

  /** The text token of an element is one of its objects. */
  lemma HeldText(e: Element, t: ITree)
    requires t.IElem? && t.e == e && Holds(t, e.parent)
    ensures forall o :: o in e.TextLeaf() ==> o in ObjectsAll(t.kids)
  {
    if t.kids != [] {
      KidAt(t.kids, 0);
    }
  }
}
