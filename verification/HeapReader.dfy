/** readFrom on objects: the stack loop of etree/etree.go:377-415, refined to `XmlReader.ReadFrom`. */
module HeapReader {
  import opened Basics
  import opened XmlModel
  import opened XmlDecoder
  import opened ETree
  import opened HeapTree
  import R = XmlReader

  // ---------------------------------------------------- the stack in the tree

  /** The stack holds the elements along the last children. */
  ghost predicate OnSpine(t: ITree, stack: seq<Element>)
    decreases |stack|
  {
    && stack != [] && t.IElem? && stack[0] == t.e
    && (|stack| > 1 ==> t.kids != [] && OnSpine(t.kids[|t.kids| - 1], stack[1..]))
  }

  /** A new last child for the element at depth d. */
  ghost function GraftI(t: ITree, d: nat, n: ITree): (r: ITree)
    decreases d
  {
    if t.ILeaf? then t
    else if d == 0 then t.(kids := t.kids + [n])
    else if t.kids == [] then t
    else
      var k := |t.kids| - 1;
      t.(kids := t.kids[..k] + [GraftI(t.kids[k], d - 1, n)])
  }

  lemma {:induction false} EraseGraft(t: ITree, stack: seq<Element>, n: ITree)
    requires OnSpine(t, stack)
    ensures R.Spine(Erase(t), |stack| - 1)
    ensures Erase(GraftI(t, |stack| - 1, n)) == R.Graft(Erase(t), |stack| - 1, Erase(n))
    decreases |stack|
  {
    var d := |stack| - 1;
    if d == 0 {
      AddLast(t.kids, n);
    } else {
      var k := |t.kids| - 1;
      EraseGraft(t.kids[k], stack[1..], n);
      AddLast(t.kids[..k], GraftI(t.kids[k], d - 1, n));
      assert EraseAll(t.kids)[..k] == EraseAll(t.kids[..k]);
    }
  }

  lemma {:induction false} GraftObjects(t: ITree, stack: seq<Element>, n: ITree)
    requires OnSpine(t, stack) && Distinct(t) && Distinct(n) && Objects(t) !! Objects(n)
    ensures var g := GraftI(t, |stack| - 1, n);
            g.IElem? && g.e == t.e && Distinct(g) && Objects(g) == Objects(t) + Objects(n)
    decreases |stack|
  {
    var d := |stack| - 1;
    if d == 0 {
      AddLast(t.kids, n);
    } else {
      var k := |t.kids| - 1;
      GraftObjects(t.kids[k], stack[1..], n);
      AddLast(t.kids[..k], GraftI(t.kids[k], d - 1, n));
    }
  }

  lemma {:induction false} GraftSpine(t: ITree, stack: seq<Element>, n: ITree)
    requires OnSpine(t, stack)
    ensures OnSpine(GraftI(t, |stack| - 1, n), stack)
    ensures n.IElem? ==> OnSpine(GraftI(t, |stack| - 1, n), stack + [n.e])
    decreases |stack|
  {
    var s' := if n.IElem? then stack + [n.e] else stack;
    assert s'[0] == stack[0];
    if |stack| > 1 {
      GraftSpine(t.kids[|t.kids| - 1], stack[1..], n);
      assert n.IElem? ==> (stack + [n.e])[1..] == stack[1..] + [n.e];
    } else if n.IElem? {
      assert s'[1..] == [n.e];
    }
  }

  lemma {:induction false} SpinePop(t: ITree, stack: seq<Element>)
    requires OnSpine(t, stack) && |stack| > 1
    ensures OnSpine(t, stack[..|stack| - 1])
    decreases |stack|
  {
    var s := stack[..|stack| - 1];
    assert s[0] == stack[0];
    if |s| > 1 {
      SpinePop(t.kids[|t.kids| - 1], stack[1..]);
      assert s[1..] == stack[1..][..|stack| - 2];
    }
  }

  /** The top of the stack is one of the tree's elements, and below the top level not its root. */
  lemma {:induction false} TopIsInside(t: ITree, stack: seq<Element>)
    requires OnSpine(t, stack)
    ensures stack[|stack| - 1] in Objects(t)
    decreases |stack|
  {
    if |stack| > 1 {
      TopIsInside(t.kids[|t.kids| - 1], stack[1..]);
    }
  }

  twostate lemma GraftTop(t: ITree, new n: ITree, new p: Element?)
    requires old(allocated(p)) && t.IElem? && Distinct(t) && old(Holds(t, p))
    requires Holds(n, t.e) && t.e.child == old(t.e.child) + [TokenOf(n)]
    requires t.e.space == old(t.e.space) && t.e.tag == old(t.e.tag)
             && t.e.attr == old(t.e.attr) && t.e.parent == old(t.e.parent)
    requires Same(Objects(t) - {t.e})
    ensures Holds(t.(kids := t.kids + [n]), p)
  {
    AddLast(t.kids, n);
    HoldsLast(t.kids, n, t.e);
    SameSubset(Objects(t) - {t.e}, ObjectsAll(t.kids));
    HoldsStill(t.kids, t.e);
  }

  lemma LastKidReplaced(t: ITree, last': ITree, p: Element?)
    requires t.IElem? && t.kids != []
    requires t.e.parent == p && t.e.space == t.space && t.e.tag == t.tag && t.e.attr == t.attr
    requires t.e.child == TokensOf(t.kids) && TokenOf(last') == TokenOf(t.kids[|t.kids| - 1])
    requires HoldsAll(t.kids[..|t.kids| - 1], t.e) && Holds(last', t.e)
    ensures Holds(t.(kids := t.kids[..|t.kids| - 1] + [last']), p)
  {
    AddLast(t.kids[..|t.kids| - 1], last');
    HoldsLast(t.kids[..|t.kids| - 1], last', t.e);
  }

  /** Appending a child to the top of the stack turns the tree held into the grafted one. */
  twostate lemma {:induction false} GraftHolds(t: ITree, new stack: seq<Element>, new n: ITree, new p: Element?)
    requires old(allocated(stack)) && old(allocated(p)) && OnSpine(t, stack) && Distinct(t) && old(Holds(t, p))
    requires var top := stack[|stack| - 1];
             && Holds(n, top) && top.child == old(top.child) + [TokenOf(n)]
             && top.space == old(top.space) && top.tag == old(top.tag)
             && top.attr == old(top.attr) && top.parent == old(top.parent)
    requires Same(Objects(t) - {stack[|stack| - 1]})
    ensures Holds(GraftI(t, |stack| - 1, n), p)
    decreases |stack|
  {
    var d := |stack| - 1;
    var top := stack[d];
    if d == 0 {
      GraftTop(t, n, p);
    } else {
      var k := |t.kids| - 1;
      var front, last := t.kids[..k], t.kids[k];
      TopIsInside(last, stack[1..]);
      SameSubset(Objects(t) - {top}, ObjectsAll(front));
      SameSubset(Objects(t) - {top}, Objects(last) - {top});
      SameElement(Objects(t) - {top}, t.e);
      GraftHolds(last, stack[1..], n, t.e);
      HoldsStill(front, t.e);
      LastKidReplaced(t, GraftI(last, d - 1, n), p);
    }
  }

  // ------------------------------------------------------------------ attributes

  /** createAttr: a search through the attributes, then a replacement or an append. */
  method CreateAttr(attr: seq<Attr>, a: Attr) returns (r: seq<Attr>)
    ensures r == PutAttr(attr, a)
  {
    for i := 0 to |attr|
      invariant PutAttr(attr, a) == attr[..i] + PutAttr(attr[i..], a)
    {
      if attr[i].space == a.space && attr[i].key == a.key {
        assert attr[i..][0] == attr[i] && attr[i..][1..] == attr[i + 1..];
        return attr[..i] + [attr[i].(value := a.value)] + attr[i + 1..];
      }
      assert attr[i..][1..] == attr[i + 1..] && attr[..i] + [attr[i]] == attr[..i + 1];
    }
    assert attr[..|attr|] == attr && attr[|attr|..] == [];
    return attr + [a];
  }

  method CreateAttrs(more: seq<Attr>) returns (r: seq<Attr>)
    ensures r == PutAttrs([], more)
  {
    r := [];
    for i := 0 to |more|
      invariant PutAttrs(r, more[i..]) == PutAttrs([], more)
    {
      assert more[i..][0] == more[i] && more[i..][1..] == more[i + 1..];
      r := CreateAttr(r, more[i]);
    }
    assert more[|more|..] == [];
  }

  // --------------------------------------------------------------------- the loop

  /** How the loop ends; the tree has been built in each case. */
  datatype ReadError = NoError | ErrXml | ErrSyntax

  /** The loop's state as the value model sees it. */
  ghost function StateOf(t: ITree, stack: seq<Element>): (st: R.Reading) {
    if stack == [] then R.Drained(Erase(t)) else R.Open(Erase(t), |stack| - 1)
  }

  /** What the loop maintains of the objects. */
  ghost predicate Built(t: ITree, p: Element?, stack: seq<Element>)
    reads Objects(t)
  {
    Distinct(t) && Holds(t, p) && (stack != [] ==> OnSpine(t, stack))
  }

  /** addChild on the innermost open element. */
  method AttachLeaf(v: LeafValue, stack: seq<Element>, ghost t: ITree, ghost p: Element?) returns (ghost t': ITree)
    requires stack != [] && Built(t, p, stack)
    modifies stack[|stack| - 1]
    ensures Built(t', p, stack) && (forall o :: o in Objects(t') ==> o in Objects(t) || fresh(o)) && t'.IElem?
            && t'.e == stack[0]
    ensures R.Spine(Erase(t), |stack| - 1) && Erase(t') == R.Graft(Erase(t), |stack| - 1, XNode.Leaf(v))
  {
    var top := stack[|stack| - 1];
    ObjectsExist(t);
    var l := new Leaf(v, top);
    ghost var n := ILeaf(l, v);
    TopIsInside(t, stack);
    top.child := top.child + [LeafToken(l)];
    t' := Grafted(t, stack, n, p);
  }

  method AttachElement(space: string, tag: string, attr: seq<Attr>, stack: seq<Element>,
                       ghost t: ITree, ghost p: Element?)
    returns (e: Element, ghost t': ITree)
    requires stack != [] && Built(t, p, stack)
    modifies stack[|stack| - 1]
    ensures fresh(e) && Built(t', p, stack + [e]) && Objects(t') == Objects(t) + {e} && t'.IElem? && t'.e == stack[0]
    ensures R.Spine(Erase(t), |stack| - 1)
         && Erase(t') == R.Graft(Erase(t), |stack| - 1, XNode.Elem(space, tag, attr, []))
  {
    var top := stack[|stack| - 1];
    ObjectsExist(t);
    e := new Element(space, tag, attr, [], top);
    ghost var n := IElem(e, space, tag, attr, []);
    TopIsInside(t, stack);
    top.child := top.child + [ElementToken(e)];
    t' := Grafted(t, stack, n, p);
  }

  /** The tree after appending n to the top of the stack. */
  twostate lemma Grafted(t: ITree, new stack: seq<Element>, new n: ITree, new p: Element?) returns (t': ITree)
    requires old(allocated(stack)) && old(allocated(p)) && stack != [] && OnSpine(t, stack) && Distinct(t)
             && old(Holds(t, p))
    requires Distinct(n) && Objects(t) !! Objects(n)
    requires var top := stack[|stack| - 1];
             && Holds(n, top) && top.child == old(top.child) + [TokenOf(n)]
             && top.space == old(top.space) && top.tag == old(top.tag)
             && top.attr == old(top.attr) && top.parent == old(top.parent)
    requires Same(Objects(t) - {stack[|stack| - 1]})
    ensures t' == GraftI(t, |stack| - 1, n) && t'.IElem? && t'.e == stack[0]
    ensures Built(t', p, stack) && (n.IElem? ==> Built(t', p, stack + [n.e]))
    ensures Objects(t') == Objects(t) + Objects(n)
    ensures R.Spine(Erase(t), |stack| - 1) && Erase(t') == R.Graft(Erase(t), |stack| - 1, Erase(n))
  {
    t' := GraftI(t, |stack| - 1, n);
    GraftHolds(t, stack, n, p);
    GraftObjects(t, stack, n);
    GraftSpine(t, stack, n);
    EraseGraft(t, stack, n);
  }

  lemma StateIsSound(t: ITree, stack: seq<Element>)
    requires stack != [] ==> OnSpine(t, stack)
    ensures R.Sound(StateOf(t, stack))
  {
    if stack != [] {
      EraseGraft(t, stack, t);
    }
  }

  /** One token on a stack that is not empty. */
  method HandleToken(k: XToken, stack: seq<Element>, ghost t: ITree, ghost p: Element?)
    returns (stack': seq<Element>, ghost t': ITree)
    requires stack != [] && Built(t, p, stack)
    modifies stack[|stack| - 1]
    ensures Built(t', p, stack') && (forall o :: o in Objects(t') ==> o in Objects(t) || fresh(o)) && t'.IElem?
            && t'.e == stack[0]
    ensures forall x :: x in stack' ==> x in stack || fresh(x)
    ensures R.Sound(StateOf(t, stack)) && StateOf(t', stack') == R.Step(StateOf(t, stack), k)
  {
    StateIsSound(t, stack);
    ObjectsExist(t);
    stack' := stack;
    t' := t;
    match k
    case Start(space, tag, attr) =>
      var own := CreateAttrs(attr);
      var e;
      e, t' := AttachElement(space, tag, own, stack, t, p);
      stack' := stack + [e];
    case End(_, _) =>
      if |stack| > 1 {
        SpinePop(t, stack);
      }
      stack' := stack[..|stack| - 1];
    case Data(v) =>
      t' := AttachLeaf(v, stack, t, p);
  }

  /** What the decoder says next. */
  datatype Raw = Eof | Malformed | Next(k: XToken)

  lemma NothingPending(b: seq<XToken>)
    ensures [] + b == b
  {
  }

  lemma TakeFirst(a: seq<XToken>, b: seq<XToken>)
    requires a != []
    ensures a + b == [a[0]] + (a[1..] + b)
  {
  }

  /** dec.RawToken: the pending end of a self-closing tag first, then the input. */
  method RawToken(pending: seq<XToken>, rest: string) returns (raw: Raw, pending': seq<XToken>, rest': string)
    ensures raw.Eof? ==> pending + Lex(rest).list == [] && Lex(rest).ok
    ensures raw.Malformed? ==> pending + Lex(rest).list == [] && !Lex(rest).ok
    ensures raw.Next? ==>
              && pending + Lex(rest).list == [raw.k] + (pending' + Lex(rest').list)
              && Lex(rest').ok == Lex(rest).ok
              && (|rest'| < |rest| || (rest' == rest && |pending'| < |pending|))
  {
    pending', rest' := pending, rest;
    if pending == [] {
      if rest == "" {
        return Eof, pending', rest';
      }
      var item := ScanItem(rest);
      if item.Bad? {
        return Malformed, pending', rest';
      }
      pending', rest' := item.value, item.rest;
      NothingPending(Lex(rest).list);
    }
    TakeFirst(pending', Lex(rest').list);
    raw := Next(pending'[0]);
    pending' := pending'[1..];
  }

  /** The loop's result in terms of the value model. */
  ghost function ResultOf(err: ReadError, root: XNode): (r: R.ReadResult) {
    match err
    case NoError => R.Accepted(root)
    case ErrXml => R.InvalidXml(root)
    case ErrSyntax => R.SyntaxError(root)
  }

  lemma OneMore(st: R.Reading, k: XToken, more: seq<XToken>)
    requires R.Sound(st)
    ensures R.ReadAll(st, [k] + more) == R.ReadAll(R.Step(st, k), more)
    ensures st.Drained? ==> R.ReadAll(st, [k] + more) == R.Refused(st.root)
  {
    assert ([k] + more)[1..] == more;
    R.RefusedStays(st.root, more);
  }

  /** The tokens still to come lead from the present state to the overall result. */
  ghost predicate LeadsTo(st: R.Reading, ahead: seq<XToken>, total: R.Reading) {
    R.Sound(st) && R.ReadAll(st, ahead) == total
  }

  /**
   readFrom: tokens are taken one by one; the tree grows at the innermost open element; the end of
   the input ends the loop whatever is still open.
   */
  method ReadFrom(e: Element, input: string, ghost t0: ITree, ghost p: Element?)
    returns (err: ReadError, ghost t: ITree)
    requires t0.IElem? && t0.e == e && Distinct(t0) && Holds(t0, p)
    modifies e
    ensures t.IElem? && t.e == e && Distinct(t) && Holds(t, p)
            && (forall o :: o in Objects(t) ==> o in Objects(t0) || fresh(o))
    ensures R.ReadFrom(Erase(t0), input) == ResultOf(err, Erase(t))
  {
    var stack, pending, rest := [e], [], input;
    t := t0;
    ghost var total := R.ReadAll(R.Open(Erase(t0), 0), Lex(input).list);
    assert pending + Lex(input).list == Lex(input).list;
    while true
      invariant Built(t, p, stack) && (forall o :: o in Objects(t) ==> o in Objects(t0) || fresh(o)) && t.IElem?
                && t.e == e
      invariant forall x :: x in stack ==> x == e || fresh(x)
      invariant LeadsTo(StateOf(t, stack), pending + Lex(rest).list, total)
      invariant Lex(rest).ok == Lex(input).ok
      decreases |rest|, |pending|
    {
      ObjectsExist(t);
      var raw, pending', rest' := RawToken(pending, rest);
      if raw.Eof? {
        return NoError, t;
      }
      if raw.Malformed? {
        return ErrSyntax, t;
      }
      OneMore(StateOf(t, stack), raw.k, pending' + Lex(rest').list);
      if stack == [] {
        return ErrXml, t;
      }
      assert stack[|stack| - 1] in stack;
      stack, t := HandleToken(raw.k, stack, t, p);
      StateIsSound(t, stack);
      pending, rest := pending', rest';
    }
  }
}
