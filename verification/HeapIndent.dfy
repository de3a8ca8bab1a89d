/** indent and stripIndent on objects (etree/etree.go:509-574). */
module HeapIndent {
  import opened Basics
  import opened XmlModel
  import opened ETree
  import opened HeapTree
  import I = Indent

  // --------------------------------------------------------------- identity views

  ghost predicate FlaggedI(t: ITree) {
    t.ILeaf? && t.value.CharData? && t.value.whitespace
  }

  /** The tree without its indentation, objects included. */
  ghost function CoreI(t: ITree): (r: ITree)
    decreases t, 1
  {
    match t
    case ILeaf(_, _) => t
    case IElem(_, _, _, _, kids) => t.(kids := CoreAllI(kids))
  }

  ghost function CoreAllI(ts: seq<ITree>): (r: seq<ITree>)
    decreases ts, 0
  {
    if ts == [] then []
    else
      var front, c := ts[..|ts| - 1], ts[|ts| - 1];
      if FlaggedI(c) then CoreAllI(front) else CoreAllI(front) + [CoreI(c)]
  }

  lemma {:induction false} CoreObjects(t: ITree)
    ensures Objects(CoreI(t)) <= Objects(t)
    decreases t, 1
  {
    if t.IElem? {
      CoreAllObjects(t.kids);
    }
  }

  lemma {:induction false} CoreAllObjects(ts: seq<ITree>)
    ensures ObjectsAll(CoreAllI(ts)) <= ObjectsAll(ts)
    decreases ts, 0
  {
    if ts != [] {
      CoreAllObjects(ts[..|ts| - 1]);
      CoreObjects(ts[|ts| - 1]);
      AddLast(CoreAllI(ts[..|ts| - 1]), CoreI(ts[|ts| - 1]));
    }
  }

  /** A child that is no indentation belongs to what stays. */
  lemma {:induction false} CoreAt(ts: seq<ITree>, i: nat)
    requires i < |ts| && !FlaggedI(ts[i])
    ensures Objects(CoreI(ts[i])) <= ObjectsAll(CoreAllI(ts))
  {
    var front, c := ts[..|ts| - 1], ts[|ts| - 1];
    if i < |ts| - 1 {
      CoreAt(front, i);
    }
    if !FlaggedI(c) {
      AddLast(CoreAllI(front), CoreI(c));
    }
  }

  /** stripIndent on a list of trees. */
  ghost function StripI(ts: seq<ITree>): (r: seq<ITree>)
  {
    if ts == [] then []
    else
      var front, c := ts[..|ts| - 1], ts[|ts| - 1];
      if FlaggedI(c) then StripI(front) else StripI(front) + [c]
  }

  lemma StripSnoc(ts: seq<ITree>, i: nat)
    requires i < |ts|
    ensures StripI(ts[..i + 1]) == if FlaggedI(ts[i]) then StripI(ts[..i]) else StripI(ts[..i]) + [ts[i]]
  {
    Snoc(ts, i);
  }

  lemma CoreSnocI(ts: seq<ITree>, c: ITree)
    ensures CoreAllI(ts + [c]) == if FlaggedI(c) then CoreAllI(ts) else CoreAllI(ts) + [CoreI(c)]
  {
    assert (ts + [c])[..|ts|] == ts;
  }

  lemma {:induction false} StripFacts(ts: seq<ITree>)
    ensures ObjectsAll(StripI(ts)) <= ObjectsAll(ts)
    ensures DistinctAll(ts) ==> DistinctAll(StripI(ts))
    ensures CoreAllI(StripI(ts)) == CoreAllI(ts)
  {
    if ts != [] {
      var front, c := ts[..|ts| - 1], ts[|ts| - 1];
      StripFacts(front);
      if !FlaggedI(c) {
        AddLast(StripI(front), c);
        CoreSnocI(StripI(front), c);
      }
    }
  }

  lemma {:induction false} StripHolds(ts: seq<ITree>, p: Element?)
    requires HoldsAll(ts, p)
    ensures HoldsAll(StripI(ts), p)
  {
    if ts != [] {
      var front, c := ts[..|ts| - 1], ts[|ts| - 1];
      StripHolds(front, p);
      if !FlaggedI(c) {
        HoldsLast(StripI(front), c, p);
      }
    }
  }

  lemma LaySnoc(style: I.Style, depth: nat, kids: seq<XNode>, c: XNode)
    ensures I.Lay(style, depth, kids + [c])
         == if I.Flagged(c) then I.Lay(style, depth, kids)
            else I.Lay(style, depth, kids)
                 + (if !IsText(c) && (I.HasMarkup(kids) || depth > 0) then [I.Blank(style, depth)] else [])
                 + [I.IndentNode(style, depth + 1, c)]
  {
    assert (kids + [c])[..|kids|] == kids;
  }

  lemma EndsSnoc(kids: seq<XNode>, c: XNode)
    ensures I.EndsInMarkup(kids + [c]) == if I.Flagged(c) then I.EndsInMarkup(kids) else !IsText(c)
  {
    assert (kids + [c])[..|kids|] == kids;
  }

  lemma LayCongruent(style: I.Style, depth: nat, a: seq<XNode>, b: seq<XNode>, c: XNode)
    requires I.Lay(style, depth, a) == I.Lay(style, depth, b) && I.HasMarkup(a) == I.HasMarkup(b)
    ensures I.Lay(style, depth, a + [c]) == I.Lay(style, depth, b + [c]) && I.HasMarkup(a + [c]) == I.HasMarkup(b + [c])
  {
    LaySnoc(style, depth, a, c);
    LaySnoc(style, depth, b, c);
    I.MarkupSnoc(a, c);
    I.MarkupSnoc(b, c);
  }

  lemma LayFlagged(style: I.Style, depth: nat, a: seq<XNode>, c: XNode)
    requires I.Flagged(c)
    ensures I.Lay(style, depth, a + [c]) == I.Lay(style, depth, a) && I.HasMarkup(a + [c]) == I.HasMarkup(a)
  {
    LaySnoc(style, depth, a, c);
    I.MarkupSnoc(a, c);
  }

  lemma {:induction false} StripErases(style: I.Style, depth: nat, ts: seq<ITree>)
    ensures I.Lay(style, depth, EraseAll(StripI(ts))) == I.Lay(style, depth, EraseAll(ts))
    ensures I.HasMarkup(EraseAll(StripI(ts))) == I.HasMarkup(EraseAll(ts))
  {
    if ts != [] {
      var front, c := ts[..|ts| - 1], ts[|ts| - 1];
      StripErases(style, depth, front);
      if FlaggedI(c) {
        LayFlagged(style, depth, EraseAll(front), Erase(c));
      } else {
        AddLast(StripI(front), c);
        LayCongruent(style, depth, EraseAll(StripI(front)), EraseAll(front), Erase(c));
      }
    }
  }

  lemma {:induction false} StripEnds(ts: seq<ITree>)
    ensures I.EndsInMarkup(EraseAll(StripI(ts))) == I.EndsInMarkup(EraseAll(ts))
  {
    if ts != [] {
      var front, c := ts[..|ts| - 1], ts[|ts| - 1];
      StripEnds(front);
      EndsSnoc(EraseAll(front), Erase(c));
      if !FlaggedI(c) {
        AddLast(StripI(front), c);
        EndsSnoc(EraseAll(StripI(front)), Erase(c));
      }
    }
  }

  // ---------------------------------------------------------------- suffixes of a list

  lemma {:induction false} DropFirst(ts: seq<ITree>)
    requires ts != []
    ensures ObjectsAll(ts) == Objects(ts[0]) + ObjectsAll(ts[1..])
    ensures DistinctAll(ts) ==> Distinct(ts[0]) && DistinctAll(ts[1..]) && Objects(ts[0]) !! ObjectsAll(ts[1..])
  {
    if |ts| == 1 {
      assert ts[1..] == [] && ts[..0] == [];
    } else {
      var n := |ts| - 1;
      DropFirst(ts[..n]);
      assert ts[1..][..n - 1] == ts[..n][1..];
    }
  }

  lemma {:induction false} HoldsDropFirst(ts: seq<ITree>, p: Element?)
    requires ts != [] && HoldsAll(ts, p)
    ensures Holds(ts[0], p) && HoldsAll(ts[1..], p)
  {
    if |ts| == 1 {
      assert ts[1..] == [] && ts[..0] == [];
    } else {
      var n := |ts| - 1;
      HoldsDropFirst(ts[..n], p);
      assert ts[1..][..n - 1] == ts[..n][1..];
    }
  }

  // --------------------------------------------------------------------- stripIndent

  /** stripIndent: the child tokens that are not flagged, in order. */
  method StripIndent(e: Element, ghost t: ITree, ghost p: Element?)
    requires t.IElem? && t.e == e && Distinct(t) && Holds(t, p)
    modifies e`child
    ensures e.child == TokensOf(StripI(t.kids))
    ensures HoldsAll(StripI(t.kids), e)
  {
    StripFacts(t.kids);
    StripHolds(t.kids, e);
    var kept := Unflagged(e.child, t.kids, e);
    assert e !in ObjectsAll(StripI(t.kids));
    e.child := kept;
  }

  method Unflagged(child: seq<Token>, ghost kids: seq<ITree>, ghost p: Element?) returns (kept: seq<Token>)
    requires child == TokensOf(kids) && HoldsAll(kids, p)
    ensures kept == TokensOf(StripI(kids))
    ensures HoldsAll(StripI(kids), p)
  {
    AllObjectsExist(kids);
    kept := [];
    for i := 0 to |child|
      invariant HoldsAll(kids, p) && kept == TokensOf(StripI(kids[..i]))
    {
      KidAt(kids, i);
      HeldKid(kids, i, p);
      StripSnoc(kids, i);
      AddLast(StripI(kids[..i]), kids[i]);
      if !(child[i].LeafToken? && child[i].l.value.CharData? && child[i].l.value.whitespace) {
        kept := kept + [child[i]];
      }
    }
    assert kids[..|child|] == kids;
    StripHolds(kids, p);
  }

  // -------------------------------------------------------------------------- indent

  lemma {:induction false} StripMember(ts: seq<ITree>, i: nat) returns (j: nat)
    requires i < |StripI(ts)|
    ensures j < |ts| && ts[j] == StripI(ts)[i]
  {
    var front, c := ts[..|ts| - 1], ts[|ts| - 1];
    if i < |StripI(front)| {
      j := StripMember(front, i);
    } else {
      j := |ts| - 1;
    }
  }

  /** The children put back so far. */
  ghost predicate Placed(e: Element, out: seq<ITree>)
    reads e, ObjectsAll(out)
  {
    e.child == TokensOf(out) && HoldsAll(out, e) && DistinctAll(out) && e !in ObjectsAll(out)
  }

  /** newCharData with the whitespace flag. */
  method AppendBlank(e: Element, text: string, ghost out: seq<ITree>) returns (ghost out': seq<ITree>)
    requires Placed(e, out)
    modifies e`child
    ensures Placed(e, out')
    ensures |out'| == |out| + 1 && out'[..|out|] == out
    ensures out'[|out|].ILeaf? && out'[|out|].value == CharData(text, true) && fresh(out'[|out|].l)
    ensures ObjectsAll(out') == ObjectsAll(out) + {out'[|out|].l}
  {
    AllObjectsExist(out);
    var l := new Leaf(CharData(text, true), e);
    ghost var b := ILeaf(l, CharData(text, true));
    AddLast(out, b);
    HoldsLast(out, b, e);
    e.child := e.child + [LeafToken(l)];
    out' := out + [b];
    HoldsLast(out, b, e);
  }

  /** addChild for a kept token. */
  lemma AppendKept(e: Element, k: ITree, out: seq<ITree>)
    requires e.child == TokensOf(out) + [TokenOf(k)] && HoldsAll(out, e) && DistinctAll(out)
    requires e !in ObjectsAll(out) && e !in Objects(k)
    requires Holds(k, e) && Distinct(k) && Objects(k) !! ObjectsAll(out)
    ensures Placed(e, out + [k]) && ObjectsAll(out + [k]) == ObjectsAll(out) + Objects(k)
  {
    AddLast(out, k);
    HoldsLast(out, k, e);
  }

  /** The new children in terms of the value model, and the objects that were kept. */
  ghost predicate LaidOut(style: I.Style, depth: nat, s: seq<ITree>, out: seq<ITree>) {
    EraseAll(out) == I.Lay(style, depth, EraseAll(s)) && CoreAllI(out) == CoreAllI(s)
  }

  lemma LayKept(style: I.Style, depth: nat, s: seq<ITree>, out: seq<ITree>, i: nat, b: seq<ITree>, k': ITree)
    requires i < |s| && LaidOut(style, depth, s[..i], out) && !FlaggedI(s[i])
    requires var c := Erase(s[i]);
             EraseAll(out + b) == EraseAll(out)
             + (if !IsText(c) && (I.HasMarkup(EraseAll(s[..i])) || depth > 0) then [I.Blank(style, depth)] else [])
    requires CoreAllI(out + b) == CoreAllI(out)
    requires Erase(k') == I.IndentNode(style, depth + 1, Erase(s[i])) && CoreI(k') == CoreI(s[i]) && !FlaggedI(k')
    ensures LaidOut(style, depth, s[..i + 1], out + b + [k'])
  {
    Snoc(s, i);
    AddLast(s[..i], s[i]);
    LaySnoc(style, depth, EraseAll(s[..i]), Erase(s[i]));
    AddLast(out + b, k');
    CoreSnocI(s[..i], s[i]);
    CoreSnocI(out + b, k');
  }

  lemma {:induction false} StripUnflagged(ts: seq<ITree>, i: nat)
    requires i < |StripI(ts)|
    ensures !FlaggedI(StripI(ts)[i])
  {
    var front := ts[..|ts| - 1];
    if i < |StripI(front)| {
      StripUnflagged(front, i);
    }
  }

  method IndentToken(c: Token, depth: nat, style: I.Style, ghost k: ITree, ghost p: Element?) returns (ghost k': ITree)
    requires c == TokenOf(k) && Distinct(k) && Holds(k, p)
    modifies Objects(k)
    ensures TokenOf(k') == c && Distinct(k') && Holds(k', p)
    ensures Erase(k') == I.IndentNode(style, depth, Erase(k)) && CoreI(k') == CoreI(k)
    ensures k.ILeaf? ==> k' == k
    ensures forall o :: o in Objects(k') ==> o in Objects(CoreI(k)) || fresh(o)
    decreases k, 2
  {
    match c
    case LeafToken(_) => k' := k;
    case ElementToken(e) => k' := IndentElement(e, depth, style, k, p);
  }

  /** indent: the objects end up holding the tree of the value model, and no kept object is replaced. */
  method IndentElement(e: Element, depth: nat, style: I.Style, ghost t: ITree, ghost p: Element?)
    returns (ghost t': ITree)
    requires t.IElem? && t.e == e && Distinct(t) && Holds(t, p)
    modifies Objects(t)
    ensures t'.IElem? && t'.e == e && Distinct(t') && Holds(t', p)
    ensures Erase(t') == I.IndentNode(style, depth, Erase(t)) && CoreI(t') == CoreI(t)
    ensures forall o :: o in Objects(t') ==> o in Objects(CoreI(t)) || fresh(o)
    decreases t, 1
  {
    StripIndent(e, t, p);
    ghost var s := StripI(t.kids);
    StripFacts(t.kids);
    StripErases(style, depth, t.kids);
    StripEnds(t.kids);
    if |e.child| == 0 {
      t' := t.(kids := []);
      assert s == [] && EraseAll(s) == [];
      return;
    }
    ghost var out;
    var isCharData;
    out, isCharData := LayChildren(e, depth, style, t, s);
    ghost var b := PlaceBlank(e, !isCharData, depth - 1, style, out);
    t' := t.(kids := out + b);
  }

  /** Indentation before a child, where it is due. */
  method PlaceBlank(e: Element, blank: bool, depth: int, style: I.Style, ghost out: seq<ITree>)
    returns (ghost b: seq<ITree>)
    requires Placed(e, out)
    modifies e`child
    ensures Placed(e, out + b)
    ensures EraseAll(out + b) == EraseAll(out) + (if blank then [I.Blank(style, depth)] else [])
    ensures CoreAllI(out + b) == CoreAllI(out)
    ensures forall o :: o in ObjectsAll(out + b) ==> o in ObjectsAll(out) || fresh(o)
  {
    b := [];
    assert out + [] == out;
    if blank {
      ghost var now := AppendBlank(e, I.IndentText(style, depth), out);
      b := [now[|out|]];
      assert now == out + b;
      AddLast(out, b[0]);
      CoreSnocI(out, b[0]);
    }
  }

  /** The child itself, and then the child's own children. */
  method PlaceKept(e: Element, c: Token, depth: nat, style: I.Style,
                   ghost out: seq<ITree>, ghost k: ITree, ghost rest: seq<ITree>)
    returns (ghost k': ITree)
    requires Placed(e, out) && c == TokenOf(k) && Holds(k, e) && Distinct(k) && HoldsAll(rest, e)
    requires Objects(k) !! ObjectsAll(out) && Objects(k) !! ObjectsAll(rest)
    requires e !in Objects(k) && e !in ObjectsAll(rest)
    modifies e`child, Objects(k)
    ensures Placed(e, out + [k']) && HoldsAll(rest, e)
    ensures Erase(k') == I.IndentNode(style, depth + 1, Erase(k)) && CoreI(k') == CoreI(k) && (k.ILeaf? ==> k' == k)
    ensures TokenOf(k') == TokenOf(k)
    ensures forall o :: o in ObjectsAll(out + [k']) ==> o in ObjectsAll(out) || o in Objects(CoreI(k)) || fresh(o)
    decreases k, 3
  {
    AllObjectsExist(out);
    AllObjectsExist(rest);
    ObjectsExist(k);
    e.child := e.child + [c];
    k' := IndentToken(c, depth + 1, style, k, e);
    CoreObjects(k);
    AppendKept(e, k', out);
  }

  /** The children up to i are laid out; the others are as they were. */
  ghost predicate Laying(e: Element, style: I.Style, depth: nat, s: seq<ITree>, i: nat, out: seq<ITree>)
    requires i <= |s|
    reads e, ObjectsAll(out), ObjectsAll(s[i..])
  {
    && Placed(e, out) && LaidOut(style, depth, s[..i], out)
    && HoldsAll(s[i..], e) && DistinctAll(s[i..]) && e !in ObjectsAll(s[i..])
    && ObjectsAll(out) !! ObjectsAll(s[i..])
  }

  /** One turn of the loop. */
  method PlaceNext(e: Element, c: Token, blank: bool, depth: nat, style: I.Style,
                   ghost t: ITree, ghost s: seq<ITree>, ghost i: nat, ghost out: seq<ITree>)
    returns (ghost out': seq<ITree>)
    requires t.IElem? && s == StripI(t.kids) && i < |s| && c == TokenOf(s[i])
    requires Laying(e, style, depth, s, i, out)
    requires blank == (!IsText(Erase(s[i])) && (I.HasMarkup(EraseAll(s[..i])) || depth > 0))
    modifies e`child, Objects(s[i])
    ensures Laying(e, style, depth, s, i + 1, out')
    ensures forall o :: o in ObjectsAll(out') ==> o in ObjectsAll(out) || o in Objects(CoreI(s[i])) || fresh(o)
    decreases t, -1
  {
    ghost var k, rest := s[i], s[i + 1..];
    NextKid(s, i, t, e);
    AllObjectsExist(rest);
    ObjectsExist(k);
    ghost var b := PlaceBlank(e, blank, depth, style, out);
    ghost var k' := PlaceKept(e, c, depth, style, out + b, k, rest);
    CoreObjects(k);
    LayKept(style, depth, s, out, i, b, k');
    out' := out + b + [k'];
  }

  method LayChildren(e: Element, depth: nat, style: I.Style, ghost t: ITree, ghost s: seq<ITree>)
    returns (ghost out: seq<ITree>, isCharData: bool)
    requires t.IElem? && s == StripI(t.kids) && s != []
    requires e.child == TokensOf(s) && HoldsAll(s, e) && DistinctAll(s) && e !in ObjectsAll(s)
    modifies e`child, ObjectsAll(s)
    ensures Placed(e, out) && LaidOut(style, depth, s, out)
    ensures isCharData == !I.EndsInMarkup(EraseAll(s))
    ensures forall o :: o in ObjectsAll(out) ==> o in ObjectsAll(CoreAllI(s)) || fresh(o)
    decreases t, 0
  {
    AllObjectsExist(s);
    var oldChild := e.child;
    e.child := [];
    out := [];
    isCharData := false;
    var first := true;
    assert s[0..] == s;
    for i := 0 to |oldChild|
      invariant oldChild == TokensOf(s)
      invariant Laying(e, style, depth, s, i, out) && ObjectsAll(s[i..]) <= ObjectsAll(s)
      invariant first == !I.HasMarkup(EraseAll(s[..i]))
      invariant i > 0 ==> isCharData == IsText(Erase(s[i - 1]))
      invariant forall o :: o in ObjectsAll(out) ==> o in ObjectsAll(CoreAllI(s)) || fresh(o)
    {
      NextKid(s, i, t, e);
      CoreAt(s, i);
      MarkupUpTo(s, i);
      var c := oldChild[i];
      isCharData := c.LeafToken? && c.l.value.CharData?;
      out := PlaceNext(e, c, !isCharData && (!first || depth > 0), depth, style, t, s, i, out);
      if !isCharData {
        first := false;
      }
    }
    assert s[..|oldChild|] == s;
    LastKid(t, s);
  }

  lemma LastKid(t: ITree, s: seq<ITree>)
    requires t.IElem? && s == StripI(t.kids) && s != []
    ensures I.EndsInMarkup(EraseAll(s)) == !IsText(Erase(s[|s| - 1]))
  {
    var n := |s| - 1;
    assert EraseAll(s) == EraseAll(s[..n]) + [Erase(s[n])];
    StripUnflagged(t.kids, n);
    EndsSnoc(EraseAll(s[..n]), Erase(s[n]));
  }

  lemma MarkupUpTo(s: seq<ITree>, i: nat)
    requires i < |s|
    ensures I.HasMarkup(EraseAll(s[..i + 1])) == (I.HasMarkup(EraseAll(s[..i])) || !IsText(Erase(s[i])))
  {
    Snoc(s, i);
    AddLast(s[..i], s[i]);
    I.MarkupSnoc(EraseAll(s[..i]), Erase(s[i]));
  }

  lemma NextKid(s: seq<ITree>, i: nat, t: ITree, e: Element)
    requires i < |s| && t.IElem? && s == StripI(t.kids)
    requires HoldsAll(s[i..], e) && DistinctAll(s[i..])
    ensures TokensOf(s)[i] == TokenOf(s[i]) && !FlaggedI(s[i])
    ensures Holds(s[i], e) && Distinct(s[i]) && HoldsAll(s[i + 1..], e) && DistinctAll(s[i + 1..])
    ensures ObjectsAll(s[i..]) == Objects(s[i]) + ObjectsAll(s[i + 1..]) && Objects(s[i]) !! ObjectsAll(s[i + 1..])
    ensures s[i] < t
  {
    assert s[i..][0] == s[i] && s[i..][1..] == s[i + 1..];
    DropFirst(s[i..]);
    HoldsDropFirst(s[i..], e);
    KidAt(s, i);
    StripUnflagged(t.kids, i);
    var j := StripMember(t.kids, i);
    assert t.kids[j] < t;
  }
}
