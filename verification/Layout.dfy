/** Where indentation stands: exactly the trees that Indent leaves as they are (etree/etree.go:509-574). */
module Layout {
  import opened Basics
  import opened XmlModel
  import opened Indent

  /** Everything but character data. */
  predicate Markup(n: XNode) {
    !(n.Leaf? && n.value.CharData?)
  }

  predicate Space(n: XNode) {
    n.Leaf? && n.value.CharData? && n.value.whitespace
  }

  /** The i-th child is to stand on a line of its own: it is markup, and not the first at root depth. */
  ghost predicate OwnLine(depth: nat, kids: seq<XNode>, i: nat)
    requires i < |kids|
  {
    Markup(kids[i]) && (depth > 0 || exists j :: 0 <= j < i && Markup(kids[j]))
  }

  /** A child on a line of its own is indented, and indentation is in front of such a child. */
  ghost predicate LineAt(style: Style, depth: nat, kids: seq<XNode>, i: nat)
    requires i < |kids|
  {
    && (OwnLine(depth, kids, i) ==> i > 0 && kids[i - 1] == Blank(style, depth))
    && (Space(kids[i]) ==> i + 1 < |kids| && OwnLine(depth, kids, i + 1))
  }

  ghost predicate Lines(style: Style, depth: nat, kids: seq<XNode>) {
    forall i: nat :: i < |kids| ==> LineAt(style, depth, kids, i)
  }

  ghost predicate MarkupLast(kids: seq<XNode>) {
    kids != [] && Markup(kids[|kids| - 1])
  }

  /** Such lines, and behind markup at the end one more, which indents the end tag. */
  ghost predicate LinesAndEnd(style: Style, depth: nat, kids: seq<XNode>) {
    var k := |kids| - 1;
    if kids != [] && Space(kids[k])
    then kids[k] == Blank(style, depth - 1) && Lines(style, depth, kids[..k]) && MarkupLast(kids[..k])
    else Lines(style, depth, kids) && !MarkupLast(kids)
  }

  /** At every depth. */
  ghost predicate Placed(style: Style, depth: nat, n: XNode)
    decreases n, 1
  {
    n.Elem? ==> LinesAndEnd(style, depth, n.kids) && AllPlaced(style, depth + 1, n.kids)
  }

  ghost predicate AllPlaced(style: Style, depth: nat, ns: seq<XNode>)
    decreases ns, 0
  {
    forall i :: 0 <= i < |ns| ==> Placed(style, depth, ns[i])
  }

  // ----------------------------------------------------------- what Indent produces

  lemma OwnLinePrefix(depth: nat, kids: seq<XNode>, more: seq<XNode>, i: nat)
    requires i < |kids|
    ensures OwnLine(depth, kids + more, i) <==> OwnLine(depth, kids, i)
  {
    var all := kids + more;
    assert forall j :: 0 <= j <= i ==> all[j] == kids[j];
  }

  lemma OwnLineLast(depth: nat, kids: seq<XNode>, c: XNode)
    ensures OwnLine(depth, kids + [c], |kids|) <==> Markup(c) && (depth > 0 || HasMarkup(kids))
  {
    var all := kids + [c];
    if j :| 0 <= j < |kids| && !IsText(kids[j]) {
      assert Markup(all[j]);
    }
    assert forall j :: 0 <= j < |kids| ==> all[j] == kids[j];
  }

  /** Another child goes on the same line. */
  lemma SameLine(style: Style, depth: nat, kids: seq<XNode>, c: XNode)
    requires Lines(style, depth, kids) && !Space(c) && !(Markup(c) && (depth > 0 || HasMarkup(kids)))
    ensures Lines(style, depth, kids + [c])
  {
    var all := kids + [c];
    OwnLineLast(depth, kids, c);
    forall i: nat | i < |all| ensures LineAt(style, depth, all, i)
    {
      if i < |kids| {
        assert LineAt(style, depth, kids, i);
        OwnLinePrefix(depth, kids, [c], i);
        if i + 1 < |kids| {
          OwnLinePrefix(depth, kids, [c], i + 1);
        }
      }
    }
  }

  /** Markup goes on a line of its own. */
  lemma NewLine(style: Style, depth: nat, kids: seq<XNode>, c: XNode)
    requires Lines(style, depth, kids) && Markup(c) && (depth > 0 || HasMarkup(kids))
    ensures Lines(style, depth, kids + [Blank(style, depth)] + [c])
  {
    var b := Blank(style, depth);
    var all := kids + [b] + [c];
    MarkupSnoc(kids, b);
    OwnLineLast(depth, kids + [b], c);
    OwnLineLast(depth, kids, b);
    OwnLinePrefix(depth, kids + [b], [c], |kids|);
    forall i: nat | i < |all| ensures LineAt(style, depth, all, i)
    {
      if i < |kids| {
        assert LineAt(style, depth, kids, i);
        assert all == kids + ([b] + [c]);
        OwnLinePrefix(depth, kids, [b] + [c], i);
        if i + 1 < |kids| {
          OwnLinePrefix(depth, kids, [b] + [c], i + 1);
        }
      }
    }
  }

  /** Lines that hold some markup or none, and do not end in indentation. */
  ghost predicate Tidy(style: Style, depth: nat, laid: seq<XNode>, markup: bool) {
    && Lines(style, depth, laid) && HasMarkup(laid) == markup
    && (laid != [] ==> !Space(laid[|laid| - 1]))
  }

  lemma TidyNext(style: Style, depth: nat, laid: seq<XNode>, markup: bool, c: XNode)
    requires Tidy(style, depth, laid, markup) && !Space(c)
    ensures var b := if Markup(c) && (markup || depth > 0) then [Blank(style, depth)] else [];
            && Tidy(style, depth, laid + b + [c], markup || Markup(c))
            && MarkupLast(laid + b + [c]) == Markup(c)
  {
    if Markup(c) && (markup || depth > 0) {
      NewLine(style, depth, laid, c);
      MarkupSnoc(laid, Blank(style, depth));
      MarkupSnoc(laid + [Blank(style, depth)], c);
    } else {
      SameLine(style, depth, laid, c);
      MarkupSnoc(laid, c);
      assert laid + [] == laid;
    }
  }

  lemma {:induction false} LayMakesLines(style: Style, depth: nat, kids: seq<XNode>)
    ensures Tidy(style, depth, Lay(style, depth, kids), HasMarkup(kids))
    ensures MarkupLast(Lay(style, depth, kids)) == EndsInMarkup(kids)
  {
    if kids != [] {
      var front, c := kids[..|kids| - 1], kids[|kids| - 1];
      LayMakesLines(style, depth, front);
      assert kids == front + [c];
      MarkupSnoc(front, c);
      if !Flagged(c) {
        TidyNext(style, depth, Lay(style, depth, front), HasMarkup(front), IndentNode(style, depth + 1, c));
      }
    }
  }

  lemma LayEnds(style: Style, depth: nat, kids: seq<XNode>)
    ensures LinesAndEnd(style, depth,
              Lay(style, depth, kids) + (if EndsInMarkup(kids) then [Blank(style, depth - 1)] else []))
  {
    LayMakesLines(style, depth, kids);
    var laid, b := Lay(style, depth, kids), Blank(style, depth - 1);
    assert (laid + [b])[..|laid|] == laid && laid + [] == laid;
  }

  lemma {:induction false} LayPlaces(style: Style, depth: nat, kids: seq<XNode>)
    ensures AllPlaced(style, depth + 1, Lay(style, depth, kids))
    decreases kids, 0
  {
    if kids != [] {
      var front, c := kids[..|kids| - 1], kids[|kids| - 1];
      LayPlaces(style, depth, front);
      if !Flagged(c) {
        IndentPlaces(style, depth + 1, c);
      }
    }
  }

  /** Whatever the tree: the indentation Indent leaves behind is placed. */
  lemma {:induction false} IndentPlaces(style: Style, depth: nat, n: XNode)
    ensures Placed(style, depth, IndentNode(style, depth, n))
    decreases n, 1
  {
    if n.Elem? {
      LayPlaces(style, depth, n.kids);
      LayEnds(style, depth, n.kids);
    }
  }

  // ------------------------------------------------------- what Indent leaves as it is

  lemma LinesPrefix(style: Style, depth: nat, kids: seq<XNode>, k: nat)
    requires Lines(style, depth, kids) && k <= |kids| && (k < |kids| ==> !OwnLine(depth, kids, k))
    ensures Lines(style, depth, kids[..k])
  {
    var pre := kids[..k];
    assert kids == pre + kids[k..];
    forall i: nat | i < k ensures LineAt(style, depth, pre, i)
    {
      assert LineAt(style, depth, kids, i);
      OwnLinePrefix(depth, pre, kids[k..], i);
      if i + 1 < k {
        OwnLinePrefix(depth, pre, kids[k..], i + 1);
      }
    }
  }

  ghost predicate AllStay(style: Style, depth: nat, kids: seq<XNode>) {
    forall i :: 0 <= i < |kids| ==> IndentNode(style, depth, kids[i]) == kids[i]
  }

  lemma LaySnoc(style: Style, depth: nat, front: seq<XNode>, c: XNode)
    ensures Lay(style, depth, front + [c])
         == if Flagged(c) then Lay(style, depth, front)
            else Lay(style, depth, front)
                 + (if !IsText(c) && (HasMarkup(front) || depth > 0) then [Blank(style, depth)] else [])
                 + [IndentNode(style, depth + 1, c)]
  {
    assert (front + [c])[..|front|] == front;
  }

  /** A child that stays is laid out behind lines that stay, on the same line. */
  lemma SameLineStays(style: Style, depth: nat, front: seq<XNode>, c: XNode)
    requires Lay(style, depth, front) == front && IndentNode(style, depth + 1, c) == c
    requires !Space(c) && !(Markup(c) && (depth > 0 || HasMarkup(front)))
    ensures Lay(style, depth, front + [c]) == front + [c]
  {
    LaySnoc(style, depth, front, c);
    assert front + [] == front;
  }

  /** Or on a line of its own. */
  lemma NewLineStays(style: Style, depth: nat, pre: seq<XNode>, c: XNode)
    requires Lay(style, depth, pre) == pre && IndentNode(style, depth + 1, c) == c
    requires Markup(c) && (depth > 0 || HasMarkup(pre))
    ensures Lay(style, depth, pre + [Blank(style, depth)] + [c]) == pre + [Blank(style, depth)] + [c]
  {
    var b := Blank(style, depth);
    LaySnoc(style, depth, pre, b);
    MarkupSnoc(pre, b);
    LaySnoc(style, depth, pre + [b], c);
  }

  lemma {:induction false} LinesStay(style: Style, depth: nat, kids: seq<XNode>)
    requires Lines(style, depth, kids) && AllStay(style, depth + 1, kids)
    ensures Lay(style, depth, kids) == kids
    decreases |kids|
  {
    if kids != [] {
      var k := |kids| - 1;
      var c := kids[k];
      assert LineAt(style, depth, kids, k);
      assert kids == kids[..k] + [c];
      OwnLineLast(depth, kids[..k], c);
      if OwnLine(depth, kids, k) {
        var pre := kids[..k - 1];
        LinesPrefix(style, depth, kids, k - 1);
        LinesStay(style, depth, pre);
        assert kids[..k] == pre + [Blank(style, depth)];
        MarkupSnoc(pre, Blank(style, depth));
        NewLineStays(style, depth, pre, c);
      } else {
        LinesPrefix(style, depth, kids, k);
        LinesStay(style, depth, kids[..k]);
        SameLineStays(style, depth, kids[..k], c);
      }
    }
  }

  lemma {:induction false} LinesEnd(style: Style, depth: nat, kids: seq<XNode>)
    requires Lines(style, depth, kids)
    ensures EndsInMarkup(kids) == MarkupLast(kids)
  {
    if kids != [] {
      assert LineAt(style, depth, kids, |kids| - 1);
    }
  }

  lemma EndStays(style: Style, depth: nat, front: seq<XNode>)
    requires Lines(style, depth, front) && MarkupLast(front) && Lay(style, depth, front) == front
    ensures var kids := front + [Blank(style, depth - 1)];
            Lay(style, depth, kids) + (if EndsInMarkup(kids) then [Blank(style, depth - 1)] else []) == kids
  {
    var b := Blank(style, depth - 1);
    LaySnoc(style, depth, front, b);
    LinesEnd(style, depth, front);
    assert (front + [b])[..|front|] == front;
  }

  lemma LinesAndEndStay(style: Style, depth: nat, kids: seq<XNode>)
    requires LinesAndEnd(style, depth, kids) && AllStay(style, depth + 1, kids)
    ensures Lay(style, depth, kids) + (if EndsInMarkup(kids) then [Blank(style, depth - 1)] else []) == kids
  {
    var k := |kids| - 1;
    if kids != [] && Space(kids[k]) {
      var front, b := kids[..k], kids[k];
      assert kids == front + [b];
      LinesStay(style, depth, front);
      EndStays(style, depth, front);
    } else {
      LinesStay(style, depth, kids);
      LinesEnd(style, depth, kids);
      assert kids + [] == kids;
    }
  }

  lemma {:induction false} PlacedStays(style: Style, depth: nat, n: XNode)
    requires Placed(style, depth, n)
    ensures IndentNode(style, depth, n) == n
    decreases n
  {
    if n.Elem? {
      forall i | 0 <= i < |n.kids| ensures IndentNode(style, depth + 1, n.kids[i]) == n.kids[i] {
        PlacedStays(style, depth + 1, n.kids[i]);
      }
      LinesAndEndStay(style, depth, n.kids);
    }
  }

  /** A tree is left as it is if and only if its indentation is placed. */
  lemma LeftAsItIsExactly(style: Style, depth: nat, n: XNode)
    ensures IndentNode(style, depth, n) == n <==> Placed(style, depth, n)
  {
    IndentPlaces(style, depth, n);
    if Placed(style, depth, n) {
      PlacedStays(style, depth, n);
    }
  }
}
