/** Re-indentation of a tree (etree/etree.go:241-264, 509-574; etree/helpers.go:162-179). */
module Indent {
  import opened Basics
  import opened XmlModel

  // --------------------------------------------------------------- indentation text

  function Copies(c: char, n: nat): (s: string) {
    seq(n, _ => c)
  }

  /** A newline and 64 blanks. */
  const CRSP: string := "\n" + Copies(' ', 64)

  /** A newline and 16 tabs. */
  const CRTAB: string := "\n" + Copies('\t', 16)

  function CrIndent(n: int, source: string): (s: string)
    requires |source| >= 2
  {
    if n < 0 then source[..1]
    else if n < |source| then source[..n + 1]
    else source + Copies(source[1], n - |source| + 1)
  }

  /** Beyond the length of the source string, too, it is a newline and exactly n copies. */
  lemma CrIndentExact(n: int, c: char, k: nat)
    requires k > 0
    ensures CrIndent(n, "\n" + Copies(c, k)) == "\n" + Copies(c, if n < 0 then 0 else n)
  {
    var source := "\n" + Copies(c, k);
    if n >= |source| {
      assert Copies(c, k) + Copies(c, n - |source| + 1) == Copies(c, n);
    }
  }

  /** The argument of Indent, or IndentTabs. */
  datatype Style = Spaces(n: int) | Tabs

  function IndentText(style: Style, depth: int): (s: string) {
    match style
    case Spaces(n) => if n < 0 then "" else CrIndent(depth * n, CRSP)
    case Tabs => CrIndent(depth, CRTAB)
  }

  lemma IndentTextExact(style: Style, depth: int)
    ensures match style
            case Spaces(n) =>
              IndentText(style, depth)
              == if n < 0 then "" else "\n" + Copies(' ', if depth * n < 0 then 0 else depth * n)
            case Tabs => IndentText(style, depth) == "\n" + Copies('\t', if depth < 0 then 0 else depth)
  {
    match style
    case Spaces(n) => CrIndentExact(depth * n, ' ', 64);
    case Tabs => CrIndentExact(depth, '\t', 16);
  }

  // ------------------------------------------------------------------- the layout

  /** A token that stripIndent removes. */
  predicate Flagged(n: XNode) {
    IsText(n) && n.value.whitespace
  }

  function Blank(style: Style, depth: int): (n: XNode) {
    Leaf(CharData(IndentText(style, depth), true))
  }

  predicate HasMarkup(kids: seq<XNode>) {
    exists i :: 0 <= i < |kids| && !IsText(kids[i])
  }

  /** The last child that is not indentation is markup. */
  predicate EndsInMarkup(kids: seq<XNode>)
  {
    kids != [] &&
      var c := kids[|kids| - 1];
      if Flagged(c) then EndsInMarkup(kids[..|kids| - 1]) else !IsText(c)
  }

  /** The children laid out anew: old indentation dropped, new indentation before each piece of markup. */
  function Lay(style: Style, depth: nat, kids: seq<XNode>): (r: seq<XNode>)
    decreases kids, 0
  {
    if kids == [] then []
    else
      var front, c := kids[..|kids| - 1], kids[|kids| - 1];
      if Flagged(c) then Lay(style, depth, front)
      else
        Lay(style, depth, front)
        + (if !IsText(c) && (HasMarkup(front) || depth > 0) then [Blank(style, depth)] else [])
        + [IndentNode(style, depth + 1, c)]
  }

  /** indent on one token: an element's children are laid out at the given depth. */
  function IndentNode(style: Style, depth: nat, n: XNode): (r: XNode)
    decreases n, 1
  {
    match n
    case Leaf(_) => n
    case Elem(_, _, _, kids) =>
      n.(kids := Lay(style, depth, kids) + if EndsInMarkup(kids) then [Blank(style, depth - 1)] else [])
  }

  // ------------------------------------------------------------------ what is kept

  /** The tree without any indentation. */
  function Core(n: XNode): (r: XNode)
    decreases n, 1
  {
    match n
    case Leaf(_) => n
    case Elem(_, _, _, kids) => n.(kids := CoreAll(kids))
  }

  function CoreAll(kids: seq<XNode>): (r: seq<XNode>)
    decreases kids, 0
  {
    if kids == [] then []
    else
      var front, c := kids[..|kids| - 1], kids[|kids| - 1];
      if Flagged(c) then CoreAll(front) else CoreAll(front) + [Core(c)]
  }

  lemma CoreSnoc(kids: seq<XNode>, c: XNode)
    ensures CoreAll(kids + [c]) == if Flagged(c) then CoreAll(kids) else CoreAll(kids) + [Core(c)]
  {
    assert (kids + [c])[..|kids|] == kids;
  }

  /** Indentation neither drops nor moves a token that is not indentation, at any depth. */
  lemma {:induction false} IndentKeepsCore(style: Style, depth: nat, n: XNode)
    ensures Core(IndentNode(style, depth, n)) == Core(n)
    decreases n, 1
  {
    if n.Elem? {
      LayKeepsCore(style, depth, n.kids);
      if EndsInMarkup(n.kids) {
        CoreSnoc(Lay(style, depth, n.kids), Blank(style, depth - 1));
      } else {
        assert Lay(style, depth, n.kids) + [] == Lay(style, depth, n.kids);
      }
    }
  }

  lemma {:induction false} LayKeepsCore(style: Style, depth: nat, kids: seq<XNode>)
    ensures CoreAll(Lay(style, depth, kids)) == CoreAll(kids)
    decreases kids, 0
  {
    if kids != [] {
      var front, c := kids[..|kids| - 1], kids[|kids| - 1];
      LayKeepsCore(style, depth, front);
      if !Flagged(c) {
        IndentKeepsCore(style, depth + 1, c);
        var l := Lay(style, depth, front);
        var b := if !IsText(c) && (HasMarkup(front) || depth > 0) then [Blank(style, depth)] else [];
        if b != [] {
          CoreSnoc(l, Blank(style, depth));
        } else {
          assert l + b == l;
        }
        CoreSnoc(l + b, IndentNode(style, depth + 1, c));
      }
    }
  }

  // -------------------------------------------------------------------- idempotence

  lemma MarkupSnoc(kids: seq<XNode>, c: XNode)
    ensures HasMarkup(kids + [c]) == (HasMarkup(kids) || !IsText(c))
  {
    var all := kids + [c];
    if HasMarkup(kids) {
      var i :| 0 <= i < |kids| && !IsText(kids[i]);
      assert all[i] == kids[i];
    }
    if !IsText(c) {
      assert all[|kids|] == c;
    }
    if HasMarkup(all) && IsText(c) {
      var i :| 0 <= i < |all| && !IsText(all[i]);
      assert i < |kids| && kids[i] == all[i];
    }
  }

  lemma {:induction false} CoreMarkup(kids: seq<XNode>)
    ensures HasMarkup(CoreAll(kids)) == HasMarkup(kids) && EndsInMarkup(CoreAll(kids)) == EndsInMarkup(kids)
  {
    if kids != [] {
      var front, c := kids[..|kids| - 1], kids[|kids| - 1];
      CoreMarkup(front);
      MarkupSnoc(front, c);
      assert kids == front + [c];
      if !Flagged(c) {
        MarkupSnoc(CoreAll(front), Core(c));
      }
    }
  }

  /** The layout only depends on what is not indentation. */
  lemma {:induction false} IndentOfCore(style: Style, depth: nat, n: XNode)
    ensures IndentNode(style, depth, Core(n)) == IndentNode(style, depth, n)
    decreases n, 1
  {
    if n.Elem? {
      LayOfCore(style, depth, n.kids);
      CoreMarkup(n.kids);
    }
  }

  lemma {:induction false} LayOfCore(style: Style, depth: nat, kids: seq<XNode>)
    ensures Lay(style, depth, CoreAll(kids)) == Lay(style, depth, kids)
    decreases kids, 0
  {
    if kids != [] {
      var front, c := kids[..|kids| - 1], kids[|kids| - 1];
      LayOfCore(style, depth, front);
      if !Flagged(c) {
        IndentOfCore(style, depth + 1, c);
        CoreMarkup(front);
        var core := CoreAll(front) + [Core(c)];
        assert core[..|core| - 1] == CoreAll(front);
      }
    }
  }

  /** Indenting an indented tree changes nothing, for every tree, width and depth. */
  lemma IndentIsIdempotent(style: Style, depth: nat, n: XNode)
    ensures IndentNode(style, depth, IndentNode(style, depth, n)) == IndentNode(style, depth, n)
  {
    var once := IndentNode(style, depth, n);
    IndentKeepsCore(style, depth, n);
    IndentOfCore(style, depth, once);
    IndentOfCore(style, depth, n);
  }

  /** More generally, earlier indentation of any style leaves no trace. */
  lemma LastIndentWins(style: Style, other: Style, depth: nat, n: XNode)
    ensures IndentNode(style, depth, IndentNode(other, depth, n)) == IndentNode(style, depth, n)
  {
    IndentKeepsCore(other, depth, n);
    IndentOfCore(style, depth, IndentNode(other, depth, n));
    IndentOfCore(style, depth, n);
  }

  // ------------------------------------------------------------- what is inserted

  /** Every flagged token is a newline with the indentation of its depth, or of the holder's end. */
  ghost predicate WellLaid(style: Style, depth: nat, n: XNode)
    decreases n, 1
  {
    n.Elem? ==> WellLaidAll(style, depth, n.kids)
  }

  ghost predicate WellLaidAll(style: Style, depth: nat, kids: seq<XNode>)
    decreases kids, 0
  {
    kids != [] ==>
      var front, c := kids[..|kids| - 1], kids[|kids| - 1];
      && WellLaidAll(style, depth, front)
      && (if Flagged(c) then c == Blank(style, depth) || c == Blank(style, depth - 1)
          else WellLaid(style, depth + 1, c))
  }

  lemma WellLaidSnoc(style: Style, depth: nat, kids: seq<XNode>, c: XNode)
    requires WellLaidAll(style, depth, kids)
    requires if Flagged(c) then c == Blank(style, depth) || c == Blank(style, depth - 1)
             else WellLaid(style, depth + 1, c)
    ensures WellLaidAll(style, depth, kids + [c])
  {
    assert (kids + [c])[..|kids|] == kids;
  }

  /** Only such tokens are inserted. */
  lemma {:induction false} IndentInsertsOnly(style: Style, depth: nat, n: XNode)
    ensures WellLaid(style, depth, IndentNode(style, depth, n))
    decreases n, 1
  {
    if n.Elem? {
      LayInsertsOnly(style, depth, n.kids);
      var l := Lay(style, depth, n.kids);
      if EndsInMarkup(n.kids) {
        WellLaidSnoc(style, depth, l, Blank(style, depth - 1));
      } else {
        assert l + [] == l;
      }
    }
  }

  lemma {:induction false} LayInsertsOnly(style: Style, depth: nat, kids: seq<XNode>)
    ensures WellLaidAll(style, depth, Lay(style, depth, kids))
    decreases kids, 0
  {
    if kids != [] {
      var front, c := kids[..|kids| - 1], kids[|kids| - 1];
      LayInsertsOnly(style, depth, front);
      if !Flagged(c) {
        IndentInsertsOnly(style, depth + 1, c);
        var l := Lay(style, depth, front);
        var b := if !IsText(c) && (HasMarkup(front) || depth > 0) then [Blank(style, depth)] else [];
        if b != [] {
          WellLaidSnoc(style, depth, l, Blank(style, depth));
        } else {
          assert l + b == l;
        }
        WellLaidSnoc(style, depth, l + b, IndentNode(style, depth + 1, c));
      }
    }
  }

  // ------------------------------------------------------------ a stale flag

  // ------------------------------------------------------------- SetText, then Indent

  lemma {:induction false} LayFirstText(style: Style, depth: nat, c: XNode, rest: seq<XNode>)
    requires IsText(c)
    ensures Lay(style, depth, [c] + rest) == (if Flagged(c) then [] else [c]) + Lay(style, depth, rest)
    ensures EndsInMarkup([c] + rest) == EndsInMarkup(rest)
    decreases |rest|
  {
    var all := [c] + rest;
    if rest == [] {
      assert all == [c] && all[..0] == [];
      assert Lay(style, depth, []) == [];
    } else {
      var n := |rest| - 1;
      LayFirstText(style, depth, c, rest[..n]);
      assert all[..n + 1] == [c] + rest[..n] && all[n + 1] == rest[n];
      MarkupBehindText(c, rest[..n]);
    }
  }

  lemma MarkupBehindText(c: XNode, rest: seq<XNode>)
    requires IsText(c)
    ensures HasMarkup([c] + rest) == HasMarkup(rest)
  {
    var all := [c] + rest;
    if i :| 0 <= i < |rest| && !IsText(rest[i]) {
      assert all[i + 1] == rest[i];
    }
  }

  predicate LeadsWithText(n: XNode) {
    n.Elem? && n.kids != [] && IsText(n.kids[0])
  }

  /** The element after SetText: a leading text token keeps its flag, otherwise one is put first. */
  function WithText(n: XNode, text: string): (r: XNode)
    requires n.Elem?
  {
    if LeadsWithText(n) then n.(kids := [Leaf(CharData(text, n.kids[0].value.whitespace))] + n.kids[1..])
    else n.(kids := [Leaf(CharData(text, false))] + n.kids)
  }

  /** The element without its leading text token. */
  function WithoutText(n: XNode): (r: XNode)
    requires n.Elem?
  {
    if LeadsWithText(n) then n.(kids := n.kids[1..]) else n
  }

  /**
   SetText keeps the whitespace flag of the text it replaces (etree/etree.go:311-315), and stripIndent
   goes by the flag (566-569): for every element, style and depth, the text set is in front of what
   Indent makes of the other children if and only if it did not replace flagged text.
   */
  lemma TextSurvivesExactly(style: Style, depth: nat, n: XNode, text: string)
    requires n.Elem?
    ensures var lost := LeadsWithText(n) && n.kids[0].value.whitespace;
            IndentNode(style, depth, WithText(n, text)).kids
            == (if lost then [] else [Leaf(CharData(text, false))]) + IndentNode(style, depth, WithoutText(n)).kids
  {
    var c := WithText(n, text).kids[0];
    var rest := WithoutText(n).kids;
    var end := if EndsInMarkup(rest) then [Blank(style, depth - 1)] else [];
    LayFirstText(style, depth, c, rest);
    Assoc(if Flagged(c) then [] else [c], Lay(style, depth, rest), end);
  }
}
