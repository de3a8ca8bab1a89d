/**
 Which text is flagged as whitespace, and what Indent therefore keeps of a document read
 (etree/helpers.go:130-139; etree/etree.go:404-406, 551-574).
 */
module XmlFlags {
  import opened Basics
  import opened Strings
  import opened XmlModel
  import opened XmlDecoder
  import opened XmlReader
  import opened Indent

  const SPACE: set<char> := {' ', '\t', '\n', '\r'}

  /** A text is flagged if and only if all its characters are blanks, tabs and line ends. */
  ghost predicate FlagIsTrue(v: LeafValue) {
    v.CharData? ==> (v.whitespace <==> forall i :: 0 <= i < |v.data| ==> v.data[i] in SPACE)
  }

  ghost predicate TokenFlag(t: XToken) {
    t.Data? ==> FlagIsTrue(t.value)
  }

  ghost predicate TokenFlags(ts: seq<XToken>) {
    forall t :: t in ts ==> TokenFlag(t)
  }

  lemma TextFlag(d: string)
    ensures TokenFlags([TextToken(d)])
  {
  }

  lemma DeclaredFlags(s: string)
    requires ScanDeclared(s).Got?
    ensures TokenFlags(ScanDeclared(s).value)
  {
    if s[0] == '[' {
      TextFlag(ScanCData(s[7..]).value);
    }
  }

  lemma ItemFlags(s: string)
    requires s != "" && ScanItem(s).Got?
    ensures TokenFlags(ScanItem(s).value)
  {
    if s[0] != '<' {
      TextFlag(ScanText(s, None).value);
    } else if s[1] == '!' {
      DeclaredFlags(s[2..]);
    }
  }

  /** Every text decoded is flagged exactly when it is nothing but blanks, tabs and line ends. */
  lemma {:induction false} FlaggedExactly(s: string)
    ensures TokenFlags(Lex(s).list)
    decreases |s|
  {
    if s != "" && ScanItem(s).Got? {
      ItemFlags(s);
      FlaggedExactly(ScanItem(s).rest);
    }
  }

  // ------------------------------------------------------------------------ trees

  ghost predicate FlagsAreTrue(n: XNode)
    decreases n, 1
  {
    match n
    case Leaf(v) => FlagIsTrue(v)
    case Elem(_, _, _, kids) => AllFlagsAreTrue(kids)
  }

  ghost predicate AllFlagsAreTrue(ns: seq<XNode>)
    decreases ns, 0
  {
    ns != [] ==> AllFlagsAreTrue(ns[..|ns| - 1]) && FlagsAreTrue(ns[|ns| - 1])
  }

  lemma FlagsSnoc(ns: seq<XNode>, n: XNode)
    requires AllFlagsAreTrue(ns) && FlagsAreTrue(n)
    ensures AllFlagsAreTrue(ns + [n])
  {
    assert (ns + [n])[..|ns|] == ns;
  }

  lemma {:induction false} GraftFlags(root: XNode, d: nat, n: XNode)
    requires Spine(root, d) && FlagsAreTrue(root) && FlagsAreTrue(n)
    ensures FlagsAreTrue(Graft(root, d, n))
    decreases d
  {
    if d == 0 {
      FlagsSnoc(root.kids, n);
    } else {
      var k := |root.kids| - 1;
      GraftFlags(root.kids[k], d - 1, n);
      FlagsSnoc(root.kids[..k], Graft(root.kids[k], d - 1, n));
    }
  }

  lemma StepFlags(st: Reading, t: XToken)
    requires Sound(st) && FlagsAreTrue(st.root) && TokenFlag(t)
    ensures FlagsAreTrue(Step(st, t).root)
  {
    if st.Open? {
      match t
      case Data(v) => GraftFlags(st.root, st.depth, Leaf(v));
      case End(_, _) =>
      case Start(space, tag, attr) => GraftFlags(st.root, st.depth, Elem(space, tag, PutAttrs([], attr), []));
    }
  }

  lemma {:induction false} ReadFlags(st: Reading, ts: seq<XToken>)
    requires Sound(st) && FlagsAreTrue(st.root) && TokenFlags(ts)
    ensures FlagsAreTrue(ReadAll(st, ts).root)
    decreases |ts|
  {
    if ts != [] {
      StepFlags(st, ts[0]);
      ReadFlags(Step(st, ts[0]), ts[1..]);
    }
  }

  /** In whatever document is read, every text is flagged exactly when it is blank. */
  lemma ReadFlagsAreTrue(s: string)
    ensures FlagsAreTrue(ReadFrom(NEW_DOCUMENT, s).root)
  {
    FlaggedExactly(s);
    ReadFlags(Open(NEW_DOCUMENT, 0), Lex(s).list);
  }

  // --------------------------------------------------------------- what can be seen

  /** The characters that are no blanks, tabs or line ends. */
  function Visible(s: string): (r: string)
  {
    if s == "" then ""
    else Visible(s[..|s| - 1]) + if s[|s| - 1] in SPACE then "" else [s[|s| - 1]]
  }

  /** The visible character data of a tree, in document order. */
  function Ink(n: XNode): (r: string)
    decreases n, 1
  {
    match n
    case Leaf(v) => if v.CharData? then Visible(v.data) else ""
    case Elem(_, _, _, kids) => InkOf(kids)
  }

  function InkOf(ns: seq<XNode>): (r: string)
    decreases ns, 0
  {
    if ns == [] then "" else InkOf(ns[..|ns| - 1]) + Ink(ns[|ns| - 1])
  }

  lemma InkSnoc(ns: seq<XNode>, n: XNode)
    ensures InkOf(ns + [n]) == InkOf(ns) + Ink(n)
  {
    assert (ns + [n])[..|ns|] == ns;
  }

  lemma {:induction false} NothingVisible(s: string)
    requires forall i :: 0 <= i < |s| ==> s[i] in SPACE
    ensures Visible(s) == ""
  {
    if s != "" {
      NothingVisible(s[..|s| - 1]);
    }
  }

  lemma BlankIsInvisible(style: Style, depth: int)
    ensures Ink(Blank(style, depth)) == ""
  {
    var s := IndentText(style, depth);
    IndentTextExact(style, depth);
    NothingVisible(s);
  }

  lemma {:induction false} IndentKeepsInk(style: Style, depth: nat, n: XNode)
    requires FlagsAreTrue(n)
    ensures Ink(IndentNode(style, depth, n)) == Ink(n)
    decreases n, 1
  {
    if n.Elem? {
      LayKeepsInk(style, depth, n.kids);
      var laid := Lay(style, depth, n.kids);
      if EndsInMarkup(n.kids) {
        InkSnoc(laid, Blank(style, depth - 1));
        BlankIsInvisible(style, depth - 1);
        assert InkOf(laid) + "" == InkOf(laid);
      } else {
        assert laid + [] == laid;
      }
    }
  }

  lemma {:induction false} LayKeepsInk(style: Style, depth: nat, kids: seq<XNode>)
    requires AllFlagsAreTrue(kids)
    ensures InkOf(Lay(style, depth, kids)) == InkOf(kids)
    decreases kids, 0
  {
    if kids != [] {
      var front, c := kids[..|kids| - 1], kids[|kids| - 1];
      LayKeepsInk(style, depth, front);
      if Flagged(c) {
        NothingVisible(c.value.data);
        assert InkOf(front) + "" == InkOf(front);
      } else {
        IndentKeepsInk(style, depth + 1, c);
        var laid, b := Lay(style, depth, front), Blank(style, depth);
        BlankIsInvisible(style, depth);
        InkSnoc(laid, b);
        assert InkOf(laid) + "" == InkOf(laid) && laid + [] == laid;
        InkSnoc(laid, IndentNode(style, depth + 1, c));
        InkSnoc(laid + [b], IndentNode(style, depth + 1, c));
      }
    }
  }

  /** Whatever is read, indenting keeps its visible character data, in order. */
  lemma IndentKeepsWhatIsVisible(s: string, style: Style)
    ensures Ink(IndentNode(style, 0, ReadFrom(NEW_DOCUMENT, s).root)) == Ink(ReadFrom(NEW_DOCUMENT, s).root)
  {
    ReadFlagsAreTrue(s);
    IndentKeepsInk(style, 0, ReadFrom(NEW_DOCUMENT, s).root);
  }
}
