/** The decoder reads back exactly the tokens that the serializer wrote (etree/etree.go:606-642, 684-776, 820-930). */
module XmlLexing {
  import opened Basics
  import opened Strings
  import opened XmlModel
  import opened XmlDecoder

  // -------------------------------------------------------------------- legality

  predicate IsName(s: string) {
    s != "" && NameStart(s[0]) && forall i :: 0 <= i < |s| ==> NameChar(s[i])
  }

  /** No colon, or a single one that stands at an end and so does not separate anything. */
  predicate ColonsAtEnds(name: string) {
    var i := Index(name, ":");
    i == -1 || (Index(name[i + 1..], ":") == -1 && (i == 0 || i == |name| - 1))
  }

  /** Names that stay apart when written with a colon between them: all names of section 2.3 and more. */
  predicate LegalName(space: string, name: string) {
    && IsName(QName(space, name))
    && if space != "" then ':' !in space && ':' !in name && name != "" else ColonsAtEnds(name)
  }

  /** XML characters, when strict without carriage returns. */
  predicate TextFits(s: string, strict: bool) {
    forall i :: 0 <= i < |s| ==> XmlChar(s[i]) && (strict ==> s[i] != '\r')
  }

  ghost predicate LegalComment(s: string) {
    (forall i: nat :: !Occurs(s, "--", i)) && (s != "" ==> s[|s| - 1] != '-')
  }

  ghost predicate LegalInst(s: string) {
    (forall i: nat :: !Occurs(s, "?>", i)) && (s != "" ==> !IsBlank(s[0]))
  }

  /** Brackets and quotes are closed, and nothing looks like a comment or a CDATA section. */
  predicate LegalDirective(s: string) {
    s != "" && s[0] != '-' && s[0] != '[' && DirectiveText(s[1..] + ">", None, 0) == Got(s[1..], "")
  }

  ghost predicate LeafFits(v: LeafValue, strict: bool) {
    match v
    case CharData(data, whitespace) =>
      TextFits(data, strict) && (strict ==> data != "" && whitespace == IsWhitespace(data))
    case Comment(data) => LegalComment(data)
    case ProcInst(target, inst) => IsName(target) && LegalInst(inst) && (target == "xml" ==> DeclarationFits(inst))
    case Directive(data) => LegalDirective(data)
  }

  predicate AttrFits(a: Attr, strict: bool) {
    LegalName(a.space, a.key) && TextFits(a.value, strict)
  }

  predicate AttrsFit(attr: seq<Attr>, strict: bool) {
    attr != [] ==> AttrFits(attr[0], strict) && AttrsFit(attr[1..], strict)
  }

  /**
   Names that can be read and distinct attributes; when strict also text that comes back as it is: no
   carriage return, no empty text, and no two text tokens side by side.
   */
  ghost predicate NodeFits(n: XNode, strict: bool)
    decreases n, 1
  {
    match n
    case Leaf(v) => LeafFits(v, strict)
    case Elem(space, tag, attr, kids) =>
      LegalName(space, tag) && AttrsFit(attr, strict) && UniqueKeys(attr) && NodesFit(kids, strict)
  }

  ghost predicate NodesFit(ns: seq<XNode>, strict: bool)
    decreases ns, 0
  {
    ns != [] ==>
      && NodeFits(ns[0], strict) && NodesFit(ns[1..], strict)
      && (strict && |ns| > 1 ==> !(IsText(ns[0]) && IsText(ns[1])))
  }

  /** What a text can be read into. */
  ghost predicate ReadableNodes(ns: seq<XNode>) {
    NodesFit(ns, false)
  }

  /** What a text can be read into that has no references to carriage returns and no CDATA sections. */
  ghost predicate LegalNodes(ns: seq<XNode>) {
    NodesFit(ns, true)
  }

  /** The tokens a tree is made of. */
  function TokensOf(n: XNode): (ts: seq<XToken>)
    decreases n, 1
  {
    match n
    case Leaf(v) => [Data(v)]
    case Elem(space, tag, attr, kids) => [Start(space, tag, attr)] + TokensOfAll(kids) + [End(space, tag)]
  }

  function TokensOfAll(ns: seq<XNode>): (ts: seq<XToken>)
    decreases ns, 0
  {
    if ns == [] then [] else TokensOf(ns[0]) + TokensOfAll(ns[1..])
  }

  // ----------------------------------------------------------------------- names

  /** r does not continue a name. */
  predicate EndsName(r: string) {
    r == "" || !NameChar(r[0])
  }

  lemma {:induction false} NameLengthOf(n: string, r: string)
    requires (forall i :: 0 <= i < |n| ==> NameChar(n[i])) && EndsName(r)
    ensures NameLength(n + r) == |n|
  {
    if n == "" {
      assert n + r == r;
    } else {
      NameLengthOf(n[1..], r);
      assert (n + r)[1..] == n[1..] + r;
    }
  }

  lemma ScanNameOf(n: string, r: string)
    requires IsName(n) && EndsName(r)
    ensures ScanName(n + r) == Got(n, r)
  {
    NameLengthOf(n, r);
    assert (n + r)[..|n|] == n && (n + r)[|n|..] == r;
  }

  lemma ScanQNameOf(space: string, name: string, r: string)
    requires LegalName(space, name) && EndsName(r)
    ensures ScanQName(QName(space, name) + r) == Got((space, name), r)
  {
    var q := QName(space, name);
    ScanNameOf(q, r);
    if space != "" {
      CharIsNowhere(name, ':');
      CharIsFirst(space, ':', name);
      assert q[..|space|] == space && q[|space| + 1..] == name;
    }
  }

  // ------------------------------------------------------------------------ text

  /** Where text may end: at a tag, or at the end of the input. */
  predicate EndsText(r: string) {
    r == "" || r[0] == '<'
  }

  lemma {:induction false} EscapeHidesClose(d: string, m: Escaping)
    requires m != CanonicalAttrVal
    ensures '>' !in Escape(d, m)
  {
    if d != "" {
      EscapeHidesClose(d[1..], m);
    }
  }

  lemma NoCloser(e: string, r: string)
    requires '>' !in e && EndsText(r)
    ensures !("]]>" <= e + r)
  {
    var s := e + r;
    if |e| > 2 {
      assert s[2] == e[2];
    } else {
      assert |s| > |e| ==> s[|e|] == '<';
    }
  }

  /** An escaped character is read back as itself, whatever the mode. */
  lemma ScanEscaped(c: char, m: Escaping, t: string, quote: Option<char>)
    requires XmlChar(c) && c != '\r'
    requires quote.None? || quote == Some('"')
    requires quote.Some? ==> m != CanonicalText
    requires quote.None? ==> !("]]>" <= EscapeChar(c, m) + t)
    ensures ScanText(EscapeChar(c, m) + t, quote) == Prepend(c, ScanText(t, quote))
  {
    var e := EscapeChar(c, m);
    var s := e + t;
    assert s[|e|..] == t;
    if |e| > 1 {
      assert s[0] == '&' && e <= s;
      assert Reference(s) == Some((c, |e|)) by {
        assert e[1] == s[1] && e[2] == s[2];
      }
    }
  }

  /** Line ends as they are read: a carriage return, with a newline behind it or not, is a newline. */
  function FixCr(s: string): (r: string)
  {
    if s == "" then ""
    else if s[0] == '\r' then "\n" + FixCr(s[CrLength(s)..])
    else [s[0]] + FixCr(s[1..])
  }

  function CrLength(s: string): (n: nat)
    requires s != ""
    ensures 1 <= n <= |s|
  {
    if |s| > 1 && s[1] == '\n' then 2 else 1
  }

  /** Behind a written carriage return: a newline that follows goes with it. */
  lemma CrTail(d: string, m: Escaping, r: string)
    requires d != "" && d[0] == '\r' && (r != "" ==> r[0] != '\n')
    ensures var s := Escape(d, m) + r;
            s != "" && s[0] == '\r' && s[CrLength(s)..] == Escape(d[CrLength(d)..], m) + r
  {
    var t := Escape(d[1..], m) + r;
    Assoc("\r", Escape(d[1..], m), r);
    Cut("\r", t);
    if |d| == 1 {
      assert d[1..] == "" && Escape(d[1..], m) == "" && t == r;
    } else {
      EscapeStart(d[1..], m);
      if d[1] == '\n' {
        assert d[1..][1..] == d[2..];
        Assoc("\n", Escape(d[2..], m), r);
        Cut("\r\n", Escape(d[2..], m) + r);
        Assoc("\r", "\n", Escape(d[2..], m) + r);
      }
    }
  }

  lemma ScanCrStep(s: string, quote: Option<char>)
    requires s != "" && s[0] == '\r' && (quote.None? || quote == Some('"'))
    ensures ScanText(s, quote) == Prepend('\n', ScanText(s[CrLength(s)..], quote))
  {
  }

  lemma EscapeStart(d: string, m: Escaping)
    requires d != ""
    ensures Escape(d, m) != "" && Escape(d, m)[0] != '<' && (Escape(d, m)[0] == '\n' ==> d[0] == '\n')
  {
  }

  lemma {:induction false} ScanWrittenText(d: string, m: Escaping, r: string)
    requires TextFits(d, false) && m != CanonicalAttrVal && EndsText(r)
    ensures ScanText(Escape(d, m) + r, None) == Got(FixCr(d), r)
  {
    if d == "" {
      assert Escape(d, m) + r == r;
    } else if d[0] == '\r' {
      ScanWrittenText(d[CrLength(d)..], m, r);
      CrTail(d, m, r);
      ScanCrStep(Escape(d, m) + r, None);
    } else {
      ScanWrittenText(d[1..], m, r);
      EscapeHidesClose(d, m);
      var e, t := EscapeChar(d[0], m), Escape(d[1..], m) + r;
      Assoc(e, Escape(d[1..], m), r);
      NoCloser(Escape(d, m), r);
      ScanEscaped(d[0], m, t, None);
    }
  }

  lemma {:induction false} ScanWrittenValue(d: string, m: Escaping, r: string)
    requires TextFits(d, false) && m != CanonicalText
    ensures ScanText(Escape(d, m) + ("\"" + r), Some('"')) == Got(FixCr(d), r)
  {
    var q := "\"" + r;
    if d == "" {
      assert Escape(d, m) + q == q && q[1..] == r;
    } else if d[0] == '\r' {
      ScanWrittenValue(d[CrLength(d)..], m, r);
      CrTail(d, m, q);
      ScanCrStep(Escape(d, m) + q, Some('"'));
    } else {
      ScanWrittenValue(d[1..], m, r);
      var e, t := EscapeChar(d[0], m), Escape(d[1..], m) + q;
      Assoc(e, Escape(d[1..], m), q);
      ScanEscaped(d[0], m, t, Some('"'));
    }
  }

  // ------------------------------------------------------------------ attributes

  function AttrMode(s: WriteSettings): (m: Escaping) {
    if s.canonicalAttrVal then CanonicalAttrVal else Normal
  }

  lemma SolidStart(s: string)
    requires s != "" && !IsBlank(s[0])
    ensures SkipBlank(s) == s
    ensures SkipBlank(" " + s) == s
  {
    assert (" " + s)[1..] == s;
  }

  /** An attribute as it is read. */
  function FixAttr(a: Attr): (r: Attr) {
    a.(value := FixCr(a.value))
  }

  function FixAttrs(attr: seq<Attr>): (r: seq<Attr>)
    ensures |r| == |attr|
  {
    if attr == [] then [] else [FixAttr(attr[0])] + FixAttrs(attr[1..])
  }

  /** Behind the name of an attribute. */
  lemma ScanWrittenAttr(a: Attr, s: WriteSettings, r: string)
    requires AttrFits(a, false)
    ensures ScanAttr(WriteAttr(a, s) + r) == Got(FixAttr(a), r)
  {
    var q, e := QName(a.space, a.key), Escape(a.value, AttrMode(s));
    var v := e + ("\"" + r);
    var t := "=\"" + v;
    Assoc5(q, "=\"", e, "\"", r);
    ScanQNameOf(a.space, a.key, t);
    AttrValueStarts(v);
    ScanWrittenValue(a.value, AttrMode(s), r);
  }

  lemma AttrValueStarts(v: string)
    ensures var t := "=\"" + v;
            EndsName(t) && SkipBlank(t) == t && t[0] == '='
            && SkipBlank(t[1..]) == t[1..] && t[1..] != "" && t[1..][0] == '"' && t[1..][1..] == v
  {
  }

  lemma AttrStartsName(a: Attr, s: WriteSettings, r: string)
    requires LegalName(a.space, a.key)
    ensures WriteAttr(a, s) + r != "" && NameStart((WriteAttr(a, s) + r)[0])
  {
  }

  /** The end of a start tag. */
  function TagEnd(closes: bool): (s: string) {
    if closes then "/>" else ">"
  }

  lemma ScanAttrsStep(a: Attr, s: WriteSettings, attr: seq<Attr>, closes: bool, t: string, r: string)
    requires AttrFits(a, false)
    requires ScanAttrs(t) == Got((attr, closes), r)
    ensures ScanAttrs(" " + (WriteAttr(a, s) + t)) == Got(([FixAttr(a)] + attr, closes), r)
  {
    var u := WriteAttr(a, s) + t;
    AttrStartsName(a, s, t);
    SolidStart(u);
    ScanWrittenAttr(a, s, t);
  }

  lemma ScanTagEnd(closes: bool, r: string)
    ensures ScanAttrs(TagEnd(closes) + r) == Got(([], closes), r)
  {
    var all := TagEnd(closes) + r;
    SolidStart(all);
    Cut(TagEnd(closes), r);
  }

  lemma WriteAttrsCons(attr: seq<Attr>, s: WriteSettings, e: string)
    requires attr != []
    ensures WriteAttrs(attr, s) + e == " " + (WriteAttr(attr[0], s) + (WriteAttrs(attr[1..], s) + e))
  {
    Assoc4(" ", WriteAttr(attr[0], s), WriteAttrs(attr[1..], s), e);
  }

  lemma {:induction false} ScanWrittenAttrs(attr: seq<Attr>, s: WriteSettings, closes: bool, r: string)
    requires AttrsFit(attr, false)
    ensures ScanAttrs(WriteAttrs(attr, s) + (TagEnd(closes) + r)) == Got((FixAttrs(attr), closes), r)
    decreases |attr|
  {
    var e := TagEnd(closes) + r;
    if attr == [] {
      assert WriteAttrs(attr, s) + e == e;
      ScanTagEnd(closes, r);
    } else {
      ScanWrittenAttrs(attr[1..], s, closes, r);
      WriteAttrsCons(attr, s, e);
      ScanAttrsStep(attr[0], s, FixAttrs(attr[1..]), closes, WriteAttrs(attr[1..], s) + e, r);
    }
  }

  // ----------------------------------------------------------------------- items

  lemma EndsNameAtAttrs(attr: seq<Attr>, s: WriteSettings, closes: bool, r: string)
    ensures EndsName(WriteAttrs(attr, s) + (TagEnd(closes) + r))
  {
    if attr == [] {
      assert WriteAttrs(attr, s) + (TagEnd(closes) + r) == TagEnd(closes) + r;
    } else {
      assert WriteAttrs(attr, s)[0] == ' ';
    }
  }

  lemma ItemIsStart(t: string)
    requires t != "" && NameStart(t[0])
    ensures ScanItem("<" + t) == ScanStartTag(t)
  {
    Cut("<", t);
    assert ("<" + t)[1] == t[0];
  }

  lemma ItemIsEnd(t: string)
    ensures ScanItem("</" + t) == ScanEndTag(t)
  {
    Cut("</", t);
  }

  lemma ItemIsInst(t: string)
    ensures ScanItem("<?" + t) == ScanInst(t)
  {
    Cut("<?", t);
  }

  lemma ItemIsDeclared(t: string)
    ensures ScanItem("<!" + t) == ScanDeclared(t)
  {
    Cut("<!", t);
  }

  lemma ItemIsComment(t: string)
    ensures ScanItem("<!--" + t) == ScanComment(t)
  {
    Assoc("<!", "--", t);
    ItemIsDeclared("--" + t);
    Cut("--", t);
  }

  lemma ScanWrittenStart(n: XNode, s: WriteSettings, closes: bool, r: string)
    requires n.Elem? && LegalName(n.space, n.tag) && AttrsFit(n.attr, false)
    ensures ScanItem("<" + (QName(n.space, n.tag) + (WriteAttrs(n.attr, s) + (TagEnd(closes) + r))))
         == Got([Start(n.space, n.tag, FixAttrs(n.attr))] + (if closes then [End(n.space, n.tag)] else []), r)
  {
    var q, t := QName(n.space, n.tag), WriteAttrs(n.attr, s) + (TagEnd(closes) + r);
    ItemIsStart(q + t);
    EndsNameAtAttrs(n.attr, s, closes, r);
    ScanQNameOf(n.space, n.tag, t);
    ScanWrittenAttrs(n.attr, s, closes, r);
  }

  lemma ScanWrittenEnd(space: string, tag: string, r: string)
    requires LegalName(space, tag)
    ensures EndTag(space, tag) + r != "" && ScanItem(EndTag(space, tag) + r) == Got([End(space, tag)], r)
  {
    var q, t := QName(space, tag), ">" + r;
    Assoc4("</", q, ">", r);
    ItemIsEnd(q + t);
    ScanQNameOf(space, tag, t);
    SolidStart(t);
    Cut(">", r);
  }

  /** Behind a text without the pair p, a closing mark that starts with p is found where it was put. */
  lemma PairEnd(a: string, p: string, close: string, tail: string, r: string)
    requires |p| == 2 && close == p + tail
    requires forall i: nat :: !Occurs(a, p, i)
    requires a == "" || p[0] != p[1] || a[|a| - 1] != p[0]
    ensures Index(a + (close + r), p) == |a|
  {
    assert p == [p[0], p[1]];
    PairIsFirst(a, p[0], p[1], tail + r);
    Assoc(a, p, tail + r);
    Assoc(p, tail, r);
  }

  lemma CommentEnd(d: string, r: string)
    requires LegalComment(d)
    ensures Index(d + ("-->" + r), "--") == |d|
  {
    PairEnd(d, "--", "-->", ">", r);
  }

  lemma ScanWrittenComment(d: string, r: string)
    requires LegalComment(d)
    ensures ScanItem("<!--" + d + "-->" + r) == Got([Data(Comment(d))], r)
  {
    Assoc4("<!--", d, "-->", r);
    var t := d + ("-->" + r);
    ItemIsComment(t);
    CommentEnd(d, r);
    assert t[..|d|] == d && t[|d| + 3..] == r;
  }

  lemma InstEnd(inst: string, r: string)
    requires LegalInst(inst)
    ensures Index(inst + ("?>" + r), "?>") == |inst|
  {
    PairEnd(inst, "?>", "?>", "", r);
  }

  lemma InstParts(inst: string, r: string)
    requires LegalInst(inst)
    ensures var t := inst + ("?>" + r);
            && t != "" && SkipBlank(t) == t && SkipBlank(" " + t) == t
            && Index(t, "?>") == |inst| && t[..|inst|] == inst && t[|inst| + 2..] == r
  {
    var t := inst + ("?>" + r);
    assert t[0] == if inst == "" then '?' else inst[0];
    SolidStart(t);
    InstEnd(inst, r);
  }

  /** Behind the target, with or without a blank. */
  lemma ScanInstBody(target: string, inst: string, u: string, r: string)
    requires IsName(target) && LegalInst(inst) && (target == "xml" ==> DeclarationFits(inst))
    requires u == " " + (inst + ("?>" + r)) || (inst == "" && u == inst + ("?>" + r))
    ensures ScanInst(target + u) == Got([Data(ProcInst(target, inst))], r)
  {
    InstParts(inst, r);
    ScanNameOf(target, u);
    InstBody(target, inst, u, inst + ("?>" + r), r);
  }

  lemma InstBody(target: string, inst: string, u: string, t: string, r: string)
    requires ScanName(target + u) == Got(target, u) && SkipBlank(u) == t
    requires Index(t, "?>") == |inst| && t[..|inst|] == inst && |inst| + 2 <= |t| && t[|inst| + 2..] == r
    requires target == "xml" ==> DeclarationFits(inst)
    ensures ScanInst(target + u) == Got([Data(ProcInst(target, inst))], r)
  {
  }

  lemma WrittenInst(target: string, inst: string, s: WriteSettings, r: string) returns (u: string)
    ensures WriteLeaf(ProcInst(target, inst), s) + r == "<?" + (target + u)
    ensures u == " " + (inst + ("?>" + r)) || (inst == "" && u == inst + ("?>" + r))
  {
    var i := if inst != "" then " " + inst else "";
    u := i + ("?>" + r);
    Assoc5("<?", target, i, "?>", r);
    Assoc(" ", inst, "?>" + r);
  }

  lemma ScanWrittenInst(target: string, inst: string, s: WriteSettings, r: string)
    requires IsName(target) && LegalInst(inst) && (target == "xml" ==> DeclarationFits(inst))
    ensures ScanItem(WriteLeaf(ProcInst(target, inst), s) + r) == Got([Data(ProcInst(target, inst))], r)
  {
    var u := WrittenInst(target, inst, s, r);
    ItemIsInst(target + u);
    ScanInstBody(target, inst, u, r);
  }

  /** What is found somewhere is found there also with more text behind. */
  lemma {:induction false} IndexExtends(s: string, sub: string, r: string)
    requires sub != "" && Index(s, sub) >= 0
    ensures Index(s + r, sub) == Index(s, sub)
  {
    if |sub| <= |s| && s[..|sub|] == sub {
      assert (s + r)[..|sub|] == s[..|sub|];
    } else {
      IndexExtends(s[1..], sub, r);
      assert (s + r)[1..] == s[1..] + r;
      assert |sub| <= |s| && (s + r)[..|sub|] == s[..|sub|];
    }
  }

  /** A directive that ends does not look at what comes behind. */
  lemma {:induction false} DirectiveExtends(s: string, quote: Option<char>, depth: nat, r: string)
    requires DirectiveText(s, quote, depth).Got?
    ensures DirectiveText(s + r, quote, depth)
         == Got(DirectiveText(s, quote, depth).value, DirectiveText(s, quote, depth).rest + r)
    decreases |s|
  {
    var all := s + r;
    assert all[0] == s[0] && all[1..] == s[1..] + r;
    if quote.Some? {
      DirectiveExtends(s[1..], if quote.value == s[0] then None else quote, depth, r);
    } else if s[0] == '>' {
      if depth > 0 {
        DirectiveExtends(s[1..], None, depth - 1, r);
      }
    } else if s[0] == '"' || s[0] == '\'' {
      DirectiveExtends(s[1..], Some(s[0]), depth, r);
    } else if "<!--" <= s {
      DirectiveExtends(s[Index(s[4..], "-->") + 7..], None, depth, r);
      CommentExtends(s, depth, r);
    } else {
      LongEnough(s, depth, r);
      DirectiveExtends(s[1..], None, if s[0] == '<' then depth + 1 else depth, r);
    }
  }

  lemma CommentExtends(s: string, depth: nat, r: string)
    requires "<!--" <= s && Index(s[4..], "-->") >= 0
    ensures DirectiveText(s + r, None, depth)
         == Prepend(' ', DirectiveText(s[Index(s[4..], "-->") + 7..] + r, None, depth))
  {
    var all, i := s + r, Index(s[4..], "-->");
    IndexExtends(s[4..], "-->", r);
    assert "<!--" <= all && all[4..] == s[4..] + r && all[i + 7..] == s[i + 7..] + r;
  }

  lemma {:induction false} DirectiveCloses(s: string, quote: Option<char>, depth: nat)
    requires DirectiveText(s, quote, depth).Got?
    ensures '>' in s
    decreases |s|
  {
    if quote.Some? {
      DirectiveCloses(s[1..], if quote.value == s[0] then None else quote, depth);
    } else if s[0] == '"' || s[0] == '\'' {
      DirectiveCloses(s[1..], Some(s[0]), depth);
    } else if "<!--" <= s {
      DirectiveCloses(s[Index(s[4..], "-->") + 7..], None, depth);
    } else if s[0] != '>' {
      DirectiveCloses(s[1..], None, if s[0] == '<' then depth + 1 else depth);
    }
  }

  /** A directive does not end inside the mark that starts a comment. */
  lemma LongEnough(s: string, depth: nat, r: string)
    requires DirectiveText(s, None, depth).Got? && !("<!--" <= s)
    ensures !("<!--" <= s + r)
  {
    var n := |s|;
    if n >= 4 {
      assert (s + r)[..4] == s[..4];
    } else {
      DirectiveCloses(s, None, depth);
      var k :| 0 <= k < n && s[k] == '>';
      assert (s + r)[k] == '>' && "<!--"[k] != '>';
    }
  }

  lemma DirectiveTail(body: string, u: string, t: string, r: string)
    requires u == body + ">" && t == u + r && DirectiveText(u, None, 0) == Got(body, "")
    ensures DirectiveText(t, None, 0) == Got(body, r)
  {
    DirectiveExtends(u, None, 0, r);
    assert "" + r == r;
  }

  lemma DirectiveIsKept(d: string, r: string)
    requires LegalDirective(d)
    ensures (d + (">" + r))[0] == d[0] && DirectiveText((d + (">" + r))[1..], None, 0) == Got(d[1..], r)
  {
    var body := d[1..];
    Assoc(body, ">", r);
    assert (d + (">" + r))[1..] == body + (">" + r);
    DirectiveTail(body, body + ">", body + (">" + r), r);
  }

  lemma DeclaredDirective(t: string, body: string, r: string)
    requires t != "" && t[0] != '-' && t[0] != '[' && DirectiveText(t[1..], None, 0) == Got(body, r)
    ensures ScanDeclared(t) == Got([Data(Directive([t[0]] + body))], r)
  {
  }

  lemma ScanWrittenDirective(d: string, r: string)
    requires LegalDirective(d)
    ensures ScanItem("<!" + d + ">" + r) == Got([Data(Directive(d))], r)
  {
    var t := d + (">" + r);
    Assoc4("<!", d, ">", r);
    ItemIsDeclared(t);
    DirectiveIsKept(d, r);
    DeclaredDirective(t, d[1..], r);
    assert [d[0]] + d[1..] == d;
  }

  lemma ScanWrittenMarkup(v: LeafValue, s: WriteSettings, r: string)
    requires LeafFits(v, false) && !v.CharData?
    ensures WriteLeaf(v, s) + r != "" && ScanItem(WriteLeaf(v, s) + r) == Got([Data(v)], r)
  {
    match v
    case Comment(d) =>
      ScanWrittenComment(d, r);
    case ProcInst(target, inst) =>
      ScanWrittenInst(target, inst, s, r);
    case Directive(d) =>
      ScanWrittenDirective(d, r);
  }

  // ----------------------------------------------------------------- whole trees

  function Before(ts: seq<XToken>, more: Tokens): (r: Tokens) {
    Tokens(ts + more.list, more.ok)
  }

  lemma BeforeTwice(a: seq<XToken>, b: seq<XToken>, more: Tokens)
    ensures Before(a, Before(b, more)) == Before(a + b, more)
  {
    Assoc(a, b, more.list);
  }

  lemma LexStep(s: string, ts: seq<XToken>, r: string)
    requires s != "" && ScanItem(s) == Got(ts, r)
    ensures Lex(s) == Before(ts, Lex(r))
  {
  }

  lemma {:induction false} TokensConcat(a: seq<XNode>, b: seq<XNode>)
    ensures TokensOfAll(a + b) == TokensOfAll(a) + TokensOfAll(b)
    decreases |a|
  {
    if a == [] {
      assert a + b == b;
    } else {
      TokensConcat(a[1..], b);
      assert (a + b)[1..] == a[1..] + b;
      Assoc(TokensOf(a[0]), TokensOfAll(a[1..]), TokensOfAll(b));
    }
  }

  /** The text token a piece of text is read into. */
  function TextRun(d: string): (r: seq<XNode>) {
    if d == "" then [] else [Leaf(CharData(FixCr(d), IsWhitespace(FixCr(d))))]
  }

  /** What markup comes back as: line ends fixed, and text put together at every depth. */
  function NormalNode(n: XNode): (r: XNode)
    decreases n, 1
  {
    match n
    case Leaf(_) => n
    case Elem(space, tag, attr, kids) => Elem(space, tag, FixAttrs(attr), NormalFrom("", kids))
  }

  /** The same for a list, with text in front of it. */
  function NormalFrom(front: string, ns: seq<XNode>): (r: seq<XNode>)
    decreases ns, 0
  {
    if ns == [] then TextRun(front)
    else if IsText(ns[0]) then NormalFrom(front + ns[0].value.data, ns[1..])
    else TextRun(front) + [NormalNode(ns[0])] + NormalFrom("", ns[1..])
  }

  function Normalize(ns: seq<XNode>): (r: seq<XNode>) {
    NormalFrom("", ns)
  }

  function TextMode(s: WriteSettings): (m: Escaping) {
    if s.canonicalText then CanonicalText else Normal
  }

  lemma {:induction false} EscapeConcat(a: string, b: string, m: Escaping)
    ensures Escape(a + b, m) == Escape(a, m) + Escape(b, m)
  {
    if a == "" {
      assert a + b == b && Escape(a, m) + Escape(b, m) == Escape(b, m);
    } else {
      EscapeConcat(a[1..], b, m);
      assert (a + b)[1..] == a[1..] + b;
      Assoc(EscapeChar(a[0], m), Escape(a[1..], m), Escape(b, m));
    }
  }

  lemma LexText(d: string, s: WriteSettings, r: string)
    requires TextFits(d, false) && EndsText(r)
    ensures Lex(Escape(d, TextMode(s)) + r) == Before(TokensOfAll(TextRun(d)), Lex(r))
  {
    var e := Escape(d, TextMode(s));
    if d == "" {
      assert e + r == r && [] + Lex(r).list == Lex(r).list;
    } else {
      EscapeStart(d, TextMode(s));
      ScanWrittenText(d, TextMode(s), r);
      LexStep(e + r, [TextToken(FixCr(d))], r);
      TokensOfOne(TextRun(d)[0]);
    }
  }

  lemma TokensOfOne(n: XNode)
    ensures TokensOfAll([n]) == TokensOf(n)
  {
    assert [n][1..] == [] && TokensOf(n) + [] == TokensOf(n);
  }

  lemma {:induction false} LexNode(n: XNode, s: WriteSettings, r: string)
    requires NodeFits(n, false) && !IsText(n)
    ensures Lex(WriteNode(n, s) + r) == Before(TokensOf(NormalNode(n)), Lex(r))
    decreases n, 1
  {
    match n
    case Leaf(v) =>
      ScanWrittenMarkup(v, s, r);
      LexStep(WriteLeaf(v, s) + r, [Data(v)], r);
    case Elem(space, tag, attr, kids) =>
      if kids == [] && !s.canonicalEndTags {
        LexClosed(n, s, r);
      } else {
        var t := EndTag(space, tag) + r;
        LexNodes("", kids, s, t);
        assert Escape("", TextMode(s)) + (WriteNodes(kids, s) + t) == WriteNodes(kids, s) + t;
        LexOpen(n, s, r);
      }
  }

  lemma LexClosed(n: XNode, s: WriteSettings, r: string)
    requires n.Elem? && NodeFits(n, false) && n.kids == [] && !s.canonicalEndTags
    ensures Lex(WriteNode(n, s) + r) == Before(TokensOf(NormalNode(n)), Lex(r))
  {
    var st, en := Start(n.space, n.tag, FixAttrs(n.attr)), End(n.space, n.tag);
    ScanWrittenStart(n, s, true, r);
    Assoc5("<", QName(n.space, n.tag), WriteAttrs(n.attr, s), "/>", r);
    LexStep(WriteNode(n, s) + r, [st] + [en], r);
    assert TokensOf(NormalNode(n)) == [st] + [en];
  }

  /** The text of an element with children or with forced end tags, taken apart. */
  lemma OpenText(n: XNode, s: WriteSettings, r: string)
    requires n.Elem? && (n.kids != [] || s.canonicalEndTags)
    ensures WriteNode(n, s) + r
         == "<" + (QName(n.space, n.tag) + (WriteAttrs(n.attr, s)
            + (TagEnd(false) + (WriteNodes(n.kids, s) + (EndTag(n.space, n.tag) + r)))))
  {
    var q, a, w, e := QName(n.space, n.tag), WriteAttrs(n.attr, s), WriteNodes(n.kids, s), EndTag(n.space, n.tag);
    assert n.kids == [] ==> ">" + w + e == ">" + e;
    assert WriteNode(n, s) == "<" + q + a + (">" + w + e);
    Assoc(("<" + q + a), ">" + w + e, r);
    Assoc4(">", w, e, r);
    Assoc4("<", q, a, ">" + (w + (e + r)));
  }

  lemma LexOpen(n: XNode, s: WriteSettings, r: string)
    requires n.Elem? && NodeFits(n, false) && (n.kids != [] || s.canonicalEndTags)
    requires var t := EndTag(n.space, n.tag) + r;
             Lex(WriteNodes(n.kids, s) + t) == Before(TokensOfAll(Normalize(n.kids)), Lex(t))
    ensures Lex(WriteNode(n, s) + r) == Before(TokensOf(NormalNode(n)), Lex(r))
  {
    var st, en, ks := Start(n.space, n.tag, FixAttrs(n.attr)), End(n.space, n.tag), TokensOfAll(Normalize(n.kids));
    var t, w := EndTag(n.space, n.tag) + r, WriteNodes(n.kids, s);
    ScanWrittenEnd(n.space, n.tag, r);
    LexStep(t, [en], r);
    ScanWrittenStart(n, s, false, w + t);
    OpenText(n, s, r);
    assert [st] + [] == [st];
    LexStep(WriteNode(n, s) + r, [st], w + t);
    BeforeTwice(ks, [en], Lex(r));
    BeforeTwice([st], ks + [en], Lex(r));
    Assoc([st], ks, [en]);
  }

  lemma MarkupStarts(n: XNode, s: WriteSettings, r: string)
    requires !IsText(n)
    ensures EndsText(WriteNode(n, s) + r)
  {
    assert WriteNode(n, s) != "" && WriteNode(n, s)[0] == '<';
  }

  /** Written text and nodes are read as the nodes' normal form. */
  lemma {:induction false} LexNodes(front: string, ns: seq<XNode>, s: WriteSettings, r: string)
    requires TextFits(front, false) && NodesFit(ns, false) && EndsText(r)
    ensures Lex(Escape(front, TextMode(s)) + (WriteNodes(ns, s) + r))
         == Before(TokensOfAll(NormalFrom(front, ns)), Lex(r))
    decreases ns, 0
  {
    var e := Escape(front, TextMode(s));
    if ns == [] {
      assert WriteNodes(ns, s) + r == r;
      LexText(front, s, r);
    } else {
      var w, more := WriteNode(ns[0], s), WriteNodes(ns[1..], s) + r;
      Assoc(w, WriteNodes(ns[1..], s), r);
      if IsText(ns[0]) {
        var d := ns[0].value.data;
        EscapeConcat(front, d, TextMode(s));
        Assoc(e, w, more);
        LexNodes(front + d, ns[1..], s, r);
      } else {
        MarkupStarts(ns[0], s, more);
        LexText(front, s, w + more);
        LexNode(ns[0], s, more);
        LexNodes("", ns[1..], s, r);
        assert Escape("", TextMode(s)) + more == more;
        LexMarkup(front, ns, Lex(r));
      }
    }
  }

  lemma LexMarkup(front: string, ns: seq<XNode>, more: Tokens)
    requires ns != [] && !IsText(ns[0])
    ensures Before(TokensOfAll(TextRun(front)), Before(TokensOf(NormalNode(ns[0])),
              Before(TokensOfAll(NormalFrom("", ns[1..])), more)))
         == Before(TokensOfAll(NormalFrom(front, ns)), more)
  {
    var t, n, rest := TextRun(front), NormalNode(ns[0]), NormalFrom("", ns[1..]);
    TokensOfOne(n);
    TokensConcat(t, [n]);
    TokensConcat(t + [n], rest);
    BeforeTwice(TokensOf(n), TokensOfAll(rest), more);
    BeforeTwice(TokensOfAll(t), TokensOf(n) + TokensOfAll(rest), more);
    Assoc(TokensOfAll(t), TokensOf(n), TokensOfAll(rest));
  }

  /** Decoding what was written gives the tokens of the normal form, and no error. */
  lemma LexWritten(ns: seq<XNode>, s: WriteSettings)
    requires ReadableNodes(ns)
    ensures Lex(WriteNodes(ns, s)) == Tokens(TokensOfAll(Normalize(ns)), true)
  {
    LexNodes("", ns, s, "");
    assert Escape("", TextMode(s)) + (WriteNodes(ns, s) + "") == WriteNodes(ns, s);
    assert TokensOfAll(Normalize(ns)) + [] == TokensOfAll(Normalize(ns));
  }
}
