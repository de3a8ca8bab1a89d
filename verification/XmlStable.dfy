/**
 What readFrom can build from any text, and when it survives being written and read again
 (etree/etree.go:377-415).
 */
module XmlStable {
  import opened Basics
  import opened Strings
  import opened XmlModel
  import opened XmlDecoder
  import opened XmlLexing
  import opened XmlNormal
  import opened XmlReader

  // --------------------------------------------------- what is scanned

  lemma {:induction false} NameLengthChars(s: string, i: nat)
    requires i < NameLength(s)
    ensures NameChar(s[i])
  {
    if i > 0 {
      NameLengthChars(s[1..], i - 1);
    }
  }

  lemma ScannedNameIsName(s: string)
    requires ScanName(s).Got?
    ensures IsName(ScanName(s).value)
  {
    forall i | 0 <= i < NameLength(s) ensures NameChar(s[i]) {
      NameLengthChars(s, i);
    }
  }

  lemma ColonFree(s: string, n: nat)
    requires n <= |s| && (Index(s, ":") == -1 || n <= Index(s, ":"))
    ensures ':' !in s[..n]
  {
    forall i: nat | i < n ensures s[i] != ':' {
      IndexIsFirst(s, ":", i);
      OccursChar(s, ':', i);
    }
  }

  lemma ScannedQNameIsLegal(s: string)
    requires ScanQName(s).Got?
    ensures LegalName(ScanQName(s).value.0, ScanQName(s).value.1)
  {
    ScannedNameIsName(s);
    var name := ScanName(s).value;
    var i := Index(name, ":");
    var (space, local) := ScanQName(s).value;
    if space != "" {
      ColonFree(name, i);
      ColonFree(local, |local|);
      assert local[..|local|] == local;
      assert QName(space, local) == name;
    }
  }

  lemma {:induction false} ScannedTextFits(s: string, quote: Option<char>)
    requires ScanText(s, quote).Got?
    ensures TextFits(ScanText(s, quote).value, false)
    decreases |s|
  {
    if s == "" || s[0] == '<' || quote == Some(s[0]) {
    } else if s[0] == '&' {
      ScannedTextFits(s[Reference(s).value.1..], quote);
    } else if s[0] == '\r' {
      ScannedTextFits(s[CrLength(s)..], quote);
    } else {
      ScannedTextFits(s[1..], quote);
    }
  }

  lemma {:induction false} ScannedCDataFits(s: string)
    requires ScanCData(s).Got?
    ensures TextFits(ScanCData(s).value, false)
    decreases |s|
  {
    if "]]>" <= s {
    } else if s[0] == '\r' {
      ScannedCDataFits(s[CrLength(s)..]);
    } else {
      ScannedCDataFits(s[1..]);
    }
  }

  lemma ScannedAttrFits(s: string)
    requires ScanAttr(s).Got?
    ensures AttrFits(ScanAttr(s).value, false)
  {
    ScannedQNameIsLegal(s);
    var s2 := SkipBlank(SkipBlank(ScanQName(s).rest)[1..]);
    ScannedTextFits(s2[1..], Some(s2[0]));
  }

  lemma {:induction false} ScannedAttrsFit(s: string)
    requires ScanAttrs(s).Got?
    ensures AttrsFit(ScanAttrs(s).value.0, false)
    decreases |s|
  {
    var s1 := SkipBlank(s);
    if s1[0] != '/' && s1[0] != '>' {
      ScannedAttrFits(s1);
      var a, rest := ScanAttr(s1).value, ScanAttr(s1).rest;
      ScannedAttrsFit(rest);
      var more := ScanAttrs(rest).value.0;
      assert ([a] + more)[1..] == more;
    }
  }

  lemma CutHasNoPair(s: string, sub: string, i: nat)
    requires |sub| == 2 && Index(s, sub) == i
    ensures forall k: nat :: !Occurs(s[..i], sub, k)
  {
    forall k: nat ensures !Occurs(s[..i], sub, k) {
      if k < i {
        IndexIsFirst(s, sub, k);
      }
      OccursFront(s, i, sub, k);
    }
  }

  lemma ScannedCommentIsLegal(s: string)
    requires Index(s, "--") >= 0
    ensures LegalComment(s[..Index(s, "--")])
  {
    var i := Index(s, "--");
    CutHasNoPair(s, "--", i);
    OccursPair(s, '-', '-', i);
    if i > 0 {
      IndexIsFirst(s, "--", i - 1);
      OccursPair(s, '-', '-', i - 1);
    }
  }

  lemma ScannedInstIsLegal(s: string)
    requires Index(s, "?>") >= 0 && (s != "" ==> !IsBlank(s[0]))
    ensures LegalInst(s[..Index(s, "?>")])
  {
    CutHasNoPair(s, "?>", Index(s, "?>"));
  }

  // ------------------------------------------------------------------ directives

  /** A character of a directive that is not changed on the way, behind an open bracket. */
  lemma DirectiveChar(s: string, depth: nat, c: char)
    requires DirectiveText(s, None, depth).Got? && depth > 0
    requires c == '!' || c == '-'
    requires var v := DirectiveText(s, None, depth).value; v != "" && v[0] == c
    ensures s[0] == c && DirectiveText(s, None, depth) == Prepend(c, DirectiveText(s[1..], None, depth))
  {
  }

  lemma PrependTail(c: char, r: Scan<string>)
    requires r.Got?
    ensures Prepend(c, r).value[0] == c && Prepend(c, r).value[1..] == r.value
  {
  }

  /** What is kept of a directive starts a comment only where the text did. */
  lemma NoNewComment(s: string, depth: nat)
    requires DirectiveText(s, None, depth).Got? && depth > 0
    ensures "!--" <= DirectiveText(s, None, depth).value + ">" ==> "!--" <= s
  {
    var v := DirectiveText(s, None, depth).value + ">";
    if "!--" <= v {
      assert v[0] == '!' && v[1] == '-' && v[2] == '-';
      DirectiveChar(s, depth, '!');
      PrependTail('!', DirectiveText(s[1..], None, depth));
      DirectiveChar(s[1..], depth, '-');
      PrependTail('-', DirectiveText(s[1..][1..], None, depth));
      DirectiveChar(s[1..][1..], depth, '-');
    }
  }

  /** The text and state behind the first character of a directive, or behind a comment. */
  function DirectiveNext(s: string, quote: Option<char>, depth: nat): (r: (string, Option<char>, nat))
    requires DirectiveText(s, quote, depth).Got? && !(quote.None? && s[0] == '>' && depth == 0)
    ensures |r.0| < |s| && DirectiveText(r.0, r.1, r.2).Got?
  {
    if quote.Some? then (s[1..], if quote.value == s[0] then None else quote, depth)
    else if s[0] == '>' then (s[1..], None, depth - 1)
    else if s[0] == '"' || s[0] == '\'' then (s[1..], Some(s[0]), depth)
    else if "<!--" <= s then (s[Index(s[4..], "-->") + 7..], None, depth)
    else (s[1..], None, if s[0] == '<' then depth + 1 else depth)
  }

  /** The first character kept; a comment leaves a blank. */
  function FirstKept(s: string, quote: Option<char>): (c: char)
    requires s != ""
  {
    if quote.None? && "<!--" <= s then ' ' else s[0]
  }

  lemma FirstStep(s: string, quote: Option<char>, depth: nat)
    requires DirectiveText(s, quote, depth).Got? && !(quote.None? && s[0] == '>' && depth == 0)
    ensures var (rest, q, d) := DirectiveNext(s, quote, depth);
            DirectiveText(s, quote, depth) == Prepend(FirstKept(s, quote), DirectiveText(rest, q, d))
  {
    if quote.None? && "<!--" <= s {
      CommentStep(s, depth);
    } else if quote.None? {
      OpenStep(s, depth);
    }
  }

  lemma CommentStep(s: string, depth: nat)
    requires DirectiveText(s, None, depth).Got? && "<!--" <= s
    ensures DirectiveText(s, None, depth) == Prepend(' ', DirectiveText(s[Index(s[4..], "-->") + 7..], None, depth))
  {
  }

  lemma OpenStep(s: string, depth: nat)
    requires DirectiveText(s, None, depth).Got? && !("<!--" <= s) && !(s[0] == '>' && depth == 0)
    ensures var (rest, q, d) := DirectiveNext(s, None, depth);
            DirectiveText(s, None, depth) == Prepend(s[0], DirectiveText(rest, q, d))
  {
  }

  /** The character kept leads to the same state as the text it came from. */
  lemma SettledStep(s: string, quote: Option<char>, depth: nat, u: string)
    requires DirectiveText(s, quote, depth).Got? && !(quote.None? && s[0] == '>' && depth == 0)
    requires quote.None? && s[0] == '<' && !("<!--" <= s) ==> !("!--" <= u)
    ensures var (_, q, d) := DirectiveNext(s, quote, depth);
            DirectiveText([FirstKept(s, quote)] + u, quote, depth)
            == Prepend(FirstKept(s, quote), DirectiveText(u, q, d))
  {
    var c := FirstKept(s, quote);
    var t := [c] + u;
    assert t[0] == c && t[1..] == u;
    if "<!--" <= t {
      assert t[0] == '<' && t[1] == '!' && t[2] == '-' && t[3] == '-';
      assert "!--" <= u;
    }
  }

  /** A directive that was read is read again as it is. */
  lemma {:induction false} DirectiveSettles(s: string, quote: Option<char>, depth: nat)
    requires DirectiveText(s, quote, depth).Got?
    ensures DirectiveText(DirectiveText(s, quote, depth).value + ">", quote, depth)
         == Got(DirectiveText(s, quote, depth).value, "")
    decreases |s|
  {
    if quote.None? && s[0] == '>' && depth == 0 {
      assert "" + ">" == ">" && ">"[1..] == "";
    } else {
      var (rest, q, d) := DirectiveNext(s, quote, depth);
      DirectiveSettles(rest, q, d);
      var r := DirectiveText(rest, q, d);
      if quote.None? && s[0] == '<' && !("<!--" <= s) {
        MarkIsKept(s, rest);
        NoNewComment(rest, d);
      }
      FirstStep(s, quote, depth);
      SettledStep(s, quote, depth, r.value + ">");
      Assoc([FirstKept(s, quote)], r.value, ">");
    }
  }

  lemma MarkIsKept(s: string, rest: string)
    requires s != "" && s[0] == '<' && rest == s[1..]
    ensures "!--" <= rest ==> "<!--" <= s
  {
  }

  lemma ScannedDirectiveIsLegal(c: char, s: string)
    requires c != '-' && c != '[' && DirectiveText(s, None, 0).Got?
    ensures LegalDirective([c] + DirectiveText(s, None, 0).value)
  {
    DirectiveSettles(s, None, 0);
    assert ([c] + DirectiveText(s, None, 0).value)[1..] == DirectiveText(s, None, 0).value;
  }

  // ---------------------------------------------------------------------- tokens

  ghost predicate TokenFits(t: XToken) {
    match t
    case Start(space, tag, attr) => LegalName(space, tag) && AttrsFit(attr, false)
    case End(_, _) => true
    case Data(v) => LeafFits(v, false)
  }

  ghost predicate TokensFit(ts: seq<XToken>) {
    forall t :: t in ts ==> TokenFits(t)
  }

  lemma DeclaredFits(s: string)
    requires ScanDeclared(s).Got?
    ensures TokensFit(ScanDeclared(s).value)
  {
    if s[0] == '-' {
      ScannedCommentIsLegal(s[2..]);
    } else if s[0] == '[' {
      ScannedCDataFits(s[7..]);
    } else {
      ScannedDirectiveIsLegal(s[0], s[1..]);
    }
  }

  lemma ItemFits(s: string)
    requires s != "" && ScanItem(s).Got?
    ensures TokensFit(ScanItem(s).value)
  {
    if s[0] != '<' {
      ScannedTextFits(s, None);
    } else if s[1] == '?' {
      var u := SkipBlank(ScanName(s[2..]).rest);
      ScannedNameIsName(s[2..]);
      ScannedInstIsLegal(u);
    } else if s[1] == '!' {
      DeclaredFits(s[2..]);
    } else if s[1] != '/' {
      ScannedQNameIsLegal(s[1..]);
      ScannedAttrsFit(ScanQName(s[1..]).rest);
    }
  }

  /** Whatever is decoded, accepted or not, the tokens can be written. */
  lemma {:induction false} LexIsReadable(s: string)
    ensures TokensFit(Lex(s).list)
    decreases |s|
  {
    if s != "" && ScanItem(s).Got? {
      LexIsReadable(ScanItem(s).rest);
      ItemFits(s);
    }
  }

  // ----------------------------------------------------------------------- trees

  lemma {:induction false} FitsSnoc(ns: seq<XNode>, n: XNode)
    requires ReadableNodes(ns) && NodeFits(n, false)
    ensures ReadableNodes(ns + [n])
  {
    if ns == [] {
      assert ns + [n] == [n];
      assert [n][1..] == [];
    } else {
      FitsSnoc(ns[1..], n);
      assert (ns + [n])[1..] == ns[1..] + [n];
    }
  }

  lemma {:induction false} FitsParts(ns: seq<XNode>, k: nat, strict: bool)
    requires NodesFit(ns, strict) && k < |ns|
    ensures NodesFit(ns[..k], strict) && NodeFits(ns[k], strict)
  {
    if k > 0 {
      FitsParts(ns[1..], k - 1, strict);
      assert ns[..k][1..] == ns[1..][..k - 1];
    }
  }

  lemma {:induction false} GraftFits(root: XNode, d: nat, n: XNode)
    requires Spine(root, d) && ReadableNodes(root.kids) && NodeFits(n, false)
    ensures ReadableNodes(Graft(root, d, n).kids)
    decreases d
  {
    if d == 0 {
      FitsSnoc(root.kids, n);
    } else {
      var k := |root.kids| - 1;
      FitsParts(root.kids, k, false);
      GraftFits(root.kids[k], d - 1, n);
      FitsSnoc(root.kids[..k], Graft(root.kids[k], d - 1, n));
    }
  }

  lemma {:induction false} PutFits(attr: seq<Attr>, a: Attr)
    requires AttrsFit(attr, false) && AttrFits(a, false)
    ensures AttrsFit(PutAttr(attr, a), false)
  {
    if attr == [] {
      assert [a][1..] == [];
    } else if attr[0].space == a.space && attr[0].key == a.key {
      assert PutAttr(attr, a)[1..] == attr[1..];
    } else {
      PutFits(attr[1..], a);
      assert PutAttr(attr, a)[1..] == PutAttr(attr[1..], a);
    }
  }

  lemma {:induction false} PutAllFits(attr: seq<Attr>, more: seq<Attr>)
    requires AttrsFit(attr, false) && AttrsFit(more, false) && UniqueKeys(attr)
    ensures AttrsFit(PutAttrs(attr, more), false) && UniqueKeys(PutAttrs(attr, more))
    decreases |more|
  {
    if more != [] {
      PutFits(attr, more[0]);
      PutKeepsUnique(attr, more[0]);
      PutAllFits(PutAttr(attr, more[0]), more[1..]);
    }
  }

  lemma StepFits(st: Reading, t: XToken)
    requires Sound(st) && st.root.Elem? && ReadableNodes(st.root.kids) && TokenFits(t)
    ensures Step(st, t).root.Elem? && ReadableNodes(Step(st, t).root.kids)
  {
    if st.Open? {
      match t
      case Data(v) => GraftFits(st.root, st.depth, Leaf(v));
      case End(_, _) =>
      case Start(space, tag, attr) =>
        PutAllFits([], attr);
        GraftFits(st.root, st.depth, Elem(space, tag, PutAttrs([], attr), []));
    }
  }

  lemma {:induction false} ReadFits(st: Reading, ts: seq<XToken>)
    requires Sound(st) && st.root.Elem? && ReadableNodes(st.root.kids) && TokensFit(ts)
    ensures var r := ReadAll(st, ts).root;
            && r.Elem? && ReadableNodes(r.kids)
            && r.space == st.root.space && r.tag == st.root.tag && r.attr == st.root.attr
    decreases |ts|
  {
    if ts != [] {
      StepFits(st, ts[0]);
      ReadFits(Step(st, ts[0]), ts[1..]);
    }
  }

  /** Whatever a new document is read from, it can be written and read again. */
  lemma ReadIsReadable(s: string)
    ensures var doc := ReadFrom(NEW_DOCUMENT, s).root;
            doc.Elem? && ReadableNodes(doc.kids) && doc == NEW_DOCUMENT.(kids := doc.kids)
  {
    LexIsReadable(s);
    ReadFits(Open(NEW_DOCUMENT, 0), Lex(s).list);
  }

  /**
   For every text and every setting: writing the document read from it and reading that again gives
   the document's normal form.  That is the same document if and only if it is legal: no carriage
   return, no empty text, and no two text tokens side by side.
   */
  lemma ReadWriteReadExactly(s: string, settings: WriteSettings)
    ensures ReadFrom(NEW_DOCUMENT, s).root.Elem?
    ensures var doc := ReadFrom(NEW_DOCUMENT, s).root;
            var again := ReadFrom(NEW_DOCUMENT, WriteNodes(doc.kids, settings));
            && again == Accepted(NEW_DOCUMENT.(kids := Normalize(doc.kids)))
            && (again == Accepted(doc) <==> LegalNodes(doc.kids))
  {
    ReadIsReadable(s);
    var doc := ReadFrom(NEW_DOCUMENT, s).root;
    WriteReadNormalizes(doc.kids, settings);
    NormalExactly(doc.kids);
  }

  /** The second time nothing changes any more. */
  lemma SecondWriteIsStable(s: string, settings: WriteSettings, again: WriteSettings)
    ensures var doc := ReadFrom(NEW_DOCUMENT, s).root;
            && doc.Elem?
            && var doc' := ReadFrom(NEW_DOCUMENT, WriteNodes(doc.kids, settings)).root;
            doc'.Elem? && ReadFrom(NEW_DOCUMENT, WriteNodes(doc'.kids, again)) == Accepted(doc')
  {
    ReadWriteReadExactly(s, settings);
    ReadIsReadable(s);
    var doc := ReadFrom(NEW_DOCUMENT, s).root;
    NormalExactly(doc.kids);
    WriteReadRoundTrip(Normalize(doc.kids), again);
  }
}
