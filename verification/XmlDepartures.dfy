/** Two texts that do not survive being read, written and read again (etree/etree.go:377-415, 684-702). */
module XmlDepartures {
  import opened Basics
  import opened Strings
  import opened XmlModel
  import opened XmlDecoder
  import opened XmlLexing
  import opened XmlNormal
  import opened XmlReader

  /** A document that holds one element with the given children. */
  function Holding(tag: string, kids: seq<XNode>): (doc: XNode) {
    NEW_DOCUMENT.(kids := [Elem("", tag, [], kids)])
  }

  function Text(d: string): (n: XNode) {
    Leaf(CharData(d, IsWhitespace(d)))
  }

  // ------------------------------------------------------------------ one element

  function Enclosed(tag: string, body: string): (xml: string) {
    "<" + (tag + (">" + (body + EndTag("", tag))))
  }

  lemma IsEnclosed(tag: string, body: string)
    ensures "<" + tag + ">" + body + "</" + tag + ">" == Enclosed(tag, body)
  {
    assert EndTag("", tag) == "</" + tag + ">";
    Assoc("<" + tag + ">" + body, "</" + tag, ">");
    Assoc("<" + tag + ">" + body, "</", tag);
    Assoc4("<", tag, ">", body + ("</" + tag + ">"));
    Assoc("<" + tag + ">", body, "</" + tag + ">");
  }

  lemma OneLetter(tag: string)
    requires tag == "a"
    ensures LegalName("", tag)
  {
    CharIsNowhere(tag, ':');
  }

  lemma LexHolding(tag: string, body: string, kids: seq<XNode>)
    requires LegalName("", tag)
    requires Lex(body + EndTag("", tag)) == Before(TokensOfAll(kids), Lex(EndTag("", tag)))
    ensures Lex(Enclosed(tag, body)) == Tokens(TokensOf(Elem("", tag, [], kids)), true)
  {
    var st, en, e, ks := Start("", tag, []), End("", tag), EndTag("", tag), TokensOfAll(kids);
    var s := WriteSettings(false, false, false);
    var n := Elem("", tag, [], kids);
    assert WriteAttrs([], s) + (TagEnd(false) + (body + e)) == ">" + (body + e);
    ScanWrittenStart(n, s, false, body + e);
    assert [st] + [] == [st];
    LexStep(Enclosed(tag, body), [st], body + e);
    ScanWrittenEnd("", tag, "");
    assert e + "" == e;
    LexStep(e, [en], "");
    BeforeTwice(ks, [en], Lex(""));
    BeforeTwice([st], ks + [en], Lex(""));
    Assoc([st], ks, [en]);
    assert TokensOf(n) + [] == TokensOf(n);
  }

  lemma ReadHolding(tag: string, body: string, kids: seq<XNode>)
    requires LegalName("", tag)
    requires Lex(body + EndTag("", tag)) == Before(TokensOfAll(kids), Lex(EndTag("", tag)))
    requires ReadableNodes(kids)
    ensures ReadFrom(NEW_DOCUMENT, Enclosed(tag, body)) == Accepted(Holding(tag, kids))
            && ReadableNodes(Holding(tag, kids).kids)
  {
    LexHolding(tag, body, kids);
    var ns := Holding(tag, kids).kids;
    assert ns[1..] == [];
    TokensOfOne(ns[0]);
    ReadTopNodes(NEW_DOCUMENT, ns);
    assert [] + ns == ns;
    AcceptedAs(Enclosed(tag, body), TokensOfAll(ns), Holding(tag, kids));
  }

  lemma NormalHolding(tag: string, kids: seq<XNode>, kids': seq<XNode>)
    requires Normalize(kids) == kids'
    ensures Normalize(Holding(tag, kids).kids) == Holding(tag, kids').kids
  {
    var ns := Holding(tag, kids).kids;
    var n := NormalNode(ns[0]);
    assert n == Elem("", tag, [], kids');
    assert NormalFrom("", ns[1..]) == [] && TextRun("") == [];
    assert [] + [n] + [] == [n];
  }

  /** Text as it is read and written, where that can be seen character by character. */
  lemma PlainChar(s: string)
    requires s != "" && XmlChar(s[0]) && s[0] != '<' && s[0] != '&' && s[0] != '\r' && s[0] != ']'
    ensures ScanText(s, None) == Prepend(s[0], ScanText(s[1..], None))
  {
  }

  // --------------------------------------------------------------- a reference

  lemma ScanReference(s: string)
    requires "&#13;" <= s
    ensures ScanText(s, None) == Prepend('\r', ScanText(s[5..], None))
  {
    assert s[0] == '&' && s[1] == '#' && s[2] == '1' && s[3] == '3' && s[4] == ';';
    var d := s[2..];
    assert d[1..][0] == '3' && d[1..][1..][0] == ';';
    assert Digits(d[1..][1..], false, 13) == (13, 0);
    assert Digits(d[1..], false, 1) == (13, 1);
    assert Digits(d, false, 0) == (13, 2);
    assert Numeric(s) == Some(('\r', 5));
  }

  lemma LexReference(s: string, tail: string, d: string)
    requires s == "x&#13;y" + tail && tail != "" && tail[0] == '<' && d == "x\ry"
    ensures Lex(s) == Before([TextToken(d)], Lex(tail))
  {
    var t, u := s[1..], s[6..];
    assert t[5..] == u && u[1..] == tail;
    PlainChar(s);
    ScanReference(t);
    PlainChar(u);
    assert ScanText(tail, None) == Got("", tail);
    assert "x" + ("\r" + ("y" + "")) == d;
    LexStep(s, [TextToken(d)], tail);
  }

  lemma FixXry(s: string)
    requires s == "x\ry"
    ensures FixCr(s) == "x\ny"
  {
    var t, u := s[1..], s[2..];
    assert t[1..] == u && u[1..] == "";
    assert FixCr(u) == "y";
    assert FixCr(t) == "\n" + "y";
  }

  lemma NormalText(d: string, kids: seq<XNode>)
    requires d != "" && kids == [Text(d)]
    ensures Normalize(kids) == [Text(FixCr(d))]
  {
    assert "" + d == d;
    assert NormalFrom(d, kids[1..]) == TextRun(d);
  }

  /**
   A carriage return that comes from a reference is kept in the document, written raw, and read as a
   newline.
   */
  lemma ReferenceIsNotKept(tag: string, body: string, d: string, d': string, settings: WriteSettings)
    requires tag == "a" && body == "x&#13;y" && d == "x\ry" && d' == "x\ny"
    ensures var doc := Holding(tag, [Text(d)]);
            && ReadFrom(NEW_DOCUMENT, "<" + tag + ">" + body + "</" + tag + ">") == Accepted(doc)
            && ReadFrom(NEW_DOCUMENT, WriteNodes(doc.kids, settings)) == Accepted(Holding(tag, [Text(d')]))
  {
    IsEnclosed(tag, body);
    OneLetter(tag);
    ReferenceIsRead(tag, body, d);
    var kids := [Text(d)];
    WriteReadNormalizes(Holding(tag, kids).kids, settings);
    FixXry(d);
    NormalText(d, kids);
    NormalHolding(tag, kids, [Text(d')]);
  }

  lemma ReferenceIsRead(tag: string, body: string, d: string)
    requires LegalName("", tag) && body == "x&#13;y" && d == "x\ry"
    ensures ReadFrom(NEW_DOCUMENT, Enclosed(tag, body)) == Accepted(Holding(tag, [Text(d)]))
    ensures ReadableNodes(Holding(tag, [Text(d)]).kids)
  {
    var e := EndTag("", tag);
    LexReference(body + e, e, d);
    TokensOfOne(Text(d));
    TextIsReadable(d);
    ReadHolding(tag, body, [Text(d)]);
  }

  // ------------------------------------------------------------ a CDATA section

  lemma ScanSection(s: string, tail: string, d: string)
    requires s == "<![CDATA[y]]>" + tail && d == "y"
    ensures ScanItem(s) == Got([TextToken(d)], tail)
  {
    var t, u := s[2..], s[9..];
    assert t[7..] == u && u[1..][3..] == tail;
    assert "[CDATA[" <= t && t[0] == '[';
    assert "]]>" <= u[1..] && u[0] == 'y';
    assert ScanCData(u[1..]) == Got("", tail);
    assert ScanCData(u) == Got("y" + "", tail) && "y" + "" == d;
    assert ScanDeclared(t) == Got([TextToken(d)], tail);
    assert s[0] == '<' && s[1] == '!';
  }

  lemma LexSection(s: string, tail: string, c: string, d: string)
    requires s == "x<![CDATA[y]]>" + tail && c == "x" && d == "y"
    ensures Lex(s) == Before([TextToken(c)] + [TextToken(d)], Lex(tail))
  {
    var t := s[1..];
    assert t == "<![CDATA[y]]>" + tail;
    PlainChar(s);
    assert ScanText(t, None) == Got("", t);
    assert ScanText(s, None) == Got("x" + "", t) && "x" + "" == c;
    LexStep(s, [TextToken(c)], t);
    ScanSection(t, tail, d);
    LexStep(t, [TextToken(d)], tail);
    BeforeTwice([TextToken(c)], [TextToken(d)], Lex(tail));
  }

  /** A CDATA section beside text is a second token of text, and comes back as one with it. */
  lemma SectionIsMerged(tag: string, body: string, c: string, d: string, settings: WriteSettings)
    requires tag == "a" && body == "x<![CDATA[y]]>" && c == "x" && d == "y"
    ensures var doc := Holding(tag, [Text(c), Text(d)]);
            && ReadFrom(NEW_DOCUMENT, "<" + tag + ">" + body + "</" + tag + ">") == Accepted(doc)
            && ReadFrom(NEW_DOCUMENT, WriteNodes(doc.kids, settings)) == Accepted(Holding(tag, [Text(c + d)]))
  {
    IsEnclosed(tag, body);
    OneLetter(tag);
    SectionIsRead(tag, body, c, d);
    var kids := [Text(c), Text(d)];
    WriteReadNormalizes(Holding(tag, kids).kids, settings);
    FixCrOfFixed(c + d);
    NormalPair(c, d, kids);
    NormalHolding(tag, kids, [Text(c + d)]);
  }

  lemma TokensOfText(d: string)
    ensures TokensOf(Text(d)) == [TextToken(d)]
  {
  }

  lemma TextIsReadable(d: string)
    requires TextFits(d, false)
    ensures ReadableNodes([Text(d)])
  {
    assert [Text(d)][1..] == [];
  }

  lemma TextsAreReadable(c: string, d: string)
    requires TextFits(c, false) && TextFits(d, false)
    ensures ReadableNodes([Text(c), Text(d)])
  {
    assert [Text(c), Text(d)][1..] == [Text(d)] && [Text(d)][1..] == [];
  }

  lemma SectionTokens(body: string, tail: string, c: string, d: string)
    requires body == "x<![CDATA[y]]>" && c == "x" && d == "y"
    ensures Lex(body + tail) == Before(TokensOfAll([Text(c), Text(d)]), Lex(tail))
  {
    LexSection(body + tail, tail, c, d);
    TokensOfTwo(Text(c), Text(d));
    TokensOfText(c);
    TokensOfText(d);
  }

  lemma SectionIsRead(tag: string, body: string, c: string, d: string)
    requires LegalName("", tag) && body == "x<![CDATA[y]]>" && c == "x" && d == "y"
    ensures ReadFrom(NEW_DOCUMENT, Enclosed(tag, body)) == Accepted(Holding(tag, [Text(c), Text(d)]))
    ensures ReadableNodes(Holding(tag, [Text(c), Text(d)]).kids)
  {
    SectionTokens(body, EndTag("", tag), c, d);
    TextsAreReadable(c, d);
    ReadHolding(tag, body, [Text(c), Text(d)]);
  }

  lemma TokensOfTwo(a: XNode, b: XNode)
    ensures TokensOfAll([a, b]) == TokensOf(a) + TokensOf(b)
  {
    assert [a, b][1..] == [b];
    TokensOfOne(b);
  }

  lemma NormalPair(c: string, d: string, kids: seq<XNode>)
    requires c != "" && kids == [Text(c), Text(d)]
    ensures Normalize(kids) == [Text(FixCr(c + d))]
  {
    assert "" + c == c;
    assert NormalFrom(c + d, kids[1..][1..]) == TextRun(c + d);
    assert NormalFrom(c, kids[1..]) == TextRun(c + d);
  }
}
