/** What the write settings change in the text produced (etree/etree.go:39-52, 606-642, 705-720, 768-776). */
module XmlWriting {
  import opened Basics
  import opened XmlModel

  /** How many characters of s are in the set. */
  function Count(s: string, cs: set<char>): (n: nat)
  {
    if s == "" then 0 else (if s[0] in cs then 1 else 0) + Count(s[1..], cs)
  }

  lemma {:induction false} CountConcat(s: string, t: string, cs: set<char>)
    ensures Count(s + t, cs) == Count(s, cs) + Count(t, cs)
  {
    if s == "" {
      assert s + t == t;
    } else {
      CountConcat(s[1..], t, cs);
      assert (s + t)[1..] == s[1..] + t;
    }
  }

  /** The characters a setting replaces. */
  ghost predicate Replaces(m: Escaping, cs: set<char>) {
    cs == match m
          case Normal => {'&', '<', '>', '"', '\''}
          case CanonicalText => {'&', '<', '>'}
          case CanonicalAttrVal => {'&', '<', '"'}
  }

  lemma EscapedCharHides(c: char, m: Escaping, cs: set<char>, d: char)
    requires Replaces(m, cs) && d in cs && d != '&'
    ensures d !in EscapeChar(c, m)
  {
  }

  lemma EscapedCharCounts(c: char, m: Escaping, cs: set<char>)
    requires Replaces(m, cs)
    ensures Count(EscapeChar(c, m), {'&'}) == if c in cs then 1 else 0
  {
    var e := EscapeChar(c, m);
    assert Count(e, {'&'}) == (if e[0] == '&' then 1 else 0) + Count(e[1..], {'&'});
    NoReference(e[1..]);
  }

  lemma {:induction false} NoReference(s: string)
    requires '&' !in s
    ensures Count(s, {'&'}) == 0
  {
    if s != "" {
      NoReference(s[1..]);
    }
  }

  lemma {:induction false} EscapedExactly(s: string, m: Escaping, cs: set<char>, d: char)
    requires Replaces(m, cs) && d in cs && d != '&'
    ensures d !in Escape(s, m)
    ensures Count(Escape(s, m), {'&'}) == Count(s, cs)
  {
    if s != "" {
      EscapedCharHides(s[0], m, cs, d);
      EscapedCharCounts(s[0], m, cs);
      EscapedExactly(s[1..], m, cs, d);
      CountConcat(EscapeChar(s[0], m), Escape(s[1..], m), {'&'});
    }
  }

  /**
   In text, exactly one reference is written for each &, < and >, and without CanonicalText for each
   quote and apostrophe too, and none of those characters stands for itself.
   */
  lemma TextReferencesExactly(d: string, w: bool, s: WriteSettings)
    ensures var cs := if s.canonicalText then {'&', '<', '>'} else {'&', '<', '>', '"', '\''};
            var out := WriteLeaf(CharData(d, w), s);
            Count(out, {'&'}) == Count(d, cs) && forall c :: c in cs && c != '&' ==> c !in out
  {
    var m := if s.canonicalText then CanonicalText else Normal;
    var cs := if s.canonicalText then {'&', '<', '>'} else {'&', '<', '>', '"', '\''};
    forall c | c in cs && c != '&' ensures c !in Escape(d, m) {
      EscapedExactly(d, m, cs, c);
    }
    EscapedExactly(d, m, cs, '<');
  }

  /** x is the value as it is written between the quotes. */
  ghost predicate WrittenValue(a: Attr, s: WriteSettings, x: string) {
    WriteAttr(a, s) == QName(a.space, a.key) + "=\"" + x + "\""
  }

  /** In attribute values it is &, < and ", and without CanonicalAttrVal also > and the apostrophe. */
  lemma ValueReferencesExactly(a: Attr, s: WriteSettings) returns (x: string)
    ensures WrittenValue(a, s, x)
    ensures var cs := if s.canonicalAttrVal then {'&', '<', '"'} else {'&', '<', '>', '"', '\''};
            Count(x, {'&'}) == Count(a.value, cs) && forall c :: c in cs && c != '&' ==> c !in x
  {
    var m := if s.canonicalAttrVal then CanonicalAttrVal else Normal;
    var cs := if s.canonicalAttrVal then {'&', '<', '"'} else {'&', '<', '>', '"', '\''};
    x := Escape(a.value, m);
    forall c | c in cs && c != '&' ensures c !in x {
      EscapedExactly(a.value, m, cs, c);
    }
    EscapedExactly(a.value, m, cs, '<');
  }

  ghost predicate EndsWith(s: string, end: string) {
    |end| <= |s| && s[|s| - |end|..] == end
  }

  lemma TailEndsWith(s: string, end: string)
    ensures EndsWith(s + end, end)
  {
  }

  lemma EndTagBehind(open: string, inside: string, end: string)
    ensures EndsWith(open + (">" + inside + end), end)
  {
    Assoc(open, ">" + inside, end);
    TailEndsWith(open + (">" + inside), end);
  }

  lemma EmptyElement(n: XNode, s: WriteSettings, open: string, end: string)
    requires n.Elem? && n.kids == [] && end == EndTag(n.space, n.tag)
    requires open == "<" + QName(n.space, n.tag) + WriteAttrs(n.attr, s)
    ensures WriteNode(n, s) == open + if s.canonicalEndTags then ">" + end else "/>"
  {
  }

  lemma FilledElement(n: XNode, s: WriteSettings, open: string, end: string)
    requires n.Elem? && n.kids != [] && end == EndTag(n.space, n.tag)
    requires open == "<" + QName(n.space, n.tag) + WriteAttrs(n.attr, s)
    ensures WriteNode(n, s) == open + (">" + WriteNodes(n.kids, s) + end)
  {
  }

  /** An element without children closes itself, unless CanonicalEndTags asks for an end tag. */
  lemma EndTagsExactly(n: XNode, s: WriteSettings, open: string, end: string)
    requires n.Elem? && end == "</" + QName(n.space, n.tag) + ">"
    requires open == "<" + QName(n.space, n.tag) + WriteAttrs(n.attr, s)
    ensures n.kids != [] || s.canonicalEndTags ==> EndsWith(WriteNode(n, s), end)
    ensures n.kids == [] && s.canonicalEndTags ==> WriteNode(n, s) == open + (">" + end)
    ensures n.kids == [] && !s.canonicalEndTags ==> WriteNode(n, s) == open + "/>"
  {
    if n.kids == [] {
      EmptyElement(n, s, open, end);
      EndTagBehind(open, "", end);
      assert ">" + "" == ">";
    } else {
      FilledElement(n, s, open, end);
      EndTagBehind(open, WriteNodes(n.kids, s), end);
    }
  }
}
