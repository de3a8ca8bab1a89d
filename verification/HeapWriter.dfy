/** writeTo on objects (etree/etree.go:198-208, 606-642, 704-720, 768-776, 820-930). */
module HeapWriter {
  import opened Basics
  import opened XmlModel
  import opened ETree
  import opened HeapTree

  lemma {:induction false} WriteNodesSnoc(ns: seq<XNode>, n: XNode, s: WriteSettings)
    ensures WriteNodes(ns + [n], s) == WriteNodes(ns, s) + WriteNode(n, s)
    decreases |ns|
  {
    if ns == [] {
      assert ns + [n] == [n] && [n][1..] == [];
      assert WriteNode(n, s) + "" == WriteNode(n, s);
    } else {
      WriteNodesSnoc(ns[1..], n, s);
      assert (ns + [n])[1..] == ns[1..] + [n];
      Assoc(WriteNode(ns[0], s), WriteNodes(ns[1..], s), WriteNode(n, s));
    }
  }

  lemma AttrsAssoc(a: string, b: string, c: string, d: string)
    ensures a + (b + c + d) == a + b + c + d
  {
    Assoc(a, b + c, d);
    Assoc(a, b, c);
  }

  lemma {:induction false} WriteAttrsSnoc(attr: seq<Attr>, a: Attr, s: WriteSettings)
    ensures WriteAttrs(attr + [a], s) == WriteAttrs(attr, s) + " " + WriteAttr(a, s)
    decreases |attr|
  {
    if attr == [] {
      assert attr + [a] == [a] && [a][1..] == [];
    } else {
      WriteAttrsSnoc(attr[1..], a, s);
      assert (attr + [a])[1..] == attr[1..] + [a];
      AttrsAssoc(" " + WriteAttr(attr[0], s), WriteAttrs(attr[1..], s), " ", WriteAttr(a, s));
    }
  }

  lemma EraseUpTo(ts: seq<ITree>, i: nat, s: WriteSettings)
    requires i < |ts|
    ensures WriteNodes(EraseAll(ts[..i + 1]), s) == WriteNodes(EraseAll(ts[..i]), s) + WriteNode(Erase(ts[i]), s)
  {
    Snoc(ts, i);
    AddLast(ts[..i], ts[i]);
    WriteNodesSnoc(EraseAll(ts[..i]), Erase(ts[i]), s);
  }

  method WriteName(space: string, name: string, w: string) returns (r: string)
    ensures r == w + QName(space, name)
  {
    r := w;
    if space != "" {
      r := r + space + ":";
    }
    r := r + name;
  }

  method WriteAttrTo(a: Attr, s: WriteSettings, w: string) returns (r: string)
    ensures r == w + WriteAttr(a, s)
  {
    r := WriteName(a.space, a.key, w);
    r := r + "=\"";
    r := r + Escape(a.value, if s.canonicalAttrVal then CanonicalAttrVal else Normal);
    r := r + "\"";
  }

  method WriteAttrsTo(attr: seq<Attr>, s: WriteSettings, w: string) returns (r: string)
    ensures r == w + WriteAttrs(attr, s)
  {
    r := w;
    for i := 0 to |attr|
      invariant r == w + WriteAttrs(attr[..i], s)
    {
      Snoc(attr, i);
      WriteAttrsSnoc(attr[..i], attr[i], s);
      r := r + " ";
      r := WriteAttrTo(attr[i], s, r);
    }
    assert attr[..|attr|] == attr;
  }

  method WriteLeafTo(l: Leaf, s: WriteSettings, w: string) returns (r: string)
    ensures r == w + WriteLeaf(l.value, s)
  {
    match l.value
    case CharData(data, _) =>
      r := w + Escape(data, if s.canonicalText then CanonicalText else Normal);
    case Comment(data) =>
      r := w + "<!--";
      r := r + data;
      r := r + "-->";
    case Directive(data) =>
      r := w + "<!";
      r := r + data;
      r := r + ">";
    case ProcInst(target, inst) =>
      r := w + "<?";
      r := r + target;
      if inst != "" {
        r := r + " ";
        r := r + inst;
      }
      r := r + "?>";
  }

  method WriteEndTag(e: Element, w: string) returns (r: string)
    ensures r == w + EndTag(e.space, e.tag)
  {
    r := w + "</";
    r := WriteName(e.space, e.tag, r);
    r := r + ">";
  }

  lemma JoinText(w: string, open: string, a: string, b: string, c: string)
    ensures w + open + a + b + c == w + (open + (a + b + c))
  {
    Assoc5(w, open, a, b, c);
    Assoc(a, b, c);
  }

  /** An element writes exactly the text of the tree its objects hold. */
  method WriteElement(e: Element, s: WriteSettings, w: string, ghost t: ITree, ghost p: Element?) returns (r: string)
    requires t.IElem? && t.e == e && Holds(t, p)
    ensures r == w + WriteNode(Erase(t), s)
    ensures Holds(t, p)
    decreases t, 1
  {
    ObjectsExist(t);
    r := WriteOpening(e, s, w);
    ghost var open := "<" + QName(t.space, t.tag) + WriteAttrs(t.attr, s);
    ghost var end := EndTag(t.space, t.tag);
    if |e.child| > 0 {
      r := WriteChildren(e, s, r + ">", t, p);
      r := WriteEndTag(e, r);
      JoinText(w, open, ">", WriteNodes(EraseAll(t.kids), s), end);
    } else if s.canonicalEndTags {
      r := r + ">";
      r := WriteEndTag(e, r);
      Assoc4(w, open, ">", end);
    } else {
      r := r + "/>";
      Assoc(w, open, "/>");
    }
  }

  method WriteOpening(e: Element, s: WriteSettings, w: string) returns (r: string)
    ensures r == w + ("<" + QName(e.space, e.tag) + WriteAttrs(e.attr, s))
  {
    r := w + "<";
    r := WriteName(e.space, e.tag, r);
    r := WriteAttrsTo(e.attr, s, r);
    Assoc4(w, "<", QName(e.space, e.tag), WriteAttrs(e.attr, s));
    Assoc("<", QName(e.space, e.tag), WriteAttrs(e.attr, s));
  }

  /** The children in turn; also the whole of Document.WriteTo. */
  method WriteChildren(e: Element, s: WriteSettings, w: string, ghost t: ITree, ghost p: Element?) returns (r: string)
    requires t.IElem? && t.e == e && Holds(t, p)
    ensures r == w + WriteNodes(EraseAll(t.kids), s)
    ensures Holds(t, p)
    decreases t, 0
  {
    ObjectsExist(t);
    r := w;
    var child := e.child;
    ghost var done := "";
    for i := 0 to |child|
      invariant child == TokensOf(t.kids) && Holds(t, p)
      invariant r == w + done && done == WriteNodes(EraseAll(t.kids[..i]), s)
    {
      KidAt(t.kids, i);
      HeldKid(t.kids, i, e);
      EraseUpTo(t.kids, i, s);
      r := WriteToken(child[i], s, r, t.kids[i], e);
      Assoc(w, done, WriteNode(Erase(t.kids[i]), s));
      done := done + WriteNode(Erase(t.kids[i]), s);
    }
    assert t.kids[..|child|] == t.kids;
  }

  method WriteToken(k: Token, s: WriteSettings, w: string, ghost t: ITree, ghost p: Element?) returns (r: string)
    requires k == TokenOf(t) && Holds(t, p)
    ensures r == w + WriteNode(Erase(t), s)
    decreases t, 2
  {
    match k
    case LeafToken(l) => r := WriteLeafTo(l, s, w);
    case ElementToken(c) => r := WriteElement(c, s, w, t, p);
  }
}
