/** What written documents come back as, and which of them come back as they are (etree/etree.go:377-415, 606-642). */
module XmlNormal {
  import opened Basics
  import opened XmlModel
  import opened XmlDecoder
  import opened XmlLexing

  lemma {:induction false} FixCrFits(s: string)
    requires TextFits(s, false)
    ensures TextFits(FixCr(s), true) && (FixCr(s) == "" <==> s == "")
  {
    if s != "" {
      FixCrFits(if s[0] == '\r' then s[CrLength(s)..] else s[1..]);
    }
  }

  lemma {:induction false} FixCrOfFixed(s: string)
    requires TextFits(s, true)
    ensures FixCr(s) == s
  {
    if s != "" {
      FixCrOfFixed(s[1..]);
    }
  }

  lemma {:induction false} FixAttrsFit(attr: seq<Attr>)
    requires AttrsFit(attr, false)
    ensures AttrsFit(FixAttrs(attr), true)
  {
    if attr != [] {
      FixCrFits(attr[0].value);
      FixAttrsFit(attr[1..]);
      assert FixAttrs(attr)[1..] == FixAttrs(attr[1..]);
    }
  }

  lemma {:induction false} FixAttrsOfFixed(attr: seq<Attr>)
    requires AttrsFit(attr, true)
    ensures FixAttrs(attr) == attr
  {
    if attr != [] {
      FixCrOfFixed(attr[0].value);
      FixAttrsOfFixed(attr[1..]);
    }
  }

  lemma {:induction false} FixAttrsAt(attr: seq<Attr>, i: nat)
    requires i < |attr|
    ensures FixAttrs(attr)[i] == FixAttr(attr[i])
  {
    if i > 0 {
      FixAttrsAt(attr[1..], i - 1);
    }
  }

  lemma FixAttrsUnique(attr: seq<Attr>)
    requires UniqueKeys(attr)
    ensures UniqueKeys(FixAttrs(attr))
  {
    var r := FixAttrs(attr);
    forall i, j | 0 <= i < j < |r| ensures r[i].space != r[j].space || r[i].key != r[j].key {
      FixAttrsAt(attr, i);
      FixAttrsAt(attr, j);
    }
  }

  /** A list in front of which text is put. */
  lemma TextRunFits(front: string, ns: seq<XNode>)
    requires TextFits(front, false) && NodesFit(ns, true) && (ns != [] ==> !IsText(ns[0]))
    ensures NodesFit(TextRun(front) + ns, true)
  {
    FixCrFits(front);
    var all := TextRun(front) + ns;
    if front == "" {
      assert all == ns;
    } else {
      assert all[1..] == ns;
    }
  }

  lemma {:induction false} NormalIsLegal(n: XNode)
    requires NodeFits(n, false) && !IsText(n)
    ensures NodeFits(NormalNode(n), true) && !IsText(NormalNode(n))
    decreases n, 1
  {
    if n.Elem? {
      FixAttrsFit(n.attr);
      FixAttrsUnique(n.attr);
      NormalFromIsLegal("", n.kids);
    }
  }

  lemma {:induction false} NormalFromIsLegal(front: string, ns: seq<XNode>)
    requires TextFits(front, false) && NodesFit(ns, false)
    ensures NodesFit(NormalFrom(front, ns), true)
    decreases ns, 0
  {
    if ns == [] {
      TextRunFits(front, []);
      assert TextRun(front) + [] == TextRun(front);
    } else if IsText(ns[0]) {
      NormalFromIsLegal(front + ns[0].value.data, ns[1..]);
    } else {
      NormalIsLegal(ns[0]);
      NormalFromIsLegal("", ns[1..]);
      var rest := [NormalNode(ns[0])] + NormalFrom("", ns[1..]);
      assert rest[1..] == NormalFrom("", ns[1..]);
      TextRunFits(front, rest);
      Assoc(TextRun(front), [NormalNode(ns[0])], NormalFrom("", ns[1..]));
    }
  }

  lemma {:induction false} NormalOfLegal(n: XNode)
    requires NodeFits(n, true) && !IsText(n)
    ensures NormalNode(n) == n
    decreases n, 1
  {
    if n.Elem? {
      FixAttrsOfFixed(n.attr);
      NormalizeOfLegal(n.kids);
    }
  }

  lemma {:induction false} NormalizeOfLegal(ns: seq<XNode>)
    requires NodesFit(ns, true)
    ensures Normalize(ns) == ns
    decreases ns, 0
  {
    if ns != [] {
      if IsText(ns[0]) {
        var d := ns[0].value.data;
        FixCrOfFixed(d);
        assert "" + d == d && TextRun(d) == [ns[0]];
        NormalizeOfLegal(ns[1..]);
        TextBeforeMarkup(d, ns[1..]);
      } else {
        NormalOfLegal(ns[0]);
        NormalizeOfLegal(ns[1..]);
        assert TextRun("") + [ns[0]] + ns[1..] == ns;
      }
    }
  }

  lemma TextBeforeMarkup(front: string, ns: seq<XNode>)
    requires ns != [] ==> !IsText(ns[0])
    ensures NormalFrom(front, ns) == TextRun(front) + Normalize(ns)
  {
    if ns == [] {
      assert TextRun(front) + TextRun("") == TextRun(front);
    } else {
      var rest := NormalFrom("", ns[1..]);
      Assoc(TextRun(front), [NormalNode(ns[0])], rest);
      assert TextRun("") + [NormalNode(ns[0])] + rest == [NormalNode(ns[0])] + rest;
    }
  }

  /** Exactly the legal documents are in normal form. */
  lemma NormalExactly(ns: seq<XNode>)
    requires ReadableNodes(ns)
    ensures LegalNodes(Normalize(ns))
    ensures Normalize(ns) == ns <==> LegalNodes(ns)
  {
    NormalFromIsLegal("", ns);
    if LegalNodes(ns) {
      NormalizeOfLegal(ns);
    }
  }

  lemma {:induction false} LegalIsReadable(n: XNode)
    requires NodeFits(n, true)
    ensures NodeFits(n, false)
    decreases n, 1
  {
    if n.Elem? {
      LegalAttrsFit(n.attr);
      LegalAllReadable(n.kids);
    }
  }

  lemma {:induction false} LegalAttrsFit(attr: seq<Attr>)
    requires AttrsFit(attr, true)
    ensures AttrsFit(attr, false)
  {
    if attr != [] {
      LegalAttrsFit(attr[1..]);
    }
  }

  lemma {:induction false} LegalAllReadable(ns: seq<XNode>)
    requires LegalNodes(ns)
    ensures ReadableNodes(ns)
    decreases ns, 0
  {
    if ns != [] {
      LegalIsReadable(ns[0]);
      LegalAllReadable(ns[1..]);
    }
  }
}
