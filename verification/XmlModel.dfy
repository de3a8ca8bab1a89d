/** XML trees as values, and how etree/etree.go writes them. */
module XmlModel {
  import opened Basics

  /** What a token that is not an element holds. */
  datatype LeafValue =
    | CharData(data: string, whitespace: bool)
    | Comment(data: string)
    | Directive(data: string)
    | ProcInst(target: string, inst: string)

  datatype XNode =
    | Elem(space: string, tag: string, attr: seq<Attr>, kids: seq<XNode>)
    | Leaf(value: LeafValue)

  datatype WriteSettings = WriteSettings(canonicalEndTags: bool, canonicalText: bool, canonicalAttrVal: bool)

  /** The three replacers. */
  datatype Escaping = Normal | CanonicalText | CanonicalAttrVal

  function EscapeChar(c: char, m: Escaping): (s: string) {
    if c == '&' then "&amp;"
    else if c == '<' then "&lt;"
    else if c == '>' && m != CanonicalAttrVal then "&gt;"
    else if c == '\'' && m == Normal then "&apos;"
    else if c == '"' && m != CanonicalText then "&quot;"
    else [c]
  }

  function Escape(s: string, m: Escaping): (r: string)
  {
    if s == "" then "" else EscapeChar(s[0], m) + Escape(s[1..], m)
  }

  function QName(space: string, name: string): (s: string) {
    if space != "" then space + ":" + name else name
  }

  function WriteAttr(a: Attr, s: WriteSettings): (r: string) {
    QName(a.space, a.key) + "=\""
    + Escape(a.value, if s.canonicalAttrVal then CanonicalAttrVal else Normal) + "\""
  }

  function WriteAttrs(attr: seq<Attr>, s: WriteSettings): (r: string)
  {
    if attr == [] then "" else " " + WriteAttr(attr[0], s) + WriteAttrs(attr[1..], s)
  }

  function WriteLeaf(v: LeafValue, s: WriteSettings): (r: string) {
    match v
    case CharData(data, _) => Escape(data, if s.canonicalText then CanonicalText else Normal)
    case Comment(data) => "<!--" + data + "-->"
    case Directive(data) => "<!" + data + ">"
    case ProcInst(target, inst) => "<?" + target + (if inst != "" then " " + inst else "") + "?>"
  }

  function EndTag(space: string, tag: string): (r: string) {
    "</" + QName(space, tag) + ">"
  }

  function WriteNode(n: XNode, s: WriteSettings): (r: string)
    decreases n, 1
  {
    match n
    case Leaf(v) => WriteLeaf(v, s)
    case Elem(space, tag, attr, kids) =>
      "<" + QName(space, tag) + WriteAttrs(attr, s)
      + if kids != [] then ">" + WriteNodes(kids, s) + EndTag(space, tag)
        else if s.canonicalEndTags then ">" + EndTag(space, tag)
        else "/>"
  }

  function WriteNodes(ns: seq<XNode>, s: WriteSettings): (r: string)
    decreases ns, 0
  {
    if ns == [] then "" else WriteNode(ns[0], s) + WriteNodes(ns[1..], s)
  }

  /** The character data directly inside an element, put together. */
  function CharsOf(kids: seq<XNode>): (s: string)
  {
    if kids == [] then ""
    else (if kids[0].Leaf? && kids[0].value.CharData? then kids[0].value.data else "") + CharsOf(kids[1..])
  }

  predicate IsText(n: XNode) {
    n.Leaf? && n.value.CharData?
  }

  predicate IsBlank(c: char) {
    c == ' ' || c == '\t' || c == '\n' || c == '\r'
  }

  /** etree/helpers.go: isWhitespace. */
  predicate IsWhitespace(s: string) {
    forall i :: 0 <= i < |s| ==> IsBlank(s[i])
  }

  /** createAttr: replaces the value of an equal key, or appends. */
  function PutAttr(attr: seq<Attr>, a: Attr): (r: seq<Attr>)
  {
    if attr == [] then [a]
    else if attr[0].space == a.space && attr[0].key == a.key then [attr[0].(value := a.value)] + attr[1..]
    else [attr[0]] + PutAttr(attr[1..], a)
  }

  function PutAttrs(attr: seq<Attr>, more: seq<Attr>): (r: seq<Attr>)
    decreases |more|
  {
    if more == [] then attr else PutAttrs(PutAttr(attr, more[0]), more[1..])
  }

  ghost predicate UniqueKeys(attr: seq<Attr>) {
    forall i, j :: 0 <= i < j < |attr| ==> attr[i].space != attr[j].space || attr[i].key != attr[j].key
  }

  lemma {:induction false} PutNewAttr(attr: seq<Attr>, a: Attr)
    requires forall i :: 0 <= i < |attr| ==> attr[i].space != a.space || attr[i].key != a.key
    ensures PutAttr(attr, a) == attr + [a]
  {
    if attr != [] {
      PutNewAttr(attr[1..], a);
    }
  }

  /** Reading back attributes with distinct keys keeps them all, in order. */
  lemma {:induction false} PutUniqueAttrs(attr: seq<Attr>, more: seq<Attr>)
    requires UniqueKeys(attr + more)
    ensures PutAttrs(attr, more) == attr + more
    decreases |more|
  {
    if more == [] {
      assert attr + more == attr;
    } else {
      var all := attr + more;
      assert all[|attr|] == more[0];
      forall i | 0 <= i < |attr| ensures attr[i].space != more[0].space || attr[i].key != more[0].key {
        assert all[i] == attr[i];
      }
      PutNewAttr(attr, more[0]);
      assert attr + [more[0]] + more[1..] == attr + more;
      PutUniqueAttrs(attr + [more[0]], more[1..]);
    }
  }

  predicate HasKey(attr: seq<Attr>, space: string, key: string) {
    attr != [] && ((attr[0].space == space && attr[0].key == key) || HasKey(attr[1..], space, key))
  }

  lemma {:induction false} HasKeyAt(attr: seq<Attr>, space: string, key: string) returns (i: nat)
    requires HasKey(attr, space, key)
    ensures i < |attr| && attr[i].space == space && attr[i].key == key
  {
    if attr[0].space == space && attr[0].key == key {
      i := 0;
    } else {
      i := HasKeyAt(attr[1..], space, key);
      i := i + 1;
    }
  }

  lemma {:induction false} HasKeyOf(attr: seq<Attr>, i: nat)
    requires i < |attr|
    ensures HasKey(attr, attr[i].space, attr[i].key)
  {
    if i > 0 {
      HasKeyOf(attr[1..], i - 1);
    }
  }

  lemma UniqueCons(attr: seq<Attr>)
    requires attr != []
    ensures UniqueKeys(attr) <==> !HasKey(attr[1..], attr[0].space, attr[0].key) && UniqueKeys(attr[1..])
  {
    var h, t := attr[0], attr[1..];
    if HasKey(t, h.space, h.key) {
      var i := HasKeyAt(t, h.space, h.key);
      assert t[i] == attr[i + 1];
    } else if UniqueKeys(t) {
      forall i, j | 0 <= i < j < |attr| ensures attr[i].space != attr[j].space || attr[i].key != attr[j].key {
        HasKeyOf(t, j - 1);
        assert attr[j] == t[j - 1] && (i > 0 ==> attr[i] == t[i - 1]);
      }
    } else {
      var i, j :| 0 <= i < j < |t| && t[i].space == t[j].space && t[i].key == t[j].key;
      assert t[i] == attr[i + 1] && t[j] == attr[j + 1];
    }
  }

  lemma {:induction false} PutHasKey(attr: seq<Attr>, a: Attr, space: string, key: string)
    requires HasKey(PutAttr(attr, a), space, key)
    ensures HasKey(attr, space, key) || (a.space == space && a.key == key)
  {
    if attr != [] && !(attr[0].space == a.space && attr[0].key == a.key) {
      if !(attr[0].space == space && attr[0].key == key) {
        PutHasKey(attr[1..], a, space, key);
      }
    }
  }

  /** Whatever is put, keys stay distinct. */
  lemma {:induction false} PutKeepsUnique(attr: seq<Attr>, a: Attr)
    requires UniqueKeys(attr)
    ensures UniqueKeys(PutAttr(attr, a))
  {
    if attr != [] {
      var r := PutAttr(attr, a);
      UniqueCons(attr);
      UniqueCons(r);
      if attr[0].space == a.space && attr[0].key == a.key {
        assert r[1..] == attr[1..];
      } else {
        PutKeepsUnique(attr[1..], a);
        assert r[1..] == PutAttr(attr[1..], a);
        if HasKey(r[1..], attr[0].space, attr[0].key) {
          PutHasKey(attr[1..], a, attr[0].space, attr[0].key);
        }
      }
    }
  }
}
