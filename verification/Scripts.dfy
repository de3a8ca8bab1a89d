/** What securing the scripts of a process means for its tree (lib/controller/bpmn.go:42-51). */
module Scripts {
  import opened Basics
  import opened XmlModel
  import opened XmlDecoder
  import opened XmlLexing
  import S = XmlStable

  const PREFIX: string := "var java = {}; var execution = {}; "

  predicate IsScript(space: string, tag: string) {
    tag == "script" && (space == "camunda" || space == "bpmn")
  }

  /** SetText(prefix + Text()): the leading text grows, or a new text token comes first. */
  function PrefixKids(kids: seq<XNode>): (r: seq<XNode>) {
    if kids != [] && IsText(kids[0]) then
      [Leaf(CharData(PREFIX + kids[0].value.data, kids[0].value.whitespace))] + kids[1..]
    else [Leaf(CharData(PREFIX, false))] + kids
  }

  /** Every script element, however deep, gets the prefix; nothing else changes. */
  function Secure(n: XNode): (r: XNode)
    decreases n, 1
  {
    match n
    case Leaf(_) => n
    case Elem(space, tag, _, kids) =>
      n.(kids := if IsScript(space, tag) then PrefixKids(SecureAll(kids)) else SecureAll(kids))
  }

  function SecureAll(ns: seq<XNode>): (r: seq<XNode>)
    ensures |r| == |ns|
    decreases ns, 0
  {
    if ns == [] then [] else SecureAll(ns[..|ns| - 1]) + [Secure(ns[|ns| - 1])]
  }

  lemma {:induction false} SecureAt(ns: seq<XNode>, i: nat)
    requires i < |ns|
    ensures SecureAll(ns)[i] == Secure(ns[i])
  {
    if i < |ns| - 1 {
      SecureAt(ns[..|ns| - 1], i);
    }
  }

  lemma {:induction false} SecureTail(ns: seq<XNode>)
    requires ns != []
    ensures SecureAll(ns) == [Secure(ns[0])] + SecureAll(ns[1..])
  {
    var n := |ns| - 1;
    if n == 0 {
      assert ns[..0] == [] && ns[1..] == [];
    } else {
      SecureTail(ns[..n]);
      assert ns[..n][1..] == ns[1..][..n - 1];
    }
  }

  /** The text of an element's own children is not touched by securing them. */
  lemma {:induction false} CharsOfSecured(ns: seq<XNode>)
    ensures CharsOf(SecureAll(ns)) == CharsOf(ns)
  {
    if ns != [] {
      SecureTail(ns);
      CharsOfSecured(ns[1..]);
      assert ([Secure(ns[0])] + SecureAll(ns[1..]))[1..] == SecureAll(ns[1..]);
    }
  }

  lemma CharsOfPrefixed(kids: seq<XNode>)
    ensures CharsOf(PrefixKids(kids)) == PREFIX + CharsOf(kids)
  {
    var r := PrefixKids(kids);
    if kids != [] && IsText(kids[0]) {
      assert r[1..] == kids[1..];
      Assoc(PREFIX, kids[0].value.data, CharsOf(kids[1..]));
    } else {
      assert r[1..] == kids;
    }
  }

  /** The character data of a script element is the prefix and then the old data, exactly once. */
  lemma ScriptIsPrefixed(n: XNode)
    requires n.Elem?
    ensures Secure(n).Elem? && Secure(n).space == n.space && Secure(n).tag == n.tag && Secure(n).attr == n.attr
    ensures CharsOf(Secure(n).kids)
            == (if n.tag == "script" && (n.space == "camunda" || n.space == "bpmn")
                then "var java = {}; var execution = {}; " else "")
               + CharsOf(n.kids)
  {
    CharsOfSecured(n.kids);
    CharsOfPrefixed(SecureAll(n.kids));
    assert "" + CharsOf(n.kids) == CharsOf(n.kids);
  }

  ghost predicate StartsWithText(kids: seq<XNode>) {
    kids != [] && kids[0].Leaf? && kids[0].value.CharData?
  }

  lemma PrefixedKids(kids: seq<XNode>)
    ensures var r, added := PrefixKids(kids), if StartsWithText(kids) then 0 else 1;
            && |r| == |kids| + added
            && (forall i :: 1 - added <= i < |kids| ==> r[i + added] == kids[i])
            && r[0].Leaf? && r[0].value.CharData?
            && r[0].value.whitespace == (StartsWithText(kids) && kids[0].value.whitespace)
  {
  }

  lemma SecuredAt(n: XNode, i: nat)
    requires n.Elem? && i < |n.kids|
    ensures SecureAll(n.kids)[i] == if n.kids[i].Leaf? then n.kids[i] else Secure(n.kids[i])
  {
    SecureAt(n.kids, i);
  }

  /** The children stay, secured themselves; where a script has no leading text, one comes first. */
  lemma SecuredKids(n: XNode, i: nat)
    requires n.Elem? && i < |n.kids|
    ensures var script := n.tag == "script" && (n.space == "camunda" || n.space == "bpmn");
            var added := if script && !StartsWithText(n.kids) then 1 else 0;
            var r := Secure(n).kids;
            && |r| == |n.kids| + added
            && (script ==> r[0].Leaf? && r[0].value.CharData?
                           && r[0].value.whitespace == (added == 0 && n.kids[0].value.whitespace))
            && (!(script && added == 0 && i == 0) ==>
                  r[i + added] == if n.kids[i].Leaf? then n.kids[i] else Secure(n.kids[i]))
  {
    SecuredAt(n, 0);
    SecuredAt(n, i);
    PrefixedKids(SecureAll(n.kids));
  }

  // ------------------------------------------------------------ written and read again

  /** The whitespace flags as a reader would set them. */
  function Reflag(n: XNode): (r: XNode)
    decreases n, 1
  {
    match n
    case Leaf(CharData(data, _)) => Leaf(CharData(data, IsWhitespace(data)))
    case Leaf(_) => n
    case Elem(_, _, _, kids) => n.(kids := ReflagAll(kids))
  }

  function ReflagAll(ns: seq<XNode>): (r: seq<XNode>)
    ensures |r| == |ns|
    decreases ns, 0
  {
    if ns == [] then [] else [Reflag(ns[0])] + ReflagAll(ns[1..])
  }

  /** The flags do not show in the text. */
  lemma {:induction false} ReflagWritesAlike(n: XNode, s: WriteSettings)
    ensures WriteNode(Reflag(n), s) == WriteNode(n, s)
    decreases n, 1
  {
    if n.Elem? {
      ReflagAllWritesAlike(n.kids, s);
    }
  }

  lemma {:induction false} ReflagAllWritesAlike(ns: seq<XNode>, s: WriteSettings)
    ensures WriteNodes(ReflagAll(ns), s) == WriteNodes(ns, s)
    decreases ns, 0
  {
    if ns != [] {
      ReflagWritesAlike(ns[0], s);
      ReflagAllWritesAlike(ns[1..], s);
      assert ReflagAll(ns)[1..] == ReflagAll(ns[1..]);
    }
  }

  lemma PrefixFits(data: string, strict: bool)
    requires TextFits(data, strict)
    ensures TextFits(PREFIX + data, strict) && PREFIX + data != "" && !IsWhitespace(PREFIX + data)
  {
    var s := PREFIX + data;
    assert s[0] == 'v';
    assert TextFits(PREFIX, strict);
  }

  lemma PrefixKidsFit(kids: seq<XNode>, strict: bool)
    requires NodesFit(ReflagAll(kids), strict)
    ensures NodesFit(ReflagAll(PrefixKids(kids)), strict)
  {
    var r := PrefixKids(kids);
    var rest := if kids != [] && IsText(kids[0]) then kids[1..] else kids;
    assert r[1..] == rest;
    var fr := ReflagAll(r);
    assert fr[1..] == ReflagAll(rest);
    if kids != [] {
      assert ReflagAll(kids)[1..] == ReflagAll(kids[1..]);
      if |kids| > 1 {
        assert ReflagAll(kids)[1] == Reflag(kids[1]);
      }
    }
    PrefixFits(if kids != [] && IsText(kids[0]) then kids[0].value.data else "", strict);
    assert PREFIX + "" == PREFIX;
  }

  lemma {:induction false} SecureFits(n: XNode, strict: bool)
    requires NodeFits(n, strict)
    ensures NodeFits(Reflag(Secure(n)), strict) && IsText(Secure(n)) == IsText(n)
    decreases n, 1
  {
    if n.Elem? {
      SecureAllFits(n.kids, strict);
      if IsScript(n.space, n.tag) {
        PrefixKidsFit(SecureAll(n.kids), strict);
      }
    }
  }

  /** A secured document can be read, and comes back as it is if the document did. */
  lemma {:induction false} SecureAllFits(ns: seq<XNode>, strict: bool)
    requires NodesFit(ns, strict)
    ensures NodesFit(ReflagAll(SecureAll(ns)), strict)
    decreases ns, 0
  {
    if ns != [] {
      SecureFits(ns[0], strict);
      SecureAllFits(ns[1..], strict);
      SecureTail(ns);
      var r := SecureAll(ns);
      assert r[1..] == SecureAll(ns[1..]);
      if |ns| > 1 {
        SecureAt(ns, 1);
        SecureFits(ns[1], strict) by {
          S.FitsParts(ns, 1, strict);
        }
      }
    }
  }
}
