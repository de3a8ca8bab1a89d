/** What the stack loop of readFrom builds (etree/etree.go:377-415), and the round trip through text. */
module XmlReader {
  import opened Basics
  import opened Strings
  import opened XmlModel
  import opened XmlDecoder
  import opened XmlLexing
  import opened XmlNormal

  // -------------------------------------------------------------- the right spine

  /** Following last children d times stays on elements: the stack of open elements. */
  predicate Spine(root: XNode, d: nat)
    decreases d
  {
    root.Elem? && (d > 0 ==> root.kids != [] && Spine(root.kids[|root.kids| - 1], d - 1))
  }

  /** A new last child for the open element at depth d. */
  function Graft(root: XNode, d: nat, n: XNode): (r: XNode)
    requires Spine(root, d)
    ensures r.Elem? && r.space == root.space && r.tag == root.tag && r.attr == root.attr
    ensures Spine(r, d)
    decreases d
  {
    if d == 0 then root.(kids := root.kids + [n])
    else
      var k := |root.kids| - 1;
      root.(kids := root.kids[..k] + [Graft(root.kids[k], d - 1, n)])
  }

  lemma {:induction false} GraftDeepens(root: XNode, d: nat, n: XNode)
    requires Spine(root, d) && n.Elem?
    ensures Spine(Graft(root, d, n), d + 1)
    decreases d
  {
    if d > 0 {
      GraftDeepens(root.kids[|root.kids| - 1], d - 1, n);
    }
  }

  lemma {:induction false} SpineShortens(root: XNode, d: nat, c: nat)
    requires Spine(root, d) && c <= d
    ensures Spine(root, c)
    decreases d
  {
    if c > 0 {
      SpineShortens(root.kids[|root.kids| - 1], d - 1, c - 1);
    }
  }

  /** Adding a child to the element just added. */
  lemma {:induction false} GraftInto(root: XNode, d: nat, n: XNode, k: XNode)
    requires Spine(root, d) && n.Elem?
    ensures Spine(Graft(root, d, n), d + 1)
    ensures Graft(Graft(root, d, n), d + 1, k) == Graft(root, d, n.(kids := n.kids + [k]))
    decreases d
  {
    GraftDeepens(root, d, n);
    var g := Graft(root, d, n);
    var last := |root.kids| - 1;
    if d == 0 {
      assert g.kids[..|g.kids| - 1] == root.kids;
    } else {
      GraftInto(root.kids[last], d - 1, n, k);
      assert g.kids[..last] == root.kids[..last];
    }
  }

  // --------------------------------------------------------------------- the loop

  /**
   The loop's state: the tree built so far with the depth of the innermost open element; the stack
   popped empty; or a token met on an empty stack.
   */
  datatype Reading = Open(root: XNode, depth: nat) | Drained(root: XNode) | Refused(root: XNode)

  predicate Sound(st: Reading) {
    st.Open? ==> Spine(st.root, st.depth)
  }

  function Step(st: Reading, t: XToken): (r: Reading)
    requires Sound(st)
    ensures Sound(r)
  {
    match st
    case Drained(root) => Refused(root)
    case Refused(root) => Refused(root)
    case Open(root, d) =>
      match t
      case Data(v) => Open(Graft(root, d, Leaf(v)), d)
      case End(_, _) =>
        if d == 0 then Drained(root) else SpineShortens(root, d, d - 1); Open(root, d - 1)
      case Start(space, tag, attr) =>
        var n := Elem(space, tag, PutAttrs([], attr), []);
        GraftDeepens(root, d, n);
        Open(Graft(root, d, n), d + 1)
  }

  function ReadAll(st: Reading, ts: seq<XToken>): (r: Reading)
    requires Sound(st)
    ensures Sound(r)
    decreases |ts|
  {
    if ts == [] then st else ReadAll(Step(st, ts[0]), ts[1..])
  }

  /** How readFrom ends: no error, ErrXML, or the decoder's error.  The tree is built in each case. */
  datatype ReadResult = Accepted(root: XNode) | InvalidXml(root: XNode) | SyntaxError(root: XNode)

  function ReadFrom(root: XNode, s: string): (r: ReadResult)
    requires root.Elem?
  {
    var lexed := Lex(s);
    var st := ReadAll(Open(root, 0), lexed.list);
    if st.Refused? then InvalidXml(st.root)
    else if lexed.ok then Accepted(st.root)
    else SyntaxError(st.root)
  }

  /** A new document: an element without a name. */
  const NEW_DOCUMENT: XNode := Elem("", "", [], [])

  // ------------------------------------------------------------- the round trip

  lemma {:induction false} ReadConcat(st: Reading, a: seq<XToken>, b: seq<XToken>)
    requires Sound(st)
    ensures ReadAll(st, a + b) == ReadAll(ReadAll(st, a), b)
    decreases |a|
  {
    if a == [] {
      assert a + b == b;
    } else {
      ReadConcat(Step(st, a[0]), a[1..], b);
      assert (a + b)[1..] == a[1..] + b;
    }
  }

  lemma ReadOne(st: Reading, t: XToken)
    requires Sound(st)
    ensures ReadAll(st, [t]) == Step(st, t)
  {
    assert [t][1..] == [];
  }

  lemma ReadBetween(st: Reading, a: XToken, ks: seq<XToken>, b: XToken)
    requires Sound(st)
    ensures ReadAll(st, [a] + ks + [b]) == Step(ReadAll(Step(st, a), ks), b)
  {
    ReadOne(st, a);
    ReadConcat(st, [a], ks);
    ReadConcat(st, [a] + ks, [b]);
    ReadOne(ReadAll(Step(st, a), ks), b);
  }

  /** A start tag opens an element without children. */
  lemma StepStart(root: XNode, d: nat, n: XNode)
    requires Spine(root, d) && n.Elem? && UniqueKeys(n.attr) && n.kids == []
    ensures Spine(Graft(root, d, n), d + 1)
    ensures Step(Open(root, d), Start(n.space, n.tag, n.attr)) == Open(Graft(root, d, n), d + 1)
  {
    assert [] + n.attr == n.attr;
    PutUniqueAttrs([], n.attr);
    GraftDeepens(root, d, n);
  }

  lemma StepEnd(root: XNode, d: nat, n: XNode)
    requires Spine(root, d) && n.Elem?
    ensures Spine(Graft(root, d, n), d + 1)
    ensures Step(Open(Graft(root, d, n), d + 1), End(n.space, n.tag)) == Open(Graft(root, d, n), d)
  {
    GraftDeepens(root, d, n);
  }

  /** Reading the tokens of a tree adds that tree to the innermost open element. */
  lemma {:induction false} ReadNode(root: XNode, d: nat, n: XNode)
    requires Spine(root, d) && NodeFits(n, false)
    ensures ReadAll(Open(root, d), TokensOf(n)) == Open(Graft(root, d, n), d)
    decreases n, 1
  {
    match n
    case Leaf(v) => ReadOne(Open(root, d), Data(v));
    case Elem(space, tag, attr, kids) =>
      var empty := Elem(space, tag, attr, []);
      StepStart(root, d, empty);
      ReadNodes(root, d, empty, kids);
      assert empty.kids + kids == kids;
      StepEnd(root, d, n);
      ReadBetween(Open(root, d), Start(space, tag, attr), TokensOfAll(kids), End(space, tag));
  }

  lemma {:induction false} ReadNodes(root: XNode, d: nat, n: XNode, ns: seq<XNode>)
    requires Spine(root, d) && n.Elem? && ReadableNodes(ns)
    ensures Spine(Graft(root, d, n), d + 1)
    ensures ReadAll(Open(Graft(root, d, n), d + 1), TokensOfAll(ns))
         == Open(Graft(root, d, n.(kids := n.kids + ns)), d + 1)
    decreases ns, 0
  {
    GraftDeepens(root, d, n);
    if ns == [] {
      assert n.kids + ns == n.kids;
    } else {
      ReadNode(Graft(root, d, n), d + 1, ns[0]);
      ReadNodes(root, d, n.(kids := n.kids + [ns[0]]), ns[1..]);
      ReadNext(root, d, n, ns);
    }
  }

  lemma ReadNext(root: XNode, d: nat, n: XNode, ns: seq<XNode>)
    requires Spine(root, d) && n.Elem? && ns != [] && Spine(Graft(root, d, n), d + 1)
    requires ReadAll(Open(Graft(root, d, n), d + 1), TokensOf(ns[0]))
          == Open(Graft(Graft(root, d, n), d + 1, ns[0]), d + 1)
    requires var n' := n.(kids := n.kids + [ns[0]]);
             Spine(Graft(root, d, n'), d + 1)
             && ReadAll(Open(Graft(root, d, n'), d + 1), TokensOfAll(ns[1..]))
                == Open(Graft(root, d, n'.(kids := n'.kids + ns[1..])), d + 1)
    ensures ReadAll(Open(Graft(root, d, n), d + 1), TokensOfAll(ns))
         == Open(Graft(root, d, n.(kids := n.kids + ns)), d + 1)
  {
    GraftInto(root, d, n, ns[0]);
    ReadConcat(Open(Graft(root, d, n), d + 1), TokensOf(ns[0]), TokensOfAll(ns[1..]));
    Shift([], n.kids, ns);
  }

  lemma {:induction false} ReadTopNodes(root: XNode, ns: seq<XNode>)
    requires root.Elem? && ReadableNodes(ns)
    ensures ReadAll(Open(root, 0), TokensOfAll(ns)) == Open(root.(kids := root.kids + ns), 0)
    decreases |ns|
  {
    if ns == [] {
      assert root.kids + ns == root.kids;
    } else {
      ReadNode(root, 0, ns[0]);
      var root' := Graft(root, 0, ns[0]);
      ReadTopNodes(root', ns[1..]);
      ReadConcat(Open(root, 0), TokensOf(ns[0]), TokensOfAll(ns[1..]));
      assert root.kids + [ns[0]] + ns[1..] == root.kids + ns;
    }
  }

  lemma AcceptedAs(xml: string, ts: seq<XToken>, root: XNode)
    requires Lex(xml) == Tokens(ts, true) && ReadAll(Open(NEW_DOCUMENT, 0), ts) == Open(root, 0)
    ensures ReadFrom(NEW_DOCUMENT, xml) == Accepted(root)
  {
  }

  /** Writing any readable document and reading the text gives its normal form, under every setting. */
  lemma WriteReadNormalizes(ns: seq<XNode>, s: WriteSettings)
    requires ReadableNodes(ns)
    ensures ReadFrom(NEW_DOCUMENT, WriteNodes(ns, s)) == Accepted(NEW_DOCUMENT.(kids := Normalize(ns)))
  {
    var r := Normalize(ns);
    NormalExactly(ns);
    LegalAllReadable(r);
    LexWritten(ns, s);
    ReadTopNodes(NEW_DOCUMENT, r);
    assert [] + r == r;
    AcceptedAs(WriteNodes(ns, s), TokensOfAll(r), NEW_DOCUMENT.(kids := r));
  }

  /** Writing and reading a legal document gives the same document, under every setting. */
  lemma WriteReadRoundTrip(ns: seq<XNode>, s: WriteSettings)
    requires LegalNodes(ns)
    ensures ReadFrom(NEW_DOCUMENT, WriteNodes(ns, s)) == Accepted(NEW_DOCUMENT.(kids := ns))
  {
    LegalAllReadable(ns);
    WriteReadNormalizes(ns, s);
    NormalExactly(ns);
  }

  /** A document that can be read comes back as it is exactly when it is legal. */
  lemma RoundTripExactly(ns: seq<XNode>, s: WriteSettings)
    requires ReadableNodes(ns)
    ensures ReadFrom(NEW_DOCUMENT, WriteNodes(ns, s)) == Accepted(NEW_DOCUMENT.(kids := ns)) <==> LegalNodes(ns)
  {
    WriteReadNormalizes(ns, s);
    NormalExactly(ns);
  }

  /** The serializer never writes two legal documents alike, not even under different settings. */
  lemma WriteIsInjective(ms: seq<XNode>, s: WriteSettings, ns: seq<XNode>, t: WriteSettings)
    requires LegalNodes(ms) && LegalNodes(ns) && WriteNodes(ms, s) == WriteNodes(ns, t)
    ensures ms == ns
  {
    WriteReadRoundTrip(ms, s);
    WriteReadRoundTrip(ns, t);
  }

  // ---------------------------------------------------- exactly what is refused

  function Balance(ts: seq<XToken>): (b: int)
  {
    if ts == [] then 0
    else (if ts[0].Start? then 1 else if ts[0].End? then -1 else 0) + Balance(ts[1..])
  }

  /** A proper part of the tokens, from the front, ends more elements than it starts. */
  ghost predicate Overdrawn(d: nat, ts: seq<XToken>) {
    exists k: nat :: k < |ts| && d + Balance(ts[..k]) < 0
  }

  lemma {:induction false} RefusedStays(root: XNode, ts: seq<XToken>)
    ensures ReadAll(Refused(root), ts) == Refused(root)
    decreases |ts|
  {
    if ts != [] {
      RefusedStays(root, ts[1..]);
    }
  }

  lemma BalanceCons(ts: seq<XToken>, k: nat)
    requires 0 < k <= |ts|
    ensures Balance(ts[..k]) == Balance(ts[..1]) + Balance(ts[1..][..k - 1])
  {
    assert ts[..k][1..] == ts[1..][..k - 1];
    assert ts[..1][1..] == [];
  }

  /** The stack is met empty by a token if and only if the tokens before it are overdrawn. */
  lemma {:induction false} RefusedExactly(root: XNode, d: nat, ts: seq<XToken>)
    requires Spine(root, d)
    ensures ReadAll(Open(root, d), ts).Refused? <==> Overdrawn(d, ts)
    decreases |ts|
  {
    if ts != [] {
      var st := Step(Open(root, d), ts[0]);
      assert ts[..1][1..] == [];
      assert ts[..0] == [];
      if st.Open? {
        RefusedExactly(st.root, st.depth, ts[1..]);
        assert st.depth == d + Balance(ts[..1]);
        if k: nat :| k < |ts| && d + Balance(ts[..k]) < 0 {
          BalanceCons(ts, k);
          assert k - 1 < |ts[1..]| && st.depth + Balance(ts[1..][..k - 1]) < 0;
        }
        if k: nat :| k < |ts[1..]| && st.depth + Balance(ts[1..][..k]) < 0 {
          BalanceCons(ts, k + 1);
        }
      } else if |ts| > 1 {
        RefusedStays(root, ts[1..][1..]);
        assert d + Balance(ts[..1]) < 0;
      } else {
        assert forall k: nat :: k < |ts| ==> ts[..k] == [];
      }
    }
  }

  /**
   readFrom answers ErrXML exactly on input whose tokens close an element that was never opened, with
   more to come.
   */
  lemma InvalidXmlExactly(root: XNode, s: string)
    requires root.Elem?
    ensures ReadFrom(root, s).InvalidXml? <==> Overdrawn(0, Lex(s).list)
  {
    RefusedExactly(root, 0, Lex(s).list);
  }
}
