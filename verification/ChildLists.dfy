/** InsertChild and RemoveChild, with the shift that does not grow the list (etree/etree.go:345-373). */
module ChildLists {
  import opened Basics
  import opened ETree

  ghost function Obj(t: Token): (o: object) {
    if t.ElementToken? then t.e else t.l
  }

  function ParentOf(t: Token): (p: Element?)
    reads Obj(t)
  {
    if t.ElementToken? then t.e.parent else t.l.parent
  }

  method SetParent(t: Token, p: Element?)
    modifies Obj(t)
    ensures ParentOf(t) == p
    ensures t.ElementToken? ==> t.e.child == old(t.e.child)
  {
    if t.ElementToken? {
      t.e.parent := p;
    } else {
      t.l.parent := p;
    }
  }

  /** Without the first occurrence of t. */
  function Dropped<T(==)>(c: seq<T>, t: T): (r: seq<T>) {
    if c == [] then [] else if c[0] == t then c[1..] else [c[0]] + Dropped(c[1..], t)
  }

  /** What the loop leaves: t in the place of ex, the rest one place further, the last one gone. */
  function Inserted<T(==)>(c: seq<T>, ex: Option<T>, t: T): (r: seq<T>) {
    if c == [] then [t]
    else if ex == Some(c[0]) then [t] + c[..|c| - 1]
    else [c[0]] + Inserted(c[1..], ex, t)
  }

  /** What the documentation promises: t before ex, or at the end. */
  function Documented<T(==)>(c: seq<T>, ex: Option<T>, t: T): (r: seq<T>) {
    if c == [] then [t]
    else if ex == Some(c[0]) then [t] + c
    else [c[0]] + Documented(c[1..], ex, t)
  }

  lemma {:induction false} DocumentedKeepsAll<T>(c: seq<T>, ex: Option<T>, t: T)
    ensures multiset(Documented(c, ex, t)) == multiset(c) + multiset{t} && |Documented(c, ex, t)| == |c| + 1
  {
    if c != [] {
      DocumentedKeepsAll(c[1..], ex, t);
      assert c == [c[0]] + c[1..];
    }
  }

  lemma FrontOfCons<T>(x: T, d: seq<T>)
    requires d != []
    ensures ([x] + d)[..|d|] == [x] + d[..|d| - 1]
  {
  }

  /** The list is the documented one without its last child exactly when ex is found. */
  lemma {:induction false} InsertLosesLastExactly<T>(c: seq<T>, ex: Option<T>, t: T)
    ensures var d := Documented(c, ex, t);
            Inserted(c, ex, t) == if ex.Some? && ex.value in c then d[..|d| - 1] else d
  {
    DocumentedKeepsAll(c, ex, t);
    if c != [] {
      assert c == [c[0]] + c[1..];
      if ex == Some(c[0]) {
        FrontOfCons(t, c);
      } else {
        InsertLosesLastExactly(c[1..], ex, t);
        DocumentedKeepsAll(c[1..], ex, t);
        FrontOfCons(c[0], Documented(c[1..], ex, t));
      }
    }
  }

  /** InsertChild does what its documentation says exactly when ex is no child of e. */
  lemma InsertIsDocumentedExactly<T>(c: seq<T>, ex: Option<T>, t: T)
    ensures Inserted(c, ex, t) == Documented(c, ex, t) <==> !(ex.Some? && ex.value in c)
  {
    InsertLosesLastExactly(c, ex, t);
    DocumentedKeepsAll(c, ex, t);
  }

  lemma {:induction false} DroppedAt<T>(c: seq<T>, t: T, i: nat)
    requires i < |c| && c[i] == t && t !in c[..i]
    ensures Dropped(c, t) == c[..i] + c[i + 1..]
  {
    if i > 0 {
      assert c[0] == c[..i][0];
      assert c[1..][..i - 1] == c[..i][1..];
      DroppedAt(c[1..], t, i - 1);
      assert c[1..][i..] == c[i + 1..];
      assert c[..i] == [c[0]] + c[1..][..i - 1];
    }
  }

  lemma {:induction false} DroppedNothing<T>(c: seq<T>, t: T)
    requires t !in c
    ensures Dropped(c, t) == c
  {
    if c != [] {
      DroppedNothing(c[1..], t);
    }
  }

  lemma {:induction false} InsertedAt<T>(c: seq<T>, ex: Option<T>, t: T, i: nat)
    requires i < |c| && ex == Some(c[i]) && c[i] !in c[..i]
    ensures Inserted(c, ex, t) == c[..i] + [t] + c[i..|c| - 1]
  {
    if i > 0 {
      assert c[0] == c[..i][0];
      assert c[1..][..i - 1] == c[..i][1..];
      InsertedAt(c[1..], ex, t, i - 1);
      assert c[1..][i - 1..|c| - 2] == c[i..|c| - 1];
      assert c[..i] == [c[0]] + c[1..][..i - 1];
    }
  }

  lemma {:induction false} InsertedLast<T>(c: seq<T>, ex: Option<T>, t: T)
    requires ex.Some? ==> ex.value !in c
    ensures Inserted(c, ex, t) == c + [t]
  {
    if c != [] {
      InsertedLast(c[1..], ex, t);
      assert c == [c[0]] + c[1..];
    }
  }

  method RemoveChild(e: Element, t: Token) returns (found: bool)
    modifies e`child, Obj(t)
    ensures found == (t in old(e.child)) && e.child == Dropped(old(e.child), t)
    ensures found ==> ParentOf(t) == null
    ensures !found ==> ParentOf(t) == old(ParentOf(t))
    ensures t.ElementToken? && t.e != e ==> t.e.child == old(t.e.child)
  {
    var i := 0;
    while i < |e.child|
      invariant i <= |e.child| && e.child == old(e.child) && t !in e.child[..i]
    {
      if e.child[i] == t {
        DroppedAt(e.child, t, i);
        e.child := e.child[..i] + e.child[i + 1..];
        SetParent(t, null);
        return true;
      }
      i := i + 1;
    }
    DroppedNothing(e.child, t);
    return false;
  }

  /** t first leaves its holder, which may be e itself. */
  method InsertChild(e: Element, ex: Option<Token>, t: Token)
    modifies e`child, Obj(t), (if ParentOf(t) == null then {} else {ParentOf(t)})`child
    ensures ParentOf(t) == e
    ensures old(ParentOf(t)) != e ==> e.child == Inserted(old(e.child), ex, t)
    ensures old(ParentOf(t)) == e ==> e.child == Inserted(Dropped(old(e.child), t), ex, t)
    ensures var p := old(ParentOf(t)); p != null && p != e ==> p.child == Dropped(old(p.child), t)
  {
    ghost var base := if ParentOf(t) == e then Dropped(e.child, t) else e.child;
    var p := ParentOf(t);
    if p != null {
      var found := RemoveChild(p, t);
    }
    ghost var left := if p != null then p.child else [];
    SetParent(t, e);
    var i := 0;
    while i < |e.child|
      invariant i <= |e.child| && e.child == base && (ex.Some? ==> ex.value !in e.child[..i])
      invariant ParentOf(t) == e && (p != null && p != e ==> p.child == left)
    {
      if Some(e.child[i]) == ex {
        InsertedAt(e.child, ex, t, i);
        e.child := e.child[..i] + [t] + e.child[i..|e.child| - 1];
        return;
      }
      i := i + 1;
    }
    InsertedLast(e.child, ex, t);
    e.child := e.child + [t];
  }
}
