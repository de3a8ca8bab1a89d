/** Small vocabulary shared by the XML, path and service models. */
module Basics {

  datatype Option<+T> = None | Some(value: T)

  /** The range of the machine integer. */
  const MAX_INT: int := 0x7fff_ffff_ffff_ffff
  const MIN_INT: int := -0x8000_0000_0000_0000

  /** An XML attribute (etree/etree.go). */
  datatype Attr = Attr(space: string, key: string, value: string)

  /** An empty namespace matches every namespace (etree/helpers.go). */
  predicate SpaceMatch(a: string, b: string) {
    a == "" || a == b
  }

  /** No value occurs at two positions. */
  ghost predicate NoDup<T>(s: seq<T>) {
    forall i, j :: 0 <= i < j < |s| ==> s[i] != s[j]
  }

  /** Keeps the first occurrence of every value, in order. */
  function Dedup<T(==)>(s: seq<T>): (r: seq<T>)
  {
    if s == [] then []
    else
      var r := Dedup(s[..|s| - 1]);
      var x := s[|s| - 1];
      if x in r then r else r + [x]
  }

  /** Dedup has no repeats and neither loses nor invents a value. */
  lemma {:induction false} DedupIsSet<T>(s: seq<T>)
    ensures NoDup(Dedup(s))
    ensures forall x :: x in Dedup(s) <==> x in s
  {
    if s != [] {
      DedupIsSet(s[..|s| - 1]);
      assert s == s[..|s| - 1] + [s[|s| - 1]];
    }
  }

  lemma DedupMember<T>(s: seq<T>, x: T)
    ensures x in Dedup(s) <==> x in s
  {
    DedupIsSet(s);
  }

  /** De-duplicating a prefix early does not change the outcome. */
  lemma {:induction false} DedupPrefix<T>(a: seq<T>, b: seq<T>)
    ensures Dedup(Dedup(a) + b) == Dedup(a + b)
  {
    if b == [] {
      assert Dedup(a) + b == Dedup(a) && a + b == a;
      DedupIsSet(a);
      DedupOfNoDup(Dedup(a));
    } else {
      var n := |b| - 1;
      DedupPrefix(a, b[..n]);
      assert (Dedup(a) + b)[..|Dedup(a) + b| - 1] == Dedup(a) + b[..n];
      assert (a + b)[..|a + b| - 1] == a + b[..n];
    }
  }

  /** A sequence without repeats is its own de-duplication. */
  lemma {:induction false} DedupOfNoDup<T>(s: seq<T>)
    requires NoDup(s)
    ensures Dedup(s) == s
  {
    if s != [] {
      DedupOfNoDup(s[..|s| - 1]);
      assert s == s[..|s| - 1] + [s[|s| - 1]];
    }
  }

  /** Appending one value to a de-duplicated sequence. */
  lemma DedupSnoc<T>(s: seq<T>, x: T)
    ensures Dedup(s + [x]) == if x in Dedup(s) then Dedup(s) else Dedup(s) + [x]
  {
    assert (s + [x])[..|s + [x]| - 1] == s;
  }

  /**
   Dedup keeps first occurrences in their order: it is the only repeat-free sequence with the
   same values whose order is the order of first appearance.
   */
  lemma {:induction false} DedupOrder<T>(s: seq<T>, i: nat, j: nat) returns (p: nat, q: nat)
    requires i < j < |Dedup(s)|
    ensures p < q < |s| && s[p] == Dedup(s)[i] && s[q] == Dedup(s)[j]
    ensures s[p] !in s[..p] && s[q] !in s[..q]
  {
    var t := s[..|s| - 1];
    DedupIsSet(t);
    if j < |Dedup(t)| {
      p, q := DedupOrder(t, i, j);
      assert t[..p] == s[..p] && t[..q] == s[..q];
    } else {
      q := |s| - 1;
      p := FirstIndex(t, Dedup(t)[i]);
      assert t[..p] == s[..p];
    }
  }

  /** Where a value first appears. */
  function FirstIndex<T(==)>(s: seq<T>, x: T): (k: nat)
    requires x in s
    ensures k < |s| && s[k] == x && x !in s[..k]
  {
    if s[0] == x then 0 else 1 + FirstIndex(s[1..], x)
  }

  /** Values that are there already add nothing. */
  lemma {:induction false} DedupAbsorb<T>(a: seq<T>, b: seq<T>)
    requires forall x :: x in b ==> x in a
    ensures Dedup(a + b) == Dedup(a)
  {
    if b == [] {
      assert a + b == a;
    } else {
      var n := |b| - 1;
      DedupAbsorb(a, b[..n]);
      assert a + b == a + b[..n] + [b[n]];
      DedupSnoc(a + b[..n], b[n]);
      DedupMember(a, b[n]);
    }
  }

  lemma {:induction false} DedupSuffix<T>(a: seq<T>, b: seq<T>)
    ensures Dedup(a + Dedup(b)) == Dedup(a + b)
  {
    if b != [] {
      var b', x := b[..|b| - 1], b[|b| - 1];
      DedupSuffix(a, b');
      assert a + b == a + b' + [x];
      DedupSnoc(a + b', x);
      DedupMember(b', x);
      DedupMember(a + b', x);
      if x !in Dedup(b') {
        assert a + Dedup(b) == a + Dedup(b') + [x];
        DedupSnoc(a + Dedup(b'), x);
      }
    }
  }

  /** De-duplication of a concatenation only depends on the de-duplicated parts. */
  lemma DedupCongruent<T>(a: seq<T>, a': seq<T>, b: seq<T>, b': seq<T>)
    requires Dedup(a) == Dedup(a') && Dedup(b) == Dedup(b')
    ensures Dedup(a + b) == Dedup(a' + b')
  {
    DedupPrefix(a, b);
    DedupPrefix(a', b);
    DedupSuffix(a', b);
    DedupSuffix(a', b');
  }

  lemma Assoc<T>(a: seq<T>, b: seq<T>, c: seq<T>)
    ensures a + b + c == a + (b + c)
  {
  }

  lemma Assoc4<T>(a: seq<T>, b: seq<T>, c: seq<T>, d: seq<T>)
    ensures a + b + c + d == a + (b + (c + d))
  {
    Assoc(a + b, c, d);
    Assoc(a, b, c + d);
  }

  lemma Assoc5<T>(a: seq<T>, b: seq<T>, c: seq<T>, d: seq<T>, e: seq<T>)
    ensures a + b + c + d + e == a + (b + (c + (d + e)))
  {
    Assoc(a + b + c, d, e);
    Assoc4(a, b, c, d + e);
  }

  /** Taking a known prefix off. */
  lemma Cut<T>(a: seq<T>, b: seq<T>)
    ensures (a + b)[|a|..] == b && (a + b)[..|a|] == a
  {
  }

  /** Serving a queue `a + b`: the front leaves, the newcomers `c` go behind `b`. */
  lemma Serve<T>(a: seq<T>, b: seq<T>, c: seq<T>)
    requires a != []
    ensures (a + b)[0] == a[0]
    ensures (a + b)[1..] + c == a[1..] + (b + c)
  {
  }

  /** Moving the front of `rest` to the end of `seen`. */
  lemma Shift<T>(c: seq<T>, seen: seq<T>, rest: seq<T>)
    requires rest != []
    ensures c + seen + [rest[0]] == c + (seen + [rest[0]])
    ensures seen + [rest[0]] + rest[1..] == seen + rest
  {
  }

  lemma Snoc<T>(s: seq<T>, n: nat)
    requires n < |s|
    ensures s[..n + 1] == s[..n] + [s[n]] && s[..n + 1][..n] == s[..n]
  {
  }
}
