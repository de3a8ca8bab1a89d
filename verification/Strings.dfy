/** The string operations the sources lean on, with the laws the models need. */
module Strings {

  /** Go's strings.Split for a one-character separator: always at least one piece. */
  function Split(s: string, sep: char): (ps: seq<string>)
    ensures |ps| >= 1
  {
    if s == "" then [""]
    else
      var rest := Split(s[1..], sep);
      if s[0] == sep then [""] + rest else [[s[0]] + rest[0]] + rest[1..]
  }

  function Join(ps: seq<string>, sep: string): (s: string)
  {
    if ps == [] then ""
    else if |ps| == 1 then ps[0]
    else ps[0] + sep + Join(ps[1..], sep)
  }

  lemma {:induction false} SplitPiece(p: string, sep: char)
    requires sep !in p
    ensures Split(p, sep) == [p]
  {
    if p != "" {
      SplitPiece(p[1..], sep);
      assert [p[0]] + p[1..] == p;
    }
  }

  lemma {:induction false} SplitAfter(p: string, sep: char, rest: string)
    requires sep !in p
    ensures Split(p + [sep] + rest, sep) == [p] + Split(rest, sep)
  {
    var s := p + [sep] + rest;
    if p == "" {
      assert s == [sep] + rest && s[1..] == rest;
    } else {
      SplitAfter(p[1..], sep, rest);
      assert s[1..] == p[1..] + [sep] + rest;
      assert [p[0]] + p[1..] == p;
    }
  }

  /** Splitting undoes joining when no piece holds the separator. */
  lemma {:induction false} SplitJoin(ps: seq<string>, sep: char)
    requires ps != [] && forall i :: 0 <= i < |ps| ==> sep !in ps[i]
    ensures Split(Join(ps, [sep]), sep) == ps
  {
    if |ps| == 1 {
      SplitPiece(ps[0], sep);
    } else {
      SplitJoin(ps[1..], sep);
      SplitAfter(ps[0], sep, Join(ps[1..], [sep]));
      assert [ps[0]] + ps[1..] == ps;
    }
  }

  /** Go's strings.Index: where sub first occurs, or -1. */
  function Index(s: string, sub: string): (i: int)
    ensures -1 <= i && (i >= 0 ==> i + |sub| <= |s| && s[i..i + |sub|] == sub)
  {
    if |sub| <= |s| && s[..|sub|] == sub then 0
    else if s == "" then -1
    else
      var i := Index(s[1..], sub);
      if i < 0 then -1
      else
        assert s[1..][i..i + |sub|] == s[i + 1..i + 1 + |sub|];
        i + 1
  }

  ghost predicate Occurs(s: string, sub: string, i: nat) {
    i + |sub| <= |s| && s[i..i + |sub|] == sub
  }

  lemma OccursShift(s: string, sub: string, i: nat)
    requires s != ""
    ensures Occurs(s[1..], sub, i) <==> Occurs(s, sub, i + 1)
  {
    if i + 1 + |sub| <= |s| {
      assert s[1..][i..i + |sub|] == s[i + 1..i + 1 + |sub|];
    }
  }

  lemma OccursFront(s: string, n: nat, sub: string, i: nat)
    requires n <= |s|
    ensures Occurs(s[..n], sub, i) ==> Occurs(s, sub, i)
  {
    if i + |sub| <= n {
      assert s[..n][i..i + |sub|] == s[i..i + |sub|];
    }
  }

  lemma OccursPair(s: string, a: char, b: char, i: nat)
    ensures Occurs(s, [a, b], i) <==> i + 1 < |s| && s[i] == a && s[i + 1] == b
  {
    if i + 1 < |s| {
      assert s[i..i + 2] == [s[i], s[i + 1]];
    }
  }

  lemma OccursChar(s: string, c: char, i: nat)
    ensures Occurs(s, [c], i) <==> i < |s| && s[i] == c
  {
    if i < |s| {
      assert s[i..i + 1] == [s[i]];
    }
  }

  /** Index finds the first occurrence. */
  lemma {:induction false} IndexFirst(s: string, sub: string, k: nat)
    requires Occurs(s, sub, k) && forall i: nat :: i < k ==> !Occurs(s, sub, i)
    ensures Index(s, sub) == k
  {
    if k > 0 {
      assert !Occurs(s, sub, 0);
      OccursShift(s, sub, k - 1);
      forall i: nat | i < k - 1 ensures !Occurs(s[1..], sub, i) {
        OccursShift(s, sub, i);
      }
      IndexFirst(s[1..], sub, k - 1);
    } else {
      assert s[..|sub|] == s[0..|sub|];
    }
  }

  lemma {:induction false} IndexNone(s: string, sub: string)
    requires forall i: nat :: !Occurs(s, sub, i)
    ensures Index(s, sub) == -1
  {
    assert !Occurs(s, sub, 0);
    if |sub| <= |s| {
      assert s[..|sub|] == s[0..|sub|];
    }
    if s != "" {
      forall i: nat ensures !Occurs(s[1..], sub, i) {
        OccursShift(s, sub, i);
      }
      IndexNone(s[1..], sub);
    }
  }

  /** A character that does not occur in a is found right behind it. */
  lemma CharIsFirst(a: string, c: char, r: string)
    requires c !in a
    ensures Index(a + [c] + r, [c]) == |a|
  {
    var s := a + [c] + r;
    OccursChar(s, c, |a|);
    forall i: nat | i < |a| ensures !Occurs(s, [c], i) {
      OccursChar(s, c, i);
      assert s[i] == a[i];
    }
    IndexFirst(s, [c], |a|);
  }

  lemma CharIsNowhere(s: string, c: char)
    requires c !in s
    ensures Index(s, [c]) == -1
  {
    forall i: nat ensures !Occurs(s, [c], i) {
      OccursChar(s, c, i);
    }
    IndexNone(s, [c]);
  }

  /** So is a pair of characters, unless the first of them could pair with the end of a. */
  lemma PairIsFirst(a: string, x: char, y: char, r: string)
    requires forall i: nat :: !Occurs(a, [x, y], i)
    requires a == "" || x != y || a[|a| - 1] != x
    ensures Index(a + [x, y] + r, [x, y]) == |a|
  {
    var s := a + [x, y] + r;
    OccursPair(s, x, y, |a|);
    forall i: nat | i < |a| ensures !Occurs(s, [x, y], i) {
      OccursPair(s, x, y, i);
      OccursPair(a, x, y, i);
      assert s[i] == a[i] && (i + 1 < |a| ==> s[i + 1] == a[i + 1]);
    }
    IndexFirst(s, [x, y], |a|);
  }

  lemma PairIsNowhere(s: string, x: char, y: char)
    requires x !in s
    ensures Index(s, [x, y]) == -1
  {
    forall i: nat ensures !Occurs(s, [x, y], i) {
      OccursPair(s, x, y, i);
    }
    IndexNone(s, [x, y]);
  }

  /** Nothing occurs before the place Index names, and nothing at all when it names none. */
  lemma {:induction false} IndexIsFirst(s: string, sub: string, k: nat)
    requires Index(s, sub) == -1 || k < Index(s, sub)
    ensures !Occurs(s, sub, k)
    decreases |s|
  {
    if k == 0 {
      if |sub| <= |s| {
        assert s[..|sub|] == s[0..|sub|];
      }
    } else if s != "" {
      IndexIsFirst(s[1..], sub, k - 1);
      OccursShift(s, sub, k - 1);
    }
  }

  predicate IsDigit(c: char) {
    '0' <= c <= '9'
  }

  predicate AllDigits(s: string) {
    forall i :: 0 <= i < |s| ==> IsDigit(s[i])
  }

  function Digit(d: nat): (c: char)
    requires d < 10
    ensures IsDigit(c) && c as int - '0' as int == d
  {
    ('0' as int + d) as char
  }

  /** The decimal digits of a natural number. */
  function Decimal(n: nat): (s: string)
    ensures s != "" && AllDigits(s)
  {
    if n < 10 then [Digit(n)] else Decimal(n / 10) + [Digit(n % 10)]
  }

  /** The number a run of digits stands for. */
  function NatOf(s: string): (n: nat)
    requires AllDigits(s)
  {
    if s == "" then 0 else NatOf(s[..|s| - 1]) * 10 + (s[|s| - 1] as int - '0' as int)
  }

  lemma {:induction false} NatOfDecimal(n: nat)
    ensures NatOf(Decimal(n)) == n
  {
    if n < 10 {
      assert Decimal(n)[..0] == "";
    } else {
      NatOfDecimal(n / 10);
      var s := Decimal(n);
      assert s[..|s| - 1] == Decimal(n / 10);
    }
  }

  /** Different numbers have different digits. */
  lemma DecimalInjective(m: nat, n: nat)
    requires Decimal(m) == Decimal(n)
    ensures m == n
  {
    NatOfDecimal(m);
    NatOfDecimal(n);
  }
}
