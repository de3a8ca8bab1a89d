/** The VidRelation table, which no constraint keeps one-to-one (lib/vid/vid.go, lib/vid/database.go). */
module VidRelation {
  import opened Basics

  type Did = string
  type Vid = string

  datatype Row = Row(did: Did, vid: Vid)

  /** How a remote call ends; Lost: it took effect, but the caller sees an error. */
  datatype Fate = Works | Fails | Lost

  /** How a query ends; Rows(n): n rows arrive, and an early stop is not looked at by the caller. */
  datatype Fetch = Refused | Rows(n: nat)

  /** No two rows share a virtual id or a deployment id. */
  ghost predicate Bijective(rows: seq<Row>) {
    forall i, j :: 0 <= i < j < |rows| ==> rows[i].did != rows[j].did && rows[i].vid != rows[j].vid
  }

  ghost predicate HasVid(rows: seq<Row>, v: Vid) {
    exists r :: r in rows && r.vid == v
  }

  ghost predicate HasDid(rows: seq<Row>, d: Did) {
    exists r :: r in rows && r.did == d
  }

  function DidsOf(rows: seq<Row>, v: Vid): (r: seq<Did>) {
    if rows == [] then []
    else
      var n := |rows| - 1;
      DidsOf(rows[..n], v) + if rows[n].vid == v then [rows[n].did] else []
  }

  function VidsOf(rows: seq<Row>, d: Did): (r: seq<Vid>) {
    if rows == [] then []
    else
      var n := |rows| - 1;
      VidsOf(rows[..n], d) + if rows[n].did == d then [rows[n].vid] else []
  }

  /** The first of the rows that arrive. */
  function FirstOf<T>(found: seq<T>, f: Fetch): (r: Option<Option<T>>) {
    if f.Refused? then None else Some(if found == [] || f.n == 0 then None else Some(found[0]))
  }

  function WithoutDid(rows: seq<Row>, d: Did): (r: seq<Row>) {
    if rows == [] then []
    else (if rows[0].did == d then [] else [rows[0]]) + WithoutDid(rows[1..], d)
  }

  function WithoutVid(rows: seq<Row>, v: Vid): (r: seq<Row>) {
    if rows == [] then []
    else (if rows[0].vid == v then [] else [rows[0]]) + WithoutVid(rows[1..], v)
  }

  function Without(rows: seq<Row>, d: Did, v: Vid): (r: seq<Row>) {
    WithoutVid(WithoutDid(rows, d), v)
  }

  // ------------------------------------------------------------- what the queries mean

  lemma {:induction false} DidsOfMember(rows: seq<Row>, v: Vid, d: Did)
    ensures d in DidsOf(rows, v) <==> Row(d, v) in rows
  {
    if rows != [] {
      var n := |rows| - 1;
      DidsOfMember(rows[..n], v, d);
      assert rows == rows[..n] + [rows[n]];
    }
  }

  lemma {:induction false} VidsOfMember(rows: seq<Row>, v: Vid, d: Did)
    ensures v in VidsOf(rows, d) <==> Row(d, v) in rows
  {
    if rows != [] {
      var n := |rows| - 1;
      VidsOfMember(rows[..n], v, d);
      assert rows == rows[..n] + [rows[n]];
    }
  }

  lemma OneRow(rows: seq<Row>, a: Row, b: Row)
    requires Bijective(rows) && a in rows && b in rows && (a.did == b.did || a.vid == b.vid)
    ensures a == b
  {
    var i :| 0 <= i < |rows| && rows[i] == a;
    var j :| 0 <= j < |rows| && rows[j] == b;
    assert !(i < j) && !(j < i);
  }

  /** In a one-to-one table the lookup by virtual id finds exactly the row. */
  lemma DidIsRow(rows: seq<Row>, v: Vid, d: Did, f: Fetch)
    requires Bijective(rows) && f.Rows? && f.n > 0
    ensures FirstOf(DidsOf(rows, v), f) == Some(Some(d)) <==> Row(d, v) in rows
  {
    var found := DidsOf(rows, v);
    DidsOfMember(rows, v, d);
    if found != [] {
      DidsOfMember(rows, v, found[0]);
      if Row(d, v) in rows {
        OneRow(rows, Row(d, v), Row(found[0], v));
      }
    }
  }

  lemma VidIsRow(rows: seq<Row>, v: Vid, d: Did, f: Fetch)
    requires Bijective(rows) && f.Rows? && f.n > 0
    ensures FirstOf(VidsOf(rows, d), f) == Some(Some(v)) <==> Row(d, v) in rows
  {
    var found := VidsOf(rows, d);
    VidsOfMember(rows, v, d);
    if found != [] {
      VidsOfMember(rows, found[0], d);
      if Row(d, v) in rows {
        OneRow(rows, Row(d, v), Row(d, found[0]));
      }
    }
  }

  /** GetDeploymentId and GetVirtualId are inverse on a one-to-one table. */
  lemma LookupsAreInverse(rows: seq<Row>, v: Vid, d: Did, f: Fetch, g: Fetch)
    requires Bijective(rows) && f.Rows? && f.n > 0 && g.Rows? && g.n > 0
    ensures FirstOf(DidsOf(rows, v), f) == Some(Some(d)) <==> FirstOf(VidsOf(rows, d), g) == Some(Some(v))
  {
    DidIsRow(rows, v, d, f);
    VidIsRow(rows, v, d, g);
  }

  lemma NoDidNoVid(rows: seq<Row>, v: Vid)
    ensures DidsOf(rows, v) == [] <==> !HasVid(rows, v)
  {
    var found := DidsOf(rows, v);
    if found != [] {
      DidsOfMember(rows, v, found[0]);
      assert Row(found[0], v) in rows;
    } else {
      forall r | r in rows ensures r.vid != v {
        DidsOfMember(rows, r.vid, r.did);
      }
    }
  }

  // ------------------------------------------------------------ what the changes keep

  lemma {:induction false} WithoutDidRows(rows: seq<Row>, d: Did)
    ensures forall r :: r in WithoutDid(rows, d) <==> r in rows && r.did != d
    ensures Bijective(rows) ==> Bijective(WithoutDid(rows, d))
  {
    if rows != [] {
      WithoutDidRows(rows[1..], d);
      assert rows == [rows[0]] + rows[1..];
    }
  }

  lemma {:induction false} WithoutVidRows(rows: seq<Row>, v: Vid)
    ensures forall r :: r in WithoutVid(rows, v) <==> r in rows && r.vid != v
    ensures Bijective(rows) ==> Bijective(WithoutVid(rows, v))
  {
    if rows != [] {
      WithoutVidRows(rows[1..], v);
      assert rows == [rows[0]] + rows[1..];
    }
  }

  /** The two deletions take exactly the rows that share an id, and keep a one-to-one table so. */
  lemma WithoutRows(rows: seq<Row>, d: Did, v: Vid)
    ensures forall r :: r in Without(rows, d, v) <==> r in rows && r.did != d && r.vid != v
    ensures Bijective(rows) ==> Bijective(Without(rows, d, v))
  {
    WithoutDidRows(rows, d);
    WithoutVidRows(WithoutDid(rows, d), v);
  }

  /** An insert keeps the table one-to-one exactly when both ids are new. */
  lemma InsertIsBijectiveExactly(rows: seq<Row>, d: Did, v: Vid)
    requires Bijective(rows)
    ensures Bijective(rows + [Row(d, v)]) <==> !HasVid(rows, v) && !HasDid(rows, d)
  {
    var more := rows + [Row(d, v)];
    assert more[|rows|] == Row(d, v);
    if Bijective(more) {
      forall r | r in rows ensures r.vid != v && r.did != d {
        var i :| 0 <= i < |rows| && rows[i] == r;
        assert more[i] == r;
      }
    } else {
      var i, j :| 0 <= i < j < |more| && (more[i].did == more[j].did || more[i].vid == more[j].vid);
      assert j == |rows| && more[i] in rows;
    }
  }

  // ---------------------------------------------------------------------- the two maps

  function ByVid(rows: seq<Row>): (m: map<Vid, Did>) {
    if rows == [] then map[] else var n := |rows| - 1; ByVid(rows[..n])[rows[n].vid := rows[n].did]
  }

  function ByDid(rows: seq<Row>): (m: map<Did, Vid>) {
    if rows == [] then map[] else var n := |rows| - 1; ByDid(rows[..n])[rows[n].did := rows[n].vid]
  }

  datatype Relations = Relations(byVid: map<Vid, Did>, byDid: map<Did, Vid>)

  /** For a one-to-one table each map holds exactly the rows. */
  lemma {:induction false} MapsAreRows(rows: seq<Row>)
    requires Bijective(rows)
    ensures forall d, v :: Row(d, v) in rows <==> v in ByVid(rows) && ByVid(rows)[v] == d
    ensures forall d, v :: Row(d, v) in rows <==> d in ByDid(rows) && ByDid(rows)[d] == v
  {
    if rows != [] {
      var n := |rows| - 1;
      MapsAreRows(rows[..n]);
      assert rows == rows[..n] + [rows[n]];
      InsertIsBijectiveExactly(rows[..n], rows[n].did, rows[n].vid);
    }
  }

  lemma {:induction false} ByDidKeys(rows: seq<Row>)
    ensures forall d :: d in ByDid(rows) <==> HasDid(rows, d)
  {
    if rows != [] {
      var n := |rows| - 1;
      ByDidKeys(rows[..n]);
      assert rows == rows[..n] + [rows[n]];
      assert rows[n] in rows;
      forall d ensures d in ByDid(rows) <==> HasDid(rows, d) {
        if HasDid(rows, d) {
          var r :| r in rows && r.did == d;
          assert r in rows[..n] || r == rows[n];
        } else {
          assert !HasDid(rows[..n], d);
        }
      }
    }
  }

  /** The maps of GetRelations invert each other, also when the rows stop arriving early. */
  lemma RelationsInvert(rows: seq<Row>, n: nat)
    requires Bijective(rows)
    ensures var a, b := ByVid(Arrived(rows, n)), ByDid(Arrived(rows, n));
            (forall v :: v in a ==> a[v] in b && b[a[v]] == v) && (forall d :: d in b ==> b[d] in a && a[b[d]] == d)
  {
    MapsAreRows(Arrived(rows, n));
    var a, b := ByVid(Arrived(rows, n)), ByDid(Arrived(rows, n));
    forall v | v in a ensures a[v] in b && b[a[v]] == v {
      assert Row(a[v], v) in Arrived(rows, n);
    }
    forall d | d in b ensures b[d] in a && a[b[d]] == d {
      assert Row(d, b[d]) in Arrived(rows, n);
    }
  }

  // -------------------------------------------------------------------------- the class

  class Relation {
    var rows: seq<Row>

    constructor ()
      ensures rows == [] && Bijective(rows)
    {
      rows := [];
    }

    method SaveVidRelation(v: Vid, d: Did, f: Fate) returns (ok: bool)
      modifies this
      ensures ok == f.Works? && rows == old(rows) + if f.Fails? then [] else [Row(d, v)]
    {
      if f.Fails? {
        return false;
      }
      rows := rows + [Row(d, v)];
      return f.Works?;
    }

    method VidExists(v: Vid, answered: bool) returns (r: Option<bool>)
      ensures r == if answered then Some(HasVid(rows, v)) else None
    {
      if !answered {
        return None;
      }
      var count := 0;
      for i := 0 to |rows|
        invariant count == |DidsOf(rows[..i], v)|
      {
        assert rows[..i + 1][..i] == rows[..i];
        if rows[i].vid == v {
          count := count + 1;
        }
      }
      assert rows[..|rows|] == rows;
      NoDidNoVid(rows, v);
      return Some(count > 0);
    }

    /** The deletions in an open transaction: the table as it will be once committed. */
    method RemoveVidRelation(v: Vid, d: Did, begun: bool, first: bool, second: bool) returns (pending: Option<seq<Row>>)
      ensures pending == if begun && first && second then Some(Without(rows, d, v)) else None
    {
      if !begun {
        return None;
      }
      if !first {
        return None;
      }
      var left := WithoutDid(rows, d);
      if !second {
        return None;
      }
      left := WithoutVid(left, v);
      return Some(left);
    }

    method Commit(pending: seq<Row>, f: Fate) returns (ok: bool)
      modifies this
      ensures ok == f.Works? && rows == if f.Fails? then old(rows) else pending
    {
      if !f.Fails? {
        rows := pending;
      }
      return f.Works?;
    }

    method GetDeploymentId(v: Vid, f: Fetch) returns (r: Option<Option<Did>>)
      ensures r == FirstOf(DidsOf(rows, v), f)
    {
      if f.Refused? {
        return None;
      }
      var arr := [];
      for i := 0 to |rows|
        invariant arr == Arrived(DidsOf(rows[..i], v), f.n)
      {
        assert rows[..i + 1][..i] == rows[..i];
        if rows[i].vid == v && |arr| < f.n {
          arr := arr + [rows[i].did];
        }
      }
      assert rows[..|rows|] == rows;
      if |arr| >= 1 {
        return Some(Some(arr[0]));
      }
      return Some(None);
    }

    method GetVirtualId(d: Did, f: Fetch) returns (r: Option<Option<Vid>>)
      ensures r == FirstOf(VidsOf(rows, d), f)
    {
      if f.Refused? {
        return None;
      }
      var arr := [];
      for i := 0 to |rows|
        invariant arr == Arrived(VidsOf(rows[..i], d), f.n)
      {
        assert rows[..i + 1][..i] == rows[..i];
        if rows[i].did == d && |arr| < f.n {
          arr := arr + [rows[i].vid];
        }
      }
      assert rows[..|rows|] == rows;
      if |arr| >= 1 {
        return Some(Some(arr[0]));
      }
      return Some(None);
    }

    /** The maps of the rows that arrive; None where a refused query leaves no rows to iterate (a panic). */
    method GetRelations(f: Fetch) returns (r: Option<Relations>)
      ensures r == if f.Refused? then None else Some(Relations(ByVid(Arrived(rows, f.n)), ByDid(Arrived(rows, f.n))))
    {
      if f.Refused? {
        return None;
      }
      var byVid, byDid := map[], map[];
      var i := 0;
      while i < |rows| && i < f.n
        invariant i <= |rows| && i <= f.n && byVid == ByVid(rows[..i]) && byDid == ByDid(rows[..i])
      {
        assert rows[..i + 1][..i] == rows[..i];
        byVid := byVid[rows[i].vid := rows[i].did];
        byDid := byDid[rows[i].did := rows[i].vid];
        i := i + 1;
      }
      assert rows[..i] == Arrived(rows, f.n);
      return Some(Relations(byVid, byDid));
    }
  }

  /** The first n of the rows a query selects. */
  function Arrived<T>(found: seq<T>, n: nat): (r: seq<T>) {
    if |found| <= n then found else found[..n]
  }
}
