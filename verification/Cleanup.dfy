/**
 Finding and removing what lost its partner (lib/cleanup: unlinkedvid.go, unlinkedpid.go, removepid.go,
 removevid.go).
 */
module Cleanup {
  import opened Basics
  import opened VidRelation
  import opened Engine
  import opened Saga
  import opened SagaRuns

  /** A deployment as a shard lists it; no time when it cannot be parsed. */
  datatype Listed = Listed(id: Did, time: Option<int>)

  /** What each shard answers; a shard that is no key gives an error. */
  type Listing = map<Address, seq<Listed>>

  ghost predicate Among(listed: seq<Listed>, d: Did) {
    exists x :: x in listed && x.id == d
  }

  ghost predicate Lists(all: Listing, a: Address, d: Did) {
    a in all && Among(all[a], d)
  }

  ghost predicate Mentions(shards: seq<Address>, all: Listing, d: Did) {
    exists a :: a in shards && Lists(all, a, d)
  }

  predicate AllAnswer(shards: seq<Address>, all: Listing) {
    forall i :: 0 <= i < |shards| ==> shards[i] in all
  }

  // -------------------------------------------------------------- virtual ids without deployment

  method IndexShard(listed: seq<Listed>, before: set<Did>) returns (index: set<Did>)
    ensures forall d :: d in index <==> d in before || Among(listed, d)
  {
    index := before;
    for i := 0 to |listed|
      invariant forall d :: d in index <==> d in before || Among(listed[..i], d)
    {
      AmongNext(listed, i);
      index := index + {listed[i].id};
    }
    assert listed[..|listed|] == listed;
  }

  lemma AmongNext(listed: seq<Listed>, i: nat)
    requires i < |listed|
    ensures forall d :: Among(listed[..i + 1], d) <==> Among(listed[..i], d) || d == listed[i].id
  {
    assert listed[..i + 1] == listed[..i] + [listed[i]];
    forall d ensures Among(listed[..i + 1], d) <==> Among(listed[..i], d) || d == listed[i].id {
      assert listed[i] in listed[..i + 1];
      if Among(listed[..i], d) {
        var x :| x in listed[..i] && x.id == d;
        assert x in listed[..i + 1];
      }
    }
  }

  method IndexShards(shards: seq<Address>, all: Listing) returns (r: Option<set<Did>>)
    ensures r.Some? <==> AllAnswer(shards, all)
    ensures r.Some? ==> forall d :: d in r.value <==> Mentions(shards, all, d)
  {
    var index: set<Did> := {};
    for i := 0 to |shards|
      invariant forall j :: 0 <= j < i ==> shards[j] in all
      invariant forall d :: d in index <==> Mentions(shards[..i], all, d)
    {
      if shards[i] !in all {
        return None;
      }
      MentionsNext(shards, all, i);
      index := IndexShard(all[shards[i]], index);
    }
    assert shards[..|shards|] == shards;
    return Some(index);
  }

  lemma MentionsNext(shards: seq<Address>, all: Listing, i: nat)
    requires i < |shards| && shards[i] in all
    ensures forall d ::
              Mentions(shards[..i + 1], all, d) <==> (Mentions(shards[..i], all, d) || Lists(all, shards[i], d))
  {
    assert shards[..i + 1] == shards[..i] + [shards[i]];
    forall d
      ensures Mentions(shards[..i + 1], all, d) <==> (Mentions(shards[..i], all, d) || Lists(all, shards[i], d))
    {
      if Mentions(shards[..i], all, d) {
        var a :| a in shards[..i] && Lists(all, a, d);
        assert a in shards[..i + 1];
      }
      assert shards[i] in shards[..i + 1];
      if Mentions(shards[..i + 1], all, d) {
        var a :| a in shards[..i + 1] && Lists(all, a, d);
        assert a in shards[..i] || a == shards[i];
      }
    }
  }

  /** v has a row whose deployment no shard mentions. */
  ghost predicate Dangling(rows: seq<Row>, shards: seq<Address>, all: Listing, v: Vid) {
    exists r :: r in rows && r.vid == v && !Mentions(shards, all, r.did)
  }

  /** The map by deployment id leads from an unmentioned deployment to v. */
  ghost predicate Unlinked(rows: seq<Row>, shards: seq<Address>, all: Listing, v: Vid) {
    exists d :: d in ByDid(rows) && ByDid(rows)[d] == v && !Mentions(shards, all, d)
  }

  /**
   Lists the virtual ids that the map of the relation gives for deployments on no shard: in a
   one-to-one table every dangling one, and each once; rows are those the relation query delivered.
   An error where there is no shard or one does not answer.
   */
  method FindUnlinkedVid(shards: seq<Address>, all: Listing, rows: seq<Row>) returns (r: Option<seq<Vid>>)
    ensures r.Some? <==> shards != [] && AllAnswer(shards, all)
    ensures r.Some? ==> forall v :: v in r.value <==> Unlinked(rows, shards, all, v)
    ensures r.Some? && Bijective(rows) ==>
              NoDup(r.value) && forall v :: v in r.value <==> Dangling(rows, shards, all, v)
  {
    var byDid := ByDid(rows);
    if |shards| == 0 {
      return None;
    }
    var index := IndexShards(shards, all);
    if index.None? {
      return None;
    }
    var unlinked: seq<Vid> := [];
    var rest := byDid.Keys;
    while rest != {}
      invariant rest <= byDid.Keys && (Bijective(rows) ==> NoDup(unlinked))
      invariant forall v ::
                  v in unlinked <==> exists d :: d in byDid && d !in rest && byDid[d] == v && d !in index.value
      decreases |rest|
    {
      var d :| d in rest;
      if Bijective(rows) {
        NotYet(rows, byDid, d);
        assert byDid[d] !in unlinked;
      }
      rest := rest - {d};
      if d !in index.value {
        unlinked := unlinked + [byDid[d]];
      }
    }
    if Bijective(rows) {
      DanglingIsUnlinked(rows, shards, all);
    }
    return Some(unlinked);
  }

  lemma NotYet(rows: seq<Row>, byDid: map<Did, Vid>, d: Did)
    requires Bijective(rows) && byDid == ByDid(rows) && d in byDid
    ensures forall c :: c in byDid && byDid[c] == byDid[d] ==> c == d
  {
    MapsAreRows(rows);
    forall c | c in byDid && byDid[c] == byDid[d] ensures c == d {
      OneRow(rows, Row(c, byDid[c]), Row(d, byDid[d]));
    }
  }

  lemma DanglingIsUnlinked(rows: seq<Row>, shards: seq<Address>, all: Listing)
    requires Bijective(rows)
    ensures forall v :: Dangling(rows, shards, all, v) <==> Unlinked(rows, shards, all, v)
  {
    MapsAreRows(rows);
    forall v ensures Dangling(rows, shards, all, v) <==> Unlinked(rows, shards, all, v) {
      if Dangling(rows, shards, all, v) {
        var r :| r in rows && r.vid == v && !Mentions(shards, all, r.did);
        assert Row(r.did, r.vid) in rows;
      }
      if Unlinked(rows, shards, all, v) {
        var d :| d in ByDid(rows) && ByDid(rows)[d] == v && !Mentions(shards, all, d);
        assert Row(d, v) in rows;
      }
    }
  }

  // ---------------------------------------------------------------- deployments without virtual id

  predicate Stale(x: Listed, byDid: map<Did, Vid>, now: int, buffer: int) {
    x.time.Some? && x.id !in byDid && now - x.time.value > buffer
  }

  /** The stale deployments of one shard, in the order listed. */
  function StaleIds(listed: seq<Listed>, byDid: map<Did, Vid>, now: int, buffer: int): (r: seq<Did>) {
    if listed == [] then []
    else
      var n := |listed| - 1;
      StaleIds(listed[..n], byDid, now, buffer) + if Stale(listed[n], byDid, now, buffer) then [listed[n].id] else []
  }

  lemma {:induction false} StaleIdsMember(listed: seq<Listed>, byDid: map<Did, Vid>, now: int, buffer: int, d: Did)
    ensures d in StaleIds(listed, byDid, now, buffer)
       <==> exists x :: x in listed && x.id == d && Stale(x, byDid, now, buffer)
  {
    if listed != [] {
      var n := |listed| - 1;
      StaleIdsMember(listed[..n], byDid, now, buffer, d);
      assert listed == listed[..n] + [listed[n]];
      if x :| x in listed && x.id == d && Stale(x, byDid, now, buffer) {
        assert x in listed[..n] || x == listed[n];
      }
    }
  }

  predicate Timed(listed: seq<Listed>) {
    forall i :: 0 <= i < |listed| ==> listed[i].time.Some?
  }

  method FindStale(listed: seq<Listed>, byDid: map<Did, Vid>, now: int, buffer: int) returns (r: Option<seq<Did>>)
    ensures r == if Timed(listed) then Some(StaleIds(listed, byDid, now, buffer)) else None
  {
    var ids := [];
    for i := 0 to |listed|
      invariant Timed(listed[..i]) && ids == StaleIds(listed[..i], byDid, now, buffer)
    {
      assert listed[..i + 1][..i] == listed[..i];
      if listed[i].time.None? {
        return None;
      }
      if listed[i].id !in byDid && now - listed[i].time.value > buffer {
        ids := ids + [listed[i].id];
      }
    }
    assert listed[..|listed|] == listed;
    return Some(ids);
  }

  /** The entry of a shard, where one without entry has nothing to list. */
  function Entry(m: map<Address, seq<Did>>, s: Address): (r: seq<Did>) {
    if s in m then m[s] else []
  }

  /**
   For each shard exactly its deployments without a row and older than the buffer, in the order
   listed.  An error where there is no shard, one does not answer, or a time cannot be parsed.
   */
  method FindUnlinkedPid(shards: seq<Address>, all: Listing, rows: seq<Row>, now: int, buffer: int)
    returns (r: Option<map<Address, seq<Did>>>)
    requires NoDup(shards)
    ensures r.Some? <==> shards != [] && AllAnswer(shards, all) && forall s :: s in shards && s in all ==> Timed(all[s])
    ensures r.Some? ==> forall s :: Entry(r.value, s) ==
                          if s in shards && s in all then StaleIds(all[s], ByDid(rows), now, buffer) else []
  {
    if |shards| == 0 {
      return None;
    }
    var byDid := ByDid(rows);
    var unlinked: map<Address, seq<Did>> := map[];
    for i := 0 to |shards|
      invariant forall j :: 0 <= j < i ==> shards[j] in all && Timed(all[shards[j]])
      invariant forall j :: 0 <= j < i ==> Entry(unlinked, shards[j]) == StaleIds(all[shards[j]], byDid, now, buffer)
      invariant forall s :: s !in shards[..i] ==> Entry(unlinked, s) == []
    {
      if shards[i] !in all {
        return None;
      }
      assert shards[i] !in shards[..i] && shards[..i + 1] == shards[..i] + [shards[i]];
      var ids := FindStale(all[shards[i]], byDid, now, buffer);
      if ids.None? {
        return None;
      }
      if ids.value != [] {
        unlinked := unlinked[shards[i] := ids.value];
      }
    }
    assert shards[..|shards|] == shards;
    return Some(unlinked);
  }

  // --------------------------------------------------------------------- removing all of them

  /** Asking an idle engine: every shard that holds something is asked and lists what it holds, with its age. */
  ghost predicate Quiet(s: Sys, shards: seq<Address>, all: Listing, now: int) {
    && AllAnswer(shards, all)
    && (forall p :: p in s.live ==> p.0 in shards)
    && (forall a :: a in shards && a in all ==>
          Timed(all[a]) && forall x :: x in all[a] ==> (a, x.id) in s.live && x.time.Some? && x.time.value < now)
    && (forall p :: p in s.live && p.0 in shards && p.0 in all ==> exists x :: x in all[p.0] && x.id == p.1)
  }

  /** What RemovePid deletes, in whatever order the map yields its shards. */
  ghost predicate Doomed(pids: map<Address, seq<Did>>, p: (Address, Did)) {
    p.1 in Entry(pids, p.0)
  }

  /** The pids of one shard until one fails; oks tells how the requests end. */
  method RemoveShardPids(c: Camunda, a: Address, pids: seq<Did>, oks: seq<bool>) returns (ok: bool)
    requires |oks| == |pids|
    modifies c
    ensures ok <==> false !in oks
    ensures c.live <= old(c.live) && forall p :: p in old(c.live) && p !in c.live ==> p.0 == a && p.1 in pids
    ensures ok ==> forall p :: p in c.live ==> !(p.0 == a && p.1 in pids)
  {
    for i := 0 to |pids|
      invariant false !in oks[..i]
      invariant c.live <= old(c.live) && forall p :: p in old(c.live) && p !in c.live ==> p.0 == a && p.1 in pids
      invariant forall p :: p in c.live ==> !(p.0 == a && p.1 in pids[..i])
    {
      if !oks[i] {
        return false;
      }
      assert pids[..i + 1] == pids[..i] + [pids[i]];
      assert oks[..i + 1] == oks[..i] + [oks[i]];
      c.live := c.live - {(a, pids[i])};
    }
    assert pids[..|pids|] == pids && oks[..|oks|] == oks;
    return true;
  }

  /** Removes nothing but what is listed, and when it reports success all of that. */
  method RemovePid(c: Camunda, pids: map<Address, seq<Did>>, oks: map<Address, seq<bool>>) returns (ok: bool)
    requires forall a :: a in pids ==> a in oks && |oks[a]| == |pids[a]|
    modifies c
    ensures ok <==> forall a :: a in pids ==> false !in oks[a]
    ensures c.live <= old(c.live) && forall p :: p in old(c.live) && p !in c.live ==> Doomed(pids, p)
    ensures ok ==> c.live == set p | p in old(c.live) && !Doomed(pids, p)
  {
    var rest := pids.Keys;
    while rest != {}
      invariant rest <= pids.Keys
      invariant forall a :: a in pids && a !in rest ==> false !in oks[a]
      invariant c.live <= old(c.live) && forall p :: p in old(c.live) && p !in c.live ==> Doomed(pids, p)
      invariant forall p :: p in c.live && p.0 in pids && p.0 !in rest ==> !Doomed(pids, p)
      decreases |rest|
    {
      var a :| a in rest;
      var done := RemoveShardPids(c, a, pids[a], oks[a]);
      if !done {
        return false;
      }
      rest := rest - {a};
    }
    return true;
  }

  /** The administrator's deletion of each virtual id in turn, up to the first that fails. */
  function RemoveVids(s: Sys, vids: seq<Vid>, es: seq<DeleteEnv>): (r: Sys)
    requires |es| == |vids|
    decreases |vids|
  {
    if vids == [] then s
    else if Deleted(s, "", vids[0], es[0]) then RemoveVids(Delete(s, "", vids[0], es[0]), vids[1..], es[1..])
    else Delete(s, "", vids[0], es[0])
  }

  function AllRemoved(s: Sys, vids: seq<Vid>, es: seq<DeleteEnv>): (ok: bool)
    requires |es| == |vids|
    decreases |vids|
  {
    vids == [] || (Deleted(s, "", vids[0], es[0]) && AllRemoved(Delete(s, "", vids[0], es[0]), vids[1..], es[1..]))
  }

  /**
   After a sweep that succeeded so far the next virtual id is deleted, and the sweep succeeds exactly
   when that does; after a failure nothing more is done.
   */
  lemma {:induction false} SweepGoesOn(s: Sys, vids: seq<Vid>, es: seq<DeleteEnv>, v: Vid, e: DeleteEnv)
    requires |es| == |vids|
    ensures AllRemoved(s, [], [])
    ensures var t := RemoveVids(s, vids, es);
            if AllRemoved(s, vids, es)
            then RemoveVids(s, vids + [v], es + [e]) == Delete(t, "", v, e)
                 && AllRemoved(s, vids + [v], es + [e]) == Deleted(t, "", v, e)
            else RemoveVids(s, vids + [v], es + [e]) == t && !AllRemoved(s, vids + [v], es + [e])
    decreases |vids|
  {
    if vids == [] {
      assert vids + [v] == [v] && es + [e] == [e];
    } else {
      SweepGoesOn(Delete(s, "", vids[0], es[0]), vids[1..], es[1..], v, e);
      assert (vids + [v])[1..] == vids[1..] + [v] && (es + [e])[1..] == es[1..] + [e];
    }
  }

  method RemoveVid(c: Controller, vids: seq<Vid>, es: seq<DeleteEnv>) returns (ok: bool)
    requires |es| == |vids|
    modifies c.vid, c.camunda
    ensures c.State() == RemoveVids(old(c.State()), vids, es) && ok == AllRemoved(old(c.State()), vids, es)
  {
    var i := 0;
    while i < |vids|
      invariant i <= |vids|
      invariant RemoveVids(old(c.State()), vids, es) == RemoveVids(c.State(), vids[i..], es[i..])
      invariant AllRemoved(old(c.State()), vids, es) == AllRemoved(c.State(), vids[i..], es[i..])
    {
      assert vids[i..][0] == vids[i] && vids[i..][1..] == vids[i + 1..];
      assert es[i..][0] == es[i] && es[i..][1..] == es[i + 1..];
      var done := c.DeleteDeployment("", vids[i], es[i]);
      if !done {
        return false;
      }
      i := i + 1;
    }
    return true;
  }

  ghost predicate AllWorks(e: DeleteEnv) {
    && e.lookup.Rows? && e.lookup.n > 0 && Prepared(e) && e.commit.Works?
    && forall i :: 0 <= i < |e.removals| ==> e.removals[i].counted && e.removals[i].fate.Works?
  }

  lemma {:induction false} EachGone(live: Live, d: Did, xs: seq<Removal>)
    requires forall p :: p in live ==> p.1 != d
    requires forall i :: 0 <= i < |xs| ==> xs[i].counted
    ensures EachOk(live, d, xs) && EachLive(live, d, xs) == live
  {
    if xs != [] {
      assert RemoveLive(live, d, xs[0]) == live;
      EachGone(live, d, xs[1..]);
    }
  }

  lemma RemoveOneVid(s: Sys, v: Vid, e: DeleteEnv)
    requires Bijective(s.rows) && AllWorks(e)
    requires forall r, p :: r in s.rows && r.vid == v && p in s.live ==> p.1 != r.did
    ensures Deleted(s, "", v, e)
    ensures var t := Delete(s, "", v, e);
            Bijective(t.rows) && t.live == s.live && forall r :: r in t.rows <==> r in s.rows && r.vid != v
  {
    NoDidNoVid(s.rows, v);
    var found := Found(s, v, e);
    if found.value.Some? {
      var d := found.value.value;
      DidsOfMember(s.rows, v, d);
      EachGone(s.live, d, Steps("", e));
      WithoutRows(s.rows, d, v);
      forall r | r in s.rows && r.did == d ensures r.vid == v {
        OneRow(s.rows, r, Row(d, v));
      }
    }
  }

  /** Removing dangling virtual ids takes their rows and nothing else. */
  lemma {:induction false} RemoveVidsExactly(s: Sys, vids: seq<Vid>, es: seq<DeleteEnv>)
    requires Bijective(s.rows) && |es| == |vids| && forall i :: 0 <= i < |es| ==> AllWorks(es[i])
    requires forall r, p :: r in s.rows && r.vid in vids && p in s.live ==> p.1 != r.did
    ensures AllRemoved(s, vids, es)
    ensures var t := RemoveVids(s, vids, es);
            Bijective(t.rows) && t.live == s.live && forall r :: r in t.rows <==> r in s.rows && r.vid !in vids
    decreases |vids|
  {
    if vids != [] {
      RemoveOneVid(s, vids[0], es[0]);
      RemoveVidsExactly(Delete(s, "", vids[0], es[0]), vids[1..], es[1..]);
      assert vids == [vids[0]] + vids[1..];
    }
  }

  /** In a quiet system a deployment is mentioned exactly when it is alive. */
  lemma MentionsIsLive(s: Sys, shards: seq<Address>, all: Listing, now: int, d: Did)
    requires Quiet(s, shards, all, now)
    ensures Mentions(shards, all, d) <==> d in LiveDids(s.live)
  {
    if Mentions(shards, all, d) {
      var a :| a in shards && Lists(all, a, d);
      assert (a, d) in s.live;
    }
    if d in LiveDids(s.live) {
      var p :| p in s.live && p.1 == d;
      assert p.0 in shards && Lists(all, p.0, d);
    }
  }

  /** With buffer 0 the doomed deployments are exactly those without a row. */
  lemma DoomedIsUnlinked(s: Sys, shards: seq<Address>, all: Listing, now: int, pids: map<Address, seq<Did>>,
                         p: (Address, Did))
    requires Quiet(s, shards, all, now) && p in s.live
    requires forall a :: Entry(pids, a) == if a in shards
             && a in all then StaleIds(all[a], ByDid(s.rows), now, 0) else []
    ensures Doomed(pids, p) <==> !HasDid(s.rows, p.1)
  {
    ByDidKeys(s.rows);
    StaleIdsMember(all[p.0], ByDid(s.rows), now, 0, p.1);
    var x :| x in all[p.0] && x.id == p.1;
    assert Stale(x, ByDid(s.rows), now, 0) <==> p.1 !in ByDid(s.rows);
  }

  /** The listed virtual ids are exactly those of rows without a live deployment. */
  lemma DanglingIsDead(s: Sys, shards: seq<Address>, all: Listing, now: int, vids: seq<Vid>)
    requires Bijective(s.rows) && Quiet(s, shards, all, now)
    requires forall v :: v in vids <==> Dangling(s.rows, shards, all, v)
    ensures forall r :: r in s.rows ==> (r.vid in vids <==> r.did !in LiveDids(s.live))
    ensures forall r, p :: r in s.rows && r.vid in vids && p in s.live ==> p.1 != r.did
  {
    forall r | r in s.rows ensures r.vid in vids <==> r.did !in LiveDids(s.live) {
      MentionsIsLive(s, shards, all, now, r.did);
      if Dangling(s.rows, shards, all, r.vid) {
        var q :| q in s.rows && q.vid == r.vid && !Mentions(shards, all, q.did);
        OneRow(s.rows, q, r);
      }
    }
    forall r, p | r in s.rows && r.vid in vids && p in s.live ensures p.1 != r.did {
      assert p.1 in LiveDids(s.live);
    }
  }

  lemma LinkedIsSame(s: Sys, rows': seq<Row>, live': Live)
    requires forall r :: r in rows' <==> r in s.rows && r.did in LiveDids(s.live)
    requires forall p :: p in live' <==> p in s.live && HasDid(s.rows, p.1)
    ensures TableDids(rows') == LiveDids(live')
  {
    forall d | d in TableDids(rows') ensures d in LiveDids(live') {
      var r :| r in rows' && r.did == d;
      var p :| p in s.live && p.1 == d;
      assert HasDid(s.rows, p.1);
    }
    forall d | d in LiveDids(live') ensures d in TableDids(rows') {
      var p :| p in live' && p.1 == d;
      var r :| r in s.rows && r.did == d;
      assert r in rows';
    }
  }

  /**
   In a quiet system, removing every virtual id and every deployment listed restores exact
   correspondence, and removes nothing that is linked: a row stays exactly when its deployment is alive,
   a deployment exactly when it has a row.
   */
  lemma CleanupRestores(s: Sys, shards: seq<Address>, all: Listing, now: int,
                        vids: seq<Vid>, pids: map<Address, seq<Did>>, es: seq<DeleteEnv>, live': Live)
    requires Bijective(s.rows) && Quiet(s, shards, all, now)
    requires |es| == |vids| && forall i :: 0 <= i < |es| ==> AllWorks(es[i])
    requires forall v :: v in vids <==> Dangling(s.rows, shards, all, v)
    requires forall a :: Entry(pids, a) == if a in shards
             && a in all then StaleIds(all[a], ByDid(s.rows), now, 0) else []
    requires live' == set p | p in s.live && !Doomed(pids, p)
    ensures var t := RemoveVids(s, vids, es);
            && Bijective(t.rows) && TableDids(t.rows) == LiveDids(live')
            && (forall r :: r in t.rows <==> r in s.rows && r.did in LiveDids(s.live))
            && (forall p :: p in live' <==> p in s.live && HasDid(s.rows, p.1))
  {
    DanglingIsDead(s, shards, all, now, vids);
    forall p | p in s.live ensures Doomed(pids, p) <==> !HasDid(s.rows, p.1) {
      DoomedIsUnlinked(s, shards, all, now, pids, p);
    }
    RemoveVidsExactly(s, vids, es);
    LinkedIsSame(s, RemoveVids(s, vids, es).rows, live');
  }

  /** The place of a row that did not arrive. */
  lemma LostRow(rows: seq<Row>, n: nat, r: Row) returns (i: nat)
    requires r in rows && r !in Arrived(rows, n)
    ensures n <= i < |rows| && rows[i] == r
  {
    var part := Arrived(rows, n);
    var rest := rows[|part|..];
    assert rows == part + rest;
    var k :| 0 <= k < |rest| && rest[k] == r;
    i := |part| + k;
  }

  lemma LostDid(rows: seq<Row>, n: nat, i: nat)
    requires Bijective(rows) && n <= i < |rows|
    ensures !HasDid(Arrived(rows, n), rows[i].did)
  {
    forall r | r in Arrived(rows, n) ensures r.did != rows[i].did {
      var j :| 0 <= j < n && rows[..n][j] == r;
      assert rows[j] == r;
    }
  }

  /** The deployment is listed, and older than the buffer. */
  ghost predicate ListedOld(listed: seq<Listed>, d: Did, now: int, buffer: int) {
    exists x :: x in listed && x.id == d && x.time.Some? && now - x.time.value > buffer
  }

  lemma StaleIsOldAndUnlinked(listed: seq<Listed>, rows: seq<Row>, now: int, buffer: int, d: Did)
    ensures d in StaleIds(listed, ByDid(rows), now, buffer) <==> ListedOld(listed, d, now, buffer) && !HasDid(rows, d)
  {
    ByDidKeys(rows);
    StaleIdsMember(listed, ByDid(rows), now, buffer, d);
    if ListedOld(listed, d, now, buffer) && !HasDid(rows, d) {
      var x :| x in listed && x.id == d && x.time.Some? && now - x.time.value > buffer;
      assert Stale(x, ByDid(rows), now, buffer);
    }
  }

  /**
   A relation query cut short makes FindUnlinkedPid name a linked deployment exactly when a row lost
   names an old one.
   */
  lemma NamesLinkedExactly(rows: seq<Row>, n: nat, listed: seq<Listed>, now: int, buffer: int)
    requires Bijective(rows)
    ensures (exists d :: d in StaleIds(listed, ByDid(Arrived(rows, n)), now, buffer) && HasDid(rows, d))
            <==> exists i :: n <= i < |rows| && ListedOld(listed, rows[i].did, now, buffer)
  {
    var part := Arrived(rows, n);
    if d :| d in StaleIds(listed, ByDid(part), now, buffer) && HasDid(rows, d) {
      StaleIsOldAndUnlinked(listed, part, now, buffer, d);
      var r :| r in rows && r.did == d;
      var i := LostRow(rows, n, r);
    }
    if i :| n <= i < |rows| && ListedOld(listed, rows[i].did, now, buffer) {
      LostDid(rows, n, i);
      StaleIsOldAndUnlinked(listed, part, now, buffer, rows[i].did);
      assert HasDid(rows, rows[i].did);
    }
  }
}
