/**
 What runs of Deploy and DeleteDeployment keep, under every pattern of remote failures
 (lib/controller/controller.go:50-157).
 */
module SagaRuns {
  import opened Basics
  import opened VidRelation
  import opened Engine
  import opened Saga

  // ------------------------------------------------------------------------ one-to-one

  lemma DeleteKeepsBijection(s: Sys, user: User, v: Vid, e: DeleteEnv)
    requires Bijective(s.rows)
    ensures Bijective(Delete(s, user, v, e).rows)
    ensures forall r :: r in Delete(s, user, v, e).rows ==> r in s.rows
  {
    var found := Found(s, v, e);
    if found.Some? && found.value.Some? {
      WithoutRows(s.rows, found.value.value, v);
    }
  }

  /** A deletion that reports success leaves no row of v, provided the lookup was not cut short. */
  lemma DeletedIsGone(s: Sys, user: User, v: Vid, e: DeleteEnv)
    requires Deleted(s, user, v, e) && e.lookup != Rows(0)
    ensures !HasVid(Delete(s, user, v, e).rows, v)
  {
    var found := Found(s, v, e).value;
    if found.Some? {
      WithoutRows(s.rows, found.value, v);
    } else {
      NoDidNoVid(s.rows, v);
    }
  }

  /** The ids the engine hands out are not in use. */
  ghost predicate Fresh(s: Sys, e: DeployEnv) {
    forall p :: p in Made(Sent(e.post, e.placeholder)) ==>
      !HasDid(s.rows, p.1) && forall q :: q in s.live ==> q.1 != p.1
  }

  /** Deploy gets as far as a row in the table. */
  predicate Saves(m: Message, e: DeployEnv) {
    NewId(Sent(e.post, e.placeholder)).Some? && (m.handling ==> Fine(e.handlers)) && !e.save.Fails?
  }

  /** The one way to a second row: the row exists, but the lookup of its deployment is cut short unnoticed. */
  ghost predicate Doubles(s: Sys, m: Message, e: DeployEnv) {
    Refusal(m) == Ok && e.rowsCounted && HasVid(s.rows, m.id) && e.cleanup.lookup == Rows(0) && Saves(m, e)
  }

  lemma CleanRows(s: Sys, m: Message, e: DeployEnv)
    requires Bijective(s.rows)
    ensures Bijective(Clean(s, m, e).rows)
    ensures forall r :: r in Clean(s, m, e).rows ==> r in s.rows
    ensures Cleaned(s, m, e) && e.cleanup.lookup != Rows(0) ==> !HasVid(Clean(s, m, e).rows, m.id)
    ensures e.cleanup.lookup == Rows(0) ==> Clean(s, m, e) == s
  {
    if e.rowsCounted && HasVid(s.rows, m.id) {
      DeleteKeepsBijection(s, m.user, m.id, e.cleanup);
      if Cleaned(s, m, e) && e.cleanup.lookup != Rows(0) {
        DeletedIsGone(s, m.user, m.id, e.cleanup);
      }
    }
  }

  /** Deploy keeps the table one-to-one, whatever fails, exactly when the lookup is not cut short. */
  lemma DeployBijectiveExactly(s: Sys, m: Message, e: DeployEnv)
    requires Bijective(s.rows) && Fresh(s, e)
    ensures Bijective(Deploy(s, m, e).rows) <==> !Doubles(s, m, e)
  {
    CleanRows(s, m, e);
    var c := Clean(s, m, e);
    if Refusal(m) == Ok && Cleaned(s, m, e) && Saves(m, e) {
      var p := Sent(e.post, e.placeholder);
      var d := NewId(p).value;
      assert (p.shard, d) in Made(p);
      assert !HasDid(c.rows, d);
      InsertIsBijectiveExactly(c.rows, d, m.id);
    }
  }

  // -------------------------------------------------------------------------------- runs

  datatype Call = Deploying(m: Message, e: DeployEnv) | Deleting(user: User, v: Vid, d: DeleteEnv)

  ghost function After(s: Sys, c: Call): (r: Sys) {
    match c
    case Deploying(m, e) => Deploy(s, m, e)
    case Deleting(user, v, e) => Delete(s, user, v, e)
  }

  ghost predicate IsRun(states: seq<Sys>, calls: seq<Call>) {
    && |states| == |calls| + 1
    && forall i :: 0 <= i < |calls| ==> states[i + 1] == After(states[i], calls[i])
  }

  /** Fresh ids, and no lookup cut short. */
  ghost predicate Careful(s: Sys, c: Call) {
    c.Deploying? ==> Fresh(s, c.e) && c.e.cleanup.lookup != Rows(0)
  }

  /**
   VidRelation stays a partial bijection in every run, through failures of remote calls, compensations
   and commits, including those that take effect but report an error.
   */
  lemma {:induction false} RunKeepsBijection(states: seq<Sys>, calls: seq<Call>, i: nat)
    requires IsRun(states, calls) && i < |states| && Bijective(states[0].rows)
    requires forall k :: 0 <= k < |calls| ==> Careful(states[k], calls[k])
    ensures Bijective(states[i].rows)
  {
    if i > 0 {
      RunKeepsBijection(states, calls, i - 1);
      var s := states[i - 1];
      match calls[i - 1]
      case Deploying(m, e) => DeployBijectiveExactly(s, m, e);
      case Deleting(user, v, e) => DeleteKeepsBijection(s, user, v, e);
    }
  }

  /** Whatever fails, a call for v leaves the rows of all other virtual ids alone. */
  lemma OthersUntouched(s: Sys, c: Call, r: Row)
    requires Bijective(s.rows) && r.vid != (if c.Deploying? then c.m.id else c.v)
    ensures r in After(s, c).rows <==> r in s.rows
  {
    match c
    case Deleting(user, v, e) => EraseOthers(s, user, v, e, r);
    case Deploying(m, e) => EraseOthers(s, m.user, m.id, e.cleanup, r);
  }

  lemma EraseOthers(s: Sys, user: User, v: Vid, e: DeleteEnv, r: Row)
    requires Bijective(s.rows) && r.vid != v
    ensures r in Delete(s, user, v, e).rows <==> r in s.rows
  {
    var found := Found(s, v, e);
    if found.Some? && found.value.Some? {
      var d := found.value.value;
      WithoutRows(s.rows, d, v);
      DidsOfMember(s.rows, v, d);
      if r in s.rows && r.did == d {
        OneRow(s.rows, r, Row(d, v));
      }
    }
  }

  // ----------------------------------------------------------------- exact correspondence

  /**
   The deployments alive are exactly those in the table, each on the shard of its virtual id: a fixed
   owner per virtual id and no reassignment give each one a place.
   */
  ghost predicate Matches(s: Sys, place: Vid -> Address) {
    Bijective(s.rows) && s.live == set r | r in s.rows :: (place(r.vid), r.did)
  }

  /** The row goes exactly when the deployment goes. */
  ghost predicate InStep(user: User, e: DeleteEnv, h: Address) {
    (AllSmooth(Steps(user, e), h) && !e.commit.Fails?) <==> Reached(Steps(user, e), h)
  }

  lemma HeldOnce(s: Sys, place: Vid -> Address, r: Row)
    requires Matches(s, place) && r in s.rows
    ensures (place(r.vid), r.did) in s.live && forall p :: p in s.live && p.1 == r.did ==> p.0 == place(r.vid)
  {
    forall p | p in s.live && p.1 == r.did ensures p.0 == place(r.vid) {
      var q :| q in s.rows && p == (place(q.vid), q.did);
      OneRow(s.rows, q, r);
    }
  }

  /** Taking both the row and the deployment, or neither, is what keeps the stores in step. */
  lemma TakeMatches(s: Sys, place: Vid -> Address, r: Row, row: bool, pair: bool)
    requires Matches(s, place) && r in s.rows
    ensures var t := Sys(if row then Without(s.rows, r.did, r.vid) else s.rows,
                         if pair then s.live - {(place(r.vid), r.did)} else s.live);
            Matches(t, place) <==> row == pair
  {
    var rows' := Without(s.rows, r.did, r.vid);
    var p := (place(r.vid), r.did);
    WithoutRows(s.rows, r.did, r.vid);
    HeldOnce(s, place, r);
    var held := set q | q in rows' :: (place(q.vid), q.did);
    assert p !in held;
    assert held == s.live - {p} by {
      forall q | q in s.rows && q != r ensures q in rows' {
        if q.did == r.did || q.vid == r.vid {
          OneRow(s.rows, q, r);
        }
      }
    }
  }

  /** Under every failure, when DeleteDeployment keeps the stores in step. */
  lemma DeleteMatchesExactly(s: Sys, place: Vid -> Address, user: User, v: Vid, e: DeleteEnv)
    requires Matches(s, place) && OncePerShard(Steps(user, e))
    ensures Matches(Delete(s, user, v, e), place)
       <==> (HasVid(s.rows, v) && e.lookup.Rows? && e.lookup.n > 0 && Prepared(e) ==> InStep(user, e, place(v)))
  {
    NoDidNoVid(s.rows, v);
    var found := Found(s, v, e);
    if found.Some? && found.value.Some? {
      var d := found.value.value;
      DidsOfMember(s.rows, v, d);
      var r := Row(d, v);
      HeldOnce(s, place, r);
      EachExactly(s.live, d, Steps(user, e), place(v));
      var row := EachOk(s.live, d, Steps(user, e)) && !e.commit.Fails?;
      TakeMatches(s, place, r, row, Reached(Steps(user, e), place(v)));
    }
  }

  /** What is made stays exactly when it is recorded, and on the right shard. */
  predicate Tidy(m: Message, e: DeployEnv, h: Address) {
    var p := Sent(e.post, e.placeholder);
    if NewId(p).None? then Made(p) == {}
    else
      var kept := Created(m, e) || !(e.undoKnown && Hits(e.undo, p.shard));
      kept == Saves(m, e) && (kept ==> p.shard == h)
  }

  lemma AddMatches(s: Sys, place: Vid -> Address, r: Row, p: (Address, Did), row: bool, pair: bool)
    requires Matches(s, place) && !HasVid(s.rows, r.vid) && !HasDid(s.rows, r.did)
    requires p.1 == r.did && forall q :: q in s.live ==> q.1 != p.1
    ensures Matches(Sys(s.rows + if row then [r] else [], s.live + if pair then {p} else {}), place)
       <==> row == pair && (row ==> p.0 == place(r.vid))
  {
    InsertIsBijectiveExactly(s.rows, r.did, r.vid);
    var held := set q | q in s.rows + [r] :: (place(q.vid), q.did);
    assert s.rows + [] == s.rows;
    assert held == s.live + {(place(r.vid), r.did)} by {
      assert forall q :: q in s.rows + [r] <==> q in s.rows || q == r;
    }
  }

  lemma UndoExactly(live: Live, p: (Address, Did), e: DeployEnv)
    requires forall q :: q in live ==> q.1 != p.1
    ensures Undo(live + {p}, p.1, e) == if e.undoKnown && Hits(e.undo, p.0) then live else live + {p}
  {
    if e.undoKnown {
      var xs := [e.undo];
      EachExactly(live + {p}, p.1, xs, p.0);
      assert Reached(xs, p.0) <==> Hits(xs[0], p.0);
    }
  }

  /** Under every failure, when the second half of Deploy keeps the stores in step. */
  lemma CreateMatchesExactly(s: Sys, place: Vid -> Address, m: Message, e: DeployEnv)
    requires Matches(s, place) && !HasVid(s.rows, m.id) && Fresh(s, e)
    ensures Matches(Create(s, m, e), place) <==> Tidy(m, e, place(m.id))
  {
    var p := Sent(e.post, e.placeholder);
    if NewId(p).Some? {
      var d := NewId(p).value;
      var pair := (p.shard, d);
      assert Made(p) == {pair};
      UndoExactly(s.live, pair, e);
      var kept := Created(m, e) || !(e.undoKnown && Hits(e.undo, p.shard));
      AddMatches(s, place, Row(d, m.id), pair, Saves(m, e), kept);
      assert Create(s, m, e) == Sys(s.rows + if Saves(m, e) then [Row(d, m.id)] else [],
                                    s.live + if kept then {pair} else {});
    } else if Made(p) != {} {
      var q :| q in Made(p);
      assert Create(s, m, e).rows == s.rows && q in Create(s, m, e).live && q !in s.live;
    }
  }

  // ------------------------------------------------------ runs that keep the stores in step

  /** A failing call has no effect, the owner calls (or every shard is asked), and the commit succeeds. */
  ghost predicate OrderlyDelete(user: User, v: Vid, e: DeleteEnv, place: Vid -> Address) {
    && e.commit.Works?
    && (user != "" ==> e.removal.shard == place(v) && !e.removal.fate.Lost?)
    && (user == "" ==> OncePerShard(e.removals) && NotHalfway(e.removals, place(v)))
  }

  /** The administrator's sweep of the shards either meets no error and lists h, or fails before h is cleared. */
  ghost predicate NotHalfway(xs: seq<Removal>, h: Address) {
    || (AllSmooth(xs, h) && exists i :: 0 <= i < |xs| && xs[i].shard == h)
    || exists j :: 0 <= j < |xs| && !Smooth(xs[j], h) && forall i :: 0 <= i <= j ==> !Hits(xs[i], h)
  }

  /** A failing call has no effect, the owner deploys, and the compensation succeeds. */
  ghost predicate OrderlyDeploy(s: Sys, m: Message, e: DeployEnv, place: Vid -> Address) {
    var p := Sent(e.post, e.placeholder);
    && OrderlyDelete(m.user, m.id, e.cleanup, place) && e.cleanup.lookup != Rows(0)
    && Fresh(s, e)
    && (NewId(p).None? ==> Made(p) == {})
    && (NewId(p).Some? ==> p.shard == place(m.id) && e.undo == Removal(p.shard, true, Works) && e.undoKnown)
    && !e.save.Lost?
  }

  ghost predicate Orderly(s: Sys, c: Call, place: Vid -> Address) {
    match c
    case Deploying(m, e) => m.user != "" ==> OrderlyDeploy(s, m, e, place)
    case Deleting(user, v, e) => OrderlyDelete(user, v, e, place)
  }

  /** The sweep is in step exactly when it does not stop halfway. */
  lemma SweepInStepExactly(xs: seq<Removal>, h: Address)
    requires forall i :: 0 <= i < |xs| ==> !xs[i].fate.Lost?
    requires OncePerShard(xs)
    ensures (AllSmooth(xs, h) <==> Reached(xs, h)) <==> NotHalfway(xs, h)
  {
    if AllSmooth(xs, h) {
      if Reached(xs, h) {
        var i :| 0 <= i < |xs| && Hits(xs[i], h) && forall j :: 0 <= j < i ==> Smooth(xs[j], h);
        assert xs[i].shard == h;
      }
      if i :| 0 <= i < |xs| && xs[i].shard == h {
        assert Hits(xs[i], h);
      }
    } else if !Reached(xs, h) {
      var j := FirstRough(xs, h);
      assert forall i :: 0 <= i < j ==> !Hits(xs[i], h);
    }
  }

  lemma {:induction false} FirstRough(xs: seq<Removal>, h: Address) returns (j: nat)
    requires !AllSmooth(xs, h)
    ensures j < |xs| && !Smooth(xs[j], h) && forall i :: 0 <= i < j ==> Smooth(xs[i], h)
  {
    var n := |xs| - 1;
    if AllSmooth(xs[..n], h) {
      j := n;
      assert forall i :: 0 <= i < n ==> xs[..n][i] == xs[i];
    } else {
      j := FirstRough(xs[..n], h);
      assert forall i :: 0 <= i <= j ==> xs[..n][i] == xs[i];
    }
  }

  lemma NotHalfwayInStep(user: User, v: Vid, e: DeleteEnv, place: Vid -> Address)
    requires OrderlyDelete(user, v, e, place)
    ensures OncePerShard(Steps(user, e)) && InStep(user, e, place(v))
  {
    var xs, h := Steps(user, e), place(v);
    if user != "" {
      assert Reached(xs, h) <==> Hits(xs[0], h);
      assert AllSmooth(xs, h) <==> Smooth(xs[0], h);
    } else if AllSmooth(xs, h) {
      var i :| 0 <= i < |xs| && xs[i].shard == h;
      assert Smooth(xs[i], h) && Hits(xs[i], h);
    } else {
      var j :| 0 <= j < |xs| && !Smooth(xs[j], h) && forall k :: 0 <= k <= j ==> !Hits(xs[k], h);
    }
  }

  lemma OrderlyStep(s: Sys, c: Call, place: Vid -> Address)
    requires Matches(s, place) && Orderly(s, c, place)
    ensures Matches(After(s, c), place)
  {
    match c
    case Deleting(user, v, e) =>
      NotHalfwayInStep(user, v, e, place);
      DeleteMatchesExactly(s, place, user, v, e);
    case Deploying(m, e) =>
      if Refusal(m) == Ok {
        NotHalfwayInStep(m.user, m.id, e.cleanup, place);
        DeleteMatchesExactly(s, place, m.user, m.id, e.cleanup);
        CleanRows(s, m, e);
        var clean := Clean(s, m, e);
        if Cleaned(s, m, e) {
          CleanLive(s, m, e);
          CreateMatchesExactly(clean, place, m, e);
        }
      }
  }

  lemma {:induction false} EachShrinks(live: Live, d: Did, xs: seq<Removal>)
    ensures EachLive(live, d, xs) <= live
  {
    if xs != [] {
      EachShrinks(RemoveLive(live, d, xs[0]), d, xs[1..]);
    }
  }

  lemma CleanLive(s: Sys, m: Message, e: DeployEnv)
    ensures Clean(s, m, e).live <= s.live
  {
    var found := Found(s, m.id, e.cleanup);
    if found.Some? && found.value.Some? {
      EachShrinks(s.live, found.value.value, Steps(m.user, e.cleanup));
    }
  }

  function LiveDids(live: Live): (r: set<Did>) {
    set p | p in live :: p.1
  }

  function TableDids(rows: seq<Row>): (r: set<Did>) {
    set r | r in rows :: r.did
  }

  /**
   After every call of an orderly run, whether it returned success or an error, the deployment ids in
   VidRelation are exactly the deployments alive.
   */
  lemma {:induction false} RunStaysInStep(states: seq<Sys>, calls: seq<Call>, place: Vid -> Address, i: nat)
    requires IsRun(states, calls) && i < |states| && Matches(states[0], place)
    requires forall k :: 0 <= k < |calls| ==> Orderly(states[k], calls[k], place)
    ensures Matches(states[i], place) && TableDids(states[i].rows) == LiveDids(states[i].live)
  {
    if i > 0 {
      RunStaysInStep(states, calls, place, i - 1);
      OrderlyStep(states[i - 1], calls[i - 1], place);
    }
    SameDids(states[i], place);
  }

  lemma SameDids(s: Sys, place: Vid -> Address)
    requires Matches(s, place)
    ensures TableDids(s.rows) == LiveDids(s.live)
  {
    forall d | d in TableDids(s.rows) ensures d in LiveDids(s.live) {
      var r :| r in s.rows && r.did == d;
      assert (place(r.vid), r.did) in s.live;
    }
  }

  // --------------------------------------------------------------- what the results mean

  /** A deployment that reports success is the one the table and its shard hold for the virtual id. */
  lemma DeployedIsFound(s: Sys, m: Message, e: DeployEnv, f: Fetch)
    requires Bijective(s.rows) && Fresh(s, e) && e.cleanup.lookup != Rows(0) && Deployed(s, m, e) == Ok
    requires f.Rows? && f.n > 0
    ensures var p := Sent(e.post, e.placeholder); var t := Deploy(s, m, e);
            NewId(p).Some? && (p.shard, NewId(p).value) in t.live
            && FirstOf(DidsOf(t.rows, m.id), f) == Some(Some(NewId(p).value))
  {
    var d := NewId(Sent(e.post, e.placeholder)).value;
    var t := Deploy(s, m, e);
    DeployBijectiveExactly(s, m, e);
    assert t.rows[|t.rows| - 1] == Row(d, m.id);
    DidIsRow(t.rows, m.id, d, f);
  }

  /** An orderly deletion that reports an error has changed nothing; one that reports success has taken the row. */
  lemma FailedDeleteChangesNothing(s: Sys, place: Vid -> Address, user: User, v: Vid, e: DeleteEnv)
    requires Matches(s, place) && OrderlyDelete(user, v, e, place) && e.lookup != Rows(0)
    ensures !Deleted(s, user, v, e) ==> Delete(s, user, v, e) == s
    ensures Deleted(s, user, v, e) ==> !HasVid(Delete(s, user, v, e).rows, v)
  {
    if Deleted(s, user, v, e) {
      DeletedIsGone(s, user, v, e);
    } else {
      var found := Found(s, v, e);
      if found.Some? && found.value.Some? && Prepared(e) {
        var d := found.value.value;
        DidsOfMember(s.rows, v, d);
        HeldOnce(s, place, Row(d, v));
        NotHalfwayInStep(user, v, e, place);
        EachExactly(s.live, d, Steps(user, e), place(v));
      }
    }
  }

  // ------------------------------------------------------------------------ what goes wrong

  const ALL_WELL := DeleteEnv(
    Rows(1), Survey(true, []), None, true, true, true,
    true, Removal("b", true, Works), [], Works)
  const MESSAGE := Message("v", "u", "<svg/>", false, true, true, true)

  /** A lookup cut short unnoticed: two rows for one virtual id after a successful redeployment. */
  lemma CutShortDoubles()
    ensures var s := Sys([Row("d", "v")], {("a", "d")});
            var e := DeployEnv(true, ALL_WELL.(lookup := Rows(0)), Post("a", Named("n")), Post("a", EngineException),
                               Survey(true, []), true, Removal("a", true, Works), Works);
            Bijective(s.rows) && Fresh(s, e) && Deployed(s, MESSAGE, e) == Ok && !Bijective(Deploy(s, MESSAGE, e).rows)
  {
    var s := Sys([Row("d", "v")], {("a", "d")});
    var e := DeployEnv(true, ALL_WELL.(lookup := Rows(0)), Post("a", Named("n")), Post("a", EngineException),
                       Survey(true, []), true, Removal("a", true, Works), Works);
    assert Row("d", "v") in s.rows;
    assert HasVid(s.rows, "v");
    DeployBijectiveExactly(s, MESSAGE, e);
  }

  /** The sweep clears shard a, then fails on shard b: the row survives its deployment. */
  lemma SweepStopsHalfway()
    ensures var s := Sys([Row("d", "v")], {("a", "d")});
            var e := ALL_WELL.(removals := [Removal("a", true, Works), Removal("b", false, Works)]);
            var place := (v: Vid) => "a";
            Matches(s, place) && !Deleted(s, "", "v", e) && !Matches(Delete(s, "", "v", e), place)
  {
    var s := Sys([Row("d", "v")], {("a", "d")});
    var xs := [Removal("a", true, Works), Removal("b", false, Works)];
    var e := ALL_WELL.(removals := xs);
    var place := (v: Vid) => "a";
    assert Row("d", "v") in s.rows;
    assert Hits(xs[0], "a") && !Smooth(xs[1], "a");
    assert Reached(xs, "a") && !AllSmooth(xs, "a");
    assert HasVid(s.rows, "v");
    NoDidNoVid(s.rows, "v");
    DeleteMatchesExactly(s, place, "", "v", e);
    DidsOfMember(s.rows, "v", "d");
    DidIsRow(s.rows, "v", "d", e.lookup);
    HeldOnce(s, place, Row("d", "v"));
    EachExactly(s.live, "d", xs, "a");
  }

  /** Deleted by a user whose shard is b: the row goes, the deployment on a stays. */
  lemma WrongShardOrphans()
    ensures var s := Sys([Row("d", "v")], {("a", "d")});
            var place := (v: Vid) => "a";
            Matches(s, place) && Deleted(s, "w", "v", ALL_WELL)
                && Delete(s, "w", "v", ALL_WELL) == Sys([], {("a", "d")})
  {
    var s := Sys([Row("d", "v")], {("a", "d")});
    var place := (v: Vid) => "a";
    assert Row("d", "v") in s.rows;
    DidIsRow(s.rows, "v", "d", ALL_WELL.lookup);
    var xs := Steps("w", ALL_WELL);
    HeldOnce(s, place, Row("d", "v"));
    EachExactly(s.live, "d", xs, "a");
    assert Smooth(xs[0], "a") && !Hits(xs[0], "a");
    assert WithoutDid([Row("d", "v")], "d") == [];
  }
}
