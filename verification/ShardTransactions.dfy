/**
 Concurrent calls of GetShardForUser and EnsureShardForUser, step by step, with the cache they look
 into first (lib/shards/shards.go:45-117, 188-203; lib/shards/cache/cache.go:59-110; lib/shards/sql.go:3-18).
 */
module ShardTransactions {
  import opened Basics
  import opened Cache
  import opened Shards

  /**
   Where a call stands: before the cache; with an answer of the second layer, to be put into the first;
   after a miss; with the row read, to be cached; without a row (here a lookup ends); with a shard
   chosen; with an uncommitted row; or over.
   */
  datatype Phase =
    | Begun
    | Refilling(v: Address)
    | Missed
    | Holding(v: Address)
    | Missing
    | Chosen(s: Address)
    | Inserted(s: Address)
    | Over

  datatype Tx = Tx(u: User, phase: Phase)

  /** The committed tables, the cache, the clock, and the calls under way. */
  datatype Server = Server(db: Tables, layers: Layers, now: int, txs: map<nat, Tx>)

  datatype Event =
    | Begin(t: nat, u: User)
    | Look(t: nat)
    | Refill(t: nat)
    | Read(t: nat)
    | Store(t: nat)
    | Choose(t: nat, s: Address)
    | Insert(t: nat)
    | Commit(t: nat)
    | Abort(t: nat)
    | Reassign(u: User, s: Address)
    | Uncache(u: User, reached: bool)
    | NewShard(s: Address)
    | DropShard(s: Address)
    | Pass(seconds: nat)
    | DropEntry(first: bool, k: Key)

  /** An uncommitted row for u; the primary key makes other inserts of u wait. */
  ghost predicate Held(sv: Server, u: User) {
    exists t :: t in sv.txs && sv.txs[t].u == u && sv.txs[t].phase.Inserted?
  }

  /** An uncommitted row on s; the foreign key makes the removal of s wait. */
  ghost predicate Referenced(sv: Server, s: Address) {
    exists t :: t in sv.txs && sv.txs[t].phase == Inserted(s)
  }

  function To(sv: Server, t: nat, p: Phase): (r: Server) {
    if t in sv.txs then sv.(txs := sv.txs[t := sv.txs[t].(phase := p)]) else sv
  }

  function PhaseOf(sv: Server, t: nat): (p: Phase) {
    if t in sv.txs then sv.txs[t].phase else Over
  }

  /** The steps the code and the database allow. */
  ghost predicate Enabled(sv: Server, e: Event) {
    match e
    case Begin(t, _) => t !in sv.txs
    case Look(t) => PhaseOf(sv, t).Begun?
    case Refill(t) => PhaseOf(sv, t).Refilling?
    case Read(t) => PhaseOf(sv, t).Missed?
    case Store(t) => PhaseOf(sv, t).Holding?
    case Choose(t, s) => PhaseOf(sv, t).Missing? && s in sv.db.shards
    case Insert(t) => PhaseOf(sv, t).Chosen? && !Held(sv, sv.txs[t].u)
    case Commit(t) => PhaseOf(sv, t).Inserted?
    case Reassign(u, s) => s in sv.db.shards && !Held(sv, u)
    case DropShard(s) => !Referenced(sv, s)
    case _ => true
  }

  function AfterLook(c: Config, sv: Server, t: nat): (p: Phase) {
    if t !in sv.txs then Over
    else
      var k := CacheKey(sv.txs[t].u);
      if Live(sv.layers.l1, k, sv.now).Some? then Over
      else if c.second && Live(sv.layers.l2, k, sv.now).Some? then Refilling(Live(sv.layers.l2, k, sv.now).value)
      else Missed
  }

  function AfterInsert(sv: Server, t: nat): (p: Phase) {
    if t in sv.txs && sv.txs[t].phase.Chosen? && sv.txs[t].u !in sv.db.mapping && sv.txs[t].phase.s in sv.db.shards
    then Inserted(sv.txs[t].phase.s)
    else Over
  }

  /** What a step does. */
  function Do(c: Config, sv: Server, e: Event): (r: Server) {
    match e
    case Begin(t, u) => sv.(txs := sv.txs[t := Tx(u, Begun)])
    case Look(t) => To(sv, t, AfterLook(c, sv, t))
    case Refill(t) =>
      if PhaseOf(sv, t).Refilling? then
        var k := CacheKey(sv.txs[t].u);
        var entry := Entry(sv.txs[t].phase.v, sv.now + c.l1Expiration);
        To(sv, t, Over).(layers := sv.layers.(l1 := sv.layers.l1[k := entry]))
      else sv
    case Read(t) =>
      if t !in sv.txs then sv
      else
        var row := Row(sv.db, sv.txs[t].u);
        To(sv, t, if row.Some? then Holding(row.value) else Missing)
    case Store(t) =>
      if PhaseOf(sv, t).Holding? then
        To(sv, t, Over).(layers := DoSet(c, sv.layers, CacheKey(sv.txs[t].u), sv.txs[t].phase.v, sv.now))
      else sv
    case Choose(t, s) => To(sv, t, Chosen(s))
    case Insert(t) => To(sv, t, AfterInsert(sv, t))
    case Commit(t) =>
      if PhaseOf(sv, t).Inserted? then To(sv, t, Over).(db := Assign(sv.db, sv.txs[t].u, sv.txs[t].phase.s)) else sv
    case Abort(t) => To(sv, t, Over)
    case Reassign(u, s) => sv.(db := Assign(sv.db, u, s))
    case Uncache(u, reached) => sv.(layers := DoInvalidate(c, sv.layers, CacheKey(u), reached))
    case NewShard(s) => sv.(db := Tables(sv.db.shards + {s}, sv.db.mapping))
    case DropShard(s) => sv.(db := Without(sv.db, s))
    case Pass(n) => sv.(now := sv.now + n)
    case DropEntry(first, k) => sv.(layers := DoEvict(sv.layers, first, k))
  }

  /** The answer a call gives at this step, if it succeeds here. */
  function Answered(sv: Server, e: Event): (r: Option<(User, Address)>) {
    match e
    case Look(t) =>
      if t in sv.txs && Live(sv.layers.l1, CacheKey(sv.txs[t].u), sv.now).Some?
      then Some((sv.txs[t].u, Live(sv.layers.l1, CacheKey(sv.txs[t].u), sv.now).value)) else None
    case Refill(t) => if PhaseOf(sv, t).Refilling? then Some((sv.txs[t].u, sv.txs[t].phase.v)) else None
    case Store(t) => if PhaseOf(sv, t).Holding? then Some((sv.txs[t].u, sv.txs[t].phase.v)) else None
    case Commit(t) => if PhaseOf(sv, t).Inserted? then Some((sv.txs[t].u, sv.txs[t].phase.s)) else None
    case _ => None
  }

  // ------------------------------------------------------------------------ the tables

  /** Keys hold; pending rows are of users without a row, on existing shards, and at most one per user. */
  ghost predicate Safe(sv: Server) {
    && KeysHold(sv.db)
    && (forall t :: t in sv.txs && sv.txs[t].phase.Inserted? ==>
          sv.txs[t].u !in sv.db.mapping && sv.txs[t].phase.s in sv.db.shards)
    && (forall t, v :: t in sv.txs && v in sv.txs && t != v && sv.txs[t].u == sv.txs[v].u ==>
          !(sv.txs[t].phase.Inserted? && sv.txs[v].phase.Inserted?))
  }

  lemma StepIsSafe(c: Config, sv: Server, e: Event)
    requires Safe(sv) && Enabled(sv, e)
    ensures Safe(Do(c, sv, e))
  {
    match e
    case Insert(t) =>
      assert forall v :: v in sv.txs && sv.txs[v].phase.Inserted? ==> sv.txs[v].u != sv.txs[t].u;
    case DropShard(s) =>
      assert forall t :: t in sv.txs ==> sv.txs[t].phase != Inserted(s);
    case Reassign(u, s) =>
      assert forall t :: t in sv.txs && sv.txs[t].phase.Inserted? ==> sv.txs[t].u != u;
    case _ =>
  }

  // ------------------------------------------------------------------------------ runs

  function DoAll(c: Config, sv: Server, es: seq<Event>): (r: Server)
  {
    if es == [] then sv else Do(c, DoAll(c, sv, es[..|es| - 1]), es[|es| - 1])
  }

  /** Every step of the run is allowed when its turn comes. */
  ghost predicate IsRun(c: Config, sv: Server, es: seq<Event>)
  {
    es == [] || (IsRun(c, sv, es[..|es| - 1]) && Enabled(DoAll(c, sv, es[..|es| - 1]), es[|es| - 1]))
  }

  /** Under every interleaving each row, committed or pending, references an existing shard, and a user has one. */
  lemma {:induction false} RunIsSafe(c: Config, sv: Server, es: seq<Event>)
    requires Safe(sv) && IsRun(c, sv, es)
    ensures Safe(DoAll(c, sv, es)) && KeysHold(DoAll(c, sv, es).db)
  {
    if es != [] {
      RunIsSafe(c, sv, es[..|es| - 1]);
      StepIsSafe(c, DoAll(c, sv, es[..|es| - 1]), es[|es| - 1]);
    }
  }

  /** Events that may take a user's row away or change it. */
  predicate Disturbs(e: Event, u: User) {
    e.DropShard? || (e.Reassign? && e.u == u)
  }

  lemma RowStays(c: Config, sv: Server, e: Event, u: User)
    requires Safe(sv) && Enabled(sv, e) && !Disturbs(e, u) && u in sv.db.mapping
    ensures Row(Do(c, sv, e).db, u) == Row(sv.db, u)
  {
  }

  // ---------------------------------------------------------------- what the cache may answer

  predicate EntryAgrees(m: map<Key, Entry>, u: User, now: int, row: Option<Address>) {
    Live(m, CacheKey(u), now).Some? ==> Live(m, CacheKey(u), now) == row
  }

  /** A value on its way into the cache. */
  predicate PendingAgrees(tx: Tx, u: User, row: Option<Address>) {
    tx.u == u && (tx.phase.Refilling? || tx.phase.Holding?) ==> Some(tx.phase.v) == row
  }

  /** No unexpired entry for u, and no value on its way into one, differs from the user's row. */
  ghost predicate Fresh(c: Config, sv: Server, u: User) {
    && EntryAgrees(sv.layers.l1, u, sv.now, Row(sv.db, u))
    && (c.second ==> EntryAgrees(sv.layers.l2, u, sv.now, Row(sv.db, u)))
    && forall t :: t in sv.txs ==> PendingAgrees(sv.txs[t], u, Row(sv.db, u))
  }

  lemma FreshStays(c: Config, sv: Server, e: Event, u: User)
    requires Safe(sv) && Fresh(c, sv, u) && Enabled(sv, e) && !Disturbs(e, u)
    ensures Fresh(c, Do(c, sv, e), u)
    ensures Answered(sv, e).Some? && Answered(sv, e).value.0 == u ==>
              Row(Do(c, sv, e).db, u) == Some(Answered(sv, e).value.1)
  {
    if (e.Refill? || e.Store?) && sv.txs[e.t].u != u {
      OtherKey(sv.txs[e.t].u, u);
    }
    if e.Commit? && sv.txs[e.t].u == u {
      assert Row(sv.db, u) == None;
    }
  }

  lemma OtherKey(u: User, w: User)
    requires u != w
    ensures CacheKey(u) != CacheKey(w)
  {
    if CacheKey(u) == CacheKey(w) {
      CacheKeyInjective(u, w);
    }
  }

  /** From sv the server can get to sv' without a disturbance of u. */
  ghost predicate Leads(c: Config, u: User, sv: Server, sv': Server) {
    exists es :: IsRun(c, sv, es) && (forall i :: 0 <= i < |es| ==> !Disturbs(es[i], u)) && DoAll(c, sv, es) == sv'
  }

  /** From sv, without a disturbance, some call of u can be answered a, which leads to sv'. */
  ghost predicate CanAnswer(c: Config, u: User, sv: Server, a: Address, sv': Server) {
    exists mid, e :: Leads(c, u, sv, mid) && Enabled(mid, e) && !Disturbs(e, u)
                     && Answered(mid, e) == Some((u, a)) && Do(c, mid, e) == sv'
  }

  /** Whatever happens, short of a disturbance, any two answers to u are the same. */
  ghost predicate AlwaysAgree(c: Config, u: User, sv: Server) {
    forall a, b, sv', sv'' :: CanAnswer(c, u, sv, a, sv') && CanAnswer(c, u, sv', b, sv'') ==> a == b
  }

  lemma {:induction false} UndisturbedRun(c: Config, u: User, sv: Server, es: seq<Event>)
    requires Safe(sv) && IsRun(c, sv, es) && forall i :: 0 <= i < |es| ==> !Disturbs(es[i], u)
    ensures Safe(DoAll(c, sv, es))
    ensures Fresh(c, sv, u) ==> Fresh(c, DoAll(c, sv, es), u)
    ensures u in sv.db.mapping ==> Row(DoAll(c, sv, es).db, u) == Row(sv.db, u)
  {
    if es != [] {
      var n := |es| - 1;
      UndisturbedRun(c, u, sv, es[..n]);
      var mid := DoAll(c, sv, es[..n]);
      StepIsSafe(c, mid, es[n]);
      if u in mid.db.mapping {
        RowStays(c, mid, es[n], u);
      }
      if Fresh(c, sv, u) {
        FreshStays(c, mid, es[n], u);
      }
    }
  }

  lemma LeadsKeeps(c: Config, u: User, sv: Server, sv': Server)
    requires Safe(sv) && Leads(c, u, sv, sv')
    ensures Safe(sv') && (Fresh(c, sv, u) ==> Fresh(c, sv', u))
    ensures u in sv.db.mapping ==> Row(sv'.db, u) == Row(sv.db, u)
  {
    var es :| IsRun(c, sv, es) && (forall i :: 0 <= i < |es| ==> !Disturbs(es[i], u)) && DoAll(c, sv, es) == sv';
    UndisturbedRun(c, u, sv, es);
  }

  lemma AnswerKeeps(c: Config, u: User, sv: Server, a: Address, sv': Server)
    requires Safe(sv) && CanAnswer(c, u, sv, a, sv')
    ensures Safe(sv')
    ensures Fresh(c, sv, u) ==> Fresh(c, sv', u) && Row(sv'.db, u) == Some(a)
    ensures u in sv.db.mapping ==> Row(sv'.db, u) == Row(sv.db, u)
  {
    var mid, e :| Leads(c, u, sv, mid) && Enabled(mid, e) && !Disturbs(e, u)
                  && Answered(mid, e) == Some((u, a)) && Do(c, mid, e) == sv';
    LeadsKeeps(c, u, sv, mid);
    StepIsSafe(c, mid, e);
    if Fresh(c, sv, u) {
      FreshStays(c, mid, e, u);
    }
    if u in mid.db.mapping {
      RowStays(c, mid, e, u);
    }
  }

  /** From a fresh state, two calls for a user get the same shard, however all calls interleave. */
  lemma CallsAgree(c: Config, u: User, sv: Server, a: Address, sv': Server, b: Address, sv'': Server)
    requires Safe(sv) && Fresh(c, sv, u)
    requires CanAnswer(c, u, sv, a, sv') && CanAnswer(c, u, sv', b, sv'')
    ensures a == b
  {
    AnswerKeeps(c, u, sv, a, sv');
    AnswerKeeps(c, u, sv', b, sv'');
  }

  /** After an answer that was the user's row, a later one agrees exactly when it is the row as well. */
  lemma AnswersAgreeExactly(c: Config, u: User, sv: Server, a: Address, sv': Server, b: Address, sv'': Server)
    requires Safe(sv) && CanAnswer(c, u, sv, a, sv') && CanAnswer(c, u, sv', b, sv'')
    requires Row(sv'.db, u) == Some(a)
    ensures a == b <==> Row(sv''.db, u) == Some(b)
  {
    AnswerKeeps(c, u, sv, a, sv');
    AnswerKeeps(c, u, sv', b, sv'');
  }

  // ------------------------------------------------------- without freshness calls disagree

  lemma LeadsSelf(c: Config, u: User, sv: Server)
    ensures Leads(c, u, sv, sv)
  {
    var es: seq<Event> := [];
    assert IsRun(c, sv, es) && DoAll(c, sv, es) == sv;
  }

  lemma LeadsStep(c: Config, u: User, sv: Server, mid: Server, e: Event)
    requires Leads(c, u, sv, mid) && Enabled(mid, e) && !Disturbs(e, u)
    ensures Leads(c, u, sv, Do(c, mid, e))
  {
    var es :| IsRun(c, sv, es) && (forall i :: 0 <= i < |es| ==> !Disturbs(es[i], u)) && DoAll(c, sv, es) == mid;
    var more := es + [e];
    assert more[..|es|] == es;
    assert IsRun(c, sv, more) && DoAll(c, sv, more) == Do(c, mid, e);
  }

  lemma NewCall(txs: map<nat, Tx>) returns (t: nat)
    ensures t !in txs
  {
    var rest := txs.Keys;
    t := 0;
    while rest != {}
      invariant rest <= txs.Keys && forall x :: x in txs && x !in rest ==> x < t
      decreases |rest|
    {
      var x :| x in rest;
      rest := rest - {x};
      t := if x < t then t else x + 1;
    }
  }

  /** A new call of u, once the given layers are empty, stands behind its look into the cache. */
  lemma LookedUp(c: Config, u: User, sv: Server, start: Server) returns (t: nat, sv': Server)
    requires Safe(sv) && Leads(c, u, start, sv)
    ensures Leads(c, u, start, sv') && Safe(sv') && sv'.db == sv.db && sv'.layers == sv.layers && sv'.now == sv.now
    ensures t !in sv.txs && sv' == sv.(txs := sv.txs[t := Tx(u, Begun)])
  {
    t := NewCall(sv.txs);
    LeadsStep(c, u, start, sv, Begin(t, u));
    StepIsSafe(c, sv, Begin(t, u));
    sv' := Do(c, sv, Begin(t, u));
  }

  /** Without freshness some call can be answered other than the row. */
  lemma StaleAnswer(c: Config, u: User, sv: Server) returns (v: Address, sv': Server)
    requires Safe(sv) && !Fresh(c, sv, u)
    ensures CanAnswer(c, u, sv, v, sv') && Safe(sv') && sv'.db == sv.db && Row(sv.db, u) != Some(v)
  {
    var k := CacheKey(u);
    LeadsSelf(c, u, sv);
    if !EntryAgrees(sv.layers.l1, u, sv.now, Row(sv.db, u)) {
      var t, s1 := LookedUp(c, u, sv, sv);
      v := Live(sv.layers.l1, k, sv.now).value;
      sv' := Do(c, s1, Look(t));
      StepIsSafe(c, s1, Look(t));
      assert Answered(s1, Look(t)) == Some((u, v));
    } else if c.second && !EntryAgrees(sv.layers.l2, u, sv.now, Row(sv.db, u)) {
      v, sv' := StaleRefill(c, u, sv);
    } else {
      var t :| t in sv.txs && !PendingAgrees(sv.txs[t], u, Row(sv.db, u));
      v := sv.txs[t].phase.v;
      var e := if sv.txs[t].phase.Holding? then Store(t) else Refill(t);
      sv' := Do(c, sv, e);
      StepIsSafe(c, sv, e);
      assert Answered(sv, e) == Some((u, v));
    }
  }

  lemma StaleRefill(c: Config, u: User, sv: Server) returns (v: Address, sv': Server)
    requires Safe(sv) && c.second && !EntryAgrees(sv.layers.l2, u, sv.now, Row(sv.db, u))
    ensures CanAnswer(c, u, sv, v, sv') && Safe(sv') && sv'.db == sv.db && Row(sv.db, u) != Some(v)
  {
    var k := CacheKey(u);
    v := Live(sv.layers.l2, k, sv.now).value;
    LeadsSelf(c, u, sv);
    LeadsStep(c, u, sv, sv, DropEntry(true, k));
    var s0 := Do(c, sv, DropEntry(true, k));
    var t, s1 := LookedUp(c, u, s0, sv);
    var s2 := SecondFound(c, u, s1, sv, t, v);
    sv' := Refilled(c, u, s2, sv, t, v);
  }

  lemma SecondFound(c: Config, u: User, sv: Server, start: Server, t: nat, v: Address) returns (sv': Server)
    requires Safe(sv) && Leads(c, u, start, sv) && t in sv.txs && sv.txs[t] == Tx(u, Begun) && c.second
    requires Live(sv.layers.l1, CacheKey(u), sv.now) == None && Live(sv.layers.l2, CacheKey(u), sv.now) == Some(v)
    ensures Leads(c, u, start, sv') && Safe(sv') && sv'.db == sv.db
    ensures t in sv'.txs && sv'.txs[t] == Tx(u, Refilling(v))
  {
    LeadsStep(c, u, start, sv, Look(t));
    StepIsSafe(c, sv, Look(t));
    sv' := Do(c, sv, Look(t));
  }

  lemma Refilled(c: Config, u: User, sv: Server, start: Server, t: nat, v: Address) returns (sv': Server)
    requires Safe(sv) && Leads(c, u, start, sv) && t in sv.txs && sv.txs[t] == Tx(u, Refilling(v))
    ensures CanAnswer(c, u, start, v, sv') && Safe(sv') && sv'.db == sv.db
  {
    sv' := Do(c, sv, Refill(t));
    StepIsSafe(c, sv, Refill(t));
    assert Answered(sv, Refill(t)) == Some((u, v));
  }

  /** A call whose cache entries have been evicted, behind its read of the row. */
  lemma ReadRow(c: Config, u: User, sv: Server) returns (t: nat, sv': Server)
    requires Safe(sv)
    ensures Leads(c, u, sv, sv') && Safe(sv') && sv'.db == sv.db
    ensures t in sv'.txs && sv'.txs[t] == Tx(u, if u in sv.db.mapping then Holding(sv.db.mapping[u]) else Missing)
  {
    var k := CacheKey(u);
    LeadsSelf(c, u, sv);
    LeadsStep(c, u, sv, sv, DropEntry(true, k));
    var s0 := Do(c, sv, DropEntry(true, k));
    LeadsStep(c, u, sv, s0, DropEntry(false, k));
    var s1 := Do(c, s0, DropEntry(false, k));
    var s2;
    t, s2 := LookMisses(c, u, s1, sv);
    sv' := RowRead(c, u, s2, sv, t);
  }

  /** The uncommitted row of another call can be rolled back. */
  lemma Released(c: Config, u: User, sv: Server, start: Server, t: nat) returns (sv': Server)
    requires Safe(sv) && Leads(c, u, start, sv) && t in sv.txs && sv.txs[t] == Tx(u, Missing)
    ensures Leads(c, u, start, sv') && Safe(sv') && sv'.db == sv.db && !Held(sv', u)
    ensures t in sv'.txs && sv'.txs[t] == Tx(u, Missing)
  {
    sv' := sv;
    if Held(sv, u) {
      var h :| h in sv.txs && sv.txs[h].u == u && sv.txs[h].phase.Inserted?;
      LeadsStep(c, u, start, sv, Abort(h));
      StepIsSafe(c, sv, Abort(h));
      sv' := Do(c, sv, Abort(h));
    }
  }

  lemma ShardChosen(c: Config, u: User, sv: Server, start: Server, t: nat, s: Address) returns (sv': Server)
    requires Leads(c, u, start, sv) && s in sv.db.shards && !Held(sv, u) && t in sv.txs && sv.txs[t] == Tx(u, Missing)
    ensures Leads(c, u, start, sv') && sv'.db == sv.db && !Held(sv', u)
    ensures t in sv'.txs && sv'.txs[t] == Tx(u, Chosen(s))
  {
    LeadsStep(c, u, start, sv, Choose(t, s));
    sv' := Do(c, sv, Choose(t, s));
    assert forall x :: x in sv'.txs && sv'.txs[x].phase.Inserted? ==> x != t && sv'.txs[x] == sv.txs[x];
  }

  lemma RowInserted(c: Config, u: User, sv: Server, start: Server, t: nat, s: Address) returns (sv': Server)
    requires Leads(c, u, start, sv) && s in sv.db.shards && u !in sv.db.mapping && !Held(sv, u)
    requires t in sv.txs && sv.txs[t] == Tx(u, Chosen(s))
    ensures Leads(c, u, start, sv') && t in sv'.txs && sv'.txs[t] == Tx(u, Inserted(s))
  {
    LeadsStep(c, u, start, sv, Insert(t));
    sv' := Do(c, sv, Insert(t));
  }

  lemma RowCommitted(c: Config, u: User, sv: Server, start: Server, t: nat, s: Address) returns (sv': Server)
    requires Leads(c, u, start, sv) && t in sv.txs && sv.txs[t] == Tx(u, Inserted(s))
    ensures CanAnswer(c, u, start, s, sv')
  {
    sv' := Do(c, sv, Commit(t));
    assert Answered(sv, Commit(t)) == Some((u, s));
  }

  /** A new call that finds nothing unexpired for u. */
  lemma LookMisses(c: Config, u: User, sv: Server, start: Server) returns (t: nat, sv': Server)
    requires Safe(sv) && Leads(c, u, start, sv) && Found(c, sv.layers, CacheKey(u), sv.now) == None
    ensures Leads(c, u, start, sv') && Safe(sv') && sv'.db == sv.db && sv'.layers == sv.layers && sv'.now == sv.now
    ensures t in sv'.txs && sv'.txs[t] == Tx(u, Missed)
  {
    var s1;
    t, s1 := LookedUp(c, u, sv, start);
    LeadsStep(c, u, start, s1, Look(t));
    StepIsSafe(c, s1, Look(t));
    sv' := Do(c, s1, Look(t));
  }

  lemma RowRead(c: Config, u: User, sv: Server, start: Server, t: nat) returns (sv': Server)
    requires Safe(sv) && Leads(c, u, start, sv) && t in sv.txs && sv.txs[t] == Tx(u, Missed)
    ensures Leads(c, u, start, sv') && Safe(sv') && sv'.db == sv.db
    ensures t in sv'.txs && sv'.txs[t] == Tx(u, if u in sv.db.mapping then Holding(sv.db.mapping[u]) else Missing)
  {
    LeadsStep(c, u, start, sv, Read(t));
    StepIsSafe(c, sv, Read(t));
    sv' := Do(c, sv, Read(t));
  }

  /** A user without a row can be given any shard. */
  lemma NewRow(c: Config, u: User, sv: Server, start: Server, t: nat, s: Address) returns (sv': Server)
    requires Safe(sv) && Leads(c, u, start, sv) && u !in sv.db.mapping && !Held(sv, u)
    requires t in sv.txs && sv.txs[t] == Tx(u, Missing)
    ensures CanAnswer(c, u, start, s, sv')
  {
    LeadsStep(c, u, start, sv, NewShard(s));
    var s1 := Do(c, sv, NewShard(s));
    var s2 := ShardChosen(c, u, s1, start, t, s);
    var s3 := RowInserted(c, u, s2, start, t, s);
    sv' := RowCommitted(c, u, s3, start, t, s);
  }

  /** From any state a call can be answered other than by a value that is not the row. */
  lemma OtherAnswer(c: Config, u: User, sv: Server, v: Address) returns (b: Address, sv': Server)
    requires Safe(sv) && Row(sv.db, u) != Some(v)
    ensures CanAnswer(c, u, sv, b, sv') && b != v
  {
    var t, mid := ReadRow(c, u, sv);
    if u in sv.db.mapping {
      b := sv.db.mapping[u];
      sv' := Do(c, mid, Store(t));
      assert Answered(mid, Store(t)) == Some((u, b));
    } else {
      var free := Released(c, u, mid, sv, t);
      b := v + "x";
      sv' := NewRow(c, u, free, sv, t, b);
    }
  }

  /**
   Exactly when calls agree: short of a disturbance any two answers to u are the same if and only if
   no unexpired entry for u, and no value on its way into one, differs from the user's row.
   */
  lemma AgreementIsFreshness(c: Config, u: User, sv: Server)
    requires Safe(sv)
    ensures AlwaysAgree(c, u, sv) <==> Fresh(c, sv, u)
  {
    if Fresh(c, sv, u) {
      forall a, b, sv', sv'' | CanAnswer(c, u, sv, a, sv') && CanAnswer(c, u, sv', b, sv'') ensures a == b {
        CallsAgree(c, u, sv, a, sv', b, sv'');
      }
    } else {
      var a, sv' := StaleAnswer(c, u, sv);
      var b, sv'' := OtherAnswer(c, u, sv', a);
    }
  }

  // --------------------------------------------------------------------- what makes it fail

  /**
   A removed shard stays in the cache: when an unexpired entry names the shard of a user, its removal
   leads to calls that disagree although nothing disturbs them any more.
   */
  lemma RemovalMakesCallsDisagree(c: Config, u: User, sv: Server, s: Address)
    requires Safe(sv) && !Referenced(sv, s) && Row(sv.db, u) == Some(s)
    requires Live(sv.layers.l1, CacheKey(u), sv.now) == Some(s)
    ensures var sv' := Do(c, sv, DropShard(s)); Enabled(sv, DropShard(s)) && Safe(sv') && !AlwaysAgree(c, u, sv')
  {
    StepIsSafe(c, sv, DropShard(s));
    var sv' := Do(c, sv, DropShard(s));
    assert Row(sv'.db, u) == None;
    AgreementIsFreshness(c, u, sv');
  }

  /** The same as one run: answered a from the cache, and b when the entry has expired. */
  lemma ExpiryChangesTheAnswer(a: Address, b: Address, u: User)
    requires a != b
    ensures var c := Config(60, 300, false);
            var sv := Server(Tables({b}, map[]), Layers(map[CacheKey(u) := Entry(a, 60)], map[]), 0, map[]);
            exists sv', sv'' :: CanAnswer(c, u, sv, a, sv') && CanAnswer(c, u, sv', b, sv'')
  {
    var c := Config(60, 300, false);
    var sv := Server(Tables({b}, map[]), Layers(map[CacheKey(u) := Entry(a, 60)], map[]), 0, map[]);
    LeadsSelf(c, u, sv);
    assert Safe(sv) && !Held(sv, u);
    var t, s1 := LookedUp(c, u, sv, sv);
    assert Live(s1.layers.l1, CacheKey(u), s1.now) == Some(a);
    var s2 := Do(c, s1, Look(t));
    StepIsSafe(c, s1, Look(t));
    assert Answered(s1, Look(t)) == Some((u, a));
    var s3 := AfterExpiry(c, u, s2, 60, b);
  }

  lemma AfterExpiry(c: Config, u: User, sv: Server, n: nat, b: Address) returns (sv': Server)
    requires Safe(sv) && u !in sv.db.mapping && Found(c, sv.layers, CacheKey(u), sv.now + n) == None
    ensures CanAnswer(c, u, sv, b, sv')
  {
    LeadsSelf(c, u, sv);
    LeadsStep(c, u, sv, sv, Pass(n));
    var t, s1 := LookMisses(c, u, Do(c, sv, Pass(n)), sv);
    var s2 := RowRead(c, u, s1, sv, t);
    var s3 := Released(c, u, s2, sv, t);
    sv' := NewRow(c, u, s3, sv, t, b);
  }

  /**
   After a reassignment the invalidation that follows makes the user fresh again, unless it does not
   reach the second layer or a call is about to store what it read before.
   */
  lemma InvalidatedIsFreshExactly(c: Config, u: User, sv: Server)
    ensures Fresh(c, Do(c, sv, Uncache(u, true)), u)
       <==> forall t :: t in sv.txs ==> PendingAgrees(sv.txs[t], u, Row(sv.db, u))
  {
    var sv' := Do(c, sv, Uncache(u, true));
    assert Live(sv'.layers.l1, CacheKey(u), sv'.now) == None;
    assert c.second ==> Live(sv'.layers.l2, CacheKey(u), sv'.now) == None;
    assert sv'.txs == sv.txs && sv'.db == sv.db;
  }
}
