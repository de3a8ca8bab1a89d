/**
 A call whose steps are not interrupted by others does what the service does in one
 (lib/shards/shards.go:45-122; lib/shards/cache/cache.go:59-126).
 */
module ShardSequential {
  import opened Basics
  import opened Cache
  import opened Shards
  import opened ShardTransactions

  function WorldOf(sv: Server): (w: World) {
    World(sv.db, sv.layers, sv.now)
  }

  /** The run ends in sv', with the answer of its last step. */
  ghost predicate Runs(c: Config, sv: Server, es: seq<Event>, sv': Server, answer: Option<(User, Address)>) {
    && es != [] && IsRun(c, sv, es) && DoAll(c, sv, es) == sv'
    && answer == Answered(DoAll(c, sv, es[..|es| - 1]), es[|es| - 1])
  }

  lemma RunsOne(c: Config, sv: Server, e: Event)
    requires Enabled(sv, e)
    ensures Runs(c, sv, [e], Do(c, sv, e), Answered(sv, e))
  {
    var none: seq<Event> := [];
    assert [e][..0] == none && DoAll(c, sv, none) == sv && IsRun(c, sv, none);
    assert DoAll(c, sv, [e]) == Do(c, DoAll(c, sv, [e][..0]), [e][0]);
  }

  lemma RunsNext(c: Config, sv: Server, es: seq<Event>, mid: Server, a: Option<(User, Address)>, e: Event)
    requires Runs(c, sv, es, mid, a) && Enabled(mid, e)
    ensures Runs(c, sv, es + [e], Do(c, mid, e), Answered(mid, e))
  {
    assert (es + [e])[..|es|] == es;
  }

  /** What a lookup answers, named with its user. */
  function Named(u: User, a: Option<Address>): (r: Option<(User, Address)>) {
    if a.Some? then Some((u, a.value)) else None
  }

  lemma LooksUp(c: Config, sv: Server, t: nat, u: User) returns (es: seq<Event>, mid: Server)
    requires t !in sv.txs
    ensures t in mid.txs && mid.txs == sv.txs[t := Tx(u, AfterLook(c, Do(c, sv, Begin(t, u)), t))]
    ensures WorldOf(mid) == WorldOf(sv)
    ensures var l1 := Live(sv.layers.l1, CacheKey(u), sv.now); Runs(c, sv, es, mid, Named(u, l1))
  {
    RunsOne(c, sv, Begin(t, u));
    var begun := Do(c, sv, Begin(t, u));
    RunsNext(c, sv, [Begin(t, u)], begun, Answered(sv, Begin(t, u)), Look(t));
    es, mid := [Begin(t, u)] + [Look(t)], Do(c, begun, Look(t));
  }

  /** From the miss on: the row is read, and stored if there is one. */
  lemma Misses(c: Config, sv: Server, es: seq<Event>, mid: Server, a: Option<(User, Address)>, t: nat)
    returns (es': seq<Event>, sv': Server)
    requires Runs(c, sv, es, mid, a) && t in mid.txs && mid.txs[t].phase.Missed?
    ensures var u := mid.txs[t].u;
            var row := Row(mid.db, u);
            && Runs(c, sv, es', sv', Named(u, row))
            && sv' == if row.None? then mid.(txs := mid.txs[t := Tx(u, Missing)])
                      else mid.(txs := mid.txs[t := Tx(u, Over)],
                                layers := DoSet(c, mid.layers, CacheKey(u), row.value, mid.now))
  {
    RunsNext(c, sv, es, mid, a, Read(t));
    es', sv' := es + [Read(t)], Do(c, mid, Read(t));
    if sv'.txs[t].phase.Holding? {
      var read := sv';
      RunsNext(c, sv, es', read, Answered(mid, Read(t)), Store(t));
      es', sv' := es' + [Store(t)], Do(c, read, Store(t));
      assert sv'.txs == mid.txs[t := Tx(mid.txs[t].u, Over)];
    }
  }

  /** An uninterrupted lookup leaves tables and cache as GetShardForUser does, and answers the same. */
  lemma LookupAlone(c: Config, sv: Server, t: nat, u: User) returns (es: seq<Event>, sv': Server)
    requires t !in sv.txs
    ensures Runs(c, sv, es, sv', Named(u, Answer(c, WorldOf(sv), u)))
    ensures WorldOf(sv') == After(c, WorldOf(sv), Lookup(u))
    ensures t in sv'.txs && sv'.txs[t].u == u && sv'.txs.Keys == sv.txs.Keys + {t}
    ensures forall x :: x in sv.txs ==> sv'.txs[x] == sv.txs[x]
    ensures sv'.txs[t].phase == if Answer(c, WorldOf(sv), u).Some? then Over else Missing
  {
    var mid;
    es, mid := LooksUp(c, sv, t, u);
    var l1 := Live(sv.layers.l1, CacheKey(u), sv.now);
    var a := Named(u, l1);
    sv' := mid;
    if mid.txs[t].phase.Refilling? {
      RunsNext(c, sv, es, mid, a, Refill(t));
      es, sv' := es + [Refill(t)], Do(c, mid, Refill(t));
    } else if mid.txs[t].phase.Missed? {
      es, sv' := Misses(c, sv, es, mid, a, t);
    }
  }

  /** An uninterrupted assignment of a user without a shard leaves them as EnsureShardForUser does. */
  lemma EnsureAlone(c: Config, sv: Server, t: nat, u: User, s: Address) returns (es: seq<Event>, sv': Server)
    requires t !in sv.txs && Answer(c, WorldOf(sv), u).None? && s in sv.db.shards && !Held(sv, u)
    ensures Runs(c, sv, es, sv', Some((u, s))) && WorldOf(sv') == After(c, WorldOf(sv), Ensure(u, Some(s)))
  {
    var mid;
    es, mid := LookupAlone(c, sv, t, u);
    var a := Named(u, Answer(c, WorldOf(sv), u));
    RunsNext(c, sv, es, mid, a, Choose(t, s));
    var chosen := Do(c, mid, Choose(t, s));
    assert !Held(chosen, u) by {
      assert forall x :: x in chosen.txs && x != t ==> chosen.txs[x] == sv.txs[x];
    }
    RunsNext(c, sv, es + [Choose(t, s)], chosen, Answered(mid, Choose(t, s)), Insert(t));
    var inserted := Do(c, chosen, Insert(t));
    RunsNext(c, sv, es + [Choose(t, s)] + [Insert(t)], inserted, Answered(chosen, Insert(t)), Commit(t));
    es, sv' := es + [Choose(t, s)] + [Insert(t)] + [Commit(t)], Do(c, inserted, Commit(t));
  }

  /** The other steps are those of the service, a reassignment and its invalidation together. */
  lemma OthersAlone(c: Config, sv: Server, u: User, s: Address, reached: bool, first: bool, k: Key, n: nat)
    ensures s in sv.db.shards ==>
              WorldOf(Do(c, Do(c, sv, Reassign(u, s)), Uncache(u, reached)))
              == After(c, WorldOf(sv), SetShard(u, s, reached))
    ensures WorldOf(Do(c, sv, NewShard(s))) == After(c, WorldOf(sv), AddShard(s))
    ensures WorldOf(Do(c, sv, DropEntry(first, k))) == After(c, WorldOf(sv), Drop(first, k))
    ensures WorldOf(Do(c, sv, Pass(n))) == After(c, WorldOf(sv), Wait(n))
  {
  }
}
