/** Shard assignment over the two tables, with the cache in front (lib/shards/shards.go, lib/shards/sql.go). */
module Shards {
  import opened Basics
  import opened Cache

  type User = string
  type Address = string

  /** The tables: Shard with its primary key, ShardsMapping with one row per user. */
  datatype Tables = Tables(shards: set<Address>, mapping: map<User, Address>)

  /** The foreign key of ShardsMapping. */
  ghost predicate KeysHold(db: Tables) {
    forall u :: u in db.mapping ==> db.mapping[u] in db.shards
  }

  const CACHE_PREFIX := "user-shard."

  function CacheKey(u: User): (k: Key) {
    CACHE_PREFIX + u
  }

  lemma CacheKeyInjective(u: User, w: User)
    requires CacheKey(u) == CacheKey(w)
    ensures u == w
  {
    Cut(CACHE_PREFIX, u);
    Cut(CACHE_PREFIX, w);
  }

  function Row(db: Tables, u: User): (r: Option<Address>) {
    if u in db.mapping then Some(db.mapping[u]) else None
  }

  // ------------------------------------------------------------------- least loaded

  function UsersOf(db: Tables, s: Address): (r: set<User>) {
    set u | u in db.mapping && db.mapping[u] == s
  }

  /** The user count of a shard; shards without users count 0 (the left join). */
  function Load(db: Tables, s: Address): (n: nat) {
    |UsersOf(db, s)|
  }

  /**
   selectShard: a scan in whatever order the map yields its entries.  An empty result, be it no shard
   or a shard without address, is an error.
   */
  method SelectShard(counts: map<Address, nat>) returns (r: Option<Address>)
    requires forall s :: s in counts ==> counts[s] <= MAX_INT
    ensures r.Some? ==> r.value != "" && r.value in counts && forall s :: s in counts ==> counts[r.value] <= counts[s]
    ensures r.None? ==> counts == map[] || ("" in counts && forall s :: s in counts ==> counts[""] <= counts[s])
  {
    var min: int := MAX_INT;
    var url: Address := "";
    var rest := counts.Keys;
    while rest != {}
      invariant rest <= counts.Keys
      invariant rest == counts.Keys ==> url == "" && min == MAX_INT
      invariant rest != counts.Keys ==> url in counts && min == counts[url]
      invariant forall s :: s in counts && s !in rest ==> min <= counts[s]
      decreases |rest|
    {
      var s :| s in rest;
      rest := rest - {s};
      if min >= counts[s] {
        min := counts[s];
        url := s;
      }
    }
    if url == "" {
      return None;
    }
    return Some(url);
  }

  /** s is a shard that no other shard undercuts. */
  ghost predicate LeastLoaded(db: Tables, s: Address) {
    s in db.shards && forall t :: t in db.shards ==> Load(db, s) <= Load(db, t)
  }

  function Counts(db: Tables): (m: map<Address, nat>) {
    map s | s in db.shards :: Load(db, s)
  }

  function Assign(db: Tables, u: User, s: Address): (r: Tables) {
    db.(mapping := db.mapping[u := s])
  }

  // --------------------------------------------------------------- the cached service

  /** Every cached answer about a user, live or expired, is the user's row. */
  ghost predicate Coherent(c: Config, db: Tables, s: Layers) {
    && (!c.second ==> s.l2 == map[])
    && forall u :: (CacheKey(u) in s.l1 ==> Row(db, u) == Some(s.l1[CacheKey(u)].value))
             && (CacheKey(u) in s.l2 ==> Row(db, u) == Some(s.l2[CacheKey(u)].value))
  }

  /** The tables and the cache of one Shards instance. */
  class Service {
    var db: Tables
    const cache: LayeredCache

    constructor (config: Config)
      ensures db == Tables({}, map[]) && fresh(cache) && cache.State() == EMPTY
      ensures KeysHold(db) && Coherent(cache.config, db, cache.State())
    {
      db := Tables({}, map[]);
      cache := new LayeredCache(config);
    }

    ghost function Present(now: int): (w: World)
      reads this, cache
    {
      World(db, cache.State(), now)
    }

    /** The lookup through the cache answers what the tables say. */
    method GetShardForUser(u: User, now: int) returns (r: Option<Address>)
      requires Coherent(cache.config, db, cache.State())
      modifies cache
      ensures r == Row(db, u) && Coherent(cache.config, db, cache.State())
      ensures Present(now) == After(cache.config, old(Present(now)), Lookup(u))
      ensures r == Answer(cache.config, old(Present(now)), u)
    {
      ghost var before := cache.State();
      r := cache.Use(CacheKey(u), Row(db, u), now);
      UseIsCoherent(cache.config, db, before, u, now);
    }

    /** An existing assignment is returned; a new user gets a least loaded shard. */
    method EnsureShardForUser(u: User, now: int) returns (r: Option<Address>)
      requires Coherent(cache.config, db, cache.State()) && KeysHold(db)
      requires forall s :: s in db.shards ==> Load(db, s) <= MAX_INT
      modifies this`db, cache
      ensures Coherent(cache.config, db, cache.State()) && KeysHold(db)
      ensures u in old(db).mapping ==> r == Row(old(db), u) && db == old(db)
      ensures u !in old(db).mapping && r.Some? ==> LeastLoaded(old(db), r.value) && db == Assign(old(db), u, r.value)
      ensures r.None? ==> db == old(db) && (db.shards == {} || LeastLoaded(db, ""))
      ensures Present(now) == After(cache.config, old(Present(now)), Ensure(u, r))
    {
      ghost var before := cache.State();
      r := cache.Use(CacheKey(u), Row(db, u), now);
      UseIsCoherent(cache.config, db, before, u, now);
      if r.Some? {
        return;
      }
      r := SelectShard(Counts(db));
      assert forall s :: s in db.shards ==> s in Counts(db) && Counts(db)[s] == Load(db, s);
      if r.None? {
        return;
      }
      NewRowIsCoherent(cache.config, db, cache.State(), u, r.value);
      db := Assign(db, u, r.value);
    }

    /**
     Replaces the row, then drops the cached answer.  The row stands even if the cache reports an error;
     an error that left the second layer as it was leaves the old answer there.
     */
    method SetShardForUser(u: User, s: Address, reached: bool, now: int) returns (err: bool)
      requires Coherent(cache.config, db, cache.State()) && KeysHold(db)
      modifies this`db, cache
      ensures KeysHold(db) && (reached || !cache.config.second ==> Coherent(cache.config, db, cache.State()))
      ensures s in old(db).shards ==> db == Assign(old(db), u, s)
      ensures s !in old(db).shards ==> err && db == old(db)
      ensures s in old(db).shards && cache.config.second ==>
                err == (!reached || Live(old(cache.State()).l2, CacheKey(u), now).None?)
      ensures s in old(db).shards && !cache.config.second ==> !err
      ensures Present(now) == After(cache.config, old(Present(now)), SetShard(u, s, reached))
    {
      if s !in db.shards {
        return true;
      }
      ghost var before, was := cache.State(), db;
      db := Assign(db, u, s);
      err := cache.Invalidate(CacheKey(u), reached, now);
      if reached || !cache.config.second {
        SetIsCoherent(cache.config, was, before, u, s, reached);
      }
    }

    method EnsureShard(s: Address)
      requires Coherent(cache.config, db, cache.State()) && KeysHold(db)
      modifies this`db
      ensures Coherent(cache.config, db, cache.State()) && KeysHold(db)
      ensures db == Tables(old(db).shards + {s}, old(db).mapping)
      ensures forall now :: Present(now) == After(cache.config, old(Present(now)), AddShard(s))
    {
      db := Tables(db.shards + {s}, db.mapping);
    }

    /** RemoveShard leaves the cache alone. */
    method RemoveShard(s: Address)
      requires KeysHold(db)
      modifies this`db
      ensures KeysHold(db)
      ensures db == Without(old(db), s) && cache.State() == old(cache.State())
    {
      db := Without(db, s);
    }
  }

  function Without(db: Tables, s: Address): (r: Tables) {
    Tables(db.shards - {s}, map u | u in db.mapping && db.mapping[u] != s :: db.mapping[u])
  }

  lemma UseIsCoherent(c: Config, db: Tables, s: Layers, u: User, now: int)
    requires Coherent(c, db, s)
    ensures Coherent(c, db, DoUse(c, s, CacheKey(u), Row(db, u), now))
    ensures Found(c, s, CacheKey(u), now).Some? ==> Found(c, s, CacheKey(u), now) == Row(db, u)
  {
    var k := CacheKey(u);
    var s' := DoUse(c, s, k, Row(db, u), now);
    forall w
      ensures (CacheKey(w) in s'.l1 ==> Row(db, w) == Some(s'.l1[CacheKey(w)].value))
           && (CacheKey(w) in s'.l2 ==> Row(db, w) == Some(s'.l2[CacheKey(w)].value))
    {
      if CacheKey(w) == k {
        CacheKeyInjective(w, u);
      }
    }
  }

  lemma NewRowIsCoherent(c: Config, db: Tables, s: Layers, u: User, a: Address)
    requires Coherent(c, db, s) && u !in db.mapping
    ensures Coherent(c, Assign(db, u, a), s)
  {
    forall w
      ensures (CacheKey(w) in s.l1 ==> Row(Assign(db, u, a), w) == Some(s.l1[CacheKey(w)].value))
           && (CacheKey(w) in s.l2 ==> Row(Assign(db, u, a), w) == Some(s.l2[CacheKey(w)].value))
    {
      assert Row(db, u) == None;
    }
  }

  lemma SetIsCoherent(c: Config, db: Tables, s: Layers, u: User, a: Address, reached: bool)
    requires Coherent(c, db, s) && (reached || !c.second)
    ensures Coherent(c, Assign(db, u, a), DoInvalidate(c, s, CacheKey(u), reached))
  {
    var s' := DoInvalidate(c, s, CacheKey(u), reached);
    forall w
      ensures (CacheKey(w) in s'.l1 ==> Row(Assign(db, u, a), w) == Some(s'.l1[CacheKey(w)].value))
           && (CacheKey(w) in s'.l2 ==> Row(Assign(db, u, a), w) == Some(s'.l2[CacheKey(w)].value))
    {
      if w != u && CacheKey(w) == CacheKey(u) {
        CacheKeyInjective(w, u);
      }
    }
  }

  // ---------------------------------------------------------------- runs of the service

  datatype Call =
    | Lookup(u: User)
    | Ensure(u: User, choice: Option<Address>)
    | SetShard(u: User, s: Address, reached: bool)
    | AddShard(s: Address)
    | Drop(first: bool, k: Key)
    | Wait(seconds: nat)

  datatype World = World(db: Tables, layers: Layers, now: int)

  /** The same operations as values; `choice` is the shard the scan happened to pick, if any. */
  function After(c: Config, w: World, call: Call): (r: World) {
    match call
    case Lookup(u) => w.(layers := DoUse(c, w.layers, CacheKey(u), Row(w.db, u), w.now))
    case Ensure(u, choice) =>
      var layers := DoUse(c, w.layers, CacheKey(u), Row(w.db, u), w.now);
      if Answer(c, w, u).Some? || choice.None? then w.(layers := layers)
      else w.(layers := layers, db := Assign(w.db, u, choice.value))
    case SetShard(u, s, reached) =>
      if s in w.db.shards then w.(db := Assign(w.db, u, s), layers := DoInvalidate(c, w.layers, CacheKey(u), reached))
      else w
    case AddShard(s) => w.(db := Tables(w.db.shards + {s}, w.db.mapping))
    case Drop(first, k) => w.(layers := DoEvict(w.layers, first, k))
    case Wait(n) => w.(now := w.now + n)
  }

  /** What a lookup through the cache answers. */
  function Answer(c: Config, w: World, u: User): (r: Option<Address>) {
    Used(c, w.layers, CacheKey(u), Row(w.db, u), w.now)
  }

  function AfterAll(c: Config, w: World, calls: seq<Call>): (r: World)
  {
    if calls == [] then w else After(c, AfterAll(c, w, calls[..|calls| - 1]), calls[|calls| - 1])
  }

  /** The second layer, if there is one, is reached by every invalidation. */
  predicate Reaches(c: Config, call: Call) {
    call.SetShard? ==> call.reached || !c.second
  }

  lemma StepIsCoherent(c: Config, w: World, call: Call)
    requires Coherent(c, w.db, w.layers) && Reaches(c, call)
    ensures Coherent(c, After(c, w, call).db, After(c, w, call).layers)
  {
    match call
    case Lookup(u) => UseIsCoherent(c, w.db, w.layers, u, w.now);
    case Ensure(u, choice) =>
      UseIsCoherent(c, w.db, w.layers, u, w.now);
      if Answer(c, w, u).None? && choice.Some? {
        NewRowIsCoherent(c, w.db, After(c, w, call).layers, u, choice.value);
      }
    case SetShard(u, s, reached) => SetIsCoherent(c, w.db, w.layers, u, s, reached);
    case AddShard(s) =>
      assert forall u :: Row(After(c, w, call).db, u) == Row(w.db, u);
    case Drop(_, _) =>
    case Wait(_) =>
  }

  /** In every run, the cached form answers every lookup exactly as the tables would. */
  lemma {:induction false} CacheIsTransparent(c: Config, start: int, calls: seq<Call>, u: User)
    requires forall i :: 0 <= i < |calls| ==> Reaches(c, calls[i])
    ensures var w := AfterAll(c, World(Tables({}, map[]), EMPTY, start), calls);
            Coherent(c, w.db, w.layers) && Answer(c, w, u) == Row(w.db, u)
  {
    var w0 := World(Tables({}, map[]), EMPTY, start);
    if calls != [] {
      CacheIsTransparent(c, start, calls[..|calls| - 1], u);
      StepIsCoherent(c, AfterAll(c, w0, calls[..|calls| - 1]), calls[|calls| - 1]);
    }
    var w := AfterAll(c, w0, calls);
    UseIsCoherent(c, w.db, w.layers, u, w.now);
  }

  /**
   After an assignment whose invalidation did not reach the second layer, lookups stay right if and
   only if that layer has nothing else for the user.
   */
  lemma FailedInvalidationExactly(c: Config, w: World, u: User, s: Address)
    requires Coherent(c, w.db, w.layers) && s in w.db.shards && c.second
    ensures Transparent(c, After(c, w, SetShard(u, s, false)))
       <==> Live(w.layers.l2, CacheKey(u), w.now) in {None, Some(s)}
  {
    var w' := After(c, w, SetShard(u, s, false));
    forall v | v != u ensures Answer(c, w', v) == Row(w'.db, v) {
      UseIsCoherent(c, w.db, w.layers, v, w.now);
      if CacheKey(v) == CacheKey(u) {
        CacheKeyInjective(v, u);
      }
    }
    assert Row(w'.db, u) == Some(s);
    assert Live(w'.layers.l1, CacheKey(u), w.now) == None;
  }

  // --------------------------------------------------------- removal is not transparent

  /** Some user of shard a would be answered from the cache. */
  ghost predicate ServedFromCache(c: Config, w: World, a: Address) {
    exists u :: Row(w.db, u) == Some(a) && Found(c, w.layers, CacheKey(u), w.now).Some?
  }

  /** Every lookup is answered as the tables say. */
  ghost predicate Transparent(c: Config, w: World) {
    forall u :: Answer(c, w, u) == Row(w.db, u)
  }

  /**
   RemoveShard touches no cache key.  Lookups stay right if and only if no user of the removed shard
   is just then served from the cache; such a user keeps being sent to the removed shard.
   */
  lemma RemovalIsTransparentExactly(c: Config, w: World, a: Address)
    requires Coherent(c, w.db, w.layers)
    ensures Transparent(c, w.(db := Without(w.db, a))) <==> !ServedFromCache(c, w, a)
  {
    var w' := w.(db := Without(w.db, a));
    forall u
      ensures Found(c, w.layers, CacheKey(u), w.now).Some? ==> Found(c, w.layers, CacheKey(u), w.now) == Row(w.db, u)
    {
      UseIsCoherent(c, w.db, w.layers, u, w.now);
    }
    if ServedFromCache(c, w, a) {
      var u :| Row(w.db, u) == Some(a) && Found(c, w.layers, CacheKey(u), w.now).Some?;
      assert Answer(c, w', u) == Some(a) && Row(w'.db, u) == None;
    } else {
      forall u ensures Answer(c, w', u) == Row(w'.db, u) {
        assert !(Row(w.db, u) == Some(a) && Found(c, w.layers, CacheKey(u), w.now).Some?);
      }
    }
  }
}
