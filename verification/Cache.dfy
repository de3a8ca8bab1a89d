/** The two-layer cache with expiry (lib/shards/cache/cache.go). */
module Cache {
  import opened Basics

  type Key = string
  type Value = string

  /** A stored value and the second at which it stops being served. */
  datatype Entry = Entry(value: Value, expires: int)

  /** The configured lifetimes; `second` says whether memcache servers are configured. */
  datatype Config = Config(l1Expiration: nat, l2Expiration: nat, second: bool)

  datatype Layers = Layers(l1: map<Key, Entry>, l2: map<Key, Entry>)

  const EMPTY: Layers := Layers(map[], map[])

  function Live(m: map<Key, Entry>, k: Key, now: int): (r: Option<Value>) {
    if k in m && now < m[k].expires then Some(m[k].value) else None
  }

  /** A value goes to both layers, each with its own lifetime. */
  function DoSet(c: Config, s: Layers, k: Key, v: Value, now: int): (r: Layers) {
    Layers(s.l1[k := Entry(v, now + c.l1Expiration)],
           if c.second then s.l2[k := Entry(v, now + c.l2Expiration)] else s.l2)
  }

  function Found(c: Config, s: Layers, k: Key, now: int): (r: Option<Value>) {
    if Live(s.l1, k, now).Some? then Live(s.l1, k, now)
    else if c.second then Live(s.l2, k, now)
    else None
  }

  /** A hit in the second layer refills the first one with a new lifetime. */
  function DoGet(c: Config, s: Layers, k: Key, now: int): (r: Layers) {
    if Live(s.l1, k, now).None? && c.second && Live(s.l2, k, now).Some?
    then s.(l1 := s.l1[k := Entry(Live(s.l2, k, now).value, now + c.l1Expiration)])
    else s
  }

  /** The key leaves the first layer, and the second one when the server is reached. */
  function DoInvalidate(c: Config, s: Layers, k: Key, reached: bool): (r: Layers) {
    Layers(s.l1 - {k}, if c.second && reached then s.l2 - {k} else s.l2)
  }

  /** Either layer may drop an entry at any time. */
  function DoEvict(s: Layers, first: bool, k: Key): (r: Layers) {
    if first then s.(l1 := s.l1 - {k}) else s.(l2 := s.l2 - {k})
  }

  /** The cache object; the clock is read by the caller and passed in. */
  class LayeredCache {
    const config: Config
    var l1: map<Key, Entry>
    var l2: map<Key, Entry>

    ghost function State(): (s: Layers)
      reads this
    {
      Layers(l1, l2)
    }

    constructor (config: Config)
      ensures this.config == config && State() == EMPTY
    {
      this.config := config;
      l1, l2 := map[], map[];
    }

    method Get(k: Key, now: int) returns (r: Option<Value>)
      modifies this
      ensures r == Found(config, old(State()), k, now)
      ensures State() == DoGet(config, old(State()), k, now)
    {
      r := Live(l1, k, now);
      if r.None? && config.second {
        r := Live(l2, k, now);
        if r.Some? {
          l1 := l1[k := Entry(r.value, now + config.l1Expiration)];
        }
      }
    }

    method Set(k: Key, v: Value, now: int)
      modifies this
      ensures State() == DoSet(config, old(State()), k, v, now)
    {
      l1 := l1[k := Entry(v, now + config.l1Expiration)];
      if config.second {
        l2 := l2[k := Entry(v, now + config.l2Expiration)];
      }
    }

    /** An unreached server keeps the key, and an absent key is an error of memcache as well. */
    method Invalidate(k: Key, reached: bool, now: int) returns (err: bool)
      modifies this
      ensures State() == DoInvalidate(config, old(State()), k, reached)
      ensures err == (config.second && (!reached || Live(old(l2), k, now).None?))
    {
      err := false;
      l1 := l1 - {k};
      if config.second {
        err := !reached || Live(l2, k, now).None?;
        if reached {
          l2 := l2 - {k};
        }
      }
    }

    /** Use with a getter whose answer is `fetched`; the getter is asked only on a miss. */
    method Use(k: Key, fetched: Option<Value>, now: int) returns (r: Option<Value>)
      modifies this
      ensures r == Used(config, old(State()), k, fetched, now)
      ensures State() == DoUse(config, old(State()), k, fetched, now)
    {
      r := Get(k, now);
      if r.Some? {
        return;
      }
      if fetched.None? {
        return None;
      }
      Set(k, fetched.value, now);
      r := fetched;
    }
  }

  /** What Use answers: what is found, or else what the getter delivers. */
  function Used(c: Config, s: Layers, k: Key, fetched: Option<Value>, now: int): (r: Option<Value>) {
    if Found(c, s, k, now).Some? then Found(c, s, k, now) else fetched
  }

  function DoUse(c: Config, s: Layers, k: Key, fetched: Option<Value>, now: int): (r: Layers) {
    if Found(c, s, k, now).Some? || fetched.None? then DoGet(c, s, k, now)
    else DoSet(c, DoGet(c, s, k, now), k, fetched.value, now)
  }

  // --------------------------------------------------------------------------- runs

  datatype Op =
    | Set(k: Key, v: Value)
    | Get(k: Key)
    | Use(k: Key, fetched: Option<Value>)
    | Invalidate(k: Key, reached: bool)
    | Evict(first: bool, k: Key)
    | Tick(seconds: nat)

  /** A cache and the clock. */
  datatype Moment = Moment(layers: Layers, now: int)

  function Step(c: Config, m: Moment, op: Op): (r: Moment) {
    match op
    case Set(k, v) => m.(layers := DoSet(c, m.layers, k, v, m.now))
    case Get(k) => m.(layers := DoGet(c, m.layers, k, m.now))
    case Use(k, fetched) => m.(layers := DoUse(c, m.layers, k, fetched, m.now))
    case Invalidate(k, reached) => m.(layers := DoInvalidate(c, m.layers, k, reached))
    case Evict(first, k) => m.(layers := DoEvict(m.layers, first, k))
    case Tick(n) => m.(now := m.now + n)
  }

  function Run(c: Config, start: int, ops: seq<Op>): (m: Moment)
  {
    if ops == [] then Moment(EMPTY, start) else Step(c, Run(c, start, ops[..|ops| - 1]), ops[|ops| - 1])
  }

  /** An invalidation that takes k out of every layer. */
  predicate Clears(c: Config, op: Op, k: Key) {
    op.Invalidate? && op.k == k && (op.reached || !c.second)
  }

  /** The operation puts v under k: a Set, or a Use that misses and gets v from its getter. */
  predicate Stores(c: Config, m: Moment, op: Op, k: Key, v: Value) {
    op == Set(k, v) || (op == Use(k, Some(v)) && Found(c, m.layers, k, m.now).None?)
  }

  /** The i-th operation put v under k, and k was not cleared since. */
  ghost predicate SetAt(c: Config, start: int, ops: seq<Op>, i: nat, k: Key, v: Value) {
    && i < |ops| && Stores(c, Run(c, start, ops[..i]), ops[i], k, v)
    && forall j :: i < j < |ops| ==> !Clears(c, ops[j], k)
  }

  function TimeOf(c: Config, start: int, ops: seq<Op>, i: nat): (t: int)
    requires i <= |ops|
  {
    Run(c, start, ops[..i]).now
  }

  /** How long a value may be served after it was set. */
  function Span(c: Config): (n: nat) {
    if c.second then c.l1Expiration + c.l2Expiration else c.l1Expiration
  }

  /** Everything stored goes back to a Set or a Use that is young enough and was not invalidated. */
  ghost predicate Explained(c: Config, start: int, ops: seq<Op>) {
    var m := Run(c, start, ops);
    && (forall k :: k in m.layers.l1 ==>
          exists i: nat :: SetAt(c, start, ops, i, k, m.layers.l1[k].value)
                           && m.layers.l1[k].expires <= TimeOf(c, start, ops, i) + Span(c))
    && (forall k :: k in m.layers.l2 ==>
          c.second && exists i: nat :: SetAt(c, start, ops, i, k, m.layers.l2[k].value)
                                       && m.layers.l2[k].expires <= TimeOf(c, start, ops, i) + c.l2Expiration)
  }

  lemma {:induction false} ClockGoesOn(c: Config, start: int, ops: seq<Op>, i: nat)
    requires i <= |ops|
    ensures TimeOf(c, start, ops, i) <= Run(c, start, ops).now
    decreases |ops| - i
  {
    if i == |ops| {
      assert ops[..i] == ops;
    } else {
      ClockGoesOn(c, start, ops, i + 1);
      Snoc(ops, i);
    }
  }

  /** An earlier store still explains an entry after an operation that does not invalidate its key. */
  lemma StillSet(c: Config, start: int, ops: seq<Op>, i: nat, k: Key, v: Value)
    requires ops != [] && SetAt(c, start, ops[..|ops| - 1], i, k, v) && !Clears(c, ops[|ops| - 1], k)
    ensures SetAt(c, start, ops, i, k, v) && TimeOf(c, start, ops, i) == TimeOf(c, start, ops[..|ops| - 1], i)
  {
    assert ops[..|ops| - 1][..i] == ops[..i];
  }

  /** Where an entry of the first layer comes from: just stored, just refilled, or there before. */
  lemma FirstLayerStep(c: Config, m: Moment, op: Op, k: Key)
    requires k in Step(c, m, op).layers.l1
    ensures var e := Step(c, m, op).layers.l1[k];
            && !Clears(c, op, k)
            && (|| (Stores(c, m, op, k, e.value) && e.expires == m.now + c.l1Expiration)
                || (c.second && Live(m.layers.l2, k, m.now) == Some(e.value) && e.expires == m.now + c.l1Expiration)
                || (k in m.layers.l1 && e == m.layers.l1[k]))
  {
  }

  lemma SecondLayerStep(c: Config, m: Moment, op: Op, k: Key)
    requires k in Step(c, m, op).layers.l2 && (m.layers.l2 != map[] ==> c.second)
    ensures var e := Step(c, m, op).layers.l2[k];
            && !Clears(c, op, k) && c.second
            && (|| (Stores(c, m, op, k, e.value) && e.expires == m.now + c.l2Expiration)
                || (k in m.layers.l2 && e == m.layers.l2[k]))
  {
  }

  /** The last operation stored v. */
  lemma JustSet(c: Config, start: int, ops: seq<Op>, k: Key, v: Value)
    requires ops != [] && Stores(c, Run(c, start, ops[..|ops| - 1]), ops[|ops| - 1], k, v)
    ensures SetAt(c, start, ops, |ops| - 1, k, v)
  {
  }

  lemma FirstLayerExplained(c: Config, start: int, ops: seq<Op>, k: Key) returns (i: nat)
    requires ops != [] && Explained(c, start, ops[..|ops| - 1]) && k in Run(c, start, ops).layers.l1
    ensures var e := Run(c, start, ops).layers.l1[k];
            SetAt(c, start, ops, i, k, e.value) && e.expires <= TimeOf(c, start, ops, i) + Span(c)
  {
    var pre, op := ops[..|ops| - 1], ops[|ops| - 1];
    var m, e := Run(c, start, pre), Run(c, start, ops).layers.l1[k];
    FirstLayerStep(c, m, op, k);
    if Stores(c, m, op, k, e.value) && e.expires == m.now + c.l1Expiration {
      i := |ops| - 1;
      JustSet(c, start, ops, k, e.value);
    } else if k in m.layers.l1 && e == m.layers.l1[k] {
      i :| SetAt(c, start, pre, i, k, e.value) && e.expires <= TimeOf(c, start, pre, i) + Span(c);
      StillSet(c, start, ops, i, k, e.value);
    } else {
      i :| SetAt(c, start, pre, i, k, e.value) && m.layers.l2[k].expires <= TimeOf(c, start, pre, i) + c.l2Expiration;
      StillSet(c, start, ops, i, k, e.value);
    }
  }

  lemma SecondLayerExplained(c: Config, start: int, ops: seq<Op>, k: Key) returns (i: nat)
    requires ops != [] && Explained(c, start, ops[..|ops| - 1]) && k in Run(c, start, ops).layers.l2
    ensures var e := Run(c, start, ops).layers.l2[k];
            c.second && SetAt(c, start, ops, i, k, e.value) && e.expires <= TimeOf(c, start, ops, i) + c.l2Expiration
  {
    var pre, op := ops[..|ops| - 1], ops[|ops| - 1];
    var m, e := Run(c, start, pre), Run(c, start, ops).layers.l2[k];
    SecondLayerStep(c, m, op, k);
    if k in m.layers.l2 && e == m.layers.l2[k] {
      i :| SetAt(c, start, pre, i, k, e.value) && e.expires <= TimeOf(c, start, pre, i) + c.l2Expiration;
      StillSet(c, start, ops, i, k, e.value);
    } else {
      i := |ops| - 1;
      JustSet(c, start, ops, k, e.value);
    }
  }

  lemma {:induction false} RunIsExplained(c: Config, start: int, ops: seq<Op>)
    ensures Explained(c, start, ops)
  {
    if ops != [] {
      RunIsExplained(c, start, ops[..|ops| - 1]);
      var m := Run(c, start, ops);
      forall k | k in m.layers.l1
        ensures exists i: nat :: SetAt(c, start, ops, i, k, m.layers.l1[k].value)
                                 && m.layers.l1[k].expires <= TimeOf(c, start, ops, i) + Span(c)
      {
        var i := FirstLayerExplained(c, start, ops, k);
      }
      forall k | k in m.layers.l2
        ensures c.second && exists i: nat :: SetAt(c, start, ops, i, k, m.layers.l2[k].value)
                                             && m.layers.l2[k].expires <= TimeOf(c, start, ops, i) + c.l2Expiration
      {
        var i := SecondLayerExplained(c, start, ops, k);
      }
    }
  }

  /**
   In every run, with any evictions and any passing of time: a value found for a key was put there
   less than the full span ago, and not invalidated since by a call that reached the second layer.
   */
  lemma FoundIsYoung(c: Config, start: int, ops: seq<Op>, k: Key) returns (i: nat)
    requires var m := Run(c, start, ops); Found(c, m.layers, k, m.now).Some?
    ensures var m := Run(c, start, ops);
            && SetAt(c, start, ops, i, k, Found(c, m.layers, k, m.now).value)
            && 0 <= m.now - TimeOf(c, start, ops, i) < Span(c)
  {
    var m := Run(c, start, ops);
    RunIsExplained(c, start, ops);
    if Live(m.layers.l1, k, m.now).Some? {
      i :| SetAt(c, start, ops, i, k, m.layers.l1[k].value)
          && m.layers.l1[k].expires <= TimeOf(c, start, ops, i) + Span(c);
    } else {
      i :| SetAt(c, start, ops, i, k, m.layers.l2[k].value)
          && m.layers.l2[k].expires <= TimeOf(c, start, ops, i) + c.l2Expiration;
    }
    ClockGoesOn(c, start, ops, i);
  }

  // ---------------------------------------------------------------- what is stored stays

  /** The operation may take v, held under k by the first layer, from there. */
  predicate DisturbsFirst(op: Op, k: Key, v: Value) {
    op == Evict(true, k) || (op.Invalidate? && op.k == k) || (op.Set? && op.k == k && op.v != v)
  }

  /** The like for the second layer, which an unreached invalidation spares. */
  predicate DisturbsSecond(op: Op, k: Key, v: Value) {
    op == Evict(false, k) || op == Invalidate(k, true) || (op.Set? && op.k == k && op.v != v)
  }

  ghost predicate FirstHolds(s: Layers, k: Key, v: Value, until: int) {
    k in s.l1 && s.l1[k].value == v && until <= s.l1[k].expires
  }

  ghost predicate SecondHolds(s: Layers, k: Key, v: Value, until: int) {
    && k in s.l2 && s.l2[k].value == v && until <= s.l2[k].expires
    && (k in s.l1 ==> s.l1[k].value == v)
  }

  lemma StepKeepsFirst(c: Config, m: Moment, op: Op, k: Key, v: Value, until: int)
    requires FirstHolds(m.layers, k, v, until) && m.now < until && until <= m.now + c.l1Expiration
    requires !DisturbsFirst(op, k, v)
    ensures FirstHolds(Step(c, m, op).layers, k, v, until)
  {
  }

  lemma StepKeepsSecond(c: Config, m: Moment, op: Op, k: Key, v: Value, until: int)
    requires c.second && SecondHolds(m.layers, k, v, until) && m.now < until && until <= m.now + c.l2Expiration
    requires !DisturbsSecond(op, k, v)
    ensures SecondHolds(Step(c, m, op).layers, k, v, until)
  {
  }

  /**
   In every run: what a Set, or a Use that missed, puts under a key is found until the first lifetime
   is over, unless the first layer evicts the key, the key is invalidated, or something else is set.
   Another Use in that time answers the same, whatever its getter would deliver.
   */
  lemma {:induction false} StoredIsFound(c: Config, start: int, ops: seq<Op>, i: nat, k: Key, v: Value)
    requires i < |ops| && Stores(c, Run(c, start, ops[..i]), ops[i], k, v)
    requires forall j :: i < j < |ops| ==> !DisturbsFirst(ops[j], k, v)
    requires Run(c, start, ops).now < Run(c, start, ops[..i]).now + c.l1Expiration
    ensures var m := Run(c, start, ops);
            && FirstHolds(m.layers, k, v, Run(c, start, ops[..i]).now + c.l1Expiration)
            && Found(c, m.layers, k, m.now) == Some(v)
            && forall again :: Used(c, m.layers, k, again, m.now) == Some(v)
    decreases |ops|
  {
    var pre := ops[..|ops| - 1];
    if i < |ops| - 1 {
      assert pre[..i] == ops[..i];
      StoredIsFound(c, start, pre, i, k, v);
      ClockGoesOn(c, start, pre, i);
      StepKeepsFirst(c, Run(c, start, pre), ops[|ops| - 1], k, v, Run(c, start, ops[..i]).now + c.l1Expiration);
    }
  }

  /**
   With a second layer, what was put there is found until the second lifetime is over, whatever the
   first layer drops and whatever invalidation misses the server.
   */
  lemma {:induction false} StoredIsFoundBehind(c: Config, start: int, ops: seq<Op>, i: nat, k: Key, v: Value)
    requires c.second && i < |ops| && Stores(c, Run(c, start, ops[..i]), ops[i], k, v)
    requires forall j :: i < j < |ops| ==> !DisturbsSecond(ops[j], k, v)
    requires Run(c, start, ops).now < Run(c, start, ops[..i]).now + c.l2Expiration
    ensures var m := Run(c, start, ops);
            && SecondHolds(m.layers, k, v, Run(c, start, ops[..i]).now + c.l2Expiration)
            && Found(c, m.layers, k, m.now) == Some(v)
            && forall again :: Used(c, m.layers, k, again, m.now) == Some(v)
    decreases |ops|
  {
    var pre := ops[..|ops| - 1];
    if i < |ops| - 1 {
      assert pre[..i] == ops[..i];
      StoredIsFoundBehind(c, start, pre, i, k, v);
      ClockGoesOn(c, start, pre, i);
      StepKeepsSecond(c, Run(c, start, pre), ops[|ops| - 1], k, v, Run(c, start, ops[..i]).now + c.l2Expiration);
    }
  }

  /** A hit in the second layer is served by the first one for a whole new lifetime. */
  lemma RefillIsFresh(c: Config, s: Layers, k: Key, now: int, later: nat)
    requires c.second && Live(s.l1, k, now).None? && Live(s.l2, k, now).Some? && later < c.l1Expiration
    ensures Live(DoGet(c, s, k, now).l1, k, now + later) == Live(s.l2, k, now)
  {
  }

  /**
   The bound is reached, up to the seconds the clock counts in: refilling at the last moment almost
   doubles the life.
   */
  lemma SpanIsTight(c: Config, v: Value)
    requires c.second && 0 < c.l1Expiration < c.l2Expiration
    ensures var k := "k";
            var ops := [Set(k, v), Tick(c.l2Expiration - 1), Get(k), Tick(c.l1Expiration - 1)];
            var m := Run(c, 0, ops);
            m.now == Span(c) - 2 && Found(c, m.layers, k, m.now) == Some(v)
  {
    var k := "k";
    var a := [Set(k, v)];
    var b := a + [Tick(c.l2Expiration - 1)];
    var d := b + [Get(k)];
    var e := d + [Tick(c.l1Expiration - 1)];
    assert e == [Set(k, v), Tick(c.l2Expiration - 1), Get(k), Tick(c.l1Expiration - 1)];
    assert a[..0] == [] && b[..1] == a && d[..2] == b && e[..3] == d;
    var none: seq<Op> := [];
    assert Run(c, 0, none) == Moment(EMPTY, 0);
    assert Run(c, 0, a) == Step(c, Run(c, 0, none), Set(k, v));
    assert Run(c, 0, b) == Step(c, Run(c, 0, a), Tick(c.l2Expiration - 1));
    assert Run(c, 0, d) == Step(c, Run(c, 0, b), Get(k));
    assert Run(c, 0, e) == Step(c, Run(c, 0, d), Tick(c.l1Expiration - 1));
  }

  // ---------------------------------------------------------------- no lock on Invalidate

  /** The two halves of a Get that misses the first layer; Invalidate does not take the lock and can come between. */
  function ReadSecond(c: Config, s: Layers, k: Key, now: int): (r: Option<Value>) {
    if Live(s.l1, k, now).None? && c.second then Live(s.l2, k, now) else None
  }

  function Refill(c: Config, s: Layers, k: Key, read: Option<Value>, now: int): (r: Layers) {
    if read.Some? then s.(l1 := s.l1[k := Entry(read.value, now + c.l1Expiration)]) else s
  }

  /**
   Undisturbed, the halves make up Get.  With Invalidate between them, the key is served afterwards
   if and only if the first half had found it, although it was just invalidated.
   */
  lemma InvalidateBetweenHalves(c: Config, s: Layers, k: Key, now: int)
    requires c.l1Expiration > 0
    ensures Refill(c, s, k, ReadSecond(c, s, k, now), now) == DoGet(c, s, k, now)
    ensures var after := Refill(c, DoInvalidate(c, s, k, true), k, ReadSecond(c, s, k, now), now);
            Found(c, after, k, now) == ReadSecond(c, s, k, now)
  {
  }
}
