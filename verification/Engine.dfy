/** The process engines behind their shards, as the wrapper drives them (lib/camunda/camunda.go:520-624). */
module Engine {
  import opened Basics
  import Shards
  import opened VidRelation

  type Address = Shards.Address

  /** The deployments alive, each with the shard that holds it. */
  type Live = set<(Address, Did)>

  /**
   The answer to one deployment request.  Silent: no shard, no answer or an undecodable one; Nameless:
   an answer without id that is no engine exception.  Either may hide a deployment that was made.
   */
  datatype Answer = Silent(made: Option<Did>) | Named(id: Did) | EngineException | Nameless(made: Option<Did>)

  datatype Post = Post(shard: Address, answer: Answer)

  /** What a request leaves in the engine. */
  function Made(p: Post): (r: Live) {
    match p.answer
    case Named(id) => if id == "" then {} else {(p.shard, id)}
    case EngineException => {}
    case Silent(m) => if m.Some? then {(p.shard, m.value)} else {}
    case Nameless(m) => if m.Some? then {(p.shard, m.value)} else {}
  }

  /** The requests DeployProcess sends: a placeholder follows an engine exception. */
  function Sent(a: Post, b: Post): (r: Post) {
    if a.answer.EngineException? then b else a
  }

  function NewId(p: Post): (r: Option<Did>) {
    if p.answer.Named? && p.answer.id != "" then Some(p.answer.id) else None
  }

  /** The outcomes of one RemoveProcessForShard. */
  datatype Removal = Removal(shard: Address, counted: bool, fate: Fate)

  function RemoveOk(live: Live, d: Did, x: Removal): (ok: bool) {
    x.counted && ((x.shard, d) !in live || x.fate.Works?)
  }

  function RemoveLive(live: Live, d: Did, x: Removal): (r: Live) {
    if x.counted && !x.fate.Fails? then live - {(x.shard, d)} else live
  }

  /** The removals of a list one after the other, up to the first that fails. */
  function EachOk(live: Live, d: Did, xs: seq<Removal>): (ok: bool) {
    xs == [] || (RemoveOk(live, d, xs[0]) && EachOk(RemoveLive(live, d, xs[0]), d, xs[1..]))
  }

  function EachLive(live: Live, d: Did, xs: seq<Removal>): (r: Live) {
    if xs == [] then live
    else if RemoveOk(live, d, xs[0]) then EachLive(RemoveLive(live, d, xs[0]), d, xs[1..])
    else RemoveLive(live, d, xs[0])
  }

  // --------------------------------------------------- which lists remove a deployment

  /** The removal reports success when the deployment is on shard h. */
  predicate Smooth(x: Removal, h: Address) {
    x.counted && (x.shard != h || x.fate.Works?)
  }

  predicate Hits(x: Removal, h: Address) {
    x.counted && x.shard == h && !x.fate.Fails?
  }

  ghost predicate AllSmooth(xs: seq<Removal>, h: Address) {
    forall i :: 0 <= i < |xs| ==> Smooth(xs[i], h)
  }

  /** Shard h is reached, and the deployment removed there. */
  ghost predicate Reached(xs: seq<Removal>, h: Address) {
    exists i :: 0 <= i < |xs| && Hits(xs[i], h) && forall j :: 0 <= j < i ==> Smooth(xs[j], h)
  }

  /** No shard is listed twice (its address is the primary key). */
  ghost predicate OncePerShard(xs: seq<Removal>) {
    forall i, j :: 0 <= i < j < |xs| ==> xs[i].shard != xs[j].shard
  }

  /** Where the deployment is on no listed shard the removals change nothing. */
  lemma {:induction false} EachElsewhere(live: Live, d: Did, xs: seq<Removal>, h: Address)
    requires forall i :: 0 <= i < |xs| ==> (xs[i].shard, d) !in live && xs[i].shard != h
    ensures EachLive(live, d, xs) == live && (EachOk(live, d, xs) <==> AllSmooth(xs, h))
  {
    if xs != [] {
      EachElsewhere(live, d, xs[1..], h);
      assert RemoveLive(live, d, xs[0]) == live;
      assert xs == [xs[0]] + xs[1..];
    }
  }

  lemma ReachedNext(xs: seq<Removal>, h: Address)
    requires xs != [] && xs[0].shard != h && xs[0].counted
    ensures Reached(xs, h) <==> Reached(xs[1..], h)
    ensures AllSmooth(xs, h) <==> AllSmooth(xs[1..], h)
  {
    if Reached(xs, h) {
      var i :| 0 <= i < |xs| && Hits(xs[i], h) && forall j :: 0 <= j < i ==> Smooth(xs[j], h);
      assert xs[1..][i - 1] == xs[i];
      assert forall j :: 0 <= j < i - 1 ==> xs[1..][j] == xs[j + 1];
    }
    if Reached(xs[1..], h) {
      var i :| 0 <= i < |xs[1..]| && Hits(xs[1..][i], h) && forall j :: 0 <= j < i ==> Smooth(xs[1..][j], h);
      assert xs[i + 1] == xs[1..][i];
      forall j | 0 <= j < i + 1 ensures Smooth(xs[j], h) {
        assert j > 0 ==> xs[j] == xs[1..][j - 1];
      }
    }
    assert xs == [xs[0]] + xs[1..];
  }

  /** A deployment held by h alone: when the removals succeed, and when they take it away. */
  lemma {:induction false} EachExactly(live: Live, d: Did, xs: seq<Removal>, h: Address)
    requires OncePerShard(xs) && (h, d) in live && (forall p :: p in live && p.1 == d ==> p.0 == h)
    ensures EachOk(live, d, xs) <==> AllSmooth(xs, h)
    ensures EachLive(live, d, xs) == if Reached(xs, h) then live - {(h, d)} else live
  {
    if xs != [] {
      var x := xs[0];
      if x.shard == h {
        assert Hits(x, h) ==> Reached(xs, h);
        assert forall i :: 0 < i < |xs| ==> xs[i].shard != h;
        EachElsewhere(RemoveLive(live, d, x), d, xs[1..], h);
        assert xs == [x] + xs[1..];
      } else if x.counted {
        assert RemoveLive(live, d, x) == live;
        EachExactly(live, d, xs[1..], h);
        ReachedNext(xs, h);
      } else {
        assert !Smooth(x, h);
      }
    }
  }

  // -------------------------------------------------------------------------- the class

  class Camunda {
    var live: Live

    constructor ()
      ensures live == {}
    {
      live := {};
    }

    method Request(p: Post)
      modifies this
      ensures live == old(live) + Made(p)
    {
      live := live + Made(p);
    }

    /** The new id, or None for an error; an engine exception is retried once with a placeholder. */
    method DeployProcess(a: Post, b: Post) returns (r: Option<Did>)
      modifies this
      ensures r == NewId(Sent(a, b)) && live == old(live) + Made(Sent(a, b))
    {
      Request(a);
      if a.answer.Silent? {
        return None;
      }
      var id := "";
      if a.answer.Named? {
        id := a.answer.id;
      } else if a.answer.EngineException? {
        Request(b);
        if !b.answer.Named? {
          return None;
        }
        id := b.answer.id;
      } else {
        return None;
      }
      if id == "" {
        return None;
      }
      return Some(id);
    }

    method RemoveProcessForShard(d: Did, x: Removal) returns (ok: bool)
      modifies this
      ensures ok == RemoveOk(old(live), d, x) && live == RemoveLive(old(live), d, x)
    {
      if !x.counted {
        return false;
      }
      if (x.shard, d) !in live {
        return true;
      }
      if !x.fate.Fails? {
        live := live - {(x.shard, d)};
      }
      return x.fate.Works?;
    }

    /** On the user's shard, when it is known. */
    method RemoveProcess(d: Did, known: bool, x: Removal) returns (ok: bool)
      modifies this
      ensures ok == (known && EachOk(old(live), d, [x]))
      ensures live == if known then EachLive(old(live), d, [x]) else old(live)
    {
      if !known {
        return false;
      }
      ok := RemoveProcessForShard(d, x);
    }

    method RemoveProcessFromAllShards(d: Did, listed: bool, xs: seq<Removal>) returns (ok: bool)
      modifies this
      ensures ok == (listed && EachOk(old(live), d, xs))
      ensures live == if listed then EachLive(old(live), d, xs) else old(live)
    {
      if !listed {
        return false;
      }
      var i := 0;
      while i < |xs|
        invariant i <= |xs|
        invariant EachOk(old(live), d, xs) == EachOk(live, d, xs[i..])
        invariant EachLive(old(live), d, xs) == EachLive(live, d, xs[i..])
      {
        assert xs[i..][0] == xs[i] && xs[i..][1..] == xs[i + 1..];
        var removed := RemoveProcessForShard(d, xs[i]);
        if !removed {
          return false;
        }
        i := i + 1;
      }
      return true;
    }
  }
}
