/**
 What Deploy and DeleteDeployment answer, outcome by outcome (lib/controller/controller.go:50-157;
 lib/camunda/camunda.go:520-558).
 */
module SagaOutcomes {
  import opened Basics
  import opened VidRelation
  import opened Engine
  import opened Saga

  /** Every definition was dealt with. */
  ghost predicate EachServed(s: Survey) {
    s.answered && forall i :: 0 <= i < |s.each| ==> s.each[i]
  }

  lemma FineExactly(s: Survey)
    ensures Fine(s) <==> EachServed(s)
  {
  }

  // ------------------------------------------------------------------------- deletion

  /** Everything before the engine is asked went well. */
  ghost predicate Cleared(e: DeleteEnv) {
    && EachServed(e.incidents) && (e.io.Some? ==> EachServed(e.io.value))
    && e.begun && e.first && e.second && e.known
  }

  /** The engine requests of a deletion: one on the user's shard, or one for every shard. */
  ghost predicate Asks(user: User, e: DeleteEnv, xs: seq<Removal>) {
    (user != "" ==> xs == [e.removal]) && (user == "" ==> xs == e.removals)
  }

  /** d is the deployment that the lookup of v delivers first. */
  ghost predicate Delivers(s: Sys, v: Vid, e: DeleteEnv, d: Did) {
    e.lookup.Rows? && e.lookup.n > 0 && DidsOf(s.rows, v) != [] && DidsOf(s.rows, v)[0] == d
  }

  /**
   A deletion succeeds if and only if the lookup was answered and, where it delivered a deployment,
   every step went well: the dependents, the transaction, the engines, and the commit.
   */
  lemma DeletedExactly(s: Sys, user: User, v: Vid, e: DeleteEnv, xs: seq<Removal>)
    requires Asks(user, e, xs)
    ensures Deleted(s, user, v, e)
       <==> e.lookup.Rows?
            && forall d :: Delivers(s, v, e, d) ==> Cleared(e) && EachOk(s.live, d, xs) && e.commit == Works
  {
    FineExactly(e.incidents);
    if e.io.Some? {
      FineExactly(e.io.value);
    }
    if e.lookup.Rows? && e.lookup.n > 0 && DidsOf(s.rows, v) != [] {
      assert Delivers(s, v, e, DidsOf(s.rows, v)[0]);
    }
  }

  /**
   A deletion changes nothing without a deployment delivered or when a step before the engines fails.
   Otherwise the engines are as their requests leave them, and exactly the rows that share an id are
   gone if all of them succeeded and the commit took effect.
   */
  lemma DeleteChangesExactly(s: Sys, user: User, v: Vid, e: DeleteEnv, xs: seq<Removal>, d: Did)
    requires Asks(user, e, xs)
    ensures (forall c :: !Delivers(s, v, e, c)) ==> Delete(s, user, v, e) == s
    ensures !Cleared(e) ==> Delete(s, user, v, e) == s
    ensures Delivers(s, v, e, d) && Cleared(e) ==>
              var t := Delete(s, user, v, e);
              && t.live == EachLive(s.live, d, xs)
              && if EachOk(s.live, d, xs) && e.commit != Fails
                 then forall r :: r in t.rows <==> r in s.rows && r.did != d && r.vid != v
                 else t.rows == s.rows
  {
    FineExactly(e.incidents);
    if e.io.Some? {
      FineExactly(e.io.value);
    }
    if e.lookup.Rows? && e.lookup.n > 0 && DidsOf(s.rows, v) != [] {
      assert Delivers(s, v, e, DidsOf(s.rows, v)[0]);
    }
    WithoutRows(s.rows, d, v);
  }

  // ----------------------------------------------------------------------- deployment

  /** The message is complete and its diagram is secured, stamped and valid. */
  ghost predicate Complete(m: Message) {
    m.secured && m.stamped && m.valid && m.id != "" && m.user != "" && m.svg != ""
  }

  /**
   Nothing is touched for a message that is not complete; the status is 400 exactly for a missing part
   of a secured message, or for a diagram that is stamped but not valid.
   */
  lemma RefusedExactly(s: Sys, m: Message, e: DeployEnv)
    ensures !Complete(m) ==> Deploy(s, m, e) == s && Deployed(s, m, e) != Ok
    ensures Deployed(s, m, e) == BadRequest
       <==> m.secured && (m.id == "" || m.user == "" || m.svg == "" || (m.stamped && !m.valid))
  {
  }

  /** The id of the deployment, or of its placeholder after an engine exception; an empty one is an error. */
  lemma NewIdExactly(a: Post, b: Post, d: Did)
    ensures NewId(Sent(a, b)) == Some(d)
       <==> d != "" && (a.answer == Named(d) || (a.answer == EngineException && b.answer == Named(d)))
    ensures forall x :: x in Made(Sent(a, b)) <==> LeavesIn(if a.answer == EngineException then b else a, x)
  {
  }

  /** x is what a request leaves in its shard, said or unsaid. */
  ghost predicate LeavesIn(p: Post, x: (Address, Did)) {
    && x.0 == p.shard
    && ((x.1 != "" && p.answer == Named(x.1)) || p.answer == Silent(Some(x.1)) || p.answer == Nameless(Some(x.1)))
  }

  /** Deploy answers 200 if and only if the message is complete and every remote step went well. */
  lemma DeployedExactly(s: Sys, m: Message, e: DeployEnv)
    ensures Deployed(s, m, e) == Ok
       <==> && Complete(m)
            && e.rowsCounted && (HasVid(s.rows, m.id) ==> Deleted(s, m.user, m.id, e.cleanup))
            && (exists d :: NewId(Sent(e.post, e.placeholder)) == Some(d))
            && (m.handling ==> EachServed(e.handlers))
            && e.save == Works
  {
    FineExactly(e.handlers);
  }

  /**
   After the clean-up: a deployment is recorded under the virtual id exactly when it has an id, its
   handlers are set, and the insert took effect; and it is removed again exactly when a step failed
   and the compensation reaches it.
   */
  lemma CreateChangesExactly(s: Sys, m: Message, e: DeployEnv, d: Did)
    requires NewId(Sent(e.post, e.placeholder)) == Some(d)
    requires forall q :: q in s.live ==> q.1 != d
    ensures var t := Create(s, m, e);
            var h := Sent(e.post, e.placeholder).shard;
            var served := m.handling ==> EachServed(e.handlers);
            var undone := e.undoKnown && e.undo.counted && e.undo.shard == h && e.undo.fate != Fails;
            && t.rows == s.rows + (if served && e.save != Fails then [Row(d, m.id)] else [])
            && t.live == if (served && e.save == Works) || !undone then s.live + {(h, d)} else s.live
  {
    FineExactly(e.handlers);
    var h := Sent(e.post, e.placeholder).shard;
    if e.undoKnown {
      var xs := [e.undo];
      EachExactly(s.live + {(h, d)}, d, xs, h);
      assert Reached(xs, h) <==> Hits(xs[0], h);
    }
  }

  /** A creation without an id records nothing and leaves what the requests left. */
  lemma NamelessChangesExactly(s: Sys, m: Message, e: DeployEnv)
    requires NewId(Sent(e.post, e.placeholder)) == None
    ensures Create(s, m, e) == Sys(s.rows, s.live + Made(Sent(e.post, e.placeholder)))
  {
  }

  /** Deploy cleans up first, and creates only when that succeeded. */
  lemma DeployChangesExactly(s: Sys, m: Message, e: DeployEnv)
    requires Complete(m)
    ensures !e.rowsCounted ==> Deploy(s, m, e) == s
    ensures e.rowsCounted && !HasVid(s.rows, m.id) ==> Deploy(s, m, e) == Create(s, m, e)
    ensures e.rowsCounted && HasVid(s.rows, m.id) ==>
              var clean := Delete(s, m.user, m.id, e.cleanup);
              Deploy(s, m, e) == if Deleted(s, m.user, m.id, e.cleanup) then Create(clean, m, e) else clean
  {
  }

  // ------------------------------------------------------------------- one removal

  /** An error exactly when the count fails, or the deployment is there and its deletion is not confirmed. */
  lemma RemovalExactly(live: Live, d: Did, x: Removal)
    ensures RemoveOk(live, d, x) <==> x.counted && ((x.shard, d) in live ==> x.fate == Works)
    ensures forall p :: p in RemoveLive(live, d, x) <==>
              p in live && !(p == (x.shard, d) && x.counted && x.fate != Fails)
  {
  }
}
