/**
 Deploying and deleting: the table of virtual ids, the engines and the incident service are separate
 stores, kept in step by compensation and a commit/rollback pair (lib/controller/controller.go:50-157, 192-232).
 */
module Saga {
  import opened Basics
  import Shards
  import opened VidRelation
  import opened Engine

  type User = Shards.User

  datatype Sys = Sys(rows: seq<Row>, live: Live)

  /** One service call per process definition, after asking the engine for the definitions. */
  datatype Survey = Survey(answered: bool, each: seq<bool>)

  predicate Fine(s: Survey) {
    s.answered && false !in s.each
  }

  /** The outcomes a DeleteDeployment call meets, in order; io is None without a process-io service. */
  datatype DeleteEnv = DeleteEnv(
    lookup: Fetch, incidents: Survey, io: Option<Survey>,
    begun: bool, first: bool, second: bool,
    known: bool, removal: Removal, removals: seq<Removal>,
    commit: Fate)

  /** The message of Deploy, and what the checks of its diagram say. */
  datatype Message = Message(
    id: Vid, user: User, svg: string, handling: bool,
    secured: bool, stamped: bool, valid: bool)

  datatype DeployEnv = DeployEnv(
    rowsCounted: bool, cleanup: DeleteEnv,
    post: Post, placeholder: Post,
    handlers: Survey, undoKnown: bool, undo: Removal,
    save: Fate)

  datatype Status = Ok | BadRequest | InternalError

  // ------------------------------------------------------------------- what a call does

  /** The engine requests of a deletion: the user's shard, or every shard when no user is given. */
  function Steps(user: User, e: DeleteEnv): (xs: seq<Removal>) {
    if user != "" then [e.removal] else e.removals
  }

  function Prepared(e: DeleteEnv): (ok: bool) {
    Fine(e.incidents) && (e.io.Some? ==> Fine(e.io.value)) && e.begun && e.first && e.second && e.known
  }

  function Erase(s: Sys, user: User, v: Vid, d: Did, e: DeleteEnv): (r: Sys) {
    if !Prepared(e) then s
    else
      Sys(if EachOk(s.live, d, Steps(user, e)) && !e.commit.Fails? then Without(s.rows, d, v) else s.rows,
          EachLive(s.live, d, Steps(user, e)))
  }

  function Erased(s: Sys, user: User, d: Did, e: DeleteEnv): (ok: bool) {
    Prepared(e) && EachOk(s.live, d, Steps(user, e)) && e.commit.Works?
  }

  function Found(s: Sys, v: Vid, e: DeleteEnv): (r: Option<Option<Did>>) {
    FirstOf(DidsOf(s.rows, v), e.lookup)
  }

  function Delete(s: Sys, user: User, v: Vid, e: DeleteEnv): (r: Sys) {
    match Found(s, v, e)
    case Some(Some(d)) => Erase(s, user, v, d, e)
    case _ => s
  }

  function Deleted(s: Sys, user: User, v: Vid, e: DeleteEnv): (ok: bool) {
    match Found(s, v, e)
    case None => false
    case Some(None) => true
    case Some(Some(d)) => Erased(s, user, d, e)
  }

  /** The checks before the first remote call. */
  function Refusal(m: Message): (r: Status) {
    if !m.secured then InternalError
    else if m.id == "" || m.user == "" || m.svg == "" then BadRequest
    else if !m.stamped then InternalError
    else if !m.valid then BadRequest
    else Ok
  }

  ghost function Clean(s: Sys, m: Message, e: DeployEnv): (r: Sys) {
    if e.rowsCounted && HasVid(s.rows, m.id) then Delete(s, m.user, m.id, e.cleanup) else s
  }

  ghost function Cleaned(s: Sys, m: Message, e: DeployEnv): (ok: bool) {
    e.rowsCounted && (HasVid(s.rows, m.id) ==> Deleted(s, m.user, m.id, e.cleanup))
  }

  function Undo(live: Live, d: Did, e: DeployEnv): (r: Live) {
    if e.undoKnown then EachLive(live, d, [e.undo]) else live
  }

  /** From a clean state: create, set the handlers, record; or compensate. */
  function Create(s: Sys, m: Message, e: DeployEnv): (r: Sys) {
    var p := Sent(e.post, e.placeholder);
    var live := s.live + Made(p);
    match NewId(p)
    case None => s.(live := live)
    case Some(d) =>
      if m.handling && !Fine(e.handlers) then s.(live := Undo(live, d, e))
      else
        Sys(s.rows + if e.save.Fails? then [] else [Row(d, m.id)], if e.save.Works? then live else Undo(live, d, e))
  }

  function Created(m: Message, e: DeployEnv): (ok: bool) {
    NewId(Sent(e.post, e.placeholder)).Some? && (m.handling ==> Fine(e.handlers)) && e.save.Works?
  }

  ghost function Deploy(s: Sys, m: Message, e: DeployEnv): (r: Sys) {
    if Refusal(m) != Ok then s
    else if !Cleaned(s, m, e) then Clean(s, m, e)
    else Create(Clean(s, m, e), m, e)
  }

  ghost function Deployed(s: Sys, m: Message, e: DeployEnv): (r: Status) {
    if Refusal(m) != Ok then Refusal(m)
    else if Cleaned(s, m, e) && Created(m, e) then Ok else InternalError
  }

  // -------------------------------------------------------------------- the controller

  class Controller {
    const vid: Relation
    const camunda: Camunda

    constructor ()
      ensures fresh(vid) && fresh(camunda) && State() == Sys([], {})
    {
      vid := new Relation();
      camunda := new Camunda();
    }

    ghost function State(): (s: Sys)
      reads vid, camunda
    {
      Sys(vid.rows, camunda.live)
    }

    /** Asks for the definitions, then calls the service for each until one fails. */
    method CallEach(s: Survey) returns (ok: bool)
      ensures ok == Fine(s)
    {
      if !s.answered {
        return false;
      }
      for i := 0 to |s.each|
        invariant forall j :: 0 <= j < i ==> s.each[j]
      {
        if !s.each[i] {
          return false;
        }
      }
      return true;
    }

    /** The incidents and the io variables of a deployment. */
    method DeleteDependents(e: DeleteEnv) returns (ok: bool)
      ensures ok == (Fine(e.incidents) && (e.io.Some? ==> Fine(e.io.value)))
    {
      ok := CallEach(e.incidents);
      if ok && e.io.Some? {
        ok := CallEach(e.io.value);
      }
    }

    method DeleteDeployment(user: User, v: Vid, e: DeleteEnv) returns (ok: bool)
      modifies vid, camunda
      ensures State() == Delete(old(State()), user, v, e) && ok == Deleted(old(State()), user, v, e)
    {
      var found := vid.GetDeploymentId(v, e.lookup);
      if found.None? {
        return false;
      }
      if found.value.None? {
        return true;
      }
      var d := found.value.value;
      var ready := DeleteDependents(e);
      if !ready {
        return false;
      }
      var pending := vid.RemoveVidRelation(v, d, e.begun, e.first, e.second);
      if pending.None? {
        return false;
      }
      var removed;
      if user != "" {
        removed := camunda.RemoveProcess(d, e.known, e.removal);
      } else {
        removed := camunda.RemoveProcessFromAllShards(d, e.known, e.removals);
      }
      if !removed {
        return false;
      }
      ok := vid.Commit(pending.value, e.commit);
    }

    method CleanupExistingDeployment(m: Message, e: DeployEnv) returns (ok: bool)
      modifies vid, camunda
      ensures State() == Clean(old(State()), m, e) && ok == Cleaned(old(State()), m, e)
    {
      var known := vid.VidExists(m.id, e.rowsCounted);
      if known.None? {
        return false;
      }
      if known.value {
        ok := DeleteDeployment(m.user, m.id, e.cleanup);
        return ok;
      }
      return true;
    }

    method CreateDeployment(m: Message, e: DeployEnv) returns (ok: bool)
      modifies vid, camunda
      ensures State() == Create(old(State()), m, e) && ok == Created(m, e)
    {
      var made := camunda.DeployProcess(e.post, e.placeholder);
      if made.None? {
        return false;
      }
      if m.handling {
        var handled := CallEach(e.handlers);
        if !handled {
          var undone := camunda.RemoveProcess(made.value, e.undoKnown, e.undo);
          return false;
        }
      }
      var saved := vid.SaveVidRelation(m.id, made.value, e.save);
      if !saved {
        var undone := camunda.RemoveProcess(made.value, e.undoKnown, e.undo);
        return false;
      }
      return true;
    }

    method DeployProcess(m: Message, e: DeployEnv) returns (r: Status)
      modifies vid, camunda
      ensures State() == Deploy(old(State()), m, e) && r == Deployed(old(State()), m, e)
    {
      if !m.secured {
        return InternalError;
      }
      if m.id == "" {
        return BadRequest;
      }
      if m.user == "" {
        return BadRequest;
      }
      if m.svg == "" {
        return BadRequest;
      }
      if !m.stamped {
        return InternalError;
      }
      if !m.valid {
        return BadRequest;
      }
      var clean := CleanupExistingDeployment(m, e);
      if !clean {
        return InternalError;
      }
      var created := CreateDeployment(m, e);
      return if created then Ok else InternalError;
    }
  }
}
