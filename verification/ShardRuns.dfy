/** Runs of EnsureShardForUser: the balance of the shards (lib/shards/shards.go:89-117, 130-169; lib/shards/sql.go). */
module ShardRuns {
  import opened Basics
  import opened Shards

  // ------------------------------------------------------------------------- balance

  /** No shard has more than g users more than another. */
  ghost predicate Balanced(db: Tables, g: nat) {
    forall s, t :: s in db.shards && t in db.shards ==> Load(db, s) <= Load(db, t) + g
  }

  lemma LoadAfterAssign(db: Tables, u: User, s: Address, t: Address)
    requires u !in db.mapping
    ensures Load(Assign(db, u, s), t) == Load(db, t) + if t == s then 1 else 0
  {
    var db' := Assign(db, u, s);
    if t == s {
      assert UsersOf(db', t) == UsersOf(db, t) + {u};
    } else {
      assert UsersOf(db', t) == UsersOf(db, t);
    }
  }

  lemma AssignKeepsBalance(db: Tables, u: User, s: Address, g: nat)
    requires u !in db.mapping && LeastLoaded(db, s) && g >= 1 && Balanced(db, g)
    ensures Balanced(Assign(db, u, s), g)
  {
    forall a, b | a in db.shards && b in db.shards ensures Load(Assign(db, u, s), a) <= Load(Assign(db, u, s), b) + g {
      LoadAfterAssign(db, u, s, a);
      LoadAfterAssign(db, u, s, b);
    }
  }

  ghost function AnyOf(shards: set<Address>): (s: Address)
    requires shards != {}
    ensures s in shards
  {
    var s :| s in shards; s
  }

  /** The users assigned to a set of shards, counted shard by shard. */
  ghost function TotalLoad(db: Tables, shards: set<Address>): (n: nat)
  {
    if shards == {} then 0 else var s := AnyOf(shards); Load(db, s) + TotalLoad(db, shards - {s})
  }

  ghost function UsersOfAll(db: Tables, shards: set<Address>): (r: set<User>) {
    set u | u in db.mapping && db.mapping[u] in shards
  }

  lemma {:induction false} TotalIsCount(db: Tables, shards: set<Address>)
    ensures TotalLoad(db, shards) == |UsersOfAll(db, shards)|
  {
    if shards == {} {
      assert UsersOfAll(db, shards) == {};
    } else {
      var s := AnyOf(shards);
      TotalIsCount(db, shards - {s});
      var a, b := UsersOf(db, s), UsersOfAll(db, shards - {s});
      assert a !! b;
      assert UsersOfAll(db, shards) == a + b;
      assert |a + b| == |a| + |b|;
    }
  }

  /** The counts the allocator works with add up to the assigned users. */
  lemma LoadsAddUp(db: Tables)
    requires KeysHold(db)
    ensures TotalLoad(db, db.shards) == |db.mapping|
  {
    TotalIsCount(db, db.shards);
    assert UsersOfAll(db, db.shards) == db.mapping.Keys;
  }

  /** One call for each user in turn, each new one with the shard the scan picked. */
  ghost predicate EnsureRun(db: Tables, picks: seq<(User, Address)>, db': Tables)
  {
    if picks == [] then db' == db
    else
      var n := |picks| - 1;
      var (u, s) := picks[n];
      exists mid :: EnsureRun(db, picks[..n], mid)
                    && (if u in mid.mapping then db' == mid else LeastLoaded(mid, s) && db' == Assign(mid, u, s))
  }

  /**
   Over every run with a fixed set of shards the gap between the fullest and the emptiest shard never
   exceeds the larger of its first value and 1, and the counts add up.
   */
  lemma {:induction false} RunKeepsBalance(db: Tables, picks: seq<(User, Address)>, db': Tables, g: nat)
    requires EnsureRun(db, picks, db') && Balanced(db, g) && KeysHold(db)
    ensures Balanced(db', if g >= 1 then g else 1) && KeysHold(db') && db'.shards == db.shards
    ensures TotalLoad(db', db.shards) == |db'.mapping|
  {
    if picks != [] {
      var n := |picks| - 1;
      var (u, s) := picks[n];
      var mid :| EnsureRun(db, picks[..n], mid)
                 && (if u in mid.mapping then db' == mid else LeastLoaded(mid, s) && db' == Assign(mid, u, s));
      RunKeepsBalance(db, picks[..n], mid, g);
      if u !in mid.mapping {
        AssignKeepsBalance(mid, u, s, if g >= 1 then g else 1);
      }
    }
    LoadsAddUp(db');
  }
}
