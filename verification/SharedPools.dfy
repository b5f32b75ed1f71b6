/** The reference-counted pool registries of mysql_pool.go and postgres_pool.go. */
module SharedPools {

  // Both map a key to one shared pool; MySQL's key is the DSN without its database, PostgreSQL's the DSN itself. Each
  // operation runs under the registry's mutex, so it is one step here.

  /** mysqlSharedServer and pgxSharedPool. `open` is the state of the driver's pool behind it. */
  class SharedPool {
    var refs: int
    var open: bool

    constructor ()
      ensures refs == 0 && open
    {
      refs, open := 0, true;
    }
  }

  /** mysqlDatabasePool and pgxPoolShare: one check's part of a shared pool. `released` is its sync.Once. */
  class Share {
    const pool: SharedPool
    const key: string
    const database: string
    var released: bool

    constructor (pool: SharedPool, key: string, database: string)
      ensures this.pool == pool && this.key == key && this.database == database && !released
    {
      this.pool, this.key, this.database := pool, key, database;
      released := false;
    }
  }

  // ---- The registry as a value ---------------------------------------------------------------------

  /** What stands under each key, every pool's reference count, the open pools, and the shares not yet closed. */
  datatype View = View(byKey: map<string, SharedPool>, refs: map<SharedPool, int>, open: set<SharedPool>, live: set<Share>)

  ghost function PartsOf(live: set<Share>, pool: SharedPool): set<Share> {
    set s | s in live && s.pool == pool
  }

  ghost predicate Inv(v: View) {
    && v.open <= v.refs.Keys
    && (forall p | p in v.refs :: v.refs[p] == |PartsOf(v.live, p)|)
    && (forall p | p in v.refs :: p in v.open <==> v.refs[p] > 0)
    && (forall k | k in v.byKey :: v.byKey[k] in v.open)
    && (forall k, l | k in v.byKey && l in v.byKey && v.byKey[k] == v.byKey[l] :: k == l)
    && (forall s | s in v.live :: s.pool in v.refs && s.key in v.byKey && v.byKey[s.key] == s.pool)
  }

  /** `share` is a share the factory may hand out in `v`: a new one, on the pool under its key or on a new pool. */
  ghost predicate MayHandOut(v: View, share: Share) {
    share !in v.live && if share.key in v.byKey then share.pool == v.byKey[share.key] else share.pool !in v.refs
  }

  ghost function Acquired(v: View, share: Share): View
    requires MayHandOut(v, share)
  {
    var refs := if share.pool in v.refs then v.refs[share.pool] else 0;
    View(v.byKey[share.key := share.pool], v.refs[share.pool := refs + 1], v.open + {share.pool}, v.live + {share})
  }

  /** Closing a share: nothing if it was closed before; the last share closes the pool and clears its key. */
  ghost function Closed(v: View, share: Share): View
    requires share in v.live ==> share.pool in v.refs
  {
    if share !in v.live then v
    else
      var left := v.refs[share.pool] - 1;
      View(if left == 0 then v.byKey - {share.key} else v.byKey,
           v.refs[share.pool := left],
           if left == 0 then v.open - {share.pool} else v.open,
           v.live - {share})
  }

  lemma AcquireCounts(v: View, share: Share, p: SharedPool)
    requires Inv(v) && MayHandOut(v, share) && p in Acquired(v, share).refs
    ensures var w := Acquired(v, share); w.refs[p] == |PartsOf(w.live, p)| && (p in w.open <==> w.refs[p] > 0)
  {
    var w := Acquired(v, share);
    if p == share.pool {
      assert PartsOf(w.live, p) == PartsOf(v.live, p) + {share};
      assert p !in v.refs ==> PartsOf(v.live, p) == {};
    } else {
      assert PartsOf(w.live, p) == PartsOf(v.live, p);
    }
  }

  lemma AcquireKeepsInv(v: View, share: Share)
    requires Inv(v) && MayHandOut(v, share)
    ensures Inv(Acquired(v, share))
  {
    hide PartsOf;
    var w := Acquired(v, share);
    forall p | p in w.refs ensures w.refs[p] == |PartsOf(w.live, p)| && (p in w.open <==> w.refs[p] > 0) {
      AcquireCounts(v, share, p);
    }
  }

  lemma CloseKeepsInv(v: View, share: Share)
    requires Inv(v)
    ensures Inv(Closed(v, share))
  {
    if share in v.live {
      var w, pool := Closed(v, share), share.pool;
      assert share in PartsOf(v.live, pool);
      assert PartsOf(w.live, pool) == PartsOf(v.live, pool) - {share};
      forall p | p in w.refs ensures w.refs[p] == |PartsOf(w.live, p)| && (p in w.open <==> w.refs[p] > 0) {
        if p != pool { assert PartsOf(w.live, p) == PartsOf(v.live, p); }
      }
      forall s | s in w.live ensures s.key in w.byKey && w.byKey[s.key] == s.pool {
        if w.refs[pool] == 0 { assert s !in PartsOf(w.live, pool); }
      }
    }
  }

  // ---- Whole runs ----------------------------------------------------------------------------------

  datatype Event = Handed(share: Share) | CloseCalled(share: Share)

  ghost predicate CanHappen(v: View, e: Event) {
    match e
    case Handed(share) => MayHandOut(v, share)
    case CloseCalled(share) => share in v.live ==> share.pool in v.refs
  }

  ghost function After(v: View, e: Event): View
    requires CanHappen(v, e)
  {
    match e
    case Handed(share) => Acquired(v, share)
    case CloseCalled(share) => Closed(v, share)
  }

  ghost predicate IsRun(v: View, events: seq<Event>)
    decreases |events|
  {
    events == [] || (CanHappen(v, events[0]) && IsRun(After(v, events[0]), events[1..]))
  }

  ghost function AfterAll(v: View, events: seq<Event>): View
    requires IsRun(v, events)
    decreases |events|
  {
    if events == [] then v else AfterAll(After(v, events[0]), events[1..])
  }

  const EMPTY := View(map[], map[], {}, {})

  /** The invariant holds after any run: each count is the number of live shares, an open pool is one with a
      live share, and every live share's key leads to its pool. */
  lemma {:induction false} EveryRunKeepsInv(v: View, events: seq<Event>)
    requires Inv(v) && IsRun(v, events)
    ensures Inv(AfterAll(v, events))
    decreases |events|
  {
    if events != [] {
      match events[0]
      case Handed(share) => AcquireKeepsInv(v, share); EveryRunKeepsInv(After(v, events[0]), events[1..]);
      case CloseCalled(share) => CloseKeepsInv(v, share); EveryRunKeepsInv(After(v, events[0]), events[1..]);
    }
  }

  /** Whatever the events, an open pool stands under exactly one key, a live share's pool is open, and once all
      shares are closed nothing is open or registered. */
  lemma RegistryIsSafe(events: seq<Event>)
    requires IsRun(EMPTY, events)
    ensures var v := AfterAll(EMPTY, events);
      && (forall s | s in v.live :: s.pool in v.open)
      && (forall p | p in v.open ::
            exists k :: k in v.byKey && v.byKey[k] == p && forall l | l in v.byKey && v.byKey[l] == p :: l == k)
      && (v.live == {} ==> v.byKey == map[] && v.open == {})
  {
    EveryRunKeepsInv(EMPTY, events);
    var v := AfterAll(EMPTY, events);
    forall s | s in v.live ensures s.pool in v.open { assert s in PartsOf(v.live, s.pool); }
    forall p | p in v.open ensures exists s :: s in v.live && s.pool == p {
      var s :| s in PartsOf(v.live, p);
    }
    assert v.live == {} ==> v.byKey.Keys == {};
  }

  /** A close touches its own pool only: every other live share keeps its open, registered pool, so a repeated
      or late close can never take away a newer pool under the same key. */
  lemma CloseLeavesOthersAlone(v: View, share: Share, other: Share)
    requires Inv(v) && other in v.live && other != share
    ensures var w := Closed(v, share);
      && other in w.live && other.pool in w.open && other.key in w.byKey && w.byKey[other.key] == other.pool
      && w.refs[other.pool] == v.refs[other.pool] - (if share in v.live && share.pool == other.pool then 1 else 0)
      && Closed(w, share) == w
  {
    CloseKeepsInv(v, share);
    var w := Closed(v, share);
    assert other in PartsOf(w.live, other.pool);
  }

  // ---- The registry as a program -------------------------------------------------------------------

  class Registry {
    var byKey: map<string, SharedPool>
    ghost var pools: set<SharedPool>  // every pool this registry has opened
    ghost var shares: set<Share>      // every share it has handed out

    ghost function State(): View
      reads this, pools, shares
    {
      View(byKey, map p | p in pools :: p.refs, set p | p in pools && p.open, set s | s in shares && !s.released)
    }

    ghost predicate Valid()
      reads this, pools, shares
    {
      Inv(State()) && forall s | s in shares :: s.pool in pools
    }

    constructor ()
      ensures Valid() && State() == EMPTY
    {
      byKey, pools, shares := map[], {}, {};
    }

    /** defaultMySQLPoolFactory and sharedPgxPool. `opens` says whether the driver opens a pool when asked. */
    method Acquire(key: string, database: string, opens: bool) returns (share: Share?)
      requires Valid()
      modifies this, pools
      ensures Valid() && fresh(pools - old(pools)) && fresh(shares - old(shares))
      ensures share == null <==> key !in old(byKey) && !opens
      ensures share == null ==> State() == old(State())
      ensures share != null ==>
        && fresh(share) && shares == old(shares) + {share} && share.key == key && share.database == database
        && MayHandOut(old(State()), share) && State() == Acquired(old(State()), share)
    {
      hide Inv;
      var pool: SharedPool;
      ghost var before := State();
      RegisteredPools(before);
      if key in byKey {
        pool := byKey[key];
        assert pool in before.refs;
      } else {
        if !opens {
          return null;
        }
        pool := new SharedPool();
        byKey := byKey[key := pool];
        pools := pools + {pool};
      }
      pool.refs := pool.refs + 1;
      share := new Share(pool, key, database);
      shares := shares + {share};
      AcquireKeepsInv(before, share);
      ghost var after := Acquired(before, share);
      assert State().byKey == after.byKey;
      assert State().refs == after.refs;
      assert State().open == after.open;
      assert State().live == after.live;
    }

    lemma RegisteredPools(v: View)
      requires Inv(v)
      ensures forall k | k in v.byKey :: v.byKey[k] in v.open && v.byKey[k] in v.refs
    {
    }

    /** mysqlDatabasePool.Close and pgxPoolShare.Close. */
    method Close(share: Share)
      requires Valid() && share in shares
      modifies this`byKey, share, share.pool
      ensures Valid() && share.released
      ensures State() == Closed(old(State()), share)
    {
      hide Inv;
      ghost var before := State();
      CloseKeepsInv(before, share);
      if share.released {
        return;
      }
      share.released := true;
      var pool := share.pool;
      pool.refs := pool.refs - 1;
      if pool.refs == 0 {
        byKey := byKey - {share.key};
        pool.open := false;
      }
      ghost var after := Closed(before, share);
      assert State().refs == after.refs;
      assert State().open == after.open;
      assert State().live == after.live;
    }
  }
}
