/** The pool manager (internal/pool/manager.go): lazy creation outside the lock,
    idle reaping and shutdown, as steps delimited by the lock. Pools are opaque
    numbers; opening and closing them are the events that matter. */
module Pool {
  import opened Types
  import Breaker
  import Callers

  type PoolId = nat
  datatype Entry = Entry(pool: PoolId, lastUsed: int)
  type Pools = map<Text, Entry>

  /** The pool map after a lookup: a hit is marked as used now. */
  function AfterLookup(pools: Pools, key: Text, now: int): Pools {
    if key in pools then pools[key := Entry(pools[key].pool, now)] else pools
  }

  /** The pool map after an install: whoever came first stays, untouched. */
  function AfterInstall(pools: Pools, key: Text, newPool: PoolId, now: int): Pools {
    if key in pools then pools else pools[key := Entry(newPool, now)]
  }

  predicate Stale(e: Entry, now: int, ttl: int) {
    now - e.lastUsed > ttl
  }

  function Survivors(pools: Pools, now: int, ttl: int): Pools {
    map key | key in pools && !Stale(pools[key], now, ttl) :: pools[key]
  }

  function Ids(pools: Pools): set<PoolId> {
    set key | key in pools :: pools[key].pool
  }

  function StaleIds(pools: Pools, now: int, ttl: int): set<PoolId> {
    set key | key in pools && Stale(pools[key], now, ttl) :: pools[key].pool
  }

  // ----- the locked regions of the manager

  class Manager {
    var pools: Pools
    const breakers: Breaker.Registry

    constructor (breakers: Breaker.Registry)
      ensures pools == map[] && this.breakers == breakers
    {
      pools := map[];
      this.breakers := breakers;
    }

    /** First locked region of poolFor: the fast path. */
    method Lookup(key: Text, now: int) returns (pool: Option<PoolId>)
      modifies this
      ensures pool == if key in old(pools) then Some(old(pools)[key].pool) else None
      ensures pools == AfterLookup(old(pools), key, now)
    {
      if key in pools {
        var e := pools[key];
        pools := pools[key := e.(lastUsed := now)];
        return Some(e.pool);
      }
      return None;
    }

    /** Second locked region: whoever installs first wins. The loser hands out the
        winner's pool and has its own to close. */
    method Install(key: Text, newPool: PoolId, now: int) returns (pool: PoolId, lost: bool)
      modifies this
      ensures lost <==> key in old(pools)
      ensures pools == AfterInstall(old(pools), key, newPool, now) && key in pools && pool == pools[key].pool
    {
      if key in pools {
        return pools[key].pool, true;
      }
      pools := pools[key := Entry(newPool, now)];
      return newPool, false;
    }

    /** The locked region of reapOnce: entries are visited in any order. */
    method Sweep(now: int, ttl: int) returns (toClose: seq<PoolId>)
      modifies this
      ensures pools == Survivors(old(pools), now, ttl)
      ensures forall id :: id in toClose <==> id in StaleIds(old(pools), now, ttl)
      ensures |toClose| == |old(pools)| - |pools|
    {
      toClose := [];
      var todo := pools.Keys;
      var all := pools;
      while todo != {}
        invariant todo <= all.Keys
        invariant pools.Keys <= all.Keys && forall key | key in pools :: pools[key] == all[key]
        invariant forall key | key in all :: key in pools <==> key in todo || !Stale(all[key], now, ttl)
        invariant forall id :: id in toClose <==> exists key :: key in all && key !in pools && all[key].pool == id
        invariant |toClose| == |all| - |pools|
        decreases todo
      {
        var key :| key in todo;
        todo := todo - {key};
        if Stale(pools[key], now, ttl) {
          ghost var before, closing := pools, toClose;
          toClose := toClose + [pools[key].pool];
          pools := pools - {key};
          assert |pools| == |before| - 1 by { assert before.Keys == pools.Keys + {key}; assert |before.Keys| == |pools.Keys| + 1; }
          forall id ensures id in toClose <==> exists k :: k in all && k !in pools && all[k].pool == id {
            if id in closing {
              var k :| k in all && k !in before && all[k].pool == id;
              assert k !in pools;
            }
          }
        }
      }
      assert pools == Survivors(all, now, ttl);
    }

    /** Close: every installed pool is closed, in any order, and forgotten. */
    method Close() returns (closed: seq<PoolId>)
      modifies this
      ensures pools == map[]
      ensures forall id :: id in closed <==> id in Ids(old(pools))
      ensures |closed| == |old(pools)|
    {
      closed := [];
      var all := pools;
      while pools != map[]
        invariant pools.Keys <= all.Keys && forall key | key in pools :: pools[key] == all[key]
        invariant forall id :: id in closed <==> exists key :: key in all && key !in pools && all[key].pool == id
        invariant |closed| == |all| - |pools|
        decreases |pools|
      {
        var key :| key in pools;
        ghost var before, closing := pools, closed;
        closed := closed + [pools[key].pool];
        pools := pools - {key};
        assert |pools| == |before| - 1 by { assert before.Keys == pools.Keys + {key}; assert |before.Keys| == |pools.Keys| + 1; }
        forall id ensures id in closed <==> exists k :: k in all && k !in pools && all[k].pool == id {
          if id in closing {
            var k :| k in all && k !in before && all[k].pool == id;
            assert k !in pools;
          }
        }
      }
    }

    /** The first step of Acquire: find the shard's breaker and ask it. */
    method Enter(shardID: Text, now: int) returns (b: Breaker.Breaker, admitted: bool)
      requires breakers.Valid()
      modifies breakers, if shardID in breakers.breakers then {breakers.breakers[shardID]} else {}
      ensures breakers.Valid() && breakers.breakers == old(breakers.breakers)[shardID := b]
      ensures shardID in old(breakers.breakers) ==> b == old(breakers.breakers)[shardID]
      ensures shardID !in old(breakers.breakers) ==> fresh(b) && b.limits == Breaker.DEFAULT_LIMITS
      ensures var before := if shardID in old(breakers.breakers) then old(breakers.breakers[shardID].State()) else Breaker.FRESH;
              (b.State(), admitted) == Breaker.AllowNext(b.limits, before, now)
    {
      b := breakers.For(shardID);
      admitted := b.Allow(now);
    }

    /** Acquire around poolFor and the pool, with no other caller in between: a call
        the breaker admits reports its outcome exactly once, a rejected call reports
        nothing, and the breakers of other shards do not move. */
    method Acquire(shardID: Text, now: int, later: int, poolOk: bool, connOk: bool) returns (ok: bool)
      requires breakers.Valid()
      modifies breakers, if shardID in breakers.breakers then {breakers.breakers[shardID]} else {}
      ensures breakers.Valid() && shardID in breakers.breakers && old(breakers.breakers.Keys) <= breakers.breakers.Keys
      ensures var b := breakers.breakers[shardID];
              var before := if shardID in old(breakers.breakers) then old(breakers.breakers[shardID].State()) else Breaker.FRESH;
              var (entered, admitted) := Breaker.AllowNext(b.limits, before, now);
              && ok == (admitted && poolOk && connOk)
              && b.State() == if !admitted then entered
                              else if poolOk && connOk then Breaker.SuccessNext(entered)
                              else Breaker.FailureNext(b.limits, entered, later)
      ensures forall id | id in old(breakers.breakers) && id != shardID ::
                id in breakers.breakers && breakers.breakers[id] == old(breakers.breakers)[id] &&
                breakers.breakers[id].State() == old(breakers.breakers[id].State())
    {
      var b, admitted := Enter(shardID, now);
      if !admitted {
        return false;
      }
      if !poolOk {
        b.Failure(later);
        return false;
      }
      if !connOk {
        b.Failure(later);
        return false;
      }
      b.Success();
      return true;
    }

    /** Any interleaving of the calls of `k` goroutines to Acquire for a shard not
        called before, each in its two steps. If none of them gets a connection,
        no more of them are admitted than the admission bound says. */
    method AcquireInterleaved(shardID: Text, acts: seq<Callers.Act>, k: nat, start: int) returns (admitted: nat)
      requires breakers.Valid() && shardID !in breakers.breakers
      requires Callers.Schedule(Breaker.DEFAULT_LIMITS, k, acts, start)
      modifies breakers
      ensures breakers.Valid() && shardID in breakers.breakers
      ensures breakers.breakers[shardID].State() == Callers.Reached(Breaker.DEFAULT_LIMITS, acts, start).s
      ensures admitted == Callers.Admitted(Breaker.DEFAULT_LIMITS, acts, start)
      ensures Callers.AllFail(acts) ==>
                var elapsed := Callers.Reached(Breaker.DEFAULT_LIMITS, acts, start).clock - start;
                elapsed >= 0 && admitted <= 4 + k + k * (elapsed / 10_000_000_000)
    {
      admitted := 0;
      var b := breakers.For(shardID);
      for i := 0 to |acts|
        invariant breakers.Valid() && shardID in breakers.breakers && breakers.breakers[shardID] == b
        invariant fresh(b) && b.limits == Breaker.DEFAULT_LIMITS
        invariant b.State() == Callers.Reached(Breaker.DEFAULT_LIMITS, acts[..i], start).s
        invariant admitted == Callers.Admitted(Breaker.DEFAULT_LIMITS, acts[..i], start)
      {
        assert acts[..i + 1][..i] == acts[..i];
        match acts[i]
        case Enter(_, now) =>
          var mine, ok := Enter(shardID, now);
          if ok {
            admitted := admitted + 1;
          }
        case Fails(_, now) => b.Failure(now);
        case Succeeds(_) => b.Success();
      }
      assert acts[..|acts|] == acts;
      if Callers.AllFail(acts) {
        Callers.ClockAdvances(Breaker.DEFAULT_LIMITS, k, acts, start);
        Callers.CallersAdmissionBound(Breaker.DEFAULT_LIMITS, k, acts, start,
                                      Callers.Reached(Breaker.DEFAULT_LIMITS, acts, start).clock - start);
      }
    }
  }
}
