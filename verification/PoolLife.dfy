/** Who owns each pool, over every interleaving of poolFor, reapOnce and Close. */
module PoolLife {
  import opened Types
  import opened Pool

  /** A pool its creator has opened but not yet installed. */
  datatype Held = Held(key: Text, pool: PoolId)

  /** `clock` is the latest time read inside the lock by a lookup or an install;
      `created` and `closed` are history: the pools ever opened, and the pools
      closed, in order. Goroutines are numbered. */
  datatype State = State(
    pools: Pools,
    building: map<nat, Text>,
    held: map<nat, Held>,
    losing: map<nat, PoolId>,
    swept: map<nat, set<PoolId>>,
    created: set<PoolId>,
    closed: seq<PoolId>,
    clock: int)

  const INITIAL := State(map[], map[], map[], map[], map[], {}, [], 0)

  datatype Action =
    | Lookup(tid: nat, key: Text, now: int)
    | BuildFails(tid: nat)
    | Create(tid: nat, pool: PoolId)
    | Install(tid: nat, now: int)
    | CloseLoser(tid: nat)
    | Sweep(rid: nat, now: int, ttl: int)
    | CloseSwept(rid: nat, pool: PoolId)
    | CloseAll(order: seq<PoolId>)

  predicate NoRepeats(s: seq<PoolId>) {
    forall i, j | 0 <= i < j < |s| :: s[i] != s[j]
  }

  ghost predicate Enabled(st: State, act: Action) {
    match act
    case Lookup(tid, _, now) =>
      tid !in st.building && tid !in st.held && tid !in st.losing && st.clock <= now
    case BuildFails(tid) => tid in st.building
    case Create(tid, pool) => tid in st.building && tid !in st.held && pool !in st.created
    case Install(tid, now) => tid in st.held && tid !in st.losing && st.clock <= now
    case CloseLoser(tid) => tid in st.losing
    case Sweep(rid, _, _) => rid !in st.swept
    case CloseSwept(rid, pool) => rid in st.swept && pool in st.swept[rid]
    case CloseAll(order) => NoRepeats(order) && forall id :: id in order <==> id in Ids(st.pools)
  }

  ghost function Next(st: State, act: Action): State
    requires Enabled(st, act)
  {
    match act
    case Lookup(tid, key, now) =>
      st.(pools := AfterLookup(st.pools, key, now), clock := now,
          building := if key in st.pools then st.building else st.building[tid := key])
    case BuildFails(tid) => st.(building := st.building - {tid})
    case Create(tid, pool) =>
      st.(building := st.building - {tid}, held := st.held[tid := Held(st.building[tid], pool)],
          created := st.created + {pool})
    case Install(tid, now) =>
      var h := st.held[tid];
      st.(held := st.held - {tid}, clock := now, pools := AfterInstall(st.pools, h.key, h.pool, now),
          losing := if h.key in st.pools then st.losing[tid := h.pool] else st.losing)
    case CloseLoser(tid) => st.(losing := st.losing - {tid}, closed := st.closed + [st.losing[tid]])
    case Sweep(rid, now, ttl) =>
      st.(pools := Survivors(st.pools, now, ttl), swept := st.swept[rid := StaleIds(st.pools, now, ttl)])
    case CloseSwept(rid, pool) =>
      st.(swept := if st.swept[rid] == {pool} then st.swept - {rid} else st.swept[rid := st.swept[rid] - {pool}],
          closed := st.closed + [pool])
    case CloseAll(order) => st.(pools := map[], closed := st.closed + order)
  }

  datatype Run = Run(states: seq<State>, acts: seq<Action>)

  ghost predicate StepAt(run: Run, t: nat)
    requires t < |run.acts| == |run.states| - 1
  {
    Enabled(run.states[t], run.acts[t]) && run.states[t + 1] == Next(run.states[t], run.acts[t])
  }

  ghost predicate IsRun(run: Run) {
    && |run.states| == |run.acts| + 1 && run.states[0] == INITIAL
    && forall t: nat | t < |run.acts| :: StepAt(run, t)
  }

  // ----- ownership

  /** The places a pool can be. */
  datatype Place =
    | Installed(key: Text)
    | HeldBy(tid: nat)
    | LosingBy(tid: nat)
    | SweptBy(rid: nat, pool: PoolId)
    | ClosedAt(index: nat)

  function At(st: State, p: Place): Option<PoolId> {
    match p
    case Installed(key) => if key in st.pools then Some(st.pools[key].pool) else None
    case HeldBy(tid) => if tid in st.held then Some(st.held[tid].pool) else None
    case LosingBy(tid) => if tid in st.losing then Some(st.losing[tid]) else None
    case SweptBy(rid, pool) => if rid in st.swept && pool in st.swept[rid] then Some(pool) else None
    case ClosedAt(index) => if index < |st.closed| then Some(st.closed[index]) else None
  }

  /** Every created pool is in exactly one place, and only created pools are
      anywhere: installed, held by its creator, lost and awaiting its close,
      collected by a reaper, or closed, and closed once. */
  ghost predicate Conserved(st: State) {
    && (forall p | At(st, p).Some? :: At(st, p).value in st.created)
    && (forall id | id in st.created :: exists p :: At(st, p) == Some(id))
    && (forall p, q | At(st, p).Some? && At(st, p) == At(st, q) :: p == q)
  }

  /** Where a step takes the pool that was at `p`. */
  ghost function Moved(st: State, act: Action, p: Place, id: PoolId): Place {
    match act
    case Install(tid, _) =>
      if p == HeldBy(tid) && tid in st.held
      then (if st.held[tid].key in st.pools then LosingBy(tid) else Installed(st.held[tid].key)) else p
    case CloseLoser(tid) => if p == LosingBy(tid) then ClosedAt(|st.closed|) else p
    case Sweep(rid, now, ttl) =>
      if p.Installed? && p.key in st.pools && Stale(st.pools[p.key], now, ttl) then SweptBy(rid, id) else p
    case CloseSwept(rid, pool) => if p == SweptBy(rid, pool) then ClosedAt(|st.closed|) else p
    case CloseAll(order) =>
      if p.Installed? && exists i: nat :: i < |order| && order[i] == id
      then (var i: nat :| i < |order| && order[i] == id; ClosedAt(|st.closed| + i)) else p
    case _ => p
  }

  lemma StaysSomewhere(st: State, act: Action, p: Place)
    requires Conserved(st) && Enabled(st, act) && At(st, p).Some?
    ensures At(Next(st, act), Moved(st, act, p, At(st, p).value)) == At(st, p)
  {
    var id := At(st, p).value;
    match act
    case CloseAll(order) =>
      if p.Installed? {
        assert id in Ids(st.pools);
        assert id in order;
      }
    case Create(tid, pool) =>
      assert p == HeldBy(tid) ==> tid in st.held;
    case _ =>
  }

  /** A created pool is at one place; so two places that held different pools, or
      one that appeared anew, never come to hold the same one. */
  lemma OnePlace(st: State, act: Action, p': Place) returns (p: Place)
    requires Conserved(st) && Enabled(st, act) && !act.Create? && At(Next(st, act), p').Some?
    ensures At(st, p) == At(Next(st, act), p') && p' == Moved(st, act, p, At(st, p).value)
  {
    var st' := Next(st, act);
    p := p';
    match act
    case Install(tid, now) =>
      var h := st.held[tid];
      if (h.key in st.pools && p' == LosingBy(tid)) || (h.key !in st.pools && p' == Installed(h.key)) {
        p := HeldBy(tid);
      }
    case CloseLoser(tid) =>
      if p' == ClosedAt(|st.closed|) {
        p := LosingBy(tid);
      }
    case Sweep(rid, now, ttl) =>
      if p'.SweptBy? && p'.rid == rid {
        var key :| key in st.pools && Stale(st.pools[key], now, ttl) && st.pools[key].pool == p'.pool;
        p := Installed(key);
      }
    case CloseSwept(rid, pool) =>
      if p' == ClosedAt(|st.closed|) {
        p := SweptBy(rid, pool);
      }
    case CloseAll(order) =>
      if p'.ClosedAt? && p'.index >= |st.closed| {
        var i: nat := p'.index - |st.closed|;
        assert order[i] in order;
        var key :| key in st.pools && st.pools[key].pool == order[i];
        p := Installed(key);
      }
    case _ =>
  }

  lemma ConservedCreate(st: State, tid: nat, pool: PoolId)
    requires Conserved(st) && Enabled(st, Create(tid, pool))
    ensures Conserved(Next(st, Create(tid, pool)))
  {
    var st' := Next(st, Create(tid, pool));
    assert forall p | p != HeldBy(tid) :: At(st', p) == At(st, p);
    assert At(st', HeldBy(tid)) == Some(pool) && At(st, HeldBy(tid)).None?;
    forall id | id in st'.created ensures exists p :: At(st', p) == Some(id) {
      if id != pool {
        var p :| At(st, p) == Some(id);
        assert At(st', p) == Some(id);
      }
    }
  }

  lemma ConservedStep(st: State, act: Action)
    requires Conserved(st) && Enabled(st, act)
    ensures Conserved(Next(st, act))
  {
    var st' := Next(st, act);
    if act.Create? {
      ConservedCreate(st, act.tid, act.pool);
    } else {
      forall p | At(st', p).Some? ensures At(st', p).value in st'.created {
        var q := OnePlace(st, act, p);
      }
      forall id | id in st'.created ensures exists p :: At(st', p) == Some(id) {
        var p :| At(st, p) == Some(id);
        StaysSomewhere(st, act, p);
      }
      forall p, q | At(st', p).Some? && At(st', p) == At(st', q) ensures p == q {
        var p0 := OnePlace(st, act, p);
        var q0 := OnePlace(st, act, q);
        assert p0 == q0;
      }
    }
  }

  lemma {:induction false} PoolsAreConserved(run: Run, j: nat)
    requires IsRun(run) && j < |run.states|
    ensures Conserved(run.states[j])
  {
    if j > 0 {
      PoolsAreConserved(run, j - 1);
      assert StepAt(run, j - 1);
      ConservedStep(run.states[j - 1], run.acts[j - 1]);
    }
  }

  /** In plain terms: installed pools are open and shared by no two keys, no pool
      is closed twice, and a pool being closed by anyone is installed nowhere. */
  lemma InstalledPoolsAreOpen(run: Run, j: nat)
    requires IsRun(run) && j < |run.states|
    ensures var st := run.states[j];
            && NoRepeats(st.closed)
            && (forall key | key in st.pools :: st.pools[key].pool !in st.closed)
            && (forall a, b | a in st.pools && b in st.pools && st.pools[a].pool == st.pools[b].pool :: a == b)
            && (forall rid | rid in st.swept :: st.swept[rid] !! Ids(st.pools))
  {
    PoolsAreConserved(run, j);
    var st := run.states[j];
    forall a: nat, b: nat | a < b < |st.closed| ensures st.closed[a] != st.closed[b] {
      assert At(st, ClosedAt(a)) == Some(st.closed[a]) && At(st, ClosedAt(b)) == Some(st.closed[b]);
    }
    forall key | key in st.pools ensures st.pools[key].pool !in st.closed {
      assert At(st, Installed(key)) == Some(st.pools[key].pool);
      forall i: nat | i < |st.closed| ensures st.closed[i] != st.pools[key].pool {
        assert At(st, ClosedAt(i)) == Some(st.closed[i]);
      }
    }
    forall a, b | a in st.pools && b in st.pools && st.pools[a].pool == st.pools[b].pool ensures a == b {
      assert At(st, Installed(a)) == At(st, Installed(b));
    }
    forall rid | rid in st.swept ensures st.swept[rid] !! Ids(st.pools) {
      forall id | id in st.swept[rid] ensures id !in Ids(st.pools) {
        assert At(st, SweptBy(rid, id)) == Some(id);
        assert forall key | key in st.pools :: At(st, Installed(key)) == Some(st.pools[key].pool);
      }
    }
  }

  // ----- shutdown

  predicate Quiescent(st: State) {
    st.held == map[] && st.losing == map[] && st.swept == map[]
  }

  /** With no step under way, all pools ever opened are closed exactly when none
      is installed. */
  lemma AllClosedExactly(run: Run, j: nat)
    requires IsRun(run) && j < |run.states| && Quiescent(run.states[j])
    ensures (forall id | id in run.states[j].created :: id in run.states[j].closed) <==> run.states[j].pools == map[]
  {
    PoolsAreConserved(run, j);
    InstalledPoolsAreOpen(run, j);
    var st := run.states[j];
    if st.pools == map[] {
      forall id | id in st.created ensures id in st.closed {
        var p :| At(st, p) == Some(id);
        assert p.ClosedAt?;
      }
    } else {
      var key :| key in st.pools;
      assert At(st, Installed(key)).value in st.created;
    }
  }

  ghost predicate NoPoolForAfter(run: Run, i: nat, j: nat)
    requires i < j < |run.states| == |run.acts| + 1
  {
    && run.states[i].building == map[] && run.states[i].held == map[]
    && forall t: nat | i < t < j :: !run.acts[t].Lookup?
  }

  lemma {:induction false} NothingInstalledAfterClose(run: Run, i: nat, j: nat)
    requires IsRun(run) && i < j < |run.states|
    requires run.acts[i].CloseAll? && NoPoolForAfter(run, i, j)
    ensures run.states[j].pools == map[] && run.states[j].building == map[] && run.states[j].held == map[]
  {
    assert StepAt(run, j - 1);
    if i < j - 1 {
      NothingInstalledAfterClose(run, i, j - 1);
      assert !run.acts[j - 1].Lookup?;
    }
  }

  /** Shutdown closes everything: when no poolFor overlaps or follows Close, then
      once losers and reapers have finished every pool ever opened is closed. */
  lemma ShutdownClosesAll(run: Run, i: nat, j: nat)
    requires IsRun(run) && i < j < |run.states|
    requires run.acts[i].CloseAll? && NoPoolForAfter(run, i, j)
    requires run.states[j].losing == map[] && run.states[j].swept == map[]
    ensures forall id | id in run.states[j].created :: id in run.states[j].closed
  {
    NothingInstalledAfterClose(run, i, j);
    AllClosedExactly(run, j);
  }

  // ----- reaping respects use

  /** From a use of pool `id` under `key` at time `t` on: the pool is never again
      in a creator's hands, and while it is installed it was last used at `t` or
      later. */
  ghost predicate UsedSince(st: State, key: Text, id: PoolId, t: int) {
    && id in st.created && t <= st.clock
    && (forall tid | tid in st.held :: st.held[tid].pool != id)
    && (key in st.pools && st.pools[key].pool == id ==> t <= st.pools[key].lastUsed <= st.clock)
  }

  lemma UsedSinceStep(st: State, act: Action, key: Text, id: PoolId, t: int)
    requires Enabled(st, act) && UsedSince(st, key, id, t)
    ensures UsedSince(Next(st, act), key, id, t)
  {
  }

  /** The step hands out an installed pool on the fast path, or installs one. */
  ghost predicate Uses(st: State, act: Action, key: Text, id: PoolId, t: int) {
    match act
    case Lookup(_, k, now) => k == key && key in st.pools && st.pools[key].pool == id && now == t
    case Install(tid, now) => tid in st.held && st.held[tid] == Held(key, id) && key !in st.pools && now == t
    case _ => false
  }

  lemma UseIsRecorded(st: State, act: Action, key: Text, id: PoolId, t: int)
    requires Conserved(st) && Enabled(st, act) && Uses(st, act, key, id, t)
    ensures UsedSince(Next(st, act), key, id, t)
    ensures key in Next(st, act).pools && Next(st, act).pools[key] == Entry(id, t)
  {
    assert forall tid | tid in st.held :: At(st, HeldBy(tid)) == Some(st.held[tid].pool);
    if act.Lookup? {
      assert At(st, Installed(key)) == Some(id);
    } else {
      assert At(st, HeldBy(act.tid)) == Some(id);
    }
  }

  lemma {:induction false} LastUsedNeverDecreases(run: Run, i: nat, j: nat, key: Text, id: PoolId, t: int)
    requires IsRun(run) && i < j < |run.states|
    requires Uses(run.states[i], run.acts[i], key, id, t)
    ensures UsedSince(run.states[j], key, id, t)
  {
    assert StepAt(run, j - 1);
    if i == j - 1 {
      PoolsAreConserved(run, i);
      UseIsRecorded(run.states[i], run.acts[i], key, id, t);
    } else {
      LastUsedNeverDecreases(run, i, j - 1, key, id, t);
      UsedSinceStep(run.states[j - 1], run.acts[j - 1], key, id, t);
    }
  }

  /** A pool handed out by the fast path or installed at time `t` survives every
      later sweep whose sampled time is at most `t + ttl`, whatever other lookups
      and sweeps come in between. */
  lemma SweepSparesRecentUse(run: Run, i: nat, j: nat, key: Text, id: PoolId, t: int)
    requires IsRun(run) && i < j < |run.acts|
    requires Uses(run.states[i], run.acts[i], key, id, t)
    requires run.acts[j].Sweep? && run.acts[j].now <= t + run.acts[j].ttl
    requires key in run.states[j].pools && run.states[j].pools[key].pool == id
    ensures key in run.states[j + 1].pools && run.states[j + 1].pools[key] == run.states[j].pools[key]
  {
    LastUsedNeverDecreases(run, i, j, key, id, t);
    assert StepAt(run, j);
  }

  /** So it stays installed while all sweeps are that early and nobody shuts down. */
  lemma {:induction false} RecentlyUsedStays(run: Run, i: nat, j: nat, key: Text, id: PoolId, t: int)
    requires IsRun(run) && i < j < |run.states|
    requires Uses(run.states[i], run.acts[i], key, id, t)
    requires forall s: nat | i < s < j ::
               !run.acts[s].CloseAll? && (run.acts[s].Sweep? ==> run.acts[s].now <= t + run.acts[s].ttl)
    ensures key in run.states[j].pools && run.states[j].pools[key].pool == id
  {
    assert StepAt(run, j - 1);
    if i == j - 1 {
      PoolsAreConserved(run, i);
      UseIsRecorded(run.states[i], run.acts[i], key, id, t);
    } else {
      RecentlyUsedStays(run, i, j - 1, key, id, t);
      var act := run.acts[j - 1];
      assert !act.CloseAll?;
      if act.Sweep? {
        SweepSparesRecentUse(run, i, j - 1, key, id, t);
      }
    }
  }

  /** The slow path gives no such protection: the loser of a creation race hands
      out the winner's pool without touching its entry, and a sweep exactly
      decides by the winner's last use. */
  lemma LostRaceDoesNotRefresh(st: State, tid: nat, t: int, rid: nat, now: int, ttl: int)
    requires Enabled(st, Install(tid, t)) && st.held[tid].key in st.pools && rid !in st.swept
    ensures var key := st.held[tid].key;
            var after := Next(Next(st, Install(tid, t)), Sweep(rid, now, ttl));
            key in after.pools <==> now <= st.pools[key].lastUsed + ttl
  {
  }
}
