/** The per-shard circuit breaker (internal/breaker/breaker.go). Times are integers;
    the clock reading of each call is a parameter. */
module Breaker {
  import opened Types

  datatype Mode = Closed | Open | HalfOpen

  datatype BreakerState = BreakerState(mode: Mode, fails: int, openedAt: int)
  datatype Limits = Limits(threshold: int, resetTimeout: int)

  const DEFAULT_LIMITS := Limits(5, 10_000_000_000)
  const FRESH := BreakerState(Closed, 0, 0)

  /** State after Allow, and whether the call is admitted. */
  function AllowNext(c: Limits, s: BreakerState, now: int): (BreakerState, bool) {
    if s.mode.Open? then
      if now - s.openedAt >= c.resetTimeout then (s.(mode := HalfOpen), true) else (s, false)
    else (s, true)
  }

  function SuccessNext(s: BreakerState): BreakerState {
    s.(fails := 0, mode := Closed)
  }

  function FailureNext(c: Limits, s: BreakerState, now: int): BreakerState {
    if s.mode.HalfOpen? || s.fails + 1 >= c.threshold
    then BreakerState(Open, s.fails + 1, now)
    else s.(fails := s.fails + 1)
  }

  class Breaker {
    var mode: Mode
    var consecutiveFails: int
    var openedAt: int
    const limits: Limits

    function State(): BreakerState
      reads this
    {
      BreakerState(mode, consecutiveFails, openedAt)
    }

    constructor ()
      ensures State() == FRESH && limits == DEFAULT_LIMITS
      ensures limits.threshold == 5 && limits.resetTimeout == 10_000_000_000
    {
      mode, consecutiveFails, openedAt := Closed, 0, 0;
      limits := DEFAULT_LIMITS;
    }

    method Allow(now: int) returns (ok: bool)
      modifies this
      ensures (State(), ok) == AllowNext(limits, old(State()), now)
    {
      if mode.Open? {
        if now - openedAt >= limits.resetTimeout {
          mode := HalfOpen;
          return true;
        }
        return false;
      }
      return true;
    }

    method Success()
      modifies this
      ensures State() == SuccessNext(old(State()))
    {
      consecutiveFails := 0;
      mode := Closed;
    }

    method Failure(now: int)
      modifies this
      ensures State() == FailureNext(limits, old(State()), now)
    {
      consecutiveFails := consecutiveFails + 1;
      if mode.HalfOpen? || consecutiveFails >= limits.threshold {
        mode := Open;
        openedAt := now;
      }
    }
  }

  /** One breaker per shard, made on first use and never replaced or shared. */
  class Registry {
    var breakers: map<Text, Breaker>

    ghost predicate Valid()
      reads this
    {
      forall a, b | a in breakers && b in breakers && breakers[a] == breakers[b] :: a == b
    }

    constructor ()
      ensures Valid() && breakers == map[]
    {
      breakers := map[];
    }

    method For(shardID: Text) returns (b: Breaker)
      requires Valid()
      modifies this
      ensures Valid()
      ensures breakers == old(breakers)[shardID := b]
      ensures shardID in old(breakers) ==> b == old(breakers)[shardID]
      ensures shardID !in old(breakers) ==> fresh(b) && b.State() == FRESH && b.limits == DEFAULT_LIMITS
    {
      if shardID in breakers {
        return breakers[shardID];
      }
      b := new Breaker();
      breakers := breakers[shardID := b];
    }
  }

  // ----- histories

  datatype Event = Allowed(now: int) | Succeeded | Failed(now: int)

  function StepState(c: Limits, s: BreakerState, ev: Event): BreakerState {
    match ev
    case Allowed(now) => AllowNext(c, s, now).0
    case Succeeded => SuccessNext(s)
    case Failed(now) => FailureNext(c, s, now)
  }

  function After(c: Limits, evs: seq<Event>): BreakerState {
    if evs == [] then FRESH else StepState(c, After(c, evs[..|evs| - 1]), evs[|evs| - 1])
  }

  /** Failures reported since the last success. */
  function FailuresSinceSuccess(evs: seq<Event>): nat {
    if evs == [] then 0
    else
      match evs[|evs| - 1]
      case Allowed(_) => FailuresSinceSuccess(evs[..|evs| - 1])
      case Succeeded => 0
      case Failed(_) => FailuresSinceSuccess(evs[..|evs| - 1]) + 1
  }

  /** The state is decided by the outcomes: the counter is the number of failures
      since the last success, and the breaker is Closed exactly while that is
      below the threshold. */
  lemma {:induction false} DecidedByOutcomes(c: Limits, evs: seq<Event>)
    requires c.threshold >= 1
    ensures After(c, evs).fails == FailuresSinceSuccess(evs)
    ensures After(c, evs).mode.Closed? <==> FailuresSinceSuccess(evs) < c.threshold
  {
    if evs != [] {
      DecidedByOutcomes(c, evs[..|evs| - 1]);
    }
  }

  /** The threshold hypothesis is exact: it is what makes the state of every
      history follow its outcomes. */
  lemma DecidedByOutcomesExactly(c: Limits)
    ensures (forall evs :: After(c, evs).mode.Closed? <==> FailuresSinceSuccess(evs) < c.threshold)
       <==> c.threshold >= 1
  {
    if c.threshold >= 1 {
      forall evs ensures After(c, evs).mode.Closed? <==> FailuresSinceSuccess(evs) < c.threshold {
        DecidedByOutcomes(c, evs);
      }
    } else {
      var evs: seq<Event> := [];
      assert After(c, evs).mode.Closed? && FailuresSinceSuccess(evs) == 0;
    }
  }

  // ----- the open window

  /** Time of the most recent failure. */
  function LastFailure(evs: seq<Event>): Option<int> {
    if evs == [] then None
    else if evs[|evs| - 1].Failed? then Some(evs[|evs| - 1].now)
    else LastFailure(evs[..|evs| - 1])
  }

  lemma {:induction false} OpenedAtIsLastFailure(c: Limits, evs: seq<Event>)
    requires c.threshold >= 1
    ensures After(c, evs).mode.Open? ==> LastFailure(evs) == Some(After(c, evs).openedAt)
  {
    if evs != [] {
      OpenedAtIsLastFailure(c, evs[..|evs| - 1]);
      DecidedByOutcomes(c, evs[..|evs| - 1]);
    }
  }

  predicate Admits(c: Limits, evs: seq<Event>, now: int) {
    AllowNext(c, After(c, evs), now).1
  }

  /** Some call was let through a reset timeout or more after the last failure. */
  predicate ProbedSinceFailure(c: Limits, evs: seq<Event>) {
    evs != [] &&
    var n := |evs| - 1;
    match evs[n]
    case Allowed(now) =>
      ProbedSinceFailure(c, evs[..n]) ||
      (LastFailure(evs[..n]).Some? && LastFailure(evs[..n]).value + c.resetTimeout <= now)
    case Succeeded => ProbedSinceFailure(c, evs[..n])
    case Failed(_) => false
  }

  /** The state of every history, from its events alone. */
  lemma {:induction false} ModeOfHistory(c: Limits, evs: seq<Event>)
    requires c.threshold >= 1
    ensures After(c, evs).mode ==
            if FailuresSinceSuccess(evs) < c.threshold then Closed
            else if ProbedSinceFailure(c, evs) then HalfOpen
            else Open
  {
    DecidedByOutcomes(c, evs);
    if evs != [] {
      var n := |evs| - 1;
      ModeOfHistory(c, evs[..n]);
      DecidedByOutcomes(c, evs[..n]);
      OpenedAtIsLastFailure(c, evs[..n]);
    }
  }

  /** Exactly when a call is turned away, for every history: the failures since the
      last success have reached the threshold, the last of them is less than a
      reset timeout ago, and no call has been let through since at such a time. */
  lemma RejectedExactly(c: Limits, evs: seq<Event>, now: int)
    requires c.threshold >= 1
    ensures !Admits(c, evs, now) <==>
              && FailuresSinceSuccess(evs) >= c.threshold && !ProbedSinceFailure(c, evs)
              && LastFailure(evs).Some? && now < LastFailure(evs).value + c.resetTimeout
  {
    ModeOfHistory(c, evs);
    OpenedAtIsLastFailure(c, evs);
  }

  /** While Open a call is admitted exactly from a reset timeout after the last
      failure on, and it is the one that makes the breaker half-open. */
  lemma ReadmittedExactly(c: Limits, evs: seq<Event>, now: int)
    requires c.threshold >= 1 && After(c, evs).mode.Open?
    ensures LastFailure(evs).Some?
    ensures Admits(c, evs, now) <==> now >= LastFailure(evs).value + c.resetTimeout
    ensures After(c, evs + [Allowed(now)]).mode == if now >= LastFailure(evs).value + c.resetTimeout then HalfOpen else Open
  {
    OpenedAtIsLastFailure(c, evs);
    assert (evs + [Allowed(now)])[..|evs|] == evs;
  }

  /** Whatever came before, a shard that has not failed for a reset timeout is
      called again. */
  lemma RecoveredShardIsCalled(c: Limits, evs: seq<Event>, now: int)
    requires c.threshold >= 1
    requires LastFailure(evs).Some? ==> LastFailure(evs).value + c.resetTimeout <= now
    ensures Admits(c, evs, now)
  {
    RejectedExactly(c, evs, now);
  }

  function Failures(times: seq<int>): (evs: seq<Event>)
    ensures |evs| == |times|
  {
    if times == [] then [] else Failures(times[..|times| - 1]) + [Failed(times[|times| - 1])]
  }

  lemma {:induction false} FailuresCount(c: Limits, times: seq<int>)
    ensures FailuresSinceSuccess(Failures(times)) == |times|
    ensures LastFailure(Failures(times)) == if times == [] then None else Some(times[|times| - 1])
    ensures !ProbedSinceFailure(c, Failures(times))
  {
    if times != [] {
      FailuresCount(c, times[..|times| - 1]);
    }
  }

  /** A new breaker rejects after the fifth failure in a row and not before, and
      then for ten seconds. */
  lemma DefaultsAreFiveAndTenSeconds(times: seq<int>, now: int)
    ensures Admits(DEFAULT_LIMITS, Failures(times), now) <==>
              |times| < 5 || now >= times[|times| - 1] + 10_000_000_000
  {
    FailuresCount(DEFAULT_LIMITS, times);
    RejectedExactly(DEFAULT_LIMITS, Failures(times), now);
  }

  /** The event is no success and happens at a time in [from, to]. */
  predicate NoSuccessWithin(ev: Event, from: int, to: int) {
    match ev
    case Allowed(now) => from <= now <= to
    case Succeeded => false
    case Failed(now) => from <= now <= to
  }

  /** After a failure at time `t` that leaves the breaker Open, no call is admitted
      before the reset timeout has passed, unless a success intervenes. */
  lemma {:induction false} OpenWindow(c: Limits, before: seq<Event>, t: int, later: seq<Event>, now: int)
    requires c.threshold >= 1 && After(c, before + [Failed(t)]).mode.Open?
    requires forall i | 0 <= i < |later| :: NoSuccessWithin(later[i], t, now)
    requires t <= now < t + c.resetTimeout
    ensures var evs := before + [Failed(t)] + later;
            After(c, evs).mode.Open? && t <= After(c, evs).openedAt && !Admits(c, evs, now)
  {
    var evs := before + [Failed(t)] + later;
    if later == [] {
      assert evs == before + [Failed(t)];
      OpenedAtIsLastFailure(c, evs);
    } else {
      var n := |later| - 1;
      assert evs[..|evs| - 1] == before + [Failed(t)] + later[..n];
      assert evs[|evs| - 1] == later[n];
      OpenWindow(c, before, t, later[..n], now);
      DecidedByOutcomes(c, evs[..|evs| - 1]);
    }
  }

  /** A half-open breaker admits every call: the single probe that the comment on
      ResetTimeout announces is not enforced. */
  lemma HalfOpenAdmitsAll(c: Limits, evs: seq<Event>, now: int)
    requires After(c, evs).mode.HalfOpen?
    ensures Admits(c, evs, now) && After(c, evs + [Allowed(now)]).mode.HalfOpen?
  {
    assert (evs + [Allowed(now)])[..|evs|] == evs;
  }

  // ----- the admission bound

  /** Books over a history: the breaker, the latest clock reading, the calls
      admitted and reported, the half-open phases entered, and the calls admitted
      in the latest phase. */
  datatype Ledger = Ledger(s: BreakerState, clock: int, admitted: nat, reports: nat, phases: nat, phaseCalls: nat) {
    function InFlight(): int {
      admitted - reports
    }
  }

  function Book(c: Limits, l: Ledger, ev: Event): Ledger {
    match ev
    case Succeeded => l.(s := SuccessNext(l.s), reports := l.reports + 1)
    case Failed(now) => l.(s := FailureNext(c, l.s, now), clock := now, reports := l.reports + 1)
    case Allowed(now) =>
      var (s', admitted) := AllowNext(c, l.s, now);
      if !admitted then l.(s := s', clock := now)
      else if l.s.mode.Open? then Ledger(s', now, l.admitted + 1, l.reports, l.phases + 1, 1)
      else Ledger(s', now, l.admitted + 1, l.reports, l.phases, l.phaseCalls + 1)
  }

  function Books(c: Limits, evs: seq<Event>, start: int): (l: Ledger)
    ensures l.s == After(c, evs)
  {
    if evs == [] then Ledger(FRESH, start, 0, 0, 0, 0)
    else Book(c, Books(c, evs[..|evs| - 1], start), evs[|evs| - 1])
  }

  /** A call is made only while fewer than `k` are in flight, a report belongs to a
      call in flight and is a failure, and the clock does not run backwards. */
  predicate FailingCall(k: nat, l: Ledger, ev: Event) {
    match ev
    case Allowed(now) => l.clock <= now && l.InFlight() < k
    case Succeeded => false
    case Failed(now) => l.clock <= now && l.InFlight() > 0
  }

  ghost predicate FailingCalls(c: Limits, evs: seq<Event>, k: nat, start: int) {
    forall n: nat | n < |evs| :: FailingCall(k, Books(c, evs[..n], start), evs[n])
  }

  function Times(n: nat, x: nat): nat {
    if n == 0 then 0 else Times(n - 1, x) + x
  }

  /** What every history of failing calls keeps: while half-open the calls of the
      phase are in flight, and each phase starts a reset timeout after the last. */
  predicate BoundInv(c: Limits, k: nat, start: int, l: Ledger)
    requires c.resetTimeout > 0
  {
    && 0 <= l.InFlight() <= k && l.s.fails == l.reports && start <= l.clock
    && match l.s.mode
       case Closed => l.phases == 0 && l.s.fails <= c.threshold - 1
       case Open =>
         && start + Times(l.phases, c.resetTimeout) <= l.s.openedAt <= l.clock
         && l.admitted <= c.threshold - 1 + k + Times(l.phases, k)
       case HalfOpen =>
         && l.phases >= 1 && start + Times(l.phases, c.resetTimeout) <= l.clock
         && l.phaseCalls <= l.InFlight()
         && l.admitted <= c.threshold - 1 + k + Times(l.phases - 1, k) + l.phaseCalls
  }

  lemma BoundStep(c: Limits, k: nat, start: int, l: Ledger, ev: Event)
    requires c.threshold >= 1 && c.resetTimeout > 0
    requires BoundInv(c, k, start, l) && FailingCall(k, l, ev)
    ensures BoundInv(c, k, start, Book(c, l, ev))
  {
  }

  lemma {:induction false} BoundHolds(c: Limits, evs: seq<Event>, k: nat, start: int)
    requires c.threshold >= 1 && c.resetTimeout > 0
    requires FailingCalls(c, evs, k, start)
    ensures BoundInv(c, k, start, Books(c, evs, start))
  {
    if evs != [] {
      var n := |evs| - 1;
      forall i: nat | i < n ensures FailingCall(k, Books(c, evs[..n][..i], start), evs[..n][i]) {
        assert evs[..n][..i] == evs[..i];
      }
      BoundHolds(c, evs[..n], k, start);
      BoundStep(c, k, start, Books(c, evs[..n], start), evs[n]);
    }
  }

  lemma {:induction false} TimesIsProduct(n: nat, x: nat)
    ensures Times(n, x) == n * x
  {
    if n > 0 {
      TimesIsProduct(n - 1, x);
      assert n * x == (n - 1) * x + x;
    }
  }

  lemma {:induction false} TimesMonotone(n: nat, m: nat, x: nat)
    requires n <= m
    ensures Times(n, x) <= Times(m, x)
  {
    if n < m {
      TimesMonotone(n, m - 1, x);
    }
  }

  /** The phases that fit into a window of length `t`. */
  lemma PhasesFit(n: nat, t: nat, x: nat)
    requires x > 0 && Times(n, x) <= t
    ensures n <= t / x
  {
    if n > t / x {
      TimesMonotone(t / x + 1, n, x);
      TimesIsProduct(t / x, x);
    }
  }

  lemma BoundInPhases(c: Limits, k: nat, start: int, l: Ledger)
    requires c.resetTimeout > 0 && BoundInv(c, k, start, l)
    ensures l.admitted <= c.threshold - 1 + k + Times(l.phases, k)
    ensures start + Times(l.phases, c.resetTimeout) <= l.clock
  {
  }

  /** The admission bound. For a shard whose calls all fail, with at most `k`
      calls in flight, a breaker that is fresh at time `start` admits at most
      threshold - 1 + k calls, and k more for every reset timeout that fits into
      the time that has passed. */
  lemma AdmissionBound(c: Limits, evs: seq<Event>, k: nat, start: int, window: nat)
    requires c.threshold >= 1 && c.resetTimeout > 0
    requires FailingCalls(c, evs, k, start)
    requires Books(c, evs, start).clock <= start + window
    ensures Books(c, evs, start).admitted <= c.threshold - 1 + k + k * (window / c.resetTimeout)
  {
    BoundHolds(c, evs, k, start);
    var l, fit := Books(c, evs, start), window / c.resetTimeout;
    BoundInPhases(c, k, start, l);
    PhasesFit(l.phases, window, c.resetTimeout);
    TimesMonotone(l.phases, fit, k);
    TimesIsProduct(fit, k);
  }

  // ----- the bound is attained

  lemma Extend(c: Limits, evs: seq<Event>, k: nat, start: int, ev: Event)
    requires FailingCalls(c, evs, k, start) && FailingCall(k, Books(c, evs, start), ev)
    ensures FailingCalls(c, evs + [ev], k, start)
    ensures Books(c, evs + [ev], start) == Book(c, Books(c, evs, start), ev)
  {
    var longer := evs + [ev];
    assert longer[..|evs|] == evs;
    forall i: nat | i < |longer| ensures FailingCall(k, Books(c, longer[..i], start), longer[i]) {
      if i < |evs| {
        assert longer[..i] == evs[..i];
      }
    }
  }

  /** threshold - 1 calls one after the other, then `k` at once. */
  lemma FirstWave(c: Limits, k: nat, start: int) returns (evs: seq<Event>)
    requires c.threshold >= 1 && k >= 1
    ensures FailingCalls(c, evs, k, start)
    ensures var n := c.threshold - 1;
            Books(c, evs, start) == Ledger(BreakerState(Closed, n, 0), start, n + k, n, 0, n + k)
  {
    evs := [];
    var n := 0;
    while n < c.threshold - 1
      invariant n <= c.threshold - 1 && FailingCalls(c, evs, k, start)
      invariant Books(c, evs, start) == Ledger(BreakerState(Closed, n, 0), start, n, n, 0, n)
    {
      Extend(c, evs, k, start, Allowed(start));
      evs := evs + [Allowed(start)];
      Extend(c, evs, k, start, Failed(start));
      evs := evs + [Failed(start)];
      n := n + 1;
    }
    var j := 0;
    while j < k
      invariant j <= k && FailingCalls(c, evs, k, start)
      invariant Books(c, evs, start) == Ledger(BreakerState(Closed, n, 0), start, n + j, n, 0, n + j)
    {
      Extend(c, evs, k, start, Allowed(start));
      evs := evs + [Allowed(start)];
      j := j + 1;
    }
  }

  predicate WaveInFlight(c: Limits, k: nat, l: Ledger) {
    && l.InFlight() == k && l.s.fails >= c.threshold - 1
    && (l.s.mode.HalfOpen? || (l.s.mode.Closed? && l.s.fails == c.threshold - 1))
  }

  /** The `k` calls in flight fail, and a reset timeout later `k` are admitted. */
  lemma NextWave(c: Limits, before: seq<Event>, k: nat, start: int) returns (evs: seq<Event>)
    requires c.threshold >= 1 && k >= 1 && c.resetTimeout > 0 && FailingCalls(c, before, k, start)
    requires WaveInFlight(c, k, Books(c, before, start))
    ensures FailingCalls(c, evs, k, start)
    ensures var l, l' := Books(c, before, start), Books(c, evs, start);
            && WaveInFlight(c, k, l') && l'.s.mode.HalfOpen?
            && l'.clock == l.clock + c.resetTimeout && l'.admitted == l.admitted + k
  {
    var l := Books(c, before, start);
    evs := before;
    var j := 0;
    while j < k
      invariant j <= k && FailingCalls(c, evs, k, start)
      invariant var m := Books(c, evs, start);
                && m.InFlight() == k - j && m.clock == l.clock && m.admitted == l.admitted && m.s.fails == l.s.fails + j
                && if j == 0 then m == l else m.s.mode.Open? && m.s.openedAt == l.clock
    {
      Extend(c, evs, k, start, Failed(l.clock));
      evs := evs + [Failed(l.clock)];
      j := j + 1;
    }
    var now := l.clock + c.resetTimeout;
    j := 0;
    while j < k
      invariant j <= k && FailingCalls(c, evs, k, start)
      invariant var m := Books(c, evs, start);
                && m.InFlight() == j && m.admitted == l.admitted + j && m.s.fails >= c.threshold - 1
                && if j == 0 then m.s.mode.Open? && m.s.openedAt == m.clock == l.clock else m.s.mode.HalfOpen? && m.clock == now
    {
      Extend(c, evs, k, start, Allowed(now));
      evs := evs + [Allowed(now)];
      j := j + 1;
    }
  }

  lemma {:induction false} Waves(c: Limits, k: nat, start: int, n: nat) returns (evs: seq<Event>)
    requires c.threshold >= 1 && c.resetTimeout > 0 && k >= 1
    ensures FailingCalls(c, evs, k, start) && WaveInFlight(c, k, Books(c, evs, start))
    ensures Books(c, evs, start).clock == start + Times(n, c.resetTimeout)
    ensures Books(c, evs, start).admitted == c.threshold - 1 + k + Times(n, k)
  {
    if n == 0 {
      evs := FirstWave(c, k, start);
    } else {
      var before := Waves(c, k, start, n - 1);
      evs := NextWave(c, before, k, start);
    }
  }

  /** No smaller bound holds: for every threshold, every `k` and every number of
      reset timeouts some history of failing calls admits exactly that many. */
  lemma AdmissionBoundAttained(c: Limits, k: nat, start: int, n: nat) returns (evs: seq<Event>)
    requires c.threshold >= 1 && c.resetTimeout > 0 && k >= 1
    ensures FailingCalls(c, evs, k, start)
    ensures Books(c, evs, start).clock == start + n * c.resetTimeout
    ensures Books(c, evs, start).admitted == c.threshold - 1 + k + k * n
  {
    evs := Waves(c, k, start, n);
    TimesIsProduct(n, c.resetTimeout);
    TimesIsProduct(n, k);
  }
}
