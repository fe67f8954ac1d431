/** The callers of Acquire (internal/pool/manager.go) around one breaker: `k`
    goroutines, each of which asks for admission and, once admitted, reports one
    outcome, interleaved in any order. */
module Callers {
  import opened Types
  import opened Breaker

  /** One locked region of a goroutine's call: Allow, or the report that ends it. */
  datatype Act = Enter(tid: nat, now: int) | Fails(tid: nat, now: int) | Succeeds(tid: nat)

  /** `inside` are the goroutines that were admitted and have not reported. */
  datatype State = State(s: BreakerState, clock: int, inside: set<nat>)

  predicate Enabled(k: nat, st: State, act: Act) {
    match act
    case Enter(tid, now) => tid < k && tid !in st.inside && st.clock <= now
    case Fails(tid, now) => tid in st.inside && st.clock <= now
    case Succeeds(tid) => tid in st.inside
  }

  function Next(c: Limits, st: State, act: Act): State {
    match act
    case Enter(tid, now) =>
      var (s', admitted) := AllowNext(c, st.s, now);
      State(s', now, if admitted then st.inside + {tid} else st.inside)
    case Fails(tid, now) => State(FailureNext(c, st.s, now), now, st.inside - {tid})
    case Succeeds(tid) => State(SuccessNext(st.s), st.clock, st.inside - {tid})
  }

  function Reached(c: Limits, acts: seq<Act>, start: int): State {
    if acts == [] then State(FRESH, start, {}) else Next(c, Reached(c, acts[..|acts| - 1], start), acts[|acts| - 1])
  }

  /** Any interleaving of the calls of `k` goroutines on a breaker fresh at `start`. */
  predicate Schedule(c: Limits, k: nat, acts: seq<Act>, start: int) {
    acts == [] ||
    (Schedule(c, k, acts[..|acts| - 1], start) && Enabled(k, Reached(c, acts[..|acts| - 1], start), acts[|acts| - 1]))
  }

  predicate AllFail(acts: seq<Act>) {
    forall i | 0 <= i < |acts| :: !acts[i].Succeeds?
  }

  function Admission(c: Limits, st: State, act: Act): nat {
    if act.Enter? && AllowNext(c, st.s, act.now).1 then 1 else 0
  }

  /** Calls admitted. */
  function Admitted(c: Limits, acts: seq<Act>, start: int): nat {
    if acts == [] then 0
    else
      var n := |acts| - 1;
      var st := Reached(c, acts[..n], start);
      Admitted(c, acts[..n], start) + Admission(c, st, acts[n])
  }

  /** What the breaker sees. */
  function EventOf(act: Act): Event {
    match act
    case Enter(_, now) => Allowed(now)
    case Fails(_, now) => Failed(now)
    case Succeeds(_) => Succeeded
  }

  function History(acts: seq<Act>): (evs: seq<Event>)
    ensures |evs| == |acts| && forall i | 0 <= i < |acts| :: evs[i] == EventOf(acts[i])
  {
    if acts == [] then [] else History(acts[..|acts| - 1]) + [EventOf(acts[|acts| - 1])]
  }

  function Tids(k: nat): (tids: set<nat>)
    ensures |tids| == k && forall tid: nat :: tid in tids <==> tid < k
  {
    if k == 0 then {} else Tids(k - 1) + {k - 1}
  }

  predicate SameBooks(k: nat, st: State, admitted: nat, l: Ledger) {
    && st.s == l.s && st.clock == l.clock && |st.inside| == l.InFlight()
    && admitted == l.admitted && st.inside <= Tids(k)
  }

  lemma BooksStep(c: Limits, k: nat, st: State, admitted: nat, l: Ledger, act: Act)
    requires SameBooks(k, st, admitted, l) && Enabled(k, st, act)
    ensures SameBooks(k, Next(c, st, act), admitted + Admission(c, st, act), Book(c, l, EventOf(act)))
  {
  }

  /** The books of the history are those of the callers: whoever is admitted and
      has not reported is inside. */
  lemma {:induction false} BooksOfCallers(c: Limits, k: nat, acts: seq<Act>, start: int)
    requires Schedule(c, k, acts, start)
    ensures SameBooks(k, Reached(c, acts, start), Admitted(c, acts, start), Books(c, History(acts), start))
  {
    if acts != [] {
      var n := |acts| - 1;
      BooksOfCallers(c, k, acts[..n], start);
      assert History(acts)[..n] == History(acts[..n]);
      BooksStep(c, k, Reached(c, acts[..n], start), Admitted(c, acts[..n], start), Books(c, History(acts[..n]), start), acts[n]);
    }
  }

  lemma SomeoneOutside(k: nat, inside: set<nat>)
    requires inside <= Tids(k)
    ensures |inside| <= k
    ensures |inside| < k <==> exists tid: nat :: tid < k && tid !in inside
  {
    var outside := Tids(k) - inside;
    assert Tids(k) == inside + outside && |Tids(k)| == |inside| + |outside|;
    if outside != {} {
      var tid :| tid in outside;
    }
  }

  /** The discipline that the admission bound asks of a history is kept by every
      interleaving of the failing calls of `k` goroutines. */
  lemma {:induction false} SchedulesAreFailingCalls(c: Limits, k: nat, acts: seq<Act>, start: int)
    requires Schedule(c, k, acts, start) && AllFail(acts)
    ensures FailingCalls(c, History(acts), k, start)
  {
    if acts != [] {
      var n := |acts| - 1;
      SchedulesAreFailingCalls(c, k, acts[..n], start);
      BooksOfCallers(c, k, acts[..n], start);
      SomeoneOutside(k, Reached(c, acts[..n], start).inside);
      Extend(c, History(acts[..n]), k, start, EventOf(acts[n]));
    }
  }

  lemma FailingCallsPrefix(c: Limits, k: nat, evs: seq<Event>, n: nat, start: int)
    requires FailingCalls(c, evs, k, start) && n <= |evs|
    ensures FailingCalls(c, evs[..n], k, start)
  {
    forall i: nat | i < n ensures FailingCall(k, Books(c, evs[..n][..i], start), evs[..n][i]) {
      assert evs[..n][..i] == evs[..i];
    }
  }

  /** Whatever may happen next, some goroutine can do it. */
  lemma SomeCaller(c: Limits, k: nat, acts: seq<Act>, start: int, ev: Event) returns (act: Act)
    requires Schedule(c, k, acts, start) && FailingCall(k, Books(c, History(acts), start), ev)
    ensures Enabled(k, Reached(c, acts, start), act) && EventOf(act) == ev && !act.Succeeds?
  {
    BooksOfCallers(c, k, acts, start);
    var inside := Reached(c, acts, start).inside;
    if ev.Allowed? {
      SomeoneOutside(k, inside);
      var tid: nat :| tid < k && tid !in inside;
      return Enter(tid, ev.now);
    }
    var tid :| tid in inside;
    return Fails(tid, ev.now);
  }

  /** And every history with that discipline is some interleaving of theirs. */
  lemma {:induction false} FailingCallsAreSchedules(c: Limits, k: nat, evs: seq<Event>, start: int) returns (acts: seq<Act>)
    requires FailingCalls(c, evs, k, start)
    ensures Schedule(c, k, acts, start) && AllFail(acts) && History(acts) == evs
  {
    if evs == [] {
      return [];
    }
    var n := |evs| - 1;
    FailingCallsPrefix(c, k, evs, n, start);
    var before := FailingCallsAreSchedules(c, k, evs[..n], start);
    var act := SomeCaller(c, k, before, start, evs[n]);
    acts := before + [act];
    assert acts[..n] == before && evs == evs[..n] + [evs[n]];
  }

  lemma {:induction false} ClockAdvances(c: Limits, k: nat, acts: seq<Act>, start: int)
    requires Schedule(c, k, acts, start)
    ensures start <= Reached(c, acts, start).clock
  {
    if acts != [] {
      ClockAdvances(c, k, acts[..|acts| - 1], start);
    }
  }

  /** Of any interleaving of the calls of `k` goroutines on a shard that is down,
      at most threshold - 1 + k, and k more per reset timeout, are admitted. */
  lemma CallersAdmissionBound(c: Limits, k: nat, acts: seq<Act>, start: int, window: nat)
    requires c.threshold >= 1 && c.resetTimeout > 0
    requires Schedule(c, k, acts, start) && AllFail(acts)
    requires Reached(c, acts, start).clock <= start + window
    ensures Admitted(c, acts, start) <= c.threshold - 1 + k + k * (window / c.resetTimeout)
  {
    SchedulesAreFailingCalls(c, k, acts, start);
    BooksOfCallers(c, k, acts, start);
    AdmissionBound(c, History(acts), k, start, window);
  }

  /** `k` goroutines can make the breaker admit that many. */
  lemma CallersBoundAttained(c: Limits, k: nat, start: int, n: nat) returns (acts: seq<Act>)
    requires c.threshold >= 1 && c.resetTimeout > 0 && k >= 1
    ensures Schedule(c, k, acts, start) && AllFail(acts)
    ensures Reached(c, acts, start).clock == start + n * c.resetTimeout
    ensures Admitted(c, acts, start) == c.threshold - 1 + k + k * n
  {
    var evs := AdmissionBoundAttained(c, k, start, n);
    acts := FailingCallsAreSchedules(c, k, evs, start);
    BooksOfCallers(c, k, acts, start);
  }
}
