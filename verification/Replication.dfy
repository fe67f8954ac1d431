/** The load / watch / reconcile protocol (internal/registry/etcd.go) as a state
    machine over the steps of its two goroutines and of the etcd server.

    Each atomic Load or Swap of the store, and each read of etcd, is one step.
    Revision r of etcd is the r-th commit of the log; a commit is the sequence
    of key/value events of one transaction. */
module Replication {
  import opened Types
  import opened Snapshots
  import opened KeySpace

  // ----- the client: what the two goroutines hold

  /** One message of the watch stream. */
  datatype Batch = Batch(revision: int, events: seq<Event>, canceled: bool)

  /** A batch whose clone is built but not yet swapped in. */
  datatype InFlight = InFlight(next: Snapshot, batch: Batch)

  /** A full load whose snapshot is built but not yet swapped in. */
  datatype Ranged = Ranged(rev: int, kvs: seq<KV>, snap: Snapshot)

  datatype Client = Client(
    store: Option<Snapshot>,
    watchRev: int,
    inFlight: Option<InFlight>,
    ranged: Option<Ranged>)

  datatype ClientAction =
    | WatchLoad(batch: Batch)
    | WatchSwap
    | RangeRead(rev: int, kvs: seq<KV>)
    | ReconcileSwap

  /** The snapshot watchLoop builds from the current one and a batch. */
  function BatchOn(d: Codec, cur: Option<Snapshot>, batch: Batch): Snapshot {
    var next := ApplyAll(d, if cur.Some? then cur.value else EMPTY, batch.events);
    if batch.revision > 0 then next.(revision := batch.revision) else next
  }

  predicate ClientEnabled(c: Client, act: ClientAction) {
    match act
    case WatchLoad(batch) => c.inFlight.None? && !batch.canceled
    case WatchSwap => c.inFlight.Some?
    case RangeRead(_, _) => c.ranged.None?
    case ReconcileSwap => c.ranged.Some?
  }

  function ClientNext(d: Codec, c: Client, act: ClientAction): Client
    requires ClientEnabled(c, act)
  {
    match act
    case WatchLoad(batch) => c.(inFlight := Some(InFlight(BatchOn(d, c.store, batch), batch)))
    case WatchSwap =>
      var f := c.inFlight.value;
      c.(store := Some(f.next), inFlight := None,
         watchRev := if f.batch.revision > 0 then f.batch.revision + 1 else c.watchRev)
    case RangeRead(rev, kvs) => c.(ranged := Some(Ranged(rev, kvs, LoadAll(d, rev, kvs))))
    case ReconcileSwap => c.(store := Some(c.ranged.value.snap), ranged := None)
  }

  // ----- the whole system

  type Log = seq<seq<Event>>

  function Flat(log: Log): seq<Event> {
    if log == [] then [] else Flat(log[..|log| - 1]) + log[|log| - 1]
  }

  /** The events after revision `a` up to and including revision `b`. */
  function Span(log: Log, a: nat, b: nat): seq<Event>
    requires a <= b <= |log|
  {
    Flat(log[a..b])
  }

  /** A watch stream, with the revision from which it delivers next. */
  datatype Stream = Closed | Open(pos: int)

  /** `from` and `applied` are history: where the watch began, and the events of
      the batches it has swapped in. */
  datatype State = State(
    log: Log,
    stream: Stream,
    client: Client,
    from: nat,
    applied: seq<Event>)

  datatype Action =
    | CommitTxn(evs: seq<Event>)
    | OpenWatch
    | OpenFails
    | StreamEnds
    | Canceled(batch: Batch)
    | Step(act: ClientAction)

  /** What the server owes the client: a batch holds every requested event from
      the stream's position up to its own header revision. */
  predicate Complete(log: Log, pos: int, batch: Batch) {
    && 1 <= pos && 0 < batch.revision && pos - 1 <= batch.revision <= |log|
    && batch.events == Visible(Span(log, pos - 1, batch.revision))
  }

  ghost predicate Enabled(st: State, act: Action) {
    match act
    case CommitTxn(_) => true
    case OpenWatch | OpenFails => st.stream.Closed? && st.client.inFlight.None?
    case StreamEnds => st.stream.Open? && st.client.inFlight.None?
    case Canceled(batch) => st.stream.Open? && st.client.inFlight.None? && batch.canceled
    case Step(a) =>
      && ClientEnabled(st.client, a)
      && (a.WatchLoad? ==> st.stream.Open? && Complete(st.log, st.stream.pos, a.batch))
      && (a.RangeRead? ==> a.rev == |st.log| && Enumerates(a.kvs, KeysAfter(Flat(st.log))))
  }

  function Next(d: Codec, st: State, act: Action): State
    requires act.Step? ==> ClientEnabled(st.client, act.act)
  {
    match act
    case CommitTxn(evs) => st.(log := st.log + [evs])
    case OpenWatch => st.(stream := Open(st.client.watchRev))
    case OpenFails => st
    case StreamEnds | Canceled(_) => st.(stream := Closed)
    case Step(a) =>
      var moved := st.(client := ClientNext(d, st.client, a));
      match a
      case WatchLoad(batch) => moved.(stream := Open(batch.revision + 1))
      case WatchSwap => moved.(applied := st.applied + st.client.inFlight.value.batch.events)
      case RangeRead(_, _) | ReconcileSwap => moved
  }

  /** Where a run may begin: any mapping at all, no step under way. */
  predicate AnyStart(st: State) {
    && st.stream.Closed? && st.client.inFlight.None? && st.client.ranged.None?
    && st.from <= |st.log| && st.client.watchRev == st.from + 1 && st.applied == []
  }

  datatype Run = Run(states: seq<State>, acts: seq<Action>)

  ghost predicate IsRun(d: Codec, run: Run) {
    && |run.states| == |run.acts| + 1
    && AnyStart(run.states[0])
    && forall t: nat | t < |run.acts| :: StepAt(d, run, t)
  }

  ghost predicate StepAt(d: Codec, run: Run, t: nat)
    requires t < |run.acts| == |run.states| - 1
  {
    Enabled(run.states[t], run.acts[t]) && run.states[t + 1] == Next(d, run.states[t], run.acts[t])
  }

  // ----- positions: the invariant of every run

  ghost predicate Inv(d: Codec, st: State) {
    && WatchPlaced(st)
    && (st.client.inFlight.Some? ==> InFlightPlaced(st))
    && (st.client.ranged.Some? ==> RangedPlaced(d, st.log, st.client.ranged.value))
  }

  predicate WatchPlaced(st: State) {
    && st.from < st.client.watchRev <= |st.log| + 1
    && st.applied == Visible(Span(st.log, st.from, st.client.watchRev - 1))
    && (st.client.inFlight.None? ==> st.stream.Open? ==> st.stream.pos == st.client.watchRev)
  }

  predicate InFlightPlaced(st: State)
    requires st.client.inFlight.Some?
  {
    var f := st.client.inFlight.value;
    && Complete(st.log, st.client.watchRev, f.batch) && st.stream == Open(f.batch.revision + 1)
    && f.next.revision == f.batch.revision
  }

  ghost predicate RangedPlaced(d: Codec, log: Log, ranged: Ranged) {
    && 0 <= ranged.rev <= |log|
    && Enumerates(ranged.kvs, KeysAfter(Span(log, 0, ranged.rev)))
    && ranged.snap == LoadAll(d, ranged.rev, ranged.kvs)
  }

  lemma {:induction false} FlatConcat(a: Log, b: Log)
    ensures Flat(a + b) == Flat(a) + Flat(b)
  {
    if b == [] {
      assert a + b == a;
    } else {
      assert (a + b)[..|a + b| - 1] == a + b[..|b| - 1];
      FlatConcat(a, b[..|b| - 1]);
    }
  }

  lemma SpanSplit(log: Log, a: nat, b: nat, c: nat)
    requires a <= b <= c <= |log|
    ensures Span(log, a, c) == Span(log, a, b) + Span(log, b, c)
  {
    assert log[a..c] == log[a..b] + log[b..c];
    FlatConcat(log[a..b], log[b..c]);
  }

  /** Commits leave the past alone. */
  lemma SpanStable(log: Log, evs: seq<Event>, a: nat, b: nat)
    requires a <= b <= |log|
    ensures Span(log + [evs], a, b) == Span(log, a, b)
  {
    assert (log + [evs])[a..b] == log[a..b];
  }

  lemma WholeSpan(log: Log)
    ensures Span(log, 0, |log|) == Flat(log)
  {
    assert log[0..|log|] == log;
  }

  lemma RangedStable(d: Codec, log: Log, evs: seq<Event>, ranged: Ranged)
    requires RangedPlaced(d, log, ranged)
    ensures RangedPlaced(d, log + [evs], ranged)
  {
    SpanStable(log, evs, 0, ranged.rev);
  }

  lemma WatchStable(st: State, evs: seq<Event>)
    requires WatchPlaced(st)
    ensures WatchPlaced(st.(log := st.log + [evs]))
  {
    SpanStable(st.log, evs, st.from, st.client.watchRev - 1);
  }

  lemma InFlightStable(st: State, evs: seq<Event>)
    requires st.client.inFlight.Some? && InFlightPlaced(st)
    ensures InFlightPlaced(st.(log := st.log + [evs]))
  {
    SpanStable(st.log, evs, st.client.watchRev - 1, st.client.inFlight.value.batch.revision);
  }

  lemma InvCommit(d: Codec, st: State, evs: seq<Event>)
    requires Inv(d, st)
    ensures Inv(d, Next(d, st, CommitTxn(evs)))
  {
    WatchStable(st, evs);
    if st.client.inFlight.Some? {
      InFlightStable(st, evs);
    }
    if st.client.ranged.Some? {
      RangedStable(d, st.log, evs, st.client.ranged.value);
    }
  }

  lemma InvWatchSwap(d: Codec, st: State)
    requires Inv(d, st) && st.client.inFlight.Some?
    ensures Inv(d, Next(d, st, Step(WatchSwap)))
  {
    var w, batch := st.client.watchRev - 1, st.client.inFlight.value.batch;
    var st' := Next(d, st, Step(WatchSwap));
    assert st'.client.watchRev == batch.revision + 1 && st'.log == st.log && st'.from == st.from;
    assert st'.applied == Visible(Span(st.log, st.from, batch.revision)) by {
      SpanSplit(st.log, st.from, w, batch.revision);
      VisibleConcat(Span(st.log, st.from, w), Span(st.log, w, batch.revision));
    }
  }

  lemma InvRangeRead(d: Codec, st: State, rev: int, kvs: seq<KV>)
    requires Inv(d, st) && Enabled(st, Step(RangeRead(rev, kvs)))
    ensures Inv(d, Next(d, st, Step(RangeRead(rev, kvs))))
  {
    WholeSpan(st.log);
    assert RangedPlaced(d, st.log, Ranged(rev, kvs, LoadAll(d, rev, kvs)));
  }

  lemma InvWatchLoad(d: Codec, st: State, batch: Batch)
    requires Inv(d, st) && Enabled(st, Step(WatchLoad(batch)))
    ensures Inv(d, Next(d, st, Step(WatchLoad(batch))))
  {
    var st' := Next(d, st, Step(WatchLoad(batch)));
    assert WatchPlaced(st') && InFlightPlaced(st');
  }

  lemma InvStep(d: Codec, st: State, act: Action)
    requires Inv(d, st) && Enabled(st, act)
    ensures Inv(d, Next(d, st, act))
  {
    match act
    case CommitTxn(evs) => InvCommit(d, st, evs);
    case Step(WatchLoad(batch)) => InvWatchLoad(d, st, batch);
    case Step(WatchSwap) => InvWatchSwap(d, st);
    case Step(RangeRead(rev, kvs)) => InvRangeRead(d, st, rev, kvs);
    case _ => InvOtherStep(d, st, act);
  }

  lemma InvOtherStep(d: Codec, st: State, act: Action)
    requires Inv(d, st) && Enabled(st, act)
    requires act.Step? ==> act.act.ReconcileSwap?
    requires !act.CommitTxn?
    ensures Inv(d, Next(d, st, act))
  {
  }

  lemma {:induction false} InvRun(d: Codec, run: Run, j: nat)
    requires IsRun(d, run) && j < |run.states|
    ensures Inv(d, run.states[j])
  {
    if j == 0 {
      var st := run.states[0];
      assert st.log[st.from..st.from] == [];
    } else {
      InvRun(d, run, j - 1);
      assert StepAt(d, run, j - 1);
      InvStep(d, run.states[j - 1], run.acts[j - 1]);
    }
  }

  /** Gap-free, exactly-once resume. Whatever streams failed to open, ended or
      were canceled, and however reconciles interleave, the watch has applied
      exactly the requested events after its first revision up to the one
      before `watchRev`: none missing, none twice, in order. */
  lemma GapFreeResume(d: Codec, run: Run, j: nat)
    requires IsRun(d, run) && j < |run.states|
    ensures var st := run.states[j];
            && st.from < st.client.watchRev <= |st.log| + 1
            && st.applied == Visible(Span(st.log, st.from, st.client.watchRev - 1))
  {
    InvRun(d, run, j);
  }

  /** Step `t` opens no stream. */
  predicate OpensNothing(run: Run, t: nat)
    requires t < |run.acts|
  {
    !run.acts[t].OpenWatch?
  }

  lemma {:induction false} ClosedStreamStandsStill(d: Codec, run: Run, i: nat, j: nat)
    requires IsRun(d, run) && i <= j < |run.states|
    requires run.states[i].stream.Closed? && run.states[i].client.inFlight.None?
    requires forall t | i <= t < j :: OpensNothing(run, t)
    ensures var st, st' := run.states[i], run.states[j];
            && st'.stream.Closed? && st'.client.inFlight.None?
            && st'.client.watchRev == st.client.watchRev && st'.applied == st.applied
  {
    if i < j {
      ClosedStreamStandsStill(d, run, i, j - 1);
      assert StepAt(d, run, j - 1) && OpensNothing(run, j - 1);
    }
  }

  /** A canceled batch applies no event and does not move the position, and the
      stream opened next, however many attempts fail and whatever reconciles and
      commits happen until then, resumes there. */
  lemma CanceledBatchResumesInPlace(d: Codec, run: Run, i: nat, j: nat)
    requires IsRun(d, run) && i < j < |run.acts|
    requires run.acts[i].Canceled? && run.acts[j].OpenWatch?
    requires forall t | i < t < j :: OpensNothing(run, t)
    ensures run.states[j + 1].stream == run.states[i].stream == Open(run.states[i].client.watchRev)
    ensures run.states[j + 1].client.watchRev == run.states[i].client.watchRev
    ensures run.states[j + 1].client.inFlight.None?
    ensures run.states[j + 1].applied == run.states[i].applied
  {
    InvRun(d, run, i);
    assert StepAt(d, run, i) && StepAt(d, run, j);
    ClosedStreamStandsStill(d, run, i + 1, j);
  }
}
