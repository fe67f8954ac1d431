/** The published mapping against the etcd state it caches, in every interleaving
    of watch and reconcile steps. */
module Convergence {
  import opened Types
  import opened Keys
  import opened Snapshots
  import opened KeySpace
  import opened Replication

  // ----- the etcd state

  /** What the log up to revision `r` denotes. */
  function View(d: Codec, log: Log, r: nat): Snapshot
    requires r <= |log|
  {
    Replay(d, Span(log, 0, r))
  }

  /** The content of one slot of that state: what the last event that touched it says. */
  function ViewAt(d: Codec, log: Log, r: nat, slot: Slot): Option<Entry>
    requires r <= |log|
  {
    OrElse(LastEffect(d, Span(log, 0, r), slot), None)
  }

  lemma ViewAtIsView(d: Codec, log: Log, r: nat, slot: Slot)
    requires r <= |log|
    ensures ViewAt(d, log, r, slot) == Get(View(d, log, r), slot)
  {
    ApplyAllSlot(d, EMPTY, Span(log, 0, r), slot);
  }

  /** Some event after revision `a` up to `b` decides the slot. */
  predicate Touched(d: Codec, log: Log, a: nat, b: nat, slot: Slot)
    requires a <= b <= |log|
  {
    LastEffect(d, Span(log, a, b), slot).Some?
  }

  lemma ViewSplit(d: Codec, log: Log, a: nat, b: nat, slot: Slot)
    requires a <= b <= |log|
    ensures ViewAt(d, log, b, slot) == OrElse(LastEffect(d, Span(log, a, b), slot), ViewAt(d, log, a, slot))
  {
    SpanSplit(log, 0, a, b);
    LastEffectConcat(d, Span(log, 0, a), Span(log, a, b), slot);
  }

  lemma TouchedSplit(d: Codec, log: Log, a: nat, b: nat, c: nat, slot: Slot)
    requires a <= b <= c <= |log|
    ensures Touched(d, log, a, c, slot) <==> Touched(d, log, a, b, slot) || Touched(d, log, b, c, slot)
  {
    SpanSplit(log, a, b, c);
    LastEffectConcat(d, Span(log, a, b), Span(log, b, c), slot);
  }

  // ----- the per-slot invariant

  /** A snapshot that was loaded in full at revision `loaded`, when the watch
      had applied everything up to `since`. */
  datatype Mark = Mark(since: int, loaded: int)

  /** The per-slot invariant at watch position `w`: touched since the load means
      the etcd state at `w`, otherwise the etcd state that was loaded. */
  ghost predicate Follows(d: Codec, log: Log, snap: Snapshot, m: Mark, w: int, slot: Slot) {
    && 0 <= m.since <= w <= |log|
    && 0 <= m.loaded <= |log|
    && Get(snap, slot) == if Touched(d, log, m.since, w, slot) then ViewAt(d, log, w, slot) else ViewAt(d, log, m.loaded, slot)
  }

  lemma FollowsStable(d: Codec, log: Log, evs: seq<Event>, snap: Snapshot, m: Mark, w: int, slot: Slot)
    requires Follows(d, log, snap, m, w, slot)
    ensures Follows(d, log + [evs], snap, m, w, slot)
  {
    SpanStable(log, evs, 0, w);
    SpanStable(log, evs, m.since, w);
    SpanStable(log, evs, 0, m.loaded);
  }

  /** Replaying a complete batch, even an old one over a newer load, keeps the
      invariant at the batch's revision. */
  lemma FollowsBatch(d: Codec, log: Log, snap: Snapshot, m: Mark, w: int, batch: Batch, slot: Slot)
    requires Follows(d, log, snap, m, w, slot)
    requires Complete(log, w + 1, batch)
    ensures Follows(d, log, BatchOn(d, Some(snap), batch), m, batch.revision, slot)
  {
    ApplyAllSlot(d, snap, batch.events, slot);
    VisibleEffects(d, Span(log, w, batch.revision), slot);
    ViewSplit(d, log, w, batch.revision, slot);
    TouchedSplit(d, log, m.since, w, batch.revision, slot);
  }

  /** Every full load of a past revision puts into the slot what the log denotes. */
  ghost predicate Faithful(d: Codec, log: Log, slot: Slot) {
    forall r: nat, kvs | r <= |log| && Enumerates(kvs, KeysAfter(Span(log, 0, r))) ::
      Get(LoadAll(d, r, kvs), slot) == ViewAt(d, log, r, slot)
  }

  lemma LoadIsFaithful(d: Codec, log: Log, r: nat, kvs: seq<KV>, slot: Slot)
    requires r <= |log| && Guarded(d, Span(log, 0, r), slot)
    requires Enumerates(kvs, KeysAfter(Span(log, 0, r)))
    ensures Get(LoadAll(d, r, kvs), slot) == ViewAt(d, log, r, slot)
  {
    GuardedReplayAgrees(d, Span(log, 0, r), slot);
    LoadSlot(d, r, kvs, KeysAfter(Span(log, 0, r)), ViewAt(d, log, r, slot), slot);
  }

  lemma GuardedSpan(d: Codec, log: Log, r: nat, slot: Slot)
    requires r <= |log| && Guarded(d, Flat(log), slot)
    ensures Guarded(d, Span(log, 0, r), slot)
  {
    var evs := Span(log, 0, r);
    WholeSpan(log);
    SpanSplit(log, 0, r, |log|);
    assert Flat(log)[..|evs|] == evs;
    GuardedPrefix(d, Flat(log), |evs|, slot);
  }

  lemma GuardedIsFaithful(d: Codec, log: Log, slot: Slot)
    requires Guarded(d, Flat(log), slot)
    ensures Faithful(d, log, slot)
  {
    forall r: nat, kvs | r <= |log| && Enumerates(kvs, KeysAfter(Span(log, 0, r)))
      ensures Get(LoadAll(d, r, kvs), slot) == ViewAt(d, log, r, slot)
    {
      GuardedSpan(d, log, r, slot);
      LoadIsFaithful(d, log, r, kvs, slot);
    }
  }

  lemma FaithfulEarlier(d: Codec, log: Log, evs: seq<Event>, slot: Slot)
    requires Faithful(d, log + [evs], slot)
    ensures Faithful(d, log, slot)
  {
    forall r: nat, kvs | r <= |log| && Enumerates(kvs, KeysAfter(Span(log, 0, r)))
      ensures Get(LoadAll(d, r, kvs), slot) == ViewAt(d, log, r, slot)
    {
      SpanStable(log, evs, 0, r);
    }
  }

  /** A full load starts the invariant anew, overtaken or not. */
  lemma FollowsLoad(d: Codec, log: Log, rev: nat, kvs: seq<KV>, w: nat, slot: Slot)
    requires rev <= |log| && w <= |log|
    requires Enumerates(kvs, KeysAfter(Span(log, 0, rev)))
    requires Faithful(d, log, slot)
    ensures Follows(d, log, LoadAll(d, rev, kvs), Mark(w, rev), w, slot)
  {
    assert log[w..w] == [];
  }

  /** Once the watch has passed a load that was not overtaken, the invariant is
      agreement with etcd at the watch position. */
  lemma FollowsConverges(d: Codec, log: Log, snap: Snapshot, m: Mark, w: int, slot: Slot)
    requires Follows(d, log, snap, m, w, slot)
    requires m.since <= m.loaded <= w
    ensures Get(snap, slot) == ViewAt(d, log, w, slot)
  {
    TouchedSplit(d, log, m.since, m.loaded, w, slot);
    ViewSplit(d, log, m.loaded, w, slot);
  }

  // ----- along runs

  /** The store follows etcd with mark `sm`; a snapshot in flight with `fm`. */
  ghost predicate ClientFollows(d: Codec, log: Log, c: Client, sm: Mark, fm: Mark, slot: Slot) {
    StoreFollows(d, log, c, sm, slot) && FlightFollows(d, log, c, fm, slot)
  }

  ghost predicate StoreFollows(d: Codec, log: Log, c: Client, m: Mark, slot: Slot) {
    c.store.Some? && Follows(d, log, c.store.value, m, c.watchRev - 1, slot)
  }

  ghost predicate FlightFollows(d: Codec, log: Log, c: Client, m: Mark, slot: Slot) {
    c.inFlight.Some? ==>
      c.inFlight.value.batch.revision > 0 &&
      Follows(d, log, c.inFlight.value.next, m, c.inFlight.value.batch.revision, slot)
  }

  /** The mark of the full load that `ReconcileSwap` publishes in `st`. */
  function ReconcileMark(st: State): Mark
    requires st.client.ranged.Some?
  {
    Mark(st.client.watchRev - 1, st.client.ranged.value.rev)
  }

  /** The marks after a step. */
  function StoreMark(st: State, act: Action, sm: Mark, fm: Mark): Mark {
    if act == Step(WatchSwap) then fm
    else if act == Step(ReconcileSwap) && st.client.ranged.Some? then ReconcileMark(st)
    else sm
  }

  function FlightMark(act: Action, sm: Mark, fm: Mark): Mark {
    if act.Step? && act.act.WatchLoad? then sm else fm
  }

  lemma FollowCommit(d: Codec, log: Log, evs: seq<Event>, c: Client, sm: Mark, fm: Mark, slot: Slot)
    requires ClientFollows(d, log, c, sm, fm, slot)
    ensures ClientFollows(d, log + [evs], c, sm, fm, slot)
  {
    FollowsStable(d, log, evs, c.store.value, sm, c.watchRev - 1, slot);
    if c.inFlight.Some? {
      FollowsStable(d, log, evs, c.inFlight.value.next, fm, c.inFlight.value.batch.revision, slot);
    }
  }

  lemma FollowReconcile(d: Codec, log: Log, c: Client, m: Mark, fm: Mark, slot: Slot)
    requires c.ranged.Some? && RangedPlaced(d, log, c.ranged.value) && 1 <= c.watchRev <= |log| + 1
    requires m == Mark(c.watchRev - 1, c.ranged.value.rev) && Faithful(d, log, slot)
    requires FlightFollows(d, log, c, fm, slot)
    ensures ClientFollows(d, log, ClientNext(d, c, ReconcileSwap), m, fm, slot)
  {
    FollowsLoad(d, log, c.ranged.value.rev, c.ranged.value.kvs, c.watchRev - 1, slot);
  }

  lemma FollowWatchLoad(d: Codec, log: Log, c: Client, batch: Batch, sm: Mark, slot: Slot)
    requires ClientEnabled(c, WatchLoad(batch)) && Complete(log, c.watchRev, batch)
    requires StoreFollows(d, log, c, sm, slot)
    ensures ClientFollows(d, log, ClientNext(d, c, WatchLoad(batch)), sm, sm, slot)
  {
    FollowsBatch(d, log, c.store.value, sm, c.watchRev - 1, batch, slot);
  }

  lemma FollowWatchSwap(d: Codec, log: Log, c: Client, fm: Mark, slot: Slot)
    requires c.inFlight.Some? && FlightFollows(d, log, c, fm, slot)
    ensures ClientFollows(d, log, ClientNext(d, c, WatchSwap), fm, fm, slot)
  {
    var c' := ClientNext(d, c, WatchSwap);
    assert c'.store == Some(c.inFlight.value.next) && c'.watchRev - 1 == c.inFlight.value.batch.revision;
  }

  /** What the positions of a run guarantee when the client takes a step. */
  ghost predicate StepPlaced(d: Codec, log: Log, c: Client, a: ClientAction) {
    && (a.WatchLoad? ==> Complete(log, c.watchRev, a.batch))
    && (a.ReconcileSwap? ==> c.ranged.Some? && RangedPlaced(d, log, c.ranged.value) && 1 <= c.watchRev <= |log| + 1)
  }

  lemma InvPlacesStep(d: Codec, st: State, a: ClientAction)
    requires Inv(d, st) && Enabled(st, Step(a))
    ensures StepPlaced(d, st.log, st.client, a)
  {
  }

  lemma FollowClientStep(d: Codec, log: Log, c: Client, a: ClientAction, sm: Mark, fm: Mark, slot: Slot)
    requires ClientEnabled(c, a) && StepPlaced(d, log, c, a)
    requires ClientFollows(d, log, c, sm, fm, slot) && Faithful(d, log, slot)
    ensures ClientFollows(d, log, ClientNext(d, c, a),
                          match a { case WatchSwap => fm case ReconcileSwap => Mark(c.watchRev - 1, c.ranged.value.rev) case _ => sm },
                          if a.WatchLoad? then sm else fm, slot)
  {
    match a
    case WatchLoad(batch) => FollowWatchLoad(d, log, c, batch, sm, slot);
    case WatchSwap => FollowWatchSwap(d, log, c, fm, slot);
    case ReconcileSwap => FollowReconcile(d, log, c, Mark(c.watchRev - 1, c.ranged.value.rev), fm, slot);
    case RangeRead(_, _) =>
  }

  lemma StepMoves(d: Codec, st: State, act: Action)
    requires act.Step? ==> ClientEnabled(st.client, act.act)
    ensures var st' := Next(d, st, act);
            && st'.log == (if act.CommitTxn? then st.log + [act.evs] else st.log)
            && st'.client == (if act.Step? then ClientNext(d, st.client, act.act) else st.client)
  {
  }

  lemma FollowStep(d: Codec, st: State, act: Action, st': State, sm: Mark, fm: Mark, slot: Slot)
    requires act.Step? ==> ClientEnabled(st.client, act.act) && StepPlaced(d, st.log, st.client, act.act)
    requires st'.log == if act.CommitTxn? then st.log + [act.evs] else st.log
    requires st'.client == if act.Step? then ClientNext(d, st.client, act.act) else st.client
    requires ClientFollows(d, st.log, st.client, sm, fm, slot) && Faithful(d, st.log, slot)
    ensures ClientFollows(d, st'.log, st'.client, StoreMark(st, act, sm, fm), FlightMark(act, sm, fm), slot)
  {
    if act.CommitTxn? {
      FollowCommit(d, st.log, act.evs, st.client, sm, fm, slot);
    } else if act.Step? {
      FollowClientStep(d, st.log, st.client, act.act, sm, fm, slot);
    }
  }

  /** The invariant of one state of a run. */
  ghost predicate StateFollows(d: Codec, run: Run, t: nat, sm: Mark, fm: Mark, slot: Slot)
    requires t < |run.states|
  {
    ClientFollows(d, run.states[t].log, run.states[t].client, sm, fm, slot)
  }

  /** Where the mark of a later state can come from. */
  ghost predicate MarkFrom(run: Run, i: nat, j: nat, m: Mark, sm: Mark, fm: Mark)
    requires i <= j < |run.states| == |run.acts| + 1
  {
    m == sm || m == fm ||
    exists t :: i <= t < j && IsSwap(run, t) && m == ReconcileMark(run.states[t])
  }

  /** Step `t` publishes a full load. */
  predicate IsSwap(run: Run, t: nat) {
    t < |run.acts| && t < |run.states| && run.acts[t] == Step(ReconcileSwap) && run.states[t].client.ranged.Some?
  }

  lemma StepFaithful(d: Codec, run: Run, t: nat, slot: Slot)
    requires IsRun(d, run) && t < |run.acts|
    requires Faithful(d, run.states[t + 1].log, slot)
    ensures Faithful(d, run.states[t].log, slot)
  {
    assert StepAt(d, run, t);
    if run.acts[t].CommitTxn? {
      FaithfulEarlier(d, run.states[t].log, run.acts[t].evs, slot);
    }
  }

  lemma FollowRunStep(d: Codec, run: Run, t: nat, m: Mark, f: Mark, slot: Slot)
    requires IsRun(d, run) && t < |run.acts|
    requires Faithful(d, run.states[t].log, slot) && StateFollows(d, run, t, m, f, slot)
    ensures StateFollows(d, run, t + 1, StoreMark(run.states[t], run.acts[t], m, f), FlightMark(run.acts[t], m, f), slot)
  {
    assert StepAt(d, run, t);
    if run.acts[t].Step? {
      InvRun(d, run, t);
      InvPlacesStep(d, run.states[t], run.acts[t].act);
    }
    StepMoves(d, run.states[t], run.acts[t]);
    FollowStep(d, run.states[t], run.acts[t], run.states[t + 1], m, f, slot);
  }

  /** The marks of the store and of the snapshot in flight, followed along a run. */
  ghost function MarksAt(run: Run, i: nat, j: nat, sm: Mark, fm: Mark): (Mark, Mark)
    requires i <= j < |run.states| == |run.acts| + 1
  {
    if i == j then (sm, fm)
    else
      var (m, f) := MarksAt(run, i, j - 1, sm, fm);
      (StoreMark(run.states[j - 1], run.acts[j - 1], m, f), FlightMark(run.acts[j - 1], m, f))
  }

  lemma {:induction false} MarksComeFrom(run: Run, i: nat, j: nat, sm: Mark, fm: Mark)
    requires i <= j < |run.states| == |run.acts| + 1
    ensures MarkFrom(run, i, j, MarksAt(run, i, j, sm, fm).0, sm, fm)
    ensures MarkFrom(run, i, j, MarksAt(run, i, j, sm, fm).1, sm, fm)
  {
    if i < j {
      MarksComeFrom(run, i, j - 1, sm, fm);
      var (m, f) := MarksAt(run, i, j - 1, sm, fm);
      var m' := StoreMark(run.states[j - 1], run.acts[j - 1], m, f);
      if m' != m && m' != f {
        assert IsSwap(run, j - 1);
      }
    }
  }

  lemma {:induction false} FollowRun(d: Codec, run: Run, i: nat, j: nat, sm: Mark, fm: Mark, slot: Slot)
    requires IsRun(d, run) && i <= j < |run.states|
    requires StateFollows(d, run, i, sm, fm, slot)
    requires Faithful(d, run.states[j].log, slot)
    ensures StateFollows(d, run, j, MarksAt(run, i, j, sm, fm).0, MarksAt(run, i, j, sm, fm).1, slot)
  {
    if i < j {
      StepFaithful(d, run, j - 1, slot);
      FollowRun(d, run, i, j - 1, sm, fm, slot);
      var (m, f) := MarksAt(run, i, j - 1, sm, fm);
      FollowRunStep(d, run, j - 1, m, f, slot);
    }
  }

  lemma SwapFollows(d: Codec, run: Run, i: nat, slot: Slot)
    requires IsRun(d, run) && IsSwap(run, i) && run.states[i].client.inFlight.None?
    requires Faithful(d, run.states[i].log, slot)
    ensures var m := ReconcileMark(run.states[i]);
            StateFollows(d, run, i + 1, m, m, slot)
  {
    var st := run.states[i];
    InvRun(d, run, i);
    assert StepAt(d, run, i);
    FollowsLoad(d, st.log, st.client.ranged.value.rev, st.client.ranged.value.kvs, st.client.watchRev - 1, slot);
  }

  lemma {:induction false} FaithfulBefore(d: Codec, run: Run, i: nat, j: nat, slot: Slot)
    requires IsRun(d, run) && i <= j < |run.states|
    requires Faithful(d, run.states[j].log, slot)
    ensures Faithful(d, run.states[i].log, slot)
  {
    if i < j {
      StepFaithful(d, run, j - 1, slot);
      FaithfulBefore(d, run, i, j - 1, slot);
    }
  }

  /** The exact content of a slot from one reconcile to the next, whatever the
      mapping was before, and whether or not the reconcile was overtaken:
      touched since the swap means the etcd state at the watch position,
      otherwise the etcd state that the reconcile read. */
  lemma ExactAfterReconcile(d: Codec, run: Run, i: nat, j: nat, slot: Slot)
    requires IsRun(d, run) && i < j < |run.states|
    requires IsSwap(run, i) && run.states[i].client.inFlight.None?
    requires forall t | i < t < j :: !IsSwap(run, t)
    requires Guarded(d, Flat(run.states[j].log), slot)
    ensures var st, m := run.states[j], ReconcileMark(run.states[i]);
            && st.client.store.Some?
            && Follows(d, st.log, st.client.store.value, m, st.client.watchRev - 1, slot)
  {
    GuardedIsFaithful(d, run.states[j].log, slot);
    FaithfulBefore(d, run, i, j, slot);
    SwapFollows(d, run, i, slot);
    var m := ReconcileMark(run.states[i]);
    FollowRun(d, run, i + 1, j, m, m, slot);
    MarksComeFrom(run, i + 1, j, m, m);
  }

  /** After a reconcile that was overtaken or not, the slot agrees with etcd at
      the watch position exactly when it has been touched since or its value at
      the revision read is still current. */
  lemma AgreesExactlyWhen(d: Codec, run: Run, i: nat, j: nat, slot: Slot)
    requires IsRun(d, run) && i < j < |run.states|
    requires IsSwap(run, i) && run.states[i].client.inFlight.None?
    requires forall t | i < t < j :: !IsSwap(run, t)
    requires Guarded(d, Flat(run.states[j].log), slot)
    ensures Inv(d, run.states[j]) && run.states[j].client.store.Some? && Inv(d, run.states[i])
    ensures 0 <= ReconcileMark(run.states[i]).since <= run.states[j].client.watchRev - 1
    ensures 0 <= ReconcileMark(run.states[i]).loaded <= |run.states[j].log|
    ensures var st, m := run.states[j], ReconcileMark(run.states[i]);
            Get(st.client.store.value, slot) == ViewAt(d, st.log, st.client.watchRev - 1, slot)
            <==> Touched(d, st.log, m.since, st.client.watchRev - 1, slot) ||
                 ViewAt(d, st.log, m.loaded, slot) == ViewAt(d, st.log, st.client.watchRev - 1, slot)
  {
    ExactAfterReconcile(d, run, i, j, slot);
    InvRun(d, run, i);
    InvRun(d, run, j);
  }

  /** The published mapping holds the routes of the etcd state at the watch position. */
  ghost predicate Converged(d: Codec, st: State) {
    && st.client.store.Some? && 0 <= st.client.watchRev - 1 <= |st.log|
    && st.client.store.value.shards == View(d, st.log, st.client.watchRev - 1).shards
    && st.client.store.value.buckets == View(d, st.log, st.client.watchRev - 1).buckets
  }

  lemma EverySlotFaithful(d: Codec, log: Log)
    requires forall slot :: Guarded(d, Flat(log), slot)
    ensures forall slot :: Faithful(d, log, slot)
  {
    forall slot ensures Faithful(d, log, slot) {
      GuardedIsFaithful(d, log, slot);
    }
  }

  /** Step `t` publishes a load at least as new as the watch position. */
  predicate NotOvertaken(run: Run, t: nat) {
    IsSwap(run, t) ==> ReconcileMark(run.states[t]).since <= ReconcileMark(run.states[t]).loaded
  }

  /** The watch of state `j` has reached the load that step `t` published. */
  predicate Reached(run: Run, t: nat, j: nat)
    requires j < |run.states|
  {
    IsSwap(run, t) ==> ReconcileMark(run.states[t]).loaded <= run.states[j].client.watchRev - 1
  }

  lemma MarkHasPassed(run: Run, i: nat, j: nat, m: Mark, sm: Mark, fm: Mark)
    requires i <= j < |run.states| == |run.acts| + 1
    requires MarkFrom(run, i, j, m, sm, fm)
    requires sm.since <= sm.loaded <= run.states[j].client.watchRev - 1
    requires fm.since <= fm.loaded <= run.states[j].client.watchRev - 1
    requires forall t: nat | i <= t < j :: NotOvertaken(run, t) && Reached(run, t, j)
    ensures m.since <= m.loaded <= run.states[j].client.watchRev - 1
  {
    if m != sm && m != fm {
      var t :| i <= t < j && IsSwap(run, t) && m == ReconcileMark(run.states[t]);
      assert NotOvertaken(run, t) && Reached(run, t, j);
    }
  }

  ghost predicate SlotConverged(d: Codec, st: State, slot: Slot) {
    && st.client.store.Some? && 0 <= st.client.watchRev - 1 <= |st.log|
    && Get(st.client.store.value, slot) == Get(View(d, st.log, st.client.watchRev - 1), slot)
  }

  lemma FollowedSlotConverges(d: Codec, st: State, m: Mark, slot: Slot)
    requires StoreFollows(d, st.log, st.client, m, slot)
    requires m.since <= m.loaded <= st.client.watchRev - 1
    ensures SlotConverged(d, st, slot)
  {
    FollowsConverges(d, st.log, st.client.store.value, m, st.client.watchRev - 1, slot);
    ViewAtIsView(d, st.log, st.client.watchRev - 1, slot);
  }

  /** Convergence of one slot, which asks nothing of the other slots. */
  lemma SlotConverges(d: Codec, run: Run, i: nat, j: nat, sm: Mark, fm: Mark, slot: Slot)
    requires IsRun(d, run) && i <= j < |run.states|
    requires Faithful(d, run.states[j].log, slot) && StateFollows(d, run, i, sm, fm, slot)
    requires sm.since <= sm.loaded <= run.states[j].client.watchRev - 1
    requires fm.since <= fm.loaded <= run.states[j].client.watchRev - 1
    requires forall t: nat | i <= t < j :: NotOvertaken(run, t) && Reached(run, t, j)
    ensures SlotConverged(d, run.states[j], slot)
  {
    FollowRun(d, run, i, j, sm, fm, slot);
    MarksComeFrom(run, i, j, sm, fm);
    var m := MarksAt(run, i, j, sm, fm).0;
    MarkHasPassed(run, i, j, m, sm, fm);
    FollowedSlotConverges(d, run.states[j], m, slot);
  }

  lemma AllSlotsConverged(d: Codec, st: State)
    requires forall slot :: SlotConverged(d, st, slot)
    ensures Converged(d, st)
  {
    assert SlotConverged(d, st, Ignored);
    var m, v := st.client.store.value, View(d, st.log, st.client.watchRev - 1);
    forall slot ensures Get(m, slot) == Get(v, slot) {
      assert SlotConverged(d, st, slot);
    }
    SameSlotsSameMaps(m, v);
  }

  lemma SlotsConverge(d: Codec, run: Run, i: nat, j: nat, sm: Mark, fm: Mark)
    requires IsRun(d, run) && i <= j < |run.states|
    requires forall slot :: Faithful(d, run.states[j].log, slot)
    requires forall slot :: StateFollows(d, run, i, sm, fm, slot)
    requires sm.since <= sm.loaded <= run.states[j].client.watchRev - 1
    requires fm.since <= fm.loaded <= run.states[j].client.watchRev - 1
    requires forall t: nat | i <= t < j :: NotOvertaken(run, t) && Reached(run, t, j)
    ensures Converged(d, run.states[j])
  {
    forall slot ensures SlotConverged(d, run.states[j], slot) {
      SlotConverges(d, run, i, j, sm, fm, slot);
    }
    AllSlotsConverged(d, run.states[j]);
  }

  /** Convergence from any mapping contents. Take a reconcile that is not
      overtaken and not overwritten by a watch step already in flight; as long
      as later reconciles are not overtaken either, whenever the watch position
      has reached the loads published since, the mapping is the etcd state at
      that position, although older events were replayed over newer loads. */
  lemma ConvergenceAfterReconcile(d: Codec, run: Run, i: nat, j: nat)
    requires IsRun(d, run) && i < j < |run.states|
    requires IsSwap(run, i) && run.states[i].client.inFlight.None?
    requires forall t: nat | i <= t < j :: NotOvertaken(run, t) && Reached(run, t, j)
    requires forall slot :: Guarded(d, Flat(run.states[j].log), slot)
    ensures Converged(d, run.states[j])
  {
    var m := ReconcileMark(run.states[i]);
    assert NotOvertaken(run, i) && Reached(run, i, j);
    EverySlotFaithful(d, run.states[j].log);
    var k := i + 1;
    forall slot ensures StateFollows(d, run, k, m, m, slot) {
      FaithfulBefore(d, run, i, j, slot);
      SwapFollows(d, run, i, slot);
    }
    SlotsConverge(d, run, k, j, m, m);
  }

  /** The state in which Start leaves the two goroutines: the initial load is
      published and the watch begins right after its revision. */
  ghost predicate Started(d: Codec, st: State, kvs: seq<KV>) {
    && AnyStart(st)
    && Enumerates(kvs, KeysAfter(Span(st.log, 0, st.from)))
    && st.client.store == Some(LoadAll(d, st.from, kvs))
  }

  /** From Start on, while no reconcile is overtaken, the mapping is the etcd
      state at the watch position whenever the watch has reached the loads. */
  lemma ConvergenceFromStart(d: Codec, run: Run, kvs: seq<KV>, j: nat)
    requires IsRun(d, run) && Started(d, run.states[0], kvs) && j < |run.states|
    requires forall t: nat | t < j :: NotOvertaken(run, t) && Reached(run, t, j)
    requires forall slot :: Guarded(d, Flat(run.states[j].log), slot)
    ensures Converged(d, run.states[j])
  {
    var st := run.states[0];
    var m := Mark(st.from, st.from);
    EverySlotFaithful(d, run.states[j].log);
    forall slot ensures StateFollows(d, run, 0, m, m, slot) {
      FaithfulBefore(d, run, 0, j, slot);
      FollowsLoad(d, st.log, st.from, kvs, st.from, slot);
    }
    WatchRevGrows(d, run, j);
    SlotsConverge(d, run, 0, j, m, m);
  }

  lemma {:induction false} WatchRevGrows(d: Codec, run: Run, j: nat)
    requires IsRun(d, run) && j < |run.states|
    ensures run.states[0].from == run.states[j].from < run.states[j].client.watchRev
  {
    InvRun(d, run, j);
    if j > 0 {
      WatchRevGrows(d, run, j - 1);
      assert StepAt(d, run, j - 1);
    }
  }
}
