/** No invented routes: whatever the server delivers or leaves out, and however
    the loops interleave, every published entry decodes a value etcd held. */
module Provenance {
  import opened Types
  import opened Keys
  import opened Snapshots
  import opened KeySpace
  import opened Replication

  /** The log gave `key` this value at some point. */
  ghost predicate WasHeld(evs: seq<Event>, key: Text, value: Text) {
    exists n: nat :: n <= |evs| && key in KeysAfter(evs[..n]) && KeysAfter(evs[..n])[key] == value
  }

  /** The entry decodes a value held under a key that stands for the slot. */
  ghost predicate Genuine(d: Codec, evs: seq<Event>, e: Entry, slot: Slot) {
    exists key, value :: WasHeld(evs, key, value) && SlotOf(key) == slot && Decoded(d, key, value) == Some(e)
  }

  ghost predicate AllGenuine(d: Codec, evs: seq<Event>, snap: Snapshot) {
    forall slot | Get(snap, slot).Some? :: Genuine(d, evs, Get(snap, slot).value, slot)
  }

  lemma HeldStays(a: seq<Event>, b: seq<Event>, key: Text, value: Text)
    requires WasHeld(a, key, value)
    ensures WasHeld(a + b, key, value)
  {
    var n: nat :| n <= |a| && key in KeysAfter(a[..n]) && KeysAfter(a[..n])[key] == value;
    assert (a + b)[..n] == a[..n];
  }

  lemma PutIsHeld(evs: seq<Event>, ev: Event)
    requires ev in evs && ev.kind.Put?
    ensures WasHeld(evs, ev.key, ev.value)
  {
    var i :| 0 <= i < |evs| && evs[i] == ev;
    KeysAfterStep(evs[..i], ev);
    assert evs[..i + 1] == evs[..i] + [ev];
  }

  lemma GenuineStays(d: Codec, a: seq<Event>, b: seq<Event>, snap: Snapshot)
    requires AllGenuine(d, a, snap)
    ensures AllGenuine(d, a + b, snap)
  {
    forall slot | Get(snap, slot).Some? ensures Genuine(d, a + b, Get(snap, slot).value, slot) {
      var key, value :| WasHeld(a, key, value) && SlotOf(key) == slot && Decoded(d, key, value) == Get(snap, slot);
      HeldStays(a, b, key, value);
    }
  }

  ghost predicate HeldPuts(past: seq<Event>, evs: seq<Event>) {
    forall ev | ev in evs && ev.kind.Put? :: WasHeld(past, ev.key, ev.value)
  }

  lemma GenuineSlot(d: Codec, past: seq<Event>, snap: Snapshot, evs: seq<Event>, slot: Slot)
    requires AllGenuine(d, past, snap) && HeldPuts(past, evs)
    requires Get(ApplyAll(d, snap, evs), slot).Some?
    ensures Genuine(d, past, Get(ApplyAll(d, snap, evs), slot).value, slot)
  {
    ApplyAllSlot(d, snap, evs, slot);
    if LastEffect(d, evs, slot).Some? {
      var i := LastEffectWitness(d, evs, slot);
      assert evs[i] in evs && WasHeld(past, evs[i].key, evs[i].value);
    }
  }

  /** Applying events whose values etcd held keeps a snapshot genuine. */
  lemma GenuineApply(d: Codec, past: seq<Event>, snap: Snapshot, evs: seq<Event>, result: Snapshot)
    requires AllGenuine(d, past, snap) && HeldPuts(past, evs)
    requires result.shards == ApplyAll(d, snap, evs).shards && result.buckets == ApplyAll(d, snap, evs).buckets
    ensures AllGenuine(d, past, result)
  {
    forall slot | Get(result, slot).Some? ensures Genuine(d, past, Get(result, slot).value, slot) {
      GenuineSlot(d, past, snap, evs, slot);
    }
  }

  // ----- runs against an unreliable server

  /** A server that may deliver any events of the log, in any order, any number
      of times, under any header revision, and may answer a range from any past
      revision and incompletely. */
  ghost predicate LooselyEnabled(st: State, act: Action) {
    match act
    case CommitTxn(_) | OpenWatch | OpenFails | StreamEnds | Canceled(_) => true
    case Step(a) =>
      ClientEnabled(st.client, a) &&
      match a
      case WatchLoad(batch) => forall ev | ev in batch.events :: ev in Flat(st.log)
      case RangeRead(rev, kvs) => exists n: nat :: n <= |st.log| && AllLive(kvs, KeysAfter(Span(st.log, 0, n)))
      case WatchSwap | ReconcileSwap => true
  }

  predicate AllLive(kvs: seq<KV>, ks: KeyValues) {
    forall i | 0 <= i < |kvs| :: kvs[i].key in ks && ks[kvs[i].key] == kvs[i].value
  }

  ghost predicate LooseStepAt(d: Codec, run: Run, t: nat)
    requires t < |run.acts| == |run.states| - 1
  {
    LooselyEnabled(run.states[t], run.acts[t]) && run.states[t + 1] == Next(d, run.states[t], run.acts[t])
  }

  /** Every snapshot the client holds, published or being built, is genuine. */
  ghost predicate GenuineClient(d: Codec, st: State) {
    var c, evs := st.client, Flat(st.log);
    && (c.store.Some? ==> AllGenuine(d, evs, c.store.value))
    && (c.inFlight.Some? ==> AllGenuine(d, evs, c.inFlight.value.next))
    && (c.ranged.Some? ==> AllGenuine(d, evs, c.ranged.value.snap))
  }

  ghost predicate IsLooseRun(d: Codec, run: Run) {
    && |run.states| == |run.acts| + 1
    && GenuineClient(d, run.states[0])
    && forall t: nat | t < |run.acts| :: LooseStepAt(d, run, t)
  }

  lemma GenuineWatchLoad(d: Codec, st: State, batch: Batch)
    requires GenuineClient(d, st) && LooselyEnabled(st, Step(WatchLoad(batch)))
    ensures AllGenuine(d, Flat(st.log), BatchOn(d, st.client.store, batch))
  {
    var evs := Flat(st.log);
    forall ev | ev in batch.events && ev.kind.Put? ensures WasHeld(evs, ev.key, ev.value) {
      PutIsHeld(evs, ev);
    }
    var base := if st.client.store.Some? then st.client.store.value else EMPTY;
    assert AllGenuine(d, evs, EMPTY);
    GenuineApply(d, evs, base, batch.events, BatchOn(d, st.client.store, batch));
  }

  lemma LivePutsAreHeld(evs: seq<Event>, n: nat, kvs: seq<KV>)
    requires n <= |evs| && AllLive(kvs, KeysAfter(evs[..n]))
    ensures HeldPuts(evs, AsPuts(kvs))
  {
    var puts := AsPuts(kvs);
    forall ev | ev in puts && ev.kind.Put? ensures WasHeld(evs, ev.key, ev.value) {
      var i :| 0 <= i < |puts| && puts[i] == ev;
      assert kvs[i].key in KeysAfter(evs[..n]);
    }
  }

  lemma EmptyIsGenuine(d: Codec, evs: seq<Event>, rev: int)
    ensures AllGenuine(d, evs, EMPTY.(revision := rev))
  {
  }

  lemma GenuineLoad(d: Codec, evs: seq<Event>, n: nat, rev: int, kvs: seq<KV>)
    requires n <= |evs| && AllLive(kvs, KeysAfter(evs[..n]))
    ensures AllGenuine(d, evs, LoadAll(d, rev, kvs))
  {
    LivePutsAreHeld(evs, n, kvs);
    EmptyIsGenuine(d, evs, rev);
    GenuineApply(d, evs, EMPTY.(revision := rev), AsPuts(kvs), LoadAll(d, rev, kvs));
  }

  lemma SpanIsPrefix(log: Log, n: nat)
    requires n <= |log|
    ensures Span(log, 0, n) <= Flat(log)
  {
    WholeSpan(log);
    SpanSplit(log, 0, n, |log|);
  }

  lemma GenuineCommit(d: Codec, st: State, evs: seq<Event>)
    requires GenuineClient(d, st)
    ensures GenuineClient(d, Next(d, st, CommitTxn(evs)))
  {
    FlatConcat(st.log, [evs]);
    assert [evs][..0] == [];
    assert Flat([evs]) == evs;
    var c := st.client;
    if c.store.Some? { GenuineStays(d, Flat(st.log), evs, c.store.value); }
    if c.inFlight.Some? { GenuineStays(d, Flat(st.log), evs, c.inFlight.value.next); }
    if c.ranged.Some? { GenuineStays(d, Flat(st.log), evs, c.ranged.value.snap); }
  }

  lemma GenuineStep(d: Codec, st: State, act: Action)
    requires GenuineClient(d, st) && LooselyEnabled(st, act)
    ensures GenuineClient(d, Next(d, st, act))
  {
    match act
    case CommitTxn(evs) => GenuineCommit(d, st, evs);
    case Step(WatchLoad(batch)) => GenuineWatchLoad(d, st, batch);
    case Step(RangeRead(rev, kvs)) =>
      var n: nat :| n <= |st.log| && AllLive(kvs, KeysAfter(Span(st.log, 0, n)));
      SpanIsPrefix(st.log, n);
      assert Flat(st.log)[..|Span(st.log, 0, n)|] == Span(st.log, 0, n);
      GenuineLoad(d, Flat(st.log), |Span(st.log, 0, n)|, rev, kvs);
    case _ =>
  }

  /** In every state of every such run, overtaken reconciles included, each
      entry of the published mapping is the decoding of a value etcd really
      held under a key that stands for that entry. */
  lemma {:induction false} NoInventedRoutes(d: Codec, run: Run, j: nat)
    requires IsLooseRun(d, run) && j < |run.states|
    ensures GenuineClient(d, run.states[j])
  {
    if j > 0 {
      NoInventedRoutes(d, run, j - 1);
      assert LooseStepAt(d, run, j - 1);
      GenuineStep(d, run.states[j - 1], run.acts[j - 1]);
    }
  }

  /** The server of the protocol is one of these servers. */
  lemma ProtocolStepsAreLoose(d: Codec, st: State, act: Action)
    requires Inv(d, st) && Enabled(st, act)
    ensures LooselyEnabled(st, act)
  {
    match act
    case Step(WatchLoad(batch)) =>
      var a, b := st.stream.pos - 1, batch.revision;
      WholeSpan(st.log);
      SpanSplit(st.log, 0, b, |st.log|);
      SpanSplit(st.log, 0, a, b);
      forall ev | ev in batch.events ensures ev in Flat(st.log) {
        VisibleComesFrom(Span(st.log, a, b), ev);
      }
    case Step(RangeRead(rev, kvs)) =>
      WholeSpan(st.log);
      assert AllLive(kvs, KeysAfter(Span(st.log, 0, |st.log|)));
    case _ =>
  }

  lemma NoInventedRoutesInProtocol(d: Codec, run: Run, j: nat)
    requires IsRun(d, run) && GenuineClient(d, run.states[0]) && j < |run.states|
    ensures GenuineClient(d, run.states[j])
  {
    forall t: nat | t < |run.acts| ensures LooseStepAt(d, run, t) {
      assert StepAt(d, run, t);
      InvRun(d, run, t);
      ProtocolStepsAreLoose(d, run.states[t], run.acts[t]);
    }
    NoInventedRoutes(d, run, j);
  }
}
