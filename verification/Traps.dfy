/** Why the convergence theorems carry their hypotheses. */
module Traps {
  import opened Types
  import opened Keys
  import opened Snapshots
  import opened KeySpace
  import opened Replication
  import opened Convergence

  lemma {:induction false} RevisionKept(d: Codec, m: Snapshot, evs: seq<Event>)
    ensures ApplyAll(d, m, evs).revision == m.revision
  {
    if evs != [] {
      RevisionKept(d, m, evs[..|evs| - 1]);
    }
  }

  /** A full load carries the revision it was read at. */
  lemma LoadRevision(d: Codec, rev: int, kvs: seq<KV>)
    ensures LoadAll(d, rev, kvs).revision == rev
  {
    RevisionKept(d, EMPTY.(revision := rev), AsPuts(kvs));
  }

  // ----- the published revision

  /** Step `t` swaps a mapping in. */
  predicate Publishes(run: Run, t: nat)
    requires t < |run.acts|
  {
    run.acts[t] == Step(WatchSwap) || run.acts[t] == Step(ReconcileSwap)
  }

  /** The published revision drops exactly when a batch or a load that is older
      than the published mapping is swapped in. */
  lemma RevisionDropsExactly(d: Codec, run: Run, t: nat)
    requires IsRun(d, run) && t < |run.acts| && run.states[t].client.store.Some?
    ensures run.states[t + 1].client.store.Some?
    ensures var c := run.states[t].client;
            (run.states[t + 1].client.store.value.revision < c.store.value.revision
       <==> || (run.acts[t] == Step(WatchSwap) && c.inFlight.Some? &&
                c.inFlight.value.batch.revision < c.store.value.revision)
            || (IsSwap(run, t) && c.ranged.value.rev < c.store.value.revision))
  {
    InvRun(d, run, t);
    assert StepAt(d, run, t);
    if IsSwap(run, t) {
      LoadRevision(d, run.states[t].client.ranged.value.rev, run.states[t].client.ranged.value.kvs);
    }
  }

  /** The revision a swap publishes: the watch position it reaches, or the
      revision the reconcile read. */
  function PublishedRevision(run: Run, t: nat): int
    requires t < |run.acts| == |run.states| - 1 && Publishes(run, t)
    requires run.acts[t] == Step(ReconcileSwap) ==> IsSwap(run, t)
  {
    if run.acts[t] == Step(WatchSwap) then run.states[t + 1].client.watchRev - 1
    else ReconcileMark(run.states[t]).loaded
  }

  lemma RevisionAfterSwap(d: Codec, run: Run, t: nat)
    requires IsRun(d, run) && t < |run.acts| && Publishes(run, t)
    ensures run.acts[t] == Step(ReconcileSwap) ==> IsSwap(run, t)
    ensures run.states[t + 1].client.store.Some?
    ensures run.states[t + 1].client.store.value.revision == PublishedRevision(run, t)
  {
    InvRun(d, run, t);
    assert StepAt(d, run, t);
    if IsSwap(run, t) {
      LoadRevision(d, run.states[t].client.ranged.value.rev, run.states[t].client.ranged.value.kvs);
    }
  }

  lemma NothingPublished(d: Codec, run: Run, t: nat)
    requires IsRun(d, run) && t < |run.acts| && !Publishes(run, t)
    ensures run.states[t + 1].client.store == run.states[t].client.store
    ensures run.states[t + 1].client.watchRev == run.states[t].client.watchRev
    ensures |run.states[t].log| <= |run.states[t + 1].log|
    ensures var ranged, ranged' := run.states[t].client.ranged, run.states[t + 1].client.ranged;
            ranged' == ranged || (ranged'.Some? && ranged'.value.rev == |run.states[t].log|)
  {
    assert StepAt(d, run, t);
  }

  /** It stays until the next swap. */
  lemma {:induction false} RevisionIsPosition(d: Codec, run: Run, t: nat, j: nat)
    requires IsRun(d, run) && t < j < |run.states|
    requires Publishes(run, t) && forall s: nat | t < s < j :: !Publishes(run, s)
    ensures run.acts[t] == Step(ReconcileSwap) ==> IsSwap(run, t)
    ensures run.states[j].client.store.Some?
    ensures run.states[j].client.store.value.revision == PublishedRevision(run, t)
    ensures run.states[j].client.watchRev == run.states[t + 1].client.watchRev
  {
    RevisionAfterSwap(d, run, t);
    if t + 1 < j {
      RevisionIsPosition(d, run, t, j - 1);
      NothingPublished(d, run, j - 1);
    }
  }

  lemma AfterReconcile(d: Codec, run: Run, t: nat)
    requires IsRun(d, run) && t < |run.acts| && IsSwap(run, t)
    ensures run.states[t + 1].client.ranged.None?
    ensures ReconcileMark(run.states[t]).loaded <= |run.states[t + 1].log|
  {
    InvRun(d, run, t);
    assert StepAt(d, run, t);
  }

  /** A load read after another one was swapped in is no older. */
  lemma {:induction false} LaterLoadIsNoOlder(d: Codec, run: Run, t: nat, j: nat)
    requires IsRun(d, run) && t < j < |run.states| && IsSwap(run, t)
    requires forall s: nat | t < s < j :: !Publishes(run, s)
    ensures ReconcileMark(run.states[t]).loaded <= |run.states[j].log|
    ensures run.states[j].client.ranged.Some? ==>
              ReconcileMark(run.states[t]).loaded <= ReconcileMark(run.states[j]).loaded
  {
    if t + 1 < j {
      LaterLoadIsNoOlder(d, run, t, j - 1);
      NothingPublished(d, run, j - 1);
    } else {
      AfterReconcile(d, run, t);
    }
  }

  /** Swap `j` publishes a batch older than the load that swap `t` published. */
  predicate StaleBatch(run: Run, t: nat, j: nat)
    requires t < j < |run.acts| == |run.states| - 1
  {
    && IsSwap(run, t) && run.acts[j] == Step(WatchSwap) && run.states[j].client.inFlight.Some?
    && run.states[j].client.inFlight.value.batch.revision < ReconcileMark(run.states[t]).loaded
  }

  /** Swap `j` publishes a load that a batch swapped in at `t` has overtaken. */
  predicate OvertakenLoad(run: Run, t: nat, j: nat)
    requires t < j < |run.acts| == |run.states| - 1
  {
    run.acts[t] == Step(WatchSwap) && !NotOvertaken(run, j)
  }

  /** `Revision` is not monotone, and these are its only two causes: from one
      published mapping to the next it drops exactly when a batch older than the
      load it follows is swapped in, or an overtaken load follows a batch. Two
      batches in a row, or two loads in a row, never set it back. */
  lemma RevisionDropsExactlyWhen(d: Codec, run: Run, t: nat, j: nat)
    requires IsRun(d, run) && t < j < |run.acts|
    requires Publishes(run, t) && Publishes(run, j) && forall s: nat | t < s < j :: !Publishes(run, s)
    ensures run.states[j].client.store.Some? && run.states[j + 1].client.store.Some?
    ensures run.states[j + 1].client.store.value.revision < run.states[j].client.store.value.revision
       <==> StaleBatch(run, t, j) || OvertakenLoad(run, t, j)
  {
    RevisionIsPosition(d, run, t, j);
    RevisionDropsExactly(d, run, j);
    InvRun(d, run, j);
    assert StepAt(d, run, j);
    if IsSwap(run, t) {
      LaterLoadIsNoOlder(d, run, t, j);
    }
  }

  // ----- the runs in which it drops

  /** The run in which a reconcile reads, one transaction commits and is watched,
      and then the old load is swapped in. */
  function OvertakenRun(d: Codec, ev: Event): (run: Run) {
    var batch := Batch(1, [ev], false);
    var s0 := State([], Closed, Client(None, 1, None, None), 0, []);
    var acts := [OpenWatch, Step(RangeRead(0, [])), CommitTxn([ev]), Step(WatchLoad(batch)), Step(WatchSwap), Step(ReconcileSwap)];
    var c2 := s0.client.(ranged := Some(Ranged(0, [], LoadAll(d, 0, []))));
    var next := BatchOn(d, None, batch);
    var c4 := c2.(inFlight := Some(InFlight(next, batch)));
    var s1 := s0.(stream := Open(1));
    var s2 := s1.(client := c2);
    var s3 := s2.(log := [[ev]]);
    var s4 := s3.(client := c4, stream := Open(2));
    var s5 := s4.(client := c2.(store := Some(next), watchRev := 2), applied := [ev]);
    var s6 := s5.(client := Client(Some(LoadAll(d, 0, [])), 2, None, None));
    Run([s0, s1, s2, s3, s4, s5, s6], acts)
  }

  lemma OneCommit(ev: Event)
    requires Requested(ev.key)
    ensures Flat([]) == [] && Flat([[ev]]) == [ev]
    ensures Span([[ev]], 0, 1) == [ev] && Visible([ev]) == [ev]
    ensures Complete([[ev]], 1, Batch(1, [ev], false))
    ensures Enumerates([], KeysAfter([]))
  {
    var log := [[ev]];
    assert log[0..1] == log && log[..0] == [];
    assert Flat(log) == [] + [ev] == [ev];
    assert [ev][..0] == [] && Visible([ev]) == [] + [ev];
  }

  lemma OvertakenSteps(d: Codec, ev: Event)
    requires Requested(ev.key)
    ensures var run := OvertakenRun(d, ev);
            StepAt(d, run, 0) && StepAt(d, run, 1) && StepAt(d, run, 2)
  {
    OneCommit(ev);
    var run := OvertakenRun(d, ev);
    assert run.states[2].log + [[ev]] == [[ev]];
  }

  lemma OvertakingSteps(d: Codec, ev: Event)
    requires Requested(ev.key)
    ensures var run := OvertakenRun(d, ev);
            StepAt(d, run, 3) && StepAt(d, run, 4) && StepAt(d, run, 5)
  {
    OneCommit(ev);
    var run := OvertakenRun(d, ev);
    assert run.states[4].applied + [ev] == [ev];
  }

  lemma OvertakenRunIsRun(d: Codec, ev: Event)
    requires Requested(ev.key)
    ensures IsRun(d, OvertakenRun(d, ev))
  {
    var run := OvertakenRun(d, ev);
    OvertakenSteps(d, ev);
    OvertakingSteps(d, ev);
    forall t: nat | t < |run.acts| ensures StepAt(d, run, t) {
      if t < 3 {
        assert t == 0 || t == 1 || t == 2;
      } else {
        assert t == 3 || t == 4 || t == 5;
      }
    }
  }

  lemma OnePutIsGuarded(d: Codec, ev: Event, slot: Slot)
    requires ev.kind.Put?
    ensures Guarded(d, [ev], slot)
  {
    assert [ev][..0] == [];
    assert forall k :: !Stands(d, map[], k, slot);
  }

  /** The slot of the one PUT in an empty load and in etcd. */
  lemma OnePutViews(d: Codec, ev: Event)
    requires ev.kind.Put? && Decoded(d, ev.key, ev.value).Some?
    ensures Requested(ev.key) && Get(LoadAll(d, 0, []), SlotOf(ev.key)).None?
    ensures ViewAt(d, [[ev]], 1, SlotOf(ev.key)) == Decoded(d, ev.key, ev.value)
  {
    RequestCoversSlots(ev.key);
    OneCommit(ev);
    ApplyAllSlot(d, EMPTY, [ev], SlotOf(ev.key));
    assert Effect(d, ev, SlotOf(ev.key)).Some?;
  }

  /** A reconcile swap overtaken by a watched batch loses the update: for every
      decodable PUT there is a run from an empty start, with a plain log and a
      faithful server, that ends without it although the watch has applied it. */
  lemma OvertakenReconcileLosesUpdates(d: Codec, ev: Event)
    requires ev.kind.Put? && Decoded(d, ev.key, ev.value).Some?
    ensures var run := OvertakenRun(d, ev);
            && IsRun(d, run)
            && (forall slot :: Guarded(d, Flat(run.states[6].log), slot))
            && run.states[6].client.store.Some?
            && Get(run.states[6].client.store.value, SlotOf(ev.key)).None?
            && run.states[6].client.watchRev - 1 == |run.states[6].log| == 1
            && ViewAt(d, run.states[6].log, 1, SlotOf(ev.key)) == Decoded(d, ev.key, ev.value)
  {
    OnePutViews(d, ev);
    OvertakenRunIsRun(d, ev);
    OneCommit(ev);
    forall slot ensures Guarded(d, [ev], slot) {
      OnePutIsGuarded(d, ev, slot);
    }
  }

  /** The other cause in the same run: the overtaken load sets the revision back. */
  lemma OvertakenLoadDropsRevision(d: Codec, ev: Event)
    requires Requested(ev.key)
    ensures var run := OvertakenRun(d, ev);
            && IsRun(d, run) && OvertakenLoad(run, 4, 5)
            && run.states[5].client.store == Some(BatchOn(d, None, Batch(1, [ev], false)))
            && run.states[5].client.store.value.revision == 1
            && run.states[6].client.store.Some? && run.states[6].client.store.value.revision == 0
  {
    OvertakenRunIsRun(d, ev);
    LoadRevision(d, 0, []);
  }

  /** The run in which a stream is opened, the same PUT commits twice, a reconcile
      publishes both, and then the first commit is watched. */
  function StaleBatchRun(d: Codec, ev: Event): (run: Run) {
    var batch := Batch(1, [ev], false);
    var kvs := [KV(ev.key, ev.value)];
    var load := LoadAll(d, 2, kvs);
    var s0 := State([], Closed, Client(None, 1, None, None), 0, []);
    var acts := [OpenWatch, CommitTxn([ev]), CommitTxn([ev]), Step(RangeRead(2, kvs)), Step(ReconcileSwap),
                 Step(WatchLoad(batch)), Step(WatchSwap)];
    var s1 := s0.(stream := Open(1));
    var s2 := s1.(log := [[ev]]);
    var s3 := s2.(log := [[ev], [ev]]);
    var s4 := s3.(client := s3.client.(ranged := Some(Ranged(2, kvs, load))));
    var s5 := s4.(client := Client(Some(load), 1, None, None));
    var next := BatchOn(d, Some(load), batch);
    var s6 := s5.(client := s5.client.(inFlight := Some(InFlight(next, batch))), stream := Open(2));
    var s7 := s6.(client := Client(Some(next), 2, None, None), applied := [ev]);
    Run([s0, s1, s2, s3, s4, s5, s6, s7], acts)
  }

  lemma TwoCommits(ev: Event)
    requires Requested(ev.key) && ev.kind.Put?
    ensures Flat([[ev], [ev]]) == [ev, ev]
    ensures Complete([[ev], [ev]], 1, Batch(1, [ev], false))
    ensures Enumerates([KV(ev.key, ev.value)], KeysAfter([ev, ev]))
  {
    OneCommit(ev);
    var log := [[ev], [ev]];
    assert log[..1] == [[ev]] && log[0..1] == [[ev]];
    assert Flat(log) == [ev] + [ev];
    assert [ev, ev][..1] == [ev] && [ev][..0] == [];
  }

  lemma StaleBatchReads(d: Codec, ev: Event)
    requires Requested(ev.key) && ev.kind.Put?
    ensures var run := StaleBatchRun(d, ev);
            StepAt(d, run, 0) && StepAt(d, run, 1) && StepAt(d, run, 2) && StepAt(d, run, 3)
  {
    TwoCommits(ev);
    var run := StaleBatchRun(d, ev);
    assert run.states[1].log + [[ev]] == [[ev]];
    assert run.states[2].log + [[ev]] == [[ev], [ev]];
  }

  lemma StaleBatchSwaps(d: Codec, ev: Event)
    requires Requested(ev.key) && ev.kind.Put?
    ensures var run := StaleBatchRun(d, ev);
            StepAt(d, run, 4) && StepAt(d, run, 5) && StepAt(d, run, 6)
  {
    TwoCommits(ev);
    var run := StaleBatchRun(d, ev);
    assert run.states[6].applied + [ev] == [ev];
  }

  /** For every PUT of a requested key there is a run with a faithful server in
      which an old batch sets the published revision back from 2 to 1. */
  lemma StaleBatchDropsRevision(d: Codec, ev: Event)
    requires Requested(ev.key) && ev.kind.Put?
    ensures var run := StaleBatchRun(d, ev);
            && IsRun(d, run) && StaleBatch(run, 4, 6)
            && run.states[6].client.store.Some? && run.states[6].client.store.value.revision == 2
            && run.states[7].client.store.Some? && run.states[7].client.store.value.revision == 1
  {
    var run := StaleBatchRun(d, ev);
    StaleBatchReads(d, ev);
    StaleBatchSwaps(d, ev);
    forall t: nat | t < |run.acts| ensures StepAt(d, run, t) {
      if t < 4 {
        assert t == 0 || t == 1 || t == 2 || t == 3;
      } else {
        assert t == 4 || t == 5 || t == 6;
      }
    }
    LoadRevision(d, 2, [KV(ev.key, ev.value)]);
  }
}
