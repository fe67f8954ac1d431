/** The two loops of the etcd registry over heap objects (internal/registry/etcd.go)
    and the decoding of a watch stream (internal/registry/etcdhttp.go). */
module EtcdClient {
  import opened Types
  import opened Keys
  import opened Snapshots
  import opened KeySpace
  import opened Replication
  import opened Cache

  // ----- watch messages

  /** An event on the wire; the gateway leaves the type of a PUT out. */
  datatype WireEvent = WireEvent(typ: Text, key: Text, value: Text)
  datatype Message = Message(revision: int, created: bool, canceled: bool, events: seq<WireEvent>)

  // PUT
  function PutText(): Text {
    [0x50, 0x55, 0x54]
  }

  // DELETE
  function DeleteText(): Text {
    [0x44, 0x45, 0x4c, 0x45, 0x54, 0x45]
  }

  function KindOf(typ: Text): EventKind {
    if typ == PutText() then Put else if typ == DeleteText() then Delete else OtherKind(typ)
  }

  function EventOf(e: WireEvent): Event {
    Event(KindOf(if e.typ == [] then PutText() else e.typ), e.key, e.value)
  }

  function EventsOf(es: seq<WireEvent>): (evs: seq<Event>)
    ensures |evs| == |es| && forall i | 0 <= i < |es| :: evs[i] == EventOf(es[i])
  {
    if es == [] then [] else EventsOf(es[..|es| - 1]) + [EventOf(es[|es| - 1])]
  }

  function BatchOf(msg: Message): Batch {
    Batch(msg.revision, EventsOf(msg.events), msg.canceled)
  }

  /** The batches a stream of messages delivers: acknowledgements are skipped and
      nothing follows a canceled batch. */
  function Delivered(msgs: seq<Message>): seq<Batch> {
    if msgs == [] then []
    else if msgs[0].created then Delivered(msgs[1..])
    else if msgs[0].canceled then [BatchOf(msgs[0])]
    else [BatchOf(msgs[0])] + Delivered(msgs[1..])
  }

  /** The inner loop over the events of one message. */
  method DecodeEvents(es: seq<WireEvent>) returns (events: seq<Event>)
    ensures events == EventsOf(es)
  {
    events := [];
    for i := 0 to |es|
      invariant events == EventsOf(es[..i])
    {
      assert es[..i + 1][..i] == es[..i];
      var typ := es[i].typ;
      if typ == [] {
        typ := PutText();
      }
      events := events + [Event(KindOf(typ), es[i].key, es[i].value)];
    }
    assert es[..|es|] == es;
  }

  method WatchStream(msgs: seq<Message>) returns (out: seq<Batch>)
    ensures out == Delivered(msgs)
  {
    out := [];
    for n := 0 to |msgs|
      invariant Delivered(msgs) == out + Delivered(msgs[n..])
    {
      var msg := msgs[n];
      assert msgs[n..][1..] == msgs[n + 1..];
      if !msg.created {
        var events := DecodeEvents(msg.events);
        out := out + [Batch(msg.revision, events, msg.canceled)];
        if msg.canceled {
          return;
        }
      }
    }
  }

  // ----- the watch loop's treatment of one stream

  /** The client after one pass of `for batch := range batches`, undisturbed. */
  function Consume(d: Codec, c: Client, batches: seq<Batch>): (r: Client)
    requires c.inFlight.None?
    ensures r.inFlight.None?
    decreases batches
  {
    if batches == [] || batches[0].canceled then c
    else Consume(d, ClientNext(d, ClientNext(d, c, WatchLoad(batches[0])), WatchSwap), batches[1..])
  }

  ghost predicate NoneCanceled(batches: seq<Batch>) {
    forall i | 0 <= i < |batches| :: !batches[i].canceled
  }

  /** A canceled batch, and whatever might follow it, leaves no trace. */
  lemma {:induction false} NothingAfterCancel(d: Codec, c: Client, before: seq<Batch>, canceled: Batch, after: seq<Batch>)
    requires c.inFlight.None? && NoneCanceled(before) && canceled.canceled
    ensures Consume(d, c, before + [canceled] + after) == Consume(d, c, before)
    decreases before
  {
    var all := before + [canceled] + after;
    if before != [] {
      assert all[0] == before[0] && all[1..] == before[1..] + [canceled] + after;
      NothingAfterCancel(d, ClientNext(d, ClientNext(d, c, WatchLoad(before[0])), WatchSwap), before[1..], canceled, after);
    }
  }

  /** Across streams: consuming two streams that end without cancellation is
      consuming their concatenation. */
  lemma {:induction false} StreamsConcatenate(d: Codec, c: Client, first: seq<Batch>, second: seq<Batch>)
    requires c.inFlight.None? && NoneCanceled(first)
    ensures Consume(d, Consume(d, c, first), second) == Consume(d, c, first + second)
    decreases first
  {
    if first == [] {
      assert first + second == second;
    } else {
      assert (first + second)[0] == first[0] && (first + second)[1..] == first[1..] + second;
      StreamsConcatenate(d, ClientNext(d, ClientNext(d, c, WatchLoad(first[0])), WatchSwap), first[1..], second);
    }
  }

  predicate IsCancel(msg: Message) {
    !msg.created && msg.canceled
  }

  lemma {:induction false} DeliveredUpToCancel(before: seq<Message>, cancel: Message, after: seq<Message>)
    requires IsCancel(cancel) && forall i | 0 <= i < |before| :: !IsCancel(before[i])
    ensures NoneCanceled(Delivered(before))
    ensures Delivered(before + [cancel] + after) == Delivered(before) + [BatchOf(cancel)]
  {
    var all := before + [cancel] + after;
    if before == [] {
      assert all[0] == cancel;
    } else {
      assert all[0] == before[0] && all[1..] == before[1..] + [cancel] + after;
      DeliveredUpToCancel(before[1..], cancel, after);
    }
  }

  /** From the wire to the client: a cancellation ends a stream without a trace,
      whatever else the server sends. An acknowledgement is skipped even if it
      carries a cancellation. */
  lemma StreamStopsAtCancel(d: Codec, c: Client, before: seq<Message>, cancel: Message, after: seq<Message>)
    requires c.inFlight.None?
    requires IsCancel(cancel) && forall i | 0 <= i < |before| :: !IsCancel(before[i])
    ensures Consume(d, c, Delivered(before + [cancel] + after)) == Consume(d, c, Delivered(before))
  {
    DeliveredUpToCancel(before, cancel, after);
    NothingAfterCancel(d, c, Delivered(before), BatchOf(cancel), []);
    assert Delivered(before) + [BatchOf(cancel)] + [] == Delivered(before) + [BatchOf(cancel)];
  }

  // ----- heap steps

  method ApplyKVInPlace(d: Codec, m: Mapping, key: Text, value: Text, deleted: bool) returns (ok: bool)
    modifies m.shards, m.buckets
    ensures (m.Contents(), ok) == ApplyKV(d, old(m.Contents()), key, value, deleted)
  {
    var shardID := ShardIDFromKey(key);
    if shardID.Some? {
      if deleted {
        m.shards.Remove(shardID.value);
        return true;
      }
      var def := d.shard(value);
      if def.None? {
        return false;
      }
      var shard := def.value;
      if shard.shardID == [] {
        shard := shard.(shardID := shardID.value);
      }
      m.shards.Put(shardID.value, shard);
      return true;
    }
    var bucketID := BucketIDFromKey(key);
    if bucketID.Some? {
      if deleted {
        m.buckets.Remove(bucketID.value);
        return true;
      }
      var def := d.bucket(value);
      if def.None? {
        return false;
      }
      m.buckets.Put(bucketID.value, def.value.(bucketID := bucketID.value));
      return true;
    }
    return true;
  }

  /** What a successful range request over the prefix returns. */
  datatype RangeReply = RangeReply(revision: int, kvs: seq<KV>)

  /** The registry object. Besides the store it holds what is local to its two
      goroutines between their atomic steps: the position of the watch, the clone
      it is about to publish, and the full load the other loop is about to
      publish. `published` records every mapping ever swapped in, with the
      contents it had then. */
  class EtcdRegistry {
    const codec: Codec
    const store: Store
    var watchRev: int
    var next: Mapping?
    var nextBatch: Batch
    var loaded: Mapping?
    var loadedKVs: seq<KV>
    ghost var published: seq<(Mapping, Snapshot)>
    ghost var objects: set<object>

    /** Every mapping ever published still has the contents it was published
        with, and the store shows the last of them. */
    ghost predicate Valid()
      reads this, store, objects
    {
      && (forall p | p in published :: p.0.Footprint() <= objects && p.0.Contents() == p.1)
      && store.ptr == (if published == [] then null else published[|published| - 1].0)
      && (next != null ==> next.Footprint() <= objects)
      && (loaded != null ==> loaded.Footprint() <= objects)
    }

    ghost function View(): Client
      requires Valid()
      reads this, store, objects
    {
      Client(
        if store.ptr == null then None else Some(published[|published| - 1].0.Contents()),
        watchRev,
        if next == null then None else Some(InFlight(next.Contents(), nextBatch)),
        if loaded == null then None else Some(Ranged(loaded.revision, loadedKVs, loaded.Contents())))
    }

    constructor (codec: Codec)
      ensures Valid() && fresh(store) && fresh(objects)
      ensures View() == Client(None, 0, None, None) && published == []
      ensures this.codec == codec
    {
      this.codec := codec;
      store := new Store();
      watchRev := 0;
      next := null;
      nextBatch := Batch(0, [], false);
      loaded := null;
      loadedKVs := [];
      published := [];
      objects := {};
    }

    /** The building part of loadAll: a brand-new mapping from a range response. */
    method BuildSnapshot(rev: int, kvs: seq<KV>) returns (m: Mapping)
      ensures fresh(m.Footprint())
      ensures m.Contents() == LoadAll(codec, rev, kvs) && m.revision == rev
    {
      m := new Mapping(rev);
      ghost var puts := AsPuts(kvs);
      for i := 0 to |kvs|
        invariant fresh(m.Footprint())
        invariant m.Contents() == ApplyAll(codec, EMPTY.(revision := rev), puts[..i]) && m.revision == rev
      {
        assert puts[..i + 1][..i] == puts[..i];
        var ok := ApplyKVInPlace(codec, m, kvs[i].key, kvs[i].value, false);
      }
      assert puts[..|kvs|] == puts;
    }

    /** Start: the initial load is published before either loop runs. A failed
        authentication or a failed load starts nothing and leaves the store empty. */
    method Start(authenticated: bool, reply: Option<RangeReply>) returns (ok: bool)
      requires Valid() && View() == Client(None, 0, None, None)
      modifies this, store
      ensures Valid() && fresh(objects - old(objects))
      ensures ok <==> authenticated && reply.Some?
      ensures ok ==> View() == Client(Some(LoadAll(codec, reply.value.revision, reply.value.kvs)),
                                      reply.value.revision + 1, None, None)
      ensures ok ==> old(published) <= published
      ensures !ok ==> View() == Client(None, 0, None, None) && published == old(published)
    {
      if !authenticated || reply.None? {
        return false;
      }
      var rev := reply.value.revision;
      var m := BuildSnapshot(rev, reply.value.kvs);
      store.Swap(m);
      published := published + [(m, m.Contents())];
      objects := objects + m.Footprint();
      watchRev := rev + 1;
      return true;
    }

    /** The building part of watchLoop: clone the current mapping and apply the
        batch to the clone. */
    method BuildNext(cur: Mapping?, batch: Batch) returns (m: Mapping)
      ensures fresh(m.Footprint())
      ensures m.Contents() == BatchOn(codec, if cur == null then None else Some(cur.Contents()), batch)
    {
      if cur != null {
        m := cur.Clone();
      } else {
        m := new Mapping(0);
      }
      ghost var base := m.Contents();
      for i := 0 to |batch.events|
        invariant fresh(m.Footprint())
        invariant m.Contents() == ApplyAll(codec, base, batch.events[..i])
        modifies m.Footprint()
      {
        assert batch.events[..i + 1][..i] == batch.events[..i];
        var ev := batch.events[i];
        match ev.kind
        case Put => var ok := ApplyKVInPlace(codec, m, ev.key, ev.value, false);
        case Delete => var ok := ApplyKVInPlace(codec, m, ev.key, [], true);
        case OtherKind(_) =>
      }
      assert batch.events[..|batch.events|] == batch.events;
      if batch.revision > 0 {
        m.revision := batch.revision;
      }
    }

    /** watchLoop up to the swap. */
    method WatchLoadStep(batch: Batch)
      requires Valid() && ClientEnabled(View(), WatchLoad(batch))
      modifies this
      ensures Valid() && fresh(objects - old(objects))
      ensures View() == ClientNext(codec, old(View()), WatchLoad(batch))
      ensures published == old(published)
    {
      var cur := store.Load();
      var m := BuildNext(cur, batch);
      next, nextBatch := m, batch;
      objects := objects + m.Footprint();
    }

    method WatchSwapStep()
      requires Valid() && ClientEnabled(View(), WatchSwap)
      modifies this, store
      ensures Valid() && objects == old(objects)
      ensures View() == ClientNext(codec, old(View()), WatchSwap)
      ensures old(published) <= published
    {
      if nextBatch.revision > 0 {
        watchRev := nextBatch.revision + 1;
      }
      store.Swap(next);
      published := published + [(next, next.Contents())];
      next := null;
    }

    /** reconcileLoop up to the swap. */
    method RangeReadStep(rev: int, kvs: seq<KV>)
      requires Valid() && ClientEnabled(View(), RangeRead(rev, kvs))
      modifies this
      ensures Valid() && fresh(objects - old(objects))
      ensures View() == ClientNext(codec, old(View()), RangeRead(rev, kvs))
      ensures published == old(published)
    {
      var m := BuildSnapshot(rev, kvs);
      loaded, loadedKVs := m, kvs;
      objects := objects + m.Footprint();
    }

    method ReconcileSwapStep()
      requires Valid() && ClientEnabled(View(), ReconcileSwap)
      modifies this, store
      ensures Valid() && objects == old(objects)
      ensures View() == ClientNext(codec, old(View()), ReconcileSwap)
      ensures old(published) <= published
    {
      store.Swap(loaded);
      published := published + [(loaded, loaded.Contents())];
      loaded := null;
    }

    /** The inner loop of watchLoop over the batches of one stream. */
    method ConsumeStream(batches: seq<Batch>)
      requires Valid() && View().inFlight.None?
      modifies this, store
      ensures Valid() && fresh(objects - old(objects))
      ensures View() == Consume(codec, old(View()), batches)
      ensures old(published) <= published
    {
      ghost var goal := Consume(codec, View(), batches);
      for n := 0 to |batches|
        invariant Valid() && fresh(objects - old(objects)) && View().inFlight.None?
        invariant goal == Consume(codec, View(), batches[n..])
        invariant old(published) <= published
      {
        if batches[n].canceled {
          return;
        }
        assert batches[n..][1..] == batches[n + 1..];
        WatchLoadStep(batches[n]);
        WatchSwapStep();
      }
    }

    method ClientStep(act: ClientAction)
      requires Valid() && ClientEnabled(View(), act)
      modifies this, store
      ensures Valid() && fresh(objects - old(objects))
      ensures View() == ClientNext(codec, old(View()), act)
      ensures old(published) <= published
    {
      match act
      case WatchLoad(batch) => WatchLoadStep(batch);
      case WatchSwap => WatchSwapStep();
      case RangeRead(rev, kvs) => RangeReadStep(rev, kvs);
      case ReconcileSwap => ReconcileSwapStep();
    }

    /** The scheduler: any interleaving of the steps of the two goroutines. */
    method Interleave(acts: seq<ClientAction>) returns (done: nat)
      requires Valid()
      modifies this, store
      ensures Valid() && fresh(objects - old(objects))
      ensures old(published) <= published
      ensures done <= |acts|
      ensures Steps(codec, old(View()), acts[..done], View())
      ensures done < |acts| ==> !ClientEnabled(View(), acts[done])
    {
      done := 0;
      while done < |acts| && Ready(acts[done])
        invariant done <= |acts|
        invariant Valid() && fresh(objects - old(objects)) && old(published) <= published
        invariant Steps(codec, old(View()), acts[..done], View())
        decreases |acts| - done
      {
        assert acts[..done + 1][..done] == acts[..done];
        ClientStep(acts[done]);
        done := done + 1;
      }
    }

    predicate Ready(act: ClientAction)
      requires Valid()
      reads this, store, objects
      ensures Ready(act) <==> ClientEnabled(View(), act)
    {
      match act
      case WatchLoad(batch) => next == null && !batch.canceled
      case WatchSwap => next != null
      case RangeRead(_, _) => loaded == null
      case ReconcileSwap => loaded != null
    }
  }

  /** `last` is the client after the steps `acts`, each of them enabled. */
  ghost predicate Steps(d: Codec, first: Client, acts: seq<ClientAction>, last: Client) {
    if acts == [] then last == first
    else
      var n := |acts| - 1;
      exists mid :: Steps(d, first, acts[..n], mid) && ClientEnabled(mid, acts[n]) && last == ClientNext(d, mid, acts[n])
  }
}
