/** What a watch stream leaves in the mapping, from the wire to the entries
    (watchPrefix in internal/registry/etcdhttp.go, watchLoop in
    internal/registry/etcd.go). */
module WatchEffects {
  import opened Types
  import opened Keys
  import opened Snapshots
  import opened Replication
  import opened EtcdClient
  import opened Letters

  /** The mapping readers see; an empty one before the first is published. */
  function Shown(c: Client): Snapshot {
    if c.store.Some? then c.store.value else EMPTY
  }

  // ----- batches

  function EventsIn(batches: seq<Batch>): seq<Event> {
    if batches == [] then [] else batches[0].events + EventsIn(batches[1..])
  }

  /** The client after the load and the swap of one batch. */
  function Applied(d: Codec, c: Client, batch: Batch): (r: Client)
    requires c.inFlight.None? && !batch.canceled
    ensures r.inFlight.None?
  {
    ClientNext(d, ClientNext(d, c, WatchLoad(batch)), WatchSwap)
  }

  lemma BatchApplies(d: Codec, c: Client, batch: Batch, slot: Slot)
    requires c.inFlight.None? && !batch.canceled
    ensures var r := Applied(d, c, batch);
            && r.store.Some? && r.ranged == c.ranged
            && Get(Shown(r), slot) == OrElse(LastEffect(d, batch.events, slot), Get(Shown(c), slot))
            && (batch.revision > 0 ==> r.watchRev == batch.revision + 1 && Shown(r).revision == batch.revision)
            && (batch.revision <= 0 ==> r.watchRev == c.watchRev && Shown(r).revision == Shown(c).revision)
  {
    ApplyAllSlot(d, Shown(c), batch.events, slot);
    RevisionUntouched(d, Shown(c), batch.events);
  }

  lemma {:induction false} RevisionUntouched(d: Codec, m: Snapshot, evs: seq<Event>)
    ensures ApplyAll(d, m, evs).revision == m.revision
  {
    if evs != [] {
      RevisionUntouched(d, m, evs[..|evs| - 1]);
    }
  }

  /** The loop over the batches of a stream publishes, in every slot, what the last
      of all their events that touches it says, and nothing else. */
  lemma {:induction false} BatchesApply(d: Codec, c: Client, batches: seq<Batch>, slot: Slot)
    requires c.inFlight.None? && NoneCanceled(batches)
    ensures var r := Consume(d, c, batches);
            && (batches != [] ==> r.store.Some?) && r.ranged == c.ranged
            && Get(Shown(r), slot) == OrElse(LastEffect(d, EventsIn(batches), slot), Get(Shown(c), slot))
    decreases batches
  {
    if batches != [] {
      BatchApplies(d, c, batches[0], slot);
      BatchesApply(d, Applied(d, c, batches[0]), batches[1..], slot);
      LastEffectConcat(d, batches[0].events, EventsIn(batches[1..]), slot);
    }
  }

  /** No batch from the `i`-th on has a positive revision. */
  predicate NoRevisionFrom(batches: seq<Batch>, i: nat) {
    forall j | i <= j < |batches| :: batches[j].revision <= 0
  }

  /** The position: right after the last positive revision, which is also the
      revision published; both stay if there is none. */
  lemma {:induction false} BatchesMovePosition(d: Codec, c: Client, batches: seq<Batch>)
    requires c.inFlight.None? && NoneCanceled(batches)
    ensures var r := Consume(d, c, batches);
            && (NoRevisionFrom(batches, 0) ==> r.watchRev == c.watchRev && Shown(r).revision == Shown(c).revision)
            && forall i: nat | i < |batches| && batches[i].revision > 0 && NoRevisionFrom(batches, i + 1) ::
                 r.watchRev == batches[i].revision + 1 && Shown(r).revision == batches[i].revision
    decreases batches
  {
    if batches != [] {
      var rest := batches[1..];
      var next := Applied(d, c, batches[0]);
      BatchApplies(d, c, batches[0], Ignored);
      BatchesMovePosition(d, next, rest);
      var r := Consume(d, next, rest);
      assert forall j: nat | j < |rest| :: rest[j] == batches[j + 1];
      if NoRevisionFrom(batches, 0) {
        assert NoRevisionFrom(rest, 0);
      }
      forall i: nat | i < |batches| && batches[i].revision > 0 && NoRevisionFrom(batches, i + 1)
        ensures r.watchRev == batches[i].revision + 1 && Shown(r).revision == batches[i].revision
      {
        if i == 0 {
          assert NoRevisionFrom(rest, 0);
        } else {
          assert rest[i - 1] == batches[i] && NoRevisionFrom(rest, i);
        }
      }
    }
  }

  /** The protocol steps of the loop: load and swap, batch by batch. */
  function StepsOf(batches: seq<Batch>): seq<ClientAction> {
    if batches == [] then [] else StepsOf(batches[..|batches| - 1]) + [WatchLoad(batches[|batches| - 1]), WatchSwap]
  }

  /** So the loop is a run of the watch goroutine's protocol steps. */
  lemma {:induction false} BatchesAreSteps(d: Codec, c: Client, batches: seq<Batch>)
    requires c.inFlight.None? && NoneCanceled(batches)
    ensures Steps(d, c, StepsOf(batches), Consume(d, c, batches))
  {
    if batches != [] {
      var n := |batches| - 1;
      var init, last := batches[..n], batches[n];
      BatchesAreSteps(d, c, init);
      var mid := Consume(d, c, init);
      ConsumeLast(d, c, init, last);
      assert batches == init + [last];
      StepAfter(d, c, StepsOf(init), mid, WatchLoad(last));
      StepAfter(d, c, StepsOf(init) + [WatchLoad(last)], ClientNext(d, mid, WatchLoad(last)), WatchSwap);
      assert StepsOf(batches) == StepsOf(init) + [WatchLoad(last)] + [WatchSwap];
    }
  }

  lemma ConsumeLast(d: Codec, c: Client, init: seq<Batch>, last: Batch)
    requires c.inFlight.None? && NoneCanceled(init) && !last.canceled
    ensures Consume(d, c, init + [last]) == Applied(d, Consume(d, c, init), last)
  {
    StreamsConcatenate(d, c, init, [last]);
    assert [last][1..] == [];
  }

  lemma StepAfter(d: Codec, first: Client, acts: seq<ClientAction>, mid: Client, act: ClientAction)
    requires Steps(d, first, acts, mid) && ClientEnabled(mid, act)
    ensures Steps(d, first, acts + [act], ClientNext(d, mid, act))
  {
    assert (acts + [act])[..|acts|] == acts;
  }

  // ----- the wire

  /** What an event on the wire says about a slot: nothing, or its new content. A
      missing type is a PUT. */
  function Says(d: Codec, e: WireEvent, slot: Slot): Option<Option<Entry>> {
    if slot == Ignored || SlotOf(e.key) != slot then None
    else if e.typ == [] || e.typ == Ascii("PUT") then
      if Decoded(d, e.key, e.value).Some? then Some(Decoded(d, e.key, e.value)) else None
    else if e.typ == Ascii("DELETE") then Some(None)
    else None
  }

  function LastSaid(d: Codec, es: seq<WireEvent>, slot: Slot): Option<Option<Entry>> {
    if es == [] then None
    else
      var last := Says(d, es[|es| - 1], slot);
      if last.Some? then last else LastSaid(d, es[..|es| - 1], slot)
  }

  /** The events of the messages that are not acknowledgements, in order. */
  function WireEvents(msgs: seq<Message>): seq<WireEvent> {
    if msgs == [] then [] else (if msgs[0].created then [] else msgs[0].events) + WireEvents(msgs[1..])
  }

  lemma SaysIsEffect(d: Codec, e: WireEvent, slot: Slot)
    ensures Effect(d, EventOf(e), slot) == Says(d, e, slot)
  {
    TypeTexts();
  }

  lemma {:induction false} SaidIsEffect(d: Codec, es: seq<WireEvent>, slot: Slot)
    ensures LastEffect(d, EventsOf(es), slot) == LastSaid(d, es, slot)
  {
    if es != [] {
      var n := |es| - 1;
      SaidIsEffect(d, es[..n], slot);
      SaysIsEffect(d, es[n], slot);
      assert EventsOf(es) == EventsOf(es[..n]) + [EventOf(es[n])];
      LastEffectConcat(d, EventsOf(es[..n]), [EventOf(es[n])], slot);
    }
  }

  lemma EventsConcat(a: seq<WireEvent>, b: seq<WireEvent>)
    ensures EventsOf(a + b) == EventsOf(a) + EventsOf(b)
  {
  }

  predicate Uncanceled(msgs: seq<Message>) {
    forall i | 0 <= i < |msgs| :: !IsCancel(msgs[i])
  }

  lemma FirstDelivered(msg: Message, rest: seq<Message>)
    requires !msg.created && !msg.canceled
    ensures Delivered([msg] + rest) == [BatchOf(msg)] + Delivered(rest)
    ensures EventsIn(Delivered([msg] + rest)) == EventsOf(msg.events) + EventsIn(Delivered(rest))
    ensures WireEvents([msg] + rest) == msg.events + WireEvents(rest)
  {
    assert ([msg] + rest)[1..] == rest;
    assert ([BatchOf(msg)] + Delivered(rest))[1..] == Delivered(rest);
  }

  lemma {:induction false} NoneCanceledDelivered(msgs: seq<Message>)
    requires Uncanceled(msgs)
    ensures NoneCanceled(Delivered(msgs))
  {
    if msgs != [] {
      assert !IsCancel(msgs[0]);
      NoneCanceledDelivered(msgs[1..]);
    }
  }

  lemma {:induction false} WireIsDelivered(msgs: seq<Message>)
    requires Uncanceled(msgs)
    ensures EventsIn(Delivered(msgs)) == EventsOf(WireEvents(msgs))
  {
    if msgs != [] {
      var msg, rest := msgs[0], msgs[1..];
      assert !IsCancel(msg) && msgs == [msg] + rest;
      WireIsDelivered(rest);
      if msg.created {
        assert WireEvents(msgs) == WireEvents(rest);
      } else {
        FirstDelivered(msg, rest);
        EventsConcat(msg.events, WireEvents(rest));
      }
    }
  }

  /** End to end: after a stream, up to its cancellation if there is one, every slot
      holds what the last event on the wire that touches it says. */
  lemma StreamApplies(d: Codec, c: Client, before: seq<Message>, rest: seq<Message>, slot: Slot)
    requires c.inFlight.None?
    requires Uncanceled(before)
    requires rest == [] || IsCancel(rest[0])
    ensures var r := Consume(d, c, Delivered(before + rest));
            Get(Shown(r), slot) == OrElse(LastSaid(d, WireEvents(before), slot), Get(Shown(c), slot))
  {
    if rest == [] {
      assert before + rest == before;
    } else {
      StreamStopsAtCancel(d, c, before, rest[0], rest[1..]);
      assert before + [rest[0]] + rest[1..] == before + rest;
    }
    NoneCanceledDelivered(before);
    WireIsDelivered(before);
    BatchesApply(d, c, Delivered(before), slot);
    SaidIsEffect(d, WireEvents(before), slot);
  }

  /** One event: a PUT, in so many words or by default, stores the decoded value,
      and a DELETE removes the entry. */
  lemma OneEventApplies(d: Codec, c: Client, rev: int, e: WireEvent)
    requires c.inFlight.None? && SlotOf(e.key) != Ignored
    ensures var after := Get(Shown(Consume(d, c, Delivered([Message(rev, false, false, [e])]))), SlotOf(e.key));
            && ((e.typ == [] || e.typ == Ascii("PUT")) && Decoded(d, e.key, e.value).Some? ==> after == Decoded(d, e.key, e.value))
            && (e.typ == Ascii("DELETE") ==> after == None)
  {
    var msg := Message(rev, false, false, [e]);
    StreamApplies(d, c, [msg], [], SlotOf(e.key));
    assert [msg] + [] == [msg] && [msg][1..] == [];
    assert WireEvents([msg]) == [e] + [] == [e];
    assert [e][..0] == [];
    assert |Ascii("DELETE")| == 6 && |Ascii("PUT")| == 3;
  }

  lemma PositionOfLast(d: Codec, c: Client, before: seq<Batch>, batch: Batch, after: seq<Batch>)
    requires c.inFlight.None? && NoneCanceled(before) && !batch.canceled && NoneCanceled(after)
    requires batch.revision > 0 && NoRevisionFrom(after, 0)
    ensures var r := Consume(d, c, before + ([batch] + after));
            r.watchRev == batch.revision + 1 && Shown(r).revision == batch.revision
  {
    var all, i := before + ([batch] + after), |before|;
    assert all[i] == batch && forall j | i + 1 <= j < |all| :: all[j] == after[j - i - 1];
    BatchesMovePosition(d, c, all);
  }

  /** Acknowledgements and messages without a revision. */
  predicate NoRevisionIn(msgs: seq<Message>) {
    forall i | 0 <= i < |msgs| :: msgs[i].created || msgs[i].revision <= 0
  }

  /** The last message that carries a revision and is no acknowledgement says where
      the next stream starts and which revision is published. */
  lemma StreamMovesPosition(d: Codec, c: Client, before: seq<Message>, msg: Message, after: seq<Message>)
    requires c.inFlight.None? && !msg.created && !msg.canceled && msg.revision > 0
    requires Uncanceled(before) && Uncanceled(after) && NoRevisionIn(after)
    ensures var r := Consume(d, c, Delivered(before + ([msg] + after)));
            r.watchRev == msg.revision + 1 && Shown(r).revision == msg.revision
  {
    DeliveredConcat(before, [msg] + after);
    FirstDelivered(msg, after);
    NoneCanceledDelivered(before);
    NoneCanceledDelivered(after);
    NoRevisionDelivered(after);
    PositionOfLast(d, c, Delivered(before), BatchOf(msg), Delivered(after));
  }

  lemma {:induction false} NoRevisionDelivered(msgs: seq<Message>)
    requires Uncanceled(msgs) && NoRevisionIn(msgs)
    ensures NoRevisionFrom(Delivered(msgs), 0)
  {
    if msgs != [] {
      var msg, rest := msgs[0], msgs[1..];
      assert !IsCancel(msg) && msgs == [msg] + rest;
      NoRevisionDelivered(rest);
      if !msg.created {
        FirstDelivered(msg, rest);
      }
    }
  }

  lemma {:induction false} DeliveredConcat(a: seq<Message>, b: seq<Message>)
    requires Uncanceled(a)
    ensures Delivered(a + b) == Delivered(a) + Delivered(b)
  {
    if a == [] {
      assert a + b == b;
    } else {
      assert (a + b)[0] == a[0] && (a + b)[1..] == a[1..] + b;
      assert !IsCancel(a[0]);
      DeliveredConcat(a[1..], b);
    }
  }
}
