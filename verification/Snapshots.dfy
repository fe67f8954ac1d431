/** What one key/value event does to a snapshot (applyKV in internal/registry/etcd.go). */
module Snapshots {
  import opened Types
  import opened Bytes
  import opened Keys

  /** The JSON decoders: total functions nothing is known about. */
  datatype Codec = Codec(shard: Text -> Option<ShardDef>, bucket: Text -> Option<BucketDef>)

  datatype EventKind = Put | Delete | OtherKind(text: Text)
  datatype Event = Event(kind: EventKind, key: Text, value: Text)

  const EMPTY := Snapshot(0, map[], map[])

  /** Result of applyKV: the snapshot after the call and whether it returned nil. */
  function ApplyKV(d: Codec, m: Snapshot, key: Text, value: Text, deleted: bool): (Snapshot, bool) {
    match ShardIDFromKey(key)
    case Some(id) =>
      if deleted then (m.(shards := m.shards - {id}), true)
      else (
        match d.shard(value)
        case None => (m, false)
        case Some(def) =>
          (m.(shards := m.shards[id := if def.shardID == [] then def.(shardID := id) else def]), true))
    case None =>
      match BucketIDFromKey(key)
      case None => (m, true)
      case Some(id) =>
        if deleted then (m.(buckets := m.buckets - {id}), true)
        else (
          match d.bucket(value)
          case None => (m, false)
          case Some(def) => (m.(buckets := m.buckets[id := def.(bucketID := id)]), true))
  }

  /** One event of a batch, as the switch in watchLoop treats it. */
  function Apply(d: Codec, m: Snapshot, ev: Event): Snapshot {
    match ev.kind
    case Put => ApplyKV(d, m, ev.key, ev.value, false).0
    case Delete => ApplyKV(d, m, ev.key, [], true).0
    case OtherKind(_) => m
  }

  function ApplyAll(d: Codec, m: Snapshot, evs: seq<Event>): Snapshot {
    if evs == [] then m
    else Apply(d, ApplyAll(d, m, evs[..|evs| - 1]), evs[|evs| - 1])
  }

  // ----- entries seen one slot at a time

  datatype Entry = ShardEntry(shard: ShardDef) | BucketEntry(bucket: BucketDef)

  function Get(m: Snapshot, slot: Slot): Option<Entry> {
    match slot
    case ShardSlot(id) => if id in m.shards then Some(ShardEntry(m.shards[id])) else None
    case BucketSlot(id) => if id in m.buckets then Some(BucketEntry(m.buckets[id])) else None
    case Ignored => None
  }

  /** Two snapshots hold the same routes when every slot agrees. */
  lemma SameSlotsSameMaps(m: Snapshot, m': Snapshot)
    requires forall slot :: Get(m, slot) == Get(m', slot)
    ensures m.shards == m'.shards && m.buckets == m'.buckets
  {
    forall id: Text
      ensures id in m.shards <==> id in m'.shards
      ensures id in m.shards ==> m.shards[id] == m'.shards[id]
    {
      assert Get(m, ShardSlot(id)) == Get(m', ShardSlot(id));
    }
    forall id: int
      ensures id in m.buckets <==> id in m'.buckets
      ensures id in m.buckets ==> m.buckets[id] == m'.buckets[id]
    {
      assert Get(m, BucketSlot(id)) == Get(m', BucketSlot(id));
    }
  }

  /** The entry that storing `value` under `key` stands for, if it decodes. */
  function Decoded(d: Codec, key: Text, value: Text): Option<Entry> {
    match SlotOf(key)
    case ShardSlot(id) => (
      match d.shard(value)
      case None => None
      case Some(def) => Some(ShardEntry(if def.shardID == [] then def.(shardID := id) else def)))
    case BucketSlot(id) => (
      match d.bucket(value)
      case None => None
      case Some(def) => Some(BucketEntry(def.(bucketID := id))))
    case Ignored => None
  }

  /** What an event leaves in a slot: nothing changed, or the new content. */
  function Effect(d: Codec, ev: Event, slot: Slot): Option<Option<Entry>> {
    if slot == Ignored || SlotOf(ev.key) != slot then None
    else
      match ev.kind
      case Put => if Decoded(d, ev.key, ev.value).Some? then Some(Decoded(d, ev.key, ev.value)) else None
      case Delete => Some(None)
      case OtherKind(_) => None
  }

  function LastEffect(d: Codec, evs: seq<Event>, slot: Slot): Option<Option<Entry>> {
    if evs == [] then None
    else
      var last := Effect(d, evs[|evs| - 1], slot);
      if last.Some? then last else LastEffect(d, evs[..|evs| - 1], slot)
  }

  function OrElse(last: Option<Option<Entry>>, before: Option<Entry>): Option<Entry> {
    match last
    case Some(content) => content
    case None => before
  }

  lemma ApplySlot(d: Codec, m: Snapshot, ev: Event, slot: Slot)
    ensures Get(Apply(d, m, ev), slot) == OrElse(Effect(d, ev, slot), Get(m, slot))
  {
  }

  /** What a PUT of a value that decodes stores under a key: the decoded record, with
      the bucket id always taken from the key and the shard id only if it is empty. */
  lemma StoredRecord(d: Codec, m: Snapshot, id: Text, s: Text, b: int, value: Text)
    requires Atoi(s) == Some(b)
    ensures Apply(d, m, Event(Put, ShardKey(id), value)) ==
            match d.shard(value)
            case None => m
            case Some(def) =>
              var shardID := if def.shardID == [] then id else def.shardID;
              m.(shards := m.shards[id := ShardDef(shardID, def.status, def.writer, def.reader, def.credentialRef, def.region)])
    ensures Apply(d, m, Event(Put, BucketKey(s), value)) ==
            match d.bucket(value)
            case None => m
            case Some(def) =>
              m.(buckets := m.buckets[b := BucketDef(b, def.shardID, def.destShardID, def.state, def.mappingVersion)])
    ensures Apply(d, m, Event(Delete, ShardKey(id), value)) == m.(shards := m.shards - {id})
    ensures Apply(d, m, Event(Delete, BucketKey(s), value)) == m.(buckets := m.buckets - {b})
  {
    ShardKeySlot(id);
    BucketKeySlot(s);
  }

  /** Every bucket entry carries its own id, and a shard entry without an id is
      registered under the empty one. */
  predicate NamesItself(m: Snapshot) {
    && (forall b | b in m.buckets :: m.buckets[b].bucketID == b)
    && (forall id | id in m.shards :: m.shards[id].shardID == [] ==> id == [])
  }

  lemma {:induction false} EntriesNameThemselves(d: Codec, m: Snapshot, evs: seq<Event>)
    requires NamesItself(m)
    ensures NamesItself(ApplyAll(d, m, evs))
  {
    if evs != [] {
      EntriesNameThemselves(d, m, evs[..|evs| - 1]);
    }
  }

  /** A run of events leaves in each slot what the last event that touched it
      says, and leaves the other slots alone. */
  lemma {:induction false} ApplyAllSlot(d: Codec, m: Snapshot, evs: seq<Event>, slot: Slot)
    ensures Get(ApplyAll(d, m, evs), slot) == OrElse(LastEffect(d, evs, slot), Get(m, slot))
  {
    if evs != [] {
      var init := evs[..|evs| - 1];
      ApplyAllSlot(d, m, init, slot);
      ApplySlot(d, ApplyAll(d, m, init), evs[|evs| - 1], slot);
    }
  }

  lemma {:induction false} LastEffectConcat(d: Codec, a: seq<Event>, b: seq<Event>, slot: Slot)
    ensures LastEffect(d, a + b, slot) ==
            if LastEffect(d, b, slot).Some? then LastEffect(d, b, slot) else LastEffect(d, a, slot)
  {
    if b == [] {
      assert a + b == a;
    } else {
      assert (a + b)[..|a + b| - 1] == a + b[..|b| - 1];
      LastEffectConcat(d, a, b[..|b| - 1], slot);
    }
  }

  /** A slot holds something new only because some event put it there. */
  lemma {:induction false} LastEffectWitness(d: Codec, evs: seq<Event>, slot: Slot) returns (i: nat)
    requires LastEffect(d, evs, slot).Some?
    ensures i < |evs| && Effect(d, evs[i], slot) == LastEffect(d, evs, slot)
  {
    i := |evs| - 1;
    if Effect(d, evs[i], slot).None? {
      i := LastEffectWitness(d, evs[..i], slot);
    }
  }

  lemma {:induction false} NoEffects(d: Codec, evs: seq<Event>, slot: Slot)
    requires forall i | 0 <= i < |evs| :: Effect(d, evs[i], slot).None?
    ensures LastEffect(d, evs, slot).None?
  {
    if evs != [] {
      NoEffects(d, evs[..|evs| - 1], slot);
    }
  }

  // ----- the events a request for the key-space delivers

  function Visible(evs: seq<Event>): seq<Event> {
    if evs == [] then []
    else
      var rest := Visible(evs[..|evs| - 1]);
      if Requested(evs[|evs| - 1].key) then rest + [evs[|evs| - 1]] else rest
  }

  /** Leaving out the keys outside the requested range loses nothing. */
  lemma {:induction false} VisibleEffects(d: Codec, evs: seq<Event>, slot: Slot)
    ensures LastEffect(d, Visible(evs), slot) == LastEffect(d, evs, slot)
  {
    if evs != [] {
      var init, last := evs[..|evs| - 1], evs[|evs| - 1];
      VisibleEffects(d, init, slot);
      if Effect(d, last, slot).Some? {
        RequestCoversSlots(last.key);
      }
      assert Requested(last.key) ==> Visible(evs)[..|Visible(evs)| - 1] == Visible(init);
    }
  }

  lemma {:induction false} VisibleConcat(a: seq<Event>, b: seq<Event>)
    ensures Visible(a + b) == Visible(a) + Visible(b)
  {
    if b == [] {
      assert a + b == a;
    } else {
      assert (a + b)[..|a + b| - 1] == a + b[..|b| - 1];
      VisibleConcat(a, b[..|b| - 1]);
    }
  }

  lemma {:induction false} VisibleComesFrom(evs: seq<Event>, ev: Event)
    requires ev in Visible(evs)
    ensures ev in evs
  {
    if evs != [] && ev != evs[|evs| - 1] {
      VisibleComesFrom(evs[..|evs| - 1], ev);
    }
  }
}
