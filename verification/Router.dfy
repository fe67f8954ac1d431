/** Migration-aware routing (internal/router/router.go). */
module Router {
  import opened Types
  import opened Hashing
  import Cache

  datatype Error =
    | NoMapping
    | UnknownBucket(bucketID: int)
    | UnknownShard(shardID: Text, bucketID: int)
    | ShardUnavailable(shardID: Text)

  datatype Resolved = Resolved(
    bucketID: int,
    readShard: ShardDef,
    writeShards: seq<ShardDef>,
    migrationState: MigrationState)
  {
    function PrimaryWriteShard(): ShardDef
      requires writeShards != []
    {
      writeShards[0]
    }

    function ReadEndpoint(consistency: ReadConsistency): Endpoint {
      if consistency == Eventual && readShard.reader.Some? then readShard.reader.value else readShard.writer
    }
  }

  datatype Result = Ok(res: Resolved) | Err(error: Error)

  // READ_YOUR_WRITES
  function ReadYourWritesText(): Text {
    [0x52, 0x45, 0x41, 0x44, 0x5f, 0x59, 0x4f, 0x55, 0x52, 0x5f, 0x57, 0x52, 0x49, 0x54, 0x45, 0x53]
  }

  // EVENTUAL
  function EventualText(): Text {
    [0x45, 0x56, 0x45, 0x4e, 0x54, 0x55, 0x41, 0x4c]
  }

  /** Unknown and empty requests are taken as STRONG. */
  function ParseReadConsistency(s: Text): ReadConsistency {
    if s == ReadYourWritesText() then ReadYourWrites else if s == EventualText() then Eventual else Strong
  }

  // ----- the state table

  predicate DualFamily(s: MigrationState) {
    s.DualWrite? || s.CdcCatchup? || s.Verifying?
  }

  predicate DestFamily(s: MigrationState) {
    s.Cutover? || s.DrainingSource? || s.ActiveDest?
  }

  predicate Registered(m: Snapshot, b: int) {
    && b in m.buckets && m.buckets[b].shardID in m.shards
    && (DestFamily(m.buckets[b].state) ==> m.buckets[b].destShardID in m.shards)
  }

  /** The shards the state table sends the writes of bucket `b` to, the
      authoritative one first. */
  function TableShards(m: Snapshot, b: int): (ws: seq<ShardDef>)
    requires Registered(m, b)
    ensures ws != []
  {
    var bucket := m.buckets[b];
    if DestFamily(bucket.state) then [m.shards[bucket.destShardID]]
    else if DualFamily(bucket.state) && bucket.destShardID in m.shards
    then [m.shards[bucket.shardID], m.shards[bucket.destShardID]]
    else [m.shards[bucket.shardID]]
  }

  predicate AllActive(ws: seq<ShardDef>) {
    forall i | 0 <= i < |ws| :: ws[i].status.Active?
  }

  /** Index `i` is the first shard that is not ACTIVE. */
  predicate FirstInactive(ws: seq<ShardDef>, i: nat) {
    i < |ws| && !ws[i].status.Active? && forall j | 0 <= j < i :: ws[j].status.Active?
  }

  /** The outcome of routing bucket `b` in a mapping. */
  ghost predicate Routes(m: Snapshot, b: int, r: Result) {
    match r
    case Ok(res) =>
      && Registered(m, b) && AllActive(TableShards(m, b))
      && res.bucketID == b && res.migrationState == m.buckets[b].state
      && res.writeShards == TableShards(m, b) && res.readShard == TableShards(m, b)[0]
    case Err(NoMapping) => false
    case Err(UnknownBucket(id)) => id == b && b !in m.buckets
    case Err(UnknownShard(id, bucketID)) =>
      && bucketID == b && b in m.buckets && id !in m.shards
      && (if m.buckets[b].shardID !in m.shards then id == m.buckets[b].shardID
          else DestFamily(m.buckets[b].state) && id == m.buckets[b].destShardID)
    case Err(ShardUnavailable(id)) =>
      && Registered(m, b)
      && exists i: nat :: FirstInactive(TableShards(m, b), i) && TableShards(m, b)[i].shardID == id
  }

  /** Every mapping and bucket has exactly one outcome, and it is a success
      exactly when the shards of the table are registered and all ACTIVE. */
  lemma RoutesExactly(m: Snapshot, b: int, r: Result, r': Result)
    requires Routes(m, b, r) && Routes(m, b, r')
    ensures r == r'
    ensures r.Ok? <==> Registered(m, b) && AllActive(TableShards(m, b))
    ensures r.Ok? ==> r.res.readShard == r.res.PrimaryWriteShard()
  {
  }

  /** The errors in full, over the fields of the mapping: a missing bucket comes
      first, then a missing source, then, in the cutover family only, a missing
      destination; then the source of all other states or the destination of
      that family must be ACTIVE, and last, in the dual-write family, a
      destination that is registered. */
  lemma ErrorTable(m: Snapshot, b: int, r: Result, id: Text)
    requires Routes(m, b, r)
    ensures r == Err(UnknownBucket(b)) <==> b !in m.buckets
    ensures r == Err(UnknownShard(id, b)) <==>
              && b in m.buckets
              && var bucket := m.buckets[b];
                 || (bucket.shardID !in m.shards && id == bucket.shardID)
                 || (bucket.shardID in m.shards && (bucket.state.Cutover? || bucket.state.DrainingSource? || bucket.state.ActiveDest?)
                     && bucket.destShardID !in m.shards && id == bucket.destShardID)
    ensures r == Err(ShardUnavailable(id)) <==>
              && b in m.buckets && m.buckets[b].shardID in m.shards
              && var bucket, source := m.buckets[b], m.shards[m.buckets[b].shardID];
                 var down := bucket.destShardID in m.shards && m.shards[bucket.destShardID].status != Active;
                 match bucket.state
                 case ActiveSource | Copying | OtherState(_) => source.status != Active && id == source.shardID
                 case DualWrite | CdcCatchup | Verifying =>
                   if source.status != Active then id == source.shardID else down && id == m.shards[bucket.destShardID].shardID
                 case Cutover | DrainingSource | ActiveDest => down && id == m.shards[bucket.destShardID].shardID
    ensures r != Err(NoMapping)
    ensures r.Ok? ==> r.res.bucketID == b && r.res.migrationState == m.buckets[b].state
  {
    if b in m.buckets && m.buckets[b].shardID in m.shards && Registered(m, b) {
      var ws := TableShards(m, b);
      if |ws| == 2 && ws[0].status.Active? && !ws[1].status.Active? {
        assert FirstInactive(ws, 1);
      }
      if !ws[0].status.Active? {
        assert FirstInactive(ws, 0);
      }
    }
  }

  /** The table in full: what a success looks like in each state. */
  lemma StateTable(m: Snapshot, b: int, res: Resolved)
    requires Routes(m, b, Ok(res))
    ensures var bucket := m.buckets[b];
            var source := m.shards[bucket.shardID];
            match bucket.state
            case ActiveSource | Copying | OtherState(_) => res.readShard == source && res.writeShards == [source]
            case DualWrite | CdcCatchup | Verifying =>
              && res.readShard == source
              && res.writeShards == if bucket.destShardID in m.shards then [source, m.shards[bucket.destShardID]] else [source]
            case Cutover | DrainingSource | ActiveDest =>
              && bucket.destShardID in m.shards
              && res.readShard == m.shards[bucket.destShardID] && res.writeShards == [m.shards[bucket.destShardID]]
  {
  }

  /** A registered destination that is not ACTIVE stops all traffic of a bucket
      in the dual-write states, reads of the healthy source included. */
  lemma InactiveDestinationStopsDualWrite(m: Snapshot, b: int, r: Result)
    requires Registered(m, b) && DualFamily(m.buckets[b].state) && m.shards[m.buckets[b].shardID].status.Active?
    requires m.buckets[b].destShardID in m.shards && !m.shards[m.buckets[b].destShardID].status.Active?
    requires Routes(m, b, r)
    ensures r == Err(ShardUnavailable(m.shards[m.buckets[b].destShardID].shardID))
  {
    var ws := TableShards(m, b);
    assert !AllActive(ws) by { assert !ws[1].status.Active?; }
  }

  // ----- the router object

  class Router {
    const store: Cache.Store
    const bucketCount: int
    const digestOf: Text -> Digest

    constructor (store: Cache.Store, bucketCount: int, digestOf: Text -> Digest)
      ensures this.store == store && this.digestOf == digestOf
      ensures this.bucketCount == if bucketCount > 0 then bucketCount else 1024
    {
      this.store := store;
      this.bucketCount := if bucketCount <= 0 then DEFAULT_BUCKET_COUNT else bucketCount;
      this.digestOf := digestOf;
    }

    method Resolve(shardKey: Text) returns (r: Result)
      ensures r == Err(NoMapping) <==> store.ptr == null
      ensures store.ptr != null ==> Routes(store.ptr.Contents(), BucketFor(digestOf(shardKey), bucketCount), r)
    {
      var m := store.Load();
      if m == null {
        return Err(NoMapping);
      }
      var bucketID := BucketFor(digestOf(shardKey), bucketCount);
      if bucketID !in m.buckets.entries {
        return Err(UnknownBucket(bucketID));
      }
      var bucket := m.buckets.entries[bucketID];
      if bucket.shardID !in m.shards.entries {
        return Err(UnknownShard(bucket.shardID, bucketID));
      }
      var source := m.shards.entries[bucket.shardID];
      var readShard, writeShards := source, [source];

      match bucket.state {
        case DualWrite | CdcCatchup | Verifying =>
          if bucket.destShardID in m.shards.entries {
            writeShards := writeShards + [m.shards.entries[bucket.destShardID]];
          }
        case Cutover | DrainingSource | ActiveDest =>
          if bucket.destShardID in m.shards.entries {
            var dest := m.shards.entries[bucket.destShardID];
            readShard, writeShards := dest, [dest];
          } else {
            return Err(UnknownShard(bucket.destShardID, bucketID));
          }
        case _ =>
      }
      assert Registered(m.Contents(), bucketID) && writeShards == TableShards(m.Contents(), bucketID);
      assert readShard == writeShards[0];

      for i := 0 to |writeShards|
        invariant forall j | 0 <= j < i :: writeShards[j].status.Active?
      {
        if !writeShards[i].status.Active? {
          assert FirstInactive(writeShards, i);
          return Err(ShardUnavailable(writeShards[i].shardID));
        }
      }
      assert writeShards[0].status.Active?;
      if !readShard.status.Active? {
        // The read shard is the first write shard, so this check never fires.
        assert false;
      }
      return Ok(Resolved(bucketID, readShard, writeShards, bucket.state));
    }
  }

  // ----- totality

  /** Every bucket is the bucket of some digest. */
  lemma EveryBucketIsHit(bucketCount: int, b: nat) returns (digest: Digest)
    requires bucketCount < TWO_TO_THE_63 && b < Buckets(bucketCount)
    ensures BucketFor(digest, bucketCount) == b
  {
    digest := BigEndianBytes(b, 8) + BigEndianBytes(0, 24);
    BucketOfWord(b, BigEndianBytes(0, 24), bucketCount);
    DivModUnique(b, Buckets(bucketCount), 0, b);
  }

  /** No digest leads to an unknown bucket exactly when the mapping covers every
      bucket id below the count. */
  lemma UnknownBucketExactly(m: Snapshot, bucketCount: int)
    requires bucketCount < TWO_TO_THE_63
    ensures (forall b | 0 <= b < Buckets(bucketCount) :: b in m.buckets)
       <==> (forall digest: Digest, r | Routes(m, BucketFor(digest, bucketCount), r) ::
               !(r.Err? && r.error.UnknownBucket?))
  {
    if b: nat :| b < Buckets(bucketCount) && b !in m.buckets {
      var digest := EveryBucketIsHit(bucketCount, b);
      assert Routes(m, BucketFor(digest, bucketCount), Err(UnknownBucket(b)));
    }
  }
}
