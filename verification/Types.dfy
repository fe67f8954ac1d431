/** The values that travel through the router (internal/model/types.go).

    Go strings are byte strings, so every string of the program is a `Text`. */
module Types {

  type Byte = b: int | 0 <= b < 256
  type Text = seq<Byte>

  datatype Option<+T> = None | Some(value: T)

  /** Operational state of a shard. The stored value is a string, so values
      outside the four listed ones exist; none of them is `Active`. */
  datatype ShardStatus = Active | Maintenance | Draining | Retired | OtherStatus(text: Text)

  datatype Endpoint = Endpoint(host: Text, port: int, database: Text)

  datatype ShardDef = ShardDef(
    shardID: Text,
    status: ShardStatus,
    writer: Endpoint,
    reader: Option<Endpoint>,
    credentialRef: Text,
    region: Text)

  /** State of a bucket migration. `OtherState` covers the empty string of a
      bucket that is not being moved and every unlisted string. */
  datatype MigrationState =
    | ActiveSource | Copying
    | DualWrite | CdcCatchup | Verifying
    | Cutover | DrainingSource | ActiveDest
    | OtherState(text: Text)

  datatype BucketDef = BucketDef(
    bucketID: int,
    shardID: Text,
    destShardID: Text,
    state: MigrationState,
    mappingVersion: int)

  datatype ReadConsistency = Strong | ReadYourWrites | Eventual

  /** One immutable value of the local shard map (internal/cache/mapping.go). */
  datatype Snapshot = Snapshot(
    revision: int,
    shards: map<Text, ShardDef>,
    buckets: map<int, BucketDef>)
}
