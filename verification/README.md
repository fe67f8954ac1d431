# Shard router: verified model

The router hashes a shard key to one of a fixed number of virtual buckets, looks the
bucket up in a local copy of the shard map that is kept in step with etcd, and sends
reads and writes to the shards the bucket's migration state selects, through pools
gated by a circuit breaker per shard. This project models that control plane in Dafny
and proves what it keeps over all inputs and all interleavings.

`dafny verify dfyconfig.toml` checks the whole project.

| file | what it models |
|---|---|
| `Types.dfy`, `Bytes.dfy` | the data types; byte strings, their order, decimal numbers |
| `PrefixRange.dfy`, `Keys.dfy` | the range end of a prefix request; the etcd key-space |
| `Letters.dfy` | the byte literals spelled out in letters; which texts are numbers |
| `Snapshots.dfy` | what one event does to the map, seen one entry (*slot*) at a time |
| `KeySpace.dfy` | a full load of the key-space against a replay of the log |
| `Replication.dfy` | load, watch and reconcile as a state machine; gap-free resume |
| `Convergence.dfy`, `Traps.dfy` | the published map against etcd; why each hypothesis is there |
| `Provenance.dfy` | no invented routes, even with an unreliable server |
| `Cache.dfy`, `EtcdClient.dfy` | the same loops on heap objects, step by step refining the state machine; published mappings never change |
| `WatchEffects.dfy` | what a watch stream leaves in the map, from the wire to the entries |
| `FileRegistry.dfy` | the file registry, and when it agrees with etcd |
| `Hashing.dfy`, `Router.dfy` | digest word to bucket; `Resolve` |
| `Migration.dfy`, `WriteBooks.dfy` | reads and writes while buckets move between shards; every late write, failed write and request accounted for |
| `Breaker.dfy`, `Callers.dfy` | the breaker: history, open window, admission bound and its tightness; the goroutines that call it |
| `Pool.dfy`, `PoolLife.dfy`, `PoolKeys.dfy` | the pool manager's locked regions; ownership of pools; pool keys |

How the parts of the program appear here:

- JSON decoders, SHA-256 and the execution of a statement are parameters: any total
  functions. Clock readings are parameters too.
- etcd is a log; revision `r` is its `r`-th commit. A watch batch must hold every
  requested event from the stream's position up to its header revision, and that revision
  must be positive (`Replication.Complete`). This is asked of the server by all theorems
  about convergence and resume, and by none about provenance.
- An atomic `Load` or `Swap`, a range read, and a locked region are one step each. The
  local variables of the two registry goroutines are fields of `EtcdClient.EtcdRegistry`,
  so that steps of both loops can interleave on one heap.
- What publishes new mappings during a migration is outside the program. `Migration.MayMove`
  is the guard under which it may move a bucket: the rows agree at the new home, no secondary
  write is on its way there, and requests already routed have been carried out. Each of the
  three is shown to be needed, with the exact condition under which its absence does harm.
- The state machines and the classes share their step functions (`ClientNext`,
  `AfterWrite`, `AllowNext`, `Survivors`, ...): the methods are proved to perform exactly
  the steps the run theorems quantify over.

Convergence in one formula. Take a reconcile that read revision `R` and was swapped in
when the watch had applied everything up to `a`. Until the next reconcile, at watch position
`w`, every slot holds the etcd value at `w` if some event in `(a, w]` touched it, and
the etcd value at `R` otherwise (`Convergence.ExactAfterReconcile`). If `a <= R <= w` that
is the etcd state at `w`; if the reconcile was overtaken (`R < a`) it is not, until the slots
that changed in between are touched again.

Where the code and its comments disagree the model follows the code:

- `ResetTimeout` is described as letting a single half-open probe through; `Allow` admits
  every call in the half-open state (`Breaker.HalfOpenAdmitsAll`), and the bound proved is
  the one that holds.
- `Revision` of a mapping is called monotonic; it is not. From one published mapping to the
  next it drops in exactly two cases: a watch batch is older than the reconcile it follows, or
  a reconcile read before a batch is swapped in after it (`Traps.RevisionDropsExactlyWhen`);
  both happen with a faithful server (`Traps.StaleBatchDropsRevision`,
  `Traps.OvertakenLoadDropsRevision`).
- `Resolve` is said to degrade to a source-only write while the destination is not ready;
  it does so for an unregistered destination, but a registered one that is not ACTIVE fails
  reads and writes of the bucket (`Router.InactiveDestinationStopsDualWrite`). Its final check of
  the read shard never fires, because the read shard is the first write shard.
- Full loads equal the replay of the log throughout if and only if every event passes a guard
  (`KeySpace.LoadsMatchExactlyWhenGuarded`): a PUT must agree with the live aliases of its key, a
  DELETE must leave none, and a malformed PUT must not overwrite the only live key. Aliases that
  decode to the same entry are thus harmless until one is deleted, and excluding aliases only
  at the revision loaded is not enough (`KeySpace.PastAliasesSplitLoadFromReplay`).

## Model

| member | source | states |
|---|---|---|
| Bytes.PaddedDecimalRoundTrip | internal/registry/keys.go:31-42 | any zero-padded decimal rendering of an id that fits parses back to it |
| Bytes.DecimalRoundTrip | internal/model/types.go:35-37 | the %d rendering of every 64-bit integer, negative ones included, parses back to it |
| Bytes.EqualWidthDigits | internal/registry/keys.go:36-41 | digit strings of one width are determined by their value |
| Letters.AtoiExactly | internal/registry/keys.go:31-42 | a text parses to v if and only if v is a 64-bit integer and the text is an optional sign, any zeros and the decimal rendering of v |
| Letters.DecimalTexts | internal/model/types.go:35-37 | decimal texts are base ten, most significant digit first, in the ASCII digits |
| PrefixRange.GetPrefixRangeEnd | internal/registry/etcdhttp.go:285-299 | the backward scan computes the range end: trailing 0xff bytes dropped, last byte incremented, the one-zero-byte fallback for the rest |
| PrefixRange.PrefixRangeIsExact | internal/registry/etcdhttp.go:285-299 | for every byte string p and key k: k lies in the range [p, range end) if and only if k has prefix p |
| PrefixRange.UnboundedExactly | internal/registry/etcdhttp.go:285-299 | the range end is one zero byte if and only if the prefix is empty or all 0xff |
| Keys.RequestCoversSlots | internal/registry/keys.go:15-42 | the requested range covers every key that applyKV acts on |
| Letters.KeyLayout | internal/registry/keys.go:8-42 | a key stands for shard id if and only if it is "/sharding/shards/" and id, for a bucket if and only if it is "/sharding/buckets/" and a number, and is requested if and only if it begins with "/sharding/" |
| Letters.OtherKeysAreIgnored | internal/registry/keys.go:10-15 | keys after "/sharding/" that begin neither with s nor with b (version, migrations, maintenance) stand for nothing |
| Keys.ShardKeysAreDistinct | internal/registry/keys.go:23-29 | two keys that stand for one shard entry are the same key |
| Keys.BucketKeySlot | internal/registry/keys.go:31-42 | a bucket key stands for the id its suffix parses to and for nothing if it does not parse |
| Keys.PaddedBucketKeyRoundTrip | internal/registry/keys.go:31-42 | a bucket key with any zero padding stands for the padded id |
| Keys.EqualWidthKeysNeverAlias | internal/registry/keys.go:31-42 | digit keys of one width never alias |
| Keys.DigitKeysAliasExactly | internal/registry/keys.go:31-42 | two digit keys that fit stand for one bucket if and only if they are equal after their leading zeros are dropped |
| Keys.UnequalWidthKeysAlias | internal/registry/keys.go:31-42 | zero padding makes an alias of every digit key that fits |
| Keys.SignedKeysAlias | internal/registry/keys.go:31-42 | a plus sign makes an alias of equal width: "+5" and "05" are one bucket, and so for every digit string that fits |
| Snapshots.ApplyAllSlot | internal/registry/etcd.go:161-170 | after any run of events each slot holds what the last event that touched it says and is otherwise unchanged; malformed PUTs and unlisted event types touch nothing |
| Snapshots.StoredRecord | internal/registry/etcd.go:215-251 | a PUT stores the decoded record field by field, with the bucket id from the key and the shard id from the key if it is empty; a DELETE removes the entry |
| Snapshots.EntriesNameThemselves | internal/registry/etcd.go:226-243 | no run of events produces a bucket entry without its own id, or a shard entry without an id except under the empty one |
| Snapshots.SameSlotsSameMaps | internal/cache/mapping.go:20-27 | two mappings that agree slot by slot have the same shard and bucket maps |
| Snapshots.VisibleEffects | internal/registry/etcdhttp.go:141-148 | leaving out all events outside the requested range changes no slot |
| KeySpace.AgreementSurvivesExactly | internal/registry/etcd.go:215-251 | a slot that agrees with the live keys still agrees after an event if and only if the event passes a guard on the key-space before it |
| KeySpace.AgreementIsEveryLoad | internal/registry/etcd.go:99-121 | agreement with the live keys is the same as being what a full load yields in every order of the response |
| KeySpace.LoadMatchesReplayExactly | internal/registry/etcd.go:99-121 | if every full load equals the replay of a slot, then one event later it still does if and only if the event is guarded |
| KeySpace.LoadsMatchExactlyWhenGuarded | internal/registry/etcd.go:99-121 | along a whole log, after every event all full loads equal the replay of a slot, if and only if every event is guarded |
| KeySpace.FullLoadEqualsReplay | internal/registry/etcd.go:99-121 | over a guarded log, folding applyKV over the key-space in any order gives the shards and buckets of folding it over the whole log |
| KeySpace.PlainLogIsGuarded | internal/registry/etcd.go:215-251 | a log whose values decode, whose deletions hit live keys, and in which two live keys never alias is guarded |
| KeySpace.MalformedPutSplitsLoadFromReplay | internal/registry/etcd.go:221-224 | overwriting any decodable value by a malformed one keeps the entry under watch and loses it in every full load |
| KeySpace.PastAliasesSplitLoadFromReplay | internal/registry/etcd.go:232-243 | for any two aliasing keys, PUT, PUT, DELETE of the second leaves one live key that every load finds and the replay has lost |
| Replication.GapFreeResume | internal/registry/etcd.go:129-185 | in every run, through failed opens, ended and canceled streams, the events applied are exactly the requested events of the log after fromRevision up to watchRev-1, in order |
| Replication.CanceledBatchResumesInPlace | internal/registry/etcd.go:147-151 | a canceled batch applies nothing and does not move the position, and the next stream opens there, after any failed opens, reconciles and commits in between |
| Convergence.GuardedIsFaithful | internal/registry/etcd.go:99-121 | over a guarded log, a full load of any past revision in any order puts into the slot what the log up to that revision denotes |
| Convergence.FollowsBatch | internal/registry/etcd.go:153-175 | replaying a complete batch, even an old one over a newer load, keeps the per-slot invariant at the batch's revision |
| Convergence.FollowsLoad | internal/registry/etcd.go:99-121 | a full load establishes the per-slot invariant anew, overtaken or not |
| Convergence.FollowsConverges | internal/registry/etcd.go:187-202 | once the watch has passed a load that was not overtaken, the per-slot invariant is agreement with etcd |
| Convergence.ExactAfterReconcile | internal/registry/etcd.go:99-202 | from any earlier contents and for any interleaving: after a reconcile not overwritten by a batch in flight, until the next one, a slot touched since holds the etcd value at the watch position, any other the value at the revision read |
| Convergence.AgreesExactlyWhen | internal/registry/etcd.go:99-202 | after such a reconcile, overtaken or not, a slot agrees with etcd at the watch position if and only if it was touched since or its value at the revision read is still current |
| Convergence.ConvergenceAfterReconcile | internal/registry/etcd.go:187-202 | while no reconcile from that one on is overtaken, whenever the watch position has reached the loads published since, the mapping is the etcd state at the watch position |
| Convergence.ConvergenceFromStart | internal/registry/etcd.go:73-94 | the same from the initial load of Start on |
| Traps.RevisionDropsExactly | internal/registry/etcd.go:117-175 | in every run, whatever was published first: a step lowers the published revision if and only if it swaps in a batch or a load older than the published mapping |
| Traps.RevisionIsPosition | internal/registry/etcd.go:117-175 | until the next swap the published revision is the watch position the batch reached, or the revision the reconcile read |
| Traps.RevisionDropsExactlyWhen | internal/registry/etcd.go:117-175 | between consecutive swaps it drops if and only if a batch older than the load it follows is swapped in, or an overtaken load follows a batch |
| Traps.StaleBatchDropsRevision | internal/registry/etcd.go:153-175 | the first cause occurs: for every PUT of a requested key a run with a faithful server goes from revision 2 back to 1 |
| Traps.OvertakenLoadDropsRevision | internal/registry/etcd.go:111-120 | so does the second: a run goes from revision 1 back to 0 |
| Traps.OvertakenReconcileLosesUpdates | internal/registry/etcd.go:189-202 | for every decodable PUT there is a run with a faithful server in which an overtaken reconcile loses it although the watch has applied it |
| Provenance.NoInventedRoutes | internal/registry/etcd.go:111-175 | even if batches repeat, omit or reorder events and loads are stale or partial, every entry published or being built decodes a value etcd held under a key that stands for it |
| Provenance.ProtocolStepsAreLoose | internal/registry/etcd.go:111-175 | every step of the protocol is a step against such a server |
| Provenance.NoInventedRoutesInProtocol | internal/registry/etcd.go:111-175 | hence the same in every run of the protocol, overtaken reconciles included |
| Cache.Dict.CopyFrom | internal/cache/mapping.go:38-43 | the copying loops reproduce the source map, which stays as it was |
| Cache.Mapping.Clone | internal/cache/mapping.go:29-45 | a clone has the same contents and shares neither map with the original |
| EtcdClient.WatchStream | internal/registry/etcdhttp.go:175-224 | the stream goroutine delivers the messages that are not acknowledgements, up to the first cancellation; the rows of WatchEffects say what each event then does |
| EtcdClient.DeliveredUpToCancel | internal/registry/etcdhttp.go:198-223 | what is delivered ends with the first cancellation and contains no other |
| EtcdClient.StreamStopsAtCancel | internal/registry/etcd.go:147-151 | consuming a canceled stream leaves the client as consuming only the messages before the cancellation |
| EtcdClient.NothingAfterCancel | internal/registry/etcd.go:147-151 | a canceled batch and anything after it leave no trace in the client |
| EtcdClient.StreamsConcatenate | internal/registry/etcd.go:129-185 | consuming two streams one after the other is consuming their concatenation |
| EtcdClient.ApplyKVInPlace | internal/registry/etcd.go:213-251 | the in-place update changes the two maps as the value-level applyKV says and reports malformed values |
| EtcdClient.EtcdRegistry.BuildSnapshot | internal/registry/etcd.go:99-115 | the loop builds a fresh mapping with the contents of the full load |
| EtcdClient.EtcdRegistry.BuildNext | internal/registry/etcd.go:153-174 | clone, apply and set the revision, all on a fresh mapping |
| EtcdClient.EtcdRegistry.Start | internal/registry/etcd.go:73-94 | if authentication and the range request succeed, the load is published and the watch starts right after its revision; else the store stays empty and nothing starts |
| EtcdClient.EtcdRegistry.WatchLoadStep | internal/registry/etcd.go:153-174 | performs the protocol's watch-load step; no published mapping changes |
| EtcdClient.EtcdRegistry.WatchSwapStep | internal/registry/etcd.go:171-175 | performs the protocol's watch-swap step; every mapping ever published keeps its contents |
| EtcdClient.EtcdRegistry.RangeReadStep | internal/registry/etcd.go:99-115 | performs the protocol's range step; no published mapping changes |
| EtcdClient.EtcdRegistry.ReconcileSwapStep | internal/registry/etcd.go:117-120 | performs the protocol's reconcile-swap step; every mapping ever published keeps its contents |
| EtcdClient.EtcdRegistry.ConsumeStream | internal/registry/etcd.go:147-179 | the loop over the batches of one stream stops at a cancellation and otherwise loads and swaps every batch; the rows of WatchEffects say what that leaves |
| WatchEffects.BatchesApply | internal/registry/etcd.go:147-179 | after uncanceled batches every slot holds what the last of all their events that touches it says, and is otherwise unchanged |
| WatchEffects.BatchesMovePosition | internal/registry/etcd.go:171-175 | the watch position is right after the last positive revision, which is the one published; both stay if there is none |
| WatchEffects.BatchesAreSteps | internal/registry/etcd.go:147-179 | the loop is a run of load and swap steps of the protocol, batch by batch |
| WatchEffects.StreamApplies | internal/registry/etcdhttp.go:175-224 | end to end: after a stream, up to its cancellation, every slot holds what the last wire event that touches it says |
| WatchEffects.OneEventApplies | internal/registry/etcdhttp.go:206-212 | an event whose type is "PUT" or missing stores the decoded value, one whose type is "DELETE" removes the entry |
| WatchEffects.StreamMovesPosition | internal/registry/etcdhttp.go:198-204 | the last message with a revision that is no acknowledgement decides the watch position and the published revision |
| EtcdClient.EtcdRegistry.Interleave | internal/registry/etcd.go:87-93 | over any schedule of the steps of both goroutines the registry follows the protocol, and each mapping ever swapped in keeps its contents forever |
| FileRegistry.ParsersDifferExactly | internal/registry/file.go:65-69 | the two registries read a bucket key differently if and only if it is a signed number that fits with white space other than a newline before it, or text that is not a digit behind it, or both |
| Letters.BlankTexts | internal/registry/file.go:65-69 | the white space skipped before a number: space, tab, vertical tab, form feed, carriage return |
| FileRegistry.TrailingTextSplitsParsers | internal/registry/file.go:65-69 | "12a" is bucket 12 for one registry and no bucket for the other |
| FileRegistry.FileRegistry.Start | internal/registry/file.go:38-63 | succeeds exactly when the file is readable and all bucket keys parse, publishes then a fresh mapping of revision 1 with all shards as they are and for each bucket the record of a key that parses to it, under its own id, and leaves the store alone on failure |
| FileRegistry.RegistriesAgree | internal/registry/file.go:48-61 | over the same data with plain, non-aliasing bucket keys both registries build the same buckets, and the same shards if and only if every shard names itself (or has the empty id) |
| Hashing.WordRoundTrip | internal/hashing/hash.go:36 | encoding a word big-endian and reading it back gives the word |
| Hashing.BytesRoundTrip | internal/hashing/hash.go:36 | reading bytes as a word and encoding it gives the bytes, so words and leading digest bytes correspond one to one |
| Hashing.BigEndianOrder | internal/hashing/hash.go:36 | words compare as their bytes do, the first byte first |
| Hashing.BucketOfWord | internal/hashing/hash.go:30-38 | the bucket is the word in the first eight digest bytes modulo the count, 1024 if the count is not positive; the other 24 bytes do not matter |
| Hashing.GoldenVectors | testdata/golden_vectors.json:1-42 | the eight golden vectors, given the first eight bytes of each key's SHA-256 |
| Hashing.BucketInRange | internal/hashing/hash.go:30-38 | the bucket is at least 0 and below the bucket count, and fits a Go int |
| Hashing.Population | internal/hashing/hash.go:37 | of the words below m, exactly m/n fall into a bucket, and one more into each of the first m mod n |
| Hashing.FairReduction | internal/hashing/hash.go:30-38 | over all 2^64 leading words of digests, whatever the other bytes, two buckets differ by at most one |
| Hashing.EvenExactlyWhenDividing | internal/hashing/hash.go:19-38 | all buckets get equally many leading words if and only if the count divides 2^64, which the default does |
| Router.Router.constructor | internal/router/router.go:107-114 | the bucket count is the given one if positive and 1024 otherwise |
| Router.Router.Resolve | internal/router/router.go:119-187 | the outcome is "no mapping" exactly on an empty store and else the one the state table and the error rules prescribe for the key's bucket |
| Router.RoutesExactly | internal/router/router.go:130-186 | that outcome is unique; it is a success if and only if bucket, source and (cutover family) destination exist and every selected shard is ACTIVE; the read shard is then the primary write shard |
| Router.StateTable | internal/router/router.go:147-171 | the read and write shards of a success in each migration state |
| Router.ErrorTable | internal/router/router.go:128-184 | which error comes when, over the fields of the mapping: unknown bucket, unknown source or destination, and the first shard in the state's order that is not ACTIVE |
| Router.InactiveDestinationStopsDualWrite | internal/router/router.go:155-185 | in the dual-write family a registered destination that is not ACTIVE makes the bucket unavailable |
| Router.UnknownBucketExactly | internal/router/router.go:128-133 | no digest yields an unknown bucket if and only if the mapping covers every bucket id below the count; so with full coverage no key does |
| Router.EveryBucketIsHit | internal/hashing/hash.go:30-38 | every bucket is the bucket of some digest |
| Letters.ConsistencyTexts | internal/model/types.go:82-102 | "READ_YOUR_WRITES" and "EVENTUAL" mean what they say, and every other text, "STRONG" and the empty one included, means STRONG |
| Migration.Server.HandleWrite | internal/api/server.go:205-242 | a write the primary accepts changes its row, is acknowledged, and launches one late write for each secondary; one whose outcome is unknown is not acknowledged, launches nothing and may surface later; a refused one changes nothing |
| Migration.Server.HandleRead | internal/api/server.go:153-159 | EVENTUAL reads the reader if the shard has one; any other consistency returns, in every state that keeps the invariant of runs and for a request routed at any earlier time, what the writes executed at the key's home have made of its row |
| Migration.LaunchedTargets | internal/api/server.go:221-235 | a launched write is for the written key and goes to the writer of a secondary |
| WriteBooks.LaunchedOnce | internal/api/server.go:221-235 | exactly one late write is launched for each secondary: as many copies as secondaries have that endpoint |
| WriteBooks.LateWritesAreConserved | internal/api/server.go:221-235 | in every run the copies of a late write under way and those landed or lost are together one per secondary of each acknowledged write of the statement |
| WriteBooks.FailedWritesAreConserved | internal/api/server.go:214-218 | every write a client saw fail has surfaced once or still may |
| WriteBooks.RequestsAreConserved | internal/api/server.go:135-150 | every routed request has been answered once or is outstanding |
| Migration.StrongReadsSeeWrites | internal/api/server.go:153-242 | in every run of requests possibly carried out on a later mapping than they were routed on, failed writes that surface late, late, reordered or lost secondaries, backfills and guarded publications, a read asking for anything but EVENTUAL returns exactly what the statements executed at its key's home have made of the row |
| Migration.WritesAreAccountedFor | internal/api/server.go:205-242 | of the statements executed at the homes, the acknowledged ones are exactly the successes clients saw, in order, and the others, with those yet to surface, are some of the failures they saw, each at most once |
| Migration.StrongReadsSeeAckedWrites | internal/api/server.go:153-242 | unless the client saw a write of that key fail, such a read returns exactly what the acknowledged writes of the key, in order, make of it |
| Migration.AdvanceIsGuardedExactly | internal/router/router.go:147-171 | moving a bucket through its states needs no check within a family, and may cross into or out of cutover if and only if the rows agree, no late write targets the new home and no routed request is outstanding |
| Migration.AgreementIsNeeded | internal/router/router.go:164-171 | after publishing any mapping, the next STRONG read of a key is right if and only if its rows at the new and old home agree |
| Migration.LateWriteToHomeExactly | internal/api/server.go:221-235 | in every run: if a bucket moves to the target of a secondary write still on its way, then after that write the next STRONG read is right if and only if the statement turns the new home's row into the old home's (if they agreed: changes nothing) |
| Migration.UndrainedWriteExactly | internal/api/server.go:140-242 | in every run: if a bucket moves while a request is routed to its old home and that request then writes, the next STRONG read sees the write if and only if the new home's row is the one it leaves at the old (if they agreed: it changes nothing) |
| Migration.SharedEndpointExecutesTwice | internal/api/server.go:221-235 | if source and destination share an endpoint a dual write is executed there twice |
| Breaker.Breaker.constructor | internal/breaker/breaker.go:52-59 | a new breaker is closed with threshold 5 and a reset timeout of ten seconds |
| Breaker.Breaker.Allow | internal/breaker/breaker.go:61-77 | performs the admission step of the histories below at the given time |
| Breaker.Breaker.Success | internal/breaker/breaker.go:79-84 | performs the success step |
| Breaker.Breaker.Failure | internal/breaker/breaker.go:86-94 | performs the failure step at the given time |
| Breaker.Registry.For | internal/breaker/breaker.go:112-121 | one breaker per shard: the existing one, else a new closed one; never shared between shards |
| Breaker.DecidedByOutcomes | internal/breaker/breaker.go:63-94 | after any history the counter is the number of failures since the last success, and the breaker is Closed exactly while it is below the threshold |
| Breaker.DecidedByOutcomesExactly | internal/breaker/breaker.go:45-46 | that holds of all histories if and only if the threshold is at least 1 |
| Breaker.OpenedAtIsLastFailure | internal/breaker/breaker.go:86-94 | while Open, openedAt is the time of the most recent failure |
| Breaker.ModeOfHistory | internal/breaker/breaker.go:63-94 | the mode after any history, from its events alone |
| Breaker.RejectedExactly | internal/breaker/breaker.go:63-77 | after any history a call is turned away if and only if the failures since the last success reach the threshold, the last is less than a reset timeout ago, and none has been let through since at such a time |
| Breaker.ReadmittedExactly | internal/breaker/breaker.go:67-76 | while Open a call is admitted if and only if a reset timeout has passed since the last failure, and then makes the breaker half-open |
| Breaker.RecoveredShardIsCalled | internal/breaker/breaker.go:67-76 | a reset timeout without failures always lets the next call through, whatever came before |
| Breaker.DefaultsAreFiveAndTenSeconds | internal/breaker/breaker.go:52-59 | a new breaker rejects after the fifth failure in a row and not before, for ten seconds |
| Breaker.OpenWindow | internal/breaker/breaker.go:63-94 | after a failure that leaves the breaker Open no call is admitted for the reset timeout unless a success intervenes, whatever late failures are reported |
| Breaker.HalfOpenAdmitsAll | internal/breaker/breaker.go:67-76 | a half-open breaker admits every call and stays half-open |
| Breaker.AdmissionBound | internal/breaker/breaker.go:63-94 | if all calls fail and at most k are in flight, at most threshold-1+k + k*floor(T/ResetTimeout) calls are admitted within T of the start of a fresh breaker |
| Breaker.AdmissionBoundAttained | internal/breaker/breaker.go:63-94 | for every threshold, k and number of timeouts some history admits exactly that many |
| Callers.SchedulesAreFailingCalls | internal/pool/manager.go:92-111 | every interleaving of the failing calls of k goroutines keeps the discipline that the bound asks of a history |
| Callers.FailingCallsAreSchedules | internal/pool/manager.go:92-111 | every history with that discipline is some interleaving of k goroutines |
| Callers.CallersAdmissionBound | internal/pool/manager.go:92-111 | so k goroutines calling a shard that is down, in any interleaving, get at most that many calls admitted |
| Callers.CallersBoundAttained | internal/pool/manager.go:92-111 | and k goroutines can get exactly that many |
| Pool.Manager.Lookup | internal/pool/manager.go:116-122 | a hit returns the installed pool and marks it used now; a miss changes nothing |
| Pool.Manager.Install | internal/pool/manager.go:148-159 | the first creator installs; a later one leaves the map alone and hands out the winner's pool |
| Pool.Manager.Sweep | internal/pool/manager.go:180-190 | exactly the entries idle for longer than the limit leave the map, and exactly their pools are returned for closing |
| Pool.Manager.Close | internal/pool/manager.go:196-205 | every installed pool is closed and the map is empty |
| Pool.Manager.Acquire | internal/pool/manager.go:92-111 | with no other caller in between: an admitted call reports exactly one outcome, a rejected one none, and other shards' breakers do not move |
| Pool.Manager.AcquireInterleaved | internal/pool/manager.go:92-111 | in any interleaving of k goroutines' calls for a fresh shard the breaker object follows the schedule; if none gets a connection, at most 4 + k + k*floor(T/10s) are admitted in time T |
| PoolLife.PoolsAreConserved | internal/pool/manager.go:113-205 | in every interleaving each created pool is in exactly one place: installed, with its creator, lost, collected by a reaper, or closed |
| PoolLife.InstalledPoolsAreOpen | internal/pool/manager.go:113-205 | installed pools are not closed or being closed and are under one key each; no pool is closed twice |
| PoolLife.AllClosedExactly | internal/pool/manager.go:196-205 | with no step under way, all pools ever opened are closed if and only if none is installed |
| PoolLife.ShutdownClosesAll | internal/pool/manager.go:196-205 | if no poolFor overlaps or follows Close, all pools are closed once losers and reapers have finished |
| PoolLife.LastUsedNeverDecreases | internal/pool/manager.go:116-121 | from a use at time t on, the entry of that pool is never older than t |
| PoolLife.SweepSparesRecentUse | internal/pool/manager.go:180-190 | a pool handed out by the fast path or installed at t survives every later sweep whose sampled time is at most t+ttl, whatever happens in between |
| PoolLife.RecentlyUsedStays | internal/pool/manager.go:180-190 | so it stays installed as long as all sweeps are that early and Close is not called |
| PoolLife.LostRaceDoesNotRefresh | internal/pool/manager.go:151-155 | a pool handed out after a lost race is not marked as used: the next sweep decides by the winner's last use |
| Letters.PoolKeyText | internal/pool/manager.go:85-87 | the key is the shard id, a bar, the host, ":", the port in decimal, "/" and the database |
| PoolKeys.SamePrintExactly | internal/model/types.go:35-37 | two endpoints print alike if and only if they are equal or the host of one continues the host of the other by ":", its port and "/", and their databases make up for it |
| PoolKeys.SamePoolKeyExactly | internal/pool/manager.go:85-87 | two pool keys are the same if and only if shard id and endpoint are, or the endpoints of one shard are shifted so, or one shard id continues the other by a bar and a part of the endpoint's text |
| PoolKeys.EndpointStringInjective | internal/model/types.go:35-37 | endpoints whose hosts have no ":" or no "/" (names, IPv4, IPv6 in brackets) print differently if they differ |
| PoolKeys.PoolKeyInjective | internal/pool/manager.go:85-87 | for shard ids without a bar and such hosts the pool key determines shard id, host, port and database |
| PoolKeys.PipeInShardIDCollides | internal/pool/manager.go:85-87 | with a bar in a shard id two different endpoints can share a key |
| PoolKeys.PortInHostCollides | internal/pool/manager.go:85-87 | for every host that contains ":", a port and "/" two different endpoints of one shard share a key |

## Left out

- HTTP transport, base64, authentication, endpoint selection and retry, TLS: the network client delivers a stream of batches and a linearizable range, or fails.
- JSON decoding, SHA-256 (section 6.2 of FIPS 180-4), `%v` formatting: arbitrary functions.
- FileRegistry.ParseBucketID: white space beyond ASCII before the number is not skipped, because texts are byte strings without an encoding.
- Migration.StrongReadsSeeWrites: one router; several routers that switch to a new mapping at different times are not covered. All rows of a shard key are one value, and a statement executes on them in one step.
- Pool.Manager.Acquire: whether the pool map and the pool deliver a connection is a parameter; `PoolLife` covers the pools.
- Breaker.AdmissionBound: a reset timeout of zero or less bounds nothing and is excluded.
- EtcdClient.EtcdRegistry.ConsumeStream: the loop over one stream is proved undisturbed; its interleaving with reconciles is covered step by step by `Interleave`.
- Pool contents: DSN building, credentials, connection limits and row scanning; a pool is an opaque number that is opened and closed.
- Liveness: timers and tickers may fire at any time; nothing is claimed about when a reconcile, a reconnect or a sweep happens.
- Metrics, health and debug endpoints, logging, configuration, secrets, `main.go`: no routing decision depends on them.
- Registry.Snapshot of the breakers: a read-only copy for metrics.
