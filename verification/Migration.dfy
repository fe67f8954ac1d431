/** What clients read while buckets move between shards: Resolve together with
    the write and read handlers (internal/api/server.go) over several shards. */
module Migration {
  import opened Types
  import opened Hashing
  import opened Router

  /** What does not change during a run: the digest, the bucket count, and the
      meaning of a statement on the rows of one shard key. */
  datatype Env = Env(
    digestOf: Text -> Digest,
    bucketCount: int,
    exec: (Text, Option<Text>) -> Option<Text>)

  function BucketOf(env: Env, key: Text): int {
    BucketFor(env.digestOf(key), env.bucketCount)
  }

  // ----- the databases

  /** The rows behind each endpoint, by shard key. */
  type Rows = map<(Endpoint, Text), Text>

  function Row(rows: Rows, ep: Endpoint, key: Text): Option<Text> {
    if (ep, key) in rows then Some(rows[(ep, key)]) else None
  }

  function SetRow(rows: Rows, ep: Endpoint, key: Text, row: Option<Text>): (r: Rows)
    ensures forall ep', key' :: Row(r, ep', key') == if ep' == ep && key' == key then row else Row(rows, ep', key')
  {
    match row
    case Some(v) => rows[(ep, key) := v]
    case None => rows - {(ep, key)}
  }

  function Execute(env: Env, rows: Rows, ep: Endpoint, key: Text, sql: Text): Rows {
    SetRow(rows, ep, key, env.exec(sql, Row(rows, ep, key)))
  }

  /** A secondary write that some goroutine has yet to carry out. */
  datatype Pending = Pending(ep: Endpoint, key: Text, sql: Text)

  /** A statement the home of its key has executed, and whether its client was
      told so. */
  datatype Executed = Executed(ep: Endpoint, key: Text, sql: Text, acked: bool)

  /** A client's request, routed and not yet carried out. */
  datatype Request = Request(key: Text, res: Resolved)

  // ----- the handlers

  /** The database side of the server. `failed` holds the writes that were reported
      as failed although the primary may still carry them out. */
  datatype Data = Data(rows: Rows, pending: multiset<Pending>, failed: multiset<Pending>, writes: seq<Executed>)

  /** What becomes of a write at the primary: it never gets there, its outcome is
      unknown (a timeout, say), or it succeeds. */
  datatype PrimaryOutcome = Refused | Unknown | Success

  function Launched(secondaries: seq<ShardDef>, key: Text, sql: Text): multiset<Pending> {
    if secondaries == [] then multiset{}
    else Launched(secondaries[..|secondaries| - 1], key, sql) +
         multiset{Pending(secondaries[|secondaries| - 1].writer, key, sql)}
  }

  /** A write whose primary execution succeeded. */
  function AfterWrite(env: Env, db: Data, res: Resolved, key: Text, sql: Text): Data
    requires res.writeShards != []
  {
    var ep := res.PrimaryWriteShard().writer;
    Data(Execute(env, db.rows, ep, key, sql),
         db.pending + Launched(res.writeShards[1..], key, sql),
         db.failed,
         db.writes + [Executed(ep, key, sql, true)])
  }

  /** A write whose primary execution reported an error: it is not acknowledged
      and launches nothing, but may take effect later. */
  function AfterFailure(db: Data, res: Resolved, key: Text, sql: Text): Data
    requires res.writeShards != []
  {
    db.(failed := db.failed + multiset{Pending(res.PrimaryWriteShard().writer, key, sql)})
  }

  class Server {
    const env: Env
    var db: Data

    constructor (env: Env)
      ensures this.env == env && db == Data(map[], multiset{}, multiset{}, [])
    {
      this.env := env;
      db := Data(map[], multiset{}, multiset{}, []);
    }

    method LaunchSecondaries(secondaries: seq<ShardDef>, key: Text, sql: Text) returns (launched: multiset<Pending>)
      ensures launched == Launched(secondaries, key, sql)
    {
      launched := multiset{};
      for i := 0 to |secondaries|
        invariant launched == Launched(secondaries[..i], key, sql)
      {
        assert secondaries[..i + 1][..i] == secondaries[..i];
        launched := launched + multiset{Pending(secondaries[i].writer, key, sql)};
      }
      assert secondaries[..|secondaries|] == secondaries;
    }

    /** Only a write whose primary execution succeeded is acknowledged, and only
        then are the secondaries launched. */
    method HandleWrite(res: Resolved, key: Text, sql: Text, outcome: PrimaryOutcome) returns (ok: bool)
      requires res.writeShards != []
      modifies this
      ensures ok <==> outcome.Success?
      ensures db == match outcome
                    case Refused => old(db)
                    case Unknown => AfterFailure(old(db), res, key, sql)
                    case Success => AfterWrite(env, old(db), res, key, sql)
    {
      var primary := res.PrimaryWriteShard();
      if outcome.Refused? {
        return false;
      }
      if outcome.Unknown? {
        db := db.(failed := db.failed + multiset{Pending(primary.writer, key, sql)});
        return false;
      }
      var launched := LaunchSecondaries(res.writeShards[1..], key, sql);
      db := Data(Execute(env, db.rows, primary.writer, key, sql), db.pending + launched, db.failed,
                 db.writes + [Executed(primary.writer, key, sql, true)]);
      return true;
    }

    /** EVENTUAL reads the shard's reader, if it has one; every other consistency
        returns, in any state a run can reach and however long ago the request was
        routed, what the writes executed at the key's home have made of its row. */
    method HandleRead(res: Resolved, key: Text, consistency: Text) returns (row: Option<Text>)
      ensures consistency == EventualText() ==>
                row == Row(db.rows, if res.readShard.reader.Some? then res.readShard.reader.value else res.readShard.writer, key)
      ensures consistency != EventualText() ==>
                forall first: State, st: State | st.db == db && Inv(env, first, st) && Request(key, res) in st.active ::
                  BucketOf(env, key) in first.home && row == ExpectedIn(env, first, db.writes, key)
    {
      var ep := res.ReadEndpoint(ParseReadConsistency(consistency));
      row := Row(db.rows, ep, key);
      forall first: State, st: State | consistency != EventualText() && st.db == db && Inv(env, first, st) && Request(key, res) in st.active
        ensures BucketOf(env, key) in first.home && row == ExpectedIn(env, first, db.writes, key)
      {
        assert AtHome(env, st, Request(key, res)) && HoldsWrites(env, first, st, key);
      }
    }
  }

  // ----- who is authoritative for a bucket

  /** The endpoint the state table makes authoritative, whatever its status. */
  function Authority(m: Snapshot, b: int): Option<Endpoint> {
    if Registered(m, b) then Some(TableShards(m, b)[0].writer) else None
  }

  /** No secondary write of the bucket goes to its authoritative endpoint. */
  predicate DistinctSecondaries(m: Snapshot, b: int) {
    Registered(m, b) ==>
      forall i | 1 <= i < |TableShards(m, b)| :: TableShards(m, b)[i].writer != TableShards(m, b)[0].writer
  }

  // ----- runs

  /** `home` is the orchestrator's view: the endpoint that last was authoritative
      for each bucket. */
  datatype State = State(mapping: Snapshot, active: multiset<Request>, db: Data, home: map<int, Endpoint>)

  datatype Action =
    | Route(key: Text, res: Resolved)
    | Drop(key: Text, res: Resolved)
    | Write(key: Text, sql: Text, res: Resolved)
    | WriteFails(key: Text, sql: Text, res: Resolved)
    | LateEffect(w: Pending)
    | SecondaryLands(w: Pending)
    | SecondaryLost(w: Pending)
    | Backfill(ep: Endpoint, key: Text, row: Option<Text>)
    | Publish(mapping: Snapshot)
    | Read(key: Text, consistency: Text, res: Resolved, row: Option<Text>)

  predicate IsBucket(env: Env, b: int) {
    0 <= b < Buckets(env.bucketCount)
  }

  function Home(env: Env, st: State, key: Text): Endpoint
    requires BucketOf(env, key) in st.home
  {
    st.home[BucketOf(env, key)]
  }

  /** The cutover guard: before bucket `b` moves to `ep`, its rows agree there with
      its present home, no secondary write to it is outstanding, and the requests
      already routed have been carried out. */
  ghost predicate MayMove(env: Env, st: State, b: int, ep: Endpoint)
    requires b in st.home
  {
    && (forall key | BucketOf(env, key) == b :: Row(st.db.rows, ep, key) == Row(st.db.rows, st.home[b], key))
    && (forall w | w in st.db.pending && BucketOf(env, w.key) == b :: w.ep != ep)
    && (forall q | q in st.active :: BucketOf(env, q.key) != b)
  }

  /** What the orchestrator checks for one bucket before it publishes a mapping. */
  ghost predicate MayPublishBucket(env: Env, st: State, m: Snapshot, b: int)
    requires b in st.home
  {
    && DistinctSecondaries(m, b)
    && (Authority(m, b).Some? ==>
          Authority(m, b).value == st.home[b] || MayMove(env, st, b, Authority(m, b).value))
  }

  function HomesAfter(home: map<int, Endpoint>, m: Snapshot): map<int, Endpoint> {
    map b | b in home :: if Authority(m, b).Some? then Authority(m, b).value else home[b]
  }

  ghost predicate Enabled(env: Env, st: State, act: Action) {
    match act
    case Route(key, res) => Routes(st.mapping, BucketOf(env, key), Ok(res))
    case Drop(key, res) => Request(key, res) in st.active
    case Write(key, _, res) => Request(key, res) in st.active && res.writeShards != []
    case WriteFails(key, _, res) => Request(key, res) in st.active && res.writeShards != []
    case LateEffect(w) => w in st.db.failed && BucketOf(env, w.key) in st.home
    case SecondaryLands(w) => w in st.db.pending
    case SecondaryLost(w) => w in st.db.pending
    case Backfill(ep, key, _) => BucketOf(env, key) in st.home && ep != Home(env, st, key)
    case Publish(m) => forall b | b in st.home :: MayPublishBucket(env, st, m, b)
    case Read(key, consistency, res, row) =>
      && Request(key, res) in st.active
      && row == Row(st.db.rows, res.ReadEndpoint(ParseReadConsistency(consistency)), key)
  }

  /** The request is carried out. */
  function Done(st: State, key: Text, res: Resolved): State {
    st.(active := st.active - multiset{Request(key, res)})
  }

  /** A write reported as failed takes effect after all. */
  function Surfaced(env: Env, st: State, w: Pending): State
    requires BucketOf(env, w.key) in st.home
  {
    st.(db := st.db.(rows := Execute(env, st.db.rows, w.ep, w.key, w.sql),
                     failed := st.db.failed - multiset{w},
                     writes := if w.ep == Home(env, st, w.key) then st.db.writes + [Executed(w.ep, w.key, w.sql, false)]
                               else st.db.writes))
  }

  function Landed(env: Env, st: State, w: Pending): State {
    st.(db := st.db.(rows := Execute(env, st.db.rows, w.ep, w.key, w.sql), pending := st.db.pending - multiset{w}))
  }

  function Published(st: State, m: Snapshot): State {
    st.(mapping := m, home := HomesAfter(st.home, m))
  }

  ghost function Next(env: Env, st: State, act: Action): State
    requires Enabled(env, st, act)
  {
    match act
    case Route(key, res) => st.(active := st.active + multiset{Request(key, res)})
    case Drop(key, res) => Done(st, key, res)
    case Write(key, sql, res) => Done(st, key, res).(db := AfterWrite(env, st.db, res, key, sql))
    case WriteFails(key, sql, res) => Done(st, key, res).(db := AfterFailure(st.db, res, key, sql))
    case Read(key, _, res, _) => Done(st, key, res)
    case LateEffect(w) => Surfaced(env, st, w)
    case SecondaryLands(w) => Landed(env, st, w)
    case SecondaryLost(w) => st.(db := st.db.(pending := st.db.pending - multiset{w}))
    case Backfill(ep, key, row) => st.(db := st.db.(rows := SetRow(st.db.rows, ep, key, row)))
    case Publish(m) => Published(st, m)
  }

  ghost predicate Start(env: Env, st: State) {
    && st.active == multiset{} && st.db.pending == multiset{} && st.db.failed == multiset{} && st.db.writes == []
    && (forall b :: b in st.home <==> IsBucket(env, b))
    && (forall b | b in st.home :: Authorized(st, b))
  }

  datatype Run = Run(states: seq<State>, acts: seq<Action>)

  ghost predicate StepAt(env: Env, run: Run, t: nat)
    requires t < |run.acts| == |run.states| - 1
  {
    Enabled(env, run.states[t], run.acts[t]) && run.states[t + 1] == Next(env, run.states[t], run.acts[t])
  }

  ghost predicate IsRun(env: Env, run: Run) {
    && |run.states| == |run.acts| + 1 && env.bucketCount < TWO_TO_THE_63
    && Start(env, run.states[0])
    && forall t: nat | t < |run.acts| :: StepAt(env, run, t)
  }

  // ----- what clients may expect

  /** The row of `key` after the writes, in order. */
  function Expected(env: Env, before: Option<Text>, writes: seq<Executed>, key: Text): Option<Text> {
    if writes == [] then before
    else
      var n := |writes| - 1;
      var row := Expected(env, before, writes[..n], key);
      if writes[n].key == key then env.exec(writes[n].sql, row) else row
  }

  function ExpectedIn(env: Env, first: State, writes: seq<Executed>, key: Text): Option<Text>
    requires BucketOf(env, key) in first.home
  {
    Expected(env, Row(first.db.rows, Home(env, first, key), key), writes, key)
  }

  /** The home of a bucket is where its writes are, it is where the mapping sends
      traffic and where the requests under way go, and no late secondary write is
      on its way to it. */
  ghost predicate Inv(env: Env, first: State, st: State) {
    && (forall b :: b in first.home <==> IsBucket(env, b))
    && (forall b :: b in st.home <==> IsBucket(env, b))
    && (forall b | b in st.home :: Authorized(st, b))
    && (forall w | w in st.db.pending :: Elsewhere(env, st, w))
    && (forall q | q in st.active :: AtHome(env, st, q))
    && (forall key :: HoldsWrites(env, first, st, key))
  }

  predicate Authorized(st: State, b: int)
    requires b in st.home
  {
    && DistinctSecondaries(st.mapping, b)
    && (Authority(st.mapping, b).Some? ==> Authority(st.mapping, b).value == st.home[b])
  }

  predicate Elsewhere(env: Env, st: State, w: Pending) {
    BucketOf(env, w.key) in st.home && w.ep != Home(env, st, w.key)
  }

  predicate AtHome(env: Env, st: State, q: Request) {
    && BucketOf(env, q.key) in st.home && q.res.writeShards != []
    && q.res.PrimaryWriteShard().writer == q.res.readShard.writer == Home(env, st, q.key)
    && forall i | 1 <= i < |q.res.writeShards| :: q.res.writeShards[i].writer != Home(env, st, q.key)
  }

  predicate HoldsWrites(env: Env, first: State, st: State, key: Text) {
    var b := BucketOf(env, key);
    b in first.home && b in st.home &&
    Row(st.db.rows, st.home[b], key) == ExpectedIn(env, first, st.db.writes, key)
  }

  lemma BucketOfIsBucket(env: Env, key: Text)
    requires env.bucketCount < TWO_TO_THE_63
    ensures IsBucket(env, BucketOf(env, key))
  {
    BucketInRange(env.digestOf(key), env.bucketCount);
  }

  lemma {:induction false} LaunchedTargets(ws: seq<ShardDef>, key: Text, sql: Text, w: Pending)
    requires w in Launched(ws, key, sql)
    ensures w.key == key && exists i :: 0 <= i < |ws| && w.ep == ws[i].writer
  {
    if ws != [] {
      var n := |ws| - 1;
      if w in Launched(ws[..n], key, sql) {
        LaunchedTargets(ws[..n], key, sql, w);
        var i :| 0 <= i < n && w.ep == ws[..n][i].writer;
        assert w.ep == ws[i].writer;
      } else {
        assert w.ep == ws[n].writer;
      }
    }
  }

  /** A request is routed to the home of its key's bucket. */
  lemma InvRoute(env: Env, first: State, st: State, key: Text, res: Resolved)
    requires Inv(env, first, st) && env.bucketCount < TWO_TO_THE_63
    requires Enabled(env, st, Route(key, res))
    ensures Inv(env, first, Next(env, st, Route(key, res)))
  {
    var st' := Next(env, st, Route(key, res));
    BucketOfIsBucket(env, key);
    assert Authorized(st, BucketOf(env, key));
    assert AtHome(env, st', Request(key, res));
    InvKept(env, first, st, st');
  }

  /** What a step must see to: it may add late writes that go elsewhere and requests
      that go home, and must keep the rows in step with the writes. */
  lemma InvKept(env: Env, first: State, st: State, st': State)
    requires Inv(env, first, st) && st'.mapping == st.mapping && st'.home == st.home
    requires forall w | w in st'.db.pending :: w in st.db.pending || Elsewhere(env, st', w)
    requires forall q | q in st'.active :: q in st.active || AtHome(env, st', q)
    requires (st'.db.rows == st.db.rows && st'.db.writes == st.db.writes) || forall key :: HoldsWrites(env, first, st', key)
    ensures Inv(env, first, st')
  {
    forall b | b in st'.home ensures Authorized(st', b) {
      assert Authorized(st, b);
    }
    forall w | w in st'.db.pending ensures Elsewhere(env, st', w) {
      assert w in st.db.pending ==> Elsewhere(env, st, w);
    }
    forall q | q in st'.active ensures AtHome(env, st', q) {
      assert q in st.active ==> AtHome(env, st, q);
    }
    forall key ensures HoldsWrites(env, first, st', key) {
      assert HoldsWrites(env, first, st, key);
    }
  }

  /** A statement executed and recorded at the home keeps rows and writes in step. */
  lemma RecordedAtHome(env: Env, first: State, st: State, st': State, w: Executed)
    requires Inv(env, first, st) && st'.home == st.home
    requires BucketOf(env, w.key) in st.home && w.ep == Home(env, st, w.key)
    requires st'.db.rows == Execute(env, st.db.rows, w.ep, w.key, w.sql) && st'.db.writes == st.db.writes + [w]
    ensures forall key :: HoldsWrites(env, first, st', key)
  {
    forall key ensures HoldsWrites(env, first, st', key) {
      assert HoldsWrites(env, first, st, key);
      assert st'.db.writes[..|st.db.writes|] == st.db.writes;
    }
  }

  /** Rows that are nobody's home do not matter. */
  lemma ChangedElsewhere(env: Env, first: State, st: State, st': State, ep: Endpoint, key: Text, row: Option<Text>)
    requires Inv(env, first, st) && st'.home == st.home && st'.db.writes == st.db.writes
    requires BucketOf(env, key) in st.home && ep != Home(env, st, key)
    requires st'.db.rows == SetRow(st.db.rows, ep, key, row)
    ensures forall key :: HoldsWrites(env, first, st', key)
  {
    forall key ensures HoldsWrites(env, first, st', key) {
      assert HoldsWrites(env, first, st, key);
    }
  }

  lemma InvWrite(env: Env, first: State, st: State, key: Text, sql: Text, res: Resolved)
    requires Inv(env, first, st) && Enabled(env, st, Write(key, sql, res))
    ensures Inv(env, first, Next(env, st, Write(key, sql, res)))
  {
    var st' := Next(env, st, Write(key, sql, res));
    assert AtHome(env, st, Request(key, res));
    forall w | w in st'.db.pending ensures w in st.db.pending || Elsewhere(env, st', w) {
      if w !in st.db.pending {
        LaunchedTargets(res.writeShards[1..], key, sql, w);
      }
    }
    RecordedAtHome(env, first, st, st', Executed(res.PrimaryWriteShard().writer, key, sql, true));
    InvKept(env, first, st, st');
  }

  lemma InvLateEffect(env: Env, first: State, st: State, w: Pending)
    requires Inv(env, first, st) && Enabled(env, st, LateEffect(w))
    ensures Inv(env, first, Next(env, st, LateEffect(w)))
  {
    var st' := Next(env, st, LateEffect(w));
    if w.ep == Home(env, st, w.key) {
      RecordedAtHome(env, first, st, st', Executed(w.ep, w.key, w.sql, false));
    } else {
      ChangedElsewhere(env, first, st, st', w.ep, w.key, env.exec(w.sql, Row(st.db.rows, w.ep, w.key)));
    }
    InvKept(env, first, st, st');
  }

  lemma InvElsewhere(env: Env, first: State, st: State, act: Action)
    requires Inv(env, first, st) && Enabled(env, st, act)
    requires act.SecondaryLands? || act.Backfill?
    ensures Inv(env, first, Next(env, st, act))
  {
    var st' := Next(env, st, act);
    match act {
      case SecondaryLands(w) =>
        assert Elsewhere(env, st, w);
        ChangedElsewhere(env, first, st, st', w.ep, w.key, env.exec(w.sql, Row(st.db.rows, w.ep, w.key)));
      case Backfill(ep, key, row) =>
        ChangedElsewhere(env, first, st, st', ep, key, row);
    }
    InvKept(env, first, st, st');
  }

  lemma InvPublish(env: Env, first: State, st: State, m: Snapshot)
    requires Inv(env, first, st) && Enabled(env, st, Publish(m))
    ensures Inv(env, first, Next(env, st, Publish(m)))
  {
    var st' := Next(env, st, Publish(m));
    forall b | b in st'.home ensures Authorized(st', b) {
      assert MayPublishBucket(env, st, m, b);
    }
    forall w | w in st'.db.pending ensures Elsewhere(env, st', w) {
      assert Elsewhere(env, st, w);
      assert MayPublishBucket(env, st, m, BucketOf(env, w.key));
    }
    forall q | q in st'.active ensures AtHome(env, st', q) {
      assert AtHome(env, st, q);
      assert MayPublishBucket(env, st, m, BucketOf(env, q.key));
    }
    forall key ensures HoldsWrites(env, first, st', key) {
      assert HoldsWrites(env, first, st, key);
      assert MayPublishBucket(env, st, m, BucketOf(env, key));
    }
  }

  /** Steps that execute nothing, launch nothing and route nothing. */
  lemma InvIdle(env: Env, first: State, st: State, act: Action)
    requires Inv(env, first, st) && Enabled(env, st, act)
    requires act.Drop? || act.WriteFails? || act.Read? || act.SecondaryLost?
    ensures Inv(env, first, Next(env, st, act))
  {
    var st' := Next(env, st, act);
    assert st'.db.pending <= st.db.pending && st'.active <= st.active;
    InvKept(env, first, st, st');
  }

  lemma InvStep(env: Env, first: State, st: State, act: Action)
    requires Inv(env, first, st) && env.bucketCount < TWO_TO_THE_63 && Enabled(env, st, act)
    ensures Inv(env, first, Next(env, st, act))
  {
    match act
    case Route(key, res) => InvRoute(env, first, st, key, res);
    case Write(key, sql, res) => InvWrite(env, first, st, key, sql, res);
    case LateEffect(w) => InvLateEffect(env, first, st, w);
    case Publish(m) => InvPublish(env, first, st, m);
    case SecondaryLands(_) => InvElsewhere(env, first, st, act);
    case Backfill(_, _, _) => InvElsewhere(env, first, st, act);
    case _ => InvIdle(env, first, st, act);
  }

  lemma {:induction false} InvRun(env: Env, run: Run, j: nat)
    requires IsRun(env, run) && j < |run.states|
    ensures Inv(env, run.states[0], run.states[j])
  {
    var first := run.states[0];
    if j == 0 {
      forall key ensures HoldsWrites(env, first, first, key) {
        BucketOfIsBucket(env, key);
      }
    } else {
      InvRun(env, run, j - 1);
      assert StepAt(env, run, j - 1);
      InvStep(env, first, run.states[j - 1], run.acts[j - 1]);
    }
  }

  /** STRONG and READ_YOUR_WRITES reads across whole migrations. In every run of
      requests that are routed on one mapping and carried out on a later one,
      failed writes that surface at any time, late, reordered or lost secondary
      writes, arbitrary backfilling of shards that are not the home, and
      republished mappings under the cutover guard, a read that asks for anything
      but EVENTUAL returns exactly what the statements executed at the home of
      its key have made of it. */
  lemma StrongReadsSeeWrites(env: Env, run: Run, j: nat)
    requires IsRun(env, run) && j < |run.acts|
    requires run.acts[j].Read? && run.acts[j].consistency != EventualText()
    ensures var st, key := run.states[j], run.acts[j].key;
            BucketOf(env, key) in run.states[0].home &&
            run.acts[j].row == ExpectedIn(env, run.states[0], st.db.writes, key)
  {
    InvRun(env, run, j);
    assert StepAt(env, run, j);
    var st, act := run.states[j], run.acts[j];
    assert AtHome(env, st, Request(act.key, act.res));
    assert HoldsWrites(env, run.states[0], st, act.key);
  }

  // ----- the executed writes against what clients were told

  function Acked(writes: seq<Executed>): seq<Executed> {
    if writes == [] then []
    else
      var n := |writes| - 1;
      Acked(writes[..n]) + if writes[n].acked then [writes[n]] else []
  }

  /** The writes of a run that clients saw succeed. */
  function AckedBy(acts: seq<Action>): seq<Executed> {
    if acts == [] then [] else AckedBy(acts[..|acts| - 1]) + AckedIn(acts[|acts| - 1])
  }

  function AckedIn(act: Action): seq<Executed> {
    if act.Write? && act.res.writeShards != []
    then [Executed(act.res.PrimaryWriteShard().writer, act.key, act.sql, true)]
    else []
  }

  /** The writes of a run that clients saw fail on the primary. */
  function FailedBy(acts: seq<Action>): multiset<Pending> {
    if acts == [] then multiset{} else FailedBy(acts[..|acts| - 1]) + FailedIn(acts[|acts| - 1])
  }

  function FailedIn(act: Action): multiset<Pending> {
    if act.WriteFails? && act.res.writeShards != []
    then multiset{Pending(act.res.PrimaryWriteShard().writer, act.key, act.sql)}
    else multiset{}
  }

  function Unacked(writes: seq<Executed>): multiset<Pending> {
    if writes == [] then multiset{}
    else
      var n := |writes| - 1;
      Unacked(writes[..n]) +
      if writes[n].acked then multiset{} else multiset{Pending(writes[n].ep, writes[n].key, writes[n].sql)}
  }

  lemma LastWrite(writes: seq<Executed>, w: Executed)
    ensures Acked(writes + [w]) == Acked(writes) + if w.acked then [w] else []
    ensures Unacked(writes + [w]) == Unacked(writes) + if w.acked then multiset{} else multiset{Pending(w.ep, w.key, w.sql)}
  {
    assert (writes + [w])[..|writes|] == writes;
  }

  /** The books of one step. */
  predicate Accounts(db: Data, act: Action, db': Data) {
    && Acked(db'.writes) == Acked(db.writes) + AckedIn(act)
    && Unacked(db'.writes) + db'.failed <= Unacked(db.writes) + db.failed + FailedIn(act)
  }

  lemma AccountsForWrite(env: Env, db: Data, act: Action)
    requires act.Write? && act.res.writeShards != []
    ensures Accounts(db, act, AfterWrite(env, db, act.res, act.key, act.sql))
  {
    LastWrite(db.writes, Executed(act.res.PrimaryWriteShard().writer, act.key, act.sql, true));
  }

  lemma AccountsForLateEffect(env: Env, st: State, w: Pending)
    requires w in st.db.failed && BucketOf(env, w.key) in st.home
    ensures Accounts(st.db, LateEffect(w), Surfaced(env, st, w).db)
  {
    LastWrite(st.db.writes, Executed(w.ep, w.key, w.sql, false));
  }

  lemma AccountedAt(env: Env, run: Run, t: nat)
    requires IsRun(env, run) && t < |run.acts|
    ensures Accounts(run.states[t].db, run.acts[t], run.states[t + 1].db)
  {
    assert StepAt(env, run, t);
    match run.acts[t]
    case Write(_, _, _) => AccountsForWrite(env, run.states[t].db, run.acts[t]);
    case LateEffect(w) => AccountsForLateEffect(env, run.states[t], w);
    case _ =>
  }

  lemma LastAct(acts: seq<Action>, j: nat)
    requires 0 < j <= |acts|
    ensures AckedBy(acts[..j]) == AckedBy(acts[..j - 1]) + AckedIn(acts[j - 1])
    ensures FailedBy(acts[..j]) == FailedBy(acts[..j - 1]) + FailedIn(acts[j - 1])
  {
    assert acts[..j][..j - 1] == acts[..j - 1];
  }

  /** No acknowledged write is lost, repeated or reordered, and a failed one takes
      effect at its home at most once: among the statements executed at the homes,
      the acknowledged ones are the clients' successes in order, and the others,
      with those yet to surface, are some of the clients' failures. */
  lemma {:induction false} WritesAreAccountedFor(env: Env, run: Run, j: nat)
    requires IsRun(env, run) && j < |run.states|
    ensures Acked(run.states[j].db.writes) == AckedBy(run.acts[..j])
    ensures Unacked(run.states[j].db.writes) + run.states[j].db.failed <= FailedBy(run.acts[..j])
  {
    if j > 0 {
      WritesAreAccountedFor(env, run, j - 1);
      AccountedAt(env, run, j - 1);
      LastAct(run.acts, j);
    }
  }

  /** Some write of the key was reported as failed. */
  predicate SomeFailed(acts: seq<Action>, key: Text) {
    exists t :: 0 <= t < |acts| && acts[t].WriteFails? && acts[t].key == key
  }

  lemma {:induction false} FailedByTargets(acts: seq<Action>, w: Pending)
    requires w in FailedBy(acts)
    ensures SomeFailed(acts, w.key)
  {
    if acts != [] {
      var n := |acts| - 1;
      if w in FailedBy(acts[..n]) {
        FailedByTargets(acts[..n], w);
        var t :| 0 <= t < n && acts[..n][t].WriteFails? && acts[..n][t].key == w.key;
        assert acts[t].WriteFails? && acts[t].key == w.key;
      } else {
        assert acts[n].WriteFails? && acts[n].key == w.key;
      }
    }
  }

  /** The statements of a key that were all acknowledged. */
  lemma {:induction false} ExpectedFromAcked(env: Env, before: Option<Text>, writes: seq<Executed>, key: Text)
    requires forall w | w in Unacked(writes) :: w.key != key
    ensures Expected(env, before, writes, key) == Expected(env, before, Acked(writes), key)
  {
    if writes != [] {
      var n := |writes| - 1;
      LastWrite(writes[..n], writes[n]);
      assert writes == writes[..n] + [writes[n]];
      ExpectedFromAcked(env, before, writes[..n], key);
      if writes[n].acked {
        assert Acked(writes)[..|Acked(writes[..n])|] == Acked(writes[..n]);
      } else {
        assert Pending(writes[n].ep, writes[n].key, writes[n].sql) in Unacked(writes);
        assert Acked(writes) == Acked(writes[..n]);
      }
    }
  }

  /** Hence, unless the client saw a write of that key fail, such a read returns
      exactly what the acknowledged writes of the key, in order, make of it. */
  lemma StrongReadsSeeAckedWrites(env: Env, run: Run, j: nat)
    requires IsRun(env, run) && j < |run.acts|
    requires run.acts[j].Read? && run.acts[j].consistency != EventualText()
    requires !SomeFailed(run.acts[..j], run.acts[j].key)
    ensures var key := run.acts[j].key;
            BucketOf(env, key) in run.states[0].home &&
            run.acts[j].row == ExpectedIn(env, run.states[0], AckedBy(run.acts[..j]), key)
  {
    var first, writes, key := run.states[0], run.states[j].db.writes, run.acts[j].key;
    StrongReadsSeeWrites(env, run, j);
    WritesAreAccountedFor(env, run, j);
    forall w | w in Unacked(writes) ensures w.key != key {
      assert w in FailedBy(run.acts[..j]);
      FailedByTargets(run.acts[..j], w);
    }
    ExpectedFromAcked(env, Row(first.db.rows, Home(env, first, key), key), writes, key);
  }

  // ----- the guard at work

  /** Setting the state of bucket `b`, and nothing else. */
  function Advanced(m: Snapshot, b: int, s: MigrationState): Snapshot
    requires b in m.buckets
  {
    m.(buckets := m.buckets[b := m.buckets[b].(state := s)])
  }

  function Source(m: Snapshot, b: int): Endpoint
    requires b in m.buckets && m.buckets[b].shardID in m.shards
  {
    m.shards[m.buckets[b].shardID].writer
  }

  function Dest(m: Snapshot, b: int): Endpoint
    requires b in m.buckets && m.buckets[b].destShardID in m.shards
  {
    m.shards[m.buckets[b].destShardID].writer
  }

  /** Moving a bucket through its migration: between states of one family nothing
      need be checked; crossing into or out of the cutover family is allowed
      exactly when the rows agree and no late write targets the new home. */
  lemma AdvanceIsGuardedExactly(env: Env, first: State, st: State, b: int, s: MigrationState)
    requires Inv(env, first, st) && b in st.home && b in st.mapping.buckets
    requires st.mapping.buckets[b].shardID in st.mapping.shards && st.mapping.buckets[b].destShardID in st.mapping.shards
    requires Source(st.mapping, b) != Dest(st.mapping, b)
    ensures var m := st.mapping;
            Enabled(env, st, Publish(Advanced(m, b, s))) <==>
              DestFamily(s) == DestFamily(m.buckets[b].state) ||
              MayMove(env, st, b, if DestFamily(s) then Dest(m, b) else Source(m, b))
  {
    var m, m' := st.mapping, Advanced(st.mapping, b, s);
    assert Authorized(st, b);
    forall b' | b' in st.home && b' != b ensures MayPublishBucket(env, st, m', b') {
      assert Authorized(st, b');
      assert Registered(m', b') == Registered(m, b');
    }
    var target := if DestFamily(s) then Dest(m, b) else Source(m, b);
    assert Authority(m', b) == Some(target) && DistinctSecondaries(m', b);
    assert MayPublishBucket(env, st, m', b) <==> target == st.home[b] || MayMove(env, st, b, target);
  }

  /** The agreement part of the guard is needed: whatever mapping is published,
      the next STRONG read of a key is right exactly when its row at the new
      home agrees with the old one. */
  lemma AgreementIsNeeded(env: Env, first: State, st: State, m: Snapshot, key: Text, res: Resolved)
    requires Inv(env, first, st) && env.bucketCount < TWO_TO_THE_63
    requires Routes(m, BucketOf(env, key), Ok(res))
    ensures BucketOf(env, key) in st.home && BucketOf(env, key) in first.home
    ensures Row(st.db.rows, res.ReadEndpoint(Strong), key) == ExpectedIn(env, first, st.db.writes, key)
       <==> Row(st.db.rows, Authority(m, BucketOf(env, key)).value, key) == Row(st.db.rows, Home(env, st, key), key)
  {
    BucketOfIsBucket(env, key);
    assert HoldsWrites(env, first, st, key);
  }

  /** So is the second part: let a mapping make the target of a secondary write its
      bucket's home while that write is still on its way. Once it has landed, the
      next STRONG read is right exactly when the statement turns the row at the
      new home into the row at the old one; if the rows agreed, exactly when it
      changes nothing. */
  lemma LateWriteToHomeExactly(env: Env, run: Run, j: nat, w: Pending, m: Snapshot, res: Resolved)
    requires IsRun(env, run) && j < |run.states| && w in run.states[j].db.pending
    requires Routes(m, BucketOf(env, w.key), Ok(res)) && Authority(m, BucketOf(env, w.key)) == Some(w.ep)
    ensures BucketOf(env, w.key) in run.states[j].home && BucketOf(env, w.key) in run.states[0].home
    ensures w.ep != Home(env, run.states[j], w.key)
    ensures var st := run.states[j];
            var after := Landed(env, Published(st, m), w);
            (Row(after.db.rows, res.ReadEndpoint(Strong), w.key) ==
               ExpectedIn(env, run.states[0], after.db.writes, w.key)
        <==> env.exec(w.sql, Row(st.db.rows, w.ep, w.key)) == Row(st.db.rows, Home(env, st, w.key), w.key))
  {
    InvRun(env, run, j);
    assert Elsewhere(env, run.states[j], w);
    assert HoldsWrites(env, run.states[0], run.states[j], w.key);
  }

  /** And so is the third: let a bucket move while a request is routed to its old
      home, and let that request then write. The next STRONG read sees that write
      exactly when the row it leaves at the old home is the row of the new one;
      if the rows agreed, exactly when it changes nothing. */
  lemma UndrainedWriteExactly(env: Env, run: Run, j: nat, q: Request, sql: Text, m: Snapshot, res: Resolved)
    requires IsRun(env, run) && j < |run.states| && q in run.states[j].active
    requires Routes(m, BucketOf(env, q.key), Ok(res))
    requires BucketOf(env, q.key) in run.states[j].home && res.readShard.writer != Home(env, run.states[j], q.key)
    ensures BucketOf(env, q.key) in run.states[0].home && q.res.writeShards != []
    ensures var st := run.states[j];
            var after := AfterWrite(env, Published(st, m).db, q.res, q.key, sql);
            (Row(after.rows, res.ReadEndpoint(Strong), q.key) ==
               ExpectedIn(env, run.states[0], after.writes, q.key)
        <==> Row(st.db.rows, res.readShard.writer, q.key) == env.exec(sql, Row(st.db.rows, Home(env, st, q.key), q.key)))
  {
    InvRun(env, run, j);
    var st := run.states[j];
    assert AtHome(env, st, q);
    assert HoldsWrites(env, run.states[0], st, q.key);
    var after := AfterWrite(env, st.db, q.res, q.key, sql);
    assert after.writes[..|st.db.writes|] == st.db.writes;
  }

  /** Source and destination must be distinct endpoints: when they share one, a
      dual write is executed there twice. */
  lemma SharedEndpointExecutesTwice(env: Env, db: Data, res: Resolved, key: Text, sql: Text)
    requires |res.writeShards| == 2 && res.writeShards[1].writer == res.writeShards[0].writer
    ensures var after := AfterWrite(env, db, res, key, sql);
            var late := Pending(res.writeShards[0].writer, key, sql);
            late in after.pending &&
            Row(Execute(env, after.rows, late.ep, late.key, late.sql), late.ep, key) ==
              env.exec(sql, env.exec(sql, Row(db.rows, late.ep, key)))
  {
    var secondaries := res.writeShards[1..];
    assert secondaries[..0] == [];
    assert Launched(secondaries, key, sql) == multiset{Pending(res.writeShards[1].writer, key, sql)};
  }
}
