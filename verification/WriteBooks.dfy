/** Conservation over migration runs: every late write, failed write and routed
    request is accounted for, copy by copy. */
module WriteBooks {
  import opened Types
  import opened Router
  import opened Migration

  // ----- how many late writes a write launches

  /** The shards whose writer is `ep`. */
  ghost function WritersAt(ws: seq<ShardDef>, ep: Endpoint): set<nat> {
    set i: nat | i < |ws| && ws[i].writer == ep
  }

  lemma WritersAtLast(ws: seq<ShardDef>, last: ShardDef, ep: Endpoint)
    ensures |WritersAt(ws + [last], ep)| == |WritersAt(ws, ep)| + if last.writer == ep then 1 else 0
  {
    var n := |ws|;
    if last.writer == ep {
      assert WritersAt(ws + [last], ep) == WritersAt(ws, ep) + {n};
    } else {
      assert WritersAt(ws + [last], ep) == WritersAt(ws, ep);
    }
  }

  /** One late write for each secondary, no more and no fewer. */
  lemma {:induction false} LaunchedOnce(ws: seq<ShardDef>, key: Text, sql: Text, w: Pending)
    ensures |Launched(ws, key, sql)| == |ws|
    ensures Launched(ws, key, sql)[w] == if w.key == key && w.sql == sql then |WritersAt(ws, w.ep)| else 0
  {
    if ws != [] {
      var n := |ws| - 1;
      LaunchedOnce(ws[..n], key, sql, w);
      assert ws == ws[..n] + [ws[n]];
      WritersAtLast(ws[..n], ws[n], w.ep);
    } else {
      assert WritersAt(ws, w.ep) == {};
    }
  }

  // ----- the books of a run

  /** How many secondaries the step owes the late write `w`: if it acknowledges that
      statement, the shards after the primary that have its endpoint. */
  ghost function Owed(act: Action, w: Pending): nat {
    if act.Write? && act.key == w.key && act.sql == w.sql && act.res.writeShards != []
    then |WritersAt(act.res.writeShards[1..], w.ep)| else 0
  }

  function Settles(act: Action, w: Pending): nat {
    if act == SecondaryLands(w) || act == SecondaryLost(w) then 1 else 0
  }

  ghost function AllOwed(acts: seq<Action>, w: Pending): nat {
    if acts == [] then 0 else AllOwed(acts[..|acts| - 1], w) + Owed(acts[|acts| - 1], w)
  }

  function AllSettled(acts: seq<Action>, w: Pending): nat {
    if acts == [] then 0 else AllSettled(acts[..|acts| - 1], w) + Settles(acts[|acts| - 1], w)
  }

  lemma LastOwed(acts: seq<Action>, j: nat, w: Pending)
    requires 0 < j <= |acts|
    ensures AllOwed(acts[..j], w) == AllOwed(acts[..j - 1], w) + Owed(acts[j - 1], w)
    ensures AllSettled(acts[..j], w) == AllSettled(acts[..j - 1], w) + Settles(acts[j - 1], w)
  {
    assert acts[..j][..j - 1] == acts[..j - 1];
  }

  lemma WriteLaunches(env: Env, db: Data, res: Resolved, key: Text, sql: Text, w: Pending)
    requires res.writeShards != []
    ensures AfterWrite(env, db, res, key, sql).pending[w] == db.pending[w] + Owed(Write(key, sql, res), w)
  {
    LaunchedOnce(res.writeShards[1..], key, sql, w);
  }

  lemma PendingStep(env: Env, run: Run, t: nat, w: Pending)
    requires IsRun(env, run) && t < |run.acts|
    ensures run.states[t + 1].db.pending[w] + Settles(run.acts[t], w) == run.states[t].db.pending[w] + Owed(run.acts[t], w)
  {
    var act := run.acts[t];
    assert StepAt(env, run, t);
    if act.Write? {
      WriteLaunches(env, run.states[t].db, act.res, act.key, act.sql, w);
    }
  }

  /** Dual writes, exactly once: in every run, the copies of a late write that are
      under way and those that have landed or been lost are together one for each
      secondary of each acknowledged write of that statement. */
  lemma {:induction false} LateWritesAreConserved(env: Env, run: Run, j: nat, w: Pending)
    requires IsRun(env, run) && j < |run.states|
    ensures run.states[j].db.pending[w] + AllSettled(run.acts[..j], w) == AllOwed(run.acts[..j], w)
  {
    if j > 0 {
      LateWritesAreConserved(env, run, j - 1, w);
      PendingStep(env, run, j - 1, w);
      LastOwed(run.acts, j, w);
    }
  }

  function Surfacings(acts: seq<Action>, w: Pending): nat {
    if acts == [] then 0 else Surfacings(acts[..|acts| - 1], w) + if acts[|acts| - 1] == LateEffect(w) then 1 else 0
  }

  lemma LastFailed(acts: seq<Action>, j: nat, w: Pending)
    requires 0 < j <= |acts|
    ensures FailedBy(acts[..j])[w] == FailedBy(acts[..j - 1])[w] + FailedIn(acts[j - 1])[w]
    ensures Surfacings(acts[..j], w) == Surfacings(acts[..j - 1], w) + if acts[j - 1] == LateEffect(w) then 1 else 0
  {
    assert acts[..j][..j - 1] == acts[..j - 1];
  }

  lemma FailedStep(env: Env, run: Run, t: nat, w: Pending)
    requires IsRun(env, run) && t < |run.acts|
    ensures run.states[t + 1].db.failed[w] + (if run.acts[t] == LateEffect(w) then 1 else 0) ==
            run.states[t].db.failed[w] + FailedIn(run.acts[t])[w]
  {
    assert StepAt(env, run, t);
  }

  /** Each write that a client saw fail surfaces at most once, and until then may. */
  lemma {:induction false} FailedWritesAreConserved(env: Env, run: Run, j: nat, w: Pending)
    requires IsRun(env, run) && j < |run.states|
    ensures run.states[j].db.failed[w] + Surfacings(run.acts[..j], w) == FailedBy(run.acts[..j])[w]
  {
    if j > 0 {
      FailedWritesAreConserved(env, run, j - 1, w);
      FailedStep(env, run, j - 1, w);
      LastFailed(run.acts, j, w);
    }
  }

  /** The step carries the request out, in one way or another. */
  predicate Answers(act: Action, q: Request) {
    (act.Drop? || act.Write? || act.WriteFails? || act.Read?) && Request(act.key, act.res) == q
  }

  function Routed(acts: seq<Action>, q: Request): nat {
    if acts == [] then 0 else Routed(acts[..|acts| - 1], q) + if acts[|acts| - 1] == Route(q.key, q.res) then 1 else 0
  }

  function Answered(acts: seq<Action>, q: Request): nat {
    if acts == [] then 0 else Answered(acts[..|acts| - 1], q) + if Answers(acts[|acts| - 1], q) then 1 else 0
  }

  lemma ActiveStep(env: Env, run: Run, t: nat, q: Request)
    requires IsRun(env, run) && t < |run.acts|
    ensures run.states[t + 1].active[q] + (if Answers(run.acts[t], q) then 1 else 0) ==
            run.states[t].active[q] + (if run.acts[t] == Route(q.key, q.res) then 1 else 0)
  {
    assert StepAt(env, run, t);
  }

  /** Every routed request is answered once or still outstanding. */
  lemma {:induction false} RequestsAreConserved(env: Env, run: Run, j: nat, q: Request)
    requires IsRun(env, run) && j < |run.states|
    ensures run.states[j].active[q] + Answered(run.acts[..j], q) == Routed(run.acts[..j], q)
  {
    if j > 0 {
      RequestsAreConserved(env, run, j - 1, q);
      ActiveStep(env, run, j - 1, q);
      assert run.acts[..j][..j - 1] == run.acts[..j - 1];
    }
  }
}
