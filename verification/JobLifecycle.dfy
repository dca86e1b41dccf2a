/**
 A job's life (topo/worker.py, topo/export_worker.py).

 One row, its owner's storage and the objects under its prefix, shared by any
 number of workers launched for it, their heartbeat threads, the reaper and
 deletes of the job or of its owner's account, in every order. Each database write is one atomic guarded
 update; an exception from one means it did not happen.
 */
module JobLifecycle {
  import opened Common

  /** A LiDAR job is charged to its owner; an export is not, and its writes raise outside the try. */
  datatype Pipeline = Topo | Export

  /** An export's `queued`, `running` and `completed` are Pending, Processing and Complete. */
  datatype Status = Uploading | Pending | Processing | Complete | Failed

  datatype Row = Row(status: Status, outputBytes: nat, tilesDone: nat)

  /** The columns an update may set besides the status. */
  datatype Columns = Columns(outputBytes: Option<nat>, tilesDone: Option<nat>)

  const NOTHING := Columns(None, None)

  /** The job's row, None once deleted, and its owner's `storage_used_bytes`. */
  datatype Db = Db(row: Option<Row>, storage: int)

  // -------------------------------------------------------------- update_status

  /** Whether `UPDATE ... WHERE id AND status = expected` matches the row. */
  predicate Matches(db: Db, expected: Option<Status>) {
    db.row.Some? && (expected.None? || db.row.value.status == expected.value)
  }

  function Written(row: Row, status: Status, columns: Columns): Row {
    Row(status,
        if columns.outputBytes.Some? then columns.outputBytes.value else row.outputBytes,
        if columns.tilesDone.Some? then columns.tilesDone.value else row.tilesDone)
  }

  /** The database after `update_status`: the row and the owner's storage move together, or neither. */
  function Updated(db: Db, status: Status, delta: int, expected: Option<Status>, columns: Columns): Db {
    if Matches(db, expected)
    then Db(Some(Written(db.row.value, status, columns)), db.storage + delta)
    else db
  }

  class Store {
    var row: Option<Row>
    var storage: int

    function Value(): Db
      reads this
    {
      Db(row, storage)
    }

    method UpdateStatus(status: Status, delta: int, expected: Option<Status>, columns: Columns)
      returns (updated: nat)
      modifies this
      ensures Value() == Updated(old(Value()), status, delta, expected, columns)
      ensures updated == if Matches(old(Value()), expected) then 1 else 0
    {
      updated := 0;
      if row.Some? && (expected.None? || row.value.status == expected.value) {
        row := Some(Written(row.value, status, columns));
        updated := 1;
      }
      if updated != 0 && delta != 0 {
        storage := storage + delta;
      }
    }
  }

  // ---------------------------------------------------------------- the workers

  datatype Exit = NotClaimed | Raised | Cleaned | Notified | TailRaised | Killed

  /** Where a worker's `main` has got to. */
  datatype Pc =
    | Starting
    | Working                // inside process_job: uploading
    | Ready(bytes: nat)      // outputs uploaded, about to write `complete`
    | Failing                // about to write `failed`
    | Announcing             // a terminal write matched
    | Cleaning               // a terminal write matched no row
    | Exited(how: Exit)

  /** What a worker's terminal write came to. */
  datatype Outcome = Unwritten | Won(status: Status) | Lost

  datatype Worker = Worker(pc: Pc, claimed: bool, outcome: Outcome, bytes: nat, uploads: set<string>)

  /** Everything the job's steps touch. `deleting` holds what deletes in progress have read as its
      bytes, at whatever status; `charges` are the bytes workers have charged, in order. */
  datatype World = World(db: Db, objects: set<string>, workers: map<nat, Worker>,
                         notices: set<(nat, Status)>, deleting: set<nat>, charges: seq<nat>)

  datatype Step =
    // one worker, `k`
    | Launch(k: nat)
    | Claim(k: nat)
    | Upload(k: nat, key: string)
    | Finish(k: nat, bytes: nat)
    | WriteComplete(k: nat)
    | WriteFailed(k: nat)
    | Announce(k: nat)
    | Clean(k: nat, removed: set<string>)
    | Raise(k: nat)
    | Kill(k: nat)
    | Beat(k: nat, tilesDone: nat)
    // the API and the reaper
    | Start
    | ForceFail
    | DeleteRead
    | DeletePurge(removed: set<string>)
    | DeleteCommit(bytes: nat)
    | CloseAccount

  predicate HasPc(w: World, k: nat, p: Pc -> bool) {
    k in w.workers && p(w.workers[k].pc)
  }

  /** `completed` in `main`: the `complete` write matched. */
  predicate Completed(worker: Worker) {
    worker.outcome == Won(Complete)
  }

  predicate IsTerminal(s: Status) {
    s == Complete || s == Failed
  }

  predicate Enabled(p: Pipeline, w: World, s: Step) {
    match s
    case Launch(k) => k !in w.workers
    case Claim(k) => HasPc(w, k, (pc: Pc) => pc.Starting?)
    case Upload(k, key) => HasPc(w, k, (pc: Pc) => pc.Working?)
    case Finish(k, bytes) => HasPc(w, k, (pc: Pc) => pc.Working?)
    case WriteComplete(k) => HasPc(w, k, (pc: Pc) => pc.Ready?)
    case WriteFailed(k) => HasPc(w, k, (pc: Pc) => pc.Failing?)
    case Announce(k) => HasPc(w, k, (pc: Pc) => pc.Announcing?)
    case Clean(k, removed) => HasPc(w, k, (pc: Pc) => pc.Cleaning?)
    case Raise(k) => HasPc(w, k, (pc: Pc) => !pc.Cleaning? && !pc.Exited?)
    case Kill(k) => HasPc(w, k, (pc: Pc) => !pc.Exited?)
    case Beat(k, tilesDone) => p.Topo? && HasPc(w, k, (pc: Pc) => !pc.Starting? && !pc.Exited?)
    case Start => true
    case ForceFail => true
    case DeleteRead => w.db.row.Some?
    case DeletePurge(removed) => w.deleting != {}
    case DeleteCommit(bytes) => bytes in w.deleting && w.db.row.Some?
    case CloseAccount => w.deleting != {} && w.db.row.Some?
  }

  function Charge(p: Pipeline, bytes: nat): nat {
    if p.Topo? then bytes else 0
  }

  /** Where an exception leaves a worker. The claim, the failure path and an export's writes and
      notices are outside the try; inside it, the handler writes `failed` unless `completed`. */
  function AfterRaise(p: Pipeline, worker: Worker): Pc {
    if worker.pc.Starting? || worker.pc.Failing? || worker.outcome == Won(Failed) then Exited(Raised)
    else if p.Export? && (worker.pc.Ready? || worker.pc.Announcing?) then Exited(Raised)
    else if Completed(worker) then Exited(TailRaised)
    else Failing
  }

  function With(w: World, k: nat, worker: Worker): World {
    w.(workers := w.workers[k := worker])
  }

  function At(w: World, k: nat, pc: Pc): World
    requires k in w.workers
  {
    With(w, k, w.workers[k].(pc := pc))
  }

  function Claimed(w: World, k: nat): World
    requires k in w.workers
  {
    if Matches(w.db, Some(Pending))
    then With(w.(db := Updated(w.db, Processing, 0, Some(Pending), NOTHING)), k,
              w.workers[k].(pc := Working, claimed := true))
    else At(w, k, Exited(NotClaimed))
  }

  function WroteComplete(p: Pipeline, w: World, k: nat): World
    requires k in w.workers && w.workers[k].pc.Ready?
  {
    var bytes := w.workers[k].pc.bytes;
    if Matches(w.db, Some(Processing))
    then With(w.(db := Updated(w.db, Complete, Charge(p, bytes), Some(Processing), Columns(Some(bytes), None)),
                 charges := w.charges + [Charge(p, bytes)]), k,
              w.workers[k].(pc := Announcing, outcome := Won(Complete), bytes := bytes))
    else With(w, k, w.workers[k].(pc := Cleaning, outcome := Lost))
  }

  function WroteFailed(w: World, k: nat): World
    requires k in w.workers
  {
    if Matches(w.db, Some(Processing))
    then With(w.(db := Updated(w.db, Failed, 0, Some(Processing), NOTHING)), k,
              w.workers[k].(pc := Announcing, outcome := Won(Failed)))
    else With(w, k, w.workers[k].(pc := Cleaning, outcome := Lost))
  }

  /** A guarded flip to `failed`, from `pending` or `processing`: the reaper's, and a cancelling DELETE's. */
  function ForcedFail(db: Db): Db {
    if Matches(db, Some(Pending)) then Updated(db, Failed, 0, Some(Pending), NOTHING)
    else Updated(db, Failed, 0, Some(Processing), NOTHING)
  }

  function Apply(p: Pipeline, w: World, s: Step): World
    requires Enabled(p, w, s)
  {
    match s
    case Launch(k) => With(w, k, Worker(Starting, false, Unwritten, 0, {}))
    case Claim(k) => Claimed(w, k)
    case Upload(k, key) =>
      With(w.(objects := w.objects + {key}), k, w.workers[k].(uploads := w.workers[k].uploads + {key}))
    case Finish(k, bytes) => At(w, k, Ready(bytes))
    case WriteComplete(k) => WroteComplete(p, w, k)
    case WriteFailed(k) => WroteFailed(w, k)
    case Announce(k) =>
      At(w.(notices := w.notices + {(k, if Completed(w.workers[k]) then Complete else Failed)}), k, Exited(Notified))
    case Clean(k, removed) => At(w.(objects := w.objects - removed), k, Exited(Cleaned))
    case Raise(k) => At(w, k, AfterRaise(p, w.workers[k]))
    case Kill(k) => At(w, k, Exited(Killed))
    case Beat(k, tilesDone) =>
      w.(db := Updated(w.db, Processing, 0, Some(Processing), Columns(None, Some(tilesDone))))
    case Start => w.(db := Updated(w.db, Pending, 0, Some(Uploading), NOTHING))
    case ForceFail => w.(db := ForcedFail(w.db))
    case DeleteRead => w.(deleting := w.deleting + {w.db.row.value.outputBytes})
    case DeletePurge(removed) => w.(objects := w.objects - removed)
    case DeleteCommit(bytes) =>
      w.(db := Db(None, if w.db.storage < Charge(p, bytes) then 0 else w.db.storage - Charge(p, bytes)))
    case CloseAccount => w.(db := Db(None, 0))  // the owner, and what they were charged, go too
  }

  // --------------------------------------------------------------- the invariant

  predicate StatusIs(w: World, s: Status) {
    w.db.row.Some? && w.db.row.value.status == s
  }

  /** The row is `failed` or deleted: from here nothing can bring it back. */
  predicate Dead(w: World) {
    w.db.row.None? || w.db.row.value.status == Failed
  }

  predicate OutcomeOk(p: Pipeline, w: World, worker: Worker) {
    match worker.outcome
    case Unwritten => true
    case Lost => Dead(w)
    case Won(s) =>
      if s == Complete
      then w.charges == [Charge(p, worker.bytes)] &&
           (w.db.row.Some? ==> StatusIs(w, Complete) && w.db.row.value.outputBytes == worker.bytes)
      else s == Failed && Dead(w)
  }

  predicate PcOk(worker: Worker) {
    match worker.pc
    case Starting => !worker.claimed
    case Working => worker.claimed && worker.outcome.Unwritten?
    case Ready(bytes) => worker.claimed && worker.outcome.Unwritten?
    case Failing => worker.claimed && worker.outcome.Unwritten?
    case Announcing => worker.claimed && worker.outcome.Won?
    case Cleaning => worker.claimed && worker.outcome.Lost?
    case Exited(how) =>
      (how.Cleaned? ==> worker.outcome.Lost?) && (worker.outcome.Lost? ==> how.Cleaned? || how.Killed?)
  }

  /** One worker's state agrees with the row. */
  predicate WorkerOk(p: Pipeline, w: World, worker: Worker) {
    PcOk(worker) && OutcomeOk(p, w, worker) &&
    (!worker.claimed ==> worker.outcome.Unwritten? && worker.uploads == {}) &&
    (worker.claimed ==> !StatusIs(w, Uploading) && !StatusIs(w, Pending)) &&
    ((StatusIs(w, Processing) || StatusIs(w, Complete)) && w.deleting == {} ==> worker.uploads <= w.objects)
  }

  ghost predicate WorkersOk(p: Pipeline, w: World) {
    (forall k :: k in w.workers ==> WorkerOk(p, w, w.workers[k])) &&
    (forall k, l :: k in w.workers && l in w.workers && w.workers[k].claimed && w.workers[l].claimed ==> k == l) &&
    forall k, s :: (k, s) in w.notices ==> k in w.workers && w.workers[k].outcome == Won(s)
  }

  ghost predicate SomeCompleted(w: World) {
    exists k :: k in w.workers && Completed(w.workers[k])
  }

  /** The row, the storage and the charges agree; `base` is what the owner's other jobs take. A delete
      has read the row's bytes, or 0 before they were written. */
  ghost predicate RowOk(p: Pipeline, base: nat, w: World) {
    (w.charges != [] || StatusIs(w, Complete) ==> SomeCompleted(w)) &&
    (w.db.row.Some? ==>
       w.db.storage == base + Charge(p, w.db.row.value.outputBytes) &&
       (!StatusIs(w, Complete) ==> w.db.row.value.outputBytes == 0) &&
       w.deleting <= {0, w.db.row.value.outputBytes})
  }

  ghost predicate Inv(p: Pipeline, base: nat, w: World) {
    WorkersOk(p, w) && RowOk(p, base, w)
  }

  ghost predicate Initial(base: nat, w: World) {
    (StatusIs(w, Uploading) || StatusIs(w, Pending)) && w.db.row.value.outputBytes == 0 && w.db.storage == base &&
    w.workers == map[] && w.notices == {} && w.deleting == {} && w.charges == []
  }

  /** A worker that completed the job stays so, whatever happens next. */
  lemma CompletedStays(p: Pipeline, w: World, s: Step)
    requires WorkersOk(p, w) && Enabled(p, w, s) && SomeCompleted(w)
    ensures SomeCompleted(Apply(p, w, s))
  {
    var c :| c in w.workers && Completed(w.workers[c]);
    assert WorkerOk(p, w, w.workers[c]);
    assert Completed(Apply(p, w, s).workers[c]);
  }

  lemma CompletingKeepsRow(p: Pipeline, base: nat, w: World, k: nat)
    requires Inv(p, base, w) && Enabled(p, w, WriteComplete(k))
    ensures RowOk(p, base, Apply(p, w, WriteComplete(k)))
  {
    if Matches(w.db, Some(Processing)) {
      assert Completed(Apply(p, w, WriteComplete(k)).workers[k]);
    } else if SomeCompleted(w) {
      CompletedStays(p, w, WriteComplete(k));
    }
  }

  lemma StepKeepsRow(p: Pipeline, base: nat, w: World, s: Step)
    requires Inv(p, base, w) && Enabled(p, w, s)
    ensures RowOk(p, base, Apply(p, w, s))
  {
    if s.WriteComplete? {
      CompletingKeepsRow(p, base, w, s.k);
    } else if SomeCompleted(w) {
      CompletedStays(p, w, s);
    }
  }

  lemma StepKeepsWorkers(p: Pipeline, base: nat, w: World, s: Step)
    requires Inv(p, base, w) && Enabled(p, w, s)
    ensures WorkersOk(p, Apply(p, w, s))
  {
    var w' := Apply(p, w, s);
    forall k | k in w'.workers ensures WorkerOk(p, w', w'.workers[k]) {
      StepKeepsWorker(p, base, w, s, k);
    }
    forall k, l | k in w'.workers && l in w'.workers && w'.workers[k].claimed && w'.workers[l].claimed ensures k == l {
      ClaimIsExclusive(p, base, w, s, k, l);
    }
    forall k, st | (k, st) in w'.notices ensures k in w'.workers && w'.workers[k].outcome == Won(st) {
      NoticesStay(p, base, w, s, k, st);
    }
  }

  /** Steps of the API, the reaper and the heartbeat move no worker. */
  lemma OutsideKeepsWorker(p: Pipeline, base: nat, w: World, s: Step, k: nat)
    requires Inv(p, base, w) && Enabled(p, w, s) && k in w.workers
    requires s.Beat? || s.Start? || s.ForceFail?
    ensures WorkerOk(p, Apply(p, w, s), w.workers[k])
  {
    assert WorkerOk(p, w, w.workers[k]);
  }

  lemma DeleteKeepsWorker(p: Pipeline, base: nat, w: World, s: Step, k: nat)
    requires Inv(p, base, w) && Enabled(p, w, s) && k in w.workers
    requires s.DeleteRead? || s.DeletePurge? || s.DeleteCommit? || s.CloseAccount?
    ensures WorkerOk(p, Apply(p, w, s), w.workers[k])
  {
    assert WorkerOk(p, w, w.workers[k]);
  }

  lemma ClaimKeepsWorker(p: Pipeline, base: nat, w: World, s: Step, k: nat)
    requires Inv(p, base, w) && Enabled(p, w, s) && s.Claim? && k in w.workers
    ensures WorkerOk(p, Apply(p, w, s), Apply(p, w, s).workers[k])
  {
    assert WorkerOk(p, w, w.workers[k]);
    assert WorkerOk(p, w, w.workers[s.k]);
  }

  /** Steps of one worker that leave the row alone. */
  lemma MoveKeepsWorker(p: Pipeline, base: nat, w: World, s: Step, k: nat)
    requires Inv(p, base, w) && Enabled(p, w, s) && k in Apply(p, w, s).workers
    requires s.Launch? || s.Finish? || s.Announce? || s.Kill?
    ensures WorkerOk(p, Apply(p, w, s), Apply(p, w, s).workers[k])
  {
    if k in w.workers { assert WorkerOk(p, w, w.workers[k]); }
  }

  lemma RaiseKeepsWorker(p: Pipeline, base: nat, w: World, s: Step, k: nat)
    requires Inv(p, base, w) && Enabled(p, w, s) && s.Raise? && k in w.workers
    ensures WorkerOk(p, Apply(p, w, s), Apply(p, w, s).workers[k])
  {
    assert WorkerOk(p, w, w.workers[k]);
  }

  /** Uploads add objects, and cleaning takes them only once the row is dead. */
  lemma ObjectsKeepWorker(p: Pipeline, base: nat, w: World, s: Step, k: nat)
    requires Inv(p, base, w) && Enabled(p, w, s) && (s.Upload? || s.Clean?) && k in w.workers
    ensures WorkerOk(p, Apply(p, w, s), Apply(p, w, s).workers[k])
  {
    assert WorkerOk(p, w, w.workers[k]);
    assert WorkerOk(p, w, w.workers[s.k]);
  }

  lemma WriteKeepsWorker(p: Pipeline, base: nat, w: World, s: Step, k: nat)
    requires Inv(p, base, w) && Enabled(p, w, s) && (s.WriteComplete? || s.WriteFailed?) && k in w.workers
    ensures WorkerOk(p, Apply(p, w, s), Apply(p, w, s).workers[k])
  {
    assert WorkerOk(p, w, w.workers[k]);
    assert WorkerOk(p, w, w.workers[s.k]);
  }

  lemma StepKeepsWorker(p: Pipeline, base: nat, w: World, s: Step, k: nat)
    requires Inv(p, base, w) && Enabled(p, w, s) && k in Apply(p, w, s).workers
    ensures WorkerOk(p, Apply(p, w, s), Apply(p, w, s).workers[k])
  {
    match s
    case Launch(_) => MoveKeepsWorker(p, base, w, s, k);
    case Claim(_) => ClaimKeepsWorker(p, base, w, s, k);
    case Upload(_, _) => ObjectsKeepWorker(p, base, w, s, k);
    case Finish(_, _) => MoveKeepsWorker(p, base, w, s, k);
    case WriteComplete(_) => WriteKeepsWorker(p, base, w, s, k);
    case WriteFailed(_) => WriteKeepsWorker(p, base, w, s, k);
    case Announce(_) => MoveKeepsWorker(p, base, w, s, k);
    case Clean(_, _) => ObjectsKeepWorker(p, base, w, s, k);
    case Raise(_) => RaiseKeepsWorker(p, base, w, s, k);
    case Kill(_) => MoveKeepsWorker(p, base, w, s, k);
    case Beat(_, _) => OutsideKeepsWorker(p, base, w, s, k);
    case Start => OutsideKeepsWorker(p, base, w, s, k);
    case ForceFail => OutsideKeepsWorker(p, base, w, s, k);
    case DeleteRead => DeleteKeepsWorker(p, base, w, s, k);
    case DeletePurge(_) => DeleteKeepsWorker(p, base, w, s, k);
    case DeleteCommit(_) => DeleteKeepsWorker(p, base, w, s, k);
    case CloseAccount => DeleteKeepsWorker(p, base, w, s, k);
  }

  lemma ClaimIsExclusive(p: Pipeline, base: nat, w: World, s: Step, k: nat, l: nat)
    requires Inv(p, base, w) && Enabled(p, w, s)
    requires k in Apply(p, w, s).workers && l in Apply(p, w, s).workers
    requires Apply(p, w, s).workers[k].claimed && Apply(p, w, s).workers[l].claimed
    ensures k == l
  {
    if k in w.workers { assert WorkerOk(p, w, w.workers[k]); }
    if l in w.workers { assert WorkerOk(p, w, w.workers[l]); }
  }

  lemma NoticesStay(p: Pipeline, base: nat, w: World, s: Step, k: nat, st: Status)
    requires Inv(p, base, w) && Enabled(p, w, s) && (k, st) in Apply(p, w, s).notices
    ensures k in Apply(p, w, s).workers && Apply(p, w, s).workers[k].outcome == Won(st)
  {
    if k in w.workers { assert WorkerOk(p, w, w.workers[k]); }
  }

  lemma StepKeepsInv(p: Pipeline, base: nat, w: World, s: Step)
    requires Inv(p, base, w) && Enabled(p, w, s)
    ensures Inv(p, base, Apply(p, w, s))
  {
    StepKeepsRow(p, base, w, s);
    StepKeepsWorkers(p, base, w, s);
  }

  // ---------------------------------------------------------------- whole runs

  ghost predicate StepTo(p: Pipeline, w: World, w': World) {
    exists s :: Enabled(p, w, s) && w' == Apply(p, w, s)
  }

  ghost predicate StepAt(p: Pipeline, ws: seq<World>, i: nat)
    requires i < |ws| - 1
  {
    StepTo(p, ws[i], ws[i + 1])
  }

  /** Any interleaving of the steps, from a job just made. */
  ghost predicate Run(p: Pipeline, base: nat, ws: seq<World>) {
    ws != [] && Initial(base, ws[0]) && forall i: nat :: i < |ws| - 1 ==> StepAt(p, ws, i)
  }

  lemma {:induction false} RunKeepsInv(p: Pipeline, base: nat, ws: seq<World>, i: nat)
    requires Run(p, base, ws) && i < |ws|
    ensures Inv(p, base, ws[i])
  {
    if i > 0 {
      RunKeepsInv(p, base, ws, i - 1);
      assert StepAt(p, ws, i - 1);
      var s :| Enabled(p, ws[i - 1], s) && ws[i] == Apply(p, ws[i - 1], s);
      StepKeepsInv(p, base, ws[i - 1], s);
    }
  }

  /** From `w` to a later `w'`: a finished row is deleted or stays as it is; a deleted one stays so, and
      its owner is charged no more; one past `uploading` is not sent back. */
  predicate Follows(w: World, w': World) {
    (w.db.row.None? ==> w'.db == w.db) && (!StatusIs(w, Uploading) ==> !StatusIs(w', Uploading)) &&
    (w.db.row.Some? && IsTerminal(w.db.row.value.status) ==> w'.db.row.None? || w'.db.row == w.db.row) &&
    (forall k :: k in w.workers && w.workers[k].claimed ==> k in w'.workers && w'.workers[k].claimed)
  }

  lemma StepFollows(p: Pipeline, base: nat, w: World, s: Step)
    requires Inv(p, base, w) && Enabled(p, w, s)
    ensures Follows(w, Apply(p, w, s))
  {
    forall k | k in w.workers && w.workers[k].claimed
      ensures k in Apply(p, w, s).workers && Apply(p, w, s).workers[k].claimed
    {
      assert WorkerOk(p, w, w.workers[k]);
    }
  }

  lemma RunFollows(p: Pipeline, base: nat, ws: seq<World>, i: nat)
    requires Run(p, base, ws) && i < |ws| - 1
    ensures Follows(ws[i], ws[i + 1])
  {
    RunKeepsInv(p, base, ws, i);
    assert StepAt(p, ws, i);
    var s :| Enabled(p, ws[i], s) && ws[i + 1] == Apply(p, ws[i], s);
    StepFollows(p, base, ws[i], s);
  }

  lemma FollowsOn(w: World, w': World, w'': World)
    requires Follows(w, w') && Follows(w', w'')
    ensures Follows(w, w'')
  {
  }

  /** `complete` and `failed` are never left, and a job deleted is neither made again nor charged. */
  lemma {:induction false} TerminalIsNeverLeft(p: Pipeline, base: nat, ws: seq<World>, i: nat, j: nat)
    requires Run(p, base, ws) && i <= j < |ws|
    ensures Follows(ws[i], ws[j])
  {
    if i < j {
      TerminalIsNeverLeft(p, base, ws, i, j - 1);
      RunFollows(p, base, ws, j - 1);
      FollowsOn(ws[i], ws[j - 1], ws[j]);
    }
  }

  /** In a whole run only one worker ever claims the job. */
  lemma OneWorkerClaims(p: Pipeline, base: nat, ws: seq<World>, i: nat, j: nat, k: nat, l: nat)
    requires Run(p, base, ws) && i <= j < |ws|
    requires k in ws[i].workers && ws[i].workers[k].claimed && l in ws[j].workers && ws[j].workers[l].claimed
    ensures k == l
  {
    TerminalIsNeverLeft(p, base, ws, i, j);
    RunKeepsInv(p, base, ws, j);
  }

  /** A heartbeat changes no status, storage or object, and past `processing` changes nothing at all. */
  lemma HeartbeatIsHarmless(p: Pipeline, w: World, k: nat, tilesDone: nat)
    requires Enabled(p, w, Beat(k, tilesDone))
    ensures var w' := Apply(p, w, Beat(k, tilesDone));
            (w.db.row.Some? <==> w'.db.row.Some?) && w' == w.(db := w'.db) && w'.db.storage == w.db.storage &&
            (w.db.row.Some? ==> w'.db.row.value.status == w.db.row.value.status &&
                                w'.db.row.value.outputBytes == w.db.row.value.outputBytes) &&
            (!StatusIs(w, Processing) ==> w' == w)
  {
  }

  /** On a processing row it does record the count. */
  lemma HeartbeatRecords(p: Pipeline, w: World, k: nat, tilesDone: nat)
    requires p.Topo? && k in w.workers && w.workers[k].pc.Working? && StatusIs(w, Processing)
    ensures Enabled(p, w, Beat(k, tilesDone))
    ensures Apply(p, w, Beat(k, tilesDone)).db.row == Some(Row(Processing, w.db.row.value.outputBytes, tilesDone))
  {
  }

  /** The row changes status from one of `from`, and else nothing does. */
  predicate Moves(w: World, w': World, from: set<Status>, to: Status) {
    if w.db.row.Some? && w.db.row.value.status in from
    then StatusIs(w', to) && w'.db.row.value.tilesDone == w.db.row.value.tilesDone else w'.db == w.db
  }

  /** What each write of the row's status does to it. */
  lemma StatusMoves(p: Pipeline, w: World, s: Step)
    requires Enabled(p, w, s)
    ensures s.Start? ==> Moves(w, Apply(p, w, s), {Uploading}, Pending)
    ensures s.Claim? ==> Moves(w, Apply(p, w, s), {Pending}, Processing)
    ensures s.WriteComplete? ==> Moves(w, Apply(p, w, s), {Processing}, Complete)
    ensures s.WriteFailed? ==> Moves(w, Apply(p, w, s), {Processing}, Failed)
    ensures s.ForceFail? ==> Moves(w, Apply(p, w, s), {Pending, Processing}, Failed)
    ensures !s.WriteComplete? && !s.DeleteCommit? && !s.CloseAccount? && w.db.row.Some? ==>
              Apply(p, w, s).db.storage == w.db.storage &&
              Apply(p, w, s).db.row.Some? && Apply(p, w, s).db.row.value.outputBytes == w.db.row.value.outputBytes
  {
  }

  /** An upload is there, and known to be its worker's; only what is cleaned or purged goes. */
  lemma ObjectsMove(p: Pipeline, w: World, s: Step)
    requires Enabled(p, w, s)
    ensures s.Upload? ==> Apply(p, w, s).objects == w.objects + {s.key} &&
                          Apply(p, w, s).workers[s.k].uploads == w.workers[s.k].uploads + {s.key}
    ensures s.Clean? || s.DeletePurge? ==> Apply(p, w, s).objects == w.objects - s.removed
    ensures !s.Upload? && !s.Clean? && !s.DeletePurge? ==> Apply(p, w, s).objects == w.objects
  {
  }

  /** A processing job whose worker raises before it has written an outcome is written `failed`, charged
      nothing, and its owner told so. */
  lemma RaiseIsReported(p: Pipeline, w: World, k: nat)
    requires k in w.workers && StatusIs(w, Processing) && w.workers[k].outcome.Unwritten?
    requires w.workers[k].pc.Working? || (p.Topo? && w.workers[k].pc.Ready?)
    ensures Enabled(p, w, Raise(k)) &&
            var raised := Apply(p, w, Raise(k));
            raised.db == w.db && Enabled(p, raised, WriteFailed(k)) &&
            var written := Apply(p, raised, WriteFailed(k));
            StatusIs(written, Failed) && written.db.storage == w.db.storage && Enabled(p, written, Announce(k)) &&
            var told := Apply(p, written, Announce(k));
            told.db == written.db && told.notices == w.notices + {(k, Failed)}
  {
  }

  /** And one whose worker gets to the end is `complete` with its bytes, charged if it is a LiDAR job. */
  lemma CompletionIsReported(p: Pipeline, w: World, k: nat)
    requires k in w.workers && w.workers[k].pc.Ready? && StatusIs(w, Processing)
    ensures Enabled(p, w, WriteComplete(k)) &&
            var bytes, written := w.workers[k].pc.bytes, Apply(p, w, WriteComplete(k));
            StatusIs(written, Complete) && written.db.row.value.outputBytes == bytes &&
            written.db.storage == w.db.storage + (if p.Topo? then bytes else 0) &&
            Enabled(p, written, Announce(k)) &&
            var told := Apply(p, written, Announce(k));
            told.db == written.db && told.notices == w.notices + {(k, Complete)}
  {
  }

  /** One whose row is gone or was failed meanwhile writes nothing, and can leave nothing behind. */
  lemma LostIsCleaned(p: Pipeline, w: World, k: nat, s: Step)
    requires k in w.workers && !StatusIs(w, Processing)
    requires (w.workers[k].pc.Ready? && s == WriteComplete(k)) || (w.workers[k].pc.Failing? && s == WriteFailed(k))
    ensures Enabled(p, w, s) &&
            var written := Apply(p, w, s);
            written.db == w.db && written.charges == w.charges && Enabled(p, written, Clean(k, w.objects)) &&
            Apply(p, written, Clean(k, w.objects)).objects == {}
  {
  }

  /** The owner is charged a job's bytes once, when its `complete` write matched, and never
      otherwise; while the row is there, that is what its owner's storage holds of it. */
  lemma ChargedExactlyOnce(p: Pipeline, base: nat, ws: seq<World>, i: nat)
    requires Run(p, base, ws) && i < |ws|
    ensures var w := ws[i];
            (w.charges != [] <==> SomeCompleted(w)) &&
            (forall k :: k in w.workers && Completed(w.workers[k]) ==>
               w.charges == [if p.Topo? then w.workers[k].bytes else 0]) &&
            (w.db.row.Some? ==> w.db.storage == base + if w.charges != [] then w.charges[0] else 0)
  {
    RunKeepsInv(p, base, ws, i);
    var w := ws[i];
    forall k | k in w.workers && Completed(w.workers[k])
      ensures w.charges == [if p.Topo? then w.workers[k].bytes else 0]
    {
      assert WorkerOk(p, w, w.workers[k]);
    }
    if c :| c in w.workers && Completed(w.workers[c]) {
      assert WorkerOk(p, w, w.workers[c]);
    }
  }

  // ---------------------------------------------------------------- giving it back

  /** A delete gives back exactly the charge if and only if the bytes it read are the row's when it
      commits; what it misses stays charged. */
  lemma RefundIsExactIff(p: Pipeline, base: nat, ws: seq<World>, i: nat, bytes: nat)
    requires Run(p, base, ws) && i < |ws| && Enabled(p, ws[i], DeleteCommit(bytes))
    ensures var charged, refund := if p.Topo? then ws[i].db.row.value.outputBytes else 0, if p.Topo? then bytes else 0;
            var left := Apply(p, ws[i], DeleteCommit(bytes)).db.storage;
            left == base + charged - refund && (left == base <==> refund == charged)
  {
    RunKeepsInv(p, base, ws, i);
  }

  /** So a delete that reads a finished row is always exact, whatever comes before it commits. */
  lemma FinishedReadRefunds(p: Pipeline, base: nat, ws: seq<World>, i: nat, j: nat)
    requires Run(p, base, ws) && i <= j < |ws|
    requires ws[i].db.row.Some? && IsTerminal(ws[i].db.row.value.status)
    requires Enabled(p, ws[j], DeleteCommit(ws[i].db.row.value.outputBytes))
    ensures Apply(p, ws[j], DeleteCommit(ws[i].db.row.value.outputBytes)).db.storage == base
  {
    TerminalIsNeverLeft(p, base, ws, i, j);
    RefundIsExactIff(p, base, ws, j, ws[i].db.row.value.outputBytes);
  }

  /** And `DELETE`, which cancels a started job before it reads its bytes, reads a finished row: only
      one that first `found` it `uploading` may not. */
  lemma CancelledIsFinished(p: Pipeline, base: nat, ws: seq<World>, found: nat, i: nat, j: nat)
    requires Run(p, base, ws) && found <= i < j < |ws| && !StatusIs(ws[found], Uploading)
    requires ws[i + 1] == Apply(p, ws[i], ForceFail)
    ensures ws[j].db.row.None? || IsTerminal(ws[j].db.row.value.status)
  {
    TerminalIsNeverLeft(p, base, ws, found, i);
    TerminalIsNeverLeft(p, base, ws, i + 1, j);
  }

  /** Step `n` of a delete that overtakes the job it deletes. */
  function EarlyRead(bytes: nat, n: nat): Step {
    match n
    case 0 => DeleteRead
    case 1 => Start
    case 2 => Launch(0)
    case 3 => Claim(0)
    case 4 => Finish(0, bytes)
    case 5 => WriteComplete(0)
    case _ => DeleteCommit(0)
  }

  /** The world before that step. */
  function EarlyWorld(base: nat, bytes: nat, n: nat): World {
    var read, charged := if n == 0 then {} else {0}, if n < 6 then base else base + bytes;
    var status := if n < 2 then Uploading else if n < 4 then Pending else if n < 6 then Processing else Complete;
    var row := if n > 6 then None else Some(Row(status, if n < 6 then 0 else bytes, 0));
    var pc := if n == 3 then Starting else if n == 4 then Working else if n == 5 then Ready(bytes) else Announcing;
    var worker := Worker(pc, n > 3, if n < 6 then Unwritten else Won(Complete), if n < 6 then 0 else bytes, {});
    World(Db(row, charged), {}, if n < 3 then map[] else map[0 := worker], {}, read, if n < 6 then [] else [bytes])
  }

  lemma EarlyStep(base: nat, bytes: nat, n: nat)
    requires n < 7
    ensures var w, s := EarlyWorld(base, bytes, n), EarlyRead(bytes, n);
            Enabled(Topo, w, s) && Apply(Topo, w, s) == EarlyWorld(base, bytes, n + 1)
  {
  }

  /** It does happen: a delete that reads a row still uploading, and commits after the job completed,
      leaves the whole charge on the owner with no job to show for it. */
  lemma EarlyReadKeepsTheCharge(base: nat, bytes: nat)
    ensures exists ws: seq<World> :: Run(Topo, base, ws) && ws[|ws| - 1].db == Db(None, base + bytes)
  {
    var ws := seq(8, n requires 0 <= n < 8 => EarlyWorld(base, bytes, n));
    forall n: nat | n < 7 ensures StepAt(Topo, ws, n) {
      EarlyStep(base, bytes, n);
      assert StepTo(Topo, ws[n], ws[n + 1]);
    }
    assert Run(Topo, base, ws);
  }

  /** A complete job keeps every archive its worker uploaded, until its owner deletes it: no worker
      step takes one away, the exceptions after the flip included. */
  lemma CompleteKeepsItsArchives(p: Pipeline, base: nat, ws: seq<World>, i: nat, k: nat)
    requires Run(p, base, ws) && i < |ws| && StatusIs(ws[i], Complete) && k in ws[i].workers
    ensures ws[i].deleting == {} ==> ws[i].workers[k].uploads <= ws[i].objects
    ensures forall s :: Enabled(p, ws[i], s) && !s.DeletePurge? ==> ws[i].objects <= Apply(p, ws[i], s).objects
  {
    RunKeepsInv(p, base, ws, i);
    var w := ws[i];
    forall l | l in w.workers ensures WorkerOk(p, w, w.workers[l]) && !w.workers[l].pc.Cleaning? {
      assert WorkerOk(p, w, w.workers[l]);
    }
  }

  /** A worker whose terminal write matched no row tells no one, and ends by cleaning the prefix
      unless it is killed first. */
  lemma LostIsCleanedAndSilent(p: Pipeline, base: nat, ws: seq<World>, i: nat, k: nat)
    requires Run(p, base, ws) && i < |ws| && k in ws[i].workers && ws[i].workers[k].outcome.Lost?
    ensures ws[i].workers[k].pc in {Cleaning, Exited(Cleaned), Exited(Killed)}
    ensures forall s :: (k, s) !in ws[i].notices
    ensures Dead(ws[i])
  {
    RunKeepsInv(p, base, ws, i);
    assert WorkerOk(p, ws[i], ws[i].workers[k]);
  }

  /** A notice says what the row said when its worker's write matched, and still says unless deleted. */
  lemma NoticesAreTrue(p: Pipeline, base: nat, ws: seq<World>, i: nat, k: nat, s: Status)
    requires Run(p, base, ws) && i < |ws| && (k, s) in ws[i].notices
    ensures IsTerminal(s) && (ws[i].db.row.None? || StatusIs(ws[i], s))
  {
    RunKeepsInv(p, base, ws, i);
    assert WorkerOk(p, ws[i], ws[i].workers[k]);
  }
}
