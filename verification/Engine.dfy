/** Whole runs of the transaction layer: transaction_manager.cpp driving the lock table, the tables and
    the log, one latched call per step, in any interleaving. */
module Engine {
  import opened Types
  import opened Locking
  import opened LogCodec
  import opened Recovery

  /** CommitLogged and AbortLogged: the end record is in the log, its flush has not returned yet. */
  datatype Status = Running | Aborting | CommitLogged | Done | AbortLogged | RolledBack

  /** Where a running transaction stands between the separate latched calls of one row operation. An update or delete
      logs, flushes and then changes the heap; an insert changes the heap, then logs, then flushes. */
  datatype Phase =
    | Ready
    | ChangeLogged(tab: TableName, rid: Rid, before: Record, image: Option<Record>)
    | ChangeFlushed(tab: TableName, rid: Rid, before: Record, image: Option<Record>)
    | Inserted(tab: TableName, rid: Rid, value: Record)
    | InsertLogged(tab: TableName, rid: Rid, value: Record)

  /** What a transaction did, as a serial replay would have to reproduce it. */
  datatype Op =
    | ReadOp(tab: TableName, rid: Rid, seen: Option<Record>)
    | ScanOp(tab: TableName, all: Table)
    | WriteOp(tab: TableName, rid: Rid, image: Option<Record>)

  datatype Txn = Txn(status: Status, phase: Phase, ops: seq<Op>, undo: seq<WriteRecord>, prevLsn: int)

  datatype CommittedTxn = CommittedTxn(tid: TxnId, ops: seq<Op>)

  type Db = map<TableName, Table>

  /** history and ops are the observer's record of the run; everything else is engine state.
      The first `durable` log records are on disk, the rest are in the log buffer. */
  datatype State = State(locks: LockState, db: Db, txns: map<TxnId, Txn>, log: Log, durable: nat,
                         history: seq<CommittedTxn>)

  function Initial(db: Db): State {
    State(LockState(map[], map[]), db, map[], [], 0, [])
  }

  datatype Step =
    | Begin(t: TxnId)
    | LockItem(t: TxnId, id: LockDataId, mode: LockMode)
    | Read(t: TxnId, tab: TableName, rid: Rid)
    | Scan(t: TxnId, tab: TableName)
    | LogChange(t: TxnId, tab: TableName, rid: Rid, image: Option<Record>)
    | ApplyChange(t: TxnId)
    | RefuseChange(t: TxnId)
    | InsertHeap(t: TxnId, tab: TableName, rid: Rid, value: Record)
    | LogInsert(t: TxnId)
    | LogCommit(t: TxnId)
    | StartAbort(t: TxnId)
    | UndoOne(t: TxnId)
    | LogAbort(t: TxnId)
    | Flush(t: TxnId)
    | Unlock(t: TxnId, id: LockDataId)
    | FlushBuffer

  predicate IsRunning(e: State, t: TxnId) { t in e.txns && e.txns[t].status == Running }

  /** Running and between two row operations. */
  predicate IsReady(e: State, t: TxnId) { IsRunning(e, t) && e.txns[t].phase == Ready }

  /** Begun and not yet past its commit or abort record. */
  predicate Live(e: State, t: TxnId) { t in e.txns && (e.txns[t].status == Running || e.txns[t].status == Aborting) }

  /** Its commit record is in the log. */
  predicate HasCommitted(x: Txn) { x.status == CommitLogged || x.status == Done }

  predicate XHeld(e: State, t: TxnId, tab: TableName) {
    HeldMode(e.locks.table, t, TableLock(tab)) == Some(Exclusive)
  }

  predicate RHeld(e: State, t: TxnId, tab: TableName) {
    HeldMode(e.locks.table, t, TableLock(tab)) == Some(Shared) || XHeld(e, t, tab)
  }

  /** The executors' discipline: S or X requests only, reads under a table S lock, writes under a table X lock, and each
      transaction's calls in program order. FlushBuffer is anybody else's flush. */
  predicate Enabled(e: State, s: Step) {
    match s
    case Begin(t) => t !in e.txns
    case LockItem(t, _, mode) => IsReady(e, t) && (mode == Shared || mode == Exclusive)
    case Read(t, tab, _) => IsReady(e, t) && tab in e.db && RHeld(e, t, tab)
    case Scan(t, tab) => IsReady(e, t) && tab in e.db && RHeld(e, t, tab)
    case LogChange(t, tab, rid, _) => IsReady(e, t) && tab in e.db && XHeld(e, t, tab) && rid in e.db[tab]
    case ApplyChange(t) => IsRunning(e, t) && e.txns[t].phase.ChangeFlushed? && e.txns[t].phase.tab in e.db
    case RefuseChange(t) => IsRunning(e, t) && e.txns[t].phase.ChangeFlushed? && e.txns[t].phase.image.Some?
    case InsertHeap(t, tab, rid, _) => IsReady(e, t) && tab in e.db && XHeld(e, t, tab) && rid !in e.db[tab]
    case LogInsert(t) => IsRunning(e, t) && e.txns[t].phase.Inserted?
    case LogCommit(t) => IsReady(e, t)
    case StartAbort(t) => IsReady(e, t)
    case UndoOne(t) => t in e.txns && e.txns[t].status == Aborting && e.txns[t].undo != [] &&
                       e.txns[t].undo[|e.txns[t].undo| - 1].tab in e.db
    case LogAbort(t) => t in e.txns && e.txns[t].status == Aborting && e.txns[t].undo == []
    case Flush(t) => t in e.txns && Flushable(e.txns[t])
    case Unlock(t, id) => t in e.txns && (e.txns[t].status == Done || e.txns[t].status == RolledBack)
      && id in SetOf(e.locks, t)
    case FlushBuffer => true
  }

  /** The transaction's next call is flush_log_to_disk. */
  predicate Flushable(x: Txn) {
    x.status == CommitLogged || x.status == AbortLogged
    || (x.status == Running && (x.phase.ChangeLogged? || x.phase.InsertLogged?))
  }

  /** Where the transaction stands when its flush returns. */
  function AfterFlush(x: Txn): Txn
    requires Flushable(x)
  {
    if x.status == CommitLogged then x.(status := Done)
    else if x.status == AbortLogged then x.(status := RolledBack)
    else if x.phase.InsertLogged? then x.(phase := Ready)
    else x.(phase := ChangeFlushed(x.phase.tab, x.phase.rid, x.phase.before, x.phase.image))
  }

  function SetTxn(e: State, t: TxnId, x: Txn): State { e.(txns := e.txns[t := x]) }

  /** add_log_to_buffer: the record joins the log, linked to the transaction's previous one; it is not on disk yet. */
  function AppendLog(e: State, t: TxnId, body: LogBody): State
    requires t in e.txns
  {
    e.(log := e.log + [LogRecord(|e.log|, e.txns[t].prevLsn, t, body)],
      txns := e.txns[t := e.txns[t].(prevLsn := |e.log|)])
  }

  /** The rollback record of a write that replaced `before` by `image`. */
  function UndoRecordOf(tab: TableName, rid: Rid, before: Option<Record>, image: Option<Record>): WriteRecord {
    if before.None? then InsertTuple(tab, rid)
    else if image.None? then DeleteTuple(tab, rid, before.value)
    else UpdateTuple(tab, rid, before.value)
  }

  function LogBodyOf(tab: TableName, rid: Rid, before: Option<Record>, image: Option<Record>): (b: LogBody)
    requires before.Some? || image.Some?
    ensures IsData(b) && b.tab == tab && b.rid == rid && Before(b) == before && After(b) == image
  {
    if before.None? then InsertBody(image.value, rid, tab)
    else if image.None? then DeleteBody(before.value, rid, tab)
    else UpdateBody(before.value, image.value, rid, tab)
  }

  /** One iteration of abort()'s loop, on the table it concerns. */
  function UndoWrite(t: Table, w: WriteRecord): Table {
    match w
    case InsertTuple(_, rid) => t - {rid}
    case DeleteTuple(_, rid, prior) => t[rid := prior]
    case UpdateTuple(_, rid, prior) => t[rid := prior]
  }

  /** The iteration raises no error: a restoring insert finds its slot free, a restoring update finds its record. */
  predicate UndoDefined(t: Table, w: WriteRecord) {
    match w
    case InsertTuple(_, _) => true
    case DeleteTuple(_, rid, _) => rid !in t
    case UpdateTuple(_, rid, _) => rid in t
  }

  /** The transaction after its row operation changed the heap. */
  function Wrote(x: Txn, tab: TableName, rid: Rid, before: Option<Record>, image: Option<Record>, phase: Phase): Txn {
    x.(phase := phase, ops := x.ops + [WriteOp(tab, rid, image)], undo := x.undo
      + [UndoRecordOf(tab, rid, before, image)])
  }

  function Do(e: State, s: Step): State
    requires Enabled(e, s)
  {
    match s
    case Begin(t) => AppendLog(SetTxn(e, t, Txn(Running, Ready, [], [], INVALID_LSN)), t, BeginBody)
    case LockItem(t, id, mode) =>
      if Acquire(e.locks.table, t, id, mode).None? then SetTxn(e, t, e.txns[t].(status := Aborting))
      else e.(locks := DoLock(e.locks, t, id, mode))
    case Read(t, tab, rid) =>
      SetTxn(e, t, e.txns[t].(ops := e.txns[t].ops + [ReadOp(tab, rid, Lookup(e.db[tab], rid))]))
    case Scan(t, tab) => SetTxn(e, t, e.txns[t].(ops := e.txns[t].ops + [ScanOp(tab, e.db[tab])]))
    case LogChange(t, tab, rid, image) =>
      var before := e.db[tab][rid];
      AppendLog(SetTxn(e, t, e.txns[t].(phase := ChangeLogged(tab, rid, before, image))), t,
                LogBodyOf(tab, rid, Some(before), image))
    case ApplyChange(t) =>
      var p := e.txns[t].phase;
      SetTxn(e, t, Wrote(e.txns[t], p.tab, p.rid, Some(p.before), p.image,
        Ready)).(db := e.db[p.tab := Put(e.db[p.tab], p.rid, p.image)])
    case RefuseChange(t) =>
      var p := e.txns[t].phase;
      SetTxn(e, t, e.txns[t].(status := Aborting, phase := Ready,
                              undo := e.txns[t].undo + [UndoRecordOf(p.tab, p.rid, Some(p.before), p.image)]))
    case InsertHeap(t, tab, rid, value) =>
      SetTxn(e, t, Wrote(e.txns[t], tab, rid, None, Some(value),
        Inserted(tab, rid, value))).(db := e.db[tab := e.db[tab][rid := value]])
    case LogInsert(t) =>
      var p := e.txns[t].phase;
      AppendLog(SetTxn(e, t, e.txns[t].(phase := InsertLogged(p.tab, p.rid, p.value))), t,
                LogBodyOf(p.tab, p.rid, None, Some(p.value)))
    case LogCommit(t) =>
      AppendLog(SetTxn(e, t, e.txns[t].(status := CommitLogged)), t, CommitBody).(
        history := e.history + [CommittedTxn(t, e.txns[t].ops)])
    case StartAbort(t) => SetTxn(e, t, e.txns[t].(status := Aborting))
    case UndoOne(t) =>
      var n := |e.txns[t].undo| - 1;
      var w := e.txns[t].undo[n];
      SetTxn(e, t, e.txns[t].(undo := e.txns[t].undo[..n])).(db := e.db[w.tab := UndoWrite(e.db[w.tab], w)])
    case LogAbort(t) => AppendLog(SetTxn(e, t, e.txns[t].(status := AbortLogged)), t, AbortBody)
    case Flush(t) => SetTxn(e, t, AfterFlush(e.txns[t])).(durable := |e.log|)
    case Unlock(t, id) => e.(locks := DoUnlock(e.locks, t, id))
    case FlushBuffer => e.(durable := |e.log|)
  }

  /** A run: the states visited by the given steps, every one of them enabled when taken. */
  ghost predicate IsRun(init: Db, steps: seq<Step>, states: seq<State>) {
    && |states| == |steps| + 1
    && states[0] == Initial(init)
    && (forall i :: 0 <= i < |steps| ==> Enabled(states[i], steps[i]) && states[i + 1] == Do(states[i], steps[i]))
  }

  // ------------------------------------------------------------------- serial replay

  function ApplyOps(t: Table, ops: seq<Op>, tab: TableName): Table {
    if ops == [] then t
    else
      var n := |ops| - 1;
      var t' := ApplyOps(t, ops[..n], tab);
      if ops[n].WriteOp? && ops[n].tab == tab then Put(t', ops[n].rid, ops[n].image) else t'
  }

  /** One table after running the committed transactions one after the other, in commit order. */
  function Replay(t: Table, history: seq<CommittedTxn>, tab: TableName): Table {
    if history == [] then t
    else ApplyOps(Replay(t, history[..|history| - 1], tab), history[|history| - 1].ops, tab)
  }

  /** Undoing a write set, newest first, on one table. */
  function RollBack(t: Table, undo: seq<WriteRecord>, tab: TableName): Table
    decreases |undo|
  {
    if undo == [] then t
    else
      var n := |undo| - 1;
      RollBack(if undo[n].tab == tab then UndoWrite(t, undo[n]) else t, undo[..n], tab)
  }

  predicate RollBackDefined(t: Table, undo: seq<WriteRecord>, tab: TableName)
    decreases |undo|
  {
    undo != [] ==>
      var n := |undo| - 1;
      if undo[n].tab == tab then UndoDefined(t, undo[n]) && RollBackDefined(UndoWrite(t, undo[n]), undo[..n], tab)
      else RollBackDefined(t, undo[..n], tab)
  }

  /** The i-th operation, if it is a read, saw what a serial run from `base` shows it at that point. */
  predicate SeenOk(base: Db, ops: seq<Op>, i: nat)
    requires i < |ops|
  {
    ops[i].tab in base &&
    match ops[i]
    case ReadOp(tab, rid, seen) => seen == Lookup(ApplyOps(base[tab], ops[..i], tab), rid)
    case ScanOp(tab, all) => all == ApplyOps(base[tab], ops[..i], tab)
    case WriteOp(_, _, _) => true
  }

  ghost predicate ReadsOk(base: Db, ops: seq<Op>) {
    forall i :: 0 <= i < |ops| ==> SeenOk(base, ops, i)
  }

  /** The database after a serial run of a history. */
  function Serial(init: Db, history: seq<CommittedTxn>): Db {
    map tab | tab in init :: Replay(init[tab], history, tab)
  }

  lemma ApplySnoc(t: Table, ops: seq<Op>, op: Op, tab: TableName)
    ensures ApplyOps(t, ops + [op], tab) ==
            (var t' := ApplyOps(t, ops, tab);
             if op.WriteOp? && op.tab == tab then Put(t', op.rid, op.image) else t')
  {
    assert (ops + [op])[..|ops|] == ops;
  }

  lemma RollBackSnoc(t: Table, undo: seq<WriteRecord>, w: WriteRecord, tab: TableName)
    ensures RollBack(t, undo + [w], tab) == RollBack(if w.tab == tab then UndoWrite(t, w) else t, undo, tab)
    ensures RollBackDefined(t, undo + [w], tab) <==>
            if w.tab == tab then UndoDefined(t, w) && RollBackDefined(UndoWrite(t, w), undo, tab)
            else RollBackDefined(t, undo, tab)
  {
    assert (undo + [w])[..|undo|] == undo;
  }

  lemma {:induction false} ApplyNoWrites(t: Table, ops: seq<Op>, tab: TableName)
    requires forall i :: 0 <= i < |ops| && ops[i].WriteOp? ==> ops[i].tab != tab
    ensures ApplyOps(t, ops, tab) == t
  {
    if ops == [] {
    } else {
      ApplyNoWrites(t, ops[..|ops| - 1], tab);
    }
  }

  lemma {:induction false} RollBackNoWrites(t: Table, undo: seq<WriteRecord>, tab: TableName)
    requires forall i :: 0 <= i < |undo| ==> undo[i].tab != tab
    ensures RollBack(t, undo, tab) == t && RollBackDefined(t, undo, tab)
    decreases |undo|
  {
    if undo == [] {
    } else {
      RollBackNoWrites(t, undo[..|undo| - 1], tab);
    }
  }

  /** A write is undone by its rollback record. */
  lemma UndoOfWrite(t: Table, tab: TableName, rid: Rid, image: Option<Record>)
    requires image.Some? || rid in t
    ensures var w := UndoRecordOf(tab, rid, Lookup(t, rid), image);
      w.tab == tab && UndoDefined(Put(t, rid, image), w) && UndoWrite(Put(t, rid, image), w) == t
  {
    var w := UndoRecordOf(tab, rid, Lookup(t, rid), image);
    assert UndoWrite(Put(t, rid, image), w) == t;
  }

  lemma ReadsOkSnoc(base: Db, ops: seq<Op>, op: Op)
    requires ReadsOk(base, ops)
    requires SeenOk(base, ops + [op], |ops|)
    ensures ReadsOk(base, ops + [op])
  {
    forall i | 0 <= i < |ops| ensures SeenOk(base, ops + [op], i) {
      assert SeenOk(base, ops, i);
      assert (ops + [op])[..i] == ops[..i];
    }
  }

  lemma ReadsOkSameTables(a: Db, b: Db, ops: seq<Op>)
    requires ReadsOk(a, ops)
    requires forall i :: 0 <= i < |ops| ==> ops[i].tab in b && (ops[i].tab in a ==> a[ops[i].tab] == b[ops[i].tab])
    ensures ReadsOk(b, ops)
  {
    forall i | 0 <= i < |ops| ensures SeenOk(b, ops, i) { assert SeenOk(a, ops, i); }
  }
}
