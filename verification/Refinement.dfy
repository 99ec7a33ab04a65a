/** The objects refine the state machine: each row operation, commit, abort and lock call changes the tables, the write
    set, the log and the lock table exactly as the corresponding steps of Engine do. */
module Refinement {
  import opened Types
  import opened Locking
  import opened LogCodec
  import opened Recovery
  import opened Engine
  import Heap
  import HeapRollback
  import Relations
  import SystemManagement

  /** What the objects show to one transaction: the tables, its write set and last lsn, the log, the lock table and its
      lock set. */
  datatype View = View(rels: map<TableName, Relations.Rel>, writes: seq<WriteRecord>, prevLsn: int, log: Log,
                       locks: LockTable, lockSet: set<LockDataId>)

  ghost predicate Shows(e: State, t: TxnId, v: View) {
    && t in e.txns && ShowsTables(e, v.rels)
    && e.txns[t].undo == v.writes && e.txns[t].prevLsn == v.prevLsn && e.log == v.log
    && e.locks.table == v.locks && SetOf(e.locks, t) == v.lockSet
  }

  ghost predicate ShowsTables(e: State, rels: map<TableName, Relations.Rel>) {
    e.db.Keys == rels.Keys && forall tab :: tab in rels ==> e.db[tab] == Heap.Contents(rels[tab].file)
  }

  /** The view after a record of the transaction was logged. */
  function Logged(v: View, t: TxnId, body: LogBody): View {
    v.(log := v.log + [LogRecord(|v.log|, v.prevLsn, t, body)], prevLsn := |v.log|)
  }

  /** The states after taking the steps one after the other. */
  ghost predicate Takes(e: State, steps: seq<Step>, e': State)
    decreases |steps|
  {
    if steps == [] then e' == e
    else Enabled(e, steps[0]) && Takes(Do(e, steps[0]), steps[1..], e')
  }

  /** The record that t logs next. */
  function NextRecord(e: State, t: TxnId, body: LogBody): LogRecord
    requires t in e.txns
  {
    LogRecord(|e.log|, e.txns[t].prevLsn, t, body)
  }

  ghost predicate Writes(e: State, t: TxnId, rels: map<TableName, Relations.Rel>, tab: TableName) {
    IsReady(e, t) && tab in rels && tab in e.db && XHeld(e, t, tab) && Relations.RelOk(rels[tab])
  }

  lemma OneStep(e: State, a: Step)
    requires Enabled(e, a)
    ensures Takes(e, [a], Do(e, a))
  {
    hide Do;
    hide Enabled;
    assert [a][1..] == [];
  }

  lemma TwoSteps(e: State, a: Step, b: Step)
    requires Enabled(e, a) && Enabled(Do(e, a), b)
    ensures Takes(e, [a, b], Do(Do(e, a), b))
  {
    hide Do;
    hide Enabled;
    OneStep(Do(e, a), b);
    assert [a, b][1..] == [b];
  }

  lemma ThreeSteps(e: State, a: Step, b: Step, c: Step)
    requires Enabled(e, a) && Enabled(Do(e, a), b) && Enabled(Do(Do(e, a), b), c)
    ensures Takes(e, [a, b, c], Do(Do(Do(e, a), b), c))
  {
    hide Do;
    hide Enabled;
    TwoSteps(Do(e, a), b, c);
    assert [a, b, c][1..] == [b, c];
  }

  /** A whole insert of the engine. */
  lemma InsertSteps(e: State, t: TxnId, tab: TableName, rid: Rid, v: Record) returns (e': State)
    requires Enabled(e, InsertHeap(t, tab, rid, v))
    ensures Takes(e, [InsertHeap(t, tab, rid, v), LogInsert(t), Flush(t)], e')
    ensures e'.db == e.db[tab := e.db[tab][rid := v]] && e'.locks == e.locks && e'.durable == |e'.log|
    ensures e'.log == e.log + [NextRecord(e, t, InsertBody(v, rid, tab))]
    ensures IsReady(e', t) && e'.txns[t].undo == e.txns[t].undo + [InsertTuple(tab, rid)]
      && e'.txns[t].prevLsn == |e.log|
  {
    hide HeldMode;
    e' := Do(Do(Do(e, InsertHeap(t, tab, rid, v)), LogInsert(t)), Flush(t));
    ThreeSteps(e, InsertHeap(t, tab, rid, v), LogInsert(t), Flush(t));
  }

  /** The log half of a change, the same for a made and a refused one. */
  lemma LogSteps(e: State, t: TxnId, tab: TableName, rid: Rid, image: Option<Record>) returns (e2: State)
    requires Enabled(e, LogChange(t, tab, rid, image))
    ensures Enabled(Do(e, LogChange(t, tab, rid, image)), Flush(t))
      && e2 == Do(Do(e, LogChange(t, tab, rid, image)), Flush(t))
    ensures e2.db == e.db && e2.locks == e.locks && e2.durable == |e2.log|
    ensures e2.log == e.log + [NextRecord(e, t, LogBodyOf(tab, rid, Some(e.db[tab][rid]), image))]
    ensures IsRunning(e2, t) && e2.txns[t].phase == ChangeFlushed(tab, rid, e.db[tab][rid], image)
    ensures e2.txns[t].undo == e.txns[t].undo && e2.txns[t].prevLsn == |e.log|
  {
    hide HeldMode;
    hide LogBodyOf;
    e2 := Do(Do(e, LogChange(t, tab, rid, image)), Flush(t));
  }

  /** A whole update or delete of the engine. */
  lemma ChangeSteps(e: State, t: TxnId, tab: TableName, rid: Rid, image: Option<Record>) returns (e': State)
    requires Enabled(e, LogChange(t, tab, rid, image))
    ensures Takes(e, [LogChange(t, tab, rid, image), Flush(t), ApplyChange(t)], e')
    ensures e'.db == e.db[tab := Put(e.db[tab], rid, image)] && e'.locks == e.locks && e'.durable == |e'.log|
    ensures e'.log == e.log + [NextRecord(e, t, LogBodyOf(tab, rid, Some(e.db[tab][rid]), image))]
    ensures IsReady(e', t) && e'.txns[t].prevLsn == |e.log|
    ensures e'.txns[t].undo == e.txns[t].undo + [UndoRecordOf(tab, rid, Some(e.db[tab][rid]), image)]
  {
    hide HeldMode;
    hide LogBodyOf;
    hide UndoRecordOf;
    hide Put;
    var e2 := LogSteps(e, t, tab, rid, image);
    e' := Do(e2, ApplyChange(t));
    ThreeSteps(e, LogChange(t, tab, rid, image), Flush(t), ApplyChange(t));
  }

  /** A refused update of the engine. */
  lemma RefusedSteps(e: State, t: TxnId, tab: TableName, rid: Rid, v: Record) returns (e': State)
    requires Enabled(e, LogChange(t, tab, rid, Some(v)))
    ensures Takes(e, [LogChange(t, tab, rid, Some(v)), Flush(t), RefuseChange(t)], e')
    ensures e'.db == e.db && e'.locks == e.locks && e'.durable == |e'.log|
    ensures e'.log == e.log + [NextRecord(e, t, LogBodyOf(tab, rid, Some(e.db[tab][rid]), Some(v)))]
    ensures t in e'.txns && e'.txns[t].status == Aborting && e'.txns[t].prevLsn == |e.log|
    ensures e'.txns[t].undo == e.txns[t].undo + [UndoRecordOf(tab, rid, Some(e.db[tab][rid]), Some(v))]
  {
    hide HeldMode;
    hide LogBodyOf;
    hide UndoRecordOf;
    var e2 := LogSteps(e, t, tab, rid, Some(v));
    e' := Do(e2, RefuseChange(t));
    ThreeSteps(e, LogChange(t, tab, rid, Some(v)), Flush(t), RefuseChange(t));
  }

  // ---------------------------------------------------------------------------------- reads

  /** A transaction that holds S or X on the table can read any rid of it, and sees what get_record returns. */
  lemma ReadRefines(e: State, t: TxnId, v: View, tab: TableName, rid: Rid) returns (e': State)
    requires Shows(e, t, v) && IsReady(e, t) && tab in v.rels && Heap.FileOk(v.rels[tab].file)
    requires XHeld(e, t, tab) || HeldMode(v.locks, t, TableLock(tab)) == Some(Shared)
    ensures Takes(e, [Read(t, tab, rid)], e') && Shows(e', t, v) && IsReady(e', t)
    ensures e'.txns[t].ops == e.txns[t].ops + [ReadOp(tab, rid, Heap.GetRecord(v.rels[tab].file, rid))]
  {
    hide HeldMode;
    hide Heap.Contents;
    hide Heap.FileOk;
    Heap.ContentsAt(v.rels[tab].file, rid);
    e' := Do(e, Read(t, tab, rid));
    OneStep(e, Read(t, tab, rid));
  }

  /** A transaction that holds S or X on the table can scan it, and sees its contents. */
  lemma ScanRefines(e: State, t: TxnId, v: View, tab: TableName) returns (e': State)
    requires Shows(e, t, v) && IsReady(e, t) && tab in v.rels
    requires XHeld(e, t, tab) || HeldMode(v.locks, t, TableLock(tab)) == Some(Shared)
    ensures Takes(e, [Scan(t, tab)], e') && Shows(e', t, v) && IsReady(e', t)
    ensures e'.txns[t].ops == e.txns[t].ops + [ScanOp(tab, Heap.Contents(v.rels[tab].file))]
  {
    hide HeldMode;
    hide Heap.Contents;
    e' := Do(e, Scan(t, tab));
    OneStep(e, Scan(t, tab));
  }

  // -------------------------------------------------------------------------- row operations

  /** TableStore.InsertRow is heap insert, log, flush. */
  lemma InsertRefines(e: State, t: TxnId, v: View, tab: TableName, buf: Record) returns (e': State)
    requires Shows(e, t, v) && Writes(e, t, v.rels, tab) && |buf| == v.rels[tab].recSize
    requires Relations.Usable(v.rels[tab].indexes, buf)
    requires Relations.Decide(v.rels[tab], Relations.InsertStmt(buf)).Some?
    ensures var rel, a := v.rels[tab], HeapRollback.InsertRow(buf);
      && Relations.Applicable(rel, a)
      && Takes(e, [InsertHeap(t, tab, Heap.InsertRecord(rel.file, buf).1.value, buf), LogInsert(t), Flush(t)], e')
      && Shows(e', t, Logged(v, t, SystemManagement.RowBody(rel.file, a, buf, tab)).(
                 rels := v.rels[tab := Relations.Execute(rel, a)],
                 writes := v.writes + [HeapRollback.Remember(rel.file, a, tab)]))
      && e'.durable == |e'.log| && IsReady(e', t)
  {
    hide Heap.Contents;
    hide Heap.InsertRecord;
    hide Relations.RelOk;
    hide Relations.Indexed;
    hide HeldMode;
    hide Takes;
    hide Do;
    var rel, a := v.rels[tab], HeapRollback.InsertRow(buf);
    FileIsOk(rel);
    Relations.ExecuteKeepsOk(rel, Relations.InsertStmt(buf));
    Relations.PerformContents(rel.file, a);
    var rid := Heap.InsertRecord(rel.file, buf).1.value;
    e' := InsertSteps(e, t, tab, rid, buf);
  }

  lemma FileIsOk(rel: Relations.Rel)
    requires Relations.RelOk(rel)
    ensures Heap.FileOk(rel.file)
  {
  }

  /** TableStore.DeleteRow, and UpdateRow when it is not refused: log, flush, heap change. */
  lemma ChangeRefines(e: State, t: TxnId, v: View, tab: TableName, s: Relations.Stmt) returns (e': State)
    requires Shows(e, t, v) && Writes(e, t, v.rels, tab) && Relations.RightSize(v.rels[tab], s)
    requires !s.InsertStmt? && (s.UpdateStmt? ==> Relations.Usable(v.rels[tab].indexes, s.buf))
    requires var d := Relations.Decide(v.rels[tab], s); d.Some? && !d.value.UpdateRefused?
    ensures var rel, a := v.rels[tab], Relations.Decide(v.rels[tab], s).value;
      && Relations.Applicable(rel, a)
      && Takes(e, [LogChange(t, tab, s.rid, if s.UpdateStmt? then Some(s.buf) else None), Flush(t), ApplyChange(t)], e')
      && Shows(e', t, Logged(v, t, SystemManagement.RowBody(rel.file, a, [], tab)).(
                 rels := v.rels[tab := Relations.Execute(rel, a)],
                 writes := v.writes + [HeapRollback.Remember(rel.file, a, tab)]))
      && e'.durable == |e'.log| && IsReady(e', t)
  {
    hide Heap.Contents;
    hide Heap.DeleteRecord;
    hide Heap.UpdateRecord;
    hide Relations.RelOk;
    hide Relations.Indexed;
    hide Relations.AnyDuplicate;
    hide HeldMode;
    hide Takes;
    hide Do;
    var rel, a := v.rels[tab], Relations.Decide(v.rels[tab], s).value;
    FileIsOk(rel);
    Relations.ExecuteKeepsOk(rel, s);
    Relations.PerformContents(rel.file, a);
    var image := if s.UpdateStmt? then Some(s.buf) else None;
    e' := ChangeSteps(e, t, tab, s.rid, image);
  }

  /** A refused TableStore.UpdateRow: log, flush, and the transaction turns to abort with the change remembered. */
  lemma RefusedRefines(e: State, t: TxnId, v: View, tab: TableName, rid: Rid, buf: Record) returns (e': State)
    requires Shows(e, t, v) && Writes(e, t, v.rels, tab) && |buf| == v.rels[tab].recSize
    requires Relations.Usable(v.rels[tab].indexes, buf)
    requires Relations.Decide(v.rels[tab], Relations.UpdateStmt(rid, buf)) == Some(HeapRollback.UpdateRefused(rid))
    ensures var rel, a := v.rels[tab], HeapRollback.UpdateRefused(rid);
      && Relations.Applicable(rel, a)
      && Takes(e, [LogChange(t, tab, rid, Some(buf)), Flush(t), RefuseChange(t)], e')
      && Shows(e', t, Logged(v, t, SystemManagement.RowBody(rel.file, a, buf, tab)).(
                 writes := v.writes + [HeapRollback.Remember(rel.file, a, tab)]))
      && e'.durable == |e'.log| && e'.txns[t].status == Aborting
  {
    hide Heap.Contents;
    hide Relations.RelOk;
    hide Relations.Indexed;
    hide Relations.AnyDuplicate;
    hide HeldMode;
    hide Takes;
    hide Do;
    var rel, a := v.rels[tab], HeapRollback.UpdateRefused(rid);
    FileIsOk(rel);
    Relations.ExecuteKeepsOk(rel, Relations.UpdateStmt(rid, buf));
    Relations.PerformContents(rel.file, a);
    e' := RefusedSteps(e, t, tab, rid, buf);
  }

  // ------------------------------------------------------------------------- ends of transactions

  /** One iteration of TransactionManager.RollBack is one undo step. */
  lemma RestoreRefines(e: State, t: TxnId, v: View, w: WriteRecord) returns (e': State)
    requires Shows(e, t, v.(writes := v.writes + [w])) && e.txns[t].status == Aborting
    requires w.tab in v.rels && Heap.FileOk(v.rels[w.tab].file) && Relations.RestoreClean(v.rels[w.tab], w)
    ensures Takes(e, [UndoOne(t)], e')
    ensures Shows(e', t, v.(rels := v.rels[w.tab := Relations.Restore(v.rels[w.tab], w)]))
  {
    hide Heap.Contents;
    hide Heap.FileOk;
    hide Relations.RestoreClean;
    hide Relations.RestoreIndexes;
    hide HeapRollback.Undo;
    hide HeapRollback.UndoClean;
    assert e.txns[t].undo[|e.txns[t].undo| - 1] == w && (v.writes + [w])[..|v.writes|] == v.writes;
    e' := Do(e, UndoOne(t));
    CleanUndo(v.rels[w.tab], w);
    UndoContents(v.rels[w.tab].file, w);
    OneStep(e, UndoOne(t));
  }

  lemma CleanUndo(rel: Relations.Rel, w: WriteRecord)
    requires Relations.RestoreClean(rel, w)
    ensures HeapRollback.UndoClean(rel.file, w)
  {
  }

  /** On the contents of the file an undo action is the table's undo. */
  lemma UndoContents(f: Heap.File, w: WriteRecord)
    requires Heap.FileOk(f) && HeapRollback.UndoClean(f, w)
    ensures Heap.Contents(HeapRollback.Undo(f, w)) == UndoWrite(Heap.Contents(f), w)
  {
    hide Heap.Contents;
    hide Heap.FileOk;
    hide Heap.InsertAt;
    hide Heap.DeleteRecord;
    hide Heap.UpdateRecord;
    Heap.InContents(f, w.rid);
    match w
    case InsertTuple(_, rid) =>
      Heap.DeleteOk(f, rid);
      DeletedContents(f, rid);
    case DeleteTuple(_, rid, was) =>
      Heap.InsertAtKeepsIff(f, rid, was);
      forall r ensures Heap.GetRecord(Heap.InsertAt(f, rid, was).0, r) == Lookup(Heap.Contents(f)[rid := was], r) {
        Heap.InsertAtContents(f, rid, was, r);
        Heap.ContentsAt(f, r);
      }
      Heap.SameContents(Heap.InsertAt(f, rid, was).0, Heap.Contents(f)[rid := was]);
    case UpdateTuple(_, rid, was) => Heap.UpdateOk(f, rid, was);
  }

  lemma DeletedContents(f: Heap.File, rid: Rid)
    requires Heap.FileOk(f)
    ensures Heap.IsRecord(f, rid) ==> Heap.DeleteRecord(f, rid).Some?
    ensures !Heap.IsRecord(f, rid) ==> Heap.Contents(f) - {rid} == Heap.Contents(f)
  {
    hide Heap.Contents;
    Heap.InContents(f, rid);
  }

  /** TransactionManager.Begin of a new transaction. */
  lemma BeginRefines(e: State, t: TxnId, rels: map<TableName, Relations.Rel>, log: Log, locks: LockTable)
      returns (e': State)
    requires t !in e.txns && SetOf(e.locks, t) == {} && ShowsTables(e, rels) && e.log == log && e.locks.table == locks
    ensures Takes(e, [Begin(t)], e')
    ensures Shows(e', t, Logged(View(rels, [], INVALID_LSN, log, locks, {}), t, BeginBody)) && IsReady(e', t)
  {
    hide HeldMode;
    hide Heap.Contents;
    e' := Do(e, Begin(t));
    OneStep(e, Begin(t));
  }

  /** TransactionManager.Commit before it releases its locks: commit record, flush. */
  lemma CommitRefines(e: State, t: TxnId, v: View) returns (e': State)
    requires Shows(e, t, v) && IsReady(e, t)
    ensures Takes(e, [LogCommit(t), Flush(t)], e')
    ensures Shows(e', t, Logged(v, t, CommitBody))
    ensures e'.txns[t].status == Done && e'.durable == |e'.log|
  {
    hide HeldMode;
    hide Heap.Contents;
    e' := Do(Do(e, LogCommit(t)), Flush(t));
    TwoSteps(e, LogCommit(t), Flush(t));
  }

  /** TransactionManager.Abort after its loop and before it releases its locks: abort record, flush. */
  lemma AbortRefines(e: State, t: TxnId, v: View) returns (e': State)
    requires Shows(e, t, v) && v.writes == [] && e.txns[t].status == Aborting
    ensures Takes(e, [LogAbort(t), Flush(t)], e')
    ensures Shows(e', t, Logged(v, t, AbortBody))
    ensures e'.txns[t].status == RolledBack && e'.durable == |e'.log|
  {
    hide HeldMode;
    hide Heap.Contents;
    e' := Do(Do(e, LogAbort(t)), Flush(t));
    TwoSteps(e, LogAbort(t), Flush(t));
  }

  /** LockManager.Lock for a growing transaction: a grant changes the lock table and the lock set as the object does, a
      refusal turns the transaction to abort. */
  lemma LockRefines(e: State, t: TxnId, v: View, id: LockDataId, mode: LockMode) returns (e': State)
    requires Shows(e, t, v) && IsReady(e, t) && (mode == Shared || mode == Exclusive)
    ensures Takes(e, [LockItem(t, id, mode)], e')
    ensures match Acquire(v.locks, t, id, mode)
      case None => Shows(e', t, v) && e'.txns[t].status == Aborting
      case Some(locks) => Shows(e', t, v.(locks := locks, lockSet := v.lockSet + {id})) && IsReady(e', t)
  {
    hide HeldMode;
    hide Acquire;
    hide Heap.Contents;
    e' := Do(e, LockItem(t, id, mode));
    OneStep(e, LockItem(t, id, mode));
  }

  /** LockManager.Unlock of a held item by an ended transaction. */
  lemma UnlockRefines(e: State, t: TxnId, v: View, id: LockDataId) returns (e': State)
    requires Shows(e, t, v) && (e.txns[t].status == Done || e.txns[t].status == RolledBack)
    requires id in v.lockSet && Release(v.locks, t, id).Some?
    ensures Takes(e, [Unlock(t, id)], e')
    ensures Shows(e', t, v.(locks := Release(v.locks, t, id).value, lockSet := v.lockSet - {id}))
  {
    hide HeldMode;
    hide Release;
    hide Heap.Contents;
    e' := Do(e, Unlock(t, id));
    OneStep(e, Unlock(t, id));
  }
}
