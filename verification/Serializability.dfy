/** Serial equivalence of every interleaving, by an invariant of the steps of Engine. */
module Serializability {
  import opened Types
  import opened Locking
  import opened Engine

  /** t is begun, not finished, and holds the table exclusively. */
  predicate Writer(e: State, t: TxnId, tab: TableName) { Live(e, t) && XHeld(e, t, tab) }

  // ------------------------------------------------------------------ the invariant

  /** Every known holding is in mode S or X, by a known transaction. */
  ghost predicate HoldersOk(e: State) {
    forall t, id :: var h := HeldMode(e.locks.table, t, id);
      h.Some? ==> t in e.txns && (h.value == Shared || h.value == Exclusive)
  }

  /** A transaction's operations are covered by the locks it holds, and so is what it would roll back. */
  ghost predicate Covered(e: State, t: TxnId)
    requires t in e.txns
  {
    var x := e.txns[t];
    && (x.status == Running ==> forall i :: 0 <= i < |x.ops| ==>
          RHeld(e, t, x.ops[i].tab) && (x.ops[i].WriteOp? ==> XHeld(e, t, x.ops[i].tab)))
    && (Live(e, t) ==> forall i :: 0 <= i < |x.undo| ==> x.undo[i].tab in e.db && XHeld(e, t, x.undo[i].tab))
    && (x.phase != Ready ==> x.status == Running && x.phase.tab in e.db && XHeld(e, t, x.phase.tab))
  }

  ghost predicate Disciplined(e: State) {
    LocksOk(e.locks) && HoldersOk(e) && forall t :: t in e.txns ==> Covered(e, t)
  }

  /** In the middle of a row operation the record still is what that operation read or inserted. */
  ghost predicate PhaseAt(now: Table, p: Phase, tab: TableName) {
    match p
    case Ready => true
    case ChangeLogged(q, rid, before, _) => q == tab ==> Lookup(now, rid) == Some(before)
    case ChangeFlushed(q, rid, before, _) => q == tab ==> Lookup(now, rid) == Some(before)
    case Inserted(q, rid, v) => q == tab ==> Lookup(now, rid) == Some(v)
    case InsertLogged(q, rid, v) => q == tab ==> Lookup(now, rid) == Some(v)
  }

  /** A writer's table is one rollback away from the serial state, and while the writer is running it is the
      writer's own operations applied to the serial state. */
  ghost predicate WriterOk(serial: Table, now: Table, x: Txn, tab: TableName) {
    && RollBack(now, x.undo, tab) == serial
    && RollBackDefined(now, x.undo, tab)
    && (x.status == Running ==> now == ApplyOps(serial, x.ops, tab))
    && PhaseAt(now, x.phase, tab)
  }

  /** A table without a writer holds the serial state. */
  ghost predicate TableAt(init: Table, e: State, tab: TableName)
    requires tab in e.db
  {
    var serial := Replay(init, e.history, tab);
    && ((forall t :: !Writer(e, t, tab)) ==> e.db[tab] == serial)
    && (forall t :: Writer(e, t, tab) ==> WriterOk(serial, e.db[tab], e.txns[t], tab))
  }

  ghost predicate TablesOk(init: Db, e: State) {
    e.db.Keys == init.Keys && forall tab :: tab in init ==> TableAt(init[tab], e, tab)
  }

  /** Every read so far, by a running or a committed transaction, is a serial read. */
  ghost predicate ReadsSerial(init: Db, e: State) {
    && (forall t :: IsRunning(e, t) ==> ReadsOk(Serial(init, e.history), e.txns[t].ops))
    && (forall i :: 0 <= i < |e.history| ==> ReadsOk(Serial(init, e.history[..i]), e.history[i].ops))
  }

  /** The history lists exactly the committed transactions, each once, with the operations it did. */
  ghost predicate HistoryOk(e: State) {
    && (forall i :: 0 <= i < |e.history| ==>
          var t := e.history[i].tid; t in e.txns && HasCommitted(e.txns[t]) && e.txns[t].ops == e.history[i].ops)
    && (forall i, j :: 0 <= i < j < |e.history| ==> e.history[i].tid != e.history[j].tid)
    && (forall t :: t in e.txns && HasCommitted(e.txns[t]) ==>
      exists i :: 0 <= i < |e.history| && e.history[i].tid == t)
  }

  ghost predicate Inv(init: Db, e: State) {
    Disciplined(e) && TablesOk(init, e) && ReadsSerial(init, e) && HistoryOk(e)
  }

  // -------------------------------------------------------------------- frame lemmas

  lemma OnlyWriter(e: State, t: TxnId, u: TxnId, tab: TableName)
    requires LocksOk(e.locks) && XHeld(e, t, tab) && t != u
    ensures !RHeld(e, u, tab)
  {
    ExclusiveExcludes(e.locks.table, t, u, TableLock(tab));
  }

  ghost predicate KeepsHoldings(e: State, e': State, t: TxnId) {
    forall tab :: (RHeld(e, t, tab) ==> RHeld(e', t, tab)) && (XHeld(e, t, tab) ==> XHeld(e', t, tab))
  }

  lemma CoveredFrame(e: State, e': State, t: TxnId)
    requires t in e.txns && t in e'.txns && Covered(e, t)
    requires e'.db.Keys == e.db.Keys && KeepsHoldings(e, e', t)
    requires Live(e', t) ==> Live(e, t)
    requires IsRunning(e', t) ==> IsRunning(e, t) && e'.txns[t].ops == e.txns[t].ops
    requires Live(e', t) ==> e'.txns[t].undo <= e.txns[t].undo
    requires e'.txns[t].phase == Ready || (e'.txns[t].phase == e.txns[t].phase && e'.txns[t].status == e.txns[t].status)
    ensures Covered(e', t)
  {
    hide HeldMode;
  }

  /** Nothing that the invariant says about a table changes. */
  ghost predicate SameTable(e: State, e': State, tab: TableName) {
    && tab in e.db && tab in e'.db && e'.db[tab] == e.db[tab] && e'.history == e.history
    && (forall t :: Writer(e', t, tab) <==> Writer(e, t, tab))
    && (forall t :: Writer(e, t, tab) ==>
          e'.txns[t].undo == e.txns[t].undo && e'.txns[t].ops == e.txns[t].ops
          && (PhaseAt(e.db[tab], e.txns[t].phase, tab) ==> PhaseAt(e.db[tab], e'.txns[t].phase, tab))
          && (e'.txns[t].status == Running ==> e.txns[t].status == Running))
  }

  lemma TableFrame(init: Table, e: State, e': State, tab: TableName)
    requires SameTable(e, e', tab) && TableAt(init, e, tab)
    ensures TableAt(init, e', tab)
  {
    hide XHeld;
    hide RollBack;
    hide RollBackDefined;
    hide ApplyOps;
    hide Replay;
  }

  /** A step that leaves locks, tables and history alone and changes one transaction's bookkeeping. */
  lemma QuietFrame(init: Table, e: State, e': State, t: TxnId, tab: TableName)
    requires tab in e.db && TableAt(init, e, tab)
    requires e'.locks == e.locks && e'.db == e.db && e'.history == e.history && t in e'.txns
    requires forall u :: u != t ==> (u in e.txns <==> u in e'.txns) && (u in e.txns ==> e'.txns[u] == e.txns[u])
    requires Writer(e, t, tab) <==> Writer(e', t, tab)
    requires Writer(e, t, tab) ==> e'.txns[t].undo == e.txns[t].undo && e'.txns[t].ops == e.txns[t].ops
    requires Writer(e, t, tab) && e'.txns[t].status == Running ==> e.txns[t].status == Running
    requires Writer(e, t, tab) && PhaseAt(e.db[tab], e.txns[t].phase, tab) ==> PhaseAt(e.db[tab], e'.txns[t].phase, tab)
    ensures TableAt(init, e', tab)
  {
    hide HeldMode;
    hide TableAt;
    hide PhaseAt;
    assert SameTable(e, e', tab);
    TableFrame(init, e, e', tab);
  }

  // ----------------------------------------------------------------- locking discipline

  lemma SameLocksDisciplined(e: State, e': State, t: TxnId)
    requires Disciplined(e) && e'.locks == e.locks && e'.db.Keys == e.db.Keys
    requires t in e'.txns && Covered(e', t)
    requires forall u :: u != t ==> (u in e.txns <==> u in e'.txns) && (u in e.txns ==> e'.txns[u] == e.txns[u])
    ensures Disciplined(e')
  {
    hide HeldMode;
    hide LocksOk;
    forall u | u in e'.txns ensures Covered(e', u) {
      if u != t { CoveredFrame(e, e', u); }
    }
  }

  lemma KeepsDisciplined(e: State, s: Step)
    requires Disciplined(e) && Enabled(e, s)
    ensures Disciplined(Do(e, s))
  {
    hide HeldMode;
    hide LocksOk;
    hide Acquire;
    hide Release;
    match s
    case LockItem(t, id, mode) => LockKeepsDisciplined(e, t, id, mode);
    case Unlock(t, id) => UnlockKeepsDisciplined(e, t, id);
    case FlushBuffer => forall u | u in e.txns ensures Covered(Do(e, s), u) { CoveredFrame(e, Do(e, s), u); }
    case Begin(t) => SameLocksDisciplined(e, Do(e, s), t);
    case Read(t, tab, rid) => ReadKeepsDisciplined(e, t, ReadOp(tab, rid, Lookup(e.db[tab], rid)));
    case Scan(t, tab) => ReadKeepsDisciplined(e, t, ScanOp(tab, e.db[tab]));
    case LogChange(t, _, _, _) => PhaseKeepsDisciplined(e, s);
    case LogInsert(t) => PhaseKeepsDisciplined(e, s);
    case Flush(t) => PhaseKeepsDisciplined(e, s);
    case ApplyChange(t) => WriteKeepsDisciplined(e, s);
    case RefuseChange(t) => WriteKeepsDisciplined(e, s);
    case InsertHeap(t, _, _, _) => WriteKeepsDisciplined(e, s);
    case LogCommit(t) => SameLocksDisciplined(e, Do(e, s), t);
    case StartAbort(t) => EndKeepsDisciplined(e, s);
    case UndoOne(t) => EndKeepsDisciplined(e, s);
    case LogAbort(t) => PhaseKeepsDisciplined(e, s);
  }

  /** Steps that touch only the log and the transaction's place in its program. */
  lemma PhaseKeepsDisciplined(e: State, s: Step)
    requires Disciplined(e) && Enabled(e, s) && (s.LogChange? || s.LogInsert? || s.Flush? || s.LogAbort?)
    ensures Disciplined(Do(e, s))
  {
    hide HeldMode;
    hide LocksOk;
    hide LogBodyOf;
    var e' := Do(e, s);
    assert Covered(e, s.t);
    assert Covered(e', s.t) by { SameLocksHoldings(e, e', s.t); }
    SameLocksDisciplined(e, e', s.t);
  }

  lemma ReadKeepsDisciplined(e: State, t: TxnId, op: Op)
    requires Disciplined(e) && IsRunning(e, t) && RHeld(e, t, op.tab) && !op.WriteOp?
    ensures Disciplined(SetTxn(e, t, e.txns[t].(ops := e.txns[t].ops + [op])))
  {
    hide HeldMode;
    hide LocksOk;
    var e' := SetTxn(e, t, e.txns[t].(ops := e.txns[t].ops + [op]));
    assert Covered(e, t);
    assert Covered(e', t) by { SameLocksHoldings(e, e', t); }
    SameLocksDisciplined(e, e', t);
  }

  lemma SameLocksHoldings(e: State, e': State, t: TxnId)
    requires e'.locks == e.locks
    ensures KeepsHoldings(e, e', t)
  {
    hide HeldMode;
  }

  lemma WriteKeepsDisciplined(e: State, s: Step)
    requires Disciplined(e) && Enabled(e, s) && (s.ApplyChange? || s.RefuseChange? || s.InsertHeap?)
    ensures Disciplined(Do(e, s))
  {
    hide HeldMode;
    hide LocksOk;
    var e' := Do(e, s);
    assert Covered(e, s.t);
    assert Covered(e', s.t) by { SameLocksHoldings(e, e', s.t); }
    SameLocksDisciplined(e, e', s.t);
  }

  lemma EndKeepsDisciplined(e: State, s: Step)
    requires Disciplined(e) && Enabled(e, s) && (s.StartAbort? || s.UndoOne?)
    ensures Disciplined(Do(e, s))
  {
    hide HeldMode;
    hide LocksOk;
    hide UndoWrite;
    var e' := Do(e, s);
    SameLocksHoldings(e, e', s.t);
    CoveredFrame(e, e', s.t);
    SameLocksDisciplined(e, e', s.t);
  }

  /** A granted S or X request only adds to what transactions hold. */
  lemma GrantAdds(e: State, t: TxnId, id: LockDataId, mode: LockMode, u: TxnId)
    requires Disciplined(e) && Enabled(e, LockItem(t, id, mode)) && Acquire(e.locks.table, t, id, mode).Some?
    ensures KeepsHoldings(e, Do(e, LockItem(t, id, mode)), u)
    ensures forall tab :: XHeld(Do(e, LockItem(t, id, mode)), u, tab) && !XHeld(e, u, tab) ==>
              u == t && id == TableLock(tab) && mode == Exclusive
  {
    hide HeldMode;
    hide TableOk;
    hide Acquire;
    AcquireEffect(e.locks.table, t, id, mode);
  }

  lemma LockKeepsDisciplined(e: State, t: TxnId, id: LockDataId, mode: LockMode)
    requires Disciplined(e) && Enabled(e, LockItem(t, id, mode))
    ensures Disciplined(Do(e, LockItem(t, id, mode)))
  {
    hide HeldMode;
    hide TableOk;
    hide Acquire;
    var e' := Do(e, LockItem(t, id, mode));
    if Acquire(e.locks.table, t, id, mode).None? {
      SameLocksDisciplined(e, e', t);
    } else {
      AcquireEffect(e.locks.table, t, id, mode);
      DoKeepsLocksOk(e.locks, LockIt(t, id, mode));
      forall u | u in e'.txns ensures Covered(e', u) {
        GrantAdds(e, t, id, mode, u);
        CoveredFrame(e, e', u);
      }
    }
  }

  lemma UnlockOnly(e: State, t: TxnId, id: LockDataId, u: TxnId)
    requires Disciplined(e) && Enabled(e, Unlock(t, id)) && u != t
    ensures KeepsHoldings(e, Do(e, Unlock(t, id)), u) && KeepsHoldings(Do(e, Unlock(t, id)), e, u)
  {
    hide HeldMode;
    hide TableOk;
    hide Release;
    ReleaseEffect(e.locks.table, t, id);
  }

  lemma UnlockKeepsDisciplined(e: State, t: TxnId, id: LockDataId)
    requires Disciplined(e) && Enabled(e, Unlock(t, id))
    ensures Disciplined(Do(e, Unlock(t, id)))
  {
    hide HeldMode;
    hide TableOk;
    hide Release;
    var e' := Do(e, Unlock(t, id));
    ReleaseEffect(e.locks.table, t, id);
    DoKeepsLocksOk(e.locks, UnlockIt(t, id));
    forall u | u in e'.txns ensures Covered(e', u) {
      if u != t {
        UnlockOnly(e, t, id, u);
        CoveredFrame(e, e', u);
      }
    }
  }

  // ------------------------------------------------------------------------- tables

  lemma SameTables(e: State, s: Step)
    requires Enabled(e, s)
    ensures Do(e, s).db.Keys == e.db.Keys
  {
    hide HeldMode;
    hide Acquire;
    hide Release;
    hide LogBodyOf;
    hide AfterFlush;
    hide Wrote;
  }

  lemma KeepsTable(init: Table, e: State, s: Step, tab: TableName)
    requires Disciplined(e) && Enabled(e, s) && tab in e.db && TableAt(init, e, tab)
    ensures tab in Do(e, s).db && TableAt(init, Do(e, s), tab)
  {
    hide TableAt;
    hide Do;
    hide Enabled;
    hide Disciplined;
    SameTables(e, s);
    match s
    case LockItem(t, id, mode) => LockKeepsTable(init, e, t, id, mode, tab);
    case LogChange(t, _, _, _) => PhaseKeepsTable(init, e, s, tab);
    case LogInsert(t) => PhaseKeepsTable(init, e, s, tab);
    case Flush(t) => PhaseKeepsTable(init, e, s, tab);
    case ApplyChange(t) => ApplyKeepsTable(init, e, t, tab);
    case RefuseChange(t) => RefuseKeepsTable(init, e, t, tab);
    case InsertHeap(t, q, rid, v) => InsertKeepsTable(init, e, s, tab);
    case LogCommit(t) => CommitKeepsTable(init, e, t, tab);
    case UndoOne(t) => UndoKeepsTable(init, e, t, tab);
    case LogAbort(t) => FinishKeepsTable(init, e, t, tab);
    case Unlock(t, id) => UnlockKeepsTable(init, e, t, id, tab);
    case Read(t, q, rid) => OpKeepsTable(init, e, s, tab);
    case Scan(t, q) => OpKeepsTable(init, e, s, tab);
    case Begin(t) => BeginKeepsTable(init, e, t, tab);
    case StartAbort(t) => PhaseKeepsTable(init, e, s, tab);
    case FlushBuffer => FlushKeepsTable(init, e, s, tab);
  }

  lemma FlushKeepsTable(init: Table, e: State, s: Step, tab: TableName)
    requires s.FlushBuffer? && tab in e.db && TableAt(init, e, tab)
    ensures TableAt(init, Do(e, s), tab)
  {
    hide TableAt;
    hide HeldMode;
    hide PhaseAt;
    TableFrame(init, e, Do(e, s), tab);
  }

  lemma OpKeepsTable(init: Table, e: State, s: Step, tab: TableName)
    requires Enabled(e, s) && (s.Read? || s.Scan?) && tab in e.db && TableAt(init, e, tab)
    ensures TableAt(init, Do(e, s), tab)
  {
    hide TableAt;
    hide HeldMode;
    ReadKeepsTable(init, e, s.t, if s.Read? then ReadOp(s.tab, s.rid, Lookup(e.db[s.tab], s.rid))
      else ScanOp(s.tab, e.db[s.tab]), tab);
  }

  lemma InsertKeepsTable(init: Table, e: State, s: Step, tab: TableName)
    requires Disciplined(e) && s.InsertHeap? && Enabled(e, s) && tab in e.db && TableAt(init, e, tab)
    ensures TableAt(init, Do(e, s), tab)
  {
    hide TableAt;
    hide HeldMode;
    hide Disciplined;
    WriteKeepsTable(init, e, Do(e, s), s.t, s.tab, s.rid, None, Some(s.value), Inserted(s.tab, s.rid, s.value), tab);
  }

  lemma BeginKeepsTable(init: Table, e: State, t: TxnId, tab: TableName)
    requires Disciplined(e) && Enabled(e, Begin(t)) && tab in e.db && TableAt(init, e, tab)
    ensures TableAt(init, Do(e, Begin(t)), tab)
  {
    hide HeldMode;
    hide TableAt;
    hide LocksOk;
    assert !XHeld(e, t, tab);
    QuietFrame(init, e, Do(e, Begin(t)), t, tab);
  }

  lemma WriterOkAfterRead(serial: Table, now: Table, x: Txn, op: Op, tab: TableName)
    requires WriterOk(serial, now, x, tab) && !op.WriteOp?
    ensures WriterOk(serial, now, x.(ops := x.ops + [op]), tab)
  {
    ApplySnoc(serial, x.ops, op, tab);
  }

  lemma ReadKeepsTable(init: Table, e: State, t: TxnId, op: Op, tab: TableName)
    requires tab in e.db && TableAt(init, e, tab) && IsRunning(e, t) && !op.WriteOp?
    ensures TableAt(init, SetTxn(e, t, e.txns[t].(ops := e.txns[t].ops + [op])), tab)
  {
    hide XHeld;
    hide WriterOk;
    hide Replay;
    var e' := SetTxn(e, t, e.txns[t].(ops := e.txns[t].ops + [op]));
    assert forall u :: Writer(e', u, tab) <==> Writer(e, u, tab) by { SameLocksSameHeld(e, e', tab); }
    if Writer(e, t, tab) {
      WriterOkAfterRead(Replay(init, e.history, tab), e.db[tab], e.txns[t], op, tab);
    }
  }

  lemma SameLocksSameHeld(e: State, e': State, tab: TableName)
    requires e'.locks == e.locks
    ensures forall u :: XHeld(e', u, tab) <==> XHeld(e, u, tab)
  {
    hide HeldMode;
  }

  /** A transaction that is granted X on a table it did not hold in X finds the table without a writer. */
  lemma NewWriterAlone(e: State, t: TxnId, tab: TableName, u: TxnId)
    requires Disciplined(e) && Acquire(e.locks.table, t, TableLock(tab), Exclusive).Some? && !XHeld(e, t, tab)
    ensures !Writer(e, u, tab)
  {
    hide HeldMode;
    hide TableOk;
    hide Acquire;
    AcquireRefusesIff(e.locks.table, t, TableLock(tab), Exclusive);
    assert !Compatible(Exclusive, Exclusive);
  }

  lemma NotYetWritten(e: State, t: TxnId, tab: TableName, serial: Table)
    requires Disciplined(e) && Live(e, t) && !XHeld(e, t, tab)
    ensures WriterOk(serial, serial, e.txns[t], tab)
  {
    hide HeldMode;
    hide LocksOk;
    hide RollBack;
    hide RollBackDefined;
    hide ApplyOps;
    var x := e.txns[t];
    assert Covered(e, t);
    RollBackNoWrites(serial, x.undo, tab);
    if x.status == Running { ApplyNoWrites(serial, x.ops, tab); }
  }

  lemma LockKeepsTable(init: Table, e: State, t: TxnId, id: LockDataId, mode: LockMode, tab: TableName)
    requires Disciplined(e) && Enabled(e, LockItem(t, id, mode)) && tab in e.db && TableAt(init, e, tab)
    ensures TableAt(init, Do(e, LockItem(t, id, mode)), tab)
  {
    hide HeldMode;
    hide LocksOk;
    hide Acquire;
    hide WriterOk;
    hide Replay;
    var e' := Do(e, LockItem(t, id, mode));
    if Acquire(e.locks.table, t, id, mode).None? {
      QuietFrame(init, e, e', t, tab);
    } else {
      forall u ensures KeepsHoldings(e, e', u) && (XHeld(e', u, tab) && !XHeld(e, u, tab) ==>
                         u == t && id == TableLock(tab) && mode == Exclusive) {
        GrantAdds(e, t, id, mode, u);
      }
      if XHeld(e', t, tab) && !XHeld(e, t, tab) {
        forall u ensures !Writer(e, u, tab) { NewWriterAlone(e, t, tab, u); }
        NotYetWritten(e, t, tab, e.db[tab]);
      }
      assert forall u :: Writer(e, u, tab) ==> Writer(e', u, tab);
      assert forall u :: Writer(e', u, tab) && u != t ==> Writer(e, u, tab);
    }
  }

  lemma PhaseKeepsTable(init: Table, e: State, s: Step, tab: TableName)
    requires Disciplined(e) && Enabled(e, s) && (s.LogChange? || s.LogInsert? || s.Flush? || s.StartAbort?)
    requires tab in e.db && TableAt(init, e, tab)
    ensures TableAt(init, Do(e, s), tab)
  {
    hide HeldMode;
    hide LocksOk;
    hide TableAt;
    hide LogBodyOf;
    QuietFrame(init, e, Do(e, s), s.t, tab);
  }

  /** The effect of one write on its writer's table. */
  lemma WriterOkAfterWrite(serial: Table, now: Table, x: Txn, q: TableName, rid: Rid, before: Option<Record>,
      image: Option<Record>, phase: Phase, tab: TableName)
    requires WriterOk(serial, now, x, tab) && x.status == Running
    requires q == tab ==> before == Lookup(now, rid) && (image.Some? || before.Some?)
    requires PhaseAt(if q == tab then Put(now, rid, image) else now, phase, tab)
    ensures WriterOk(serial, if q == tab then Put(now, rid, image)
      else now, Wrote(x, q, rid, before, image, phase), tab)
  {
    hide RollBack;
    hide RollBackDefined;
    hide ApplyOps;
    hide PhaseAt;
    var w, now' := UndoRecordOf(q, rid, before, image), if q == tab then Put(now, rid, image) else now;
    RollBackSnoc(now', x.undo, w, tab);
    ApplySnoc(serial, x.ops, WriteOp(q, rid, image), tab);
    if q == tab { UndoOfWrite(now, tab, rid, image); }
  }

  /** A row operation changes the heap. */
  lemma WriteKeepsTable(init: Table, e: State, e': State, t: TxnId, q: TableName, rid: Rid, before: Option<Record>,
                        image: Option<Record>, phase: Phase, tab: TableName)
    requires Disciplined(e) && IsRunning(e, t) && q in e.db && XHeld(e, t, q) && tab in e.db && TableAt(init, e, tab)
    requires before == Lookup(e.db[q], rid) && (image.Some? || before.Some?)
    requires PhaseAt(Put(e.db[q], rid, image), phase, q) && (phase == Ready || phase.tab == q)
    requires e' == SetTxn(e, t,
      Wrote(e.txns[t], q, rid, before, image, phase)).(db := e.db[q := Put(e.db[q], rid, image)])
    ensures TableAt(init, e', tab)
  {
    hide XHeld;
    hide WriterOk;
    hide Replay;
    SameLocksSameHeld(e, e', tab);
    assert forall u :: Writer(e', u, tab) <==> Writer(e, u, tab);
    if q == tab { assert Writer(e, t, tab); }
    forall u | Writer(e', u, tab) ensures WriterOk(Replay(init, e'.history, tab), e'.db[tab], e'.txns[u], tab) {
      assert WriterOk(Replay(init, e.history, tab), e.db[tab], e.txns[u], tab);
      if u == t {
        WriterOkAfterWrite(Replay(init, e.history, tab), e.db[tab], e.txns[t], q, rid, before, image, phase, tab);
      } else if q == tab {
        WritersAgree(e, t, u, tab);
      }
    }
  }

  /** In the middle of a change the writer finds the record that it logged. */
  lemma ChangeFindsRecord(init: Table, e: State, t: TxnId)
    requires Disciplined(e) && IsRunning(e, t) && e.txns[t].phase.ChangeFlushed? && e.txns[t].phase.tab in e.db
    requires TableAt(init, e, e.txns[t].phase.tab)
    ensures var p := e.txns[t].phase; XHeld(e, t, p.tab) && Lookup(e.db[p.tab], p.rid) == Some(p.before)
  {
    hide HeldMode;
    hide LocksOk;
    hide Replay;
    hide RollBack;
    hide RollBackDefined;
    hide ApplyOps;
    assert Covered(e, t) && Writer(e, t, e.txns[t].phase.tab);
  }

  lemma ApplyKeepsTable(init: Table, e: State, t: TxnId, tab: TableName)
    requires Disciplined(e) && Enabled(e, ApplyChange(t)) && tab in e.db && TableAt(init, e, tab)
    ensures TableAt(init, Do(e, ApplyChange(t)), tab)
  {
    hide HeldMode;
    hide LocksOk;
    hide TableAt;
    var p, e' := e.txns[t].phase, Do(e, ApplyChange(t));
    assert Covered(e, t);
    if p.tab == tab {
      ChangeFindsRecord(init, e, t);
      WriteKeepsTable(init, e, e', t, tab, p.rid, Some(p.before), p.image, Ready, tab);
    } else {
      OtherTableWritten(init, e, e', t, p.tab, p.rid, Some(p.before), p.image, tab);
    }
  }

  lemma OtherTableWritten(init: Table, e: State, e': State, t: TxnId, q: TableName, rid: Rid, before: Option<Record>,
                          image: Option<Record>, tab: TableName)
    requires Disciplined(e) && IsRunning(e, t) && q in e.db && q != tab && tab in e.db && TableAt(init, e, tab)
    requires e' == SetTxn(e, t,
      Wrote(e.txns[t], q, rid, before, image, Ready)).(db := e.db[q := Put(e.db[q], rid, image)])
    ensures TableAt(init, e', tab)
  {
    hide XHeld;
    hide WriterOk;
    hide Replay;
    SameLocksSameHeld(e, e', tab);
    assert forall u :: Writer(e', u, tab) <==> Writer(e, u, tab);
    if Writer(e, t, tab) {
      WriterOkAfterWrite(Replay(init, e.history, tab), e.db[tab], e.txns[t], q, rid, before, image, Ready, tab);
    }
  }

  /** A refused update is remembered although it changed nothing: undoing it puts the same bytes back. */
  lemma RefuseKeepsTable(init: Table, e: State, t: TxnId, tab: TableName)
    requires Disciplined(e) && Enabled(e, RefuseChange(t)) && tab in e.db && TableAt(init, e, tab)
    ensures TableAt(init, Do(e, RefuseChange(t)), tab)
  {
    hide XHeld;
    hide Replay;
    hide RollBack;
    hide RollBackDefined;
    hide ApplyOps;
    hide LocksOk;
    var p, e' := e.txns[t].phase, Do(e, RefuseChange(t));
    SameLocksSameHeld(e, e', tab);
    assert forall u :: Writer(e', u, tab) <==> Writer(e, u, tab);
    if Writer(e, t, tab) {
      var now, x := e.db[tab], e.txns[t];
      assert WriterOk(Replay(init, e.history, tab), now, x, tab);
      RollBackSnoc(now, x.undo, UndoRecordOf(p.tab, p.rid, Some(p.before), p.image), tab);
      if p.tab == tab { assert now[p.rid := p.before] == now; }
    }
  }

  lemma WritersAgree(e: State, t: TxnId, u: TxnId, tab: TableName)
    requires Disciplined(e) && XHeld(e, t, tab) && XHeld(e, u, tab)
    ensures t == u
  {
    if t != u { OnlyWriter(e, t, u, tab); }
  }

  lemma UndoKeepsTable(init: Table, e: State, t: TxnId, tab: TableName)
    requires Disciplined(e) && Enabled(e, UndoOne(t)) && tab in e.db && TableAt(init, e, tab)
    ensures TableAt(init, Do(e, UndoOne(t)), tab)
  {
    hide HeldMode;
    hide LocksOk;
    hide RollBack;
    hide RollBackDefined;
    hide ApplyOps;
    hide Replay;
    hide UndoWrite;
    hide UndoDefined;
    var e' := Do(e, UndoOne(t));
    var undo := e.txns[t].undo;
    var n := |undo| - 1;
    assert Covered(e, t) && XHeld(e, t, undo[n].tab);
    assert forall u :: Writer(e', u, tab) <==> Writer(e, u, tab);
    forall u | Writer(e', u, tab) ensures WriterOk(Replay(init, e'.history, tab), e'.db[tab], e'.txns[u], tab) {
      assert WriterOk(Replay(init, e.history, tab), e.db[tab], e.txns[u], tab);
      if u == t {
        assert undo == undo[..n] + [undo[n]];
        RollBackSnoc(e.db[tab], undo[..n], undo[n], tab);
      } else if undo[n].tab == tab {
        WritersAgree(e, t, u, tab);
      }
    }
    if undo[n].tab == tab { assert Writer(e', t, tab); }
  }

  lemma FinishKeepsTable(init: Table, e: State, t: TxnId, tab: TableName)
    requires Disciplined(e) && Enabled(e, LogAbort(t)) && tab in e.db && TableAt(init, e, tab)
    ensures TableAt(init, Do(e, LogAbort(t)), tab)
  {
    hide HeldMode;
    hide LocksOk;
    hide ApplyOps;
    hide Replay;
    var e' := Do(e, LogAbort(t));
    assert forall u :: Writer(e', u, tab) <==> Writer(e, u, tab) && u != t;
    if Writer(e, t, tab) {
      forall u ensures !Writer(e', u, tab) { if Writer(e, u, tab) { WritersAgree(e, t, u, tab); } }
      assert WriterOk(Replay(init, e.history, tab), e.db[tab], e.txns[t], tab);
    }
  }

  lemma UnlockKeepsTable(init: Table, e: State, t: TxnId, id: LockDataId, tab: TableName)
    requires Disciplined(e) && Enabled(e, Unlock(t, id)) && tab in e.db && TableAt(init, e, tab)
    ensures TableAt(init, Do(e, Unlock(t, id)), tab)
  {
    hide HeldMode;
    hide LocksOk;
    hide TableAt;
    hide Release;
    var e' := Do(e, Unlock(t, id));
    forall u ensures Writer(e', u, tab) <==> Writer(e, u, tab) {
      if u != t { UnlockOnly(e, t, id, u); }
    }
    TableFrame(init, e, e', tab);
  }

  lemma ReplaySnoc(t: Table, history: seq<CommittedTxn>, c: CommittedTxn, tab: TableName)
    ensures Replay(t, history + [c], tab) == ApplyOps(Replay(t, history, tab), c.ops, tab)
  {
    assert (history + [c])[..|history|] == history;
  }

  /** A commit turns its own tables into the serial state and leaves the serial state of all others alone. */
  lemma CommitReplay(init: Table, e: State, t: TxnId, tab: TableName)
    requires Disciplined(e) && Enabled(e, LogCommit(t)) && tab in e.db && TableAt(init, e, tab)
    ensures var r := Replay(init, Do(e, LogCommit(t)).history, tab);
      if XHeld(e, t, tab) then r == e.db[tab] else r == Replay(init, e.history, tab)
  {
    hide HeldMode;
    hide LocksOk;
    hide Replay;
    hide ApplyOps;
    ReplaySnoc(init, e.history, CommittedTxn(t, e.txns[t].ops), tab);
    if XHeld(e, t, tab) {
      assert Writer(e, t, tab);
    } else {
      assert Covered(e, t);
      ApplyNoWrites(Replay(init, e.history, tab), e.txns[t].ops, tab);
    }
  }

  lemma CommitKeepsTable(init: Table, e: State, t: TxnId, tab: TableName)
    requires Disciplined(e) && Enabled(e, LogCommit(t)) && tab in e.db && TableAt(init, e, tab)
    ensures TableAt(init, Do(e, LogCommit(t)), tab)
  {
    hide HeldMode;
    hide LocksOk;
    hide Replay;
    hide WriterOk;
    var e' := Do(e, LogCommit(t));
    CommitReplay(init, e, t, tab);
    assert forall u :: Writer(e', u, tab) <==> Writer(e, u, tab) && u != t;
    if XHeld(e, t, tab) {
      forall u ensures !Writer(e', u, tab) { if Writer(e, u, tab) { WritersAgree(e, t, u, tab); } }
    }
  }

  // -------------------------------------------------------------------------- reads

  lemma CommitKeepsReader(init: Db, e: State, t: TxnId, u: TxnId)
    requires Disciplined(e) && TablesOk(init, e) && Enabled(e, LogCommit(t))
    requires IsRunning(e, u) && u != t && ReadsOk(Serial(init, e.history), e.txns[u].ops)
    ensures ReadsOk(Serial(init, Do(e, LogCommit(t)).history), e.txns[u].ops)
  {
    hide HeldMode;
    hide LocksOk;
    hide Replay;
    hide TableAt;
    hide ApplyOps;
    var e' := Do(e, LogCommit(t));
    forall i | 0 <= i < |e.txns[u].ops|
      ensures e.txns[u].ops[i].tab in init
      ensures Serial(init, e'.history)[e.txns[u].ops[i].tab] == Serial(init, e.history)[e.txns[u].ops[i].tab]
    {
      var q := e.txns[u].ops[i].tab;
      assert SeenOk(Serial(init, e.history), e.txns[u].ops, i);
      assert Covered(e, u) && RHeld(e, u, q);
      CommitReplay(init[q], e, t, q);
      if XHeld(e, t, q) { OnlyWriter(e, t, u, q); }
    }
    ReadsOkSameTables(Serial(init, e.history), Serial(init, e'.history), e.txns[u].ops);
  }

  lemma CommitKeepsReads(init: Db, e: State, t: TxnId)
    requires Disciplined(e) && TablesOk(init, e) && ReadsSerial(init, e) && Enabled(e, LogCommit(t))
    ensures ReadsSerial(init, Do(e, LogCommit(t)))
  {
    hide HeldMode;
    hide Disciplined;
    hide TablesOk;
    hide ReadsOk;
    hide Serial;
    var e' := Do(e, LogCommit(t));
    forall u | IsRunning(e', u) ensures ReadsOk(Serial(init, e'.history), e'.txns[u].ops) {
      CommitKeepsReader(init, e, t, u);
    }
    forall i | 0 <= i < |e'.history| ensures ReadsOk(Serial(init, e'.history[..i]), e'.history[i].ops) {
      assert e'.history[..i] == e.history[..i];
      if i == |e.history| { assert e.history[..i] == e.history; }
    }
  }

  lemma ReaderSees(init: Table, e: State, t: TxnId, tab: TableName)
    requires Disciplined(e) && IsRunning(e, t) && tab in e.db && RHeld(e, t, tab) && TableAt(init, e, tab)
    ensures e.db[tab] == ApplyOps(Replay(init, e.history, tab), e.txns[t].ops, tab)
  {
    hide HeldMode;
    hide LocksOk;
    hide Replay;
    hide ApplyOps;
    if XHeld(e, t, tab) {
      assert Writer(e, t, tab);
    } else {
      assert Covered(e, t);
      ApplyNoWrites(Replay(init, e.history, tab), e.txns[t].ops, tab);
      forall u ensures !Writer(e, u, tab) { if Writer(e, u, tab) { OnlyWriter(e, u, t, tab); } }
    }
  }

  lemma OpKeepsReads(init: Db, e: State, t: TxnId, op: Op)
    requires Disciplined(e) && TablesOk(init, e) && ReadsSerial(init, e)
    requires IsRunning(e, t) && op.tab in e.db && RHeld(e, t, op.tab)
    requires op.WriteOp? || op == ScanOp(op.tab, e.db[op.tab])
      || (op.ReadOp? && op.seen == Lookup(e.db[op.tab], op.rid))
    ensures ReadsOk(Serial(init, e.history), e.txns[t].ops + [op])
  {
    hide HeldMode;
    hide Disciplined;
    hide ApplyOps;
    hide Replay;
    hide TableAt;
    var base, ops := Serial(init, e.history), e.txns[t].ops;
    ReaderSees(init[op.tab], e, t, op.tab);
    assert (ops + [op])[..|ops|] == ops;
    ReadsOkSnoc(base, ops, op);
  }

  lemma OneRunnerReads(init: Db, e: State, e': State, t: TxnId)
    requires ReadsSerial(init, e) && e'.history == e.history && t in e'.txns
    requires IsRunning(e', t) ==> ReadsOk(Serial(init, e.history), e'.txns[t].ops)
    requires forall u :: u != t ==> (u in e.txns <==> u in e'.txns) && (u in e.txns ==> e'.txns[u] == e.txns[u])
    ensures ReadsSerial(init, e')
  {
    hide ReadsOk;
    hide Serial;
    forall u | IsRunning(e', u) ensures ReadsOk(Serial(init, e'.history), e'.txns[u].ops) {
      if u != t { assert IsRunning(e, u); }
    }
  }

  lemma ApplyReads(init: Db, e: State, t: TxnId)
    requires Disciplined(e) && TablesOk(init, e) && ReadsSerial(init, e) && Enabled(e, ApplyChange(t))
    ensures ReadsOk(Serial(init, e.history), Do(e, ApplyChange(t)).txns[t].ops)
  {
    hide HeldMode;
    hide LocksOk;
    hide TablesOk;
    hide Serial;
    hide ReadsOk;
    var p := e.txns[t].phase;
    assert Covered(e, t);
    OpKeepsReads(init, e, t, WriteOp(p.tab, p.rid, p.image));
  }

  /** What the step's own transaction has read so far is serial. */
  lemma OwnReads(init: Db, e: State, s: Step)
    requires Disciplined(e) && TablesOk(init, e) && ReadsSerial(init, e) && Enabled(e, s)
    requires s.Read? || s.Scan? || s.InsertHeap? || s.ApplyChange?
    ensures IsRunning(Do(e, s), s.t) && ReadsOk(Serial(init, e.history), Do(e, s).txns[s.t].ops)
  {
    hide HeldMode;
    hide Disciplined;
    hide TablesOk;
    hide Serial;
    hide ReadsOk;
    match s
    case Read(t, tab, rid) => OpKeepsReads(init, e, t, ReadOp(tab, rid, Lookup(e.db[tab], rid)));
    case Scan(t, tab) => OpKeepsReads(init, e, t, ScanOp(tab, e.db[tab]));
    case InsertHeap(t, tab, rid, v) => OpKeepsReads(init, e, t, WriteOp(tab, rid, Some(v)));
    case ApplyChange(t) => ApplyReads(init, e, t);
  }

  /** Every step but a commit and a foreign flush changes at most its own transaction. */
  lemma OnlyOwnTxn(e: State, s: Step)
    requires Enabled(e, s) && !s.LogCommit? && !s.FlushBuffer?
    ensures var e' := Do(e, s);
      && e'.history == e.history && s.t in e'.txns
      && (forall u :: u != s.t ==> (u in e.txns <==> u in e'.txns) && (u in e.txns ==> e'.txns[u] == e.txns[u]))
  {
    hide HeldMode;
    hide Acquire;
    hide Release;
    hide LogBodyOf;
    hide AfterFlush;
    hide Wrote;
  }

  lemma OwnTxnOps(e: State, s: Step)
    requires Enabled(e, s) && !s.LogCommit? && !s.FlushBuffer? && s.t in Do(e, s).txns
    ensures var e' := Do(e, s);
      && (HasCommitted(e'.txns[s.t]) <==> s.t in e.txns && HasCommitted(e.txns[s.t]))
      && (HasCommitted(e'.txns[s.t]) ==> e'.txns[s.t].ops == e.txns[s.t].ops)
      && (IsRunning(e', s.t) && !(s.Read? || s.Scan? || s.InsertHeap? || s.ApplyChange?) ==>
            if s.Begin? then e'.txns[s.t].ops == [] else IsRunning(e, s.t) && e'.txns[s.t].ops == e.txns[s.t].ops)
  {
    hide HeldMode;
    hide Acquire;
    hide Release;
    hide LogBodyOf;
    hide UndoRecordOf;
    hide UndoWrite;
    hide Put;
  }

  lemma KeepsReads(init: Db, e: State, s: Step)
    requires Disciplined(e) && TablesOk(init, e) && ReadsSerial(init, e) && Enabled(e, s)
    ensures ReadsSerial(init, Do(e, s))
  {
    hide Do;
    hide Enabled;
    hide Disciplined;
    hide TablesOk;
    hide Serial;
    var e' := Do(e, s);
    if s.LogCommit? { CommitKeepsReads(init, e, s.t); }
    else if s.FlushBuffer? { FlushKeepsReads(init, e, s); }
    else {
      OnlyOwnTxn(e, s);
      OwnTxnOps(e, s);
      if s.Read? || s.Scan? || s.InsertHeap? || s.ApplyChange? { OwnReads(init, e, s); }
      OneRunnerReads(init, e, e', s.t);
    }
  }

  lemma FlushKeepsReads(init: Db, e: State, s: Step)
    requires ReadsSerial(init, e) && s.FlushBuffer?
    ensures ReadsSerial(init, Do(e, s))
  {
    hide ReadsOk;
    hide Serial;
  }

  // ------------------------------------------------------------------------ history

  lemma HistoryFrame(e: State, e': State, t: TxnId)
    requires HistoryOk(e) && e'.history == e.history && t in e'.txns
    requires HasCommitted(e'.txns[t]) <==> t in e.txns && HasCommitted(e.txns[t])
    requires HasCommitted(e'.txns[t]) ==> e'.txns[t].ops == e.txns[t].ops
    requires forall u :: u != t ==> (u in e.txns <==> u in e'.txns) && (u in e.txns ==> e'.txns[u] == e.txns[u])
    ensures HistoryOk(e')
  {
  }

  lemma CommitKeepsHistory(e: State, t: TxnId)
    requires HistoryOk(e) && Enabled(e, LogCommit(t))
    ensures HistoryOk(Do(e, LogCommit(t)))
  {
    hide HeldMode;
    HistoryPush(e, Do(e, LogCommit(t)), t);
  }

  lemma HistoryPush(e: State, e': State, t: TxnId)
    requires HistoryOk(e) && t in e.txns && !HasCommitted(e.txns[t])
    requires e'.history == e.history + [CommittedTxn(t, e.txns[t].ops)]
    requires t in e'.txns && HasCommitted(e'.txns[t]) && e'.txns[t].ops == e.txns[t].ops
    requires forall u :: u != t ==> (u in e.txns <==> u in e'.txns) && (u in e.txns ==> e'.txns[u] == e.txns[u])
    ensures HistoryOk(e')
  {
    hide HasCommitted;
    assert e'.history[|e.history|].tid == t;
    forall u | u in e'.txns && HasCommitted(e'.txns[u])
      ensures exists i :: 0 <= i < |e'.history| && e'.history[i].tid == u
    {
      if u != t {
        var i :| 0 <= i < |e.history| && e.history[i].tid == u;
        assert e'.history[i].tid == u;
      }
    }
  }

  lemma KeepsHistory(e: State, s: Step)
    requires HistoryOk(e) && Enabled(e, s)
    ensures HistoryOk(Do(e, s))
  {
    hide HistoryOk;
    hide Do;
    hide Enabled;
    if s.LogCommit? { CommitKeepsHistory(e, s.t); }
    else if s.FlushBuffer? { FlushKeepsHistory(e, s); }
    else {
      OnlyOwnTxn(e, s);
      OwnTxnOps(e, s);
      HistoryFrame(e, Do(e, s), s.t);
    }
  }

  lemma FlushKeepsHistory(e: State, s: Step)
    requires HistoryOk(e) && s.FlushBuffer?
    ensures HistoryOk(Do(e, s))
  {
  }

  // ----------------------------------------------------------------------- theorems

  lemma KeepsInv(init: Db, e: State, s: Step)
    requires Inv(init, e) && Enabled(e, s)
    ensures Inv(init, Do(e, s))
  {
    hide Disciplined;
    hide ReadsSerial;
    hide HistoryOk;
    hide TableAt;
    hide Do;
    hide Enabled;
    SameTables(e, s);
    KeepsDisciplined(e, s);
    KeepsReads(init, e, s);
    KeepsHistory(e, s);
    forall tab | tab in init ensures tab in Do(e, s).db && TableAt(init[tab], Do(e, s), tab) {
      KeepsTable(init[tab], e, s, tab);
    }
  }

  lemma InitialInv(init: Db)
    ensures Inv(init, Initial(init))
  {
  }

  /** The invariant holds in every state of every run. */
  lemma {:induction false} InvInEveryRun(init: Db, steps: seq<Step>, states: seq<State>, n: nat)
    requires IsRun(init, steps, states) && n <= |steps|
    ensures Inv(init, states[n])
  {
    hide Inv;
    hide Do;
    hide Enabled;
    if n == 0 {
      InitialInv(init);
    } else {
      InvInEveryRun(init, steps, states, n - 1);
      KeepsInv(init, states[n - 1], steps[n - 1]);
    }
  }

  /** Serial equivalence: in any interleaving, whenever no transaction is live, the tables are the serial replay
      of exactly the committed transactions in commit order; and at all times every read of a committed
      transaction is what that replay shows it at that point. */
  lemma SerialEquivalence(init: Db, steps: seq<Step>, states: seq<State>, n: nat)
    requires IsRun(init, steps, states) && n <= |steps|
    ensures var e := states[n];
      && ((forall t :: t in e.txns ==> !Live(e, t)) ==> e.db == Serial(init, e.history))
      && (forall i :: 0 <= i < |e.history| ==> ReadsOk(Serial(init, e.history[..i]), e.history[i].ops))
      && HistoryOk(e)
  {
    hide Do;
    hide Enabled;
    hide HeldMode;
    hide Disciplined;
    hide HistoryOk;
    hide ReadsOk;
    InvInEveryRun(init, steps, states, n);
    var e := states[n];
    if forall t :: t in e.txns ==> !Live(e, t) {
      forall tab | tab in init ensures e.db[tab] == Serial(init, e.history)[tab] {
        assert TableAt(init[tab], e, tab);
      }
    }
  }

  /** Rollback never raises an error: in every state of every run, the next restoring step of an aborting
      transaction is enabled, and its restoring insert or update finds what it needs. */
  lemma AbortNeverStuck(init: Db, steps: seq<Step>, states: seq<State>, n: nat, t: TxnId)
    requires IsRun(init, steps, states) && n <= |steps|
    requires t in states[n].txns && states[n].txns[t].status == Aborting
    ensures var e, undo := states[n], states[n].txns[t].undo;
      if undo == [] then Enabled(e, LogAbort(t))
      else Enabled(e, UndoOne(t)) && UndoDefined(e.db[undo[|undo| - 1].tab], undo[|undo| - 1])
  {
    hide Do;
    hide HeldMode;
    hide LocksOk;
    hide HistoryOk;
    hide ReadsSerial;
    InvInEveryRun(init, steps, states, n);
    var e, undo := states[n], states[n].txns[t].undo;
    if undo != [] {
      var tab := undo[|undo| - 1].tab;
      assert Covered(e, t) && Writer(e, t, tab);
      assert TableAt(init[tab], e, tab);
    }
  }
}
