/** Write-ahead logging as an invariant of every interleaving: a table changes only where the record is on disk, except
    by an insert that has not been flushed yet (src/execution: update and delete log before they write, insert
    after). */
module WriteAhead {
  import opened Types
  import opened Locking
  import opened LogCodec
  import opened Recovery
  import opened Engine
  import opened Serializability

  /** The log on disk has a record of the rid. */
  ghost predicate OnDisk(e: State, tab: TableName, rid: Rid)
    requires e.durable <= |e.log|
  {
    Logged(e.log[..e.durable], tab, rid)
  }

  /** The transaction is between the heap change of an insert of this rid and the return of its flush. */
  predicate InInsert(p: Phase, tab: TableName, rid: Rid) {
    (p.Inserted? || p.InsertLogged?) && p.tab == tab && p.rid == rid
  }

  /** Somebody is in the middle of inserting the rid. */
  ghost predicate OpenInsert(e: State, tab: TableName, rid: Rid) {
    exists t :: t in e.txns && InInsert(e.txns[t].phase, tab, rid)
  }

  /** What each transaction's place in its program says about the log. */
  ghost predicate PhaseLogged(e: State, p: Phase)
    requires e.durable <= |e.log|
  {
    match p
    case Ready => true
    case ChangeLogged(tab, rid, _, _) => Logged(e.log, tab, rid)
    case ChangeFlushed(tab, rid, _, _) => OnDisk(e, tab, rid)
    case Inserted(_, _, _) => true
    case InsertLogged(tab, rid, _) => Logged(e.log, tab, rid)
  }

  /** Everything a transaction would roll back is on disk, except an insert in progress. */
  ghost predicate UndoLogged(e: State, x: Txn)
    requires e.durable <= |e.log|
  {
    forall i :: 0 <= i < |x.undo| ==>
      OnDisk(e, x.undo[i].tab, x.undo[i].rid) || InInsert(x.phase, x.undo[i].tab, x.undo[i].rid)
  }

  ghost predicate TxnLogged(e: State, t: TxnId)
    requires e.durable <= |e.log| && t in e.txns
  {
    PhaseLogged(e, e.txns[t].phase) && (Live(e, t) ==> UndoLogged(e, e.txns[t]))
  }

  /** A rid without a record on disk holds what it held at first, unless somebody is inserting it, and then it was
      free. */
  ghost predicate RidLogged(init: Table, e: State, tab: TableName, rid: Rid)
    requires e.durable <= |e.log| && tab in e.db
  {
    OnDisk(e, tab, rid) || if OpenInsert(e, tab, rid) then rid !in init else Lookup(e.db[tab], rid) == Lookup(init, rid)
  }

  ghost predicate Wal(init: Db, e: State) {
    && e.db.Keys == init.Keys && e.durable <= |e.log|
    && (forall t :: t in e.txns ==> TxnLogged(e, t))
    && (forall tab, rid :: tab in init ==> RidLogged(init[tab], e, tab, rid))
  }

  // ---------------------------------------------------------------------- longer logs

  /** The log on disk only grows. */
  ghost predicate Grows(e: State, e': State) {
    && e.durable <= |e.log| && e'.durable <= |e'.log| && e.log <= e'.log && e.durable <= e'.durable
  }

  lemma LoggedGrows(a: Log, b: Log, tab: TableName, rid: Rid)
    requires a <= b && Logged(a, tab, rid)
    ensures Logged(b, tab, rid)
  {
    var i :| 0 <= i < |a| && TouchesRid(a[i], tab, rid);
    assert b[i] == a[i];
  }

  lemma OnDiskGrows(e: State, e': State, tab: TableName, rid: Rid)
    requires Grows(e, e')
    ensures OnDisk(e, tab, rid) ==> OnDisk(e', tab, rid)
    ensures Logged(e.log, tab, rid) ==> Logged(e'.log, tab, rid)
  {
    hide Logged;
    assert e.log[..e.durable] <= e'.log[..e'.durable];
    if OnDisk(e, tab, rid) { LoggedGrows(e.log[..e.durable], e'.log[..e'.durable], tab, rid); }
    if Logged(e.log, tab, rid) { LoggedGrows(e.log, e'.log, tab, rid); }
  }

  lemma StepGrows(e: State, s: Step)
    requires Enabled(e, s) && e.durable <= |e.log|
    ensures Grows(e, Do(e, s))
  {
    hide HeldMode;
    hide Acquire;
    hide Release;
    hide LogBodyOf;
    hide AfterFlush;
    hide Wrote;
  }

  lemma PhaseGrows(e: State, e': State, p: Phase)
    requires Grows(e, e') && PhaseLogged(e, p)
    ensures PhaseLogged(e', p)
  {
    hide Grows;
    hide Logged;
    hide OnDisk;
    GrowsFits(e, e');
    if p != Ready { OnDiskGrows(e, e', p.tab, p.rid); }
  }

  lemma GrowsFits(e: State, e': State)
    requires Grows(e, e')
    ensures e.durable <= |e.log| && e'.durable <= |e'.log|
  {
  }

  /** Somebody else's step. */
  lemma OtherTxnLogged(e: State, e': State, t: TxnId)
    requires Grows(e, e') && t in e.txns && t in e'.txns && e'.txns[t] == e.txns[t] && TxnLogged(e, t)
    ensures TxnLogged(e', t)
  {
    hide OnDisk;
    hide PhaseLogged;
    hide Grows;
    GrowsFits(e, e');
    PhaseGrows(e, e', e.txns[t].phase);
    forall tab, rid | OnDisk(e, tab, rid) ensures OnDisk(e', tab, rid) { OnDiskGrows(e, e', tab, rid); }
  }

  // ------------------------------------------------------------------- each transaction

  lemma NewRecordLogged(e: State, t: TxnId, body: LogBody)
    requires t in e.txns && IsData(body)
    ensures Logged(AppendLog(e, t, body).log, body.tab, body.rid)
  {
    var log := AppendLog(e, t, body).log;
    assert TouchesRid(log[|e.log|], body.tab, body.rid);
  }

  /** The step's own transaction: its place in the program moves together with the log. */
  lemma OwnPhaseLogged(e: State, s: Step)
    requires Enabled(e, s) && e.durable <= |e.log| && !s.FlushBuffer? && s.t in Do(e, s).txns
    requires s.t in e.txns ==> PhaseLogged(e, e.txns[s.t].phase)
    ensures Do(e, s).durable <= |Do(e, s).log| && PhaseLogged(Do(e, s), Do(e, s).txns[s.t].phase)
  {
    hide Logged;
    hide HeldMode;
    hide Acquire;
    hide Release;
    var e' := Do(e, s);
    StepGrows(e, s);
    if s.LogChange? {
      NewRecordLogged(SetTxn(e, s.t, e.txns[s.t].(phase := ChangeLogged(s.tab, s.rid, e.db[s.tab][s.rid], s.image))),
        s.t,
                      LogBodyOf(s.tab, s.rid, Some(e.db[s.tab][s.rid]), s.image));
    } else if s.LogInsert? {
      var p := e.txns[s.t].phase;
      NewRecordLogged(SetTxn(e, s.t, e.txns[s.t].(phase := InsertLogged(p.tab, p.rid, p.value))), s.t,
                      LogBodyOf(p.tab, p.rid, None, Some(p.value)));
    } else if s.Flush? {
      assert e'.log[..e'.durable] == e.log;
      PhaseGrows(e, e', e.txns[s.t].phase);
    } else if s.t in e.txns {
      PhaseGrows(e, e', e.txns[s.t].phase);
    }
  }

  /** What the step adds to its transaction's write set, if anything. */
  ghost predicate UndoSame(e: State, e': State, t: TxnId)
    requires t in e.txns && t in e'.txns
  {
    e'.txns[t].undo <= e.txns[t].undo && (e'.txns[t].phase == e.txns[t].phase || !InsertPhase(e.txns[t].phase)
      || (e.txns[t].phase.Inserted?
        && e'.txns[t].phase == InsertLogged(e.txns[t].phase.tab, e.txns[t].phase.rid, e.txns[t].phase.value)))
  }

  predicate InsertPhase(p: Phase) { p.Inserted? || p.InsertLogged? }

  lemma UndoSameLogged(e: State, e': State, t: TxnId)
    requires Grows(e, e') && t in e.txns && t in e'.txns && UndoLogged(e, e.txns[t]) && UndoSame(e, e', t)
    ensures UndoLogged(e', e'.txns[t])
  {
    hide OnDisk;
    hide Grows;
    GrowsFits(e, e');
    forall tab, rid | OnDisk(e, tab, rid) ensures OnDisk(e', tab, rid) { OnDiskGrows(e, e', tab, rid); }
  }

  lemma OwnUndoLogged(e: State, s: Step)
    requires Disciplined(e) && Enabled(e, s) && e.durable <= |e.log| && !s.FlushBuffer? && s.t in Do(e, s).txns
    requires s.t in e.txns ==> TxnLogged(e, s.t)
    requires Live(Do(e, s), s.t)
    ensures Do(e, s).durable <= |Do(e, s).log| && UndoLogged(Do(e, s), Do(e, s).txns[s.t])
  {
    hide OnDisk;
    hide Logged;
    hide Disciplined;
    hide HeldMode;
    hide Acquire;
    hide Release;
    hide UndoWrite;
    hide LogBodyOf;
    var e' := Do(e, s);
    StepGrows(e, s);
    if s.Flush? && e.txns[s.t].phase.InsertLogged? {
      FlushUndoLogged(e, s);
    } else if s.ApplyChange? || s.RefuseChange? || s.InsertHeap? {
      WriteUndoLogged(e, s);
    } else if !s.Begin? {
      UndoSameLogged(e, e', s.t);
    }
  }

  lemma FlushUndoLogged(e: State, s: Step)
    requires Enabled(e, s) && e.durable <= |e.log| && s.Flush? && e.txns[s.t].phase.InsertLogged? && IsRunning(e, s.t)
    requires TxnLogged(e, s.t)
    ensures UndoLogged(Do(e, s), Do(e, s).txns[s.t])
  {
    hide Logged;
    var e', x := Do(e, s), e.txns[s.t];
    StepGrows(e, s);
    assert e'.log[..e'.durable] == e.log;
    forall i | 0 <= i < |x.undo| ensures OnDisk(e', x.undo[i].tab, x.undo[i].rid) {
      OnDiskGrows(e, e', x.undo[i].tab, x.undo[i].rid);
    }
  }

  lemma WriteUndoLogged(e: State, s: Step)
    requires Enabled(e, s) && e.durable <= |e.log| && (s.ApplyChange? || s.RefuseChange? || s.InsertHeap?)
    requires TxnLogged(e, s.t)
    ensures UndoLogged(Do(e, s), Do(e, s).txns[s.t])
  {
    hide Logged;
    hide HeldMode;
    var e', x := Do(e, s), e.txns[s.t];
    assert e'.log == e.log && e'.durable == e.durable;
    assert forall tab, rid :: OnDisk(e', tab, rid) <==> OnDisk(e, tab, rid);
  }

  lemma KeepsTxnLogged(e: State, s: Step, t: TxnId)
    requires Disciplined(e) && Enabled(e, s) && e.durable <= |e.log| && t in Do(e, s).txns
    requires t in e.txns ==> TxnLogged(e, t)
    requires !s.FlushBuffer? && !s.LogCommit? ==> forall u :: u != s.t ==> (u in e.txns <==> u in Do(e, s).txns)
    ensures Do(e, s).durable <= |Do(e, s).log| && TxnLogged(Do(e, s), t)
  {
    hide Do;
    hide Enabled;
    hide Disciplined;
    hide PhaseLogged;
    hide UndoLogged;
    StepGrows(e, s);
    if !s.FlushBuffer? && t == s.t {
      OwnPhaseLogged(e, s);
      if Live(Do(e, s), t) { OwnUndoLogged(e, s); }
    } else {
      OtherUntouched(e, s, t);
      OtherTxnLogged(e, Do(e, s), t);
    }
  }

  lemma OtherUntouched(e: State, s: Step, t: TxnId)
    requires Enabled(e, s) && t in Do(e, s).txns && (s.FlushBuffer? || t != s.t)
    ensures t in e.txns && Do(e, s).txns[t] == e.txns[t]
  {
    hide HeldMode;
    hide Acquire;
    hide Release;
    hide LogBodyOf;
    hide AfterFlush;
    hide Wrote;
  }

  // ---------------------------------------------------------------------------- each rid

  /** Where a step changes a table. */
  function Changes(e: State, s: Step): Option<(TableName, Rid)>
    requires Enabled(e, s)
  {
    match s
    case ApplyChange(t) => Some((e.txns[t].phase.tab, e.txns[t].phase.rid))
    case InsertHeap(_, tab, rid, _) => Some((tab, rid))
    case UndoOne(t) => var w := e.txns[t].undo[|e.txns[t].undo| - 1]; Some((w.tab, w.rid))
    case _ => None
  }

  lemma ChangesOnly(e: State, s: Step, tab: TableName, rid: Rid)
    requires Enabled(e, s) && tab in e.db && Changes(e, s) != Some((tab, rid))
    ensures tab in Do(e, s).db && Lookup(Do(e, s).db[tab], rid) == Lookup(e.db[tab], rid)
  {
    hide HeldMode;
    hide Acquire;
    hide Release;
    hide LogBodyOf;
    hide AfterFlush;
    hide UndoRecordOf;
  }

  /** An insert in progress stays in progress until its record is on disk. */
  lemma InsertStaysOpen(e: State, s: Step, t: TxnId, tab: TableName, rid: Rid)
    requires Enabled(e, s) && e.durable <= |e.log| && t in e.txns && InInsert(e.txns[t].phase, tab, rid)
      && TxnLogged(e, t)
    requires e.txns[t].status == Running
    ensures Do(e, s).durable <= |Do(e, s).log|
    ensures OnDisk(Do(e, s), tab, rid) || (t in Do(e, s).txns && InInsert(Do(e, s).txns[t].phase, tab, rid))
  {
    hide Logged;
    hide HeldMode;
    hide Acquire;
    hide Release;
    hide LogBodyOf;
    hide UndoLogged;
    var e' := Do(e, s);
    StepGrows(e, s);
    if s.Flush? && s.t == t { assert e'.log[..e'.durable] == e.log; }
  }

  lemma InsertersRun(e: State, t: TxnId, tab: TableName, rid: Rid)
    requires Disciplined(e) && t in e.txns && InInsert(e.txns[t].phase, tab, rid)
    ensures e.txns[t].status == Running
  {
    hide HeldMode;
    hide LocksOk;
    assert Covered(e, t);
  }

  lemma StaysOpen(e: State, s: Step, tab: TableName, rid: Rid)
    requires Disciplined(e) && Enabled(e, s) && e.durable <= |e.log| && OpenInsert(e, tab, rid)
    requires forall t :: t in e.txns ==> TxnLogged(e, t)
    ensures Do(e, s).durable <= |Do(e, s).log| && (OnDisk(Do(e, s), tab, rid) || OpenInsert(Do(e, s), tab, rid))
  {
    hide Do;
    hide Enabled;
    hide Disciplined;
    hide OnDisk;
    hide TxnLogged;
    StepGrows(e, s);
    var t :| t in e.txns && InInsert(e.txns[t].phase, tab, rid);
    InsertersRun(e, t, tab, rid);
    InsertStaysOpen(e, s, t, tab, rid);
  }

  /** Only a heap insert of the rid opens it. */
  lemma NotOpened(e: State, s: Step, tab: TableName, rid: Rid)
    requires Enabled(e, s) && Changes(e, s) != Some((tab, rid)) && OpenInsert(Do(e, s), tab, rid)
    ensures OpenInsert(e, tab, rid)
  {
    hide Do;
    hide Enabled;
    var e' := Do(e, s);
    var t :| t in e'.txns && InInsert(e'.txns[t].phase, tab, rid);
    if s.FlushBuffer? || t != s.t { OtherUntouched(e, s, t); } else { OwnNotOpened(e, s, tab, rid); }
    assert t in e.txns && InInsert(e.txns[t].phase, tab, rid);
  }

  lemma OwnNotOpened(e: State, s: Step, tab: TableName, rid: Rid)
    requires Enabled(e, s) && Changes(e, s) != Some((tab, rid)) && !s.FlushBuffer?
    requires s.t in Do(e, s).txns && InInsert(Do(e, s).txns[s.t].phase, tab, rid)
    ensures s.t in e.txns && InInsert(e.txns[s.t].phase, tab, rid)
  {
    hide HeldMode;
    hide Acquire;
    hide Release;
    hide LogBodyOf;
    hide UndoRecordOf;
    hide UndoWrite;
    hide Put;
  }

  /** A changed rid was on disk already, or is being inserted now. */
  lemma ChangedRid(init: Table, e: State, s: Step, tab: TableName, rid: Rid)
    requires Disciplined(e) && Enabled(e, s) && e.durable <= |e.log| && tab in e.db && Changes(e, s) == Some((tab, rid))
    requires TxnLogged(e, s.t) && RidLogged(init, e, tab, rid)
    ensures tab in Do(e, s).db && Do(e, s).durable <= |Do(e, s).log| && RidLogged(init, Do(e, s), tab, rid)
  {
    hide HeldMode;
    hide LocksOk;
    hide Logged;
    var e' := Do(e, s);
    StepGrows(e, s);
    OnDiskGrows(e, e', tab, rid);
    if s.InsertHeap? {
      assert InInsert(e'.txns[s.t].phase, tab, rid);
    } else if s.UndoOne? {
      assert Covered(e, s.t);
    }
  }

  lemma KeepsRidLogged(init: Table, e: State, s: Step, tab: TableName, rid: Rid)
    requires Disciplined(e) && Enabled(e, s) && e.durable <= |e.log| && tab in e.db
    requires (forall t :: t in e.txns ==> TxnLogged(e, t)) && RidLogged(init, e, tab, rid)
    ensures tab in Do(e, s).db && Do(e, s).durable <= |Do(e, s).log| && RidLogged(init, Do(e, s), tab, rid)
  {
    hide Do;
    hide Disciplined;
    hide OnDisk;
    hide TxnLogged;
    hide OpenInsert;
    hide Grows;
    StepGrows(e, s);
    GrowsFits(e, Do(e, s));
    if Changes(e, s) == Some((tab, rid)) {
      ChangedRid(init, e, s, tab, rid);
    } else {
      ChangesOnly(e, s, tab, rid);
      OnDiskGrows(e, Do(e, s), tab, rid);
      if OpenInsert(e, tab, rid) { StaysOpen(e, s, tab, rid); }
      else if OpenInsert(Do(e, s), tab, rid) { NotOpened(e, s, tab, rid); }
    }
  }

  // -------------------------------------------------------------------------- every run

  lemma KeepsWal(init: Db, e: State, s: Step)
    requires Disciplined(e) && Enabled(e, s) && Wal(init, e)
    ensures Wal(init, Do(e, s))
  {
    hide Do;
    hide Enabled;
    hide Disciplined;
    hide TxnLogged;
    hide RidLogged;
    hide Grows;
    SameTables(e, s);
    StepGrows(e, s);
    GrowsFits(e, Do(e, s));
    if !s.FlushBuffer? && !s.LogCommit? { OnlyOwnTxn(e, s); }
    forall t | t in Do(e, s).txns ensures TxnLogged(Do(e, s), t) { KeepsTxnLogged(e, s, t); }
    forall tab, rid | tab in init ensures RidLogged(init[tab], Do(e, s), tab, rid) {
      KeepsRidLogged(init[tab], e, s, tab, rid);
    }
  }

  lemma InitialWal(init: Db)
    ensures Wal(init, Initial(init))
  {
  }

  lemma {:induction false} WalInEveryRun(init: Db, steps: seq<Step>, states: seq<State>, n: nat)
    requires IsRun(init, steps, states) && n <= |steps|
    ensures Wal(init, states[n]) && Disciplined(states[n])
  {
    hide Wal;
    hide Do;
    hide Enabled;
    InvInEveryRun(init, steps, states, n);
    if n == 0 {
      InitialWal(init);
    } else {
      WalInEveryRun(init, steps, states, n - 1);
      KeepsWal(init, states[n - 1], steps[n - 1]);
    }
  }
}
