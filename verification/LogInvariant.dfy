/** What the log says in every state of every run: its commits rebuild the serial state, its before-images are accurate
    and its writers are separated. */
module LogInvariant {
  import opened Types
  import opened Locking
  import opened LogCodec
  import opened Recovery
  import opened Engine
  import opened Serializability

  // ------------------------------------------------------------------ folds over one more record

  lemma RedoPush(t: Table, log: Log, r: LogRecord, who: set<TxnId>, tab: TableName)
    ensures RedoTable(t, log + [r], who, tab) ==
            (var t' := RedoTable(t, log, who, tab);
             if Touches(r, tab) && r.tid in who then Put(t', r.body.rid, After(r.body)) else t')
  {
    assert (log + [r])[..|log|] == log;
  }

  lemma UndoPush(t: Table, log: Log, r: LogRecord, who: set<TxnId>, tab: TableName)
    ensures UndoTable(t, log + [r], who, tab) ==
            UndoTable(if Touches(r, tab) && r.tid in who then Put(t, r.body.rid, Before(r.body)) else t, log, who, tab)
  {
    assert (log + [r])[..|log|] == log;
  }

  lemma ActualPush(init: Table, log: Log, r: LogRecord, tab: TableName)
    ensures ActualTable(init, log + [r], tab) ==
            (var t := ActualTable(init, log, tab);
             if Touches(r, tab) then Put(t, r.body.rid, After(r.body))
             else if r.body.AbortBody? then UndoTable(t, log, {r.tid}, tab) else t)
  {
    assert (log + [r])[..|log|] == log;
  }

  ghost predicate NoRecords(log: Log, t: TxnId, tab: TableName) {
    forall i :: 0 <= i < |log| && Touches(log[i], tab) ==> log[i].tid != t
  }

  lemma {:induction false} RedoNoRecords(init: Table, log: Log, who: set<TxnId>, t: TxnId, tab: TableName)
    requires NoRecords(log, t, tab)
    ensures RedoTable(init, log, who + {t}, tab) == RedoTable(init, log, who, tab)
  {
    if log == [] {
    } else {
      RedoNoRecords(init, log[..|log| - 1], who, t, tab);
    }
  }

  lemma {:induction false} UndoNoRecords(now: Table, log: Log, t: TxnId, tab: TableName)
    requires NoRecords(log, t, tab)
    ensures UndoTable(now, log, {t}, tab) == now
    decreases |log|
  {
    if log == [] {
    } else {
      UndoNoRecords(now, log[..|log| - 1], t, tab);
    }
  }

  // ------------------------------------------------------------------------ the invariant

  /** How many commits the log records. */
  function Commits(log: Log): nat {
    if log == [] then 0 else Commits(log[..|log| - 1]) + if log[|log| - 1].body.CommitBody? then 1 else 0
  }

  /** The status that an end record stands for. */
  predicate EndedAs(x: Txn, b: LogBody) {
    if b.CommitBody? then HasCommitted(x) else x.status == AbortLogged || x.status == RolledBack
  }

  /** One record per lsn, end records where the transactions' states say so, and the writes of unfinished transactions
      on tables they hold exclusively. */
  ghost predicate RecordsOk(e: State) {
    && (forall i :: 0 <= i < |e.log| ==> e.log[i].tid in e.txns && e.log[i].lsn == i)
    && (forall i :: 0 <= i < |e.log| && IsEnd(e.log[i].body) ==> EndedAs(e.txns[e.log[i].tid], e.log[i].body))
    && (forall i :: 0 <= i < |e.log| && IsData(e.log[i].body) && Live(e, e.log[i].tid) ==>
          XHeld(e, e.log[i].tid, e.log[i].body.tab))
  }

  ghost predicate EndingsOk(e: State) {
    EndsOnce(e.log) && forall t :: t in e.txns && !Live(e, t) ==> Ended(e.log, t)
  }

  /** One commit record per entry of the history, and on disk the commit record of everybody whose commit returned. */
  ghost predicate DurableOk(e: State) {
    && e.durable <= |e.log| && |e.history| == Commits(e.log)
    && (forall t :: t in e.txns && e.txns[t].status == Done ==> t in CommittedOf(e.log[..e.durable]))
  }

  ghost predicate LogOk(e: State) { RecordsOk(e) && EndingsOk(e) && DurableOk(e) }

  ghost predicate Ended(log: Log, t: TxnId) {
    exists i :: 0 <= i < |log| && log[i].tid == t && IsEnd(log[i].body)
  }

  /** The table as the log describes it: a logged change counts as made, an unlogged insert does not. */
  function View(now: Table, p: Phase, tab: TableName): Table {
    match p
    case Ready => now
    case ChangeLogged(q, rid, _, image) => if q == tab then Put(now, rid, image) else now
    case ChangeFlushed(q, rid, _, image) => if q == tab then Put(now, rid, image) else now
    case Inserted(q, rid, _) => if q == tab then now - {rid} else now
    case InsertLogged(_, _, _) => now
  }

  /** The log of a writer's table. */
  ghost predicate WriterLogged(init: Table, serial: Table, now: Table, log: Log, t: TxnId, status: Status,
      tab: TableName)
  {
    && UndoTable(ActualTable(init, log, tab), log, {t}, tab) == serial
    && (status == Running ==>
          ActualTable(init, log, tab) == now && RedoTable(init, log, CommittedOf(log) + {t}, tab) == now)
  }

  function ViewOf(e: State, t: TxnId, tab: TableName): Table
    requires t in e.txns && tab in e.db
  {
    View(e.db[tab], e.txns[t].phase, tab)
  }

  /** The log of one table: its commits rebuild the serial state, its before-images are accurate, its writers
      are separated, and what it says happened is what is there. */
  ghost predicate LoggedAt(init: Table, e: State, tab: TableName)
    requires tab in e.db
  {
    var serial := Replay(init, e.history, tab);
    && RedoTable(init, e.log, CommittedOf(e.log), tab) == serial
    && AccurateBefore(init, e.log, tab)
    && Separated(e.log, tab)
    && ((forall t :: !Writer(e, t, tab)) ==> ActualTable(init, e.log, tab) == serial)
    && (forall t :: Writer(e, t, tab) ==>
      WriterLogged(init, serial, ViewOf(e, t, tab), e.log, t, e.txns[t].status, tab))
  }

  // ---------------------------------------------------------------------- LogOk is kept

  lemma LiveNotCommitted(e: State, t: TxnId)
    requires LogOk(e) && Live(e, t)
    ensures t !in CommittedOf(e.log) && !Ended(e.log, t)
  {
    hide HeldMode;
    CommittedIff(e.log, t);
  }

  lemma NotHeldNoRecords(e: State, t: TxnId, tab: TableName)
    requires LogOk(e) && Live(e, t) && !XHeld(e, t, tab)
    ensures NoRecords(e.log, t, tab)
  {
    hide HeldMode;
  }

  /** A longer durable part keeps every commit. */
  lemma CommittedPrefix(log: Log, a: nat, b: nat, t: TxnId)
    requires a <= b <= |log| && t in CommittedOf(log[..a])
    ensures t in CommittedOf(log[..b])
  {
    hide CommittedOf;
    CommittedIff(log[..a], t);
    CommittedIff(log[..b], t);
    var i :| 0 <= i < a && log[..a][i].tid == t && log[..a][i].body.CommitBody?;
    assert log[..b][i] == log[..a][i];
  }

  /** Steps that do not append to the log. */
  ghost predicate QuietFor(e: State, e': State, t: TxnId)
    requires t in e.txns && t in e'.txns
  {
    && (Live(e, t) <==> Live(e', t)) && (HasCommitted(e.txns[t]) <==> HasCommitted(e'.txns[t]))
    && (e'.txns[t].status == Done ==> e.txns[t].status == Done || (HasCommitted(e.txns[t]) && e'.durable == |e.log|))
  }

  lemma SameLogOk(e: State, e': State)
    requires LogOk(e) && e'.log == e.log && e'.history == e.history
      && (e'.durable == e.durable || e'.durable == |e.log|)
    requires forall t :: t in e.txns <==> t in e'.txns
    requires forall t :: t in e.txns ==> QuietFor(e, e', t)
    requires forall t :: Live(e, t) ==> KeepsHoldings(e, e', t)
    ensures LogOk(e')
  {
    hide XHeld;
    hide RHeld;
    hide CommittedOf;
    hide Commits;
    forall t | t in e'.txns && e'.txns[t].status == Done ensures t in CommittedOf(e'.log[..e'.durable]) {
      if e.txns[t].status == Done { CommittedPrefix(e.log, e.durable, e'.durable, t); }
      else {
        assert e.log[..|e.log|] == e.log;
        CommittedByStatus(e, t);
      }
    }
  }

  lemma CommittedByStatus(e: State, t: TxnId)
    requires LogOk(e) && t in e.txns && HasCommitted(e.txns[t])
    ensures t in CommittedOf(e.log)
  {
    hide XHeld;
    hide Commits;
    CommittedIff(e.log, t);
    assert Ended(e.log, t);
  }

  lemma EndsOncePush(log: Log, r: LogRecord)
    requires EndsOnce(log) && !Ended(log, r.tid)
    ensures EndsOnce(log + [r])
  {
  }

  lemma EndedPush(log: Log, r: LogRecord, t: TxnId)
    ensures Ended(log + [r], t) <==> Ended(log, t) || (r.tid == t && IsEnd(r.body))
  {
    if Ended(log, t) {
      var i :| 0 <= i < |log| && log[i].tid == t && IsEnd(log[i].body);
      assert (log + [r])[i] == log[i];
    }
    if r.tid == t && IsEnd(r.body) { assert (log + [r])[|log|] == r; }
    if Ended(log + [r], t) {
      var i :| 0 <= i < |log + [r]| && (log + [r])[i].tid == t && IsEnd((log + [r])[i].body);
      if i < |log| { assert log[i] == (log + [r])[i]; }
    }
  }

  /** The state after appending record r on behalf of its transaction. */
  ghost predicate Appended(e: State, e': State, r: LogRecord) {
    && e'.locks == e.locks && e'.log == e.log + [r] && r.lsn == |e.log| && e'.durable == e.durable
    && |e'.history| == |e.history| + (if r.body.CommitBody? then 1 else 0)
    && r.tid in e'.txns && (r.tid in e.txns ==> Live(e, r.tid)) && e'.txns[r.tid].status != Done
    && (forall u :: u != r.tid ==> (u in e.txns <==> u in e'.txns) && (u in e.txns ==> e'.txns[u] == e.txns[u]))
    && (Live(e', r.tid) <==> !IsEnd(r.body)) && (IsEnd(r.body) ==> EndedAs(e'.txns[r.tid], r.body))
    && (IsData(r.body) ==> XHeld(e', r.tid, r.body.tab))
  }

  lemma PushRecordsOk(e: State, e': State, r: LogRecord)
    requires RecordsOk(e) && Appended(e, e', r)
    requires !Ended(e.log, r.tid)
    ensures RecordsOk(e')
  {
    hide HeldMode;
    forall i | 0 <= i < |e'.log| && IsEnd(e'.log[i].body) ensures EndedAs(e'.txns[e'.log[i].tid], e'.log[i].body) {
      assert i < |e.log| ==> e.log[i] == e'.log[i];
    }
  }

  lemma PushEndingsOk(e: State, e': State, r: LogRecord)
    requires EndingsOk(e) && Appended(e, e', r) && !Ended(e.log, r.tid)
    ensures EndingsOk(e')
  {
    hide HeldMode;
    hide EndsOnce;
    hide Ended;
    EndsOncePush(e.log, r);
    forall u ensures Ended(e'.log, u) <==> Ended(e.log, u) || (r.tid == u && IsEnd(r.body)) {
      EndedPush(e.log, r, u);
    }
  }

  lemma PushDurableOk(e: State, e': State, r: LogRecord)
    requires DurableOk(e) && Appended(e, e', r)
    ensures DurableOk(e')
  {
    hide HeldMode;
    hide CommittedOf;
    assert e'.log[..|e.log|] == e.log && e'.log[..e.durable] == e.log[..e.durable];
  }

  lemma PushLogOk(e: State, e': State, r: LogRecord)
    requires LogOk(e) && Appended(e, e', r)
    ensures LogOk(e')
  {
    hide RecordsOk;
    hide EndingsOk;
    hide DurableOk;
    hide Appended;
    assert !Ended(e.log, r.tid) by { AppenderNotEnded(e, e', r); }
    PushRecordsOk(e, e', r);
    PushEndingsOk(e, e', r);
    PushDurableOk(e, e', r);
  }

  lemma AppenderNotEnded(e: State, e': State, r: LogRecord)
    requires LogOk(e) && Appended(e, e', r)
    ensures !Ended(e.log, r.tid)
  {
    hide HeldMode;
    hide LogOk;
    NotEndedYet(e, r.tid);
  }

  lemma NotEndedYet(e: State, t: TxnId)
    requires LogOk(e) && (t in e.txns ==> Live(e, t))
    ensures !Ended(e.log, t)
  {
    hide HeldMode;
  }

  predicate Logging(s: Step) { s.Begin? || s.LogChange? || s.LogInsert? || s.LogCommit? || s.LogAbort? }

  lemma KeepsLogOk(e: State, s: Step)
    requires LogOk(e) && Disciplined(e) && Enabled(e, s)
    ensures LogOk(Do(e, s))
  {
    hide LogOk;
    hide Disciplined;
    hide Do;
    hide Enabled;
    if Logging(s) { LoggingStepLogOk(e, s); }
    else if s.LockItem? { LockLogOk(e, s.t, s.id, s.mode); }
    else if s.Unlock? { UnlockLogOk(e, s); }
    else { QuietLogOk(e, s); }
  }

  lemma UnlockLogOk(e: State, s: Step)
    requires LogOk(e) && Disciplined(e) && s.Unlock? && Enabled(e, s)
    ensures LogOk(Do(e, s))
  {
    hide HeldMode;
    hide LogOk;
    hide Disciplined;
    hide Release;
    var e' := Do(e, s);
    forall u | Live(e, u) ensures KeepsHoldings(e, e', u) { UnlockOnly(e, s.t, s.id, u); }
    SameLogOk(e, e');
  }

  lemma LoggingStepLogOk(e: State, s: Step)
    requires LogOk(e) && Disciplined(e) && Enabled(e, s) && Logging(s)
    ensures LogOk(Do(e, s))
  {
    hide Do;
    hide Enabled;
    hide LogOk;
    hide Disciplined;
    hide Appended;
    LoggingStepAppends(e, s);
    PushLogOk(e, Do(e, s), Do(e, s).log[|e.log|]);
  }

  lemma LoggingStepAppends(e: State, s: Step)
    requires Disciplined(e) && Enabled(e, s) && Logging(s)
    ensures |Do(e, s).log| == |e.log| + 1 && Appended(e, Do(e, s), Do(e, s).log[|e.log|])
  {
    hide Do;
    hide Enabled;
    hide Disciplined;
    hide Appended;
    if s.LogChange? { ChangeAppends(e, s); }
    else if s.LogInsert? { InsertAppends(e, s); }
    else { EndAppends(e, s); }
  }

  lemma ChangeAppends(e: State, s: Step)
    requires Enabled(e, s) && s.LogChange?
    ensures |Do(e, s).log| == |e.log| + 1 && Appended(e, Do(e, s), Do(e, s).log[|e.log|])
  {
    hide HeldMode;
  }

  lemma InsertAppends(e: State, s: Step)
    requires Disciplined(e) && Enabled(e, s) && s.LogInsert?
    ensures |Do(e, s).log| == |e.log| + 1 && Appended(e, Do(e, s), Do(e, s).log[|e.log|])
  {
    hide HeldMode;
    hide LocksOk;
    hide HoldersOk;
    assert Covered(e, s.t);
  }

  lemma EndAppends(e: State, s: Step)
    requires Enabled(e, s) && (s.Begin? || s.LogCommit? || s.LogAbort?)
    ensures |Do(e, s).log| == |e.log| + 1 && Appended(e, Do(e, s), Do(e, s).log[|e.log|])
  {
    hide HeldMode;
  }

  lemma QuietLogOk(e: State, s: Step)
    requires LogOk(e) && Enabled(e, s) && !Logging(s) && !s.LockItem? && !s.Unlock?
    ensures LogOk(Do(e, s))
  {
    hide HeldMode;
    hide LogOk;
    hide UndoWrite;
    hide UndoRecordOf;
    var e' := Do(e, s);
    forall u ensures KeepsHoldings(e, e', u) { SameLocksHoldings(e, e', u); }
    SameLogOk(e, e');
  }

  lemma LockLogOk(e: State, t: TxnId, id: LockDataId, mode: LockMode)
    requires LogOk(e) && Disciplined(e) && Enabled(e, LockItem(t, id, mode))
    ensures LogOk(Do(e, LockItem(t, id, mode)))
  {
    hide HeldMode;
    hide LogOk;
    hide Disciplined;
    hide Acquire;
    var e' := Do(e, LockItem(t, id, mode));
    forall u | Live(e, u) ensures KeepsHoldings(e, e', u) {
      if Acquire(e.locks.table, t, id, mode).Some? { GrantAdds(e, t, id, mode, u); }
      else { SameLocksHoldings(e, e', u); }
    }
    SameLogOk(e, e');
  }

  // -------------------------------------------------------------------- LoggedAt is kept

  lemma SameLogLoggedAt(init: Table, e: State, e': State, tab: TableName)
    requires tab in e.db && tab in e'.db && LoggedAt(init, e, tab)
    requires e'.log == e.log && e'.history == e.history
    requires forall t :: Writer(e', t, tab) <==> Writer(e, t, tab)
    requires forall t :: Writer(e', t, tab) && e'.txns[t].status == Running ==>
               Writer(e, t, tab) && e.txns[t].status == Running && ViewOf(e', t, tab) == ViewOf(e, t, tab)
    ensures LoggedAt(init, e', tab)
  {
    hide XHeld;
    hide ViewOf;
    hide Replay;
    hide AccurateBefore;
    hide Separated;
    hide RedoTable;
    hide UndoTable;
    hide ActualTable;
    hide CommittedOf;
  }

  /** Appending a record that is not an ending and does not touch the table changes none of the folds. */
  lemma NeutralPush(init: Table, log: Log, r: LogRecord, tab: TableName)
    requires !Touches(r, tab) && !IsEnd(r.body)
    ensures CommittedOf(log + [r]) == CommittedOf(log)
    ensures forall who :: RedoTable(init, log + [r], who, tab) == RedoTable(init, log, who, tab)
    ensures forall now, who :: UndoTable(now, log + [r], who, tab) == UndoTable(now, log, who, tab)
    ensures ActualTable(init, log + [r], tab) == ActualTable(init, log, tab)
  {
    hide RedoTable;
    hide UndoTable;
    hide ActualTable;
    hide CommittedOf;
    ClassifySnoc(log, r);
    ActualPush(init, log, r, tab);
    forall who ensures RedoTable(init, log + [r], who, tab) == RedoTable(init, log, who, tab) {
      RedoPush(init, log, r, who, tab);
    }
    forall now, who ensures UndoTable(now, log + [r], who, tab) == UndoTable(now, log, who, tab) {
      UndoPush(now, log, r, who, tab);
    }
  }

  lemma AccuratePush(init: Table, log: Log, r: LogRecord, tab: TableName)
    requires AccurateBefore(init, log, tab)
    requires Touches(r, tab) ==> Before(r.body) == Lookup(ActualTable(init, log, tab), r.body.rid)
    ensures AccurateBefore(init, log + [r], tab)
  {
    hide ActualTable;
    forall i | 0 <= i < |log + [r]| && Touches((log + [r])[i], tab)
      ensures Before((log + [r])[i].body) == Lookup(ActualTable(init, (log + [r])[..i], tab), (log + [r])[i].body.rid)
    {
      assert (log + [r])[..i] == log[..i];
      if i == |log| { assert log[..i] == log; }
    }
  }

  /** The end record of a transaction comes after everything else it logged. */
  lemma EndAfter(log: Log, i: nat, tab: TableName) returns (k: nat)
    requires EndsOnce(log) && i < |log| && Touches(log[i], tab) && Ended(log, log[i].tid)
    ensures i < k < |log| && log[k].tid == log[i].tid && IsEnd(log[k].body)
  {
    k :| 0 <= k < |log| && log[k].tid == log[i].tid && IsEnd(log[k].body);
  }

  lemma SeparatedPush(log: Log, r: LogRecord, tab: TableName)
    requires Separated(log, tab) && EndsOnce(log)
    requires Touches(r, tab) ==> forall i :: 0 <= i < |log| && Touches(log[i], tab) && log[i].tid != r.tid ==>
      Ended(log, log[i].tid)
    ensures Separated(log + [r], tab)
  {
    hide Touches;
    hide IsEnd;
    hide EndsOnce;
    hide Ended;
    var log' := log + [r];
    forall i, j | 0 <= i < j < |log'| && Touches(log'[i], tab) && Touches(log'[j], tab) && log'[i].tid != log'[j].tid
      ensures exists k :: i < k < j && log'[k].tid == log'[i].tid && IsEnd(log'[k].body)
    {
      assert log'[i] == log[i];
      if j < |log| {
        assert log'[j] == log[j];
        var k :| i < k < j && log[k].tid == log[i].tid && IsEnd(log[k].body);
        assert log'[k] == log[k];
      } else {
        var k := EndAfter(log, i, tab);
        assert log'[k] == log[k];
      }
    }
  }

  /** A begin record, or a write on another table. */
  lemma NeutralLoggedAt(init: Table, e: State, e': State, r: LogRecord, tab: TableName)
    requires tab in e.db && tab in e'.db && LoggedAt(init, e, tab) && EndsOnce(e.log)
    requires e'.log == e.log + [r] && e'.history == e.history
    requires !Touches(r, tab) && !IsEnd(r.body)
    requires forall t :: Writer(e', t, tab) <==> Writer(e, t, tab)
    requires forall t :: Writer(e', t, tab) ==>
               Writer(e, t, tab) && e'.txns[t].status == e.txns[t].status && ViewOf(e', t, tab) == ViewOf(e, t, tab)
    ensures LoggedAt(init, e', tab)
  {
    hide XHeld;
    hide ViewOf;
    hide Replay;
    hide AccurateBefore;
    hide Separated;
    hide RedoTable;
    hide UndoTable;
    hide ActualTable;
    hide CommittedOf;
    NeutralPush(init, e.log, r, tab);
    AccuratePush(init, e.log, r, tab);
    SeparatedPush(e.log, r, tab);
  }

  lemma PutBack(t: Table, rid: Rid, image: Option<Record>)
    ensures Put(Put(t, rid, image), rid, Lookup(t, rid)) == t
  {
  }

  lemma WriterLoggedPush(init: Table, serial: Table, now: Table, log: Log, r: LogRecord, tab: TableName)
    requires WriterLogged(init, serial, now, log, r.tid, Running, tab)
    requires Touches(r, tab) && Before(r.body) == Lookup(now, r.body.rid)
    ensures WriterLogged(init, serial, Put(now, r.body.rid, After(r.body)), log + [r], r.tid, Running, tab)
  {
    hide RedoTable;
    hide UndoTable;
    hide ActualTable;
    hide CommittedOf;
    ClassifySnoc(log, r);
    ActualPush(init, log, r, tab);
    RedoPush(init, log, r, CommittedOf(log) + {r.tid}, tab);
    UndoPush(ActualTable(init, log + [r], tab), log, r, {r.tid}, tab);
    PutBack(now, r.body.rid, After(r.body));
  }

  lemma OthersEnded(e: State, t: TxnId, tab: TableName, i: nat)
    requires LogOk(e) && Disciplined(e) && XHeld(e, t, tab)
    requires i < |e.log| && Touches(e.log[i], tab) && e.log[i].tid != t
    ensures Ended(e.log, e.log[i].tid)
  {
    hide HeldMode;
    hide LocksOk;
    if Live(e, e.log[i].tid) { WritersAgree(e, t, e.log[i].tid, tab); }
  }

  /** A row operation's record joins the log: its before-image is what the log says is there. */
  lemma WriteLoggedAt(init: Table, e: State, e': State, t: TxnId, r: LogRecord, tab: TableName)
    requires LogOk(e) && Disciplined(e) && IsRunning(e, t) && tab in e.db && LoggedAt(init, e, tab)
    requires e'.locks == e.locks && e'.db == e.db && e'.history == e.history && e'.log == e.log + [r]
    requires r.tid == t && Touches(r, tab) && XHeld(e, t, tab)
      && Before(r.body) == Lookup(ViewOf(e, t, tab), r.body.rid)
    requires IsRunning(e', t) && ViewOf(e', t, tab) == Put(ViewOf(e, t, tab), r.body.rid, After(r.body))
    requires forall u :: u != t ==> (u in e.txns <==> u in e'.txns) && (u in e.txns ==> e'.txns[u] == e.txns[u])
    ensures LoggedAt(init, e', tab)
  {
    hide HeldMode;
    hide LocksOk;
    hide ViewOf;
    hide Replay;
    hide AccurateBefore;
    hide Separated;
    hide WriterLogged;
    hide RedoTable;
    hide UndoTable;
    hide ActualTable;
    hide CommittedOf;
    assert forall u :: Writer(e', u, tab) <==> Writer(e, u, tab);
    assert Writer(e, t, tab);
    WriterSeesActual(init, e, t, tab);
    WriterLoggedPush(init, Replay(init, e.history, tab), ViewOf(e, t, tab), e.log, r, tab);
    LiveNotCommitted(e, t);
    ClassifySnoc(e.log, r);
    RedoPush(init, e.log, r, CommittedOf(e.log), tab);
    AccuratePush(init, e.log, r, tab);
    forall i | 0 <= i < |e.log| && Touches(e.log[i], tab) && e.log[i].tid != t ensures Ended(e.log, e.log[i].tid) {
      OthersEnded(e, t, tab, i);
    }
    SeparatedPush(e.log, r, tab);
    forall u | Writer(e', u, tab) ensures u == t { WritersAgree(e, t, u, tab); }
  }

  /** Logging a change. */
  lemma LogChangeLoggedAt(init: Table, e: State, s: Step, tab: TableName)
    requires LogOk(e) && Disciplined(e) && Enabled(e, s) && s.LogChange? && tab in e.db && LoggedAt(init, e, tab)
    ensures LoggedAt(init, Do(e, s), tab)
  {
    hide HeldMode;
    hide Disciplined;
    hide LoggedAt;
    hide LogOk;
    var e' := Do(e, s);
    var r := e'.log[|e.log|];
    assert e'.log == e.log + [r];
    assert forall u :: Writer(e', u, tab) <==> Writer(e, u, tab);
    if s.tab == tab {
      WriteLoggedAt(init, e, e', s.t, r, tab);
    } else {
      LogOkEndsOnce(e);
      NeutralLoggedAt(init, e, e', r, tab);
    }
  }

  /** Logging an insert that is in the heap. */
  lemma LogInsertLoggedAt(init: Table, e: State, s: Step, tab: TableName)
    requires LogOk(e) && Disciplined(e) && Enabled(e, s) && s.LogInsert?
    requires tab in e.db && LoggedAt(init, e, tab) && TableAt(init, e, tab)
    ensures LoggedAt(init, Do(e, s), tab)
  {
    hide HeldMode;
    hide Disciplined;
    hide LoggedAt;
    hide TableAt;
    hide LogOk;
    var e' := Do(e, s);
    var r := e'.log[|e.log|];
    assert e'.log == e.log + [r];
    assert forall u :: Writer(e', u, tab) <==> Writer(e, u, tab);
    if e.txns[s.t].phase.tab == tab {
      InsertedIsThere(init, e, s.t);
      WriteLoggedAt(init, e, e', s.t, r, tab);
    } else {
      LogOkEndsOnce(e);
      NeutralLoggedAt(init, e, e', r, tab);
    }
  }

  lemma LogOkEndsOnce(e: State)
    requires LogOk(e)
    ensures EndsOnce(e.log)
  {
  }

  /** An insert that is about to be logged is in the heap. */
  lemma InsertedIsThere(init: Table, e: State, t: TxnId)
    requires Disciplined(e) && IsRunning(e, t) && e.txns[t].phase.Inserted? && e.txns[t].phase.tab in e.db
    requires TableAt(init, e, e.txns[t].phase.tab)
    ensures var p := e.txns[t].phase;
      XHeld(e, t, p.tab) && Lookup(e.db[p.tab], p.rid) == Some(p.value)
      && (e.db[p.tab] - {p.rid})[p.rid := p.value] == e.db[p.tab]
  {
    hide HeldMode;
    hide LocksOk;
    hide Replay;
    hide RollBack;
    hide RollBackDefined;
    hide ApplyOps;
    var p := e.txns[t].phase;
    assert Covered(e, t) && Writer(e, t, p.tab);
    assert WriterOk(Replay(init, e.history, p.tab), e.db[p.tab], e.txns[t], p.tab);
  }

  lemma WriterSeesActual(init: Table, e: State, t: TxnId, tab: TableName)
    requires tab in e.db && LoggedAt(init, e, tab) && Writer(e, t, tab) && IsRunning(e, t)
    ensures ActualTable(init, e.log, tab) == ViewOf(e, t, tab)
    ensures WriterLogged(init, Replay(init, e.history, tab), ViewOf(e, t, tab), e.log, t, Running, tab)
  {
    hide XHeld;
    hide ViewOf;
    hide Replay;
    hide AccurateBefore;
    hide Separated;
    hide RedoTable;
    hide UndoTable;
    hide ActualTable;
    hide CommittedOf;
    assert WriterLogged(init, Replay(init, e.history, tab), ViewOf(e, t, tab), e.log, t, e.txns[t].status, tab);
  }

  /** A new writer has written nothing to the table yet. */
  lemma LockLoggedAt(init: Table, e: State, t: TxnId, id: LockDataId, mode: LockMode, tab: TableName)
    requires LogOk(e) && Disciplined(e) && Enabled(e, LockItem(t, id, mode)) && tab in e.db
    requires LoggedAt(init, e, tab) && TableAt(init, e, tab)
    ensures LoggedAt(init, Do(e, LockItem(t, id, mode)), tab)
  {
    hide HeldMode;
    hide LocksOk;
    hide Acquire;
    hide Replay;
    hide AccurateBefore;
    hide Separated;
    hide WriterOk;
    hide WriterLogged;
    hide RedoTable;
    hide UndoTable;
    hide ActualTable;
    hide CommittedOf;
    var e' := Do(e, LockItem(t, id, mode));
    if Acquire(e.locks.table, t, id, mode).None? {
      assert forall u :: Writer(e', u, tab) <==> Writer(e, u, tab);
      SameLogLoggedAt(init, e, e', tab);
    } else {
      forall u ensures KeepsHoldings(e, e', u) && (XHeld(e', u, tab) && !XHeld(e, u, tab) ==>
                         u == t && id == TableLock(tab) && mode == Exclusive) {
        GrantAdds(e, t, id, mode, u);
      }
      if XHeld(e', t, tab) && !XHeld(e, t, tab) {
        forall u ensures !Writer(e, u, tab) { NewWriterAlone(e, t, tab, u); }
        NewWriterLogged(init, e, t, tab);
      }
      assert forall u :: Writer(e, u, tab) ==> Writer(e', u, tab);
      assert forall u :: Writer(e', u, tab) && u != t ==> Writer(e, u, tab);
    }
  }

  lemma NewWriterLogged(init: Table, e: State, t: TxnId, tab: TableName)
    requires LogOk(e) && Live(e, t) && !XHeld(e, t, tab) && tab in e.db
    requires LoggedAt(init, e, tab) && TableAt(init, e, tab) && forall u :: !Writer(e, u, tab)
    ensures WriterLogged(init, Replay(init, e.history, tab), e.db[tab], e.log, t, e.txns[t].status, tab)
  {
    hide XHeld;
    hide Replay;
    hide AccurateBefore;
    hide Separated;
    hide RedoTable;
    hide UndoTable;
    hide ActualTable;
    hide CommittedOf;
    hide LogOk;
    NotHeldNoRecords(e, t, tab);
    UndoNoRecords(ActualTable(init, e.log, tab), e.log, t, tab);
    RedoNoRecords(init, e.log, CommittedOf(e.log), t, tab);
  }

  /** Somebody else's abort, on a table they never wrote. */
  lemma AbortOtherWriter(init: Table, serial: Table, now: Table, log: Log, r: LogRecord, u: TxnId, status: Status,
      tab: TableName)
    requires WriterLogged(init, serial, now, log, u, status, tab)
    requires r.body.AbortBody? && NoRecords(log, r.tid, tab)
    ensures WriterLogged(init, serial, now, log + [r], u, status, tab)
  {
    hide RedoTable;
    hide UndoTable;
    hide ActualTable;
    hide CommittedOf;
    ClassifySnoc(log, r);
    ActualPush(init, log, r, tab);
    UndoNoRecords(ActualTable(init, log, tab), log, r.tid, tab);
    UndoPush(ActualTable(init, log, tab), log, r, {u}, tab);
    RedoPush(init, log, r, CommittedOf(log) + {u}, tab);
  }

  lemma FinishLoggedAt(init: Table, e: State, t: TxnId, tab: TableName)
    requires LogOk(e) && Disciplined(e) && Enabled(e, LogAbort(t)) && tab in e.db && LoggedAt(init, e, tab)
    ensures LoggedAt(init, Do(e, LogAbort(t)), tab)
  {
    hide HeldMode;
    hide LocksOk;
    hide LogOk;
    hide Replay;
    hide AccurateBefore;
    hide Separated;
    hide WriterLogged;
    hide RedoTable;
    hide UndoTable;
    hide ActualTable;
    hide CommittedOf;
    var e' := Do(e, LogAbort(t));
    var r := e'.log[|e.log|];
    assert e'.log == e.log + [r] && !Touches(r, tab);
    LogOkEndsOnce(e);
    ClassifySnoc(e.log, r);
    ActualPush(init, e.log, r, tab);
    AccuratePush(init, e.log, r, tab);
    SeparatedPush(e.log, r, tab);
    RedoPush(init, e.log, r, CommittedOf(e.log), tab);
    assert forall u :: Writer(e', u, tab) <==> Writer(e, u, tab) && u != t;
    if XHeld(e, t, tab) {
      assert Writer(e, t, tab);
      WriterUndone(init, e, t, tab);
      forall u ensures !Writer(e', u, tab) { if Writer(e, u, tab) { WritersAgree(e, t, u, tab); } }
    } else {
      NotHeldNoRecords(e, t, tab);
      UndoNoRecords(ActualTable(init, e.log, tab), e.log, t, tab);
      forall u | Writer(e', u, tab)
        ensures WriterLogged(init, Replay(init, e'.history, tab), ViewOf(e', u, tab), e'.log, u, e'.txns[u].status, tab)
      {
        AbortOtherWriter(init, Replay(init, e.history, tab), ViewOf(e, u, tab), e.log, r, u, e.txns[u].status, tab);
      }
    }
  }

  lemma WriterUndone(init: Table, e: State, t: TxnId, tab: TableName)
    requires tab in e.db && LoggedAt(init, e, tab) && Writer(e, t, tab)
    ensures UndoTable(ActualTable(init, e.log, tab), e.log, {t}, tab) == Replay(init, e.history, tab)
  {
    hide XHeld;
    hide ViewOf;
    hide Replay;
    hide RedoTable;
    hide UndoTable;
    hide ActualTable;
    hide CommittedOf;
    assert WriterLogged(init, Replay(init, e.history, tab), ViewOf(e, t, tab), e.log, t, e.txns[t].status, tab);
  }

  lemma CommitLoggedAt(init: Table, e: State, t: TxnId, tab: TableName)
    requires LogOk(e) && Disciplined(e) && Enabled(e, LogCommit(t)) && tab in e.db
    requires LoggedAt(init, e, tab) && TableAt(init, e, tab)
    ensures LoggedAt(init, Do(e, LogCommit(t)), tab)
  {
    hide HeldMode;
    hide LocksOk;
    hide LogOk;
    hide Replay;
    hide AccurateBefore;
    hide Separated;
    hide TableAt;
    hide WriterLogged;
    hide RedoTable;
    hide UndoTable;
    hide ActualTable;
    hide CommittedOf;
    var e' := Do(e, LogCommit(t));
    var r := e'.log[|e.log|];
    assert e'.log == e.log + [r] && !Touches(r, tab);
    CommitReplay(init, e, t, tab);
    LogOkEndsOnce(e);
    ClassifySnoc(e.log, r);
    ActualPush(init, e.log, r, tab);
    AccuratePush(init, e.log, r, tab);
    SeparatedPush(e.log, r, tab);
    RedoPush(init, e.log, r, CommittedOf(e.log) + {t}, tab);
    assert forall u :: Writer(e', u, tab) <==> Writer(e, u, tab) && u != t;
    if XHeld(e, t, tab) {
      CommitOwnTable(init, e, t, tab);
      forall u ensures !Writer(e', u, tab) { if Writer(e, u, tab) { WritersAgree(e, t, u, tab); } }
    } else {
      NotHeldNoRecords(e, t, tab);
      RedoNoRecords(init, e.log, CommittedOf(e.log), t, tab);
      forall u | Writer(e', u, tab)
        ensures WriterLogged(init, Replay(init, e'.history, tab), ViewOf(e', u, tab), e'.log, u, e'.txns[u].status, tab)
      {
        CommitOtherWriter(init, Replay(init, e.history, tab), ViewOf(e, u, tab), e.log, r, u, e.txns[u].status, tab);
      }
    }
  }

  lemma CommitOwnTable(init: Table, e: State, t: TxnId, tab: TableName)
    requires tab in e.db && LoggedAt(init, e, tab) && IsReady(e, t) && XHeld(e, t, tab)
    ensures ActualTable(init, e.log, tab) == e.db[tab]
    ensures RedoTable(init, e.log, CommittedOf(e.log) + {t}, tab) == e.db[tab]
  {
    hide XHeld;
    hide Replay;
    hide RedoTable;
    hide UndoTable;
    hide ActualTable;
    hide CommittedOf;
    assert Writer(e, t, tab);
    assert WriterLogged(init, Replay(init, e.history, tab), ViewOf(e, t, tab), e.log, t, e.txns[t].status, tab);
  }

  /** Somebody else's commit, on a table they never wrote. */
  lemma CommitOtherWriter(init: Table, serial: Table, now: Table, log: Log, r: LogRecord, u: TxnId, status: Status,
      tab: TableName)
    requires WriterLogged(init, serial, now, log, u, status, tab)
    requires r.body.CommitBody? && NoRecords(log, r.tid, tab)
    ensures WriterLogged(init, serial, now, log + [r], u, status, tab)
  {
    hide RedoTable;
    hide UndoTable;
    hide ActualTable;
    hide CommittedOf;
    var c := CommittedOf(log);
    ClassifySnoc(log, r);
    ActualPush(init, log, r, tab);
    UndoPush(ActualTable(init, log, tab), log, r, {u}, tab);
    RedoPush(init, log, r, c + {r.tid} + {u}, tab);
    RedoNoRecords(init, log, c + {u}, r.tid, tab);
    assert c + {r.tid} + {u} == c + {u} + {r.tid};
  }

  lemma KeepsLoggedAt(init: Table, e: State, s: Step, tab: TableName)
    requires LogOk(e) && Disciplined(e) && Enabled(e, s) && tab in e.db
    requires LoggedAt(init, e, tab) && TableAt(init, e, tab)
    ensures tab in Do(e, s).db && LoggedAt(init, Do(e, s), tab)
  {
    hide LogOk;
    hide Disciplined;
    hide LoggedAt;
    hide TableAt;
    hide Do;
    hide Enabled;
    SameTables(e, s);
    match s
    case Begin(t) => BeginLoggedAt(init, e, t, tab);
    case LogChange(t, _, _, _) => LogChangeLoggedAt(init, e, s, tab);
    case LogInsert(t) => LogInsertLoggedAt(init, e, s, tab);
    case LogCommit(t) => CommitLoggedAt(init, e, t, tab);
    case LogAbort(t) => FinishLoggedAt(init, e, t, tab);
    case LockItem(t, id, mode) => LockLoggedAt(init, e, t, id, mode, tab);
    case Unlock(t, id) => UnlockLoggedAt(init, e, t, id, tab);
    case UndoOne(t) => UndoLoggedAt(init, e, t, tab);
    case ApplyChange(t) => HeapLoggedAt(init, e, s, tab);
    case InsertHeap(t, _, _, _) => HeapLoggedAt(init, e, s, tab);
    case RefuseChange(t) => QuietLoggedAt(init, e, s, tab);
    case Read(t, _, _) => QuietLoggedAt(init, e, s, tab);
    case Scan(t, _) => QuietLoggedAt(init, e, s, tab);
    case StartAbort(t) => QuietLoggedAt(init, e, s, tab);
    case Flush(t) => QuietLoggedAt(init, e, s, tab);
    case FlushBuffer => QuietLoggedAt(init, e, s, tab);
  }

  lemma BeginLoggedAt(init: Table, e: State, t: TxnId, tab: TableName)
    requires LogOk(e) && Disciplined(e) && Enabled(e, Begin(t)) && tab in e.db && LoggedAt(init, e, tab)
    ensures LoggedAt(init, Do(e, Begin(t)), tab)
  {
    hide HeldMode;
    hide LocksOk;
    hide LoggedAt;
    hide LogOk;
    var e' := Do(e, Begin(t));
    LogOkEndsOnce(e);
    assert !XHeld(e, t, tab);
    NeutralLoggedAt(init, e, e', e'.log[|e.log|], tab);
  }

  lemma UnlockLoggedAt(init: Table, e: State, t: TxnId, id: LockDataId, tab: TableName)
    requires Disciplined(e) && Enabled(e, Unlock(t, id)) && tab in e.db && LoggedAt(init, e, tab)
    ensures LoggedAt(init, Do(e, Unlock(t, id)), tab)
  {
    hide HeldMode;
    hide Disciplined;
    hide LoggedAt;
    hide Release;
    var e' := Do(e, Unlock(t, id));
    forall u ensures Writer(e', u, tab) <==> Writer(e, u, tab) { if u != t { UnlockOnly(e, t, id, u); } }
    SameLogLoggedAt(init, e, e', tab);
  }

  /** The heap changes when the log already says so, or does not say so yet: the log's view stays. */
  lemma HeapLoggedAt(init: Table, e: State, s: Step, tab: TableName)
    requires Disciplined(e) && Enabled(e, s) && (s.ApplyChange? || s.InsertHeap?) && tab in e.db
      && LoggedAt(init, e, tab)
    ensures LoggedAt(init, Do(e, s), tab)
  {
    hide HeldMode;
    hide LocksOk;
    hide LoggedAt;
    var e', q := Do(e, s), if s.InsertHeap? then s.tab else e.txns[s.t].phase.tab;
    assert Covered(e, s.t) && XHeld(e, s.t, q);
    assert forall u :: Writer(e', u, tab) <==> Writer(e, u, tab);
    forall u | Writer(e', u, tab) && e'.txns[u].status == Running ensures ViewOf(e', u, tab) == ViewOf(e, u, tab) {
      if q == tab { WritersAgree(e, s.t, u, tab); }
      if s.InsertHeap? && q == tab { assert e.db[tab][s.rid := s.value] - {s.rid} == e.db[tab]; }
    }
    SameLogLoggedAt(init, e, e', tab);
  }

  lemma QuietLoggedAt(init: Table, e: State, s: Step, tab: TableName)
    requires Disciplined(e) && Enabled(e, s) && tab in e.db && LoggedAt(init, e, tab)
    requires s.RefuseChange? || s.Read? || s.Scan? || s.StartAbort? || s.Flush? || s.FlushBuffer?
    ensures LoggedAt(init, Do(e, s), tab)
  {
    hide HeldMode;
    hide Disciplined;
    hide LoggedAt;
    hide Put;
    hide UndoRecordOf;
    SameLogLoggedAt(init, e, Do(e, s), tab);
  }

  lemma UndoLoggedAt(init: Table, e: State, t: TxnId, tab: TableName)
    requires Disciplined(e) && Enabled(e, UndoOne(t)) && tab in e.db && LoggedAt(init, e, tab)
    ensures LoggedAt(init, Do(e, UndoOne(t)), tab)
  {
    hide HeldMode;
    hide LocksOk;
    hide LoggedAt;
    hide UndoWrite;
    var e', w := Do(e, UndoOne(t)), e.txns[t].undo[|e.txns[t].undo| - 1];
    assert Covered(e, t) && XHeld(e, t, w.tab);
    assert forall u :: Writer(e', u, tab) <==> Writer(e, u, tab);
    forall u | Writer(e', u, tab) && e'.txns[u].status == Running ensures e'.db[tab] == e.db[tab] {
      if w.tab == tab { WritersAgree(e, t, u, tab); }
    }
    SameLogLoggedAt(init, e, e', tab);
  }

  // ------------------------------------------------------------------------- every run

  ghost predicate AllLogged(init: Db, e: State) {
    e.db.Keys == init.Keys && LogOk(e) && forall tab :: tab in init ==> LoggedAt(init[tab], e, tab)
  }

  lemma InitialLogged(init: Db)
    ensures AllLogged(init, Initial(init))
  {
    forall tab | tab in init ensures LoggedAt(init[tab], Initial(init), tab) {
      hide HeldMode;
    }
  }

  lemma KeepsAllLogged(init: Db, e: State, s: Step)
    requires Inv(init, e) && AllLogged(init, e) && Enabled(e, s)
    ensures AllLogged(init, Do(e, s))
  {
    hide Disciplined;
    hide LogOk;
    hide ReadsSerial;
    hide HistoryOk;
    hide TableAt;
    hide LoggedAt;
    hide Do;
    hide Enabled;
    SameTables(e, s);
    KeepsLogOk(e, s);
    forall tab | tab in init ensures tab in Do(e, s).db && LoggedAt(init[tab], Do(e, s), tab) {
      KeepsLoggedAt(init[tab], e, s, tab);
    }
  }

  lemma {:induction false} LoggedInEveryRun(init: Db, steps: seq<Step>, states: seq<State>, n: nat)
    requires IsRun(init, steps, states) && n <= |steps|
    ensures Inv(init, states[n]) && AllLogged(init, states[n])
  {
    hide Inv;
    hide AllLogged;
    hide Do;
    hide Enabled;
    InvInEveryRun(init, steps, states, n);
    if n == 0 {
      InitialLogged(init);
    } else {
      LoggedInEveryRun(init, steps, states, n - 1);
      KeepsAllLogged(init, states[n - 1], steps[n - 1]);
    }
  }
}
