/** A crash at any moment of any interleaving, with any surviving part of the log and any disk image that the run can
    have left, followed by restart recovery. */
module CrashRecovery {
  import opened Types
  import opened Locking
  import opened LogCodec
  import opened Recovery
  import opened Engine
  import opened Serializability
  import opened LogInvariant
  import opened WriteAhead

  // ------------------------------------------------------------ durability in every run

  /** Durability and write-ahead logging, in every state of every interleaving: the commit record of everybody whose
      commit has returned is on disk; everything that a transaction would roll back is on disk, except an insert in
      progress; and a rid without a record on disk holds what it held at first, unless it is being inserted. */
  lemma DurableInEveryRun(init: Db, steps: seq<Step>, states: seq<State>, n: nat)
    requires IsRun(init, steps, states) && n <= |steps|
    ensures var e := states[n];
      && e.durable <= |e.log| && e.db.Keys == init.Keys
      && (forall i :: 0 <= i < |e.log| ==> e.log[i].lsn == i)
      && (forall t :: t in e.txns && e.txns[t].status == Done ==> t in CommittedOf(e.log[..e.durable]))
      && (forall t, i :: Live(e, t) && 0 <= i < |e.txns[t].undo| ==>
            var w := e.txns[t].undo[i]; OnDisk(e, w.tab, w.rid) || InInsert(e.txns[t].phase, w.tab, w.rid))
      && (forall tab, rid :: tab in init && !OnDisk(e, tab, rid) && !OpenInsert(e, tab, rid) ==>
            Lookup(e.db[tab], rid) == Lookup(init[tab], rid))
  {
    hide Do;
    hide Enabled;
    hide Inv;
    hide Disciplined;
    hide LoggedAt;
    hide OnDisk;
    hide OpenInsert;
    hide CommittedOf;
    hide EndingsOk;
    LoggedInEveryRun(init, steps, states, n);
    WalInEveryRun(init, steps, states, n);
    var e := states[n];
    forall tab, rid | tab in init && !OnDisk(e, tab, rid) && !OpenInsert(e, tab, rid)
      ensures Lookup(e.db[tab], rid) == Lookup(init[tab], rid)
    {
      assert RidLogged(init[tab], e, tab, rid);
    }
    forall t, i | Live(e, t) && 0 <= i < |e.txns[t].undo|
      ensures var w := e.txns[t].undo[i]; OnDisk(e, w.tab, w.rid) || InInsert(e.txns[t].phase, w.tab, w.rid)
    {
      assert TxnLogged(e, t);
    }
  }

  // --------------------------------------------------------------- earlier moments of a run

  /** Log, durable part and history only grow along a run. */
  lemma {:induction false} RunGrows(init: Db, steps: seq<Step>, states: seq<State>, m: nat, n: nat)
    requires IsRun(init, steps, states) && m <= n <= |steps|
    ensures Grows(states[m], states[n]) && states[m].history <= states[n].history
    decreases n - m
  {
    hide Do;
    hide Enabled;
    hide Wal;
    WalFits(init, steps, states, m);
    if m == n {
    } else {
      RunGrows(init, steps, states, m, n - 1);
      StepGrows(states[n - 1], steps[n - 1]);
      HistoryGrows(states[n - 1], steps[n - 1]);
    }
  }

  lemma WalFits(init: Db, steps: seq<Step>, states: seq<State>, n: nat)
    requires IsRun(init, steps, states) && n <= |steps|
    ensures states[n].durable <= |states[n].log| && states[n].db.Keys == init.Keys
  {
    hide Do;
    hide Enabled;
    hide TxnLogged;
    hide RidLogged;
    WalInEveryRun(init, steps, states, n);
  }

  lemma HistoryGrows(e: State, s: Step)
    requires Enabled(e, s)
    ensures e.history <= Do(e, s).history && |Do(e, s).log| <= |e.log| + 1
  {
    hide HeldMode;
    hide Acquire;
    hide Release;
    hide LogBodyOf;
    hide AfterFlush;
    hide Wrote;
  }

  /** Every prefix of the log was once the whole log. */
  lemma {:induction false} LogWas(init: Db, steps: seq<Step>, states: seq<State>, n: nat, d: nat) returns (m: nat)
    requires IsRun(init, steps, states) && n <= |steps| && d <= |states[n].log|
    ensures m <= n && states[m].log == states[n].log[..d]
  {
    hide Do;
    hide Enabled;
    if d == |states[n].log| {
      m := n;
      assert states[n].log[..d] == states[n].log;
    } else {
      var e, s := states[n - 1], steps[n - 1];
      WalFits(init, steps, states, n - 1);
      StepGrows(e, s);
      HistoryGrows(e, s);
      m := LogWas(init, steps, states, n - 1, d);
      assert states[n].log[..d] == e.log[..d];
    }
  }

  /** The committed transactions whose commit records survive in the first d log records, in commit order. */
  function Surviving(e: State, d: nat): seq<CommittedTxn>
    requires d <= |e.log|
  {
    var k := Commits(e.log[..d]);
    if k <= |e.history| then e.history[..k] else e.history
  }

  /** What a crash leaves of the log, at least the durable records and at most all of them, is well formed, and its
      commits rebuild the serial state of the transactions that survive in it; everybody whose commit had returned is
      among them. */
  lemma CrashedLog(init: Db, steps: seq<Step>, states: seq<State>, n: nat, d: nat, tab: TableName)
    requires IsRun(init, steps, states) && n <= |steps| && tab in init
    requires states[n].durable <= d <= |states[n].log|
    ensures var e, log := states[n], states[n].log[..d];
      && EndsOnce(log) && AccurateBefore(init[tab], log, tab) && Separated(log, tab)
      && CommittedState(init[tab], log, tab) == Serial(init, Surviving(e, d))[tab]
      && (forall t :: t in e.txns && e.txns[t].status == Done ==>
        exists i :: 0 <= i < |Surviving(e, d)| && Surviving(e, d)[i].tid == t)
  {
    hide Do;
    hide Enabled;
    hide Inv;
    hide RedoTable;
    hide CommittedOf;
    hide Replay;
    hide EndsOnce;
    hide AccurateBefore;
    hide Separated;
    hide ActualTable;
    hide WriterLogged;
    hide Commits;
    hide RecordsOk;
    var m := LogWas(init, steps, states, n, d);
    var e := SurvivedAt(init, steps, states, n, m, d);
    assert LoggedAt(init[tab], states[m], tab) by { LoggedThere(init, steps, states, m, tab); }
    LoggedShape(init, steps, states, m);
    forall t | t in states[n].txns && states[n].txns[t].status == Done
      ensures exists i :: 0 <= i < |Surviving(states[n], d)| && Surviving(states[n], d)[i].tid == t
    {
      ReturnedSurvives(init, steps, states, n, m, d, t);
    }
  }

  lemma LoggedThere(init: Db, steps: seq<Step>, states: seq<State>, m: nat, tab: TableName)
    requires IsRun(init, steps, states) && m <= |steps| && tab in init
    ensures tab in states[m].db && LoggedAt(init[tab], states[m], tab)
  {
    hide Do;
    hide Enabled;
    hide Inv;
    hide LogOk;
    hide LoggedAt;
    LoggedInEveryRun(init, steps, states, m);
  }

  lemma LoggedShape(init: Db, steps: seq<Step>, states: seq<State>, m: nat)
    requires IsRun(init, steps, states) && m <= |steps|
    ensures EndsOnce(states[m].log) && |states[m].history| == Commits(states[m].log)
  {
    hide Do;
    hide Enabled;
    hide Inv;
    hide RecordsOk;
    hide LoggedAt;
    LoggedInEveryRun(init, steps, states, m);
  }

  /** The surviving history is the whole history of the moment when the surviving log was the whole log. */
  lemma SurvivedAt(init: Db, steps: seq<Step>, states: seq<State>, n: nat, m: nat, d: nat) returns (e: State)
    requires IsRun(init, steps, states) && m <= n <= |steps| && d <= |states[n].log|
      && states[m].log == states[n].log[..d]
    ensures e == states[m] && Surviving(states[n], d) == e.history
  {
    hide Do;
    hide Enabled;
    hide Commits;
    e := states[m];
    RunGrows(init, steps, states, m, n);
    LoggedShape(init, steps, states, m);
  }

  lemma ReturnedSurvives(init: Db, steps: seq<Step>, states: seq<State>, n: nat, m: nat, d: nat, t: TxnId)
    requires IsRun(init, steps, states) && m <= n <= |steps| && states[n].durable <= d <= |states[n].log|
    requires states[m].log == states[n].log[..d] && t in states[n].txns && states[n].txns[t].status == Done
    ensures exists i :: 0 <= i < |Surviving(states[n], d)| && Surviving(states[n], d)[i].tid == t
  {
    hide Do;
    hide Enabled;
    hide Disciplined;
    hide TablesOk;
    hide ReadsSerial;
    hide LoggedAt;
    hide CommittedOf;
    hide Commits;
    LoggedInEveryRun(init, steps, states, n);
    CommittedPrefix(states[n].log, states[n].durable, d, t);
    CommittedIff(states[m].log, t);
    LoggedInEveryRun(init, steps, states, m);
    var e := SurvivedAt(init, steps, states, n, m, d);
    var i :| 0 <= i < |e.log| && e.log[i].tid == t && e.log[i].body.CommitBody?;
    assert EndedAs(e.txns[t], e.log[i].body);
  }

  // -------------------------------------------------------------------- possible disk images

  /** An insert that is in the heap while its record is not in the surviving log. */
  ghost predicate LostInsert(e: State, d: nat, tab: TableName, rid: Rid)
    requires d <= |e.log|
  {
    OpenInsert(e, tab, rid) && !Logged(e.log[..d], tab, rid)
  }

  /** A disk image that the run can have left: pages are written back at any time, so every rid holds a value that it
      had at some moment up to the crash; where the log has a record, any bytes at all. */
  ghost predicate PossibleImage(states: seq<State>, n: nat, d: nat, tab: TableName, image: Table)
    requires n < |states| && d <= |states[n].log|
  {
    forall rid :: Logged(states[n].log[..d], tab, rid)
      || exists m :: 0 <= m <= n && tab in states[m].db && Lookup(image, rid) == Lookup(states[m].db[tab], rid)
  }

  lemma {:induction false} OpenUntilLogged(init: Db, steps: seq<Step>, states: seq<State>, m: nat, n: nat,
      tab: TableName, rid: Rid)
    requires IsRun(init, steps, states) && m <= n <= |steps| && OpenInsert(states[m], tab, rid)
    requires states[n].durable <= |states[n].log| && !OnDisk(states[n], tab, rid)
    ensures OpenInsert(states[n], tab, rid)
    decreases n - m
  {
    hide Do;
    hide Enabled;
    hide Disciplined;
    hide TxnLogged;
    hide RidLogged;
    hide OnDisk;
    hide OpenInsert;
    if m == n {
    } else {
      WalInEveryRun(init, steps, states, n - 1);
      StepGrows(states[n - 1], steps[n - 1]);
      OnDiskGrows(states[n - 1], states[n], tab, rid);
      OpenUntilLogged(init, steps, states, m, n - 1, tab, rid);
      StaysOpen(states[n - 1], steps[n - 1], tab, rid);
    }
  }

  /** Off the surviving log, every moment of the run shows the initial value, unless an insert of the rid is open
      now. */
  lemma OffLogUnchanged(init: Db, steps: seq<Step>, states: seq<State>, m: nat, n: nat, d: nat, tab: TableName,
      rid: Rid)
    requires IsRun(init, steps, states) && m <= n <= |steps| && tab in init && states[n].durable <= d <= |states[n].log|
    requires !Logged(states[n].log[..d], tab, rid)
    ensures tab in states[m].db
    ensures if OpenInsert(states[n], tab, rid) then rid !in init[tab]
            else Lookup(states[m].db[tab], rid) == Lookup(init[tab], rid)
  {
    hide Do;
    hide Enabled;
    hide Disciplined;
    hide TxnLogged;
    hide OpenInsert;
    hide Logged;
    WalInEveryRun(init, steps, states, m);
    WalInEveryRun(init, steps, states, n);
    RunGrows(init, steps, states, m, n);
    NotOnDisk(states[n], d, tab, rid);
    OnDiskGrows(states[m], states[n], tab, rid);
    assert RidLogged(init[tab], states[n], tab, rid);
    assert RidLogged(init[tab], states[m], tab, rid);
    if OpenInsert(states[m], tab, rid) { OpenUntilLogged(init, steps, states, m, n, tab, rid); }
  }

  lemma NotOnDisk(e: State, d: nat, tab: TableName, rid: Rid)
    requires e.durable <= d <= |e.log| && !Logged(e.log[..d], tab, rid)
    ensures !OnDisk(e, tab, rid)
  {
    hide Logged;
    assert e.log[..e.durable] <= e.log[..d];
    if OnDisk(e, tab, rid) { LoggedGrows(e.log[..e.durable], e.log[..d], tab, rid); }
  }

  /** Off the surviving log, the image shows the initial value exactly when it does not hold a lost insert. */
  lemma ImageOffLog(init: Db, steps: seq<Step>, states: seq<State>, n: nat, d: nat, tab: TableName, image: Table,
      rid: Rid)
    requires IsRun(init, steps, states) && n <= |steps| && tab in init && states[n].durable <= d <= |states[n].log|
    requires PossibleImage(states, n, d, tab, image) && !Logged(states[n].log[..d], tab, rid)
    ensures Lookup(image, rid) == Lookup(init[tab], rid) <==> !(LostInsert(states[n], d, tab, rid) && rid in image)
  {
    hide Do;
    hide Enabled;
    hide Logged;
    hide OpenInsert;
    var m :| 0 <= m <= n && tab in states[m].db && Lookup(image, rid) == Lookup(states[m].db[tab], rid);
    OffLogUnchanged(init, steps, states, m, n, d, tab, rid);
  }

  // ---------------------------------------------------------------------------- the theorems

  /** Crash at any moment of any interleaving of the separate heap, log and flush calls, with any surviving part of the
      log beyond the durable one and any image the run can have left on disk: restart recovery gives the serial state of
      exactly the surviving committed transactions if and only if no rid of the surviving log had an uncommitted write
      followed by a committed write of different bytes, and the image holds no insert whose record is lost. */
  lemma CrashRecoveryIff(init: Db, steps: seq<Step>, states: seq<State>, n: nat, d: nat, tab: TableName, image: Table)
    requires IsRun(init, steps, states) && n <= |steps| && tab in init
    requires states[n].durable <= d <= |states[n].log|
    requires PossibleImage(states, n, d, tab, image)
    ensures var log := states[n].log[..d];
      Recovered(image, log, tab) == Serial(init, Surviving(states[n], d))[tab]
      <==> forall rid :: NotOverwritten(log, tab, rid) && (LostInsert(states[n], d, tab, rid) ==> rid !in image)
  {
    hide Do;
    hide Enabled;
    hide EndsOnce;
    hide AccurateBefore;
    hide Separated;
    hide Recovered;
    hide CommittedState;
    hide NotOverwritten;
    hide Serial;
    hide Surviving;
    hide PossibleImage;
    hide OpenInsert;
    hide Logged;
    CrashedLog(init, steps, states, n, d, tab);
    var log := states[n].log[..d];
    forall rid
      ensures Lookup(Recovered(image, log, tab), rid) == Lookup(CommittedState(init[tab], log, tab), rid)
              <==> NotOverwritten(log, tab, rid) && (LostInsert(states[n], d, tab, rid) ==> rid !in image)
    {
      if Logged(log, tab, rid) {
        LoggedExactAt(init[tab], image, log, tab, rid);
      } else {
        UnloggedAt(init[tab], image, log, tab, rid);
        ImageOffLog(init, steps, states, n, d, tab, image, rid);
      }
    }
    if forall rid :: NotOverwritten(log, tab, rid) && (LostInsert(states[n], d, tab, rid) ==> rid !in image) {
      SameLookups(Recovered(image, log, tab), CommittedState(init[tab], log, tab));
    }
  }

  /** The same with the engine's own assumption: no rid written by an aborted transaction is later rewritten by a
      committed one. Transactions cut off by the crash need no assumption beyond the lost inserts. */
  lemma CrashRecoveryCorrect(init: Db, steps: seq<Step>, states: seq<State>, n: nat, d: nat, tab: TableName,
      image: Table)
    requires IsRun(init, steps, states) && n <= |steps| && tab in init
    requires states[n].durable <= d <= |states[n].log|
    requires PossibleImage(states, n, d, tab, image)
    requires NoCommitAfterAbort(states[n].log[..d], tab)
    requires forall rid :: LostInsert(states[n], d, tab, rid) ==> rid !in image
    ensures Recovered(image, states[n].log[..d], tab) == Serial(init, Surviving(states[n], d))[tab]
  {
    hide Do;
    hide Enabled;
    hide EndsOnce;
    hide AccurateBefore;
    hide Separated;
    hide NoCommitAfterAbort;
    hide Recovered;
    hide CommittedState;
    hide NotOverwritten;
    hide Serial;
    hide Surviving;
    hide PossibleImage;
    hide LostInsert;
    CrashedLog(init, steps, states, n, d, tab);
    forall rid ensures NotOverwritten(states[n].log[..d], tab, rid) {
      SeparatedNotOverwritten(states[n].log[..d], tab, rid);
    }
    CrashRecoveryIff(init, steps, states, n, d, tab, image);
  }

  /** End to end, from bytes: whatever byte prefix of the log file survives beyond the durable part, torn record
      included, parsing it and recovering gives the serial state of the transactions whose commit records survive whole
      if and only if the same two conditions hold of what was parsed. */
  lemma CrashRecoveryFromBytes(init: Db, steps: seq<Step>, states: seq<State>, n: nat, bytes: nat, tab: TableName,
      image: Table)
    requires IsRun(init, steps, states) && n <= |steps| && tab in init
    requires AllEncodable(states[n].log) && states[n].durable <= |states[n].log|
    requires |SerializeAll(states[n].log[..states[n].durable])| <= bytes <= |SerializeAll(states[n].log)|
    requires PossibleImage(states, n, WholeRecords(states[n].log, bytes), tab, image)
    ensures var log, d := ParseLog(SerializeAll(states[n].log)[..bytes]), WholeRecords(states[n].log, bytes);
      Recovered(image, log, tab) == Serial(init, Surviving(states[n], d))[tab]
      <==> forall rid :: NotOverwritten(log, tab, rid) && (LostInsert(states[n], d, tab, rid) ==> rid !in image)
  {
    hide Do;
    hide Enabled;
    hide NotOverwritten;
    hide PossibleImage;
    hide LostInsert;
    hide Recovered;
    hide Serial;
    hide Surviving;
    hide ParseLog;
    hide SerializeAll;
    hide WholeRecords;
    hide Encodable;
    var log := states[n].log;
    TornLogParses(log, bytes);
    var d := WholeRecords(log, bytes);
    WholeRecordsLongest(log, bytes);
    if d < states[n].durable {
      assert log[..states[n].durable] == log[..d + 1] + log[d + 1..states[n].durable];
      SerializeAllAppend(log[..d + 1], log[d + 1..states[n].durable]);
    }
    CrashRecoveryIff(init, steps, states, n, d, tab, image);
  }

  // ------------------------------------------------------------------ an insert that recovery keeps

  /** Begin, lock the empty table, insert a record into the heap. */
  function InsertSteps(tab: TableName, rid: Rid, v: Record): seq<Step> {
    [Begin(0), LockItem(0, TableLock(tab), Exclusive), InsertHeap(0, tab, rid, v)]
  }

  /** That run: the heap has the record, the log only the begin record. */
  lemma InsertRun(tab: TableName, rid: Rid, v: Record) returns (states: seq<State>)
    ensures IsRun(map[tab := map[]], InsertSteps(tab, rid, v), states)
    ensures states[3].log == [LogRecord(0, INVALID_LSN, 0, BeginBody)] && states[3].history == []
    ensures states[3].durable == 0 && states[3].db == map[tab := map[rid := v]]
  {
    hide Do;
    hide Enabled;
    var init: Db := map[tab := map[]];
    var e0 := Initial(init);
    var e1 := FirstStep(init);
    var e2 := SecondStep(e1, tab);
    var e3 := ThirdStep(e2, tab, rid, v);
    states := [e0, e1, e2, e3];
  }

  lemma ThirdStep(e: State, tab: TableName, rid: Rid, v: Record) returns (e': State)
    requires IsReady(e, 0) && XHeld(e, 0, tab) && e.db == map[tab := map[]]
    ensures Enabled(e, InsertHeap(0, tab, rid, v)) && e' == Do(e, InsertHeap(0, tab, rid, v))
    ensures e'.db == map[tab := map[rid := v]]
    ensures e'.log == e.log && e'.history == e.history && e'.durable == e.durable
  {
    hide HeldMode;
    e' := Do(e, InsertHeap(0, tab, rid, v));
  }

  lemma FirstStep(init: Db) returns (e: State)
    ensures Enabled(Initial(init), Begin(0)) && e == Do(Initial(init), Begin(0))
    ensures e.locks.table == map[] && IsReady(e, 0) && e.db == init && e.history == [] && e.durable == 0
    ensures e.log == [LogRecord(0, INVALID_LSN, 0, BeginBody)]
  {
    e := Do(Initial(init), Begin(0));
  }

  lemma SecondStep(e: State, tab: TableName) returns (e': State)
    requires e.locks.table == map[] && IsReady(e, 0)
    ensures Enabled(e, LockItem(0, TableLock(tab), Exclusive)) && e' == Do(e, LockItem(0, TableLock(tab), Exclusive))
    ensures IsReady(e', 0) && XHeld(e', 0, tab)
    ensures e'.db == e.db && e'.log == e.log && e'.history == e.history && e'.durable == e.durable
  {
    hide HeldMode;
    hide Acquire;
    EmptyTableGrants(e.locks.table, 0, TableLock(tab));
    e' := Do(e, LockItem(0, TableLock(tab), Exclusive));
  }

  /** The failure in the insert window: the page with the new record reaches the disk, the engine crashes before the
      record is logged, and recovery leaves the uncommitted record in the table. */
  lemma UnloggedInsertKept(tab: TableName, rid: Rid, v: Record)
    ensures var init: Db := map[tab := map[]];
      exists states: seq<State> ::
        && IsRun(init, InsertSteps(tab, rid, v), states) && tab in states[3].db
        && PossibleImage(states, 3, |states[3].log|, tab, states[3].db[tab])
        && Lookup(Recovered(states[3].db[tab], states[3].log, tab), rid) == Some(v)
        && Lookup(Serial(init, Surviving(states[3], |states[3].log|))[tab], rid) == None
  {
    hide Do;
    hide Enabled;
    hide Recovered;
    var init: Db := map[tab := map[]];
    var states := InsertRun(tab, rid, v);
    var log := states[3].log;
    assert log[..1] == log && log[..0] == [];
    UnloggedAt(map[], states[3].db[tab], log, tab, rid);
    assert Commits(log) == 0;
  }

  lemma EmptyTableGrants(table: LockTable, t: TxnId, id: LockDataId)
    requires table == map[]
    ensures Acquire(table, t, id, Exclusive).Some?
    ensures HeldMode(Acquire(table, t, id, Exclusive).value, t, id) == Some(Exclusive)
  {
    AcquireRefusesIff(table, t, id, Exclusive);
    AcquireEffect(table, t, id, Exclusive);
  }
}
