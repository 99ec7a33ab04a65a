/** The log file over several runs of the server (src/recovery/log_recovery.cpp): it is only appended to, while the
    transaction ids of every run start again at 0 (src/transaction/transaction_manager.h). Recovery then takes
    transactions of different runs for one. */
module LogOverRuns {
  import opened Types
  import opened Integers
  import opened LogCodec
  import opened Recovery
  import opened Engine
  import CrashRecovery

  // -------------------------------------------------------------- the sets and folds of two logs

  predicate Occurs(log: Log, t: TxnId) { exists i :: 0 <= i < |log| && log[i].tid == t }

  lemma OccursPush(log: Log, r: LogRecord, t: TxnId)
    ensures Occurs(log + [r], t) <==> Occurs(log, t) || r.tid == t
  {
    var all := log + [r];
    assert all[|log|] == r;
    assert forall i :: 0 <= i < |log| ==> all[i] == log[i];
  }

  /** What analyze makes of an id: committed if it committed in any run, active if its last run says so. */
  lemma {:induction false} ClassifyRuns(past: Log, run: Log, t: TxnId)
    ensures t in CommittedOf(past + run) <==> t in CommittedOf(past) || t in CommittedOf(run)
    ensures t in ActiveOf(past + run) <==> if Occurs(run, t) then t in ActiveOf(run) else t in ActiveOf(past)
    decreases |run|
  {
    hide CommittedOf;
    hide ActiveOf;
    hide Occurs;
    if run == [] {
      assert past + run == past;
      ClassifyNil();
      NothingOccurs(t);
    } else {
      var n := |run| - 1;
      var some, r := run[..n], run[n];
      ClassifyRuns(past, some, t);
      assert run == some + [r] && past + run == (past + some) + [r];
      ClassifySnoc(some, r);
      ClassifySnoc(past + some, r);
      OccursPush(some, r, t);
    }
  }

  lemma NothingOccurs(t: TxnId)
    ensures !Occurs([], t)
  {
  }

  lemma FirstOfRuns(past: Log, run: Log, who: set<TxnId>, tab: TableName, rid: Rid)
    ensures First(past + run, who, tab, rid) ==
      if First(past, who, tab, rid) >= 0 then First(past, who, tab, rid)
      else if First(run, who, tab, rid) >= 0 then |past| + First(run, who, tab, rid) else -1
  {
    var all, i := past + run, First(past + run, who, tab, rid);
    var a, b := First(past, who, tab, rid), First(run, who, tab, rid);
    if a >= 0 { assert all[a] == past[a]; }
    if b >= 0 { assert all[|past| + b] == run[b]; }
    if 0 <= i < |past| { assert all[i] == past[i]; }
    if i >= |past| { assert all[i] == run[i - |past|]; }
  }

  lemma LastOfRuns(past: Log, run: Log, who: set<TxnId>, tab: TableName, rid: Rid)
    ensures Last(past + run, who, tab, rid) ==
      if Last(run, who, tab, rid) >= 0 then |past| + Last(run, who, tab, rid) else Last(past, who, tab, rid)
  {
    var all, i := past + run, Last(past + run, who, tab, rid);
    var a, b := Last(past, who, tab, rid), Last(run, who, tab, rid);
    if a >= 0 { assert all[a] == past[a]; }
    if b >= 0 { assert all[|past| + b] == run[b]; }
    if 0 <= i < |past| { assert all[i] == past[i]; }
    if i >= |past| { assert all[i] == run[i - |past|]; }
  }

  /** Sets that agree on the ids of a log find the same records in it. */
  ghost predicate SameOn(log: Log, a: set<TxnId>, b: set<TxnId>) {
    forall i :: 0 <= i < |log| ==> (log[i].tid in a <==> log[i].tid in b)
  }

  lemma SameFirst(log: Log, a: set<TxnId>, b: set<TxnId>, tab: TableName, rid: Rid)
    requires SameOn(log, a, b)
    ensures First(log, a, tab, rid) == First(log, b, tab, rid)
  {
  }

  lemma SameLast(log: Log, a: set<TxnId>, b: set<TxnId>, tab: TableName, rid: Rid)
    requires SameOn(log, a, b)
    ensures Last(log, a, tab, rid) == Last(log, b, tab, rid)
  {
  }

  lemma ActiveInNew(past: Log, run: Log)
    ensures SameOn(run, ActiveOf(past + run), ActiveOf(run))
  {
    hide ActiveOf;
    forall i | 0 <= i < |run| ensures run[i].tid in ActiveOf(past + run) <==> run[i].tid in ActiveOf(run) {
      ClassifyRuns(past, run, run[i].tid);
    }
  }

  // ----------------------------------------------------------------- exactness over several runs

  /** Whether recovery is right at one rid, given what the rid held when the new run started. An undone id that wrote
      the rid in a past run puts back the before-image of that write. Otherwise the new run decides as it would alone,
      and a rid that it did not write is redone from the past runs. */
  ghost predicate RightOverRuns(past: Log, run: Log, start: Table, image: Table, tab: TableName, rid: Rid) {
    var q := First(past, ActiveOf(past + run), tab, rid);
    var c := Last(past, CommittedOf(past + run), tab, rid);
    if q >= 0 then Before(past[q].body) == Lookup(CommittedState(start, run, tab), rid)
    else if Logged(run, tab, rid) then NotOverwritten(run, tab, rid)
    else Lookup(start, rid) == if c >= 0 then After(past[c].body) else Lookup(image, rid)
  }

  lemma RunsAt(past: Log, run: Log, start: Table, image: Table, tab: TableName, rid: Rid)
    requires EndsOnce(run) && AccurateBefore(start, run, tab)
    ensures Lookup(Recovered(image, past + run, tab), rid) == Lookup(CommittedState(start, run, tab), rid)
            <==> RightOverRuns(past, run, start, image, tab, rid)
  {
    hide Recovered;
    hide CommittedState;
    hide NotOverwritten;
    hide AccurateBefore;
    hide ActiveOf;
    hide CommittedOf;
    hide Logged;
    var all := past + run;
    RecoveredAt(image, all, tab, rid);
    FirstOfRuns(past, run, ActiveOf(all), tab, rid);
    LastOfRuns(past, run, CommittedOf(all), tab, rid);
    var q := First(past, ActiveOf(all), tab, rid);
    if q >= 0 {
      assert all[q] == past[q];
    } else if Logged(run, tab, rid) {
      NewDecides(past, run, image, tab, rid);
      LoggedExactAt(start, image, run, tab, rid);
    } else {
      OldDecides(past, run, start, image, tab, rid);
    }
  }

  /** A rid that no undone id wrote in a past run, and that the new run wrote: the new run alone decides. */
  lemma NewDecides(past: Log, run: Log, image: Table, tab: TableName, rid: Rid)
    requires EndsOnce(run) && Logged(run, tab, rid) && First(past, ActiveOf(past + run), tab, rid) < 0
    ensures Lookup(Recovered(image, past + run, tab), rid) == Lookup(Recovered(image, run, tab), rid)
  {
    hide Recovered;
    hide ActiveOf;
    hide CommittedOf;
    hide Logged;
    var all := past + run;
    RecoveredAt(image, all, tab, rid);
    RecoveredAt(image, run, tab, rid);
    FirstOfRuns(past, run, ActiveOf(all), tab, rid);
    LastOfRuns(past, run, CommittedOf(all), tab, rid);
    ActiveInNew(past, run);
    SameFirst(run, ActiveOf(all), ActiveOf(run), tab, rid);
    var p := First(run, ActiveOf(run), tab, rid);
    if p >= 0 {
      assert all[|past| + p] == run[p];
    } else {
      LastCommitted(past, run, tab, rid);
      var c := Last(run, CommittedOf(run), tab, rid);
      assert all[|past| + c] == run[c];
    }
  }

  /** With no undone write of the new run on the rid, its last write is committed, in either set. */
  lemma LastCommitted(past: Log, run: Log, tab: TableName, rid: Rid)
    requires EndsOnce(run) && Logged(run, tab, rid) && First(run, ActiveOf(run), tab, rid) < 0
    ensures Last(run, CommittedOf(run), tab, rid) >= 0
    ensures Last(run, CommittedOf(past + run), tab, rid) == Last(run, CommittedOf(run), tab, rid)
  {
    hide ActiveOf;
    hide CommittedOf;
    LoggedIsClassified(run, tab, rid);
    var c := Last(run, CommittedOf(past + run), tab, rid);
    ClassifyRuns(past, run, run[Last(run, CommittedOf(run), tab, rid)].tid);
    if c >= 0 {
      ActiveIff(run, run[c].tid);
    }
  }

  lemma OldDecides(past: Log, run: Log, start: Table, image: Table, tab: TableName, rid: Rid)
    requires !Logged(run, tab, rid) && First(past, ActiveOf(past + run), tab, rid) < 0
    ensures Lookup(CommittedState(start, run, tab), rid) == Lookup(start, rid)
    ensures var c := Last(past, CommittedOf(past + run), tab, rid);
      Lookup(Recovered(image, past + run, tab), rid) == if c >= 0 then After(past[c].body) else Lookup(image, rid)
  {
    hide Recovered;
    hide ActiveOf;
    hide CommittedOf;
    var all := past + run;
    UnloggedAt(start, image, run, tab, rid);
    RecoveredAt(image, all, tab, rid);
    FirstOfRuns(past, run, ActiveOf(all), tab, rid);
    LastOfRuns(past, run, CommittedOf(all), tab, rid);
    var c := Last(past, CommittedOf(all), tab, rid);
    if c >= 0 { assert all[c] == past[c]; }
  }

  /** Exactness with the logs of earlier runs in front, whatever they are: recovery gives the committed state of the new
      run if and only if every rid is right. */
  lemma RunsExactIff(past: Log, run: Log, start: Table, image: Table, tab: TableName)
    requires EndsOnce(run) && AccurateBefore(start, run, tab)
    ensures Recovered(image, past + run, tab) == CommittedState(start, run, tab)
            <==> forall rid :: RightOverRuns(past, run, start, image, tab, rid)
  {
    hide Recovered;
    hide CommittedState;
    hide RightOverRuns;
    hide AccurateBefore;
    forall rid
      ensures Lookup(Recovered(image, past + run, tab), rid) == Lookup(CommittedState(start, run, tab), rid)
              <==> RightOverRuns(past, run, start, image, tab, rid)
    {
      RunsAt(past, run, start, image, tab, rid);
    }
    if forall rid :: RightOverRuns(past, run, start, image, tab, rid) {
      SameLookups(Recovered(image, past + run, tab), CommittedState(start, run, tab));
    }
  }

  /** The condition for a clean past, in which every transaction committed: with ids that no undone transaction of the
      new run shares, the past does not matter. */
  lemma FreshIdsExactIff(init: Table, past: Log, run: Log, image: Table, tab: TableName)
    requires ActiveOf(past) == {} && (forall t :: t in ActiveOf(run) ==> !Occurs(past, t))
    requires var start := CommittedState(init, past, tab);
      EndsOnce(run) && AccurateBefore(start, run, tab) && AgreesOffLog(start, image, past + run, tab)
    ensures Recovered(image, past + run, tab) == CommittedState(CommittedState(init, past, tab), run, tab)
            <==> forall rid :: NotOverwritten(run, tab, rid)
  {
    hide Recovered;
    hide CommittedState;
    hide NotOverwritten;
    hide AccurateBefore;
    hide AgreesOffLog;
    hide RightOverRuns;
    hide ActiveOf;
    hide CommittedOf;
    var start := CommittedState(init, past, tab);
    RunsExactIff(past, run, start, image, tab);
    forall rid ensures RightOverRuns(past, run, start, image, tab, rid) <==> NotOverwritten(run, tab, rid) {
      FreshAt(init, past, run, image, tab, rid);
    }
  }

  lemma FreshAt(init: Table, past: Log, run: Log, image: Table, tab: TableName, rid: Rid)
    requires ActiveOf(past) == {} && (forall t :: t in ActiveOf(run) ==> !Occurs(past, t))
    requires AgreesOffLog(CommittedState(init, past, tab), image, past + run, tab)
    ensures RightOverRuns(past, run, CommittedState(init, past, tab), image, tab, rid)
            <==> NotOverwritten(run, tab, rid)
  {
    hide NotOverwritten;
    hide RedoTable;
    hide ActiveOf;
    hide CommittedOf;
    var start, all := CommittedState(init, past, tab), past + run;
    PastCommitted(past, run);
    SameFirst(past, ActiveOf(all), {}, tab, rid);
    SameLast(past, CommittedOf(all), CommittedOf(past), tab, rid);
    RedoAt(init, past, CommittedOf(past), tab, rid);
    if !Logged(run, tab, rid) {
      UnloggedAt(start, image, run, tab, rid);
      if Last(past, CommittedOf(past), tab, rid) < 0 { UnloggedInBoth(past, run, tab, rid); }
    }
  }

  /** In a clean past every id is committed and, unless the new run undoes it, not undone. */
  lemma PastCommitted(past: Log, run: Log)
    requires ActiveOf(past) == {} && (forall t :: t in ActiveOf(run) ==> !Occurs(past, t))
    ensures SameOn(past, ActiveOf(past + run), {}) && SameOn(past, CommittedOf(past + run), CommittedOf(past))
    ensures forall i :: 0 <= i < |past| ==> past[i].tid in CommittedOf(past)
  {
    hide ActiveOf;
    hide CommittedOf;
    forall i | 0 <= i < |past|
      ensures past[i].tid !in ActiveOf(past + run) && past[i].tid in CommittedOf(past)
      ensures past[i].tid in CommittedOf(past + run)
    {
      ClassifyRuns(past, run, past[i].tid);
      assert Occurs(past, past[i].tid);
      OneOfTwo(past, past[i].tid);
    }
  }

  /** Analyze puts every id of the log into one of its two sets. */
  lemma {:induction false} OneOfTwo(log: Log, t: TxnId)
    ensures Occurs(log, t) ==> t in ActiveOf(log) || t in CommittedOf(log)
    decreases |log|
  {
    hide CommittedOf;
    hide ActiveOf;
    hide Occurs;
    if log == [] {
      NothingOccurs(t);
    } else {
      var n := |log| - 1;
      OneOfTwo(log[..n], t);
      assert log == log[..n] + [log[n]];
      ClassifySnoc(log[..n], log[n]);
      OccursPush(log[..n], log[n], t);
    }
  }

  lemma UnloggedInBoth(past: Log, run: Log, tab: TableName, rid: Rid)
    requires (forall i :: 0 <= i < |past| ==> past[i].tid in CommittedOf(past))
    requires Last(past, CommittedOf(past), tab, rid) < 0 && !Logged(run, tab, rid)
    ensures !Logged(past + run, tab, rid)
  {
    hide CommittedOf;
    var all := past + run;
    forall i | 0 <= i < |all| ensures !TouchesRid(all[i], tab, rid) {
      if i < |past| { assert all[i] == past[i]; } else { assert all[i] == run[i - |past|]; }
    }
  }

  // ------------------------------------------------------------------------ an id that came back

  /** One run inserts a record and commits. */
  function FirstRun(tab: TableName, rid: Rid, a: Record): Log {
    [LogRecord(0, INVALID_LSN, 0, BeginBody), LogRecord(1, 0, 0, InsertBody(a, rid, tab)),
      LogRecord(2, 1, 0, CommitBody)]
  }

  /** The next run has only begun its first transaction, which has the same id. */
  function SecondRun(): Log { [LogRecord(0, INVALID_LSN, 0, BeginBody)] }

  /** A concrete failure: a crash while the first transaction of a new run is open undoes the first transaction of the
      run before, which had committed; its record is gone, whatever the disk held. */
  lemma ReusedIdUndoesCommitted(tab: TableName, rid: Rid, a: Record, image: Table)
    ensures var past, run := FirstRun(tab, rid, a), SecondRun();
      && CommittedState(map[], past, tab) == map[rid := a]
      && CommittedState(map[rid := a], run, tab) == map[rid := a]
      && EndsOnce(run) && AccurateBefore(map[rid := a], run, tab)
      && Lookup(Recovered(image, past + run, tab), rid) == None
  {
    hide ActualTable;
    hide Recovered;
    hide CommittedOf;
    hide ActiveOf;
    hide RedoTable;
    var past, run := FirstRun(tab, rid, a), SecondRun();
    var all := past + run;
    ReusedClassified(tab, rid, a);
    RecoveredAt(image, all, tab, rid);
    assert TouchesRid(all[1], tab, rid) && Before(all[1].body) == None;
    assert forall i :: 0 <= i < 4 && i != 1 ==> !TouchesRid(all[i], tab, rid);
    assert TouchesRid(past[1], tab, rid);
    forall r ensures Lookup(CommittedState(map[], past, tab), r) == Lookup(map[rid := a], r) {
      RedoAt(map[], past, CommittedOf(past), tab, r);
    }
    SameLookups(CommittedState(map[], past, tab), map[rid := a]);
    forall r ensures Lookup(CommittedState(map[rid := a], run, tab), r) == Lookup(map[rid := a], r) {
      RedoAt(map[rid := a], run, CommittedOf(run), tab, r);
    }
    SameLookups(CommittedState(map[rid := a], run, tab), map[rid := a]);
  }

  lemma ReusedClassified(tab: TableName, rid: Rid, a: Record)
    ensures CommittedOf(FirstRun(tab, rid, a)) == {0} && ActiveOf(FirstRun(tab, rid, a) + SecondRun()) == {0}
  {
    hide CommittedOf;
    hide ActiveOf;
    var past, run := FirstRun(tab, rid, a), SecondRun();
    ClassifyNil();
    ClassifySnoc([], past[0]);
    ClassifySnoc([past[0]], past[1]);
    ClassifySnoc([past[0], past[1]], past[2]);
    ClassifySnoc(past, run[0]);
    assert [] + [past[0]] == [past[0]] && [past[0]] + [past[1]] == [past[0], past[1]];
    assert [past[0], past[1]] + [past[2]] == past;
  }

  // --------------------------------------------------------------------- crashes of a later run

  /** A crash between any two calls of any interleaving of a run that found the log of earlier runs in place, with any
      surviving part of its own log and any image: recovery gives the serial state of the surviving committed
      transactions of this run if and only if every rid is right. */
  lemma CrashOverRuns(past: Log, init: Db, steps: seq<Step>, states: seq<State>, n: nat, d: nat, tab: TableName,
      image: Table)
    requires IsRun(init, steps, states) && n <= |steps| && tab in init
    requires states[n].durable <= d <= |states[n].log|
    ensures var run := states[n].log[..d];
      Recovered(image, past + run, tab) == Serial(init, CrashRecovery.Surviving(states[n], d))[tab]
      <==> forall rid :: RightOverRuns(past, run, init[tab], image, tab, rid)
  {
    hide Do;
    hide Enabled;
    hide Recovered;
    hide CommittedState;
    hide RightOverRuns;
    hide AccurateBefore;
    hide EndsOnce;
    hide Separated;
    CrashRecovery.CrashedLog(init, steps, states, n, d, tab);
    RunsExactIff(past, states[n].log[..d], init[tab], image, tab);
  }

  /** The same from the bytes of the log file: the whole logs of the earlier runs, then any byte prefix of this run's
      log that holds its durable part. */
  lemma CrashOverRunsFromBytes(past: Log, init: Db, steps: seq<Step>, states: seq<State>, n: nat, bytes: nat,
      tab: TableName, image: Table)
    requires IsRun(init, steps, states) && n <= |steps| && tab in init
    requires AllEncodable(past + states[n].log) && states[n].durable <= |states[n].log|
    requires |SerializeAll((past + states[n].log)[..|past| + states[n].durable])| <= bytes
      <= |SerializeAll(past + states[n].log)|
    ensures var d := WholeRecords(past + states[n].log, bytes) - |past|;
      && states[n].durable <= d <= |states[n].log|
      && (Recovered(image, ParseLog(SerializeAll(past + states[n].log)[..bytes]), tab)
            == Serial(init, CrashRecovery.Surviving(states[n], d))[tab]
          <==> forall rid :: RightOverRuns(past, states[n].log[..d], init[tab], image, tab, rid))
  {
    hide Do;
    hide Enabled;
    hide Recovered;
    hide Serial;
    hide CrashRecovery.Surviving;
    hide RightOverRuns;
    hide ParseLog;
    hide SerializeAll;
    hide WholeRecords;
    hide Encodable;
    var all, k := past + states[n].log, |past| + states[n].durable;
    TornLogParses(all, bytes);
    WholeRecordsLongest(all, bytes);
    var w := WholeRecords(all, bytes);
    if w < k {
      assert all[..k] == all[..w + 1] + all[w + 1..k];
      SerializeAllAppend(all[..w + 1], all[w + 1..k]);
    }
    assert all[..w] == past + states[n].log[..w - |past|];
    CrashOverRuns(past, init, steps, states, n, w - |past|, tab, image);
  }

  // ---------------------------------------------------------------- what follows a torn record

  /** Whole records at the front of the file are parsed whatever follows them. */
  lemma {:induction false} ParsePast(past: Log, rest: seq<Byte>)
    requires AllEncodable(past)
    ensures ParseLog(SerializeAll(past) + rest) == past + ParseLog(rest)
  {
    hide ParseLog;
    hide Serialize;
    if past == [] {
      assert SerializeAll(past) + rest == rest;
    } else {
      ParsePast(past[1..], rest);
      assert SerializeAll(past) + rest == Serialize(past[0]) + (SerializeAll(past[1..]) + rest);
      ParseOne(past[0], SerializeAll(past[1..]) + rest);
    }
  }

  /** The first record of a run, byte by byte. */
  lemma FirstBegin(r: LogRecord)
    requires r == LogRecord(0, INVALID_LSN, 0, BeginBody)
    ensures Encodable(r) && Serialize(r)[7..11] == [0, 20, 0, 0]
  {
    assert LittleEndian(0, 4) == [0, 0, 0, 0] by { ZeroBytes(); }
    assert LittleEndian(20, 4) == [20, 0, 0, 0] by { ZeroBytes(); }
    var s := Serialize(r);
    assert s == Int32(3) + Int32(0) + LittleEndian(20, 4) + Int32(0) + Int32(INVALID_LSN);
    assert s[4..8] == Int32(0) && s[8..12] == LittleEndian(20, 4);
    assert s[7..11] == s[4..8][3..4] + s[8..12][..3];
  }

  lemma ZeroBytes()
    ensures LittleEndian(0, 4) == [0] + LittleEndian(0, 3) && LittleEndian(0, 3) == [0, 0, 0]
    ensures LittleEndian(20, 4) == [20] + LittleEndian(0, 3)
  {
    assert LittleEndian(0, 2) == [0] + LittleEndian(0, 1) && LittleEndian(0, 1) == [0] + LittleEndian(0, 0);
  }

  /** A concrete failure: a crash leaves the first byte of an insert record at the end of the log file, and the next run
      appends its records behind it. Recovery parses none of them, so everything that the run committed is lost. */
  lemma TornByteHidesRun(past: Log, run: Log)
    requires AllEncodable(past) && AllEncodable(run) && run != []
    requires run[0] == LogRecord(0, INVALID_LSN, 0, BeginBody) && |SerializeAll(run)| < 5119
    ensures ParseLog(SerializeAll(past) + ([1] + SerializeAll(run))) == past
  {
    hide Serialize;
    hide ReadUint;
    var file := [1] + SerializeAll(run);
    ParsePast(past, file);
    FirstBegin(run[0]);
    assert SerializeAll(run)[7..11] == Serialize(run[0])[7..11];
    assert file[8..12] == SerializeAll(run)[7..11];
    ShiftedLength(file);
    assert ParseLog(file) == [];
    assert past + [] == past;
  }

  lemma ShiftedLength(file: seq<Byte>)
    requires |file| >= 12 && file[8..12] == [0, 20, 0, 0]
    ensures ReadUint(file, 8, 4) == 5120
  {
    FourBytes(0, 20, 0, 0);
  }
}
