/** Restart recovery: analyze, redo and undo (src/recovery/log_recovery.cpp), over the abstract
    interface "a table is a map from Rid to bytes". Every fold below is over one table, so facts
    about different tables need no framing. */
module Recovery {
  import opened Types
  import opened LogCodec

  type Log = seq<LogRecord>

  predicate IsData(b: LogBody) { b.InsertBody? || b.DeleteBody? || b.UpdateBody? }

  predicate IsEnd(b: LogBody) { b.CommitBody? || b.AbortBody? }

  /** What the record says the rid held before the write (None: no record). */
  function Before(b: LogBody): Option<Record>
    requires IsData(b)
  {
    match b
    case InsertBody(_, _, _) => None
    case DeleteBody(v, _, _) => Some(v)
    case UpdateBody(o, _, _, _) => Some(o)
  }

  function After(b: LogBody): Option<Record>
    requires IsData(b)
  {
    match b
    case InsertBody(v, _, _) => Some(v)
    case DeleteBody(_, _, _) => None
    case UpdateBody(_, n, _, _) => Some(n)
  }

  predicate Touches(r: LogRecord, tab: TableName) { IsData(r.body) && r.body.tab == tab }

  predicate TouchesRid(r: LogRecord, tab: TableName, rid: Rid) { Touches(r, tab) && r.body.rid == rid }

  // ----------------------------------------------------------- analyze's two sets

  function CommittedOf(log: Log): set<TxnId> {
    if log == [] then {}
    else
      var r := log[|log| - 1];
      var rest := CommittedOf(log[..|log| - 1]);
      if r.body.CommitBody? then rest + {r.tid} else rest
  }

  function ActiveOf(log: Log): set<TxnId> {
    if log == [] then {}
    else
      var r := log[|log| - 1];
      var rest := ActiveOf(log[..|log| - 1]);
      if r.body.CommitBody? then rest - {r.tid} else rest + {r.tid}
  }

  /** A transaction writes nothing after its commit or abort record: one run, unique ids. */
  ghost predicate EndsOnce(log: Log) {
    forall i, j :: 0 <= i < j < |log| && log[i].tid == log[j].tid ==> !IsEnd(log[i].body)
  }

  lemma {:induction false} CommittedIff(log: Log, t: TxnId)
    ensures t in CommittedOf(log) <==> exists i :: 0 <= i < |log| && log[i].tid == t && log[i].body.CommitBody?
  {
    if log == [] {
    } else {
      var n := |log| - 1;
      CommittedIff(log[..n], t);
      if exists i :: 0 <= i < |log| && log[i].tid == t && log[i].body.CommitBody? {
        var i :| 0 <= i < |log| && log[i].tid == t && log[i].body.CommitBody?;
        if i < n { assert log[..n][i] == log[i]; }
      }
    }
  }

  /** Classification: the undo set is exactly the logged transactions without a commit record,
      so an aborted transaction is undone again. */
  lemma {:induction false} ActiveIff(log: Log, t: TxnId)
    requires EndsOnce(log)
    ensures t in ActiveOf(log) <==> t !in CommittedOf(log) && exists i :: 0 <= i < |log| && log[i].tid == t
  {
    if log == [] {
    } else {
      var n := |log| - 1;
      assert EndsOnce(log[..n]);
      ActiveIff(log[..n], t);
      CommittedIff(log[..n], t);
      assert log[n].tid == t ==> forall i :: 0 <= i < n && log[..n][i].tid == t ==> !log[i].body.CommitBody?;
      if exists i :: 0 <= i < |log| && log[i].tid == t {
        var i :| 0 <= i < |log| && log[i].tid == t;
        if i < n { assert log[..n][i].tid == t; }
      }
    }
  }

  // ------------------------------------------------------------------ redo and undo

  /** redo() on one table: images of the chosen transactions, oldest first. */
  function RedoTable(t: Table, log: Log, who: set<TxnId>, tab: TableName): Table {
    if log == [] then t
    else
      var n := |log| - 1;
      var t' := RedoTable(t, log[..n], who, tab);
      if Touches(log[n], tab) && log[n].tid in who then Put(t', log[n].body.rid, After(log[n].body)) else t'
  }

  /** undo() on one table: before-images of the chosen transactions, newest first. */
  function UndoTable(t: Table, log: Log, who: set<TxnId>, tab: TableName): Table
    decreases |log|
  {
    if log == [] then t
    else
      var n := |log| - 1;
      UndoTable(if Touches(log[n], tab) && log[n].tid in who then Put(t, log[n].body.rid, Before(log[n].body)) else t,
                log[..n], who, tab)
  }

  /** The committed-only state: what the commits in the log did to the initial table. */
  function CommittedState(init: Table, log: Log, tab: TableName): Table {
    RedoTable(init, log, CommittedOf(log), tab)
  }

  /** analyze, redo, undo over whatever the disk holds. */
  function Recovered(image: Table, log: Log, tab: TableName): Table {
    UndoTable(RedoTable(image, log, CommittedOf(log), tab), log, ActiveOf(log), tab)
  }

  // ----------------------------------------------------- pointwise characterization

  /** Index of the last record of `who` on (tab, rid), or -1. */
  function Last(log: Log, who: set<TxnId>, tab: TableName, rid: Rid): (i: int)
    ensures -1 <= i < |log|
    ensures i >= 0 ==> TouchesRid(log[i], tab, rid) && log[i].tid in who
    ensures forall j :: i < j < |log| ==> !(TouchesRid(log[j], tab, rid) && log[j].tid in who)
  {
    if log == [] then -1
    else if TouchesRid(log[|log| - 1], tab, rid) && log[|log| - 1].tid in who then |log| - 1
    else Last(log[..|log| - 1], who, tab, rid)
  }

  /** Index of the first record of `who` on (tab, rid), or -1. */
  function First(log: Log, who: set<TxnId>, tab: TableName, rid: Rid): (i: int)
    ensures -1 <= i < |log|
    ensures i >= 0 ==> TouchesRid(log[i], tab, rid) && log[i].tid in who
    ensures forall j :: 0 <= j < (if i >= 0 then i else |log|) ==> !(TouchesRid(log[j], tab, rid) && log[j].tid in who)
  {
    if log == [] then -1
    else
      var i := First(log[..|log| - 1], who, tab, rid);
      if i >= 0 then i
      else if TouchesRid(log[|log| - 1], tab, rid) && log[|log| - 1].tid in who then |log| - 1
      else -1
  }

  lemma {:induction false} RedoAt(t: Table, log: Log, who: set<TxnId>, tab: TableName, rid: Rid)
    ensures var i := Last(log, who, tab, rid);
      Lookup(RedoTable(t, log, who, tab), rid) == if i >= 0 then After(log[i].body) else Lookup(t, rid)
  {
    if log == [] {
    } else {
      RedoAt(t, log[..|log| - 1], who, tab, rid);
    }
  }

  lemma {:induction false} UndoAt(t: Table, log: Log, who: set<TxnId>, tab: TableName, rid: Rid)
    ensures var i := First(log, who, tab, rid);
      Lookup(UndoTable(t, log, who, tab), rid) == if i >= 0 then Before(log[i].body) else Lookup(t, rid)
    decreases |log|
  {
    if log == [] {
    } else {
      var n := |log| - 1;
      var t' := if Touches(log[n], tab) && log[n].tid in who then Put(t, log[n].body.rid, Before(log[n].body)) else t;
      UndoAt(t', log[..n], who, tab, rid);
    }
  }

  lemma SameLookups(a: Table, b: Table)
    requires forall rid :: Lookup(a, rid) == Lookup(b, rid)
    ensures a == b
  {
    assert forall rid :: rid in a <==> Lookup(a, rid).Some?;
    assert forall rid :: rid in b <==> Lookup(b, rid).Some?;
    assert forall rid :: rid in a ==> Lookup(a, rid) == Some(a[rid]);
    assert forall rid :: rid in b ==> Lookup(b, rid) == Some(b[rid]);
  }

  // ------------------------------------------------------------- independence of image

  predicate Logged(log: Log, tab: TableName, rid: Rid) {
    exists i :: 0 <= i < |log| && TouchesRid(log[i], tab, rid)
  }

  /** A disk image in which only logged rids may differ from the initial table. */
  ghost predicate AgreesOffLog(init: Table, image: Table, log: Log, tab: TableName) {
    forall rid :: !Logged(log, tab, rid) ==> Lookup(init, rid) == Lookup(image, rid)
  }

  lemma RecoveredAt(image: Table, log: Log, tab: TableName, rid: Rid)
    ensures var p, c := First(log, ActiveOf(log), tab, rid), Last(log, CommittedOf(log), tab, rid);
      Lookup(Recovered(image, log, tab), rid) ==
        if p >= 0 then Before(log[p].body) else if c >= 0 then After(log[c].body) else Lookup(image, rid)
  {
    RedoAt(image, log, CommittedOf(log), tab, rid);
    UndoAt(RedoTable(image, log, CommittedOf(log), tab), log, ActiveOf(log), tab, rid);
  }

  lemma LoggedIsClassified(log: Log, tab: TableName, rid: Rid)
    requires EndsOnce(log) && Logged(log, tab, rid)
    ensures First(log, ActiveOf(log), tab, rid) >= 0 || Last(log, CommittedOf(log), tab, rid) >= 0
  {
    var i :| 0 <= i < |log| && TouchesRid(log[i], tab, rid);
    ActiveIff(log, log[i].tid);
  }

  /** Recovery does not depend on what the logged rids held on disk. */
  lemma RecoveredIgnoresImage(a: Table, b: Table, log: Log, tab: TableName)
    requires EndsOnce(log) && AgreesOffLog(a, b, log, tab)
    ensures Recovered(a, log, tab) == Recovered(b, log, tab)
  {
    forall rid ensures Lookup(Recovered(a, log, tab), rid) == Lookup(Recovered(b, log, tab), rid) {
      RecoveredAt(a, log, tab, rid);
      RecoveredAt(b, log, tab, rid);
      if Logged(log, tab, rid) { LoggedIsClassified(log, tab, rid); }
    }
    SameLookups(Recovered(a, log, tab), Recovered(b, log, tab));
  }

  /** A crash in the middle of recovery: redo stopped after k records, or undo stopped with the k
      oldest records still to visit. */
  function PartlyRedone(image: Table, log: Log, tab: TableName, k: nat): Table
    requires k <= |log|
  {
    RedoTable(image, log[..k], CommittedOf(log), tab)
  }

  function PartlyUndone(image: Table, log: Log, tab: TableName, k: nat): Table
    requires k <= |log|
  {
    UndoTable(RedoTable(image, log, CommittedOf(log), tab), log[k..], ActiveOf(log), tab)
  }

  /** Crash during recovery, then recovery again: the same state as one undisturbed recovery. */
  lemma RerunAfterCrash(image: Table, log: Log, tab: TableName, k: nat)
    requires EndsOnce(log) && k <= |log|
    ensures Recovered(PartlyRedone(image, log, tab, k), log, tab) == Recovered(image, log, tab)
    ensures Recovered(PartlyUndone(image, log, tab, k), log, tab) == Recovered(image, log, tab)
  {
    forall rid | !Logged(log, tab, rid)
      ensures Lookup(PartlyRedone(image, log, tab, k), rid) == Lookup(image, rid)
      ensures Lookup(PartlyUndone(image, log, tab, k), rid) == Lookup(image, rid)
    {
      RedoAt(image, log[..k], CommittedOf(log), tab, rid);
      RedoAt(image, log, CommittedOf(log), tab, rid);
      UndoAt(RedoTable(image, log, CommittedOf(log), tab), log[k..], ActiveOf(log), tab, rid);
    }
    RecoveredIgnoresImage(PartlyRedone(image, log, tab, k), image, log, tab);
    RecoveredIgnoresImage(PartlyUndone(image, log, tab, k), image, log, tab);
  }

  // ---------------------------------------------------------------- correctness

  /** What the log says happened: writes take effect when logged, and an abort record marks that the
      transaction's writes were rolled back. */
  function ActualTable(init: Table, log: Log, tab: TableName): Table {
    if log == [] then init
    else
      var n := |log| - 1;
      var t := ActualTable(init, log[..n], tab);
      if Touches(log[n], tab) then Put(t, log[n].body.rid, After(log[n].body))
      else if log[n].body.AbortBody? then UndoTable(t, log[..n], {log[n].tid}, tab)
      else t
  }

  /** Every before-image is what the rid really held when the record was written. */
  ghost predicate AccurateBefore(init: Table, log: Log, tab: TableName) {
    forall i :: 0 <= i < |log| && Touches(log[i], tab) ==>
      Before(log[i].body) == Lookup(ActualTable(init, log[..i], tab), log[i].body.rid)
  }

  /** While every record on a rid belongs to a committed transaction, what happened and what redo
      rebuilds agree on that rid. */
  lemma {:induction false} ActualMatchesRedo(init: Table, log: Log, n: nat, tab: TableName, rid: Rid)
    requires EndsOnce(log) && n <= |log|
    requires forall i :: 0 <= i < n && TouchesRid(log[i], tab, rid) ==> log[i].tid in CommittedOf(log)
    ensures Lookup(ActualTable(init, log[..n], tab), rid)
      == Lookup(RedoTable(init, log[..n], CommittedOf(log), tab), rid)
  {
    if n == 0 {
    } else {
      var m := n - 1;
      ActualMatchesRedo(init, log, m, tab, rid);
      assert log[..n][..m] == log[..m];
      if log[m].body.AbortBody? {
        AbortedNotCommitted(log, m);
        UndoAt(ActualTable(init, log[..m], tab), log[..m], {log[m].tid}, tab, rid);
      }
    }
  }

  lemma AbortedNotCommitted(log: Log, m: nat)
    requires EndsOnce(log) && m < |log| && log[m].body.AbortBody?
    ensures log[m].tid !in CommittedOf(log)
  {
    CommittedIff(log, log[m].tid);
  }

  /** The condition on the log under which recovery is exact at one rid: when a committed write follows
      the first write of an uncommitted transaction, it must have put back the same bytes. */
  ghost predicate NotOverwritten(log: Log, tab: TableName, rid: Rid) {
    var p, c := First(log, ActiveOf(log), tab, rid), Last(log, CommittedOf(log), tab, rid);
    p >= 0 && c > p ==> After(log[c].body) == Before(log[p].body)
  }

  /** At a logged rid recovery is exact, whatever the disk held there, if and only if nothing was overwritten. */
  lemma LoggedExactAt(init: Table, image: Table, log: Log, tab: TableName, rid: Rid)
    requires EndsOnce(log) && AccurateBefore(init, log, tab) && Logged(log, tab, rid)
    ensures Lookup(Recovered(image, log, tab), rid) == Lookup(CommittedState(init, log, tab), rid)
            <==> NotOverwritten(log, tab, rid)
  {
    hide Recovered;
    hide RedoTable;
    hide UndoTable;
    hide ActualTable;
    hide ActiveOf;
    hide CommittedOf;
    var committed := CommittedOf(log);
    var p, c := First(log, ActiveOf(log), tab, rid), Last(log, committed, tab, rid);
    RecoveredAt(image, log, tab, rid);
    RedoAt(init, log, committed, tab, rid);
    LoggedIsClassified(log, tab, rid);
    if p >= 0 && c <= p {
      forall i | 0 <= i < p && TouchesRid(log[i], tab, rid) ensures log[i].tid in committed {
        ActiveIff(log, log[i].tid);
      }
      ActualMatchesRedo(init, log, p, tab, rid);
      RedoAt(init, log[..p], committed, tab, rid);
      ActiveIff(log, log[p].tid);
      LastOfPrefix(log, committed, tab, rid, p);
    }
  }

  /** A rid that the log does not mention keeps what the disk held. */
  lemma UnloggedAt(init: Table, image: Table, log: Log, tab: TableName, rid: Rid)
    requires !Logged(log, tab, rid)
    ensures Lookup(Recovered(image, log, tab), rid) == Lookup(image, rid)
    ensures Lookup(CommittedState(init, log, tab), rid) == Lookup(init, rid) && NotOverwritten(log, tab, rid)
  {
    RecoveredAt(image, log, tab, rid);
    RedoAt(init, log, CommittedOf(log), tab, rid);
  }

  lemma RecoveredExactAt(init: Table, image: Table, log: Log, tab: TableName, rid: Rid)
    requires EndsOnce(log) && AccurateBefore(init, log, tab) && AgreesOffLog(init, image, log, tab)
    ensures Lookup(Recovered(image, log, tab), rid) == Lookup(CommittedState(init, log, tab), rid)
            <==> NotOverwritten(log, tab, rid)
  {
    hide Recovered;
    hide CommittedState;
    hide NotOverwritten;
    hide AccurateBefore;
    if Logged(log, tab, rid) { LoggedExactAt(init, image, log, tab, rid); }
      else { UnloggedAt(init, image, log, tab, rid); }
  }

  lemma LastOfPrefix(log: Log, who: set<TxnId>, tab: TableName, rid: Rid, p: nat)
    requires p < |log| && Last(log, who, tab, rid) < p
    ensures Last(log[..p], who, tab, rid) == Last(log, who, tab, rid)
  {
    var a, b := Last(log[..p], who, tab, rid), Last(log, who, tab, rid);
    if b >= 0 { assert log[..p][b] == log[b]; }
    if a >= 0 { assert log[..p][a] == log[a]; }
  }

  /** Exactness of recovery, both ways: from every disk image that is right off the log, redo then undo
      gives the committed-only state if and only if no rid lost an uncommitted write to a later
      committed write of different bytes. */
  lemma RecoveryExactIff(init: Table, image: Table, log: Log, tab: TableName)
    requires EndsOnce(log) && AccurateBefore(init, log, tab) && AgreesOffLog(init, image, log, tab)
    ensures Recovered(image, log, tab) == CommittedState(init, log, tab)
            <==> forall rid :: NotOverwritten(log, tab, rid)
  {
    forall rid
      ensures Lookup(Recovered(image, log, tab), rid) == Lookup(CommittedState(init, log, tab), rid)
              <==> NotOverwritten(log, tab, rid)
    {
      RecoveredExactAt(init, image, log, tab, rid);
    }
    if forall rid :: NotOverwritten(log, tab, rid) {
      SameLookups(Recovered(image, log, tab), CommittedState(init, log, tab));
    }
  }

  // ------------------------------------------------- the documented sufficient condition

  /** Two transactions that write the same table are separated by the earlier one's end record. */
  ghost predicate Separated(log: Log, tab: TableName) {
    forall i, j :: 0 <= i < j < |log| && Touches(log[i], tab) && Touches(log[j], tab) && log[i].tid != log[j].tid ==>
      exists k :: i < k < j && log[k].tid == log[i].tid && IsEnd(log[k].body)
  }

  predicate AbortedIn(log: Log, t: TxnId) {
    exists k :: 0 <= k < |log| && log[k].tid == t && log[k].body.AbortBody?
  }

  /** No rid written by an aborted transaction is rewritten later by a committed one. */
  ghost predicate NoCommitAfterAbort(log: Log, tab: TableName) {
    forall i, j :: 0 <= i < j < |log| && Touches(log[i], tab) && AbortedIn(log, log[i].tid) ==>
      TouchesRid(log[j], tab, log[i].body.rid) ==> log[j].tid !in CommittedOf(log)
  }

  lemma SeparatedNotOverwritten(log: Log, tab: TableName, rid: Rid)
    requires EndsOnce(log) && Separated(log, tab) && NoCommitAfterAbort(log, tab)
    ensures NotOverwritten(log, tab, rid)
  {
    var p, c := First(log, ActiveOf(log), tab, rid), Last(log, CommittedOf(log), tab, rid);
    if p >= 0 && c > p {
      ActiveIff(log, log[p].tid);
      var k :| p < k < c && log[k].tid == log[p].tid && IsEnd(log[k].body);
      CommittedIff(log, log[p].tid);
    }
  }

  /** Recovery is correct from any disk image under the conditions the engine relies on. */
  lemma RecoveryCorrect(init: Table, image: Table, log: Log, tab: TableName)
    requires EndsOnce(log) && AccurateBefore(init, log, tab) && Separated(log, tab) && NoCommitAfterAbort(log, tab)
    requires AgreesOffLog(init, image, log, tab)
    ensures Recovered(image, log, tab) == CommittedState(init, log, tab)
  {
    forall rid ensures NotOverwritten(log, tab, rid) {
      SeparatedNotOverwritten(log, tab, rid);
    }
    RecoveryExactIff(init, image, log, tab);
  }

  // -------------------------------------------------------------- a log that recovery gets wrong

  /** Transaction 0 updates a record and aborts; transaction 1 then updates it and commits. */
  function LosingLog(rid: Rid, tab: TableName, a: Record, b: Record, c: Record): Log {
    [LogRecord(0, INVALID_LSN, 0, BeginBody), LogRecord(1, 0, 0, UpdateBody(a, b, rid, tab)),
      LogRecord(2, 1, 0, AbortBody),
     LogRecord(3, INVALID_LSN, 1, BeginBody), LogRecord(4, 3, 1, UpdateBody(a, c, rid, tab)),
       LogRecord(5, 4, 1, CommitBody)]
  }

  /** Recovery of that log throws the committed update away: abort writes no compensation records, so
      transaction 0 is undone a second time, after transaction 1 was redone. */
  lemma CommittedUpdateLost(rid: Rid, tab: TableName, a: Record, b: Record, c: Record)
    requires a != c
    ensures var log, init := LosingLog(rid, tab, a, b, c), map[rid := a];
      && EndsOnce(log) && AccurateBefore(init, log, tab) && Separated(log, tab)
      && Lookup(CommittedState(init, log, tab), rid) == Some(c)
      && Lookup(Recovered(init, log, tab), rid) == Some(a)
  {
    var log, init := LosingLog(rid, tab, a, b, c), map[rid := a];
    hide ActualTable;
    hide RedoTable;
    hide UndoTable;
    forall t ensures t in CommittedOf(log) <==> t == 1 { CommittedIff(log, t); assert log[5].body.CommitBody?; }
    forall t ensures t in ActiveOf(log) <==> t == 0 { ActiveIff(log, t); assert log[0].tid == 0; }
    RedoAt(init, log, CommittedOf(log), tab, rid);
    RecoveredAt(init, log, tab, rid);
    assert TouchesRid(log[4], tab, rid) && TouchesRid(log[1], tab, rid);
    assert log[2].tid == log[1].tid && IsEnd(log[2].body);
    LosingLogActual(rid, tab, a, b, c);
  }

  lemma LosingLogActual(rid: Rid, tab: TableName, a: Record, b: Record, c: Record)
    ensures ActualTable(map[rid := a], LosingLog(rid, tab, a, b, c)[..1], tab) == map[rid := a]
    ensures ActualTable(map[rid := a], LosingLog(rid, tab, a, b, c)[..4], tab) == map[rid := a]
  {
    var log, init := LosingLog(rid, tab, a, b, c), map[rid := a];
    assert log[..4][..3] == log[..3] && log[..3][..2] == log[..2] && log[..2][..1] == log[..1] && log[..1][..0] == [];
    assert ActualTable(init, log[..1], tab) == init;
    assert ActualTable(init, log[..2], tab) == map[rid := b];
    UndoAt(map[rid := b], log[..2], {0}, tab, rid);
    assert log[..2] == [log[0], log[1]];
    forall r ensures Lookup(UndoTable(map[rid := b], log[..2], {0}, tab), r) == Lookup(init, r) {
      UndoAt(map[rid := b], log[..2], {0}, tab, r);
      assert TouchesRid(log[1], tab, rid);
    }
    SameLookups(UndoTable(map[rid := b], log[..2], {0}, tab), init);
  }

  lemma ClassifyNil()
    ensures CommittedOf([]) == {} && ActiveOf([]) == {}
  {
  }

  lemma ClassifySnoc(log: Log, r: LogRecord)
    ensures CommittedOf(log + [r]) == if r.body.CommitBody? then CommittedOf(log) + {r.tid} else CommittedOf(log)
    ensures ActiveOf(log + [r]) == if r.body.CommitBody? then ActiveOf(log) - {r.tid} else ActiveOf(log) + {r.tid}
  {
    assert (log + [r])[..|log|] == log;
  }
}
