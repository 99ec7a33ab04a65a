/** Interleaved transactions over tables with indexes: each works on the tables it has locked exclusively, and ends by
    commit or by abort's rollback loop (src/transaction/transaction_manager.cpp). */
module IndexAgreement {
  import opened Types
  import opened Heap
  import opened HeapRollback
  import opened Relations

  /** db is the tables with their indexes; writes holds each transaction's rollback records; owner says who holds a
      table's exclusive lock, and base remembers the table as it was when that lock was granted. failed: an abort met
      an error, or a key was read past the end of a record. */
  datatype Sys = Sys(db: Db, writes: map<TxnId, seq<WriteRecord>>, owner: map<TableName, TxnId>, base: Db, failed: bool)

  datatype Event =
    | LockTable(t: TxnId, tab: TableName)
    | Row(t: TxnId, tab: TableName, s: Stmt)
    | Commit(t: TxnId)
    | Abort(t: TxnId)

  function WritesOf(sys: Sys, t: TxnId): seq<WriteRecord> {
    WritesIn(sys.writes, t)
  }

  function Owner(sys: Sys, tab: TableName): Option<TxnId> {
    Lookup(sys.owner, tab)
  }

  /** Row operations work on a table that the transaction has locked, with records of its record size. */
  predicate CanDo(sys: Sys, e: Event) {
    match e
    case LockTable(_, tab) => tab in sys.db && tab !in sys.owner
    case Row(t, tab, s) => tab in sys.db && Owner(sys, tab) == Some(t) && RightSize(sys.db[tab], s)
    case Commit(_) => true
    case Abort(_) => true
  }

  function Released(sys: Sys, t: TxnId): map<TableName, TxnId> {
    map tab | tab in sys.owner && sys.owner[tab] != t :: sys.owner[tab]
  }

  function Does(sys: Sys, e: Event): Sys
    requires CanDo(sys, e)
  {
    match e
    case LockTable(t, tab) => sys.(owner := sys.owner[tab := t], base := sys.base[tab := sys.db[tab]])
    case Row(t, tab, s) =>
      if !Executes(sys.db[tab], s) then sys.(failed := true)
      else
        var (db, w) := Step(sys.db, tab, s);
        sys.(db := db, writes := sys.writes[t := WritesOf(sys, t) + w])
    case Commit(t) => sys.(owner := Released(sys, t), writes := sys.writes[t := []])
    case Abort(t) =>
      var db := RollBackDb(sys.db, WritesOf(sys, t));
      if db.None? then sys.(failed := true)
      else sys.(db := db.value, owner := Released(sys, t), writes := sys.writes[t := []])
  }

  // ------------------------------------------------------------ a rollback, one table at a time

  /** The records of one table, in order. */
  function Of(ws: seq<WriteRecord>, tab: TableName): seq<WriteRecord> {
    if ws == [] then [] else Of(ws[..|ws| - 1], tab) + if ws[|ws| - 1].tab == tab then [ws[|ws| - 1]] else []
  }

  function RollRel(rel: Rel, ws: seq<WriteRecord>): Option<Rel>
    decreases |ws|
  {
    if ws == [] then Some(rel)
    else
      var w := ws[|ws| - 1];
      if !RestoreClean(rel, w) then None else RollRel(Restore(rel, w), ws[..|ws| - 1])
  }

  lemma RollRelSnoc(rel: Rel, ws: seq<WriteRecord>, w: WriteRecord)
    ensures RollRel(rel, ws + [w]) == if !RestoreClean(rel, w) then None else RollRel(Restore(rel, w), ws)
  {
    hide RestoreClean;
    hide Restore;
    assert (ws + [w])[..|ws|] == ws;
  }

  lemma OfSnoc(ws: seq<WriteRecord>, w: WriteRecord, tab: TableName)
    ensures Of(ws + [w], tab) == Of(ws, tab) + if w.tab == tab then [w] else []
  {
    assert (ws + [w])[..|ws|] == ws;
  }

  ghost predicate TablesKnown(db: Db, ws: seq<WriteRecord>) { forall i :: 0 <= i < |ws| ==> ws[i].tab in db }

  /** Rolling back a write set rolls back each table by its own records. */
  lemma {:induction false} RollByTable(db: Db, ws: seq<WriteRecord>)
    requires TablesKnown(db, ws) && forall tab :: tab in db ==> RollRel(db[tab], Of(ws, tab)).Some?
    ensures var r := RollBackDb(db, ws);
      && r.Some? && r.value.Keys == db.Keys
      && forall tab :: tab in db ==> RollRel(db[tab], Of(ws, tab)) == Some(r.value[tab])
    decreases |ws|
  {
    hide RestoreClean;
    hide Restore;
    hide RollRel;
    if ws == [] {
      forall tab | tab in db ensures RollRel(db[tab], Of(ws, tab)) == Some(db[tab]) { RollRelNil(db[tab]); }
    } else {
      var w, init := ws[|ws| - 1], ws[..|ws| - 1];
      assert ws == init + [w];
      forall tab { OfSnoc(init, w, tab); }
      RollRelSnoc(db[w.tab], Of(init, w.tab), w);
      var db' := db[w.tab := Restore(db[w.tab], w)];
      forall tab | tab in db' ensures RollRel(db'[tab], Of(init, tab)) == RollRel(db[tab], Of(ws, tab)) {
        assert tab != w.tab ==> Of(ws, tab) == Of(init, tab);
      }
      RollByTable(db', init);
    }
  }

  lemma RollRelNil(rel: Rel)
    ensures RollRel(rel, []) == Some(rel)
  {
  }

  // ---------------------------------------------------------------------------- the invariant

  /** Rolling the table back by these records restores it to base, whatever pages are added meanwhile. */
  ghost predicate Undoes(now: Rel, ws: seq<WriteRecord>, base: Rel) {
    && |base.file.pages| <= |now.file.pages|
    && forall k: nat :: RollRel(Grown(now, k), ws) == Some(Grown(base, k + |now.file.pages| - |base.file.pages|))
  }

  function WritesIn(writes: map<TxnId, seq<WriteRecord>>, t: TxnId): seq<WriteRecord> {
    if t in writes then writes[t] else []
  }

  /** A table is well formed; only its owner remembers writes to it, and undoing them restores base. */
  ghost predicate OneTableInv(rel: Rel, owner: Option<TxnId>, writes: map<TxnId, seq<WriteRecord>>, base: Option<Rel>,
      tab: TableName)
  {
    && RelOk(rel)
    && (forall t :: owner != Some(t) ==> Of(WritesIn(writes, t), tab) == [])
    && (owner.Some? ==>
          base.Some? && RelOk(base.value) && Undoes(rel, Of(WritesIn(writes, owner.value), tab), base.value))
  }

  ghost predicate TableInv(sys: Sys, tab: TableName)
    requires tab in sys.db
  {
    OneTableInv(sys.db[tab], Owner(sys, tab), sys.writes, Lookup(sys.base, tab), tab)
  }

  ghost predicate SysInv(sys: Sys) {
    && !sys.failed
    && (forall tab :: tab in sys.db ==> TableInv(sys, tab))
    && (forall t :: TablesKnown(sys.db, WritesOf(sys, t)))
  }

  lemma InvDbOk(sys: Sys)
    requires SysInv(sys)
    ensures DbOk(sys.db)
  {
    hide RelOk;
    forall tab | tab in sys.db ensures RelOk(sys.db[tab]) { assert TableInv(sys, tab); }
  }

  lemma UndoesNothing(rel: Rel)
    ensures Undoes(rel, [], rel)
  {
    hide Grown;
    forall k: nat ensures RollRel(Grown(rel, k), []) == Some(Grown(rel, k)) { RollRelNil(Grown(rel, k)); }
  }

  /** One more statement: its rollback record comes first when undoing. */
  lemma UndoesOneMore(rel: Rel, s: Stmt, tab: TableName, ws: seq<WriteRecord>, base: Rel)
    requires RelOk(rel) && RightSize(rel, s) && Undoes(rel, ws, base)
    ensures !s.DeleteStmt? ==> Usable(rel.indexes, s.buf)
    ensures Decide(rel, s).Some? ==> (
      var a := Decide(rel, s).value;
      Applicable(rel, a) && Remember(rel.file, a, tab).tab == tab
        && Undoes(Execute(rel, a), ws + [Remember(rel.file, a, tab)], base))
  {
    hide RelOk;
    hide Decide;
    hide Execute;
    hide Remember;
    hide Grown;
    hide RollRel;
    hide Restore;
    hide RestoreClean;
    hide Usable;
    UndoStmt(rel, s, 0, tab);
    if Decide(rel, s).Some? {
      var a := Decide(rel, s).value;
      var now, w := Execute(rel, a), Remember(rel.file, a, tab);
      forall k: nat
        ensures RollRel(Grown(now, k), ws + [w]) == Some(Grown(base, k + |now.file.pages| - |base.file.pages|))
      {
        UndoStmt(rel, s, k, tab);
        RollRelSnoc(Grown(now, k), ws, w);
      }
    }
  }

  lemma LockKeeps(sys: Sys, e: Event, tab: TableName)
    requires e.LockTable? && SysInv(sys) && CanDo(sys, e) && tab in sys.db
    ensures TableInv(Does(sys, e), tab)
  {
    hide OneTableInv;
    hide TablesKnown;
    assert TableInv(sys, tab);
    if tab == e.tab { NewOwner(sys.db[tab], sys.writes, Lookup(sys.base, tab), tab, e.t); }
  }

  lemma NewOwner(rel: Rel, writes: map<TxnId, seq<WriteRecord>>, base: Option<Rel>, tab: TableName, t: TxnId)
    requires OneTableInv(rel, None, writes, base, tab)
    ensures OneTableInv(rel, Some(t), writes, Some(rel), tab)
  {
    hide RelOk;
    hide Undoes;
    UndoesNothing(rel);
  }

  /** The owner's writes to the table grew together with the table; nobody else's changed. */
  lemma OwnerWrote(rel: Rel, rel': Rel, t: TxnId, writes: map<TxnId, seq<WriteRecord>>, ws: seq<WriteRecord>,
      base: Rel, tab: TableName)
    requires OneTableInv(rel, Some(t), writes, Some(base), tab) && RelOk(rel') && Undoes(rel', Of(ws, tab), base)
    ensures OneTableInv(rel', Some(t), writes[t := ws], Some(base), tab)
  {
    hide RelOk;
    hide Undoes;
    hide Of;
  }

  /** A transaction's writes changed, but not those to this table. */
  lemma ElsewhereWrote(rel: Rel, owner: Option<TxnId>, writes: map<TxnId, seq<WriteRecord>>, t: TxnId,
      ws: seq<WriteRecord>, base: Option<Rel>, tab: TableName)
    requires OneTableInv(rel, owner, writes, base, tab) && Of(ws, tab) == Of(WritesIn(writes, t), tab)
    ensures OneTableInv(rel, owner, writes[t := ws], base, tab)
  {
    hide RelOk;
    hide Undoes;
    hide Of;
    forall u ensures Of(WritesIn(writes[t := ws], u), tab) == Of(WritesIn(writes, u), tab) { }
  }

  /** The transaction is gone: it owns nothing and remembers nothing. */
  lemma OwnerLeft(rel: Rel, owner: Option<TxnId>, writes: map<TxnId, seq<WriteRecord>>, t: TxnId, base: Option<Rel>,
      tab: TableName)
    requires OneTableInv(rel, owner, writes, base, tab)
    ensures OneTableInv(rel, if owner == Some(t) then None else owner, writes[t := []], base, tab)
  {
    hide RelOk;
    hide Undoes;
    OfNil(tab);
  }

  lemma RowKeeps(sys: Sys, e: Event, tab: TableName)
    requires e.Row? && SysInv(sys) && CanDo(sys, e) && tab in sys.db
    ensures tab in Does(sys, e).db && TableInv(Does(sys, e), tab)
  {
    hide RelOk;
    hide OneTableInv;
    hide Decide;
    hide Execute;
    hide Remember;
    hide Of;
    hide Usable;
    hide TablesKnown;
    hide Undoes;
    assert TableInv(sys, tab) && TableInv(sys, e.tab);
    var ws, rel := WritesOf(sys, e.t), sys.db[e.tab];
    OwnedTable(rel, e.t, sys.writes, Lookup(sys.base, e.tab), e.tab);
    var base := Lookup(sys.base, e.tab).value;
    ExecuteKeepsOk(rel, e.s);
    UndoesOneMore(rel, e.s, e.tab, Of(ws, e.tab), base);
    var (db, w) := Step(sys.db, e.tab, e.s);
    if w == [] { assert ws + w == ws; } else {
      assert w == [w[0]] && w[0].tab == e.tab;
      OfSnoc(ws, w[0], tab);
    }
    if tab == e.tab {
      OwnerWrote(rel, db[tab], e.t, sys.writes, ws + w, base, tab);
    } else {
      assert Of(ws + w, tab) == Of(ws, tab) by { assert Of(ws, tab) + [] == Of(ws, tab); }
      ElsewhereWrote(sys.db[tab], Owner(sys, tab), sys.writes, e.t, ws + w, Lookup(sys.base, tab), tab);
    }
  }

  lemma OwnedTable(rel: Rel, t: TxnId, writes: map<TxnId, seq<WriteRecord>>, base: Option<Rel>, tab: TableName)
    requires OneTableInv(rel, Some(t), writes, base, tab)
    ensures base.Some? && RelOk(rel) && RelOk(base.value) && Undoes(rel, Of(WritesIn(writes, t), tab), base.value)
  {
  }

  lemma CommitKeeps(sys: Sys, e: Event, tab: TableName)
    requires e.Commit? && SysInv(sys) && tab in sys.db
    ensures TableInv(Does(sys, e), tab)
  {
    hide OneTableInv;
    hide TablesKnown;
    assert TableInv(sys, tab);
    OwnerLeft(sys.db[tab], Owner(sys, tab), sys.writes, e.t, Lookup(sys.base, tab), tab);
  }

  /** Abort meets no error; it restores every table that the transaction had locked to what it was then, up to the
      pages that the transaction created, and touches no other table. */
  ghost predicate Restored(sys: Sys, t: TxnId, db: Db) {
    && db.Keys == sys.db.Keys
    && (forall tab :: tab in sys.db ==>
          if Owner(sys, tab) == Some(t) then tab in sys.base && RelOk(sys.base[tab])
            && RestoredTo(db[tab], sys.base[tab])
          else db[tab] == sys.db[tab])
  }

  lemma UndoesAt(now: Rel, ws: seq<WriteRecord>, base: Rel)
    requires Undoes(now, ws, base) && FileOk(base.file)
    ensures RollRel(now, ws).Some? && RestoredTo(RollRel(now, ws).value, base)
  {
    hide FileOk;
    hide Contents;
    hide RollRel;
    var k := |now.file.pages| - |base.file.pages|;
    ExtendNone(now.file);
    assert Grown(now, 0) == now;
    assert RollRel(Grown(now, 0), ws) == Some(Grown(base, 0 + k));
    GrownContents(base, k);
    GrownRestored(base, k);
  }

  lemma TableRolled(sys: Sys, t: TxnId, tab: TableName)
    requires SysInv(sys) && tab in sys.db
    ensures var r := RollRel(sys.db[tab], Of(WritesOf(sys, t), tab));
      && r.Some?
      && (if Owner(sys, tab) == Some(t) then tab in sys.base && RelOk(sys.base[tab])
        && RestoredTo(r.value, sys.base[tab])
          else r.value == sys.db[tab])
  {
    hide Undoes;
    hide Contents;
    hide FileOk;
    hide Of;
    assert TableInv(sys, tab);
    if Owner(sys, tab) == Some(t) {
      UndoesAt(sys.db[tab], Of(WritesOf(sys, t), tab), sys.base[tab]);
    } else {
      RollRelNil(sys.db[tab]);
    }
  }

  lemma AbortRestores(sys: Sys, t: TxnId)
    requires SysInv(sys)
    ensures RollBackDb(sys.db, WritesOf(sys, t)).Some? && Restored(sys, t, RollBackDb(sys.db, WritesOf(sys, t)).value)
  {
    hide RollRel;
    hide TableInv;
    hide RestoredTo;
    hide RelOk;
    var ws := WritesOf(sys, t);
    forall tab | tab in sys.db
      ensures RollRel(sys.db[tab], Of(ws, tab)).Some?
      ensures var r := RollRel(sys.db[tab], Of(ws, tab)).value;
        if Owner(sys, tab) == Some(t) then tab in sys.base && RelOk(sys.base[tab])
          && RestoredTo(r, sys.base[tab]) else r == sys.db[tab]
    {
      TableRolled(sys, t, tab);
    }
    RollByTable(sys.db, ws);
  }

  lemma RestoredOk(back: Rel, rel: Rel)
    requires RestoredTo(back, rel) && RelOk(rel)
    ensures RelOk(back)
  {
    hide Contents;
    hide FileOk;
  }

  /** A table that was restored to its base. */
  lemma OwnerUndid(rel: Rel, rel': Rel, t: TxnId, writes: map<TxnId, seq<WriteRecord>>, base: Option<Rel>,
      tab: TableName)
    requires OneTableInv(rel, Some(t), writes, base, tab) && base.Some? && RestoredTo(rel', base.value)
    ensures OneTableInv(rel', None, writes[t := []], base, tab)
  {
    hide RelOk;
    hide Undoes;
    hide RestoredTo;
    RestoredOk(rel', base.value);
    OfNil(tab);
  }

  lemma AbortKeeps(sys: Sys, e: Event, tab: TableName)
    requires e.Abort? && SysInv(sys) && tab in sys.db && RollBackDb(sys.db, WritesOf(sys, e.t)).Some?
    requires Restored(sys, e.t, Does(sys, e).db)
    ensures tab in Does(sys, e).db && TableInv(Does(sys, e), tab)
  {
    hide RelOk;
    hide OneTableInv;
    hide RestoredTo;
    hide RollBackDb;
    hide TablesKnown;
    assert TableInv(sys, tab);
    var db := Does(sys, e).db;
    if Owner(sys, tab) == Some(e.t) {
      OwnerUndid(sys.db[tab], db[tab], e.t, sys.writes, Lookup(sys.base, tab), tab);
    } else {
      OwnerLeft(sys.db[tab], Owner(sys, tab), sys.writes, e.t, Lookup(sys.base, tab), tab);
    }
  }

  lemma OfNil(tab: TableName)
    ensures Of([], tab) == []
  {
  }

  lemma RowWrites(db: Db, tab: TableName, s: Stmt)
    requires DbOk(db) && tab in db && RightSize(db[tab], s)
    ensures Executes(db[tab], s) && Step(db, tab, s).0.Keys == db.Keys
    ensures forall i :: 0 <= i < |Step(db, tab, s).1| ==> Step(db, tab, s).1[i].tab == tab
  {
    hide RelOk;
    hide Decide;
    hide Execute;
    hide Remember;
    hide Usable;
    OkExecutes(db[tab], s);
    StepKeys(db, tab, s);
    UndoStmt(db[tab], s, 0, tab);
  }

  lemma NeverFails(sys: Sys, e: Event)
    requires SysInv(sys) && CanDo(sys, e) && (e.Abort? ==> RollBackDb(sys.db, WritesOf(sys, e.t)).Some?)
    ensures !Does(sys, e).failed
  {
    hide RelOk;
    hide TableInv;
    hide RollBackDb;
    hide Step;
    hide Executes;
    if e.Row? {
      InvDbOk(sys);
      OkExecutes(sys.db[e.tab], e.s);
    }
  }

  lemma InvNotFailed(sys: Sys)
    requires SysInv(sys)
    ensures !sys.failed
  {
  }

  lemma KeepsKnown(sys: Sys, e: Event)
    requires SysInv(sys) && CanDo(sys, e) && (e.Abort? ==> Restored(sys, e.t, Does(sys, e).db))
    ensures Does(sys, e).db.Keys == sys.db.Keys
    ensures forall t :: TablesKnown(Does(sys, e).db, WritesOf(Does(sys, e), t))
  {
    hide TableInv;
    hide RelOk;
    hide Decide;
    hide Execute;
    hide Remember;
    hide Usable;
    hide RollBackDb;
    hide RestoredTo;
    if e.Row? {
      InvDbOk(sys);
      RowWrites(sys.db, e.tab, e.s);
      var w := Step(sys.db, e.tab, e.s).1;
      assert TablesKnown(sys.db, WritesOf(sys, e.t) + w);
    }
    var sys' := Does(sys, e);
    forall t ensures TablesKnown(sys'.db, WritesOf(sys', t)) { assert TablesKnown(sys.db, WritesOf(sys, t)); }
  }

  /** Every event keeps the invariant, and no abort meets an error. */
  lemma KeepsSysInv(sys: Sys, e: Event)
    requires SysInv(sys) && CanDo(sys, e)
    ensures SysInv(Does(sys, e))
  {
    hide TableInv;
    hide RollBackDb;
    hide Restored;
    if e.Abort? { AbortRestores(sys, e.t); }
    NeverFails(sys, e);
    KeepsKnown(sys, e);
    forall tab | tab in Does(sys, e).db ensures TableInv(Does(sys, e), tab) {
      match e
      case LockTable(_, _) => LockKeeps(sys, e, tab);
      case Row(_, _, _) => RowKeeps(sys, e, tab);
      case Commit(_) => CommitKeeps(sys, e, tab);
      case Abort(_) => AbortKeeps(sys, e, tab);
    }
  }

  /** A run from tables with agreeing indexes and no transaction. */
  ghost predicate IsSysRun(states: seq<Sys>, events: seq<Event>) {
    && |states| == |events| + 1 && DbOk(states[0].db) && states[0].writes == map[] && states[0].owner == map[]
    && !states[0].failed
    && (forall i :: 0 <= i < |events| ==> CanDo(states[i], events[i]) && states[i + 1] == Does(states[i], events[i]))
  }

  lemma InitialSysInv(sys: Sys)
    requires DbOk(sys.db) && sys.writes == map[] && sys.owner == map[] && !sys.failed
    ensures SysInv(sys)
  {
    hide RelOk;
  }

  lemma {:induction false} SysInvInRun(states: seq<Sys>, events: seq<Event>, n: nat)
    requires IsSysRun(states, events) && n <= |events|
    ensures SysInv(states[n])
  {
    hide SysInv;
    hide Does;
    hide CanDo;
    hide DbOk;
    if n == 0 { InitialSysInv(states[0]); } else {
      SysInvInRun(states, events, n - 1);
      assert CanDo(states[n - 1], events[n - 1]) && states[n - 1 + 1] == Does(states[n - 1], events[n - 1]);
      KeepsSysInv(states[n - 1], events[n - 1]);
    }
  }

  /** In every interleaving of row operations, commits and aborts, after every step each index is strictly sorted and
      has exactly one entry per live record, and an abort at that point would meet no error and restore
      the transaction's tables exactly while leaving all others alone. */
  lemma AgreementInEveryRun(states: seq<Sys>, events: seq<Event>, n: nat, t: TxnId)
    requires IsSysRun(states, events) && n <= |events|
    ensures DbOk(states[n].db) && !states[n].failed
    ensures RollBackDb(states[n].db, WritesOf(states[n], t)).Some?
    ensures Restored(states[n], t, RollBackDb(states[n].db, WritesOf(states[n], t)).value)
  {
    hide Does;
    hide CanDo;
    hide RollBackDb;
    hide Restored;
    hide SysInv;
    hide DbOk;
    SysInvInRun(states, events, n);
    InvDbOk(states[n]);
    InvNotFailed(states[n]);
    AbortRestores(states[n], t);
  }
}
