/** TransactionManager (src/transaction/transaction_manager.cpp): begin, commit and abort on the objects they change. */
module TransactionManagement {
  import opened Types
  import opened Locking
  import opened Integers
  import opened LogCodec
  import opened LogBuffering
  import opened Relations
  import opened SystemManagement
  import opened RecordFile

  /** The transaction's locks are exactly its memberships in the lock queues. */
  ghost predicate LocksMatch(table: LockTable, t: TxnId, lockSet: set<LockDataId>) {
    TableOk(table) && forall id :: id in lockSet <==> HeldMode(table, t, id).Some?
  }

  class TransactionManager {
    const locks: LockManager
    const log: LogManager
    const tables: map<TableName, TableStore>
    var nextTxnId: nat
    var nextTimestamp: nat
    var txnMap: map<TxnId, Transaction>

    ghost function Stores(): set<object>
    {
      tables.Values + (set t | t in tables.Values :: t.file)
    }

    ghost predicate TablesOk()
      reads Stores()
    {
      && (forall a, b :: a in tables && b in tables && a != b ==>
        tables[a] != tables[b] && tables[a].file != tables[b].file)
      && (forall tab :: tab in tables ==> tables[tab].Valid())
    }

    ghost function State(): (db: Db)
      requires TablesOk()
      reads Stores()
      ensures db.Keys == tables.Keys
    {
      map tab | tab in tables :: tables[tab].State()
    }

    constructor (lm: LockManager, lg: LogManager, ts: map<TableName, TableStore>)
      ensures locks == lm && log == lg && tables == ts && nextTxnId == 0 && nextTimestamp == 0 && txnMap == map[]
    {
      locks, log, tables, nextTxnId, nextTimestamp, txnMap := lm, lg, ts, 0, 0, map[];
    }

    /** begin(): a transaction that is passed in is used, otherwise a new one gets the next id; it gets the next
        timestamp, starts to grow, is entered in the transaction map, and the log gets its begin record. */
    method Begin(given: Transaction?) returns (txn: Transaction)
      requires log.Valid() && IsInt32(nextTxnId) && IsInt32(log.globalLsn)
      requires given != null ==> IsInt32(given.id) && IsInt32(given.prevLsn)
      modifies this, log, log.buffer, if given == null then {} else {given}
      ensures log.Valid() && log.buffer == old(log.buffer)
      ensures given != null ==> txn == given && nextTxnId == old(nextTxnId) && txn.prevLsn == old(log.globalLsn)
      ensures given != null ==> txn.lockSet == old(given.lockSet) && txn.writeSet == old(given.writeSet)
      ensures given == null ==> fresh(txn) && txn.id == old(nextTxnId) && nextTxnId == old(nextTxnId) + 1
      ensures given == null ==> txn.lockSet == {} && txn.writeSet == []
      ensures txn.state == Growing && txn.startTs == old(nextTimestamp) && nextTimestamp == old(nextTimestamp) + 1
      ensures txnMap == old(txnMap)[txn.id := txn] && txn.prevLsn == old(log.globalLsn)
      ensures log.records == old(log.records)
        + [LogRecord(old(log.globalLsn), if given == null then INVALID_LSN else old(given.prevLsn), txn.id, BeginBody)]
    {
      hide LogManager.Valid;
      if given == null {
        txn := new Transaction(nextTxnId);
        nextTxnId := nextTxnId + 1;
      } else {
        txn := given;
      }
      txn.startTs := nextTimestamp;
      nextTimestamp := nextTimestamp + 1;
      txn.state := Growing;
      txnMap := txnMap[txn.id := txn];
      AddRecord(txn, log, BeginBody);
    }

    /** commit(): when it returns, every record of the log including the commit record is on disk, the transaction holds
        no lock and remembers no write; nobody else's locks changed. */
    method Commit(txn: Transaction)
      requires log.Valid() && IsInt32(txn.id) && IsInt32(txn.prevLsn) && IsInt32(log.globalLsn)
      requires LocksMatch(locks.table, txn.id, txn.lockSet)
      modifies locks, log, log.buffer, txn
      ensures log.Valid() && log.records
        == old(log.records) + [LogRecord(old(log.globalLsn), old(txn.prevLsn), txn.id, CommitBody)]
      ensures log.disk == SerializeAll(log.records)
      ensures txn.state == Committed && txn.lockSet == {} && txn.writeSet == [] && LocksMatch(locks.table, txn.id, {})
      ensures forall u, id :: u != txn.id ==> HeldMode(locks.table, u, id) == HeldMode(old(locks.table), u, id)
    {
      hide LogManager.Valid;
      hide LocksMatch;
      hide HeldMode;
      End(txn, CommitBody, Committed);
      txn.writeSet := [];
    }

    /** What commit and abort have in common: the record goes to disk, and only then are the locks released. */
    method End(txn: Transaction, body: LogBody, st: TransactionState)
      requires log.Valid() && IsInt32(txn.id) && IsInt32(txn.prevLsn) && IsInt32(log.globalLsn)
      requires LocksMatch(locks.table, txn.id, txn.lockSet)
      requires (body.CommitBody? && st == Committed) || (body.AbortBody? && st == Aborted)
      modifies locks, log, log.buffer, txn
      ensures log.Valid() && log.records
        == old(log.records) + [LogRecord(old(log.globalLsn), old(txn.prevLsn), txn.id, body)]
      ensures log.disk == SerializeAll(log.records)
      ensures txn.state == st && txn.lockSet == {} && txn.writeSet == old(txn.writeSet)
        && LocksMatch(locks.table, txn.id, {})
      ensures forall u, id :: u != txn.id ==> HeldMode(locks.table, u, id) == HeldMode(old(locks.table), u, id)
    {
      hide LogManager.Valid;
      hide TableOk;
      hide HeldMode;
      LogRow(txn, log, body);
      txn.state := st;
      ReleaseLogged(txn, body);
    }

    /** The locks go only when the end of the transaction is on disk in the log. */
    method ReleaseLogged(txn: Transaction, body: LogBody)
      requires (body.CommitBody? || body.AbortBody?) && LastOnDisk(log, body)
      requires log.records[|log.records| - 1].tid == txn.id
      requires LocksMatch(locks.table, txn.id, txn.lockSet) && (txn.state == Committed || txn.state == Aborted)
      modifies locks, txn
      ensures txn.lockSet == {} && LocksMatch(locks.table, txn.id, {})
      ensures txn.state == old(txn.state) && txn.writeSet == old(txn.writeSet) && txn.prevLsn == old(txn.prevLsn)
      ensures forall u, id :: u != txn.id ==> HeldMode(locks.table, u, id) == HeldMode(old(locks.table), u, id)
    {
      hide LogManager.Valid;
      hide TableOk;
      hide HeldMode;
      locks.UnlockAll(txn);
    }

    /** abort()'s loop: pop the newest rollback record and restore its row, until none is left. */
    method RollBack(txn: Transaction)
      requires TablesOk() && RollBackDb(State(), txn.writeSet).Some?
      modifies Stores(), txn`writeSet
      ensures TablesOk() && txn.writeSet == []
      ensures RollBackDb(old(State()), old(txn.writeSet)) == Some(State())
    {
      hide TablesOk;
      hide State;
      while |txn.writeSet| > 0
        invariant TablesOk() && RollBackDb(State(), txn.writeSet) == RollBackDb(old(State()), old(txn.writeSet))
        decreases |txn.writeSet|
      {
        PopOne(txn);
      }
    }

    method PopOne(txn: Transaction)
      requires TablesOk() && |txn.writeSet| > 0 && RollBackDb(State(), txn.writeSet).Some?
      modifies Stores(), txn`writeSet
      ensures TablesOk() && txn.writeSet == old(txn.writeSet)[..|old(txn.writeSet)| - 1]
      ensures RollBackDb(State(), txn.writeSet) == RollBackDb(old(State()), old(txn.writeSet))
    {
      hide TablesOk;
      hide State;
      hide RestoreClean;
      hide Restore;
      var w := txn.writeSet[|txn.writeSet| - 1];
      RestoreOne(w);
      assert txn !in Stores() by { assert forall o :: o in Stores() ==> o is TableStore || o is RmFileHandle; }
      txn.writeSet := txn.writeSet[..|txn.writeSet| - 1];
    }

    method RestoreOne(w: WriteRecord)
      requires TablesOk() && w.tab in State() && RestoreClean(State()[w.tab], w)
      modifies Stores()
      ensures TablesOk() && State() == old(State())[w.tab := Restore(old(State())[w.tab], w)]
    {
      hide TableStore.Valid;
      hide TableStore.State;
      hide RestoreClean;
      hide Restore;
      var store := tables[w.tab];
      store.RestoreRow(w);
      forall tab | tab in tables && tab != w.tab
        ensures tables[tab].Valid() && tables[tab].State() == old(tables[tab].State())
      {
        assert tables[tab] != store && tables[tab].file != store.file;
      }
      assert State() == old(State())[w.tab := Restore(old(State())[w.tab], w)];
    }

    /** The rollback touches neither the log nor the locks. */
    method RollBackTables(txn: Transaction)
      requires TablesOk() && RollBackDb(State(), txn.writeSet).Some?
      modifies Stores(), txn`writeSet
      ensures TablesOk() && txn.writeSet == []
      ensures RollBackDb(old(State()), old(txn.writeSet)) == Some(State())
      ensures unchanged(locks) && unchanged(log) && unchanged(log.buffer)
      ensures unchanged(txn`lockSet) && unchanged(txn`prevLsn) && unchanged(txn`state)
    {
      hide TablesOk;
      hide State;
      hide RollBackDb;
      assert forall o :: o in Stores() ==> o is TableStore || o is RmFileHandle;
      RollBack(txn);
    }

    /** Ending a transaction does not touch the tables. */
    method EndAbort(txn: Transaction)
      requires log.Valid() && IsInt32(txn.id) && IsInt32(txn.prevLsn) && IsInt32(log.globalLsn)
      requires LocksMatch(locks.table, txn.id, txn.lockSet) && TablesOk() && txn.writeSet == []
      modifies locks, log, log.buffer, txn
      ensures log.Valid() && log.records
        == old(log.records) + [LogRecord(old(log.globalLsn), old(txn.prevLsn), txn.id, AbortBody)]
      ensures log.disk == SerializeAll(log.records)
      ensures txn.state == Aborted && txn.lockSet == {} && txn.writeSet == old(txn.writeSet)
        && LocksMatch(locks.table, txn.id, {})
      ensures forall u, id :: u != txn.id ==> HeldMode(locks.table, u, id) == HeldMode(old(locks.table), u, id)
      ensures TablesOk() && State() == old(State())
    {
      hide LogManager.Valid;
      hide LocksMatch;
      hide HeldMode;
      hide TablesOk;
      hide State;
      assert forall o :: o in Stores() ==> o is TableStore || o is RmFileHandle;
      End(txn, AbortBody, Aborted);
    }

    /** abort(): the tables are rolled back before the abort record is written and before any lock is released. */
    method Abort(txn: Transaction)
      requires log.Valid() && IsInt32(txn.id) && IsInt32(txn.prevLsn) && IsInt32(log.globalLsn)
      requires LocksMatch(locks.table, txn.id, txn.lockSet)
      requires TablesOk() && RollBackDb(State(), txn.writeSet).Some?
      modifies Stores(), locks, log, log.buffer, txn
      ensures TablesOk() && RollBackDb(old(State()), old(txn.writeSet)) == Some(State())
      ensures log.Valid() && log.records
        == old(log.records) + [LogRecord(old(log.globalLsn), old(txn.prevLsn), txn.id, AbortBody)]
      ensures log.disk == SerializeAll(log.records)
      ensures txn.state == Aborted && txn.lockSet == {} && txn.writeSet == [] && LocksMatch(locks.table, txn.id, {})
      ensures forall u, id :: u != txn.id ==> HeldMode(locks.table, u, id) == HeldMode(old(locks.table), u, id)
    {
      hide LogManager.Valid;
      hide LocksMatch;
      hide HeldMode;
      hide TablesOk;
      hide State;
      hide RollBackDb;
      hide Stores;
      RollBackTables(txn);
      EndAbort(txn);
    }
  }
}
