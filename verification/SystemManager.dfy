/** SmManager's runtime index maintenance (src/system/sm_manager.cpp) and the row operations of the insert, delete and
    update executors (src/execution), on the objects that they change. */
module SystemManagement {
  import opened Types
  import opened Compare
  import opened Index
  import Heap
  import LinkedHeap
  import HeapRollback
  import opened Relations
  import UniqueKeys
  import opened RecordFile
  import opened Locking
  import opened Integers
  import opened LogCodec
  import opened LogBuffering

  /** The find-and-erase loop of delete_index_entries on one index. */
  method EraseEntry(ix: Idx, key: Key, rid: Rid) returns (r: Idx)
    requires |key| == |ix.meta| && Wide(ix)
    ensures r == DeleteEntry(ix, key, rid)
  {
    hide Cmp;
    var it := At(ix, key);
    while it < |ix.entries| && Cmp(ix.meta, ix.entries[it].key, key, |ix.meta|) == 0
      invariant it <= |ix.entries| && DeleteEntry(ix, key, rid) == Erase(ix, key, rid, it)
    {
      if ix.entries[it].rid == rid { return ix.(entries := ix.entries[..it] + ix.entries[it + 1..]); }
      it := it + 1;
    }
    return ix;
  }

  /** A transaction's log call: the record is linked to the transaction's previous one and joins the stream. */
  method AddRecord(txn: Transaction, log: LogManager, body: LogBody)
    requires log.Valid() && IsInt32(txn.id) && IsInt32(txn.prevLsn) && IsInt32(log.globalLsn)
    requires EncodableBody(body) && LOG_HEADER_SIZE + BodyLen(body) <= LOG_BUFFER_SIZE
    modifies log, log.buffer, txn`prevLsn
    ensures log.Valid() && log.buffer == old(log.buffer) && txn.prevLsn == old(log.globalLsn)
    ensures log.records == old(log.records) + [LogRecord(old(log.globalLsn), old(txn.prevLsn), txn.id, body)]
  {
    hide LogManager.Valid;
    hide EncodableBody;
    hide BodyLen;
    var lsn := log.AddLogToBuffer(LogRecord(0, txn.prevLsn, txn.id, body));
    txn.prevLsn := lsn.value;
  }

  /** The log call followed by the executor's flush: every record ever added is on disk. */
  method LogRow(txn: Transaction, log: LogManager, body: LogBody)
    requires log.Valid() && IsInt32(txn.id) && IsInt32(txn.prevLsn) && IsInt32(log.globalLsn)
    requires EncodableBody(body) && LOG_HEADER_SIZE + BodyLen(body) <= LOG_BUFFER_SIZE
    modifies log, log.buffer, txn`prevLsn
    ensures log.Valid() && log.buffer == old(log.buffer) && txn.prevLsn == old(log.globalLsn)
    ensures log.records == old(log.records) + [LogRecord(old(log.globalLsn), old(txn.prevLsn), txn.id, body)]
    ensures log.flushed == |log.records| && log.disk == SerializeAll(log.records) && LastOnDisk(log, body)
  {
    hide LogManager.Valid;
    hide EncodableBody;
    hide BodyLen;
    AddRecord(txn, log, body);
    log.FlushLogToDisk();
  }

  /** The newest record of the log has this body, and the whole log is on disk. */
  ghost predicate LastOnDisk(log: LogManager, body: LogBody)
    reads log, log.buffer
  {
    && log.Valid() && |log.records| > 0 && log.records[|log.records| - 1].body == body
    && log.disk == SerializeAll(log.records)
  }

  /** Records of the file's size, names and numbers that fit the log's fields. */
  ghost predicate Loggable(rel: Rel, tab: TableName) {
    && 2 * rel.recSize + |tab| + 64 <= LOG_BUFFER_SIZE && |rel.file.pages| < TWO31 - 1 && rel.file.cap < TWO31
    && (forall r :: r in Heap.Contents(rel.file) ==> |Heap.Contents(rel.file)[r]| == rel.recSize)
  }

  /** What the row operation logs. */
  function RowBody(f: Heap.File, a: HeapRollback.Action, buf: Record, tab: TableName): LogBody
    requires HeapRollback.Defined(f, a)
  {
    match a
    case InsertRow(v) => InsertBody(v, Heap.InsertRecord(f, v).1.value, tab)
    case DeleteRow(rid) => DeleteBody(Heap.GetRecord(f, rid).value, rid, tab)
    case UpdateRow(rid, v) => UpdateBody(Heap.GetRecord(f, rid).value, v, rid, tab)
    case UpdateRefused(rid) => UpdateBody(Heap.GetRecord(f, rid).value, buf, rid, tab)
  }

  /** A row operation's record fits the log. */
  lemma RowFits(rel: Rel, a: HeapRollback.Action, buf: Record, tab: TableName)
    requires RelOk(rel) && Loggable(rel, tab) && HeapRollback.Possible(rel.file, a)
    requires a.InsertRow? ==> |a.buf| == rel.recSize
    requires a.UpdateRow? ==> |a.buf| == rel.recSize
    requires a.UpdateRefused? ==> |buf| == rel.recSize
    ensures HeapRollback.Defined(rel.file, a)
    ensures EncodableBody(RowBody(rel.file, a, buf, tab))
      && LOG_HEADER_SIZE + BodyLen(RowBody(rel.file, a, buf, tab)) <= LOG_BUFFER_SIZE
  {
    hide Heap.Contents;
    hide Heap.FileOk;
    PerformContents(rel.file, a);
    if a.InsertRow? { InsertedRid(rel.file, a.buf); }
  }

  lemma InsertedRid(f: Heap.File, buf: Record)
    requires Heap.FileOk(f) && (f.free != [] ==> f.free[0] < |f.pages|) && Heap.InsertRecord(f, buf).1.Some?
    ensures var r := Heap.InsertRecord(f, buf).1.value; 0 <= r.pageNo <= |f.pages| && 0 <= r.slotNo < f.cap
  {
  }

  /** What SmManager keeps for one table: its file handle and its runtime indexes. */
  class TableStore {
    const file: RmFileHandle
    const recSize: nat
    var indexes: seq<Idx>

    ghost predicate Valid()
      reads this, file
    {
      file.Valid()
    }

    ghost function State(): Rel
      requires Valid()
      reads this, file
    {
      Rel(recSize, file.State(), indexes)
    }

    constructor (fh: RmFileHandle, size: nat, ixs: seq<Idx>)
      requires fh.Valid()
      ensures Valid() && file == fh && State() == Rel(size, fh.State(), ixs)
    {
      file, recSize, indexes := fh, size, ixs;
    }

    /** check_index_insert: false is the duplicate error. */
    method CheckIndexInsert(rec: Record, self: Option<Rid>) returns (ok: bool)
      requires Usable(indexes, rec)
      ensures ok <==> !AnyDuplicate(indexes, rec, self)
    {
      hide Duplicate;
      var ixs := indexes;
      for i := 0 to |ixs|
        invariant forall j :: 0 <= j < i ==> !Duplicate(ixs[j], MakeKey(ixs[j].meta, rec), self)
      {
        if Duplicate(ixs[i], MakeKey(ixs[i].meta, rec), self) { return false; }
      }
      return true;
    }

    method InsertIndexEntries(rec: Record, rid: Rid)
      requires Usable(indexes, rec)
      modifies this
      ensures indexes == InsertEntries(old(indexes), rec, rid)
    {
      hide InsertEntry;
      hide Fits;
      hide Wide;
      ghost var was := indexes;
      var ixs := indexes;
      for i := 0 to |ixs|
        invariant |ixs| == |was| && indexes == old(indexes)
        invariant forall j :: 0 <= j < |ixs| ==>
          ixs[j] == if j < i then InsertEntry(was[j], MakeKey(was[j].meta, rec), rid) else was[j]
      {
        ixs := ixs[i := InsertEntry(ixs[i], MakeKey(ixs[i].meta, rec), rid)];
      }
      assert ixs == InsertEntries(was, rec, rid);
      indexes := ixs;
    }

    method DeleteIndexEntries(rec: Record, rid: Rid)
      requires Usable(indexes, rec)
      modifies this
      ensures indexes == DeleteEntries(old(indexes), rec, rid)
    {
      hide DeleteEntry;
      hide Fits;
      hide Wide;
      ghost var was := indexes;
      var ixs := indexes;
      for i := 0 to |ixs|
        invariant |ixs| == |was| && indexes == old(indexes)
        invariant forall j :: 0 <= j < |ixs| ==>
          ixs[j] == if j < i then DeleteEntry(was[j], MakeKey(was[j].meta, rec), rid) else was[j]
      {
        var r := EraseEntry(ixs[i], MakeKey(ixs[i].meta, rec), rid);
        ixs := ixs[i := r];
      }
      assert ixs == DeleteEntries(was, rec, rid);
      indexes := ixs;
    }

    /** update_index_entries: check, then delete, then insert; a refused update changes nothing. */
    method UpdateIndexEntries(now: Record, rec: Record, rid: Rid) returns (ok: bool)
      requires Usable(indexes, rec) && Usable(indexes, now)
      requires Usable(DeleteEntries(indexes, now, rid), rec)
      modifies this
      ensures ok <==> !old(AnyDuplicate(indexes, rec, Some(rid)))
      ensures indexes == if ok then InsertEntries(DeleteEntries(old(indexes), now, rid), rec, rid) else old(indexes)
    {
      hide Usable;
      hide AnyDuplicate;
      ok := CheckIndexInsert(rec, Some(rid));
      if !ok { return; }
      DeleteIndexEntries(now, rid);
      InsertIndexEntries(rec, rid);
    }

    // ------------------------------------------------------------- one row of each executor

    /** The log record of an insert is written once the record is in the heap. */
    method LogInserted(txn: Transaction, log: LogManager, tab: TableName, rid: Rid, buf: Record)
      requires Valid() && Heap.GetRecord(file.State(), rid) == Some(buf)
      requires log.Valid() && IsInt32(txn.id) && IsInt32(txn.prevLsn) && IsInt32(log.globalLsn)
      requires EncodableBody(InsertBody(buf, rid, tab))
        && LOG_HEADER_SIZE + BodyLen(InsertBody(buf, rid, tab)) <= LOG_BUFFER_SIZE
      modifies txn`prevLsn, log, log.buffer
      ensures log.Valid() && log.buffer == old(log.buffer) && txn.prevLsn == old(log.globalLsn)
      ensures log.records == old(log.records)
        + [LogRecord(old(log.globalLsn), old(txn.prevLsn), txn.id, InsertBody(buf, rid, tab))]
      ensures log.disk == SerializeAll(log.records)
    {
      hide LogManager.Valid;
      LogRow(txn, log, InsertBody(buf, rid, tab));
    }

    /** Index entries and record go only when the delete is on disk in the log. */
    method RemoveLogged(log: LogManager, tab: TableName, rid: Rid, now: Record) returns (ok: bool)
      requires Valid() && Usable(indexes, now) && Heap.GetRecord(file.State(), rid) == Some(now)
      requires LastOnDisk(log, DeleteBody(now, rid, tab))
      modifies this, file
      ensures Valid() && ok && Heap.DeleteRecord(old(file.State()), rid).Some?
      ensures State() == old(State()).(file := Heap.DeleteRecord(old(file.State()), rid).value,
                           indexes := DeleteEntries(old(indexes), now, rid))
    {
      hide Heap.FileOk;
      hide RmFileHandle.Laid;
      hide RmFileHandle.Links;
      hide LinkedHeap.Linked;
      hide Heap.Contents;
      hide Usable;
      hide DeleteEntries;
      hide LogManager.Valid;
      Heap.ContentsAt(State().file, rid);
      DeleteIndexEntries(now, rid);
      ok := file.DeleteRecord(rid);
    }

    /** The record is replaced only when the update is on disk in the log. */
    method ReplaceLogged(log: LogManager, tab: TableName, rid: Rid, now: Record, buf: Record) returns (ok: bool)
      requires Valid() && Usable(indexes, buf) && Usable(indexes, now) && Usable(DeleteEntries(indexes, now, rid), buf)
      requires Heap.GetRecord(file.State(), rid) == Some(now) && LastOnDisk(log, UpdateBody(now, buf, rid, tab))
      modifies this, file
      ensures Valid() && ok == !AnyDuplicate(old(indexes), buf, Some(rid))
        && Heap.UpdateRecord(old(file.State()), rid, buf).Some?
      ensures State() == if ok then old(State()).(file := Heap.UpdateRecord(old(file.State()), rid, buf).value,
                           indexes := InsertEntries(DeleteEntries(old(indexes), now, rid), buf, rid)) else old(State())
    {
      hide LogManager.Valid;
      hide RmFileHandle.Laid;
      hide LinkedHeap.Linked;
      hide Usable;
      hide AnyDuplicate;
      hide DeleteEntries;
      hide InsertEntries;
      ok := ReplaceRow(rid, now, buf);
    }

    /** InsertExecutor::Next after its record was built: None is the duplicate error, before any change. The heap
        changes first, then the rollback record, then the log is written and flushed, then the indexes. */
    method InsertRow(txn: Transaction, log: LogManager, tab: TableName, buf: Record) returns (rid: Option<Rid>)
      requires Valid() && RelOk(State()) && |buf| == recSize && Loggable(State(), tab)
      requires log.Valid() && IsInt32(txn.id) && IsInt32(txn.prevLsn) && IsInt32(log.globalLsn)
      modifies this, file, txn`writeSet, txn`prevLsn, log, log.buffer
      ensures Valid() && Usable(old(indexes), buf) && log.Valid()
      ensures rid == None <==> exists r :: UniqueKeys.ClashesWith(old(State()), r, buf)
      ensures Heap.Contents(State().file) ==
        if rid.None? then old(Heap.Contents(State().file)) else old(Heap.Contents(State().file))[rid.value := buf]
      ensures match Decide(old(State()), InsertStmt(buf))
        case None => rid == None && State() == old(State()) && txn.writeSet == old(txn.writeSet)
          && log.records == old(log.records)
        case Some(a) =>
          && Applicable(old(State()), a) && rid == Heap.InsertRecord(old(State()).file, buf).1
            && State() == Execute(old(State()), a)
          && txn.writeSet == old(txn.writeSet) + [HeapRollback.Remember(old(State()).file, a, tab)]
          && log.records == old(log.records)
             + [LogRecord(old(log.globalLsn), old(txn.prevLsn), txn.id, RowBody(old(State()).file, a, buf, tab))]
          && log.disk == SerializeAll(log.records) && txn.prevLsn == old(log.globalLsn)
    {
      hide RelOk;
      hide LastOnDisk;
      hide SerializeAll;
      hide UniqueKeys.ClashesWith;
      hide Heap.FileOk;
      hide RmFileHandle.Laid;
      hide RmFileHandle.Links;
      hide LinkedHeap.Linked;
      hide Heap.Contents;
      hide Heap.InsertRecord;
      hide Usable;
      hide AnyDuplicate;
      hide Loggable;
      hide LogManager.Valid;
      hide EncodableBody;
      hide BodyLen;
      ghost var rel := State();
      ExecuteKeepsOk(rel, InsertStmt(buf));
      UniqueKeys.DecideMeans(rel, InsertStmt(buf));
      UniqueKeys.ExecuteMeans(rel, InsertStmt(buf));
      var ok := CheckIndexInsert(buf, None);
      if !ok { return None; }
      RowFits(rel, HeapRollback.InsertRow(buf), buf, tab);
      var r := file.InsertRecord(buf);
      txn.writeSet := txn.writeSet + [InsertTuple(tab, r)];
      Heap.ContentsAt(State().file, r);
      LogInserted(txn, log, tab, r, buf);
      InsertIndexEntries(buf, r);
      return Some(r);
    }

    /** One iteration of DeleteExecutor::Next: the log is written and flushed before anything else changes. */
    method DeleteRow(txn: Transaction, log: LogManager, tab: TableName, rid: Rid) returns (ok: bool)
      requires Valid() && RelOk(State()) && Loggable(State(), tab)
      requires log.Valid() && IsInt32(txn.id) && IsInt32(txn.prevLsn) && IsInt32(log.globalLsn)
      modifies this, file, txn`writeSet, txn`prevLsn, log, log.buffer
      ensures Valid() && log.Valid()
      ensures ok <==> rid in old(Heap.Contents(State().file))
      ensures Heap.Contents(State().file) == old(Heap.Contents(State().file)) - {rid}
      ensures match Decide(old(State()), DeleteStmt(rid))
        case None => !ok && State() == old(State()) && txn.writeSet == old(txn.writeSet)
          && log.records == old(log.records)
        case Some(a) =>
          && ok
          && Applicable(old(State()), a) && State() == Execute(old(State()), a)
          && txn.writeSet == old(txn.writeSet) + [HeapRollback.Remember(old(State()).file, a, tab)]
          && log.records == old(log.records)
             + [LogRecord(old(log.globalLsn), old(txn.prevLsn), txn.id, RowBody(old(State()).file, a, [], tab))]
          && log.disk == SerializeAll(log.records) && txn.prevLsn == old(log.globalLsn)
    {
      hide RelOk;
      hide LastOnDisk;
      hide SerializeAll;
      hide UniqueKeys.ClashesWith;
      hide Heap.FileOk;
      hide RmFileHandle.Laid;
      hide RmFileHandle.Links;
      hide LinkedHeap.Linked;
      hide Heap.Contents;
      hide Heap.DeleteRecord;
      hide Usable;
      hide Loggable;
      hide LogManager.Valid;
      hide EncodableBody;
      hide BodyLen;
      ghost var rel := State();
      ExecuteKeepsOk(rel, DeleteStmt(rid));
      UniqueKeys.DecideMeans(rel, DeleteStmt(rid));
      UniqueKeys.ExecuteMeans(rel, DeleteStmt(rid));
      Heap.ContentsAt(rel.file, rid);
      var rec := file.GetRecord(rid);
      if rec.None? { return false; }
      RowFits(rel, HeapRollback.DeleteRow(rid), [], tab);
      LogRow(txn, log, DeleteBody(rec.value, rid, tab));
      txn.writeSet := txn.writeSet + [DeleteTuple(tab, rid, rec.value)];
      ok := RemoveLogged(log, tab, rid, rec.value);
    }

    /** The unique check, the index entries and the record, as UpdateExecutor and abort change them. */
    method ReplaceRow(rid: Rid, now: Record, buf: Record) returns (ok: bool)
      requires Valid() && Usable(indexes, buf) && Usable(indexes, now) && Usable(DeleteEntries(indexes, now, rid), buf)
      requires Heap.GetRecord(file.State(), rid) == Some(now)
      modifies this, file
      ensures Valid() && ok == !AnyDuplicate(old(indexes), buf, Some(rid))
        && Heap.UpdateRecord(old(file.State()), rid, buf).Some?
      ensures State() == if ok then old(State()).(file := Heap.UpdateRecord(old(file.State()), rid, buf).value,
                           indexes := InsertEntries(DeleteEntries(old(indexes), now, rid), buf, rid)) else old(State())
    {
      hide Heap.FileOk;
      hide RmFileHandle.Laid;
      hide RmFileHandle.Links;
      hide LinkedHeap.Linked;
      hide Heap.Contents;
      hide Usable;
      hide AnyDuplicate;
      hide DeleteEntries;
      hide InsertEntries;
      Heap.ContentsAt(State().file, rid);
      ok := UpdateIndexEntries(now, buf, rid);
      if !ok { return; }
      var _ := file.UpdateRecord(rid, buf);
    }

    /** One iteration of UpdateExecutor::Next after the new image was built: the log is written and flushed first; the
        rollback record is appended before the unique check, so both stay when the update is refused. */
    method UpdateRow(txn: Transaction, log: LogManager, tab: TableName, rid: Rid, buf: Record) returns (ok: bool)
      requires Valid() && RelOk(State()) && |buf| == recSize && Loggable(State(), tab)
      requires log.Valid() && IsInt32(txn.id) && IsInt32(txn.prevLsn) && IsInt32(log.globalLsn)
      modifies this, file, txn`writeSet, txn`prevLsn, log, log.buffer
      ensures Valid() && Usable(old(indexes), buf) && log.Valid()
      ensures ok <==> rid in old(Heap.Contents(State().file))
                      && !exists r :: r != rid && UniqueKeys.ClashesWith(old(State()), r, buf)
      ensures Heap.Contents(State().file) ==
        if ok then old(Heap.Contents(State().file))[rid := buf] else old(Heap.Contents(State().file))
      ensures match Decide(old(State()), UpdateStmt(rid, buf))
        case None => !ok && State() == old(State()) && txn.writeSet == old(txn.writeSet)
          && log.records == old(log.records)
        case Some(a) =>
          && ok == a.UpdateRow?
          && Applicable(old(State()), a) && State() == Execute(old(State()), a)
          && txn.writeSet == old(txn.writeSet) + [HeapRollback.Remember(old(State()).file, a, tab)]
          && log.records == old(log.records)
             + [LogRecord(old(log.globalLsn), old(txn.prevLsn), txn.id, RowBody(old(State()).file, a, buf, tab))]
          && log.disk == SerializeAll(log.records) && txn.prevLsn == old(log.globalLsn)
    {
      hide RelOk;
      hide LastOnDisk;
      hide SerializeAll;
      hide UniqueKeys.ClashesWith;
      hide Heap.FileOk;
      hide RmFileHandle.Laid;
      hide RmFileHandle.Links;
      hide LinkedHeap.Linked;
      hide Heap.Contents;
      hide Heap.UpdateRecord;
      hide Usable;
      hide AnyDuplicate;
      hide DeleteEntries;
      hide InsertEntries;
      hide Heap.IsRid;
      hide Loggable;
      hide LogManager.Valid;
      hide EncodableBody;
      hide BodyLen;
      ghost var rel := State();
      ExecuteKeepsOk(rel, UpdateStmt(rid, buf));
      UniqueKeys.DecideMeans(rel, UpdateStmt(rid, buf));
      UniqueKeys.ExecuteMeans(rel, UpdateStmt(rid, buf));
      Heap.ContentsAt(rel.file, rid);
      var rec := file.GetRecord(rid);
      if rec.None? { return false; }
      RowFits(rel, HeapRollback.UpdateRow(rid, buf), buf, tab);
      LogRow(txn, log, UpdateBody(rec.value, buf, rid, tab));
      txn.writeSet := txn.writeSet + [UpdateTuple(tab, rid, rec.value)];
      UpdateUsable(rel, rid, buf);
      ok := ReplaceLogged(log, tab, rid, rec.value, buf);
    }

    /** One iteration of abort()'s loop on the tables. */
    method RestoreRow(w: WriteRecord)
      requires Valid() && RestoreClean(State(), w)
      modifies this, file
      ensures Valid() && State() == Restore(old(State()), w)
    {
      hide Heap.FileOk;
      hide RmFileHandle.Laid;
      hide RmFileHandle.Links;
      hide LinkedHeap.Linked;
      hide Heap.Contents;
      hide Usable;
      hide AnyDuplicate;
      hide Heap.UpdateRecord;
      hide Heap.DeleteRecord;
      hide Heap.InsertAt;
      ghost var rel := State();
      Heap.ContentsAt(rel.file, w.rid);
      match w
      case InsertTuple(_, rid) =>
        var rec := file.GetRecord(rid);
        if rec.Some? {
          DeleteIndexEntries(rec.value, rid);
          var _ := file.DeleteRecord(rid);
        }
      case DeleteTuple(_, rid, was) =>
        RestoringKeeps(rel.file, rid, was);
        var _ := file.InsertAt(rid, was);
        InsertIndexEntries(was, rid);
      case UpdateTuple(_, rid, was) =>
        var rec := file.GetRecord(rid);
        var _ := ReplaceRow(rid, rec.value, was);
    }
  }

  lemma UpdateUsable(rel: Rel, rid: Rid, buf: Record)
    requires RelOk(rel) && |buf| == rel.recSize && Heap.IsRecord(rel.file, rid)
    ensures Usable(rel.indexes, Heap.GetRecord(rel.file, rid).value)
    ensures Usable(DeleteEntries(rel.indexes, Heap.GetRecord(rel.file, rid).value, rid), buf)
  {
    hide Heap.FileOk;
    hide Heap.Contents;
    Heap.ContentsAt(rel.file, rid);
    var now := Heap.GetRecord(rel.file, rid).value;
    AgreeUsable(rel.indexes, Heap.Contents(rel.file), rid);
    DeleteEntriesAgree(rel.indexes, Heap.Contents(rel.file), rid);
    DeleteMetas(rel.indexes, now, rid);
    var mid := DeleteEntries(rel.indexes, now, rid);
    forall i | 0 <= i < |mid| ensures Wide(mid[i]) && Fits(mid[i].meta, buf) {
      AgreesWide(mid[i], Heap.Contents(rel.file) - {rid});
    }
  }

  /** A restoring insert that finds its page at the head of the chain keeps the heap-file invariant. */
  lemma RestoringKeeps(f: Heap.File, rid: Rid, buf: Record)
    requires Heap.FileOk(f) && Heap.IsRid(f, rid) && !Heap.IsRecord(f, rid)
    requires |f.pages[rid.pageNo]| + 1 == f.cap ==> f.free != [] && f.free[0] == rid.pageNo
    ensures Heap.FileOk(Heap.InsertAt(f, rid, buf).0)
  {
    Heap.InsertAtKeepsIff(f, rid, buf);
  }
}
