/** RecoveryManager as an object (src/recovery/log_recovery.cpp): the loops of analyze, redo and undo. */
module RecoveryManagement {
  import opened Types
  import opened Integers
  import opened LogCodec
  import opened Recovery
  import L = LinkedHeap
  import opened FileRecovery

  /** DiskManager::read_log: the read is clipped at the end of the file. */
  function ReadLog(file: seq<Byte>, size: nat, offset: nat): (s: seq<Byte>)
    requires offset <= |file|
    ensures |s| <= size && s <= file[offset..]
  {
    file[offset..if offset + size <= |file| then offset + size else |file|]
  }

  lemma SameReadUint(a: seq<Byte>, b: seq<Byte>, at: nat, n: nat)
    requires a <= b && at + n <= |a|
    ensures ReadUint(a, at, n) == ReadUint(b, at, n)
  {
    assert a[at..at + n] == b[at..at + n];
  }

  /** The read half of analyze's loop body: the record at the offset, or none when the log ends there. */
  method ReadRecord(file: seq<Byte>, offset: nat) returns (record: Option<LogRecord>, logLen: nat)
    requires offset <= |file|
    ensures record.None? ==> ParseLog(file[offset..]) == []
    ensures record.Some? ==> LOG_HEADER_SIZE <= logLen <= |file| - offset
    ensures record.Some? ==> ParseLog(file[offset..]) == [record.value] + ParseLog(file[offset + logLen..])
  {
    hide ReadUint;
    hide Deserialize;
    ghost var rest := file[offset..];
    var header := ReadLog(file, LOG_HEADER_SIZE, offset);
    if |header| < LOG_HEADER_SIZE { return None, 0; }
    assert ReadUint(header, 8, 4) == ReadUint(rest, 8, 4) by { SameReadUint(header, rest, 8, 4); }
    logLen := ReadUint(header, 8, 4);
    if logLen < LOG_HEADER_SIZE || logLen > LOG_BUFFER_SIZE { return None, 0; }
    var data := ReadLog(file, logLen, offset);
    if |data| != logLen { return None, 0; }
    assert data == rest[..logLen] && rest[logLen..] == file[offset + logLen..];
    record := Deserialize(data);
  }

  /** The loop of analyze(). */
  method ScanLog(file: seq<Byte>) returns (logs: Log, committed: set<TxnId>, active: set<TxnId>)
    ensures logs == ParseLog(file)
    ensures committed == CommittedOf(logs) && active == ActiveOf(logs)
  {
    hide ParseLog;
    hide CommittedOf;
    hide ActiveOf;
    ClassifyNil();
    logs, committed, active := [], {}, {};
    var offset := 0;
    ghost var all, rest := ParseLog(file), ParseLog(file);
    assert file[0..] == file;
    while true
      invariant 0 <= offset <= |file|
      invariant rest == ParseLog(file[offset..]) && all == logs + rest
      invariant committed == CommittedOf(logs) && active == ActiveOf(logs)
      decreases |file| - offset
    {
      var record, logLen := ReadRecord(file, offset);
      if record.None? { break; }
      var r := record.value;
      offset := offset + logLen;
      rest := ParseLog(file[offset..]);
      MoveOver(logs, r, rest);
      committed, active := Classify(logs, committed, active, r);
      logs := logs + [r];
    }
  }

  /** The bookkeeping half of analyze's loop body: a commit moves its transaction from the active to the
      committed set, any other record makes its transaction active. */
  method Classify(ghost logs: Log, committed: set<TxnId>, active: set<TxnId>, r: LogRecord)
    returns (committed': set<TxnId>, active': set<TxnId>)
    requires committed == CommittedOf(logs) && active == ActiveOf(logs)
    ensures committed' == CommittedOf(logs + [r]) && active' == ActiveOf(logs + [r])
  {
    ClassifySnoc(logs, r);
    if r.body.CommitBody? {
      return committed + {r.tid}, active - {r.tid};
    } else {
      return committed, active + {r.tid};
    }
  }

  lemma MoveOver(a: Log, r: LogRecord, b: Log)
    ensures a + ([r] + b) == (a + [r]) + b
  {
  }

  /** One redo action on a table file: update the record if it exists, insert it at its rid if not, or delete it. */
  method RedoRecord(fh: LinkedFile, b: LogBody) returns (fh': LinkedFile)
    requires IsData(b)
    ensures fh' == PutIn(fh, b.rid, After(b))
  {
    match b
    case InsertBody(v, rid, _) =>
      if L.IsRecord(fh, rid) { fh' := L.UpdateRecord(fh, rid, v); } else { fh' := L.InsertAt(fh, rid, v); }
    case DeleteBody(_, rid, _) =>
      if L.IsRecord(fh, rid) { fh' := L.DeleteRecord(fh, rid); } else { fh' := fh; }
    case UpdateBody(_, v, rid, _) =>
      if L.IsRecord(fh, rid) { fh' := L.UpdateRecord(fh, rid, v); } else { fh' := L.InsertAt(fh, rid, v); }
  }

  /** One undo action on a table file: delete an insert, put back a before-image by update or by insert at its rid. */
  method UndoRecord(fh: LinkedFile, b: LogBody) returns (fh': LinkedFile)
    requires IsData(b)
    ensures fh' == PutIn(fh, b.rid, Before(b))
  {
    match b
    case InsertBody(_, rid, _) =>
      if L.IsRecord(fh, rid) { fh' := L.DeleteRecord(fh, rid); } else { fh' := fh; }
    case DeleteBody(v, rid, _) =>
      if L.IsRecord(fh, rid) { fh' := L.UpdateRecord(fh, rid, v); } else { fh' := L.InsertAt(fh, rid, v); }
    case UpdateBody(v, _, rid, _) =>
      if L.IsRecord(fh, rid) { fh' := L.UpdateRecord(fh, rid, v); } else { fh' := L.InsertAt(fh, rid, v); }
  }

  lemma RedoSnoc(f: LinkedFile, log: Log, i: nat, who: set<TxnId>, tab: TableName)
    requires i < |log|
    ensures RedoFile(f, log[..i + 1], who, tab) ==
            (var g := RedoFile(f, log[..i], who, tab);
             if Touches(log[i], tab) && log[i].tid in who then PutIn(g, log[i].body.rid, After(log[i].body)) else g)
  {
    hide PutIn;
    assert log[..i + 1][..i] == log[..i];
  }

  lemma UndoSnoc(f: LinkedFile, log: Log, i: nat, who: set<TxnId>, tab: TableName)
    requires i < |log|
    ensures UndoFile(f, log[..i + 1], who, tab) ==
            UndoFile(if Touches(log[i], tab)
              && log[i].tid in who then PutIn(f, log[i].body.rid, Before(log[i].body)) else f,
                     log[..i], who, tab)
  {
    hide PutIn;
    assert log[..i + 1][..i] == log[..i];
  }

  /** The tables after one more record was redone. */
  lemma RedoneOneMore(was: map<TableName, LinkedFile>, now: map<TableName, LinkedFile>,
      now': map<TableName, LinkedFile>, log: Log, i: nat, who: set<TxnId>)
    requires i < |log| && now.Keys == now'.Keys == was.Keys
    requires forall tab :: tab in now ==> now[tab] == RedoFile(was[tab], log[..i], who, tab)
    requires forall tab :: tab in now ==> now'[tab] == if Touches(log[i], tab)
        && log[i].tid in who then PutIn(now[tab], log[i].body.rid, After(log[i].body)) else now[tab]
    ensures forall tab :: tab in now' ==> now'[tab] == RedoFile(was[tab], log[..i + 1], who, tab)
  {
    hide PutIn;
    hide RedoFile;
    forall tab | tab in now'
      ensures now'[tab] == RedoFile(was[tab], log[..i + 1], who, tab)
    {
      RedoSnoc(was[tab], log, i, who, tab);
    }
  }

  /** The tables after one more record was undone. */
  lemma UndoneOneMore(now: map<TableName, LinkedFile>, now': map<TableName, LinkedFile>, log: Log, i: nat,
      who: set<TxnId>)
    requires i < |log| && now.Keys == now'.Keys
    requires forall tab :: tab in now ==> now'[tab] == if Touches(log[i], tab)
        && log[i].tid in who then PutIn(now[tab], log[i].body.rid, Before(log[i].body)) else now[tab]
    ensures forall tab :: tab in now' ==>
      UndoFile(now'[tab], log[..i], who, tab) == UndoFile(now[tab], log[..i + 1], who, tab)
  {
    hide PutIn;
    hide UndoFile;
    forall tab | tab in now'
      ensures UndoFile(now'[tab], log[..i], who, tab) == UndoFile(now[tab], log[..i + 1], who, tab)
    {
      UndoSnoc(now[tab], log, i, who, tab);
    }
  }

  /** The record needs a table that is not there: fhs_.at throws. */
  predicate Missing(r: LogRecord, who: set<TxnId>, tables: set<TableName>) {
    r.tid in who && IsData(r.body) && r.body.tab !in tables
  }

  /** The file has its slots in order and the log has only rids of its record size. */
  ghost predicate Sound(f: LinkedFile, log: Log, tab: TableName) { Readable(f) && LogFits(f.cap, log, tab) }

  class RecoveryManager {
    var logs: Log
    var committed: set<TxnId>
    var active: set<TxnId>
    var tables: map<TableName, LinkedFile>

    constructor (tables0: map<TableName, LinkedFile>)
      ensures logs == [] && committed == {} && active == {} && tables == tables0
    {
      logs, committed, active, tables := [], {}, {}, tables0;
    }

    /** analyze(): one pass over the log file. */
    method Analyze(file: seq<Byte>)
      modifies this
      ensures logs == ParseLog(file)
      ensures committed == CommittedOf(logs) && active == ActiveOf(logs)
      ensures tables == old(tables)
    {
      logs, committed, active := ScanLog(file);
    }

    /** redo(): the committed transactions' after-images, in log order, on every table. It stops with an error at the
        first record k of a table that is not there; the records before it have been redone. */
    method Redo() returns (ok: bool, ghost k: nat)
      modifies this`tables
      ensures k <= |logs| && tables.Keys == old(tables).Keys
      ensures forall i :: 0 <= i < k ==> !Missing(logs[i], committed, tables.Keys)
      ensures if ok then k == |logs| else k < |logs| && Missing(logs[k], committed, tables.Keys)
      ensures forall tab :: tab in tables ==> tables[tab] == RedoFile(old(tables)[tab], logs[..k], committed, tab)
    {
      hide PutIn;
      hide RedoFile;
      RedoneNothing(tables, logs, committed);
      k := 0;
      for i := 0 to |logs|
        invariant k == i && tables.Keys == old(tables).Keys
        invariant forall j :: 0 <= j < i ==> !Missing(logs[j], committed, tables.Keys)
        invariant forall tab :: tab in tables ==> tables[tab] == RedoFile(old(tables)[tab], logs[..i], committed, tab)
      {
        ghost var before := tables;
        var log := logs[i];
        if log.tid in committed && IsData(log.body) {
          if log.body.tab !in tables { return false, i; }
          var fh := RedoRecord(tables[log.body.tab], log.body);
          tables := tables[log.body.tab := fh];
        }
        RedoneOneMore(old(tables), before, tables, logs, i, committed);
        k := i + 1;
      }
      return true, k;
    }

    /** undo(): the unfinished transactions' before-images, newest first, on every table. It stops with an error at the
        newest record k - 1 of a table that is not there; the records after it have been undone. */
    method Undo() returns (ok: bool, ghost k: nat)
      modifies this`tables
      ensures k <= |logs| && tables.Keys == old(tables).Keys
      ensures forall i :: k <= i < |logs| ==> !Missing(logs[i], active, tables.Keys)
      ensures if ok then k == 0 else k > 0 && Missing(logs[k - 1], active, tables.Keys)
      ensures forall tab :: tab in tables ==>
        UndoFile(tables[tab], logs[..k], active, tab) == UndoFile(old(tables)[tab], logs, active, tab)
    {
      hide PutIn;
      hide UndoFile;
      assert logs[..|logs|] == logs;
      k := |logs|;
      for i := |logs| downto 0
        invariant k == i && tables.Keys == old(tables).Keys
        invariant forall j :: i <= j < |logs| ==> !Missing(logs[j], active, tables.Keys)
        invariant forall tab :: tab in tables ==>
          UndoFile(tables[tab], logs[..i], active, tab) == UndoFile(old(tables)[tab], logs, active, tab)
      {
        ghost var before := tables;
        var log := logs[i];
        if log.tid in active && IsData(log.body) && log.body.tab !in tables { return false, k; }
        if log.tid in active && IsData(log.body) {
          var fh := UndoRecord(tables[log.body.tab], log.body);
          tables := tables[log.body.tab := fh];
        }
        UndoneOneMore(before, tables, logs, i, active);
        k := i;
      }
      return true, k;
    }

    /** The restart sequence of the server: analyze, redo, undo. When every table of the log is there it gives exactly
        the recovered files, whose contents are the recovered tables. */
    method Recover(file: seq<Byte>) returns (ok: bool)
      modifies this
      ensures tables.Keys == old(tables).Keys
      ensures ok <==> forall i :: 0 <= i < |ParseLog(file)| ==>
        !Missing(ParseLog(file)[i], CommittedOf(ParseLog(file)) + ActiveOf(ParseLog(file)), tables.Keys)
      ensures ok ==> forall tab :: tab in tables ==> tables[tab] == RecoveredFile(old(tables)[tab], ParseLog(file), tab)
      ensures ok ==> forall tab :: tab in tables && Sound(old(tables)[tab], ParseLog(file), tab) ==>
        L.Contents(tables[tab]) == Recovered(L.Contents(old(tables)[tab]), ParseLog(file), tab)
    {
      hide RedoFile;
      hide UndoFile;
      hide Readable;
      hide LogFits;
      hide L.Contents;
      hide Recovered;
      hide ParseLog;
      hide CommittedOf;
      hide ActiveOf;
      Analyze(file);
      ghost var k, l;
      ok, k := Redo();
      if !ok { return; }
      assert logs[..|logs|] == logs;
      ghost var redone := tables;
      ok, l := Undo();
      if !ok { return; }
      NothingUndone(tables, logs, active);
      forall tab | tab in tables && Sound(old(tables)[tab], logs, tab)
        ensures L.Contents(tables[tab]) == Recovered(L.Contents(old(tables)[tab]), logs, tab)
      {
        RecoveredContents(old(tables)[tab], logs, tab);
      }
    }
  }

  lemma RedoneNothing(tables: map<TableName, LinkedFile>, log: Log, who: set<TxnId>)
    ensures forall tab :: tab in tables ==> RedoFile(tables[tab], log[..0], who, tab) == tables[tab]
  {
    assert log[..0] == [];
  }

  lemma NothingUndone(tables: map<TableName, LinkedFile>, log: Log, who: set<TxnId>)
    ensures forall tab :: tab in tables ==> UndoFile(tables[tab], log[..0], who, tab) == tables[tab]
  {
    assert log[..0] == [];
  }
}
