/** The log buffer (src/recovery/log_manager.cpp) and the in-place serialization it uses
    (src/recovery/log_manager.h). */
module LogBuffering {
  import opened Types
  import opened Integers
  import opened LogCodec

  /** memcpy of src after the bytes already written at dst[at..off]. */
  method Append(dst: array<Byte>, at: nat, off: nat, src: seq<Byte>) returns (off': nat)
    requires at <= off && off + |src| <= dst.Length
    modifies dst
    ensures off' == off + |src|
    ensures dst[at..off'] == old(dst[at..off]) + src
    ensures forall i :: (0 <= i < at || off' <= i < dst.Length) ==> dst[i] == old(dst[i])
  {
    for i := 0 to |src|
      invariant dst[at..off + i] == old(dst[at..off]) + src[..i]
      invariant forall k :: (0 <= k < at || off + |src| <= k < dst.Length) ==> dst[k] == old(dst[k])
    {
      ghost var done := dst[at..off + i];
      dst[off + i] := src[i];
      assert dst[at..off + i + 1] == done + [src[i]];
      assert src[..i + 1] == src[..i] + [src[i]];
    }
    off' := off + |src|;
    assert src[..|src|] == src;
  }

  method WriteHeader(r: LogRecord, dst: array<Byte>, at: nat) returns (off: nat)
    requires Encodable(r) && at + LOG_HEADER_SIZE <= dst.Length
    modifies dst
    ensures off == at + LOG_HEADER_SIZE && dst[at..off] == HeaderBytes(r)
    ensures forall i :: (0 <= i < at || off <= i < dst.Length) ==> dst[i] == old(dst[i])
  {
    hide LittleEndian;
    off := Append(dst, at, at, Int32(TypeCode(r.body)));
    off := Append(dst, at, off, Int32(r.lsn));
    off := Append(dst, at, off, LittleEndian(TotLen(r), 4));
    off := Append(dst, at, off, Int32(r.tid));
    off := Append(dst, at, off, Int32(r.prevLsn));
  }

  method WriteTail(rid: Rid, tab: TableName, dst: array<Byte>, at: nat, off0: nat) returns (off: nat)
    requires IsInt32(rid.pageNo) && IsInt32(rid.slotNo) && |tab| < TWO31
    requires at <= off0 && off0 + 16 + |tab| <= dst.Length
    modifies dst
    ensures off == off0 + 16 + |tab| && dst[at..off] == old(dst[at..off0]) + Tail(rid, tab)
    ensures forall i :: (0 <= i < at || off <= i < dst.Length) ==> dst[i] == old(dst[i])
  {
    hide LittleEndian;
    off := Append(dst, at, off0, Int32(rid.pageNo));
    off := Append(dst, at, off, Int32(rid.slotNo));
    off := Append(dst, at, off, LittleEndian(|tab|, 8));
    off := Append(dst, at, off, tab);
  }

  method WriteSized(v: Record, dst: array<Byte>, at: nat, off0: nat) returns (off: nat)
    requires |v| < TWO31 && at <= off0 && off0 + 4 + |v| <= dst.Length
    modifies dst
    ensures off == off0 + 4 + |v| && dst[at..off] == old(dst[at..off0]) + SizedBytes(v)
    ensures forall i :: (0 <= i < at || off <= i < dst.Length) ==> dst[i] == old(dst[i])
  {
    hide LittleEndian;
    off := Append(dst, at, off0, Int32(|v|));
    off := Append(dst, at, off, v);
  }

  method WriteOneValue(v: Record, rid: Rid, tab: TableName, dst: array<Byte>, at: nat, off0: nat) returns (off: nat)
    requires IsInt32(rid.pageNo) && IsInt32(rid.slotNo) && |v| < TWO31 && |tab| < TWO31
    requires at <= off0 && off0 + 20 + |v| + |tab| <= dst.Length
    modifies dst
    ensures off == off0 + 20 + |v| + |tab| && dst[at..off] == old(dst[at..off0]) + (SizedBytes(v) + Tail(rid, tab))
    ensures forall i :: (0 <= i < at || off <= i < dst.Length) ==> dst[i] == old(dst[i])
  {
    hide SizedBytes;
    hide Tail;
    off := WriteSized(v, dst, at, off0);
    off := WriteTail(rid, tab, dst, at, off);
    Reassociate(old(dst[at..off0]), SizedBytes(v), Tail(rid, tab));
  }

  /** serialize(): the record's bytes, in place, and nothing else changes. */
  method SerializeInto(r: LogRecord, dst: array<Byte>, at: nat)
    requires Encodable(r) && at + TotLen(r) <= dst.Length
    modifies dst
    ensures dst[at..at + TotLen(r)] == Serialize(r)
    ensures forall i :: (0 <= i < at || at + TotLen(r) <= i < dst.Length) ==> dst[i] == old(dst[i])
  {
    hide HeaderBytes;
    hide SizedBytes;
    hide Tail;
    ghost var header := HeaderBytes(r);
    var off := WriteHeader(r, dst, at);
    match r.body
    case InsertBody(v, rid, tab) => off := WriteOneValue(v, rid, tab, dst, at, off);
    case DeleteBody(v, rid, tab) => off := WriteOneValue(v, rid, tab, dst, at, off);
    case UpdateBody(o, n, rid, tab) =>
      off := WriteSized(o, dst, at, off);
      off := WriteOneValue(n, rid, tab, dst, at, off);
      Reassociate(SizedBytes(o), SizedBytes(n), Tail(rid, tab));
      Reassociate(header, SizedBytes(o), SizedBytes(n) + Tail(rid, tab));
    case _ => assert header + [] == header;
  }

  lemma Reassociate(a: seq<Byte>, b: seq<Byte>, c: seq<Byte>)
    ensures a + b + c == a + (b + c)
  {
  }

  class LogManager {
    var globalLsn: nat
    var persistLsn: int
    var buffer: array<Byte>
    var offset: nat
    var disk: seq<Byte>
    /** Every record ever added, and how many of them are on disk. */
    ghost var records: seq<LogRecord>
    ghost var flushed: nat

    /** The log stream: disk then buffer is the concatenation of all records in lsn order, and the cut
        between them falls between two records. */
    ghost predicate Valid()
      reads this, buffer
    {
      && buffer.Length == LOG_BUFFER_SIZE + 1 && offset <= LOG_BUFFER_SIZE
      && flushed <= |records| == globalLsn
      && AllEncodable(records)
      && (forall i :: 0 <= i < |records| ==> records[i].lsn == i)
      && disk == SerializeAll(records[..flushed])
      && buffer[..offset] == SerializeAll(records[flushed..])
      && (flushed > 0 ==> persistLsn == flushed - 1)
    }

    constructor ()
      ensures Valid() && fresh(buffer) && records == [] && disk == [] && flushed == 0
    {
      globalLsn, persistLsn, offset, disk, records, flushed := 0, INVALID_LSN, 0, [], [], 0;
      buffer := new Byte[LOG_BUFFER_SIZE + 1](_ => 0);
      new;
      assert buffer[..0] == [];
    }

    /** flush_log_to_disk(): afterwards every record ever added is on disk. */
    method FlushLogToDisk()
      requires Valid()
      modifies this, buffer
      ensures Valid() && buffer == old(buffer)
      ensures records == old(records) && flushed == |records| && offset == 0
      ensures disk == SerializeAll(records)
    {
      hide SerializeAll;
      hide AllEncodable;
      NothingSerialized();
      if offset == 0 {
        EmptyTail(records, flushed);
        assert records[..|records|] == records;
        return;
      }
      StreamSoFar();
      WriteLog();
    }

    /** write_log of the buffer, then clear it. */
    method WriteLog()
      requires Valid() && flushed < |records|
      modifies this, buffer
      ensures Valid() && buffer == old(buffer)
      ensures records == old(records) && flushed == |records| && offset == 0
      ensures disk == SerializeAll(records)
    {
      hide SerializeAll;
      hide Encodable;
      AllEncodableSplit(records, flushed);
      SerializeAllAppend(records[..flushed], records[flushed..]);
      assert records == records[..flushed] + records[flushed..];
      disk := disk + buffer[..offset];
      persistLsn := globalLsn - 1;
      forall i | 0 <= i < buffer.Length { buffer[i] := 0; }
      offset := 0;
      flushed := |records|;
      NothingSerialized();
      assert records[..|records|] == records && records[|records|..] == [] && buffer[..0] == [];
    }

    /** add_log_to_buffer(): the record gets the next lsn and joins the stream whole; a record too long for the
        buffer is refused and changes nothing. */
    method AddLogToBuffer(r: LogRecord) returns (lsn: Option<int>)
      requires Valid()
      requires TotLen(r) <= LOG_BUFFER_SIZE ==> Encodable(r.(lsn := globalLsn))
      modifies this, buffer
      ensures Valid() && buffer == old(buffer)
      ensures TotLen(r) > LOG_BUFFER_SIZE ==> lsn == None && records == old(records) && disk == old(disk)
      ensures TotLen(r) <= LOG_BUFFER_SIZE ==>
                lsn == Some(old(globalLsn)) && records == old(records) + [r.(lsn := old(globalLsn))]
      ensures TotLen(r) <= LOG_BUFFER_SIZE ==>
                flushed == if old(offset) + TotLen(r) > LOG_BUFFER_SIZE then |old(records)| else old(flushed)
      ensures old(disk) <= disk && old(flushed) <= flushed
    {
      hide SerializeAll;
      hide Serialize;
      hide Encodable;
      hide BodyLen;
      if TotLen(r) > LOG_BUFFER_SIZE { return None; }
      if offset + TotLen(r) > LOG_BUFFER_SIZE {
        StreamSoFar();
        WriteLog();
      }
      var rec := r.(lsn := globalLsn);
      ghost var prior, before := records, buffer[..offset];
      SerializeInto(rec, buffer, offset);
      assert buffer[..offset + TotLen(r)] == before + Serialize(rec);
      globalLsn := globalLsn + 1;
      offset := offset + TotLen(r);
      records := records + [rec];
      PushStream(prior, flushed, rec);
      return Some(rec.lsn);
    }

    lemma StreamSoFar()
      requires Valid()
      ensures disk <= SerializeAll(records)
      ensures offset > 0 ==> flushed < |records|
    {
      assert flushed == |records| ==> records[flushed..] == [];
      AllEncodableSplit(records, flushed);
      SerializeAllAppend(records[..flushed], records[flushed..]);
      assert records == records[..flushed] + records[flushed..];
    }
  }

  lemma NothingSerialized()
    ensures SerializeAll([]) == []
  {
  }

  lemma AllEncodableSplit(recs: seq<LogRecord>, k: nat)
    requires AllEncodable(recs) && k <= |recs|
    ensures AllEncodable(recs[..k]) && AllEncodable(recs[k..])
  {
  }

  /** An empty serialization means no records: every record has a header. */
  lemma EmptyTail(recs: seq<LogRecord>, k: nat)
    requires AllEncodable(recs) && k <= |recs| && SerializeAll(recs[k..]) == []
    ensures k == |recs|
  {
  }

  lemma PushStream(recs: seq<LogRecord>, k: nat, r: LogRecord)
    requires AllEncodable(recs) && Encodable(r) && k <= |recs|
    ensures AllEncodable(recs + [r])
    ensures (recs + [r])[..k] == recs[..k]
    ensures SerializeAll((recs + [r])[k..]) == SerializeAll(recs[k..]) + Serialize(r)
  {
    hide Encodable;
    hide Serialize;
    AllEncodableSplit(recs, k);
    assert (recs + [r])[k..] == recs[k..] + [r];
    SerializeAllAppend(recs[k..], [r]);
    AllEncodableAppend(recs, [r]);
    assert [r][1..] == [];
  }
}
