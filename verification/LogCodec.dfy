/** Log records and their byte form (src/recovery/log_manager.h), and the parsing half of
    restart analysis (src/recovery/log_recovery.cpp). */
module LogCodec {
  import opened Types
  import opened Integers

  datatype LogBody =
    | BeginBody
    | CommitBody
    | AbortBody
    | InsertBody(value: Record, rid: Rid, tab: TableName)
    | DeleteBody(value: Record, rid: Rid, tab: TableName)
    | UpdateBody(prior: Record, updated: Record, rid: Rid, tab: TableName)

  datatype LogRecord = LogRecord(lsn: int, prevLsn: int, tid: TxnId, body: LogBody)

  const LOG_HEADER_SIZE := 20
  const LOG_BUFFER_SIZE := 1024 * 4096

  // ------------------------------------------------------------------ serialization

  function TypeCode(b: LogBody): (c: nat)
    ensures c < 6
  {
    match b
    case UpdateBody(_, _, _, _) => 0
    case InsertBody(_, _, _) => 1
    case DeleteBody(_, _, _) => 2
    case BeginBody => 3
    case CommitBody => 4
    case AbortBody => 5
  }

  /** log_tot_len_ as the constructors accumulate it. */
  function BodyLen(b: LogBody): nat {
    match b
    case InsertBody(v, _, tab) => 4 + |v| + 8 + (8 + |tab|)
    case DeleteBody(v, _, tab) => 4 + |v| + 8 + (8 + |tab|)
    case UpdateBody(o, n, _, tab) => 4 + |o| + 4 + |n| + 8 + (8 + |tab|)
    case _ => 0
  }

  function TotLen(r: LogRecord): nat { LOG_HEADER_SIZE + BodyLen(r.body) }

  predicate EncodableBody(b: LogBody) {
    match b
    case InsertBody(_, rid, _) => IsInt32(rid.pageNo) && IsInt32(rid.slotNo)
    case DeleteBody(_, rid, _) => IsInt32(rid.pageNo) && IsInt32(rid.slotNo)
    case UpdateBody(_, _, rid, _) => IsInt32(rid.pageNo) && IsInt32(rid.slotNo)
    case _ => true
  }

  /** The fields fit their C++ types and the record fits the log buffer. */
  predicate Encodable(r: LogRecord) {
    IsInt32(r.lsn) && IsInt32(r.prevLsn) && IsInt32(r.tid) && EncodableBody(r.body) && TotLen(r) <= LOG_BUFFER_SIZE
  }

  function SizedBytes(v: Record): (s: seq<Byte>)
    requires |v| < TWO31
    ensures |s| == 4 + |v|
  {
    Int32(|v|) + v
  }

  /** The rid and the length-prefixed table name that end every data record. */
  function Tail(rid: Rid, tab: TableName): (s: seq<Byte>)
    requires IsInt32(rid.pageNo) && IsInt32(rid.slotNo) && |tab| < TWO31
    ensures |s| == 16 + |tab|
  {
    Int32(rid.pageNo) + Int32(rid.slotNo) + LittleEndian(|tab|, 8) + tab
  }

  function BodyBytes(b: LogBody): (s: seq<Byte>)
    requires EncodableBody(b) && BodyLen(b) <= LOG_BUFFER_SIZE
    ensures |s| == BodyLen(b)
  {
    match b
    case InsertBody(v, rid, tab) => SizedBytes(v) + Tail(rid, tab)
    case DeleteBody(v, rid, tab) => SizedBytes(v) + Tail(rid, tab)
    case UpdateBody(o, n, rid, tab) => SizedBytes(o) + SizedBytes(n) + Tail(rid, tab)
    case _ => []
  }

  function HeaderBytes(r: LogRecord): (s: seq<Byte>)
    requires Encodable(r)
    ensures |s| == LOG_HEADER_SIZE
  {
    Int32(TypeCode(r.body)) + Int32(r.lsn) + LittleEndian(TotLen(r), 4) + Int32(r.tid) + Int32(r.prevLsn)
  }

  function Serialize(r: LogRecord): (s: seq<Byte>)
    requires Encodable(r)
    ensures |s| == TotLen(r)
  {
    HeaderBytes(r) + BodyBytes(r.body)
  }

  // ---------------------------------------------------------------- deserialization

  /** RmRecord::Deserialize at an offset; None where the C++ would read past the record. */
  function ReadSized(s: seq<Byte>, at: nat): (r: Option<Record>)
    ensures r.Some? ==> at + 4 + |r.value| <= |s|
  {
    if at + 4 > |s| then None
    else
      var n := ReadInt32(s, at);
      if n < 0 || at + 4 + n > |s| then None else Some(s[at + 4..at + 4 + n])
  }

  function ReadTail(s: seq<Byte>, at: nat): Option<(Rid, TableName)> {
    if at + 16 > |s| then None
    else
      var n := ReadUint(s, at + 8, 8);
      if at + 16 + n > |s| then None
      else Some((Rid(ReadInt32(s, at), ReadInt32(s, at + 4)), s[at + 16..at + 16 + n]))
  }

  function ReadBody(code: int, s: seq<Byte>): Option<LogBody> {
    if code == 3 then Some(BeginBody)
    else if code == 4 then Some(CommitBody)
    else if code == 5 then Some(AbortBody)
    else if code == 1 || code == 2 then
      match ReadSized(s, LOG_HEADER_SIZE)
      case None => None
      case Some(v) =>
        match ReadTail(s, LOG_HEADER_SIZE + 4 + |v|)
        case None => None
        case Some(t) => Some(if code == 1 then InsertBody(v, t.0, t.1) else DeleteBody(v, t.0, t.1))
    else if code == 0 then
      match ReadSized(s, LOG_HEADER_SIZE)
      case None => None
      case Some(o) =>
        match ReadSized(s, LOG_HEADER_SIZE + 4 + |o|)
        case None => None
        case Some(n) =>
          match ReadTail(s, LOG_HEADER_SIZE + 4 + |o| + 4 + |n|)
          case None => None
          case Some(t) => Some(UpdateBody(o, n, t.0, t.1))
    else None
  }

  /** build_log_record: an unknown type code gives no record. */
  function Deserialize(s: seq<Byte>): Option<LogRecord>
    requires |s| >= LOG_HEADER_SIZE
  {
    match ReadBody(ReadInt32(s, 0), s)
    case None => None
    case Some(b) => Some(LogRecord(ReadInt32(s, 4), ReadInt32(s, 16), ReadInt32(s, 12), b))
  }

  lemma HeaderRoundTrip(r: LogRecord, rest: seq<Byte>)
    requires Encodable(r)
    ensures var s := HeaderBytes(r) + rest;
      && ReadInt32(s, 0) == TypeCode(r.body) && ReadInt32(s, 4) == r.lsn
      && ReadUint(s, 8, 4) == TotLen(r) && ReadInt32(s, 12) == r.tid && ReadInt32(s, 16) == r.prevLsn
  {
    var s := HeaderBytes(r) + rest;
    assert s[0..4] == Int32(TypeCode(r.body));
    assert s[4..8] == Int32(r.lsn);
    assert s[8..12] == LittleEndian(TotLen(r), 4);
    assert s[12..16] == Int32(r.tid);
    assert s[16..20] == Int32(r.prevLsn);
    ReadBackInt32(s, 0, TypeCode(r.body));
    ReadBackInt32(s, 4, r.lsn);
    Pow256Values();
    ReadBackUint(s, 8, TotLen(r), 4);
    ReadBackInt32(s, 12, r.tid);
    ReadBackInt32(s, 16, r.prevLsn);
  }

  lemma SizedRoundTrip(s: seq<Byte>, at: nat, v: Record)
    requires |v| < TWO31 && at + 4 + |v| <= |s| && s[at..at + 4 + |v|] == SizedBytes(v)
    ensures ReadSized(s, at) == Some(v)
  {
    assert s[at..at + 4] == s[at..at + 4 + |v|][..4] == Int32(|v|);
    ReadBackInt32(s, at, |v|);
    assert s[at + 4..at + 4 + |v|] == s[at..at + 4 + |v|][4..] == v;
  }

  lemma Window(s: seq<Byte>, at: nat, n: nat, i: nat, j: nat)
    requires i <= j <= n && at + n <= |s|
    ensures s[at..at + n][i..j] == s[at + i..at + j]
  {
    var w := s[at..at + n];
    assert forall k :: 0 <= k < j - i ==> w[i..j][k] == s[at + i..at + j][k];
  }

  lemma TailRoundTrip(s: seq<Byte>, at: nat, rid: Rid, tab: TableName)
    requires IsInt32(rid.pageNo) && IsInt32(rid.slotNo) && |tab| < TWO31
    requires at + 16 + |tab| <= |s| && s[at..at + 16 + |tab|] == Tail(rid, tab)
    ensures ReadTail(s, at) == Some((rid, tab))
  {
    var w := s[at..at + 16 + |tab|];
    Window(s, at, |w|, 0, 4);
    Window(s, at, |w|, 4, 8);
    Window(s, at, |w|, 8, 16);
    Window(s, at, |w|, 16, |w|);
    assert w[0..4] == Int32(rid.pageNo) && w[4..8] == Int32(rid.slotNo);
    assert w[8..16] == LittleEndian(|tab|, 8) && w[16..|w|] == tab;
    ReadBackInt32(s, at, rid.pageNo);
    ReadBackInt32(s, at + 4, rid.slotNo);
    Pow256Values();
    ReadBackUint(s, at + 8, |tab|, 8);
  }

  lemma OneValueRoundTrip(s: seq<Byte>, header: seq<Byte>, v: Record, rid: Rid, tab: TableName)
    requires |header| == LOG_HEADER_SIZE && IsInt32(rid.pageNo) && IsInt32(rid.slotNo)
    requires |v| < TWO31 && |tab| < TWO31
    requires s == header + (SizedBytes(v) + Tail(rid, tab))
    ensures ReadSized(s, 20) == Some(v) && ReadTail(s, 24 + |v|) == Some((rid, tab))
  {
    hide SizedBytes;
    hide Tail;
    hide ReadSized;
    hide ReadTail;
    assert s[20..24 + |v|] == SizedBytes(v);
    SizedRoundTrip(s, 20, v);
    assert s[24 + |v|..40 + |v| + |tab|] == Tail(rid, tab);
    TailRoundTrip(s, 24 + |v|, rid, tab);
  }

  lemma TwoValuesRoundTrip(s: seq<Byte>, header: seq<Byte>, o: Record, n: Record, rid: Rid, tab: TableName)
    requires |header| == LOG_HEADER_SIZE && IsInt32(rid.pageNo) && IsInt32(rid.slotNo)
    requires |o| < TWO31 && |n| < TWO31 && |tab| < TWO31
    requires s == header + (SizedBytes(o) + SizedBytes(n) + Tail(rid, tab))
    ensures ReadSized(s, 20) == Some(o) && ReadSized(s, 24 + |o|) == Some(n)
    ensures ReadTail(s, 28 + |o| + |n|) == Some((rid, tab))
  {
    hide SizedBytes;
    hide Tail;
    hide ReadSized;
    hide ReadTail;
    assert s[20..24 + |o|] == SizedBytes(o);
    SizedRoundTrip(s, 20, o);
    assert s[24 + |o|..28 + |o| + |n|] == SizedBytes(n);
    SizedRoundTrip(s, 24 + |o|, n);
    assert s[28 + |o| + |n|..44 + |o| + |n| + |tab|] == Tail(rid, tab);
    TailRoundTrip(s, 28 + |o| + |n|, rid, tab);
  }

  lemma BodyRoundTrip(header: seq<Byte>, b: LogBody)
    requires |header| == LOG_HEADER_SIZE && EncodableBody(b) && BodyLen(b) <= LOG_BUFFER_SIZE
    ensures ReadBody(TypeCode(b), header + BodyBytes(b)) == Some(b)
  {
    hide SizedBytes;
    hide Tail;
    hide ReadSized;
    hide ReadTail;
    var s := header + BodyBytes(b);
    match b
    case InsertBody(v, rid, tab) => OneValueRoundTrip(s, header, v, rid, tab);
    case DeleteBody(v, rid, tab) => OneValueRoundTrip(s, header, v, rid, tab);
    case UpdateBody(o, n, rid, tab) => TwoValuesRoundTrip(s, header, o, n, rid, tab);
    case _ =>
  }

  /** Every field of every record survives serialize followed by deserialize. */
  lemma RoundTrip(r: LogRecord)
    requires Encodable(r)
    ensures Deserialize(Serialize(r)) == Some(r)
  {
    HeaderRoundTrip(r, BodyBytes(r.body));
    BodyRoundTrip(HeaderBytes(r), r.body);
  }

  /** Where the fields stand in the bytes: the header, with the type numbers of the log file. */
  lemma HeaderLayout(r: LogRecord)
    requires Encodable(r)
    ensures var s := Serialize(r);
      && ReadUint(s, 8, 4) == |s| && ReadInt32(s, 4) == r.lsn && ReadInt32(s, 12) == r.tid
      && ReadInt32(s, 16) == r.prevLsn
      && ReadInt32(s, 0) ==
           match r.body
           case UpdateBody(_, _, _, _) => 0
           case InsertBody(_, _, _) => 1
           case DeleteBody(_, _, _) => 2
           case BeginBody => 3
           case CommitBody => 4
           case AbortBody => 5
  {
    hide ReadUint;
    hide ReadInt32;
    hide BodyBytes;
    HeaderRoundTrip(r, BodyBytes(r.body));
  }

  /** From an offset on: the length of a value, the value, the rid, the length of the table name, the table name. */
  predicate ValueThenPlace(s: seq<Byte>, at: nat, v: Record, rid: Rid, tab: TableName) {
    && |s| == at + 4 + |v| + 16 + |tab|
    && ReadInt32(s, at) == |v| && s[at + 4..at + 4 + |v|] == v
    && ReadInt32(s, at + 4 + |v|) == rid.pageNo && ReadInt32(s, at + 8 + |v|) == rid.slotNo
    && ReadUint(s, at + 12 + |v|, 8) == |tab| && s[at + 20 + |v|..] == tab
  }

  /** Where the fields stand in the bytes: the data of insert, delete and update records. */
  lemma DataLayout(r: LogRecord)
    requires Encodable(r) && (r.body.InsertBody? || r.body.DeleteBody? || r.body.UpdateBody?)
    ensures var s := Serialize(r);
      match r.body
      case InsertBody(v, rid, tab) => ValueThenPlace(s, 20, v, rid, tab)
      case DeleteBody(v, rid, tab) => ValueThenPlace(s, 20, v, rid, tab)
      case UpdateBody(o, n, rid, tab) =>
        && ReadInt32(s, 20) == |o| && s[24..24 + |o|] == o
        && ValueThenPlace(s, 24 + |o|, n, rid, tab)
  {
    hide SizedBytes;
    hide Tail;
    hide ReadUint;
    var s, header := Serialize(r), HeaderBytes(r);
    match r.body
    case InsertBody(v, rid, tab) => OneValueRoundTrip(s, header, v, rid, tab);
    case DeleteBody(v, rid, tab) => OneValueRoundTrip(s, header, v, rid, tab);
    case UpdateBody(o, n, rid, tab) => TwoValuesRoundTrip(s, header, o, n, rid, tab);
  }

  // ------------------------------------------------------------- the log as a stream

  ghost predicate AllEncodable(recs: seq<LogRecord>) {
    forall i :: 0 <= i < |recs| ==> Encodable(recs[i])
  }

  function SerializeAll(recs: seq<LogRecord>): (s: seq<Byte>)
    requires AllEncodable(recs)
  {
    if recs == [] then [] else Serialize(recs[0]) + SerializeAll(recs[1..])
  }

  lemma AllEncodableAppend(a: seq<LogRecord>, b: seq<LogRecord>)
    ensures AllEncodable(a) && AllEncodable(b) <==> AllEncodable(a + b)
  {
    if AllEncodable(a + b) {
      assert forall i :: 0 <= i < |a| ==> a[i] == (a + b)[i];
      assert forall i :: 0 <= i < |b| ==> b[i] == (a + b)[|a| + i];
    }
  }

  lemma {:induction false} SerializeAllAppend(a: seq<LogRecord>, b: seq<LogRecord>)
    requires AllEncodable(a) && AllEncodable(b)
    ensures AllEncodable(a + b) && SerializeAll(a + b) == SerializeAll(a) + SerializeAll(b)
  {
    AllEncodableAppend(a, b);
    if a == [] {
      assert a + b == b;
    } else {
      assert (a + b)[1..] == a[1..] + b;
      SerializeAllAppend(a[1..], b);
    }
  }

  /** The record sequence that restart analysis recovers from a log file. */
  function ParseLog(file: seq<Byte>): seq<LogRecord> {
    if |file| < LOG_HEADER_SIZE then []
    else
      var len := ReadUint(file, 8, 4);
      if len < LOG_HEADER_SIZE || len > LOG_BUFFER_SIZE || |file| < len then []
      else
        match Deserialize(file[..len])
        case None => []
        case Some(r) => [r] + ParseLog(file[len..])
  }

  /** How many leading records fit in the first n bytes of the serialized log. */
  function WholeRecords(recs: seq<LogRecord>, n: nat): (k: nat)
    requires AllEncodable(recs)
    ensures k <= |recs|
  {
    if recs == [] || n < TotLen(recs[0]) then 0 else 1 + WholeRecords(recs[1..], n - TotLen(recs[0]))
  }

  /** WholeRecords names the longest whole prefix. */
  lemma {:induction false} WholeRecordsLongest(recs: seq<LogRecord>, n: nat)
    requires AllEncodable(recs)
    ensures var k := WholeRecords(recs, n);
      && |SerializeAll(recs[..k])| <= n
      && (k < |recs| ==> n < |SerializeAll(recs[..k + 1])|)
  {
    var k := WholeRecords(recs, n);
    if recs != [] && TotLen(recs[0]) <= n {
      WholeRecordsLongest(recs[1..], n - TotLen(recs[0]));
      assert recs[..k][1..] == recs[1..][..k - 1];
      if k < |recs| { assert recs[..k + 1][1..] == recs[1..][..k]; }
    } else if recs != [] {
      assert recs[..1][1..] == [];
    }
  }

  lemma HeaderOfPrefix(r: LogRecord, file: seq<Byte>)
    requires Encodable(r) && |file| >= LOG_HEADER_SIZE
    requires file[..LOG_HEADER_SIZE] == HeaderBytes(r)
    ensures ReadUint(file, 8, 4) == TotLen(r)
  {
    HeaderRoundTrip(r, file[LOG_HEADER_SIZE..]);
    assert file == HeaderBytes(r) + file[LOG_HEADER_SIZE..];
  }

  lemma ParseOne(r: LogRecord, rest: seq<Byte>)
    requires Encodable(r)
    ensures ParseLog(Serialize(r) + rest) == [r] + ParseLog(rest)
  {
    var file := Serialize(r) + rest;
    assert file[..LOG_HEADER_SIZE] == HeaderBytes(r);
    HeaderOfPrefix(r, file);
    assert file[..TotLen(r)] == Serialize(r) && file[TotLen(r)..] == rest;
    RoundTrip(r);
  }

  lemma ParseNothing()
    ensures ParseLog([]) == []
  {
  }

  lemma ParseTorn(r: LogRecord, n: nat)
    requires Encodable(r) && n < TotLen(r)
    ensures ParseLog(Serialize(r)[..n]) == []
  {
    if n >= LOG_HEADER_SIZE {
      assert Serialize(r)[..n][..LOG_HEADER_SIZE] == HeaderBytes(r);
      HeaderOfPrefix(r, Serialize(r)[..n]);
    }
  }

  /** Torn-log parsing: from any byte prefix of a serialized log, analysis recovers exactly the
      longest prefix of whole records, every field equal to the original. */
  lemma {:induction false} TornLogParses(recs: seq<LogRecord>, n: nat)
    requires AllEncodable(recs) && n <= |SerializeAll(recs)|
    ensures ParseLog(SerializeAll(recs)[..n]) == recs[..WholeRecords(recs, n)]
  {
    hide ParseLog;
    hide Serialize;
    if recs == [] {
      ParseNothing();
    } else {
      var r, all, rest := recs[0], SerializeAll(recs), SerializeAll(recs[1..]);
      var len := TotLen(r);
      if len <= n {
        assert all[..n] == Serialize(r) + rest[..n - len];
        ParseOne(r, rest[..n - len]);
        TornLogParses(recs[1..], n - len);
        assert recs[..WholeRecords(recs, n)] == [r] + recs[1..][..WholeRecords(recs[1..], n - len)];
      } else {
        assert all[..n] == Serialize(r)[..n];
        ParseTorn(r, n);
      }
    }
  }
}
