/** Vocabulary shared by every layer: record identifiers, record bytes and the
    abstract interface between the layers, a table as a map from Rid to bytes. */
module Types {

  type Byte = x: int | 0 <= x < 256

  type TxnId = int

  /** A table is named by its bytes; while a database is open every name has exactly one file descriptor. */
  type TableName = seq<Byte>

  type Record = seq<Byte>

  datatype Rid = Rid(pageNo: int, slotNo: int)

  /** The order of a heap scan: by page, then by slot. */
  predicate RidBefore(a: Rid, b: Rid) { a.pageNo < b.pageNo || (a.pageNo == b.pageNo && a.slotNo < b.slotNo) }

  /** Bytes per page of every file. */
  const PAGE_SIZE := 4096

  type Table = map<Rid, Record>

  datatype Option<+T> = None | Some(value: T)

  function Lookup<K, V>(m: map<K, V>, k: K): Option<V> {
    if k in m then Some(m[k]) else None
  }

  /** The table in which rid holds exactly the given image (None: no record). */
  function Put(t: Table, rid: Rid, image: Option<Record>): Table {
    if image.None? then t - {rid} else t[rid := image.value]
  }

  const INVALID_LSN := -1

  /** What a transaction remembers of each write, for its rollback. */
  datatype WriteRecord =
    | InsertTuple(tab: TableName, rid: Rid)
    | DeleteTuple(tab: TableName, rid: Rid, prior: Record)
    | UpdateTuple(tab: TableName, rid: Rid, prior: Record)
}
