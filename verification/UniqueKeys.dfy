/** When the row operations are refused, said on the table's records alone (src/system/sm_manager.cpp:475-532 and the
    executors): a unique index refuses a record exactly when another live record has the same key. */
module UniqueKeys {
  import opened Types
  import opened Compare
  import opened Index
  import Heap
  import opened HeapRollback
  import opened Relations

  /** The two records have equal values in every column of the index. */
  ghost predicate SameKey(meta: seq<ColMeta>, a: Record, b: Record) {
    && Fits(meta, a) && Fits(meta, b)
    && forall j :: 0 <= j < |meta| ==> CompareRaw(meta[j].ctype, FieldOf(a, meta[j]), FieldOf(b, meta[j])) == 0
  }

  /** r is live and has the key of buf on some index. */
  ghost predicate ClashesWith(rel: Rel, r: Rid, buf: Record) {
    && r in Heap.Contents(rel.file)
    && exists i :: 0 <= i < |rel.indexes| && SameKey(rel.indexes[i].meta, Heap.Contents(rel.file)[r], buf)
  }

  lemma SameKeyIff(meta: seq<ColMeta>, a: Record, b: Record)
    requires Fits(meta, a) && Fits(meta, b)
    ensures SameKey(meta, a, b) <==> Cmp(meta, MakeKey(meta, a), MakeKey(meta, b), |meta|) == 0
  {
    hide CompareRaw;
    hide FieldOf;
    var ts, x, y, n := TypesOf(meta), MakeKey(meta, a), MakeKey(meta, b), |meta|;
    if SameKey(meta, a, b) {
      KeySkip(ts, x, y, 0, n, n);
    }
    if Cmp(meta, x, y, n) == 0 {
      KeyZero(ts, x, y, 0, n);
      forall j | 0 <= j < n ensures CompareRaw(meta[j].ctype, FieldOf(a, meta[j]), FieldOf(b, meta[j])) == 0 {
        assert CompareRaw(ts[j], x[j], y[j]) == 0;
      }
    }
  }

  /** The unique check on one index, on the records of the table. */
  lemma DuplicateMeans(ix: Idx, t: Table, buf: Record, self: Option<Rid>)
    requires Agrees(ix, t) && Fits(ix.meta, buf)
    ensures Wide(ix)
    ensures Duplicate(ix, MakeKey(ix.meta, buf), self) <==>
            exists r :: r in t && Some(r) != self && SameKey(ix.meta, t[r], buf)
  {
    hide Cmp;
    hide Duplicate;
    hide SameKey;
    hide Fits;
    hide Sorted;
    var key := MakeKey(ix.meta, buf);
    AgreesWide(ix, t);
    MakeKeyShaped(ix.meta, buf);
    DuplicateIff(ix, key, self);
    forall r | r in t
      ensures SameKey(ix.meta, t[r], buf) <==> Cmp(ix.meta, MakeKey(ix.meta, t[r]), key, |ix.meta|) == 0
    {
      SameKeyIff(ix.meta, t[r], buf);
    }
    if Duplicate(ix, key, self) {
      var i :| 0 <= i < |ix.entries| && Cmp(ix.meta, ix.entries[i].key, key, |ix.meta|) == 0
        && Some(ix.entries[i].rid) != self;
      assert ix.entries[i] in ix.entries;
    }
    if r :| r in t && Some(r) != self && SameKey(ix.meta, t[r], buf) {
      var e := Entry(MakeKey(ix.meta, t[r]), r);
      assert e in ix.entries;
      var i :| 0 <= i < |ix.entries| && ix.entries[i] == e;
    }
  }

  lemma AnyDuplicateMeans(rel: Rel, buf: Record, self: Option<Rid>)
    requires RelOk(rel) && |buf| == rel.recSize
    ensures Usable(rel.indexes, buf)
    ensures AnyDuplicate(rel.indexes, buf, self) <==> exists r :: Some(r) != self && ClashesWith(rel, r, buf)
  {
    hide Duplicate;
    hide SameKey;
    hide Agrees;
    hide Heap.FileOk;
    hide Heap.Contents;
    var t := Heap.Contents(rel.file);
    SizedUsable(rel, buf);
    forall i | 0 <= i < |rel.indexes|
      ensures Duplicate(rel.indexes[i], MakeKey(rel.indexes[i].meta, buf), self) <==>
        exists r :: r in t && Some(r) != self && SameKey(rel.indexes[i].meta, t[r], buf)
    {
      DuplicateMeans(rel.indexes[i], t, buf, self);
    }
  }

  /** What each executor decides, on contents and keys: an insert is refused exactly when a live record has an equal key
      on some index; an update is refused exactly when another live record has; delete and update fail exactly on a rid
      that is not live. */
  lemma DecideMeans(rel: Rel, s: Stmt)
    requires RelOk(rel) && RightSize(rel, s)
    ensures !s.DeleteStmt? ==> Usable(rel.indexes, s.buf)
    ensures match s
      case InsertStmt(buf) =>
        Decide(rel, s) == if exists r :: ClashesWith(rel, r, buf) then None else Some(InsertRow(buf))
      case DeleteStmt(rid) => Decide(rel, s) == if rid in Heap.Contents(rel.file) then Some(DeleteRow(rid)) else None
      case UpdateStmt(rid, buf) =>
        Decide(rel, s) ==
          if rid !in Heap.Contents(rel.file) then None
          else if exists r :: r != rid && ClashesWith(rel, r, buf) then Some(UpdateRefused(rid))
          else Some(UpdateRow(rid, buf))
  {
    hide Heap.FileOk;
    hide Heap.Contents;
    hide AnyDuplicate;
    hide ClashesWith;
    hide IndexesAgree;
    match s
    case InsertStmt(buf) => AnyDuplicateMeans(rel, buf, None);
    case DeleteStmt(rid) => Heap.InContents(rel.file, rid);
    case UpdateStmt(rid, buf) =>
      Heap.InContents(rel.file, rid);
      AnyDuplicateMeans(rel, buf, Some(rid));
  }

  /** What the executors do to the contents. */
  lemma ExecuteMeans(rel: Rel, s: Stmt)
    requires RelOk(rel) && RightSize(rel, s)
    ensures !s.DeleteStmt? ==> Usable(rel.indexes, s.buf)
    ensures Decide(rel, s).Some? ==>
      var a, t := Decide(rel, s).value, Heap.Contents(rel.file);
      && Applicable(rel, a)
      && Heap.Contents(Execute(rel, a).file) ==
           match a
           case InsertRow(buf) => t[Heap.InsertRecord(rel.file, buf).1.value := buf]
           case DeleteRow(rid) => t - {rid}
           case UpdateRow(rid, buf) => t[rid := buf]
           case UpdateRefused(_) => t
  {
    hide Heap.FileOk;
    hide Heap.Contents;
    hide Heap.InsertRecord;
    hide AnyDuplicate;
    hide Indexed;
    ExecuteKeepsOk(rel, s);
    if Decide(rel, s).Some? {
      DecidePossible(rel, s);
      PerformContents(rel.file, Decide(rel, s).value);
    }
  }

  /** An update that keeps the values of every indexed column is never refused. */
  lemma KeepingKeysAccepted(rel: Rel, rid: Rid, buf: Record)
    requires RelOk(rel) && |buf| == rel.recSize && rid in Heap.Contents(rel.file)
    requires forall i :: 0 <= i < |rel.indexes| ==> SameKey(rel.indexes[i].meta, Heap.Contents(rel.file)[rid], buf)
    ensures Usable(rel.indexes, buf) && Decide(rel, UpdateStmt(rid, buf)) == Some(UpdateRow(rid, buf))
  {
    hide Heap.FileOk;
    hide Heap.Contents;
    hide SameKey;
    hide Cmp;
    hide Decide;
    var t := Heap.Contents(rel.file);
    DecideMeans(rel, UpdateStmt(rid, buf));
    forall r | r != rid ensures !ClashesWith(rel, r, buf) {
      if ClashesWith(rel, r, buf) {
        var i :| 0 <= i < |rel.indexes| && SameKey(rel.indexes[i].meta, t[r], buf);
        EqualTwice(rel.indexes[i], t, rid, r, buf);
        assert false;
      }
    }
  }

  /** Two live records never share a key with one record. */
  lemma EqualTwice(ix: Idx, t: Table, a: Rid, b: Rid, buf: Record)
    requires Agrees(ix, t) && a in t && b in t && a != b
    requires SameKey(ix.meta, t[a], buf)
    ensures !SameKey(ix.meta, t[b], buf)
  {
    hide CompareKey;
    if SameKey(ix.meta, t[b], buf) {
      var x, y, z, n := MakeKey(ix.meta, t[a]), MakeKey(ix.meta, buf), MakeKey(ix.meta, t[b]), |ix.meta|;
      SameKeyIff(ix.meta, t[a], buf);
      SameKeyIff(ix.meta, t[b], buf);
      CmpFlip(ix.meta, z, y, n);
      CmpTrans(ix.meta, x, y, z, n);
      CmpFlip(ix.meta, x, z, n);
      CmpFlip(ix.meta, x, y, n);
      CmpTrans(ix.meta, z, y, x, n);
      KeysUnique(ix, t, a, b);
      assert false;
    }
  }
}
