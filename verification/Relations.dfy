/** A table with its heap file and its unique indexes: the effect of the insert, delete and update executors on both
    (src/execution), and its exact rollback (src/transaction/transaction_manager.cpp). */
module Relations {
  import opened Types
  import opened Compare
  import opened Index
  import opened Heap
  import opened HeapRollback

  datatype Rel = Rel(recSize: nat, file: File, indexes: seq<Idx>)

  ghost predicate IndexesAgree(ixs: seq<Idx>, t: Table) {
    forall i :: 0 <= i < |ixs| ==> Agrees(ixs[i], t)
  }

  ghost predicate FitSize(ixs: seq<Idx>, n: nat) {
    forall i, j :: 0 <= i < |ixs| && 0 <= j < |ixs[i].meta| ==> ixs[i].meta[j].offset + ixs[i].meta[j].len <= n
  }

  /** The heap file is well formed and every index is strictly sorted with exactly one entry per live record. */
  ghost predicate RelOk(rel: Rel) {
    FileOk(rel.file) && FitSize(rel.indexes, rel.recSize) && IndexesAgree(rel.indexes, Contents(rel.file))
  }

  // --------------------------------------------------- the loops over the indexes of a table

  /** The record is long enough for every index key, and the entries have full keys. */
  predicate Usable(ixs: seq<Idx>, rec: Record) {
    forall i :: 0 <= i < |ixs| ==> Fits(ixs[i].meta, rec) && Wide(ixs[i])
  }

  /** check_index_insert raises its error. */
  predicate AnyDuplicate(ixs: seq<Idx>, rec: Record, self: Option<Rid>)
    requires Usable(ixs, rec)
  {
    exists i :: 0 <= i < |ixs| && Duplicate(ixs[i], MakeKey(ixs[i].meta, rec), self)
  }

  /** insert_index_entries. */
  function InsertEntries(ixs: seq<Idx>, rec: Record, rid: Rid): (r: seq<Idx>)
    requires Usable(ixs, rec)
    ensures |r| == |ixs| && forall i :: 0 <= i < |ixs| ==> r[i] == InsertEntry(ixs[i], MakeKey(ixs[i].meta, rec), rid)
  {
    seq(|ixs|, i requires 0 <= i < |ixs| => InsertEntry(ixs[i], MakeKey(ixs[i].meta, rec), rid))
  }

  /** delete_index_entries. */
  function DeleteEntries(ixs: seq<Idx>, rec: Record, rid: Rid): (r: seq<Idx>)
    requires Usable(ixs, rec)
    ensures |r| == |ixs| && forall i :: 0 <= i < |ixs| ==> r[i] == DeleteEntry(ixs[i], MakeKey(ixs[i].meta, rec), rid)
  {
    seq(|ixs|, i requires 0 <= i < |ixs| => DeleteEntry(ixs[i], MakeKey(ixs[i].meta, rec), rid))
  }

  lemma AgreeUsable(ixs: seq<Idx>, t: Table, rid: Rid)
    requires IndexesAgree(ixs, t) && rid in t
    ensures Usable(ixs, t[rid])
  {
    forall i | 0 <= i < |ixs| ensures Fits(ixs[i].meta, t[rid]) && Wide(ixs[i]) { AgreesWide(ixs[i], t); }
  }

  lemma SizedUsable(rel: Rel, rec: Record)
    requires RelOk(rel) && |rec| == rel.recSize
    ensures Usable(rel.indexes, rec)
  {
    hide FileOk;
    hide Contents;
    forall i | 0 <= i < |rel.indexes| ensures Wide(rel.indexes[i]) { AgreesWide(rel.indexes[i], Contents(rel.file)); }
  }

  lemma InsertEntriesAgree(ixs: seq<Idx>, t: Table, rec: Record, rid: Rid)
    requires IndexesAgree(ixs, t) && rid !in t && Usable(ixs, rec) && !AnyDuplicate(ixs, rec, None)
    ensures IndexesAgree(InsertEntries(ixs, rec, rid), t[rid := rec])
  {
    hide Agrees;
    hide InsertEntry;
    forall i | 0 <= i < |ixs| ensures Agrees(InsertEntries(ixs, rec, rid)[i], t[rid := rec]) {
      InsertAgrees(ixs[i], t, rid, rec);
    }
  }

  lemma DeleteEntriesAgree(ixs: seq<Idx>, t: Table, rid: Rid)
    requires IndexesAgree(ixs, t) && rid in t && Usable(ixs, t[rid])
    ensures IndexesAgree(DeleteEntries(ixs, t[rid], rid), t - {rid})
  {
    hide Agrees;
    hide DeleteEntry;
    forall i | 0 <= i < |ixs| ensures Agrees(DeleteEntries(ixs, t[rid], rid)[i], t - {rid}) {
      DeleteAgrees(ixs[i], t, rid);
    }
  }

  lemma UpdateEntriesAgree(ixs: seq<Idx>, t: Table, rec: Record, rid: Rid)
    requires IndexesAgree(ixs, t) && rid in t && Usable(ixs, rec) && !AnyDuplicate(ixs, rec, Some(rid))
      && Usable(ixs, t[rid])
    ensures Usable(DeleteEntries(ixs, t[rid], rid), rec)
    ensures IndexesAgree(InsertEntries(DeleteEntries(ixs, t[rid], rid), rec, rid), t[rid := rec])
  {
    hide Agrees;
    hide Wide;
    hide DeleteEntry;
    hide InsertEntry;
    var mid := DeleteEntries(ixs, t[rid], rid);
    forall i | 0 <= i < |ixs|
      ensures Wide(mid[i]) && mid[i].meta == ixs[i].meta
        && Agrees(InsertEntry(mid[i], MakeKey(ixs[i].meta, rec), rid), t[rid := rec])
    {
      UpdateAgrees(ixs[i], t, rid, rec);
    }
  }

  ghost predicate SameMetas(a: seq<Idx>, b: seq<Idx>) {
    |a| == |b| && forall i :: 0 <= i < |a| ==> a[i].meta == b[i].meta
  }

  lemma InsertMetas(ixs: seq<Idx>, rec: Record, rid: Rid)
    requires Usable(ixs, rec)
    ensures SameMetas(InsertEntries(ixs, rec, rid), ixs)
  {
    hide InsertEntry;
    forall i | 0 <= i < |ixs| ensures InsertEntries(ixs, rec, rid)[i].meta == ixs[i].meta {
      InsertKeepsMeta(ixs[i], MakeKey(ixs[i].meta, rec), rid);
    }
  }

  lemma DeleteMetas(ixs: seq<Idx>, rec: Record, rid: Rid)
    requires Usable(ixs, rec)
    ensures SameMetas(DeleteEntries(ixs, rec, rid), ixs)
  {
    hide DeleteEntry;
    forall i | 0 <= i < |ixs| ensures DeleteEntries(ixs, rec, rid)[i].meta == ixs[i].meta {
      DeleteKeepsMeta(ixs[i], MakeKey(ixs[i].meta, rec), rid);
    }
  }

  lemma AgreementDeterminesAll(a: seq<Idx>, b: seq<Idx>, t: Table)
    requires IndexesAgree(a, t) && IndexesAgree(b, t) && SameMetas(a, b)
    ensures a == b
  {
    hide Agrees;
    forall i | 0 <= i < |a| ensures a[i] == b[i] { AgreementDetermines(a[i], b[i], t); }
  }

  // ------------------------------------------------------------------- the executors, per row

  datatype Stmt = InsertStmt(buf: Record) | DeleteStmt(rid: Rid) | UpdateStmt(rid: Rid, buf: Record)

  /** The executors build records of the file's record size. */
  predicate RightSize(rel: Rel, s: Stmt) {
    s.DeleteStmt? || |s.buf| == rel.recSize
  }

  /** What the executor does to the file; None: an error before anything was changed or remembered. A refused update
      has already been remembered in the write set. */
  function Decide(rel: Rel, s: Stmt): Option<Action>
    requires !s.DeleteStmt? ==> Usable(rel.indexes, s.buf)
  {
    match s
    case InsertStmt(buf) => if AnyDuplicate(rel.indexes, buf, None) then None else Some(InsertRow(buf))
    case DeleteStmt(rid) => if IsRecord(rel.file, rid) then Some(DeleteRow(rid)) else None
    case UpdateStmt(rid, buf) =>
      if !IsRecord(rel.file, rid) then None
      else if AnyDuplicate(rel.indexes, buf, Some(rid)) then Some(UpdateRefused(rid))
      else Some(UpdateRow(rid, buf))
  }

  /** The old and new images are long enough for every key, also of the index vectors between delete and insert. */
  predicate Applicable(rel: Rel, a: Action) {
    && Defined(rel.file, a)
    && match a
       case InsertRow(buf) => Usable(rel.indexes, buf)
       case DeleteRow(rid) => Usable(rel.indexes, GetRecord(rel.file, rid).value)
       case UpdateRow(rid, buf) =>
         var now := GetRecord(rel.file, rid).value;
         Usable(rel.indexes, now) && Usable(DeleteEntries(rel.indexes, now, rid), buf)
       case UpdateRefused(_) => true
  }

  function Indexed(rel: Rel, a: Action): seq<Idx>
    requires Applicable(rel, a)
  {
    match a
    case InsertRow(buf) => InsertEntries(rel.indexes, buf, InsertRecord(rel.file, buf).1.value)
    case DeleteRow(rid) => DeleteEntries(rel.indexes, GetRecord(rel.file, rid).value, rid)
    case UpdateRow(rid, buf) => InsertEntries(DeleteEntries(rel.indexes, GetRecord(rel.file, rid).value, rid), buf, rid)
    case UpdateRefused(_) => rel.indexes
  }

  function Execute(rel: Rel, a: Action): Rel
    requires Applicable(rel, a)
  {
    Rel(rel.recSize, Perform(rel.file, a), Indexed(rel, a))
  }

  /** How the action changes the table's contents. */
  ghost function TableAfter(f: File, a: Action): Table
    requires Defined(f, a)
  {
    var t := Contents(f);
    match a
    case InsertRow(buf) => t[InsertRecord(f, buf).1.value := buf]
    case DeleteRow(rid) => t - {rid}
    case UpdateRow(rid, buf) => t[rid := buf]
    case UpdateRefused(_) => t
  }

  lemma PerformContents(f: File, a: Action)
    requires FileOk(f) && Possible(f, a)
    ensures Defined(f, a) && FileOk(Perform(f, a)) && Contents(Perform(f, a)) == TableAfter(f, a)
    ensures a.InsertRow? ==> InsertRecord(f, a.buf).1.value !in Contents(f)
    ensures !a.InsertRow? ==> a.rid in Contents(f) && Contents(f)[a.rid] == GetRecord(f, a.rid).value
  {
    hide FileOk;
    hide Contents;
    hide InsertRecord;
    hide DeleteRecord;
    HeadInRange(f);
    match a
    case InsertRow(buf) => InsertOk(f, buf);
    case DeleteRow(rid) => DeleteOk(f, rid); ContentsAt(f, rid);
    case UpdateRow(rid, buf) => UpdateOk(f, rid, buf); ContentsAt(f, rid);
    case UpdateRefused(rid) => ContentsAt(f, rid);
  }

  lemma DecidePossible(rel: Rel, s: Stmt)
    requires !s.DeleteStmt? ==> Usable(rel.indexes, s.buf)
    ensures Decide(rel, s).Some? ==> Possible(rel.file, Decide(rel, s).value)
  {
  }

  /** Every executor keeps every index in agreement with the heap file. */
  lemma ExecuteKeepsOk(rel: Rel, s: Stmt)
    requires RelOk(rel) && RightSize(rel, s)
    ensures !s.DeleteStmt? ==> Usable(rel.indexes, s.buf)
    ensures Decide(rel, s).Some? ==>
      (var a := Decide(rel, s).value;
       Applicable(rel, a) && RelOk(Execute(rel, a)) && SameMetas(Indexed(rel, a), rel.indexes))
  {
    hide FileOk;
    hide Contents;
    hide Perform;
    hide Usable;
    hide IndexesAgree;
    hide AnyDuplicate;
    hide InsertRecord;
    hide Possible;
    if !s.DeleteStmt? { SizedUsable(rel, s.buf); }
    if Decide(rel, s).Some? {
      var a := Decide(rel, s).value;
      DecidePossible(rel, s);
      PerformContents(rel.file, a);
      if !a.InsertRow? { AgreeUsable(rel.indexes, Contents(rel.file), a.rid); }
      match a
      case InsertRow(buf) =>
        InsertEntriesAgree(rel.indexes, Contents(rel.file), buf, InsertRecord(rel.file, buf).1.value);
        InsertMetas(rel.indexes, buf, InsertRecord(rel.file, buf).1.value);
      case DeleteRow(rid) =>
        DeleteEntriesAgree(rel.indexes, Contents(rel.file), rid);
        DeleteMetas(rel.indexes, Contents(rel.file)[rid], rid);
      case UpdateRow(rid, buf) =>
        UpdateEntriesAgree(rel.indexes, Contents(rel.file), buf, rid);
        UpdateMetas(rel.indexes, Contents(rel.file)[rid], buf, rid);
      case UpdateRefused(_) =>
    }
  }

  lemma UpdateMetas(ixs: seq<Idx>, was: Record, now: Record, rid: Rid)
    requires Usable(ixs, was) && Usable(DeleteEntries(ixs, was, rid), now)
    ensures SameMetas(InsertEntries(DeleteEntries(ixs, was, rid), now, rid), ixs)
  {
    hide Usable;
    DeleteMetas(ixs, was, rid);
    InsertMetas(DeleteEntries(ixs, was, rid), now, rid);
  }

  // ------------------------------------------------------------------------------- rollback

  /** One iteration of abort()'s loop raises no error. */
  predicate RestoreClean(rel: Rel, w: WriteRecord) {
    && UndoClean(rel.file, w)
    && match w
       case InsertTuple(_, rid) => IsRecord(rel.file, rid) ==> Usable(rel.indexes, GetRecord(rel.file, rid).value)
       case DeleteTuple(_, _, prior) => Usable(rel.indexes, prior)
       case UpdateTuple(_, rid, prior) =>
         var now := GetRecord(rel.file, rid).value;
         && Usable(rel.indexes, prior) && !AnyDuplicate(rel.indexes, prior, Some(rid))
         && Usable(rel.indexes, now) && Usable(DeleteEntries(rel.indexes, now, rid), prior)
  }

  /** One iteration of abort()'s loop on the heap file and on the indexes. */
  function Restore(rel: Rel, w: WriteRecord): Rel
    requires RestoreClean(rel, w)
  {
    rel.(file := Undo(rel.file, w), indexes := RestoreIndexes(rel, w))
  }

  function RestoreIndexes(rel: Rel, w: WriteRecord): seq<Idx>
    requires RestoreClean(rel, w)
  {
    match w
    case InsertTuple(_, rid) =>
      if IsRecord(rel.file, rid) then DeleteEntries(rel.indexes, GetRecord(rel.file, rid).value, rid) else rel.indexes
    case DeleteTuple(_, rid, prior) => InsertEntries(rel.indexes, prior, rid)
    case UpdateTuple(_, rid, prior) =>
      InsertEntries(DeleteEntries(rel.indexes, GetRecord(rel.file, rid).value, rid), prior, rid)
  }

  /** A record that was in the table before cannot clash with the records that are still there. */
  lemma RestoredKeyFree(ix: Idx, t: Table, ix0: Idx, t0: Table, rid: Rid, self: Option<Rid>)
    requires Agrees(ix, t) && Agrees(ix0, t0) && ix.meta == ix0.meta && rid in t0
    requires self == Some(rid) || (self == None && rid !in t)
    requires forall r :: r in t && r != rid ==> r in t0 && t0[r] == t[r]
    ensures Fits(ix.meta, t0[rid]) && Wide(ix) && !Duplicate(ix, MakeKey(ix.meta, t0[rid]), self)
  {
    hide Cmp;
    hide Sorted;
    hide Fits;
    hide Duplicate;
    AgreesWide(ix, t);
    var key := MakeKey(ix.meta, t0[rid]);
    MakeKeyShaped(ix.meta, t0[rid]);
    DuplicateIff(ix, key, self);
    if Duplicate(ix, key, self) {
      var i :| 0 <= i < |ix.entries| && Cmp(ix.meta, ix.entries[i].key, key, |ix.meta|) == 0
        && Some(ix.entries[i].rid) != self;
      assert ix.entries[i] in ix.entries;
      KeysUnique(ix0, t0, ix.entries[i].rid, rid);
    }
  }

  lemma RestoredKeysFree(ixs: seq<Idx>, t: Table, ixs0: seq<Idx>, t0: Table, rid: Rid, self: Option<Rid>)
    requires IndexesAgree(ixs, t) && IndexesAgree(ixs0, t0) && SameMetas(ixs, ixs0) && rid in t0
    requires self == Some(rid) || (self == None && rid !in t)
    requires forall r :: r in t && r != rid ==> r in t0 && t0[r] == t[r]
    ensures Usable(ixs, t0[rid]) && !AnyDuplicate(ixs, t0[rid], self)
  {
    hide Agrees;
    hide Duplicate;
    hide Fits;
    hide Wide;
    forall i | 0 <= i < |ixs|
      ensures Fits(ixs[i].meta, t0[rid]) && Wide(ixs[i]) && !Duplicate(ixs[i], MakeKey(ixs[i].meta, t0[rid]), self)
    {
      RestoredKeyFree(ixs[i], t, ixs0[i], t0, rid, self);
    }
  }

  /** The relation with k further empty pages at the end of its file. */
  function Grown(rel: Rel, k: nat): Rel {
    rel.(file := Extend(rel.file, k))
  }

  lemma GrownContents(rel: Rel, k: nat)
    requires FileOk(rel.file)
    ensures FileOk(Grown(rel, k).file) && Contents(Grown(rel, k).file) == Contents(rel.file)
    ensures forall r :: GetRecord(Grown(rel, k).file, r) == Lookup(Contents(rel.file), r)
    ensures forall r :: IsRecord(Grown(rel, k).file, r) <==> r in Contents(rel.file)
  {
    hide Contents;
    hide FileOk;
    ExtendContents(rel.file, k);
    forall r
      ensures GetRecord(Grown(rel, k).file, r) == Lookup(Contents(rel.file), r)
    {
      ContentsAt(Grown(rel, k).file, r);
    }
    forall r ensures IsRecord(Grown(rel, k).file, r) <==> r in Contents(rel.file) { InContents(Grown(rel, k).file, r); }
  }

  /** The table changed only at rid. */
  ghost predicate OnlyAt(t: Table, t0: Table, rid: Rid) {
    forall r :: r != rid ==> (r in t <==> r in t0) && (r in t ==> t[r] == t0[r])
  }

  lemma UpdateRestores(ixs: seq<Idx>, t: Table, ixs0: seq<Idx>, t0: Table, rid: Rid)
    requires IndexesAgree(ixs, t) && IndexesAgree(ixs0, t0) && SameMetas(ixs, ixs0) && OnlyAt(t, t0, rid) && rid in t0
      && rid in t
    ensures Usable(ixs, t0[rid]) && !AnyDuplicate(ixs, t0[rid], Some(rid)) && Usable(ixs, t[rid])
    ensures Usable(DeleteEntries(ixs, t[rid], rid), t0[rid])
    ensures InsertEntries(DeleteEntries(ixs, t[rid], rid), t0[rid], rid) == ixs0
  {
    hide IndexesAgree;
    hide Usable;
    hide AnyDuplicate;
    RestoredKeysFree(ixs, t, ixs0, t0, rid, Some(rid));
    AgreeUsable(ixs, t, rid);
    UpdateEntriesAgree(ixs, t, t0[rid], rid);
    UpdateMetas(ixs, t[rid], t0[rid], rid);
    assert t[rid := t0[rid]] == t0;
    AgreementDeterminesAll(InsertEntries(DeleteEntries(ixs, t[rid], rid), t0[rid], rid), ixs0, t0);
  }

  lemma DeleteRestores(ixs: seq<Idx>, t: Table, ixs0: seq<Idx>, t0: Table, rid: Rid)
    requires IndexesAgree(ixs, t) && IndexesAgree(ixs0, t0) && SameMetas(ixs, ixs0) && OnlyAt(t, t0, rid) && rid in t0
      && rid !in t
    ensures Usable(ixs, t0[rid]) && InsertEntries(ixs, t0[rid], rid) == ixs0
  {
    hide IndexesAgree;
    hide Usable;
    hide AnyDuplicate;
    RestoredKeysFree(ixs, t, ixs0, t0, rid, None);
    InsertEntriesAgree(ixs, t, t0[rid], rid);
    InsertMetas(ixs, t0[rid], rid);
    assert t[rid := t0[rid]] == t0;
    AgreementDeterminesAll(InsertEntries(ixs, t0[rid], rid), ixs0, t0);
  }

  lemma InsertRestores(ixs: seq<Idx>, t: Table, ixs0: seq<Idx>, t0: Table, rid: Rid)
    requires IndexesAgree(ixs, t) && IndexesAgree(ixs0, t0) && SameMetas(ixs, ixs0) && OnlyAt(t, t0, rid) && rid !in t0
      && rid in t
    ensures Usable(ixs, t[rid]) && DeleteEntries(ixs, t[rid], rid) == ixs0
  {
    hide IndexesAgree;
    hide Usable;
    AgreeUsable(ixs, t, rid);
    DeleteEntriesAgree(ixs, t, rid);
    DeleteMetas(ixs, t[rid], rid);
    assert t - {rid} == t0;
    AgreementDeterminesAll(DeleteEntries(ixs, t[rid], rid), ixs0, t0);
  }

  /** The indexes part of one iteration: it raises no error and gives back the old index entries. */
  ghost predicate IndexesRestored(now: Rel, w: WriteRecord, ixs0: seq<Idx>)
    requires UndoClean(now.file, w)
  {
    RestoreClean(now, w) && RestoreIndexes(now, w) == ixs0
  }

  /** Contents before and after, and the record found by the rollback. */
  ghost predicate Reached(rel: Rel, a: Action, now: Rel, tab: TableName)
    requires Defined(rel.file, a)
  {
    var t := TableAfter(rel.file, a);
    && (forall r :: GetRecord(now.file, r) == Lookup(t, r)) && (forall r :: IsRecord(now.file, r) <==> r in t)
    && IndexesAgree(now.indexes, t) && IndexesAgree(rel.indexes, Contents(rel.file))
      && SameMetas(now.indexes, rel.indexes)
    && (a.InsertRow? ==> InsertRecord(rel.file, a.buf).1.value !in Contents(rel.file))
    && (!a.InsertRow? ==> a.rid in Contents(rel.file) && Contents(rel.file)[a.rid] == GetRecord(rel.file, a.rid).value)
    && UndoClean(now.file, Remember(rel.file, a, tab))
  }

  lemma IndexesRestoredInsert(rel: Rel, a: Action, now: Rel, tab: TableName)
    requires Defined(rel.file, a) && Reached(rel, a, now, tab) && a.InsertRow?
    ensures IndexesRestored(now, Remember(rel.file, a, tab), rel.indexes)
  {
    hide Contents;
    hide Usable;
    hide IndexesAgree;
    hide InsertRecord;
    hide IsRecord;
    hide SameMetas;
    var rid := InsertRecord(rel.file, a.buf).1.value;
    InsertRestores(now.indexes, TableAfter(rel.file, a), rel.indexes, Contents(rel.file), rid);
  }

  lemma IndexesRestoredDelete(rel: Rel, a: Action, now: Rel, tab: TableName)
    requires Defined(rel.file, a) && Reached(rel, a, now, tab) && a.DeleteRow?
    ensures IndexesRestored(now, Remember(rel.file, a, tab), rel.indexes)
  {
    hide Contents;
    hide Usable;
    hide IndexesAgree;
    hide IsRecord;
    hide SameMetas;
    DeleteRestores(now.indexes, TableAfter(rel.file, a), rel.indexes, Contents(rel.file), a.rid);
  }

  lemma IndexesRestoredUpdate(rel: Rel, a: Action, now: Rel, tab: TableName)
    requires Defined(rel.file, a) && Reached(rel, a, now, tab) && (a.UpdateRow? || a.UpdateRefused?)
    ensures IndexesRestored(now, Remember(rel.file, a, tab), rel.indexes)
  {
    hide Contents;
    hide Usable;
    hide IndexesAgree;
    hide AnyDuplicate;
    hide IsRecord;
    hide SameMetas;
    UpdateRestores(now.indexes, TableAfter(rel.file, a), rel.indexes, Contents(rel.file), a.rid);
  }

  /** Undoing one action, with any number of extra pages at the end of the file, restores the file and every index
      entry, up to the page that the action created. */
  lemma RestoreUndoes(rel: Rel, a: Action, k: nat, tab: TableName)
    requires RelOk(rel) && Applicable(rel, a) && RelOk(Execute(rel, a)) && SameMetas(Indexed(rel, a), rel.indexes)
    ensures var now, w := Execute(rel, a), Remember(rel.file, a, tab);
      && |rel.file.pages| <= |now.file.pages|
      && RestoreClean(Grown(now, k), w)
      && Restore(Grown(now, k), w) == Grown(rel, k + |now.file.pages| - |rel.file.pages|)
  {
    hide FileOk;
    hide Contents;
    hide Perform;
    hide Remember;
    hide TableAfter;
    hide RestoreClean;
    hide RestoreIndexes;
    hide IndexesAgree;
    hide InsertRecord;
    hide Extend;
    hide UndoClean;
    hide Undo;
    hide Indexed;
    hide IsRecord;
    hide SameMetas;
    var now := Execute(rel, a);
    UndoAction(rel.file, a, k, tab);
    PerformContents(rel.file, a);
    GrownContents(now, k);
    assert Reached(rel, a, Grown(now, k), tab);
    match a
    case InsertRow(_) => IndexesRestoredInsert(rel, a, Grown(now, k), tab);
    case DeleteRow(_) => IndexesRestoredDelete(rel, a, Grown(now, k), tab);
    case UpdateRow(_, _) => IndexesRestoredUpdate(rel, a, Grown(now, k), tab);
    case UpdateRefused(_) => IndexesRestoredUpdate(rel, a, Grown(now, k), tab);
  }

  // ---------------------------------------------------------------------- several tables

  type Db = map<TableName, Rel>

  ghost predicate DbOk(db: Db) { forall tab :: tab in db ==> RelOk(db[tab]) }

  /** No key is read past the end of a record: the executor, whatever it decides, is defined. */
  predicate Executes(rel: Rel, s: Stmt) {
    && (!s.DeleteStmt? ==> Usable(rel.indexes, s.buf))
    && (Decide(rel, s).Some? ==> Applicable(rel, Decide(rel, s).value))
  }

  lemma OkExecutes(rel: Rel, s: Stmt)
    requires RelOk(rel) && RightSize(rel, s)
    ensures Executes(rel, s)
  {
    hide RelOk;
    hide Execute;
    hide Applicable;
    hide Decide;
    ExecuteKeepsOk(rel, s);
  }

  /** The database and the rollback records after a statement on one row of one table. */
  function Step(db: Db, tab: TableName, s: Stmt): (Db, seq<WriteRecord>)
    requires tab in db && Executes(db[tab], s)
  {
    var d := Decide(db[tab], s);
    if d.None? then (db, [])
    else (db[tab := Execute(db[tab], d.value)], [Remember(db[tab].file, d.value, tab)])
  }

  /** Index and heap agree after every statement. */
  lemma StepKeepsDbOk(db: Db, tab: TableName, s: Stmt)
    requires DbOk(db) && tab in db && RightSize(db[tab], s)
    ensures Executes(db[tab], s) && DbOk(Step(db, tab, s).0)
  {
    hide RelOk;
    hide Execute;
    ExecuteKeepsOk(db[tab], s);
  }

  /** abort()'s loop: it pops the newest record, finds the table, and restores; None is an error on the way. */
  function RollBackDb(db: Db, ws: seq<WriteRecord>): Option<Db>
    decreases |ws|
  {
    if ws == [] then Some(db)
    else
      var w := ws[|ws| - 1];
      if w.tab !in db || !RestoreClean(db[w.tab], w) then None
      else RollBackDb(db[w.tab := Restore(db[w.tab], w)], ws[..|ws| - 1])
  }

  lemma UndoStmt(rel: Rel, s: Stmt, k: nat, tab: TableName)
    requires RelOk(rel) && RightSize(rel, s)
    ensures !s.DeleteStmt? ==> Usable(rel.indexes, s.buf)
    ensures Decide(rel, s).Some? ==> (
      var a := Decide(rel, s).value;
      && Applicable(rel, a)
      && Remember(rel.file, a, tab).tab == tab && |rel.file.pages| <= |Execute(rel, a).file.pages|
      && RestoreClean(Grown(Execute(rel, a), k), Remember(rel.file, a, tab))
      && Restore(Grown(Execute(rel, a), k), Remember(rel.file, a, tab))
         == Grown(rel, k + |Execute(rel, a).file.pages| - |rel.file.pages|))
  {
    hide RelOk;
    hide Execute;
    hide Grown;
    hide Restore;
    hide RestoreClean;
    hide Decide;
    hide Indexed;
    ExecuteKeepsOk(rel, s);
    if Decide(rel, s).Some? {
      ExecuteIndexes(rel, Decide(rel, s).value);
      RestoreUndoes(rel, Decide(rel, s).value, k, tab);
    }
  }

  lemma ExecuteIndexes(rel: Rel, a: Action)
    requires Applicable(rel, a)
    ensures Execute(rel, a).indexes == Indexed(rel, a)
  {
  }

  lemma StepKeys(db: Db, tab: TableName, s: Stmt)
    requires tab in db && Executes(db[tab], s)
    ensures Step(db, tab, s).0.Keys == db.Keys
  {
    hide Execute;
    hide Decide;
    hide Applicable;
    hide Usable;
  }

  /** Same index entries and same contents; the file has at most some further empty pages, and its free-page chain is
      the old chain followed by exactly those. */
  ghost predicate RestoredTo(back: Rel, rel: Rel) {
    && back.indexes == rel.indexes && back.recSize == rel.recSize
    && Contents(back.file) == Contents(rel.file) && FileOk(back.file)
    && |rel.file.pages| <= |back.file.pages| && back.file == Extend(rel.file, |back.file.pages| - |rel.file.pages|)
  }

  lemma GrownRestored(rel: Rel, k: nat)
    requires FileOk(Grown(rel, k).file) && Contents(Grown(rel, k).file) == Contents(rel.file)
    ensures RestoredTo(Grown(rel, k), rel)
  {
    hide Contents;
    hide FileOk;
  }
}
