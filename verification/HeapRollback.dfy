/** Rollback of one transaction's writes on a heap file (the loop of TransactionManager::abort,
    src/transaction/transaction_manager.cpp), with the physical free-page chain. */
module HeapRollback {
  import opened Types
  import opened Finite
  import opened Heap

  /** UpdateRefused is an update whose rollback record was appended before the unique-index check refused it. */
  datatype Action =
    | InsertRow(buf: Record)
    | DeleteRow(rid: Rid)
    | UpdateRow(rid: Rid, buf: Record)
    | UpdateRefused(rid: Rid)

  /** The executors read the record first, so a missing rid stops the statement before anything happens. */
  predicate Possible(f: File, a: Action) {
    a.InsertRow? || IsRecord(f, a.rid)
  }

  function Perform(f: File, a: Action): File
    requires Possible(f, a) && (f.free != [] ==> f.free[0] < |f.pages|)
  {
    match a
    case InsertRow(buf) => InsertRecord(f, buf).0
    case DeleteRow(rid) => DeleteRecord(f, rid).value
    case UpdateRow(rid, buf) => UpdateRecord(f, rid, buf).value
    case UpdateRefused(_) => f
  }

  /** The rollback record appended by the action. */
  function Remember(f: File, a: Action, tab: TableName): WriteRecord
    requires Possible(f, a) && (f.free != [] ==> f.free[0] < |f.pages|)
    requires a.InsertRow? ==> InsertRecord(f, a.buf).1.Some?
  {
    match a
    case InsertRow(buf) => InsertTuple(tab, InsertRecord(f, buf).1.value)
    case DeleteRow(rid) => DeleteTuple(tab, rid, GetRecord(f, rid).value)
    case UpdateRow(rid, _) => UpdateTuple(tab, rid, GetRecord(f, rid).value)
    case UpdateRefused(rid) => UpdateTuple(tab, rid, GetRecord(f, rid).value)
  }

  /** One iteration of abort()'s loop on the file. */
  function Undo(f: File, w: WriteRecord): File {
    match w
    case InsertTuple(_, rid) => if IsRecord(f, rid) then DeleteRecord(f, rid).value else f
    case DeleteTuple(_, rid, prior) => InsertAt(f, rid, prior).0
    case UpdateTuple(_, rid, prior) => if IsRecord(f, rid) then UpdateRecord(f, rid, prior).value else f
  }

  /** The iteration raises no error, and an insert that fills its page finds that page at the head of the chain. */
  predicate UndoClean(f: File, w: WriteRecord) {
    match w
    case InsertTuple(_, _) => true
    case DeleteTuple(_, rid, _) =>
      IsRid(f, rid) && !IsRecord(f, rid)
      && (|f.pages[rid.pageNo]| + 1 == f.cap ==> f.free != [] && f.free[0] == rid.pageNo)
    case UpdateTuple(_, rid, _) => IsRecord(f, rid)
  }

  /** The file with k further empty pages, all at the end of the file and of the chain. */
  function Extend(f: File, k: nat): File {
    File(f.cap, f.pages + seq(k, _ => map[]), f.free + seq(k, i => |f.pages| + i))
  }

  lemma ExtendOne(f: File, k: nat)
    ensures Extend(f.(pages := f.pages + [map[]], free := f.free + [|f.pages|]), k) == Extend(f, k + 1)
  {
    var g := f.(pages := f.pages + [map[]], free := f.free + [|f.pages|]);
    assert Extend(g, k).pages == Extend(f, k + 1).pages;
    assert Extend(g, k).free == Extend(f, k + 1).free;
  }

  lemma ExtendNone(f: File)
    ensures Extend(f, 0) == f
  {
    assert Extend(f, 0).pages == f.pages && Extend(f, 0).free == f.free;
  }

  lemma ExtendPage(f: File, k: nat, p: nat, page: map<nat, Record>)
    requires p < |f.pages|
    ensures Extend(f, k).pages[p] == f.pages[p]
    ensures Extend(f, k).pages[p := page] == Extend(f.(pages := f.pages[p := page]), k).pages
  {
    assert Extend(f, k).pages[p := page] == Extend(f.(pages := f.pages[p := page]), k).pages;
  }

  // ------------------------------------------------- undoing commutes with the extra pages

  lemma DeleteExtended(h: File, rid: Rid, k: nat)
    requires FileOk(h) && IsRecord(h, rid)
    ensures DeleteRecord(Extend(h, k), rid) == Some(Extend(DeleteRecord(h, rid).value, k))
  {
    var p := rid.pageNo;
    var page: map<nat, Record> := h.pages[p] - {rid.slotNo};
    ExtendPage(h, k, p, page);
    if Full(h, p) {
      NotAtHead(h, k, p);
      NotAtHead(h, 0, p);
      ExtendNone(h);
      assert [p as nat] + Extend(h, k).free == Extend(h.(free := [p as nat] + h.free), k).free;
    }
  }

  lemma InsertAtExtended(h: File, rid: Rid, buf: Record, k: nat)
    requires IsRid(h, rid) && !IsRecord(h, rid)
    requires |h.pages[rid.pageNo]| + 1 == h.cap ==> h.free != [] && h.free[0] == rid.pageNo
    ensures InsertAt(Extend(h, k), rid, buf).0 == Extend(InsertAt(h, rid, buf).0, k)
  {
    var p := rid.pageNo;
    var page: map<nat, Record> := h.pages[p][rid.slotNo := buf];
    ExtendPage(h, k, p, page);
    assert page.Keys == h.pages[p].Keys + {rid.slotNo};
    if |page| == h.cap {
      assert Extend(h, k).free[1..] == Extend(h.(free := h.free[1..]), k).free;
    }
  }

  lemma UpdateExtended(h: File, rid: Rid, buf: Record, k: nat)
    requires IsRecord(h, rid)
    ensures UpdateRecord(Extend(h, k), rid, buf) == Some(Extend(UpdateRecord(h, rid, buf).value, k))
  {
    var page: map<nat, Record> := h.pages[rid.pageNo][rid.slotNo := buf];
    ExtendPage(h, k, rid.pageNo, page);
  }

  /** A full page is not at the head of the extended chain. */
  lemma NotAtHead(h: File, k: nat, p: nat)
    requires FileOk(h) && p < |h.pages| && Full(h, p)
    ensures var free := Extend(h, k).free; free != [] ==> free[0] != p
  {
    assert p !in h.free;
    if h.free != [] { assert h.free[0] in h.free; }
  }

  // ----------------------------------------------------------------------- one action

  lemma DeleteUndone(f: File, rid: Rid)
    requires FileOk(f) && IsRecord(f, rid)
    ensures var h, v := DeleteRecord(f, rid).value, GetRecord(f, rid).value;
      && IsRid(h, rid) && !IsRecord(h, rid)
      && (|h.pages[rid.pageNo]| + 1 == h.cap ==> h.free != [] && h.free[0] == rid.pageNo)
      && InsertAt(h, rid, v).0 == f
  {
    var p, s, v := rid.pageNo, rid.slotNo, GetRecord(f, rid).value;
    var h := DeleteRecord(f, rid).value;
    PageSize(f.pages[p], f.cap);
    assert h.pages[p].Keys == f.pages[p].Keys - {s};
    assert |h.pages[p]| == |f.pages[p]| - 1;
    var page: map<nat, Record> := h.pages[p][s := v];
    assert page == f.pages[p];
    assert h.pages[p := page] == f.pages;
    if Full(f, p) {
      NotAtHead(f, 0, p);
      ExtendNone(f);
      assert h.free[1..] == f.free;
    }
  }

  lemma UpdateUndone(f: File, rid: Rid, now: Record)
    requires IsRecord(f, rid)
    ensures var h := PutSlot(f, rid.pageNo, rid.slotNo, now);
      IsRecord(h, rid) && UpdateRecord(h, rid, GetRecord(f, rid).value) == Some(f)
  {
    var p, s, v := rid.pageNo, rid.slotNo, GetRecord(f, rid).value;
    var h := PutSlot(f, p, s, now);
    var page: map<nat, Record> := h.pages[p][s := v];
    assert page == f.pages[p];
    assert h.pages[p := page] == f.pages;
  }

  lemma InsertShape(f: File, buf: Record) returns (p: nat, s: nat)
    requires FileOk(f) && f.free != []
    ensures f.free[0] < |f.pages| && p == f.free[0] && InsertRecord(f, buf).1 == Some(Rid(p, s))
    ensures s < f.cap && s !in f.pages[p] && FileOk(InsertRecord(f, buf).0)
    ensures InsertRecord(f, buf).0 ==
            PutSlot(f, p, s, buf).(free := if |f.pages[p]| + 1 == f.cap then f.free[1..] else f.free)
    ensures |PutSlot(f, p, s, buf).pages[p]| == |f.pages[p]| + 1
  {
    hide FirstClear;
    InsertHeadOk(f, buf);
    p, s := f.free[0], FirstClear(f.pages[f.free[0]], f.cap, 0);
    assert p in f.free;
    assert PutSlot(f, p, s, buf).pages[p].Keys == f.pages[p].Keys + {s};
  }

  /** Undoing an insert that went to the head of the chain. */
  lemma InsertUndone(f: File, buf: Record)
    requires FileOk(f) && f.free != []
    ensures f.free[0] < |f.pages| && InsertRecord(f, buf).1.Some?
    ensures var (h, rid) := InsertRecord(f, buf); IsRecord(h, rid.value) && DeleteRecord(h, rid.value) == Some(f)
  {
    hide FirstClear;
    hide InsertRecord;
    var p, s := InsertShape(f, buf);
    var h := InsertRecord(f, buf).0;
    var page: map<nat, Record> := h.pages[p] - {s};
    assert page == f.pages[p];
    assert h.pages[p := page] == f.pages;
    assert p in f.free;
    if Full(h, p) {
      NotAtHead(h, 0, p);
      ExtendNone(h);
      assert [p] + h.free == f.free;
    }
  }

  /** Undoing the action, with any number of extra pages at the end, gives back the file with those extra pages and the
      one the action created, if it created one. */
  ghost predicate Undone(f: File, g: File, w: WriteRecord, k: nat) {
    && |f.pages| <= |g.pages| <= |f.pages| + 1
    && UndoClean(Extend(g, k), w) && Undo(Extend(g, k), w) == Extend(f, k + |g.pages| - |f.pages|)
  }

  lemma UndoneInsert(f: File, buf: Record, k: nat, tab: TableName)
    requires FileOk(f)
    ensures f.free != [] ==> f.free[0] < |f.pages|
    ensures var (g, rid) := InsertRecord(f, buf); rid.Some? && FileOk(g) && Undone(f, g, InsertTuple(tab, rid.value), k)
  {
    hide FirstClear;
    hide DeleteRecord;
    hide InsertRecord;
    hide Contents;
    InsertOk(f, buf);
    var (g, rid) := InsertRecord(f, buf);
    var h := if f.free == [] then CreatePage(f) else f;
    if f.free == [] {
      CreatePageOk(f);
      InsertAfterCreate(f, buf);
    }
    InsertUndone(h, buf);
    var p, s := InsertShape(h, buf);
    DeleteExtended(g, rid.value, k);
    if f.free == [] {
      ExtendOne(f, k);
      assert CreatePage(f).free == f.free + [|f.pages|];
    }
    ExtendedRecord(g, rid.value, k);
  }

  lemma InsertAfterCreate(f: File, buf: Record)
    requires f.free == []
    ensures InsertRecord(f, buf) == InsertRecord(CreatePage(f), buf)
  {
  }

  lemma ExtendedRecord(f: File, rid: Rid, k: nat)
    requires IsRid(f, rid)
    ensures IsRid(Extend(f, k), rid) && (IsRecord(Extend(f, k), rid) <==> IsRecord(f, rid))
    ensures Extend(f, k).pages[rid.pageNo] == f.pages[rid.pageNo]
  {
  }

  lemma UndoneDelete(f: File, rid: Rid, k: nat, tab: TableName)
    requires FileOk(f) && IsRecord(f, rid)
    ensures FileOk(DeleteRecord(f, rid).value)
    ensures Undone(f, DeleteRecord(f, rid).value, DeleteTuple(tab, rid, GetRecord(f, rid).value), k)
  {
    hide InsertAt;
    DeleteKeeps(f, rid);
    DeleteUndone(f, rid);
    var h := DeleteRecord(f, rid).value;
    InsertAtExtended(h, rid, GetRecord(f, rid).value, k);
    ExtendedRecord(h, rid, k);
    assert h.free != [] ==> Extend(h, k).free[0] == h.free[0];
  }

  lemma UndoneUpdate(f: File, rid: Rid, now: Record, k: nat, tab: TableName)
    requires FileOk(f) && IsRecord(f, rid)
    ensures Undone(f, PutSlot(f, rid.pageNo, rid.slotNo, now), UpdateTuple(tab, rid, GetRecord(f, rid).value), k)
  {
    hide UpdateRecord;
    UpdateUndone(f, rid, now);
    var h := PutSlot(f, rid.pageNo, rid.slotNo, now);
    UpdateExtended(h, rid, GetRecord(f, rid).value, k);
    ExtendedRecord(h, rid, k);
  }

  lemma UndoAction(f: File, a: Action, k: nat, tab: TableName)
    requires FileOk(f) && Possible(f, a)
    ensures f.free != [] ==> f.free[0] < |f.pages|
    ensures FileOk(Perform(f, a)) && (a.InsertRow? ==> InsertRecord(f, a.buf).1.Some?)
    ensures Undone(f, Perform(f, a), Remember(f, a, tab), k)
  {
    hide Undone;
    hide InsertRecord;
    hide DeleteRecord;
    HeadInRange(f);
    match a
    case InsertRow(buf) => UndoneInsert(f, buf, k, tab);
    case DeleteRow(rid) => UndoneDelete(f, rid, k, tab);
    case UpdateRow(rid, buf) => UpdateOk(f, rid, buf); UndoneUpdate(f, rid, buf, k, tab);
    case UpdateRefused(rid) => PutSame(f, rid); UndoneUpdate(f, rid, GetRecord(f, rid).value, k, tab);
  }

  lemma HeadInRange(f: File)
    requires FileOk(f)
    ensures f.free != [] ==> f.free[0] < |f.pages|
  {
    assert f.free != [] ==> f.free[0] in f.free;
  }

  lemma PutSame(f: File, rid: Rid)
    requires IsRecord(f, rid)
    ensures PutSlot(f, rid.pageNo, rid.slotNo, GetRecord(f, rid).value) == f
  {
    var page: map<nat, Record> := f.pages[rid.pageNo][rid.slotNo := GetRecord(f, rid).value];
    assert page == f.pages[rid.pageNo];
  }

  /** The action raises no error. */
  predicate Defined(f: File, a: Action) {
    && Possible(f, a) && (f.free != [] ==> f.free[0] < |f.pages|)
    && (a.InsertRow? ==> InsertRecord(f, a.buf).1.Some?)
  }

  lemma ExtendContents(f: File, k: nat)
    requires FileOk(f)
    ensures FileOk(Extend(f, k)) && Contents(Extend(f, k)) == Contents(f)
  {
    hide Contents;
    ExtendOk(f, k);
    var g := Extend(f, k);
    forall r ensures GetRecord(g, r) == Lookup(Contents(f), r) { ContentsAt(f, r); }
    SameContents(g, Contents(f));
  }

  lemma {:induction false} ExtendOk(f: File, k: nat)
    requires FileOk(f)
    ensures FileOk(Extend(f, k))
  {
    var g := Extend(f, k);
    assert forall p :: p in g.free <==> p in f.free || |f.pages| <= p < |f.pages| + k by {
      forall p: nat | |f.pages| <= p < |f.pages| + k ensures p in g.free {
        assert g.free[|f.free| + p - |f.pages|] == p;
      }
    }
    forall i, j | 0 <= i < j < |g.free| ensures g.free[i] != g.free[j] {
      if i < |f.free| { assert g.free[i] in f.free; }
    }
    forall p, s | 0 <= p < |g.pages| && s in g.pages[p] ensures s < g.cap { assert p < |f.pages|; }
  }
}
