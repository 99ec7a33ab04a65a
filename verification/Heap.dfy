/** The heap file of a table (src/record/rm_file_handle.cpp): data pages with slots, and the list of pages that
    still have a free slot. Page 0 is the file header and holds no records. */
module Heap {
  import opened Types
  import opened Finite

  /** pages[p] maps the occupied slots of page p to their bytes; free is the chain from first_free_page_no. */
  datatype File = File(cap: nat, pages: seq<map<nat, Record>>, free: seq<nat>)

  // ------------------------------------------------------------------------ operations

  predicate IsRid(f: File, rid: Rid) {
    1 <= rid.pageNo < |f.pages| && 0 <= rid.slotNo < f.cap
  }

  predicate IsRecord(f: File, rid: Rid) {
    IsRid(f, rid) && rid.slotNo in f.pages[rid.pageNo]
  }

  function GetRecord(f: File, rid: Rid): Option<Record> {
    if IsRecord(f, rid) then Some(f.pages[rid.pageNo][rid.slotNo]) else None
  }

  /** create_new_page_handle: an empty page at the end of the file and at the head of the free chain. */
  function CreatePage(f: File): File {
    f.(pages := f.pages + [map[]], free := [|f.pages|] + f.free)
  }

  /** Bitmap::first_bit(false, ...), from a given slot. */
  function FirstClear(page: map<nat, Record>, cap: nat, from: nat): (s: nat)
    requires from <= cap
    ensures from <= s <= cap && (s < cap ==> s !in page)
    ensures forall i: nat :: from <= i < s ==> i in page
    decreases cap - from
  {
    if from == cap || from !in page then from else FirstClear(page, cap, from + 1)
  }

  function PutSlot(f: File, p: nat, s: nat, buf: Record): File
    requires p < |f.pages|
  {
    var page: map<nat, Record> := f.pages[p][s := buf];
    f.(pages := f.pages[p := page])
  }

  function ClearSlot(f: File, p: nat, s: nat): File
    requires p < |f.pages|
  {
    var page: map<nat, Record> := f.pages[p] - {s};
    f.(pages := f.pages[p := page])
  }

  predicate Full(f: File, p: nat)
    requires p < |f.pages|
  {
    |f.pages[p]| == f.cap
  }

  /** insert_record(buf): None is the "no free slot" error. */
  function InsertRecord(f0: File, buf: Record): (File, Option<Rid>)
    requires f0.free != [] ==> f0.free[0] < |f0.pages|
  {
    var f := if f0.free == [] then CreatePage(f0) else f0;
    var p := f.free[0];
    var s := FirstClear(f.pages[p], f.cap, 0);
    if s >= f.cap then (f, None)
    else
      var g := PutSlot(f, p, s, buf);
      (if Full(g, p) then g.(free := g.free[1..]) else g, Some(Rid(p, s)))
  }

  /** The page-creating loop of insert_record(rid, buf). */
  function Grow(f: File, pageNo: nat): (g: File)
    ensures pageNo < |g.pages| && g.cap == f.cap && |f.pages| <= |g.pages|
    decreases pageNo + 1 - |f.pages|
  {
    if pageNo < |f.pages| then f else Grow(CreatePage(f), pageNo)
  }

  /** The chain when page p, wherever it is, gets the end-of-list marker as its successor. */
  function CutAfter(free: seq<nat>, p: nat): seq<nat> {
    if free == [] then [] else if free[0] == p then [p] else [free[0]] + CutAfter(free[1..], p)
  }

  /** insert_record(rid, buf): false is an error (bad rid, or slot taken). */
  function InsertAt(f0: File, rid: Rid, buf: Record): (File, bool) {
    if rid.pageNo < 1 || rid.slotNo < 0 || rid.slotNo >= f0.cap then (f0, false)
    else
      var f := Grow(f0, rid.pageNo);
      var p, s := rid.pageNo, rid.slotNo;
      if s in f.pages[p] then (f, false)
      else
        var g := PutSlot(f, p, s, buf);
        (if !Full(g, p) then g
         else if g.free != [] && g.free[0] == p then g.(free := g.free[1..])
         else g.(free := CutAfter(g.free, p)), true)
  }

  /** delete_record: None is RecordNotFoundError. */
  function DeleteRecord(f: File, rid: Rid): Option<File> {
    if !IsRecord(f, rid) then None
    else
      var p := rid.pageNo;
      var g := ClearSlot(f, p, rid.slotNo);
      Some(if Full(f, p) && !(f.free != [] && f.free[0] == p) then g.(free := [p as nat] + f.free) else g)
  }

  function UpdateRecord(f: File, rid: Rid, buf: Record): Option<File> {
    if !IsRecord(f, rid) then None else Some(PutSlot(f, rid.pageNo, rid.slotNo, buf))
  }

  // ------------------------------------------------------------------------- invariant

  /** The chain holds exactly the data pages with a free slot, each once. */
  ghost predicate FileOk(f: File) {
    && f.cap >= 1 && |f.pages| >= 1 && f.pages[0] == map[]
    && (forall p, s :: 0 <= p < |f.pages| && s in f.pages[p] ==> s < f.cap)
    && Distinct(f.free)
    && (forall p :: p in f.free <==> 1 <= p < |f.pages| && |f.pages[p]| < f.cap)
  }

  lemma PageSize(page: map<nat, Record>, cap: nat)
    requires forall s :: s in page ==> s < cap
    ensures |page| <= cap
    ensures |page| < cap <==> FirstClear(page, cap, 0) < cap
  {
    SubsetSize(page.Keys, Below(cap));
    var s := FirstClear(page, cap, 0);
    if s < cap {
      SubsetSize(page.Keys, Below(cap) - {s});
    } else {
      SubsetSize(Below(cap), page.Keys);
    }
  }

  lemma CreatePageOk(f: File)
    requires FileOk(f)
    ensures FileOk(CreatePage(f))
  {
    var g := CreatePage(f);
    assert |f.pages| !in f.free;
    assert forall p :: p in g.free <==> p == |f.pages| || p in f.free;
    forall p, s | 0 <= p < |g.pages| && s in g.pages[p] ensures s < g.cap {
      assert p < |f.pages|;
    }
  }

  /** The contents of a file as the abstract interface sees it. */
  ghost function Rids(f: File): set<Rid> {
    set p, s | 1 <= p < |f.pages| && s in f.pages[p] :: Rid(p, s)
  }

  ghost function Contents(f: File): Table {
    map rid | rid in Rids(f) :: f.pages[rid.pageNo][rid.slotNo]
  }

  lemma ContentsAt(f: File, rid: Rid)
    requires FileOk(f)
    ensures Lookup(Contents(f), rid) == GetRecord(f, rid)
  {
    if IsRecord(f, rid) { assert rid in Rids(f); }
  }

  lemma SameContents(f: File, g: Table)
    requires FileOk(f) && forall rid :: GetRecord(f, rid) == Lookup(g, rid)
    ensures Contents(f) == g
  {
    forall rid ensures Lookup(Contents(f), rid) == Lookup(g, rid) { ContentsAt(f, rid); }
    assert forall rid :: rid in g <==> Lookup(g, rid).Some?;
    assert forall rid :: rid in Contents(f) <==> Lookup(Contents(f), rid).Some?;
    assert forall rid :: rid in g ==> Lookup(Contents(f), rid) == Some(g[rid]);
  }

  lemma PutSlotContents(f: File, p: nat, s: nat, buf: Record)
    requires FileOk(f) && 1 <= p < |f.pages| && s < f.cap
    ensures forall rid :: GetRecord(PutSlot(f, p, s, buf), rid) == if rid == Rid(p, s) then Some(buf)
      else GetRecord(f, rid)
  {
  }

  /** insert_record(buf) never hits the "no free slot" error; it keeps the chain invariant and adds exactly one
      record, at a rid that held none. */
  lemma InsertOk(f: File, buf: Record)
    requires FileOk(f)
    ensures f.free != [] ==> f.free[0] < |f.pages|
    ensures var (g, rid) := InsertRecord(f, buf);
      && rid.Some? && FileOk(g) && rid.value !in Contents(f)
      && Contents(g) == Contents(f)[rid.value := buf]
  {
    hide Contents;
    hide FirstClear;
    assert f.free != [] ==> f.free[0] in f.free;
    if f.free == [] { CreatePageOk(f); }
    var h := if f.free == [] then CreatePage(f) else f;
    SameAfterCreate(f, h);
    InsertHead(h, buf);
    var (g, rid) := InsertRecord(f, buf);
    forall r ensures GetRecord(g, r) == Lookup(Contents(f)[rid.value := buf], r) {
      ContentsAt(f, r);
    }
    ContentsAt(f, rid.value);
    SameContents(g, Contents(f)[rid.value := buf]);
  }

  /** Where insert_record(buf) puts the record: in the lowest free slot of the page at the head of the chain, or of a
      new page at the end of the file when no page has a free slot. */
  lemma InsertPlace(f: File, buf: Record)
    requires FileOk(f)
    ensures f.free != [] ==> f.free[0] < |f.pages|
    ensures var rid := InsertRecord(f, buf).1;
      && rid.Some? && rid.value.slotNo >= 0
      && (if forall p :: 1 <= p < |f.pages| ==> |f.pages[p]| == f.cap then rid.value == Rid(|f.pages|, 0)
          else f.free != [] && rid.value.pageNo == f.free[0]
               && forall s :: 0 <= s < rid.value.slotNo ==> IsRecord(f, Rid(f.free[0], s)))
  {
    hide Contents;
    InsertOk(f, buf);
    forall p | 1 <= p < |f.pages| ensures |f.pages[p]| <= f.cap { PageSize(f.pages[p], f.cap); }
    if f.free == [] {
      assert forall p :: 1 <= p < |f.pages| ==> p !in f.free;
    } else {
      assert f.free[0] in f.free;
    }
  }

  lemma SameAfterCreate(f: File, h: File)
    requires FileOk(f) && (h == f || h == CreatePage(f))
    ensures forall r :: GetRecord(h, r) == GetRecord(f, r)
  {
  }

  /** A change confined to one data page and its membership in the chain. */
  lemma OnePageChanged(f: File, g: File, p: nat)
    requires FileOk(f) && 1 <= p < |f.pages| && g.cap == f.cap && |g.pages| == |f.pages|
    requires forall q :: 0 <= q < |f.pages| && q != p ==> g.pages[q] == f.pages[q]
    requires forall s :: s in g.pages[p] ==> s < f.cap
    requires Distinct(g.free)
    requires forall q :: q in g.free <==> if q == p then |g.pages[p]| < f.cap else q in f.free
    ensures FileOk(g)
  {
  }

  lemma InsertHeadOk(h: File, buf: Record)
    requires FileOk(h) && h.free != []
    ensures h.free[0] < |h.pages|
    ensures InsertRecord(h, buf).1.Some? && FileOk(InsertRecord(h, buf).0)
  {
    hide FirstClear;
    var p := h.free[0];
    assert p in h.free;
    PageSize(h.pages[p], h.cap);
    var s := FirstClear(h.pages[p], h.cap, 0);
    var g := PutSlot(h, p, s, buf);
    assert g.pages[p].Keys == h.pages[p].Keys + {s};
    assert |g.pages[p]| == |h.pages[p]| + 1;
    DistinctTail(h.free);
    OnePageChanged(h, InsertRecord(h, buf).0, p);
  }

  lemma InsertHead(h: File, buf: Record)
    requires FileOk(h) && h.free != []
    ensures h.free[0] < |h.pages|
    ensures var (g, rid) := InsertRecord(h, buf);
      && rid.Some? && FileOk(g) && GetRecord(h, rid.value).None?
      && (forall r :: GetRecord(g, r) == if r == rid.value then Some(buf) else GetRecord(h, r))
  {
    hide FirstClear;
    InsertHeadOk(h, buf);
    var p := h.free[0];
    assert p in h.free;
    PutSlotContents(h, p, FirstClear(h.pages[p], h.cap, 0), buf);
  }

  /** delete_record fails exactly on a missing record; otherwise it keeps the invariant and removes that record. */
  lemma DeleteOk(f: File, rid: Rid)
    requires FileOk(f)
    ensures DeleteRecord(f, rid).None? <==> rid !in Contents(f)
    ensures DeleteRecord(f, rid).Some? ==>
            FileOk(DeleteRecord(f, rid).value) && Contents(DeleteRecord(f, rid).value) == Contents(f) - {rid}
  {
    hide Contents;
    InContents(f, rid);
    if DeleteRecord(f, rid).Some? {
      DeleteKeeps(f, rid);
      var g := DeleteRecord(f, rid).value;
      forall r ensures GetRecord(g, r) == Lookup(Contents(f) - {rid}, r) {
        ContentsAt(f, r);
        DeletedAt(f, rid, r);
      }
      SameContents(g, Contents(f) - {rid});
    }
  }

  lemma InContents(f: File, rid: Rid)
    requires FileOk(f)
    ensures rid in Contents(f) <==> IsRecord(f, rid)
  {
    ContentsAt(f, rid);
  }

  lemma DeletedAt(f: File, rid: Rid, r: Rid)
    requires DeleteRecord(f, rid).Some?
    ensures GetRecord(DeleteRecord(f, rid).value, r) == if r == rid then None else GetRecord(f, r)
  {
  }

  lemma DeleteKeeps(f: File, rid: Rid)
    requires FileOk(f) && DeleteRecord(f, rid).Some?
    ensures FileOk(DeleteRecord(f, rid).value)
  {
    var g, p := DeleteRecord(f, rid).value, rid.pageNo;
    PageSize(f.pages[p], f.cap);
    assert g.pages[p].Keys == f.pages[p].Keys - {rid.slotNo};
    assert |g.pages[p]| == |f.pages[p]| - 1;
    assert forall q :: q in [p as nat] + f.free <==> q == p || q in f.free;
    OnePageChanged(f, g, p);
  }

  lemma UpdateOk(f: File, rid: Rid, buf: Record)
    requires FileOk(f)
    ensures UpdateRecord(f, rid, buf).None? <==> rid !in Contents(f)
    ensures UpdateRecord(f, rid, buf).Some? ==>
            FileOk(UpdateRecord(f, rid, buf).value)
              && Contents(UpdateRecord(f, rid, buf).value) == Contents(f)[rid := buf]
  {
    hide Contents;
    InContents(f, rid);
    if UpdateRecord(f, rid, buf).Some? {
      var g, p := UpdateRecord(f, rid, buf).value, rid.pageNo;
      assert g.pages[p].Keys == f.pages[p].Keys;
      assert |g.pages[p]| == |g.pages[p].Keys| && |f.pages[p]| == |f.pages[p].Keys|;
      OnePageChanged(f, g, p);
      PutSlotContents(f, p, rid.slotNo, buf);
      forall r ensures GetRecord(g, r) == Lookup(Contents(f)[rid := buf], r) { ContentsAt(f, r); }
      SameContents(g, Contents(f)[rid := buf]);
    }
  }

  // -------------------------------------------------- restoring inserts and where they go wrong

  lemma InsertAtExisting(f: File, rid: Rid, buf: Record)
    requires FileOk(f) && IsRid(f, rid) && !IsRecord(f, rid)
    ensures InsertAt(f, rid, buf).1
    ensures FileOk(InsertAt(f, rid, buf).0) <==>
            (|f.pages[rid.pageNo]| + 1 == f.cap ==> f.free != [] && f.free[0] == rid.pageNo)
  {
    hide FirstClear;
    var g, p, s := InsertAt(f, rid, buf).0, rid.pageNo, rid.slotNo;
    assert g.pages[p].Keys == f.pages[p].Keys + {s};
    assert |g.pages[p]| == |f.pages[p]| + 1;
    PageSize(g.pages[p], f.cap);
    DistinctIfAny(f.free);
    if |f.pages[p]| + 1 == f.cap && !(f.free != [] && f.free[0] == p) {
      CutKeeps(f.free, p);
      assert p in g.free;
    } else {
      OnePageChanged(f, g, p);
    }
  }

  /** The pages that insert_record(rid, buf) creates: the last of them is the one it needs, and heads the chain. */
  lemma {:induction false} GrowOk(f: File, pageNo: nat)
    requires FileOk(f)
    ensures FileOk(Grow(f, pageNo))
    ensures pageNo >= |f.pages| ==>
      var g := Grow(f, pageNo);
      |g.pages| == pageNo + 1 && g.pages[pageNo] == map[] && g.free != [] && g.free[0] == pageNo
    decreases pageNo + 1 - |f.pages|
  {
    if pageNo < |f.pages| {
    } else {
      CreatePageOk(f);
      GrowOk(CreatePage(f), pageNo);
    }
  }

  /** Whether the record slot is on an existing page or on one that the call creates: the restoring insert keeps the
      invariant if and only if it does not fill an existing page other than the head of the chain. Otherwise the filled
      page stays on the chain and every page after it is lost. */
  lemma InsertAtKeepsIff(f: File, rid: Rid, buf: Record)
    requires FileOk(f) && rid.pageNo >= 1 && 0 <= rid.slotNo < f.cap && !IsRecord(f, rid)
    ensures InsertAt(f, rid, buf).1
    ensures FileOk(InsertAt(f, rid, buf).0) <==>
            (rid.pageNo < |f.pages| && |f.pages[rid.pageNo]| + 1 == f.cap ==> f.free != [] && f.free[0] == rid.pageNo)
  {
    hide FileOk;
    var g := Grow(f, rid.pageNo);
    GrowOk(f, rid.pageNo);
    InsertAtExisting(g, rid, buf);
    assert InsertAt(f, rid, buf) == InsertAt(g, rid, buf);
  }

  /** Whatever happens to the chain, a restoring insert puts its record back and touches no other. */
  lemma InsertAtContents(f: File, rid: Rid, buf: Record, r: Rid)
    requires InsertAt(f, rid, buf).1
    ensures GetRecord(InsertAt(f, rid, buf).0, r) == if r == rid then Some(buf) else GetRecord(f, r)
  {
    GrowContents(f, rid.pageNo, r);
  }

  lemma {:induction false} GrowContents(f: File, pageNo: nat, r: Rid)
    ensures GetRecord(Grow(f, pageNo), r) == GetRecord(f, r)
    decreases pageNo + 1 - |f.pages|
  {
    if pageNo < |f.pages| {
    } else {
      GrowContents(CreatePage(f), pageNo, r);
    }
  }

  lemma DistinctIfAny(s: seq<nat>)
    requires Distinct(s)
    ensures s != [] ==> Distinct(s[1..]) && forall x :: x in s[1..] <==> x in s && x != s[0]
  {
    if s != [] { DistinctTail(s); }
  }

  lemma {:induction false} CutKeeps(free: seq<nat>, p: nat)
    requires p in free
    ensures p in CutAfter(free, p)
  {
    if free[0] == p {
    } else {
      CutKeeps(free[1..], p);
    }
  }

  /** A page whose first n slots are taken. */
  function Filled(n: nat, a: Record): (page: map<nat, Record>)
    ensures page.Keys == Below(n) && |page| == n
  {
    if n == 0 then map[]
    else
      var page: map<nat, Record> := Filled(n - 1, a)[n - 1 := a];
      assert page.Keys == Filled(n - 1, a).Keys + {n - 1};
      page
  }

  /** A page with one free slot, the last. */
  function AlmostFull(cap: nat, a: Record): (page: map<nat, Record>)
    requires cap >= 1
    ensures page.Keys == Below(cap - 1) && |page| == cap - 1
  {
    Filled(cap - 1, a)
  }

  lemma {:induction false} OneSlotLeft(page: map<nat, Record>, cap: nat, from: nat)
    requires cap >= 1 && page.Keys == Below(cap - 1) && from <= cap - 1
    ensures FirstClear(page, cap, from) == cap - 1
    decreases cap - from
  {
    if from == cap - 1 {
    } else {
      OneSlotLeft(page, cap, from + 1);
    }
  }

  /** Two data pages with one free slot each, for any number of slots per page, and the chain [2, 1]. */
  function TwoAlmostFull(cap: nat, a: Record): File
    requires cap >= 1
  {
    File(cap, [map[], AlmostFull(cap, a), AlmostFull(cap, a)], [2, 1])
  }

  lemma TwoAlmostFullOk(cap: nat, a: Record)
    requires cap >= 1
    ensures FileOk(TwoAlmostFull(cap, a))
  {
    hide AlmostFull;
    hide Below;
    var f := TwoAlmostFull(cap, a);
    assert f.free[1] == 1 && f.free[0] == 2;
    forall p ensures p in f.free <==> 1 <= p < 3 && |f.pages[p]| < f.cap { }
  }

  /** The next insert puts its record at rid and leaves the chain `free`, and the one after it fails. */
  ghost predicate FailsAfter(g: File, a: Record, rid: Rid, free: seq<nat>) {
    && (g.free != [] ==> g.free[0] < |g.pages|)
    && var (h, r) := InsertRecord(g, a);
    && r == Some(rid) && h.free == free && (h.free != [] ==> h.free[0] < |h.pages|) && InsertRecord(h, a).1 == None
  }

  /** A concrete failure, for every number of slots per page: restoring the last record of page 1 fills it while page 2
      heads the chain, so page 1 stays on the chain; once page 2 is filled too, the next insert reports that there is no
      free slot. */
  lemma RestoringInsertBreaksChain(cap: nat, a: Record)
    requires cap >= 1
    ensures FileOk(TwoAlmostFull(cap, a))
    ensures var g := InsertAt(TwoAlmostFull(cap, a), Rid(1, cap - 1), a).0;
      !FileOk(g) && g.free == [2, 1] && FailsAfter(g, a, Rid(2, cap - 1), [1])
  {
    hide FirstClear;
    hide AlmostFull;
    hide Below;
    hide FailsAfter;
    var f := TwoAlmostFull(cap, a);
    TwoAlmostFullOk(cap, a);
    InsertAtKeepsIff(f, Rid(1, cap - 1), a);
    FillLast(AlmostFull(cap, a), cap, a);
    assert CutAfter([2, 1], 1) == [2, 1] by { assert [2, 1][1..] == [1]; }
    ThenFails(cap, a, InsertAt(f, Rid(1, cap - 1), a).0);
  }

  lemma ThenFails(cap: nat, a: Record, g: File)
    requires cap >= 1
    requires g == File(cap, [map[], AlmostFull(cap, a)[cap - 1 := a], AlmostFull(cap, a)], [2, 1])
    ensures FailsAfter(g, a, Rid(2, cap - 1), [1])
  {
    hide FirstClear;
    hide AlmostFull;
    hide Below;
    FillLast(AlmostFull(cap, a), cap, a);
    OneSlotLeft(AlmostFull(cap, a), cap, 0);
    var (h, _) := InsertRecord(g, a);
    assert g.free[1..] == [1] && h.pages[1] == AlmostFull(cap, a)[cap - 1 := a];
  }

  lemma FillLast(page: map<nat, Record>, cap: nat, a: Record)
    requires cap >= 1 && page.Keys == Below(cap - 1) && |page| == cap - 1
    ensures |page[cap - 1 := a]| == cap && FirstClear(page[cap - 1 := a], cap, 0) == cap
  {
    var full := page[cap - 1 := a];
    assert full.Keys == page.Keys + {cap - 1};
    PageSize(full, cap);
  }
}
