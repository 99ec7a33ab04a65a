/** RmFileHandle and RmScan as objects (src/record/rm_file_handle.cpp, src/record/rm_scan.cpp): page headers with
    record counts and next-free pointers, slot bitmaps and slot bytes. */
module RecordFile {
  import opened Types
  import opened Finite
  import opened Heap
  import L = LinkedHeap

  const RM_NO_PAGE := -1
  const RM_FIRST_RECORD_PAGE := 1

  /** One page: header, bitmap, slots. Page 0, the file header, has no slots. */
  datatype PageImage = PageImage(nextFree: int, numRecords: int, bits: seq<bool>, slots: seq<Record>)

  datatype RecordError = RecordNotFound | DuplicateRid | NoFreeSlot

  function PageMap(pg: PageImage): map<nat, Record>
    requires |pg.bits| == |pg.slots|
  {
    map s: nat | s < |pg.bits| && pg.bits[s] :: pg.slots[s]
  }

  ghost predicate Sized(pages: seq<PageImage>, cap: nat) {
    forall p :: 0 <= p < |pages| ==> |pages[p].bits| == |pages[p].slots| == if p == 0 then 0 else cap
  }

  /** Every page is laid out and its record count is the number of its set bits. */
  ghost predicate Counted(pages: seq<PageImage>, cap: nat) {
    Sized(pages, cap) && forall p :: 0 <= p < |pages| ==> pages[p].numRecords == |PageMap(pages[p])|
  }

  /** The pages as slots and links. */
  ghost function DataPages(pages: seq<PageImage>, cap: nat): (ds: seq<L.DataPage>)
    requires Sized(pages, cap)
    ensures |ds| == |pages|
      && forall p :: 0 <= p < |ds| ==> ds[p] == L.DataPage(PageMap(pages[p]), pages[p].nextFree)
  {
    seq(|pages|, p requires 0 <= p < |pages| => L.DataPage(PageMap(pages[p]), pages[p].nextFree))
  }

  /** Replacing one data page by a well-counted one. */
  lemma OnePage(was: seq<PageImage>, p: nat, page: PageImage, cap: nat)
    requires Counted(was, cap) && 1 <= p < |was|
    requires |page.bits| == |page.slots| == cap && page.numRecords == |PageMap(page)|
    ensures Counted(was[p := page], cap)
    ensures DataPages(was[p := page], cap) == DataPages(was, cap)[p := L.DataPage(PageMap(page), page.nextFree)]
  {
  }

  lemma NewPageImage(was: seq<PageImage>, next: int, cap: nat)
    requires Counted(was, cap) && |was| >= 1
    ensures var pg := PageImage(next, 0, seq(cap, _ => false), seq(cap, _ => []));
      Counted(was + [pg], cap) && DataPages(was + [pg], cap) == DataPages(was, cap) + [L.DataPage(map[], next)]
  {
    var pg := PageImage(next, 0, seq(cap, _ => false), seq(cap, _ => []));
    assert PageMap(pg) == map[];
  }

  lemma SizedAt(pages: seq<PageImage>, cap: nat, p: nat)
    requires Sized(pages, cap) && 1 <= p < |pages|
    ensures |pages[p].bits| == |pages[p].slots| == cap
  {
  }

  /** Links and counts do not show in a page's contents. */
  lemma SamePageMap(a: PageImage, b: PageImage)
    requires |a.bits| == |a.slots| && a.bits == b.bits && a.slots == b.slots
    ensures PageMap(a) == PageMap(b)
  {
  }

  lemma SetSlot(pg: PageImage, pg': PageImage, s: nat, v: Record)
    requires |pg.bits| == |pg.slots| && s < |pg.bits| && pg'.bits == pg.bits[s := true] && pg'.slots == pg.slots[s := v]
    ensures PageMap(pg') == PageMap(pg)[s := v]
    ensures !pg.bits[s] ==> |PageMap(pg')| == |PageMap(pg)| + 1
  {
    assert PageMap(pg') == PageMap(pg)[s := v];
    assert PageMap(pg').Keys == PageMap(pg).Keys + {s};
  }

  lemma ResetSlot(pg: PageImage, pg': PageImage, s: nat)
    requires |pg.bits| == |pg.slots| && s < |pg.bits| && pg.bits[s] && pg'.bits == pg.bits[s := false]
      && pg'.slots == pg.slots
    ensures PageMap(pg') == PageMap(pg) - {s}
    ensures |PageMap(pg')| == |PageMap(pg)| - 1
  {
    assert PageMap(pg') == PageMap(pg) - {s};
    assert PageMap(pg').Keys == PageMap(pg).Keys - {s};
  }

  /** Bitmap::next_bit: the first position after curr whose bit equals `bit`, or maxN. */
  method NextBit(bit: bool, bits: seq<bool>, maxN: nat, curr: int) returns (i: nat)
    requires -1 <= curr < maxN && maxN <= |bits|
    ensures IsNextBit(bit, bits, maxN, curr, i)
  {
    i := curr + 1;
    while i < maxN
      invariant curr < i <= maxN
      invariant forall j :: curr < j < i ==> bits[j] != bit
    {
      if bits[i] == bit { return; }
      i := i + 1;
    }
  }

  class RmFileHandle {
    const cap: nat
    var firstFree: int
    var pages: seq<PageImage>
    /** The pages on the free chain, in order, as long as the links form a list. */
    ghost var chain: seq<nat>

    /** Every page is laid out and counted; the links may be anything. */
    ghost predicate Laid()
      reads this
    {
      |pages| >= 1 && Counted(pages, cap)
    }

    ghost function Links(): L.LinkedFile
      requires Sized(pages, cap)
      reads this
    {
      L.LinkedFile(cap, DataPages(pages, cap), firstFree)
    }

    ghost function State(): File
      requires Sized(pages, cap)
      reads this
    {
      L.WithList(Links(), chain)
    }

    ghost predicate Shape()
      reads this
    {
      Laid() && L.Linked(DataPages(pages, cap), firstFree, chain)
    }

    /** The heap-file invariant: record counts equal the number of set bits, and the chain from firstFree is acyclic,
        ends at RM_NO_PAGE and holds exactly the data pages with a free slot. */
    ghost predicate Valid()
      reads this
    {
      Shape() && FileOk(State())
    }

    constructor (numRecordsPerPage: nat)
      requires numRecordsPerPage >= 1
      ensures Valid() && cap == numRecordsPerPage && State() == File(cap, [map[]], [])
    {
      cap, firstFree, chain := numRecordsPerPage, RM_NO_PAGE, [];
      pages := [PageImage(RM_NO_PAGE, 0, [], [])];
      new;
      assert PageMap(pages[0]) == map[];
      assert L.SlotsOf(DataPages(pages, cap)) == [map[]];
    }

    /** is_record, for a page that exists. */
    function HasRecord(rid: Rid): bool
      requires Sized(pages, cap)
      reads this
      ensures HasRecord(rid) <==> L.IsRecord(Links(), rid)
      ensures HasRecord(rid) <==> IsRecord(State(), rid)
    {
      1 <= rid.pageNo < |pages| && 0 <= rid.slotNo < cap && pages[rid.pageNo].bits[rid.slotNo]
    }

    /** get_record: None is RecordNotFoundError. */
    method GetRecord(rid: Rid) returns (rec: Option<Record>)
      requires Laid()
      ensures rec == L.GetRecord(Links(), rid)
      ensures Valid() ==> rec == Lookup(Contents(State()), rid)
    {
      if Valid() { ContentsAt(State(), rid); }
      if !HasRecord(rid) { return None; }
      return Some(pages[rid.pageNo].slots[rid.slotNo]);
    }

    /** create_new_page_handle. */
    method CreateNewPage()
      requires Laid()
      modifies this
      ensures Laid() && Links() == L.CreatePage(old(Links()))
      ensures old(Shape()) ==> Shape() && State() == CreatePage(old(State()))
    {
      hide PageMap;
      hide Sized;
      ghost var was, links, state, ok := pages, Links(), State(), Shape();
      NewPageImage(pages, firstFree, cap);
      var pg := PageImage(firstFree, 0, seq(cap, _ => false), seq(cap, _ => []));
      pages := pages + [pg];
      firstFree := |pages| - 1;
      if ok {
        L.CreateShows(links, state);
        chain := CreatePage(state).free;
      }
    }

    /** insert_record(buf): the rid it chose; it never fails. */
    method InsertRecord(buf: Record) returns (rid: Rid)
      requires Valid()
      modifies this
      ensures Valid()
      ensures old(State()).free != [] ==> old(State()).free[0] < |old(State()).pages|
      ensures (State(), Some(rid)) == Heap.InsertRecord(old(State()), buf)
      ensures rid !in old(Contents(State())) && Contents(State()) == old(Contents(State()))[rid := buf]
    {
      hide Contents;
      InsertOk(State(), buf);
      L.LinkedHead(Links().pages, firstFree, chain);
      ghost var state := State();
      if firstFree == RM_NO_PAGE {
        CreateNewPage();
        CreatePageOk(state);
      }
      rid := InsertIntoHead(buf);
    }

    method InsertIntoHead(buf: Record) returns (rid: Rid)
      requires Valid() && chain != [] && chain[0] < |pages|
      requires Heap.InsertRecord(State(), buf).1.Some?
      modifies this
      ensures Shape()
      ensures (State(), Some(rid)) == Heap.InsertRecord(old(State()), buf)
    {
      ghost var was, links, state := pages, Links(), State();
      HeadIsPage();
      var p := firstFree;
      var page := pages[p];
      var slot := NextBit(false, page.bits, cap, -1);
      FirstClearIs(page, slot);
      PutAt(p, slot, buf);
      L.InsertShows(links, state, Rid(p, slot), buf);
      chain := Heap.InsertAt(state, Rid(p, slot), buf).0.free;
      rid := Rid(p, slot);
    }

    lemma HeadIsPage()
      requires Valid() && chain != []
      ensures firstFree == chain[0] && 1 <= firstFree < |pages| && Distinct(State().free)
    {
      L.LinkedHead(Links().pages, firstFree, chain);
      assert chain[0] in State().free;
    }

    lemma FirstClearIs(page: PageImage, slot: nat)
      requires |page.bits| == |page.slots| == cap && slot <= cap
      requires slot < cap ==> !page.bits[slot]
      requires forall j :: 0 <= j < slot ==> page.bits[j]
      ensures FirstClear(PageMap(page), cap, 0) == slot
    {
      var m := PageMap(page);
      assert forall j: nat :: j < slot ==> j in m;
      assert slot < cap ==> slot !in m;
      assert FirstClear(m, cap, 0) < cap ==> FirstClear(m, cap, 0) !in m;
    }

    /** delete_record: an error exactly on a missing record. */
    method DeleteRecord(rid: Rid) returns (ok: bool)
      requires Laid()
      modifies this
      ensures Laid() && ok == L.IsRecord(old(Links()), rid)
      ensures Links() == if ok then L.DeleteRecord(old(Links()), rid) else old(Links())
      ensures old(Valid()) ==> Valid() && ok == (rid in old(Contents(State())))
      ensures old(Valid()) ==> Contents(State()) == old(Contents(State())) - {rid}
      ensures old(Valid()) && ok ==> Heap.DeleteRecord(old(State()), rid) == Some(State())
      ensures old(Valid()) && !ok ==> State() == old(State())
    {
      hide Contents;
      hide FileOk;
      ghost var links, state, valid := Links(), State(), Valid();
      if valid { DeleteOk(state, rid); }
      if !HasRecord(rid) {
        if valid { RemoveNothing(Contents(state), rid); }
        return false;
      }
      TakeOut(rid.pageNo, rid.slotNo);
      if valid {
        L.DeleteShows(links, state, rid);
        chain := Heap.DeleteRecord(state, rid).value.free;
      }
      return true;
    }

    /** Clears a slot and, if the page was full, puts it back on the chain (release_page_handle). */
    method TakeOut(p: nat, slot: nat)
      requires Laid() && 1 <= p < |pages| && slot < cap && pages[p].bits[slot]
      modifies this`pages, this`firstFree
      ensures Laid() && Links() == L.DeleteRecord(old(Links()), Rid(p, slot))
    {
      hide PageMap;
      hide Sized;
      ghost var was := pages;
      SizedAt(was, cap, p);
      var page := pages[p];
      var wasFull := page.numRecords == cap;
      page := page.(bits := page.bits[slot := false], numRecords := page.numRecords - 1);
      ResetSlot(was[p], page, slot);
      if wasFull && firstFree != p {
        SamePageMap(page.(nextFree := firstFree), page);
        page := page.(nextFree := firstFree);
        firstFree := p;
      }
      pages := pages[p := page];
      OnePage(was, p, page, cap);
    }

    /** update_record: an error exactly on a missing record. */
    method UpdateRecord(rid: Rid, buf: Record) returns (ok: bool)
      requires Laid()
      modifies this
      ensures Laid() && ok == L.IsRecord(old(Links()), rid)
      ensures Links() == if ok then L.UpdateRecord(old(Links()), rid, buf) else old(Links())
      ensures old(Valid()) ==> Valid() && ok == (rid in old(Contents(State())))
      ensures old(Valid()) ==>
        Contents(State()) == if ok then old(Contents(State()))[rid := buf] else old(Contents(State()))
      ensures old(Valid()) && ok ==> Heap.UpdateRecord(old(State()), rid, buf) == Some(State())
      ensures old(Valid()) && !ok ==> State() == old(State())
    {
      hide Contents;
      hide FileOk;
      ghost var was, links, state, valid := pages, Links(), State(), Valid();
      if valid { UpdateOk(state, rid, buf); }
      if !HasRecord(rid) { return false; }
      var p := rid.pageNo;
      var page := pages[p].(slots := pages[p].slots[rid.slotNo := buf]);
      UpdateSlot(was[p], page, rid.slotNo, buf);
      pages := pages[p := page];
      OnePage(was, p, page, cap);
      if valid {
        L.UpdateShows(links, state, rid, buf);
        chain := Heap.UpdateRecord(state, rid, buf).value.free;
      }
      return true;
    }

    lemma RemoveNothing(t: Table, rid: Rid)
      requires rid !in t
      ensures t - {rid} == t
    {
    }

    lemma UpdateSlot(pg: PageImage, pg': PageImage, s: nat, v: Record)
      requires |pg.bits| == |pg.slots| && s < |pg.bits| && pg.bits[s] && pg' == pg.(slots := pg.slots[s := v])
      ensures PageMap(pg') == PageMap(pg)[s := v] && |PageMap(pg')| == |PageMap(pg)|
    {
      assert PageMap(pg') == PageMap(pg)[s := v];
      assert PageMap(pg').Keys == PageMap(pg).Keys;
    }

    /** insert_record(rid, buf), for rollback and recovery, on any links, broken ones included; the heap-file invariant
        survives under the condition of InsertAtKeepsIff. An error is a bad rid or a slot that is taken. */
    method InsertAt(rid: Rid, buf: Record) returns (ok: bool)
      requires Laid()
      modifies this
      ensures Laid() && Links() == L.InsertAt(old(Links()), rid, buf)
      ensures ok == (rid.pageNo >= 1 && 0 <= rid.slotNo < cap && !L.IsRecord(old(Links()), rid))
      ensures old(Valid()) ==> Shape() && (State(), ok) == Heap.InsertAt(old(State()), rid, buf)
    {
      hide L.InsertAt;
      hide Heap.InsertAt;
      hide FileOk;
      ghost var links, state, valid := Links(), State(), Valid();
      InsertRefused(links, state, rid, buf);
      if rid.pageNo < RM_FIRST_RECORD_PAGE || rid.slotNo < 0 || rid.slotNo >= cap { return false; }
      while rid.pageNo >= |pages|
        invariant Laid() && L.Grow(Links(), rid.pageNo) == L.Grow(links, rid.pageNo)
        invariant rid.pageNo < |links.pages| ==> Links() == links && chain == old(chain)
        decreases rid.pageNo - |pages|
      {
        CreateNewPage();
      }
      L.GrowKeeps(links, rid.pageNo, rid);
      assert L.Grow(Links(), rid.pageNo) == Links();
      if HasRecord(rid) { return false; }
      InsertGrown(links, rid, buf);
      PutAt(rid.pageNo, rid.slotNo, buf);
      if valid {
        L.InsertAtShows(links, state, rid, buf);
        InsertDone(state, rid, buf);
        chain := Heap.InsertAt(state, rid, buf).0.free;
      }
      return true;
    }

    /** What a refused insert leaves. */
    lemma InsertRefused(links: L.LinkedFile, state: File, rid: Rid, buf: Record)
      requires state == L.WithList(links, state.free)
      ensures rid.pageNo < 1 || rid.slotNo < 0 || rid.slotNo >= links.cap || L.IsRecord(links, rid) ==>
        L.InsertAt(links, rid, buf) == links && Heap.InsertAt(state, rid, buf) == (state, false)
    {
    }

    lemma InsertGrown(links: L.LinkedFile, rid: Rid, buf: Record)
      requires rid.pageNo >= 1 && 0 <= rid.slotNo < links.cap
      ensures L.InsertAt(L.Grow(links, rid.pageNo), rid, buf) == L.InsertAt(links, rid, buf)
    {
    }

    lemma InsertDone(state: File, rid: Rid, buf: Record)
      requires FileOk(state) && rid.pageNo >= 1 && 0 <= rid.slotNo < state.cap && !IsRecord(state, rid)
      ensures Heap.InsertAt(state, rid, buf).1
    {
      InsertAtKeepsIff(state, rid, buf);
    }

    method PutAt(p: nat, slot: nat, buf: Record)
      requires Laid() && 1 <= p < |pages| && slot < cap && !pages[p].bits[slot]
      modifies this`pages, this`firstFree
      ensures Laid() && Links() == L.InsertAt(old(Links()), Rid(p, slot), buf)
    {
      ghost var was := pages;
      var page := pages[p];
      page := page.(slots := page.slots[slot := buf], bits := page.bits[slot := true], numRecords := page.numRecords
        + 1);
      SetSlot(was[p], page, slot, buf);
      if page.numRecords == cap {
        if firstFree == p { firstFree := page.nextFree; }
        page := page.(nextFree := RM_NO_PAGE);
      }
      pages := pages[p := page];
      OnePage(was, p, page, cap);
    }
  }
}
