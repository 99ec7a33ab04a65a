/** The heap file with its next-free links as they are (src/record/rm_file_handle.cpp): the links may be stale or
    cyclic, and then there is no list of free pages. */
module LinkedHeap {
  import opened Types
  import opened Finite
  import Heap

  const NO_PAGE := -1

  /** The occupied slots of a page and its next_free_page_no. */
  datatype DataPage = DataPage(slots: map<nat, Record>, next: int)

  /** head is first_free_page_no. */
  datatype LinkedFile = LinkedFile(cap: nat, pages: seq<DataPage>, head: int)

  function SlotsOf(pages: seq<DataPage>): (ms: seq<map<nat, Record>>)
    ensures |ms| == |pages| && forall p :: 0 <= p < |ms| ==> ms[p] == pages[p].slots
  {
    seq(|pages|, p requires 0 <= p < |pages| => pages[p].slots)
  }

  /** The file with a given list of free pages in place of the links. */
  function WithList(f: LinkedFile, free: seq<nat>): Heap.File { Heap.File(f.cap, SlotsOf(f.pages), free) }

  // ------------------------------------------------------------------------- operations

  predicate IsRecord(f: LinkedFile, rid: Rid) { Heap.IsRecord(WithList(f, []), rid) }

  function GetRecord(f: LinkedFile, rid: Rid): Option<Record> { Heap.GetRecord(WithList(f, []), rid) }

  lemma RecordAt(f: LinkedFile, rid: Rid)
    ensures IsRecord(f, rid) <==>
      1 <= rid.pageNo < |f.pages| && 0 <= rid.slotNo < f.cap && rid.slotNo in f.pages[rid.pageNo].slots
  {
  }

  ghost function Contents(f: LinkedFile): Table { Heap.Contents(WithList(f, [])) }

  /** create_new_page_handle. */
  function CreatePage(f: LinkedFile): LinkedFile {
    f.(pages := f.pages + [DataPage(map[], f.head)], head := |f.pages|)
  }

  /** The page-creating loop of insert_record(rid, buf). */
  function Grow(f: LinkedFile, pageNo: nat): (g: LinkedFile)
    ensures pageNo < |g.pages| && g.cap == f.cap
    decreases pageNo + 1 - |f.pages|
  {
    if pageNo < |f.pages| then f else Grow(CreatePage(f), pageNo)
  }

  lemma {:induction false} GrowKeeps(f: LinkedFile, pageNo: nat, rid: Rid)
    ensures IsRecord(Grow(f, pageNo), rid) <==> IsRecord(f, rid)
    decreases pageNo + 1 - |f.pages|
  {
    if pageNo < |f.pages| {
    } else {
      GrowKeeps(CreatePage(f), pageNo, rid);
    }
  }

  /** insert_record(rid, buf) on a free slot: a page that it fills gets the end marker as its link, and the head moves
      on only if the page is the head. */
  function InsertAt(f0: LinkedFile, rid: Rid, buf: Record): LinkedFile {
    if rid.pageNo < 1 || rid.slotNo < 0 || rid.slotNo >= f0.cap then f0
    else
      var f := Grow(f0, rid.pageNo);
      var p, s := rid.pageNo, rid.slotNo;
      if s in f.pages[p].slots then f
      else
        var slots: map<nat, Record> := f.pages[p].slots[s := buf];
        if |slots| != f.cap then f.(pages := f.pages[p := DataPage(slots, f.pages[p].next)])
        else
          LinkedFile(f.cap, f.pages[p := DataPage(slots, NO_PAGE)], if f.head == p then f.pages[p].next else f.head)
  }

  /** delete_record: a page that was full becomes the head, unless it is the head already. */
  function DeleteRecord(f: LinkedFile, rid: Rid): LinkedFile
    requires IsRecord(f, rid)
  {
    var p := rid.pageNo;
    var slots: map<nat, Record> := f.pages[p].slots - {rid.slotNo};
    if |f.pages[p].slots| == f.cap && f.head != p then
      LinkedFile(f.cap, f.pages[p := DataPage(slots, f.head)], p)
    else f.(pages := f.pages[p := f.pages[p].(slots := slots)])
  }

  function UpdateRecord(f: LinkedFile, rid: Rid, buf: Record): LinkedFile
    requires IsRecord(f, rid)
  {
    var slots: map<nat, Record> := f.pages[rid.pageNo].slots[rid.slotNo := buf];
    f.(pages := f.pages[rid.pageNo := f.pages[rid.pageNo].(slots := slots)])
  }

  // ---------------------------------------------------------------------- links and lists

  /** Following the links from `head` visits exactly `chain` and ends at the end marker. */
  ghost predicate Linked(pages: seq<DataPage>, head: int, chain: seq<nat>)
    decreases |chain|
  {
    if chain == [] then head == NO_PAGE
    else head == chain[0] && chain[0] < |pages| && Linked(pages, pages[chain[0]].next, chain[1..])
  }

  /** The links spell the list of g. */
  ghost predicate Shows(f: LinkedFile, g: Heap.File) {
    g == WithList(f, g.free) && Linked(f.pages, f.head, g.free)
  }

  /** The links form a list, and it holds exactly the data pages with a free slot, each once. */
  ghost predicate ChainOk(f: LinkedFile) { exists g :: Shows(f, g) && Heap.FileOk(g) }

  /** Links spell at most one list. */
  lemma {:induction false} LinkedUnique(pages: seq<DataPage>, head: int, a: seq<nat>, b: seq<nat>)
    requires Linked(pages, head, a) && Linked(pages, head, b)
    ensures a == b
    decreases |a|
  {
    if a == [] || b == [] {
    } else {
      LinkedUnique(pages, pages[a[0]].next, a[1..], b[1..]);
      assert a == [a[0]] + a[1..] && b == [b[0]] + b[1..];
    }
  }

  lemma OnlyList(f: LinkedFile, g: Heap.File)
    requires Shows(f, g)
    ensures ChainOk(f) <==> Heap.FileOk(g)
  {
    hide Heap.FileOk;
    if ChainOk(f) {
      var h :| Shows(f, h) && Heap.FileOk(h);
      LinkedUnique(f.pages, f.head, g.free, h.free);
    }
  }

  lemma {:induction false} LinkedFrame(pages: seq<DataPage>, pages': seq<DataPage>, head: int, chain: seq<nat>)
    requires Linked(pages, head, chain) && |pages| <= |pages'|
    requires forall p :: p in chain && p < |pages| ==> pages'[p].next == pages[p].next
    ensures Linked(pages', head, chain)
    decreases |chain|
  {
    if chain == [] {
    } else {
      assert chain[0] in chain;
      LinkedFrame(pages, pages', pages[chain[0]].next, chain[1..]);
    }
  }

  lemma {:induction false} LinkedCut(pages: seq<DataPage>, head: int, chain: seq<nat>, p: nat, page: DataPage)
    requires Linked(pages, head, chain) && Distinct(chain) && p < |pages| && page.next == NO_PAGE
    ensures Linked(pages[p := page], head, Heap.CutAfter(chain, p))
    decreases |chain|
  {
    if chain == [] {
    } else if chain[0] == p {
      assert [p][1..] == [];
    } else {
      DistinctTail(chain);
      LinkedCut(pages, pages[chain[0]].next, chain[1..], p, page);
      assert ([chain[0]] + Heap.CutAfter(chain[1..], p))[1..] == Heap.CutAfter(chain[1..], p);
    }
  }

  lemma LinkedHead(pages: seq<DataPage>, head: int, chain: seq<nat>)
    requires Linked(pages, head, chain)
    ensures chain == [] ==> head == NO_PAGE
    ensures chain != [] ==> head == chain[0] < |pages| && Linked(pages, pages[chain[0]].next, chain[1..])
  {
  }

  // ------------------------------------------------ on a good chain, links do what the list does

  lemma CreateShows(f: LinkedFile, g: Heap.File)
    requires Shows(f, g)
    ensures Shows(CreatePage(f), Heap.CreatePage(g))
  {
    var f' := CreatePage(f);
    LinkedFrame(f.pages, f'.pages, f.head, g.free);
    assert ([|f.pages|] + g.free)[1..] == g.free;
    assert SlotsOf(f'.pages) == SlotsOf(f.pages) + [map[]];
  }

  lemma {:induction false} GrowShows(f: LinkedFile, g: Heap.File, pageNo: nat)
    requires Shows(f, g)
    ensures Shows(Grow(f, pageNo), Heap.Grow(g, pageNo))
    decreases pageNo + 1 - |f.pages|
  {
    hide Shows;
    assert |g.pages| == |f.pages| by { SameCount(f, g); }
    if pageNo < |f.pages| {
    } else {
      CreateShows(f, g);
      GrowShows(CreatePage(f), Heap.CreatePage(g), pageNo);
    }
  }

  lemma SameCount(f: LinkedFile, g: Heap.File)
    requires Shows(f, g)
    ensures |g.pages| == |f.pages| && g.cap == f.cap
  {
  }

  lemma InsertShows(f: LinkedFile, g: Heap.File, rid: Rid, buf: Record)
    requires Shows(f, g) && Distinct(g.free) && Heap.IsRid(g, rid) && !Heap.IsRecord(g, rid)
    ensures Shows(InsertAt(f, rid, buf), Heap.InsertAt(g, rid, buf).0)
  {
    var f', g', p := InsertAt(f, rid, buf), Heap.InsertAt(g, rid, buf).0, rid.pageNo;
    assert SlotsOf(f'.pages) == g'.pages;
    LinkedHead(f.pages, f.head, g.free);
    if |g'.pages[p]| != g.cap {
      LinkedFrame(f.pages, f'.pages, f.head, g.free);
    } else if f.head == p {
      DistinctTail(g.free);
      LinkedFrame(f.pages, f'.pages, f.pages[p].next, g.free[1..]);
    } else {
      LinkedCut(f.pages, f.head, g.free, p, f'.pages[p]);
    }
  }

  /** insert_record(rid, buf) at any free rid, on a page of the file or beyond its end. */
  lemma InsertAtShows(f: LinkedFile, g: Heap.File, rid: Rid, buf: Record)
    requires Shows(f, g) && Heap.FileOk(g) && rid.pageNo >= 1 && 0 <= rid.slotNo < g.cap && !Heap.IsRecord(g, rid)
    ensures Shows(InsertAt(f, rid, buf), Heap.InsertAt(g, rid, buf).0)
  {
    hide Shows;
    GrowShows(f, g, rid.pageNo);
    Heap.GrowOk(g, rid.pageNo);
    Heap.GrowContents(g, rid.pageNo, rid);
    SameCount(f, g);
    var f1, g1 := Grow(f, rid.pageNo), Heap.Grow(g, rid.pageNo);
    assert !Heap.IsRecord(g1, rid) by { assert Heap.GetRecord(g1, rid) == Heap.GetRecord(g, rid); }
    InsertShows(f1, g1, rid, buf);
    assert InsertAt(f, rid, buf) == InsertAt(f1, rid, buf);
    assert Heap.InsertAt(g, rid, buf) == Heap.InsertAt(g1, rid, buf);
  }

  lemma DeleteShows(f: LinkedFile, g: Heap.File, rid: Rid)
    requires Shows(f, g) && Heap.FileOk(g) && Heap.IsRecord(g, rid)
    ensures IsRecord(f, rid) && Shows(DeleteRecord(f, rid), Heap.DeleteRecord(g, rid).value)
  {
    var f', g', p := DeleteRecord(f, rid), Heap.DeleteRecord(g, rid).value, rid.pageNo;
    assert SlotsOf(f'.pages) == g'.pages;
    LinkedHead(f.pages, f.head, g.free);
    LinkedFrame(f.pages, f'.pages, f.head, g.free);
    assert ([p as nat] + g.free)[1..] == g.free;
  }

  lemma UpdateShows(f: LinkedFile, g: Heap.File, rid: Rid, buf: Record)
    requires Shows(f, g) && Heap.IsRecord(g, rid)
    ensures IsRecord(f, rid) && Shows(UpdateRecord(f, rid, buf), Heap.UpdateRecord(g, rid, buf).value)
  {
    var f', g' := UpdateRecord(f, rid, buf), Heap.UpdateRecord(g, rid, buf).value;
    assert SlotsOf(f'.pages) == g'.pages;
    LinkedFrame(f.pages, f'.pages, f.head, g.free);
  }

  // --------------------------------------------------------- contents, whatever the links are

  /** Two files with the same slots, whatever their links and lists. */
  ghost predicate SameSlots(f: LinkedFile, g: Heap.File) { g.cap == f.cap && g.pages == SlotsOf(f.pages) }

  lemma {:induction false} GrowSlots(f: LinkedFile, g: Heap.File, pageNo: nat)
    requires SameSlots(f, g)
    ensures SameSlots(Grow(f, pageNo), Heap.Grow(g, pageNo))
    decreases pageNo + 1 - |f.pages|
  {
    if pageNo < |f.pages| {
    } else {
      assert SlotsOf(CreatePage(f).pages) == SlotsOf(f.pages) + [map[]];
      GrowSlots(CreatePage(f), Heap.CreatePage(g), pageNo);
    }
  }

  lemma InsertSlots(f: LinkedFile, g: Heap.File, rid: Rid, buf: Record)
    requires SameSlots(f, g)
    ensures SameSlots(InsertAt(f, rid, buf), Heap.InsertAt(g, rid, buf).0)
  {
    if rid.pageNo >= 1 && 0 <= rid.slotNo < f.cap {
      GrowSlots(f, g, rid.pageNo);
      var f', g' := InsertAt(f, rid, buf), Heap.InsertAt(g, rid, buf).0;
      assert SlotsOf(f'.pages) == g'.pages;
    }
  }

  lemma DeleteSlots(f: LinkedFile, g: Heap.File, rid: Rid)
    requires SameSlots(f, g) && IsRecord(f, rid)
    ensures Heap.IsRecord(g, rid) && SameSlots(DeleteRecord(f, rid), Heap.DeleteRecord(g, rid).value)
  {
    assert SlotsOf(DeleteRecord(f, rid).pages) == Heap.DeleteRecord(g, rid).value.pages;
  }

  lemma UpdateSlots(f: LinkedFile, g: Heap.File, rid: Rid, buf: Record)
    requires SameSlots(f, g) && IsRecord(f, rid)
    ensures Heap.IsRecord(g, rid) && SameSlots(UpdateRecord(f, rid, buf), Heap.UpdateRecord(g, rid, buf).value)
  {
    assert SlotsOf(UpdateRecord(f, rid, buf).pages) == Heap.UpdateRecord(g, rid, buf).value.pages;
  }
}
