/** Where restart recovery leaves a bad free-page chain, on files and logs that the engine leaves behind: redo starts at
    the beginning of the log, and the file header, which holds the head of the chain, is written at flush and close. */
module ChainFailures {
  import opened Types
  import opened LogCodec
  import opened Recovery
  import opened FileRecovery
  import Finite
  import Heap
  import L = LinkedHeap

  // ----------------------------------------------------------------------- logs that fill pages

  /** Transaction 0 inserts the record into the first n slots of a page, which are free until then. */
  function PageInserts(tab: TableName, page: nat, n: nat, a: Record, base: nat): Log {
    if n == 0 then []
    else PageInserts(tab, page, n - 1, a, base)
         + [LogRecord(base + n, base + n - 1, 0, InsertBody(a, Rid(page, n - 1), tab))]
  }

  /** Transaction 0 fills pages 1, 2 and 3 and commits. */
  function FillThree(tab: TableName, cap: nat, a: Record): Log {
    [LogRecord(0, INVALID_LSN, 0, BeginBody)] + PageInserts(tab, 1, cap, a, 0) + PageInserts(tab, 2, cap, a, cap)
    + PageInserts(tab, 3, cap, a, 2 * cap) + [LogRecord(3 * cap + 1, 3 * cap, 0, CommitBody)]
  }

  /** Transaction 1 deletes the last record of each page and commits. */
  function DeleteThree(tab: TableName, cap: nat, a: Record, lsn: nat): Log {
    [LogRecord(lsn, INVALID_LSN, 1, BeginBody), LogRecord(lsn + 1, lsn, 1, DeleteBody(a, Rid(1, cap - 1), tab)),
      LogRecord(lsn + 2, lsn + 1, 1, DeleteBody(a, Rid(2, cap - 1), tab)),
      LogRecord(lsn + 3, lsn + 2, 1, DeleteBody(a, Rid(3, cap - 1), tab)), LogRecord(lsn + 4, lsn + 3, 1, CommitBody)]
  }

  function History(tab: TableName, cap: nat, a: Record): Log {
    FillThree(tab, cap, a) + DeleteThree(tab, cap, a, 3 * cap + 2)
  }

  lemma {:induction false} InsertsActive(log: Log, tab: TableName, page: nat, n: nat, a: Record, base: nat)
    requires 0 in ActiveOf(log)
    ensures CommittedOf(log + PageInserts(tab, page, n, a, base)) == CommittedOf(log)
    ensures ActiveOf(log + PageInserts(tab, page, n, a, base)) == ActiveOf(log)
  {
    hide CommittedOf;
    hide ActiveOf;
    if n == 0 {
      assert log + [] == log;
    } else {
      InsertsActive(log, tab, page, n - 1, a, base);
      var some := PageInserts(tab, page, n - 1, a, base);
      var r := LogRecord(base + n, base + n - 1, 0, InsertBody(a, Rid(page, n - 1), tab));
      assert log + PageInserts(tab, page, n, a, base) == (log + some) + [r];
      ClassifySnoc(log + some, r);
    }
  }

  lemma BeginClassified(r: LogRecord)
    requires r.body.BeginBody?
    ensures CommittedOf([r]) == {} && ActiveOf([r]) == {r.tid}
  {
    assert [] + [r] == [r];
    ClassifyNil();
    ClassifySnoc([], r);
  }

  lemma FillClassified(tab: TableName, cap: nat, a: Record)
    ensures CommittedOf(FillThree(tab, cap, a)) == {0} && ActiveOf(FillThree(tab, cap, a)) == {}
  {
    hide CommittedOf;
    hide ActiveOf;
    hide PageInserts;
    var l0 := [LogRecord(0, INVALID_LSN, 0, BeginBody)];
    BeginClassified(l0[0]);
    InsertsActive(l0, tab, 1, cap, a, 0);
    var l1 := l0 + PageInserts(tab, 1, cap, a, 0);
    InsertsActive(l1, tab, 2, cap, a, cap);
    var l2 := l1 + PageInserts(tab, 2, cap, a, cap);
    InsertsActive(l2, tab, 3, cap, a, 2 * cap);
    ClassifySnoc(l2 + PageInserts(tab, 3, cap, a, 2 * cap), LogRecord(3 * cap + 1, 3 * cap, 0, CommitBody));
  }

  lemma HistoryClassified(tab: TableName, cap: nat, a: Record)
    ensures CommittedOf(History(tab, cap, a)) == {0, 1} && ActiveOf(History(tab, cap, a)) == {}
  {
    hide CommittedOf;
    hide ActiveOf;
    hide FillThree;
    FillClassified(tab, cap, a);
    var l0, d := FillThree(tab, cap, a), DeleteThree(tab, cap, a, 3 * cap + 2);
    ClassifySnoc(l0, d[0]);
    ClassifySnoc(l0 + [d[0]], d[1]);
    ClassifySnoc(l0 + [d[0]] + [d[1]], d[2]);
    ClassifySnoc(l0 + [d[0]] + [d[1]] + [d[2]], d[3]);
    ClassifySnoc(l0 + [d[0]] + [d[1]] + [d[2]] + [d[3]], d[4]);
    assert History(tab, cap, a) == l0 + [d[0]] + [d[1]] + [d[2]] + [d[3]] + [d[4]];
  }

  // --------------------------------------------------------------------------- redo, page by page

  lemma RedoPushed(f: LinkedFile, log: Log, r: LogRecord, who: set<TxnId>, tab: TableName)
    ensures RedoFile(f, log + [r], who, tab) ==
            (var g := RedoFile(f, log, who, tab);
             if Touches(r, tab) && r.tid in who then PutIn(g, r.body.rid, After(r.body)) else g)
  {
    hide PutIn;
    assert (log + [r])[..|log|] == log;
  }

  lemma {:induction false} RedoAppended(f: LinkedFile, a: Log, b: Log, who: set<TxnId>, tab: TableName)
    ensures RedoFile(f, a + b, who, tab) == RedoFile(RedoFile(f, a, who, tab), b, who, tab)
    decreases |b|
  {
    hide PutIn;
    if b == [] {
      assert a + b == a;
    } else {
      var n := |b| - 1;
      RedoAppended(f, a, b[..n], who, tab);
      assert (a + b)[..|a + b| - 1] == a + b[..n];
    }
  }

  lemma {:induction false} UndoNobody(f: LinkedFile, log: Log, tab: TableName)
    ensures UndoFile(f, log, {}, tab) == f
  {
    if log == [] {
    } else {
      UndoNobody(f, log[..|log| - 1], tab);
    }
  }

  lemma PutSame(f: LinkedFile, rid: Rid, a: Record)
    requires L.GetRecord(f, rid) == Some(a)
    ensures PutIn(f, rid, Some(a)) == f
  {
    var page := f.pages[rid.pageNo];
    assert page.slots[rid.slotNo := a] == page.slots;
    assert f.pages[rid.pageNo := page] == f.pages;
  }

  /** Records that are there already are written again, over themselves. */
  lemma {:induction false} RedoPresent(f: LinkedFile, tab: TableName, page: nat, n: nat, a: Record, base: nat,
      who: set<TxnId>)
    requires 0 in who && forall s :: 0 <= s < n ==> L.GetRecord(f, Rid(page, s)) == Some(a)
    ensures RedoFile(f, PageInserts(tab, page, n, a, base), who, tab) == f
  {
    hide PutIn;
    hide L.GetRecord;
    if n == 0 {
    } else {
      RedoPresent(f, tab, page, n - 1, a, base, who);
      var r := LogRecord(base + n, base + n - 1, 0, InsertBody(a, Rid(page, n - 1), tab));
      RedoPushed(f, PageInserts(tab, page, n - 1, a, base), r, who, tab);
      PutSame(f, Rid(page, n - 1), a);
    }
  }

  /** The last record of the page is not there: only it is inserted. */
  lemma RedoLast(f: LinkedFile, tab: TableName, page: nat, cap: nat, a: Record, base: nat, who: set<TxnId>)
    requires 0 in who && cap >= 1 && forall s :: 0 <= s < cap - 1 ==> L.GetRecord(f, Rid(page, s)) == Some(a)
    ensures RedoFile(f, PageInserts(tab, page, cap, a, base), who, tab) == PutIn(f, Rid(page, cap - 1), Some(a))
  {
    hide PutIn;
    hide L.GetRecord;
    RedoPresent(f, tab, page, cap - 1, a, base, who);
    var r := LogRecord(base + cap, base + cap - 1, 0, InsertBody(a, Rid(page, cap - 1), tab));
    RedoPushed(f, PageInserts(tab, page, cap - 1, a, base), r, who, tab);
  }

  // --------------------------------------------------------------------------- three pages

  function Three(cap: nat, p1: L.DataPage, p2: L.DataPage, p3: L.DataPage, head: int): LinkedFile {
    L.LinkedFile(cap, [L.DataPage(map[], L.NO_PAGE), p1, p2, p3], head)
  }

  /** A page that lacks its last record. */
  function Open(cap: nat, a: Record, next: int): L.DataPage
    requires cap >= 1
  {
    L.DataPage(Heap.Filled(cap - 1, a), next)
  }

  function Closed(cap: nat, a: Record): L.DataPage { L.DataPage(Heap.Filled(cap, a), L.NO_PAGE) }

  lemma FilledStep(n: nat, a: Record)
    requires n >= 1
    ensures Heap.Filled(n, a) == Heap.Filled(n - 1, a)[n - 1 := a]
  {
    hide Finite.Below;
  }

  lemma {:induction false} FilledAt(n: nat, a: Record, s: nat)
    requires s < n
    ensures s in Heap.Filled(n, a) && Heap.Filled(n, a)[s] == a
  {
    hide Heap.Filled;
    hide Finite.Below;
    FilledStep(n, a);
    if s == n - 1 {
    } else {
      FilledAt(n - 1, a, s);
    }
  }

  lemma LastFilled(cap: nat, a: Record)
    requires cap >= 1
    ensures Heap.Filled(cap - 1, a)[cap - 1 := a] == Heap.Filled(cap, a)
    ensures Heap.Filled(cap, a) - {cap - 1} == Heap.Filled(cap - 1, a)
    ensures cap - 1 !in Heap.Filled(cap - 1, a) && cap - 1 in Heap.Filled(cap, a)
  {
    hide Heap.Filled;
    FilledStep(cap, a);
    assert Heap.Filled(cap - 1, a).Keys == Finite.Below(cap - 1);
  }

  ghost predicate OpenAt(f: LinkedFile, p: nat, a: Record) {
    f.cap >= 1 && 1 <= p < |f.pages| && f.pages[p].slots == Heap.Filled(f.cap - 1, a)
  }

  ghost predicate ClosedAt(f: LinkedFile, p: nat, a: Record) {
    f.cap >= 1 && 1 <= p < |f.pages| && f.pages[p].slots == Heap.Filled(f.cap, a)
  }

  /** Inserting the last record of a page. */
  lemma CloseAt(f: LinkedFile, p: nat, a: Record)
    requires OpenAt(f, p, a)
    ensures PutIn(f, Rid(p, f.cap - 1), Some(a)) ==
      L.LinkedFile(f.cap, f.pages[p := Closed(f.cap, a)], if f.head == p then f.pages[p].next else f.head)
  {
    hide Heap.Filled;
    hide L.IsRecord;
    LastFilled(f.cap, a);
    L.RecordAt(f, Rid(p, f.cap - 1));
    LastInserted(f, p, a);
  }

  lemma LastInserted(f: LinkedFile, p: nat, a: Record)
    requires OpenAt(f, p, a)
    ensures L.InsertAt(f, Rid(p, f.cap - 1), a) ==
      L.LinkedFile(f.cap, f.pages[p := Closed(f.cap, a)], if f.head == p then f.pages[p].next else f.head)
  {
    hide Heap.Filled;
    hide Finite.Below;
    LastFilled(f.cap, a);
    GrowsNot(f, p);
    var slots: map<nat, Record> := f.pages[p].slots[f.cap - 1 := a];
    assert slots == Heap.Filled(f.cap, a) && |slots| == f.cap;
  }

  lemma GrowsNot(f: LinkedFile, p: nat)
    requires p < |f.pages|
    ensures L.Grow(f, p) == f
  {
  }

  /** Deleting the last record of a full page that is not the head. */
  lemma OpenUp(f: LinkedFile, p: nat, a: Record)
    requires ClosedAt(f, p, a) && f.head != p
    ensures PutIn(f, Rid(p, f.cap - 1), None) == L.LinkedFile(f.cap, f.pages[p := Open(f.cap, a, f.head)], p)
  {
    hide Heap.Filled;
    hide L.IsRecord;
    LastFilled(f.cap, a);
    L.RecordAt(f, Rid(p, f.cap - 1));
  }

  /** What the three deletes leave of three full pages: the chain 3, 2, 1. */
  function ThreeOpen(cap: nat, a: Record): LinkedFile
    requires cap >= 1
  {
    Three(cap, Open(cap, a, L.NO_PAGE), Open(cap, a, 1), Open(cap, a, 2), 3)
  }

  function ThreeClosed(cap: nat, a: Record): LinkedFile {
    Three(cap, Closed(cap, a), Closed(cap, a), Closed(cap, a), L.NO_PAGE)
  }

  /** The file that redo leaves: the links run 3, 2, 1, 2, 1 and so on. */
  function ThreeCyclic(cap: nat, a: Record): LinkedFile
    requires cap >= 1
  {
    Three(cap, Open(cap, a, 2), Open(cap, a, 1), Open(cap, a, 2), 3)
  }

  /** The three deletes, one after the other. */
  function DeleteLasts(f: LinkedFile): LinkedFile {
    var n := f.cap - 1;
    PutIn(PutIn(PutIn(f, Rid(1, n), None), Rid(2, n), None), Rid(3, n), None)
  }

  lemma Deleted(cap: nat, a: Record, head: int)
    requires cap >= 1 && (head == L.NO_PAGE || head == 2)
    ensures var f := Three(cap, Closed(cap, a), Closed(cap, a), Closed(cap, a), head);
      DeleteLasts(f) == Three(cap, Open(cap, a, head), Open(cap, a, 1), Open(cap, a, 2), 3)
  {
    hide PutIn;
    hide Open;
    hide Closed;
    var f := Three(cap, Closed(cap, a), Closed(cap, a), Closed(cap, a), head);
    OpenNext(f, 1, a);
    var f1 := Three(cap, Open(cap, a, head), Closed(cap, a), Closed(cap, a), 1);
    assert f.pages[1 := Open(cap, a, head)] == f1.pages;
    OpenNext(f1, 2, a);
    var f2 := Three(cap, Open(cap, a, head), Open(cap, a, 1), Closed(cap, a), 2);
    assert f1.pages[2 := Open(cap, a, 1)] == f2.pages;
    OpenNext(f2, 3, a);
    assert f2.pages[3 := Open(cap, a, 2)] == Three(cap, Open(cap, a, head), Open(cap, a, 1), Open(cap, a, 2), 3).pages;
  }

  lemma OpenNext(f: LinkedFile, p: nat, a: Record)
    requires f.cap >= 1 && 1 <= p < |f.pages| && f.pages[p] == Closed(f.cap, a) && f.head != p
    ensures PutIn(f, Rid(p, f.cap - 1), None) == L.LinkedFile(f.cap, f.pages[p := Open(f.cap, a, f.head)], p)
  {
    hide Heap.Filled;
    hide PutIn;
    OpenUp(f, p, a);
  }

  lemma PageRecords(f: LinkedFile, p: nat, a: Record)
    requires OpenAt(f, p, a)
    ensures forall s :: 0 <= s < f.cap - 1 ==> L.GetRecord(f, Rid(p, s)) == Some(a)
  {
    hide Heap.Filled;
    forall s | 0 <= s < f.cap - 1 ensures L.GetRecord(f, Rid(p, s)) == Some(a) { FilledAt(f.cap - 1, a, s); }
  }

  /** Redo of one page's inserts on a page that lacks the last record. */
  lemma PageRedone(f: LinkedFile, log: Log, g: LinkedFile, tab: TableName, p: nat, next: int, a: Record, base: nat,
      who: set<TxnId>)
    requires 0 in who && RedoFile(f, log, who, tab) == g
    requires g.cap >= 1 && 1 <= p < |g.pages| && g.pages[p] == Open(g.cap, a, next)
    ensures RedoFile(f, log + PageInserts(tab, p, g.cap, a, base), who, tab) ==
      L.LinkedFile(g.cap, g.pages[p := Closed(g.cap, a)], if g.head == p then next else g.head)
  {
    hide Heap.Filled;
    hide PutIn;
    hide RedoFile;
    hide PageInserts;
    hide L.GetRecord;
    PageRecords(g, p, a);
    RedoLast(g, tab, p, g.cap, a, base, who);
    CloseAt(g, p, a);
    RedoAppended(f, log, PageInserts(tab, p, g.cap, a, base), who, tab);
  }

  /** Redo of the inserts: pages 1 and 2 are filled while page 3 is the head, then page 3. */
  lemma InsertsRedone(tab: TableName, cap: nat, a: Record, who: set<TxnId>)
    requires cap >= 1 && 0 in who
    ensures RedoFile(ThreeOpen(cap, a), FillThree(tab, cap, a), who, tab)
      == Three(cap, Closed(cap, a), Closed(cap, a), Closed(cap, a), 2)
  {
    hide RedoFile;
    hide PageInserts;
    hide Open;
    hide Closed;
    var f, closed := ThreeOpen(cap, a), Closed(cap, a);
    var l0, l1 := [LogRecord(0, INVALID_LSN, 0, BeginBody)], PageInserts(tab, 1, cap, a, 0);
    var l2, l3 := PageInserts(tab, 2, cap, a, cap), PageInserts(tab, 3, cap, a, 2 * cap);
    RedoBegin(f, l0[0], who, tab);
    PageRedone(f, l0, f, tab, 1, L.NO_PAGE, a, 0, who);
    var f1 := Three(cap, closed, Open(cap, a, 1), Open(cap, a, 2), 3);
    assert f.pages[1 := closed] == f1.pages;
    PageRedone(f, l0 + l1, f1, tab, 2, 1, a, cap, who);
    var f2 := Three(cap, closed, closed, Open(cap, a, 2), 3);
    assert f1.pages[2 := closed] == f2.pages;
    PageRedone(f, l0 + l1 + l2, f2, tab, 3, 2, a, 2 * cap, who);
    assert f2.pages[3 := closed] == Three(cap, closed, closed, closed, 2).pages;
    RedoPushed(f, l0 + l1 + l2 + l3, LogRecord(3 * cap + 1, 3 * cap, 0, CommitBody), who, tab);
  }

  lemma RedoBegin(f: LinkedFile, r: LogRecord, who: set<TxnId>, tab: TableName)
    requires r.body.BeginBody?
    ensures RedoFile(f, [r], who, tab) == f
  {
    assert [] + [r] == [r];
    RedoPushed(f, [], r, who, tab);
  }

  lemma DeletesRedone(f: LinkedFile, log: Log, tab: TableName, a: Record, lsn: nat, who: set<TxnId>)
    requires 1 in who && RedoFile(f, log, who, tab).cap == f.cap
    ensures var g := RedoFile(f, log, who, tab);
      var d := DeleteThree(tab, f.cap, a, lsn);
      RedoFile(f, log + d, who, tab)
        == PutIn(PutIn(PutIn(g, Rid(1, f.cap - 1), None), Rid(2, f.cap - 1), None), Rid(3, f.cap - 1), None)
  {
    hide PutIn;
    hide RedoFile;
    var d := DeleteThree(tab, f.cap, a, lsn);
    RedoPushed(f, log, d[0], who, tab);
    RedoPushed(f, log + [d[0]], d[1], who, tab);
    RedoPushed(f, log + [d[0]] + [d[1]], d[2], who, tab);
    RedoPushed(f, log + [d[0]] + [d[1]] + [d[2]], d[3], who, tab);
    RedoPushed(f, log + [d[0]] + [d[1]] + [d[2]] + [d[3]], d[4], who, tab);
    assert log + d == log + [d[0]] + [d[1]] + [d[2]] + [d[3]] + [d[4]];
  }

  /** No list follows cyclic links. */
  lemma {:induction false} NoList(pages: seq<L.DataPage>, head: int, chain: seq<nat>)
    requires |pages| == 4 && pages[1].next == 2 && pages[2].next == 1 && pages[3].next == 2 && 1 <= head <= 3
    ensures !L.Linked(pages, head, chain)
    decreases |chain|
  {
    if chain == [] {
    } else if head == chain[0] {
      NoList(pages, pages[head].next, chain[1..]);
    }
  }

  lemma ThreeOpenOk(cap: nat, a: Record)
    requires cap >= 1
    ensures L.ChainOk(ThreeOpen(cap, a))
  {
    hide Heap.Filled;
    var f := ThreeOpen(cap, a);
    var g := L.WithList(f, [3, 2, 1]);
    assert [3, 2, 1][1..] == [2, 1] && [2, 1][1..] == [1] && [1][1..] == [];
    assert L.Linked(f.pages, L.NO_PAGE, []) && L.Linked(f.pages, 1, [1]) && L.Linked(f.pages, 2, [2, 1]);
    assert L.Shows(f, g);
    ThreeListOk(cap, a, g);
  }

  lemma ThreeListOk(cap: nat, a: Record, g: Heap.File)
    requires cap >= 1
    requires g == Heap.File(cap, [map[], Heap.Filled(cap - 1, a), Heap.Filled(cap - 1, a), Heap.Filled(cap - 1, a)],
      [3, 2, 1])
    ensures Heap.FileOk(g)
  {
    hide Heap.Filled;
    hide Finite.Below;
    assert g.free[0] == 3 && g.free[1] == 2 && g.free[2] == 1;
    forall p ensures p in g.free <==> 1 <= p < 4 && |g.pages[p]| < g.cap { }
  }

  /** A concrete failure, for every number of slots per page. Transaction 0 filled three pages, transaction 1 deleted
      the last record of each, and both are in the log; the file is up to date on disk, with the chain 3, 2, 1. Recovery
      inserts the three records again and deletes them again, and ends with the same records on cyclic links. */
  lemma RecoveryBreaksChain(cap: nat, a: Record, tab: TableName)
    requires cap >= 1
    ensures var f, log := ThreeOpen(cap, a), History(tab, cap, a);
      && f == DeleteLasts(ThreeClosed(cap, a)) && L.ChainOk(f)
      && RecoveredFile(f, log, tab) == ThreeCyclic(cap, a)
      && L.Contents(RecoveredFile(f, log, tab)) == L.Contents(f)
      && !L.ChainOk(RecoveredFile(f, log, tab))
      && forall chain :: !L.Linked(RecoveredFile(f, log, tab).pages, RecoveredFile(f, log, tab).head, chain)
  {
    hide Heap.Filled;
    hide Finite.Below;
    hide PutIn;
    hide RedoFile;
    hide FillThree;
    hide Heap.FileOk;
    var f, g, log := ThreeOpen(cap, a), ThreeCyclic(cap, a), History(tab, cap, a);
    Deleted(cap, a, L.NO_PAGE);
    Deleted(cap, a, 2);
    ThreeOpenOk(cap, a);
    HistoryClassified(tab, cap, a);
    InsertsRedone(tab, cap, a, {0, 1});
    DeletesRedone(f, FillThree(tab, cap, a), tab, a, 3 * cap + 2, {0, 1});
    UndoNobody(g, log, tab);
    assert RecoveredFile(f, log, tab) == g;
    assert L.SlotsOf(f.pages) == L.SlotsOf(g.pages);
    forall chain ensures !L.Linked(g.pages, g.head, chain) { NoList(g.pages, g.head, chain); }
  }

  // ------------------------------------------------------------------------- a stale header

  /** One run inserted all records of page 1 but the last and closed the file; the next run inserted the last. Both runs
      number their transactions from 0. */
  function TwoRuns(tab: TableName, cap: nat, a: Record): Log
    requires cap >= 1
  {
    [LogRecord(0, INVALID_LSN, 0, BeginBody)] + PageInserts(tab, 1, cap - 1, a, 0)
    + [LogRecord(cap, cap - 1, 0, CommitBody)] + [LogRecord(0, INVALID_LSN, 0, BeginBody)]
    + [LogRecord(1, 0, 0, InsertBody(a, Rid(1, cap - 1), tab))] + [LogRecord(2, 1, 0, CommitBody)]
  }

  /** The page of the second run reached the disk, the file header did not: its head is still page 1. */
  function StaleHeader(cap: nat, a: Record): LinkedFile {
    L.LinkedFile(cap, [L.DataPage(map[], L.NO_PAGE), Closed(cap, a)], 1)
  }

  lemma RunsClassified(tab: TableName, cap: nat, a: Record)
    requires cap >= 1
    ensures CommittedOf(TwoRuns(tab, cap, a)) == {0} && ActiveOf(TwoRuns(tab, cap, a)) == {}
  {
    hide CommittedOf;
    hide ActiveOf;
    hide PageInserts;
    var l0 := [LogRecord(0, INVALID_LSN, 0, BeginBody)];
    BeginClassified(l0[0]);
    InsertsActive(l0, tab, 1, cap - 1, a, 0);
    var l1 := l0 + PageInserts(tab, 1, cap - 1, a, 0);
    ClassifySnoc(l1, LogRecord(cap, cap - 1, 0, CommitBody));
    var l2 := l1 + [LogRecord(cap, cap - 1, 0, CommitBody)];
    ClassifySnoc(l2, l0[0]);
    var r := LogRecord(1, 0, 0, InsertBody(a, Rid(1, cap - 1), tab));
    ClassifySnoc(l2 + l0, r);
    ClassifySnoc(l2 + l0 + [r], LogRecord(2, 1, 0, CommitBody));
  }

  /** Redo finds every record in place. */
  lemma RunsRedone(tab: TableName, cap: nat, a: Record)
    requires cap >= 1
    ensures RedoFile(StaleHeader(cap, a), TwoRuns(tab, cap, a), {0}, tab) == StaleHeader(cap, a)
  {
    hide RedoFile;
    hide PageInserts;
    hide PutIn;
    hide Heap.Filled;
    hide L.GetRecord;
    var f, who := StaleHeader(cap, a), {0};
    forall s | 0 <= s < cap ensures L.GetRecord(f, Rid(1, s)) == Some(a) { StaleAt(cap, a, s); }
    var l0 := [LogRecord(0, INVALID_LSN, 0, BeginBody)];
    RedoBegin(f, l0[0], who, tab);
    RedoPresent(f, tab, 1, cap - 1, a, 0, who);
    RedoAppended(f, l0, PageInserts(tab, 1, cap - 1, a, 0), who, tab);
    var l1 := l0 + PageInserts(tab, 1, cap - 1, a, 0);
    RedoPushed(f, l1, LogRecord(cap, cap - 1, 0, CommitBody), who, tab);
    var l2 := l1 + [LogRecord(cap, cap - 1, 0, CommitBody)];
    RedoPushed(f, l2, l0[0], who, tab);
    var r := LogRecord(1, 0, 0, InsertBody(a, Rid(1, cap - 1), tab));
    RedoPushed(f, l2 + l0, r, who, tab);
    PutSame(f, Rid(1, cap - 1), a);
    RedoPushed(f, l2 + l0 + [r], LogRecord(2, 1, 0, CommitBody), who, tab);
  }

  lemma StaleAt(cap: nat, a: Record, s: nat)
    requires s < cap
    ensures L.GetRecord(StaleHeader(cap, a), Rid(1, s)) == Some(a)
  {
    hide Heap.Filled;
    hide Finite.Below;
    FilledAt(cap, a, s);
    L.RecordAt(StaleHeader(cap, a), Rid(1, s));
  }

  /** A concrete failure: recovery finds every record in place and leaves the full page 1 at the head of the chain, so
      the next insert reports that there is no free slot. */
  lemma StaleHeaderStays(cap: nat, a: Record, tab: TableName, b: Record)
    requires cap >= 1
    ensures var f, log := StaleHeader(cap, a), TwoRuns(tab, cap, a);
      && RecoveredFile(f, log, tab) == f && !L.ChainOk(f)
      && L.Shows(f, L.WithList(f, [1])) && Heap.InsertRecord(L.WithList(f, [1]), b).1 == None
  {
    hide Heap.Filled;
    hide Finite.Below;
    hide RedoFile;
    hide TwoRuns;
    hide Heap.FirstClear;
    var f, log := StaleHeader(cap, a), TwoRuns(tab, cap, a);
    RunsClassified(tab, cap, a);
    RunsRedone(tab, cap, a);
    UndoNobody(f, log, tab);
    var g := L.WithList(f, [1]);
    assert [1][1..] == [];
    assert L.Linked(f.pages, L.NO_PAGE, []);
    assert L.Shows(f, g);
    L.OnlyList(f, g);
    assert |g.pages[1]| == cap && 1 in g.free;
    NoSlot(cap, a);
  }

  lemma NoSlot(cap: nat, a: Record)
    ensures Heap.FirstClear(Heap.Filled(cap, a), cap, 0) == cap
  {
    hide Heap.Filled;
    assert forall s :: s in Heap.Filled(cap, a) ==> s in Finite.Below(cap);
    Heap.PageSize(Heap.Filled(cap, a), cap);
  }
}
