/** Redo and undo on the heap files themselves (src/recovery/log_recovery.cpp): each record updates, inserts at its rid
    or deletes, and the links of the free-page chain move along, whatever state the crash left them in. */
module FileRecovery {
  import opened Types
  import opened LogCodec
  import opened Recovery
  import opened Finite
  import opened Heap
  import L = LinkedHeap

  type LinkedFile = L.LinkedFile

  /** One redo or undo action: the rid gets the image by update_record where the record exists and by
      insert_record(rid, buf) where it does not, or loses its record. */
  function PutIn(f: LinkedFile, rid: Rid, image: Option<Record>): LinkedFile {
    match image
    case Some(v) =>
      if L.IsRecord(f, rid) then L.UpdateRecord(f, rid, v) else L.InsertAt(f, rid, v)
    case None => if L.IsRecord(f, rid) then L.DeleteRecord(f, rid) else f
  }

  function RedoFile(f: LinkedFile, log: Log, who: set<TxnId>, tab: TableName): LinkedFile {
    if log == [] then f
    else
      var n := |log| - 1;
      var g := RedoFile(f, log[..n], who, tab);
      if Touches(log[n], tab) && log[n].tid in who then PutIn(g, log[n].body.rid, After(log[n].body)) else g
  }

  function UndoFile(f: LinkedFile, log: Log, who: set<TxnId>, tab: TableName): LinkedFile
    decreases |log|
  {
    if log == [] then f
    else
      var n := |log| - 1;
      UndoFile(if Touches(log[n], tab) && log[n].tid in who then PutIn(f, log[n].body.rid, Before(log[n].body)) else f,
               log[..n], who, tab)
  }

  /** redo, then undo, on whatever file the crash left. */
  function RecoveredFile(f: LinkedFile, log: Log, tab: TableName): LinkedFile {
    UndoFile(RedoFile(f, log, CommittedOf(log), tab), log, ActiveOf(log), tab)
  }

  // ------------------------------------------------------- the same action on a list of pages

  /** The action on a file with a list of free pages. */
  function PutOn(f: File, rid: Rid, image: Option<Record>): File {
    match image
    case Some(v) => if IsRecord(f, rid) then UpdateRecord(f, rid, v).value else InsertAt(f, rid, v).0
    case None => if IsRecord(f, rid) then DeleteRecord(f, rid).value else f
  }

  lemma PutSlots(f: LinkedFile, g: File, rid: Rid, image: Option<Record>)
    requires L.SameSlots(f, g)
    ensures L.SameSlots(PutIn(f, rid, image), PutOn(g, rid, image))
  {
    hide L.InsertAt;
    hide InsertAt;
    if L.IsRecord(f, rid) {
      L.DeleteSlots(f, g, rid);
      if image.Some? { L.UpdateSlots(f, g, rid, image.value); }
    } else if image.Some? {
      L.InsertSlots(f, g, rid, image.value);
    }
  }

  lemma PutShows(f: LinkedFile, g: File, rid: Rid, image: Option<Record>)
    requires L.Shows(f, g) && FileOk(g) && RidFits(g.cap, rid)
    ensures L.Shows(PutIn(f, rid, image), PutOn(g, rid, image))
  {
    hide L.InsertAt;
    hide InsertAt;
    hide FileOk;
    if IsRecord(g, rid) {
      if image.Some? { L.UpdateShows(f, g, rid, image.value); } else { L.DeleteShows(f, g, rid); }
    } else if image.Some? {
      L.InsertAtShows(f, g, rid, image.value);
    }
  }

  // ------------------------------------------------------------------------------ contents

  /** Whatever the chain looks like: slots have slot numbers of the file, and page 0 has none. */
  ghost predicate SlotsOk(f: File) {
    && f.cap >= 1 && |f.pages| >= 1 && f.pages[0] == map[]
    && (forall p, s :: 0 <= p < |f.pages| && s in f.pages[p] ==> s < f.cap)
  }

  /** Rids of the file's record size; insert_record(rid, buf) refuses all others. */
  predicate RidFits(cap: nat, rid: Rid) { rid.pageNo >= 1 && 0 <= rid.slotNo < cap }

  ghost predicate LogFits(cap: nat, log: Log, tab: TableName) {
    forall i :: 0 <= i < |log| && Touches(log[i], tab) ==> RidFits(cap, log[i].body.rid)
  }

  lemma {:induction false} GrowSlots(f: File, pageNo: nat)
    requires SlotsOk(f)
    ensures SlotsOk(Grow(f, pageNo))
    decreases pageNo + 1 - |f.pages|
  {
    if pageNo < |f.pages| {
    } else {
      var g := CreatePage(f);
      forall p, s | 0 <= p < |g.pages| && s in g.pages[p] ensures s < g.cap { assert p < |f.pages|; }
      GrowSlots(g, pageNo);
    }
  }

  lemma OnePutSlots(f: File, g: File, p: nat)
    requires SlotsOk(f) && 1 <= p < |f.pages| && g.cap == f.cap && |g.pages| == |f.pages|
    requires (forall q :: 0 <= q < |f.pages| && q != p ==> g.pages[q] == f.pages[q]) && forall s :: s in g.pages[p] ==>
      s < f.cap
    ensures SlotsOk(g)
  {
  }

  /** A put changes exactly its own record, whatever happens to the chain. */
  lemma PutOnEffect(f: File, rid: Rid, image: Option<Record>)
    requires SlotsOk(f) && RidFits(f.cap, rid)
    ensures SlotsOk(PutOn(f, rid, image)) && PutOn(f, rid, image).cap == f.cap
    ensures forall r :: GetRecord(PutOn(f, rid, image), r) == if r == rid then image else GetRecord(f, r)
  {
    hide FirstClear;
    var g, p := PutOn(f, rid, image), rid.pageNo;
    if image.Some? && !IsRecord(f, rid) {
      GrowSlots(f, p);
      GrowContents(f, p, rid);
      var h := Grow(f, p);
      assert rid.slotNo !in h.pages[p];
      OnePutSlots(h, g, p);
      forall r
        ensures GetRecord(g, r) == if r == rid then image else GetRecord(f, r)
      {
        InsertAtContents(f, rid, image.value, r);
      }
    } else if IsRecord(f, rid) {
      OnePutSlots(f, g, p);
    }
  }

  lemma SlotsContents(f: File, t: Table)
    requires SlotsOk(f) && forall r :: GetRecord(f, r) == Lookup(t, r)
    ensures Contents(f) == t
  {
    forall r ensures r in Contents(f) <==> IsRecord(f, r) { assert r in Rids(f) <==> IsRecord(f, r); }
    forall r ensures Lookup(Contents(f), r) == Lookup(t, r) { assert GetRecord(f, r) == Lookup(t, r); }
    SameLookups(Contents(f), t);
  }

  /** The slots of the linked file are in order; its links may be anything. */
  ghost predicate Readable(f: LinkedFile) { SlotsOk(L.WithList(f, [])) }

  lemma SlotsContentsAt(f: File, r: Rid)
    requires SlotsOk(f)
    ensures Lookup(Contents(f), r) == GetRecord(f, r)
  {
    assert r in Rids(f) <==> IsRecord(f, r);
  }

  /** The file holds the table. */
  ghost predicate HoldsTable(f: LinkedFile, t: Table, cap: nat) {
    Readable(f) && f.cap == cap && forall r :: L.GetRecord(f, r) == Lookup(t, r)
  }

  /** An action on the linked file changes exactly its own record, whatever the links are. */
  lemma PutInEffect(f: LinkedFile, rid: Rid, image: Option<Record>)
    requires Readable(f) && RidFits(f.cap, rid)
    ensures Readable(PutIn(f, rid, image)) && PutIn(f, rid, image).cap == f.cap
    ensures forall r ::
              L.GetRecord(PutIn(f, rid, image), r) == if r == rid then image else L.GetRecord(f, r)
  {
    hide PutIn;
    hide PutOn;
    var g := L.WithList(f, []);
    PutSlots(f, g, rid, image);
    PutOnEffect(g, rid, image);
    SameReads(f, g);
    SameReads(PutIn(f, rid, image), PutOn(g, rid, image));
  }

  lemma SameReads(f: LinkedFile, g: File)
    requires L.SameSlots(f, g)
    ensures (Readable(f) <==> SlotsOk(g)) && forall r :: L.GetRecord(f, r) == GetRecord(g, r)
  {
  }

  lemma PutHolds(f: LinkedFile, t: Table, cap: nat, rid: Rid, image: Option<Record>)
    requires HoldsTable(f, t, cap) && RidFits(cap, rid)
    ensures HoldsTable(PutIn(f, rid, image), Put(t, rid, image), cap)
  {
    hide Readable;
    hide PutIn;
    hide L.GetRecord;
    PutInEffect(f, rid, image);
  }

  lemma {:induction false} RedoHolds(f: LinkedFile, t: Table, cap: nat, log: Log, who: set<TxnId>, tab: TableName)
    requires HoldsTable(f, t, cap) && LogFits(cap, log, tab)
    ensures HoldsTable(RedoFile(f, log, who, tab), RedoTable(t, log, who, tab), cap)
  {
    hide HoldsTable;
    if log == [] {
    } else {
      var n := |log| - 1;
      RedoHolds(f, t, cap, log[..n], who, tab);
      if Touches(log[n], tab) && log[n].tid in who {
        PutHolds(RedoFile(f, log[..n], who, tab), RedoTable(t, log[..n], who, tab), cap, log[n].body.rid,
          After(log[n].body));
      }
    }
  }

  lemma {:induction false} UndoHolds(f: LinkedFile, t: Table, cap: nat, log: Log, who: set<TxnId>, tab: TableName)
    requires HoldsTable(f, t, cap) && LogFits(cap, log, tab)
    ensures HoldsTable(UndoFile(f, log, who, tab), UndoTable(t, log, who, tab), cap)
    decreases |log|
  {
    hide HoldsTable;
    if log == [] {
    } else {
      var n := |log| - 1;
      if Touches(log[n], tab) && log[n].tid in who {
        PutHolds(f, t, cap, log[n].body.rid, Before(log[n].body));
        UndoHolds(PutIn(f, log[n].body.rid, Before(log[n].body)), Put(t, log[n].body.rid, Before(log[n].body)), cap,
          log[..n], who, tab);
      } else {
        UndoHolds(f, t, cap, log[..n], who, tab);
      }
    }
  }

  /** Recovery of the file is recovery of the table, whatever the links are before and become. */
  lemma RecoveredContents(f: LinkedFile, log: Log, tab: TableName)
    requires Readable(f) && LogFits(f.cap, log, tab)
    ensures Readable(RecoveredFile(f, log, tab))
    ensures L.Contents(RecoveredFile(f, log, tab)) == Recovered(L.Contents(f), log, tab)
  {
    hide SlotsOk;
    hide Contents;
    hide GetRecord;
    hide RedoFile;
    hide UndoFile;
    hide RedoTable;
    hide UndoTable;
    var t := L.Contents(f);
    forall r ensures L.GetRecord(f, r) == Lookup(t, r) { SlotsContentsAt(L.WithList(f, []), r); }
    assert HoldsTable(f, t, f.cap);
    RedoHolds(f, t, f.cap, log, CommittedOf(log), tab);
    UndoHolds(RedoFile(f, log, CommittedOf(log), tab), RedoTable(t, log, CommittedOf(log), tab), f.cap, log,
      ActiveOf(log), tab);
    SlotsContents(L.WithList(RecoveredFile(f, log, tab), []), Recovered(t, log, tab));
  }

  // ----------------------------------------------------------------------------- the chain

  /** On a file with a list of free pages: the action keeps the invariant if and only if it does not fill, by a
      restoring insert, an existing page other than the head. */
  lemma PutOnKeepsIff(f: File, rid: Rid, image: Option<Record>)
    requires FileOk(f) && RidFits(f.cap, rid)
    ensures FileOk(PutOn(f, rid, image)) <==>
      (image.Some? && !IsRecord(f, rid) && rid.pageNo < |f.pages| && |f.pages[rid.pageNo]| + 1 == f.cap ==>
         f.free != [] && f.free[0] == rid.pageNo)
  {
    hide FileOk;
    hide InsertAt;
    hide DeleteRecord;
    hide Contents;
    if image.Some? {
      if IsRecord(f, rid) { UpdateOk(f, rid, image.value); } else { InsertAtKeepsIff(f, rid, image.value); }
    } else if IsRecord(f, rid) {
      DeleteOk(f, rid);
      DeleteDefined(f, rid);
    }
  }

  /** The guard: the action does not fill, by a restoring insert, an existing page other than the chain's head. */
  predicate Clean(f: LinkedFile, rid: Rid, image: Option<Record>) {
    (image.Some? && !L.IsRecord(f, rid) && 1 <= rid.pageNo < |f.pages|
     && |f.pages[rid.pageNo].slots| + 1 == f.cap) ==> f.head == rid.pageNo
  }

  /** One recovery action keeps the chain if and only if the guard holds. */
  lemma PutKeepsIff(f: LinkedFile, rid: Rid, image: Option<Record>)
    requires L.ChainOk(f) && RidFits(f.cap, rid)
    ensures L.ChainOk(PutIn(f, rid, image)) <==> Clean(f, rid, image)
  {
    hide FileOk;
    hide PutOn;
    hide PutIn;
    hide L.Linked;
    var g :| L.Shows(f, g) && FileOk(g);
    PutShows(f, g, rid, image);
    PutOnKeepsIff(g, rid, image);
    L.OnlyList(PutIn(f, rid, image), PutOn(g, rid, image));
    L.LinkedHead(f.pages, f.head, g.free);
  }

  lemma DeleteDefined(f: File, rid: Rid)
    requires IsRecord(f, rid)
    ensures DeleteRecord(f, rid).Some?
  {
  }

  datatype PutStep = PutStep(rid: Rid, image: Option<Record>)

  /** The actions of redo, in the order in which it performs them. */
  function RedoPuts(log: Log, who: set<TxnId>, tab: TableName): seq<PutStep> {
    if log == [] then []
    else
      var n := |log| - 1;
      RedoPuts(log[..n], who, tab)
      + if Touches(log[n], tab) && log[n].tid in who then [PutStep(log[n].body.rid, After(log[n].body))] else []
  }

  function UndoPuts(log: Log, who: set<TxnId>, tab: TableName): seq<PutStep>
    decreases |log|
  {
    if log == [] then []
    else
      var n := |log| - 1;
      (if Touches(log[n], tab) && log[n].tid in who then [PutStep(log[n].body.rid, Before(log[n].body))] else [])
      + UndoPuts(log[..n], who, tab)
  }

  /** Everything recovery does to one file: redo oldest first, then undo newest first. */
  function RecoveryPuts(log: Log, tab: TableName): seq<PutStep> {
    RedoPuts(log, CommittedOf(log), tab) + UndoPuts(log, ActiveOf(log), tab)
  }

  function RunPuts(f: LinkedFile, puts: seq<PutStep>): LinkedFile {
    if puts == [] then f
    else
      var n := |puts| - 1;
      PutIn(RunPuts(f, puts[..n]), puts[n].rid, puts[n].image)
  }

  lemma {:induction false} RunAppend(f: LinkedFile, a: seq<PutStep>, b: seq<PutStep>)
    ensures RunPuts(f, a + b) == RunPuts(RunPuts(f, a), b)
  {
    hide PutIn;
    if b == [] {
      assert a + b == a;
    } else {
      var n := |b| - 1;
      RunAppend(f, a, b[..n]);
      assert (a + b)[..|a + b| - 1] == a + b[..n];
    }
  }

  lemma RunOne(f: LinkedFile, p: PutStep)
    ensures RunPuts(f, [p]) == PutIn(f, p.rid, p.image)
  {
    assert [p][..0] == [];
  }

  lemma {:induction false} RedoRuns(f: LinkedFile, log: Log, who: set<TxnId>, tab: TableName)
    ensures RedoFile(f, log, who, tab) == RunPuts(f, RedoPuts(log, who, tab))
  {
    hide PutIn;
    if log == [] {
    } else {
      var n := |log| - 1;
      RedoRuns(f, log[..n], who, tab);
      var last := if Touches(log[n], tab) && log[n].tid in who then [PutStep(log[n].body.rid, After(log[n].body))]
        else [];
      RunAppend(f, RedoPuts(log[..n], who, tab), last);
      if last != [] { RunOne(RedoFile(f, log[..n], who, tab), last[0]); }
    }
  }

  lemma {:induction false} UndoRuns(f: LinkedFile, log: Log, who: set<TxnId>, tab: TableName)
    ensures UndoFile(f, log, who, tab) == RunPuts(f, UndoPuts(log, who, tab))
    decreases |log|
  {
    hide PutIn;
    if log == [] {
    } else {
      var n := |log| - 1;
      var first := if Touches(log[n], tab)
        && log[n].tid in who then [PutStep(log[n].body.rid, Before(log[n].body))] else [];
      RunAppend(f, first, UndoPuts(log[..n], who, tab));
      if first != [] { RunOne(f, first[0]); }
      UndoRuns(RunPuts(f, first), log[..n], who, tab);
    }
  }

  lemma RecoveryRuns(f: LinkedFile, log: Log, tab: TableName)
    ensures RecoveredFile(f, log, tab) == RunPuts(f, RecoveryPuts(log, tab))
  {
    hide RunPuts;
    hide RedoPuts;
    hide UndoPuts;
    RedoRuns(f, log, CommittedOf(log), tab);
    UndoRuns(RedoFile(f, log, CommittedOf(log), tab), log, ActiveOf(log), tab);
    RunAppend(f, RedoPuts(log, CommittedOf(log), tab), UndoPuts(log, ActiveOf(log), tab));
  }

  ghost predicate PutsFit(cap: nat, puts: seq<PutStep>) { forall i :: 0 <= i < |puts| ==> RidFits(cap, puts[i].rid) }

  lemma {:induction false} RedoPutsFit(cap: nat, log: Log, who: set<TxnId>, tab: TableName)
    requires LogFits(cap, log, tab)
    ensures PutsFit(cap, RedoPuts(log, who, tab))
  {
    if log == [] {
    } else {
      RedoPutsFit(cap, log[..|log| - 1], who, tab);
    }
  }

  lemma {:induction false} UndoPutsFit(cap: nat, log: Log, who: set<TxnId>, tab: TableName)
    requires LogFits(cap, log, tab)
    ensures PutsFit(cap, UndoPuts(log, who, tab))
    decreases |log|
  {
    if log == [] {
    } else {
      UndoPutsFit(cap, log[..|log| - 1], who, tab);
    }
  }

  lemma OkSlots(f: LinkedFile)
    requires L.ChainOk(f)
    ensures Readable(f)
  {
    var g :| L.Shows(f, g) && FileOk(g);
  }

  lemma {:induction false} RunSlots(f: LinkedFile, puts: seq<PutStep>)
    requires Readable(f) && PutsFit(f.cap, puts)
    ensures Readable(RunPuts(f, puts)) && RunPuts(f, puts).cap == f.cap
  {
    hide PutIn;
    hide Readable;
    if puts == [] {
    } else {
      var n := |puts| - 1;
      RunSlots(f, puts[..n]);
      PutInEffect(RunPuts(f, puts[..n]), puts[n].rid, puts[n].image);
    }
  }

  /** Each of the first n actions meets the guard in the state in which it runs. */
  ghost predicate CleanTo(f: LinkedFile, puts: seq<PutStep>, n: nat)
    requires n <= |puts|
  {
    forall k :: 0 <= k < n ==> Clean(RunPuts(f, puts[..k]), puts[k].rid, puts[k].image)
  }

  /** The chain is right before and after each of the first n actions. */
  ghost predicate OkTo(f: LinkedFile, puts: seq<PutStep>, n: nat)
    requires n <= |puts|
  {
    forall k :: 0 <= k <= n ==> L.ChainOk(RunPuts(f, puts[..k]))
  }

  lemma {:induction false} RunKeepsIff(f: LinkedFile, puts: seq<PutStep>, n: nat)
    requires L.ChainOk(f) && PutsFit(f.cap, puts) && n <= |puts|
    ensures OkTo(f, puts, n) <==> CleanTo(f, puts, n)
  {
    hide L.ChainOk;
    hide Clean;
    hide RunPuts;
    hide OkTo;
    hide CleanTo;
    if n == 0 {
      StartOk(f, puts);
    } else {
      RunKeepsIff(f, puts, n - 1);
      OneMoreTo(f, puts, n);
      var g := RunPuts(f, puts[..n - 1]);
      RunStep(f, puts, n);
      if L.ChainOk(g) { PutKeepsIff(g, puts[n - 1].rid, puts[n - 1].image); }
    }
  }

  lemma StartOk(f: LinkedFile, puts: seq<PutStep>)
    requires L.ChainOk(f)
    ensures OkTo(f, puts, 0) && CleanTo(f, puts, 0)
  {
    hide L.ChainOk;
    assert puts[..0] == [];
  }

  lemma OneMoreTo(f: LinkedFile, puts: seq<PutStep>, n: nat)
    requires 1 <= n <= |puts|
    ensures OkTo(f, puts, n) <==> OkTo(f, puts, n - 1) && L.ChainOk(RunPuts(f, puts[..n]))
    ensures CleanTo(f, puts, n) <==>
      CleanTo(f, puts, n - 1) && Clean(RunPuts(f, puts[..n - 1]), puts[n - 1].rid, puts[n - 1].image)
    ensures OkTo(f, puts, n - 1) ==> L.ChainOk(RunPuts(f, puts[..n - 1]))
  {
    hide L.ChainOk;
    hide Clean;
    hide RunPuts;
  }

  lemma RunStep(f: LinkedFile, puts: seq<PutStep>, n: nat)
    requires L.ChainOk(f) && PutsFit(f.cap, puts) && 1 <= n <= |puts|
    ensures RunPuts(f, puts[..n]) == PutIn(RunPuts(f, puts[..n - 1]), puts[n - 1].rid, puts[n - 1].image)
    ensures RidFits(RunPuts(f, puts[..n - 1]).cap, puts[n - 1].rid)
  {
    hide L.ChainOk;
    hide PutIn;
    assert puts[..n][..n - 1] == puts[..n - 1];
    OkSlots(f);
    RunSlots(f, puts[..n - 1]);
  }

  /** The chain is right before and after every action of recovery if and only if the crash left it right and no action
      fills, by a restoring insert, an existing page other than the head of the chain at that moment. */
  lemma ChainSurvivesIff(f: LinkedFile, log: Log, tab: TableName)
    requires LogFits(f.cap, log, tab)
    ensures var puts := RecoveryPuts(log, tab);
      && RecoveredFile(f, log, tab) == RunPuts(f, puts)
      && (OkTo(f, puts, |puts|) <==> L.ChainOk(f) && CleanTo(f, puts, |puts|))
  {
    hide L.ChainOk;
    hide RunPuts;
    hide Clean;
    hide RedoPuts;
    hide UndoPuts;
    var puts := RecoveryPuts(log, tab);
    RedoPutsFit(f.cap, log, CommittedOf(log), tab);
    UndoPutsFit(f.cap, log, ActiveOf(log), tab);
    RecoveryRuns(f, log, tab);
    RunNothing(f, puts);
    if L.ChainOk(f) { RunKeepsIff(f, puts, |puts|); }
  }

  lemma RunNothing(f: LinkedFile, puts: seq<PutStep>)
    ensures RunPuts(f, puts[..0]) == f
  {
    assert puts[..0] == [];
  }

  // -------------------------------------------------------------------------- stale links

  /** Every action finds on disk what it leaves: a record where it puts one, none where it deletes. */
  ghost predicate Settled(f: LinkedFile, puts: seq<PutStep>) {
    forall k :: 0 <= k < |puts| ==> (puts[k].image.Some? <==> L.IsRecord(f, puts[k].rid))
  }

  /** The same links and the same occupied slots. */
  ghost predicate SameLinks(f: LinkedFile, g: LinkedFile) {
    && g.cap == f.cap && g.head == f.head && |g.pages| == |f.pages|
    && (forall p :: 0 <= p < |f.pages| ==>
          g.pages[p].next == f.pages[p].next && g.pages[p].slots.Keys == f.pages[p].slots.Keys)
  }

  lemma SettledPut(f: LinkedFile, g: LinkedFile, rid: Rid, image: Option<Record>)
    requires SameLinks(f, g) && (image.Some? <==> L.IsRecord(f, rid))
    ensures SameLinks(f, PutIn(g, rid, image))
  {
    assert L.IsRecord(g, rid) <==> L.IsRecord(f, rid);
  }

  lemma {:induction false} SettledRun(f: LinkedFile, puts: seq<PutStep>)
    requires Settled(f, puts)
    ensures SameLinks(f, RunPuts(f, puts))
  {
    hide PutIn;
    hide L.IsRecord;
    if puts == [] {
    } else {
      var n := |puts| - 1;
      assert Settled(f, puts[..n]) by { assert forall k :: 0 <= k < n ==> puts[..n][k] == puts[k]; }
      SettledRun(f, puts[..n]);
      SettledPut(f, RunPuts(f, puts[..n]), puts[n].rid, puts[n].image);
    }
  }

  lemma SameLinksOk(f: LinkedFile, g: LinkedFile)
    requires SameLinks(f, g) && L.ChainOk(f)
    ensures L.ChainOk(g)
  {
    var a :| L.Shows(f, a) && FileOk(a);
    var b := L.WithList(g, a.free);
    L.LinkedFrame(f.pages, g.pages, f.head, a.free);
    SameKeysOk(a, b);
    assert L.Shows(g, b);
  }

  lemma SameKeysOk(a: File, b: File)
    requires FileOk(a) && b.cap == a.cap && b.free == a.free && |b.pages| == |a.pages|
    requires forall p :: 0 <= p < |a.pages| ==> b.pages[p].Keys == a.pages[p].Keys
    ensures FileOk(b)
  {
    forall p | 0 <= p < |a.pages| ensures |b.pages[p]| == |a.pages[p]| {
      assert |b.pages[p]| == |b.pages[p].Keys| && |a.pages[p]| == |a.pages[p].Keys|;
    }
  }

  /** When the pages on disk are up to date, recovery leaves every link as the crash left it: the chain is right after
      recovery if and only if it was right on disk. */
  lemma StaleLinksStay(f: LinkedFile, log: Log, tab: TableName)
    requires Settled(f, RecoveryPuts(log, tab))
    ensures SameLinks(f, RecoveredFile(f, log, tab))
    ensures L.ChainOk(RecoveredFile(f, log, tab)) <==> L.ChainOk(f)
  {
    hide Settled;
    hide RecoveredFile;
    hide RecoveryPuts;
    hide L.ChainOk;
    var g := RecoveredFile(f, log, tab);
    RecoveryRuns(f, log, tab);
    SettledRun(f, RecoveryPuts(log, tab));
    assert SameLinks(g, f);
    if L.ChainOk(f) { SameLinksOk(f, g); }
    if L.ChainOk(g) { SameLinksOk(g, f); }
  }
}
