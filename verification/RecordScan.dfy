/** RmScan (src/record/rm_scan.cpp): the heap scan in (page, slot) order. */
module RecordScan {
  import opened Types
  import opened Finite
  import opened Heap
  import opened RecordFile

  /** n is the first live record after r, or the end position when there is none. */
  ghost predicate IsNext(f: File, r: Rid, n: Rid) {
    && ((IsRecord(f, n) && RidBefore(r, n)) || n == Rid(|f.pages|, -1))
    && (forall m :: IsRecord(f, m) && RidBefore(r, m) ==> m == n || RidBefore(n, m))
  }

  class RmScan {
    const file: RmFileHandle
    var rid: Rid

    ghost predicate Valid()
      reads this, file
    {
      file.Valid() && 1 <= rid.pageNo <= |file.pages| && -1 <= rid.slotNo < file.cap
    }

    /** The constructor calls next() from just before the first data page. */
    constructor (fh: RmFileHandle)
      requires fh.Valid()
      ensures file == fh && Valid() && IsNext(file.State(), Rid(RM_FIRST_RECORD_PAGE, -1), rid)
    {
      file := fh;
      rid := Rid(RM_FIRST_RECORD_PAGE, -1);
      new;
      Next();
    }

    method IsEnd() returns (end: bool)
      ensures end <==> rid.pageNo >= |file.pages|
    {
      end := rid.pageNo >= |file.pages|;
    }

    method Next()
      requires Valid() && (rid.pageNo < |file.pages| || rid.slotNo == -1)
      modifies this
      ensures Valid() && IsNext(file.State(), old(rid), rid)
    {
      hide FileOk;
      var pageNo, slotNo := rid.pageNo, rid.slotNo;
      while pageNo < |file.pages|
        invariant old(rid).pageNo <= pageNo <= |file.pages| && -1 <= slotNo < file.cap
        invariant pageNo == old(rid).pageNo ==> slotNo == old(rid).slotNo
        invariant pageNo > old(rid).pageNo ==> slotNo == -1
        invariant rid == old(rid) && file.Valid()
        invariant forall m :: IsRecord(file.State(), m) && RidBefore(old(rid), m) ==> RidBefore(Rid(pageNo, slotNo), m)
      {
        var nextSlot := NextBit(true, file.pages[pageNo].bits, file.cap, slotNo);
        assert forall m :: file.HasRecord(m) <==> IsRecord(file.State(), m);
        if nextSlot < file.cap {
          rid := Rid(pageNo, nextSlot);
          assert file.HasRecord(rid);
          return;
        }
        pageNo, slotNo := pageNo + 1, -1;
      }
      rid := Rid(|file.pages|, -1);
    }
  }

  ghost predicate Increasing(rids: seq<Rid>) {
    forall i, j :: 0 <= i < j < |rids| ==> RidBefore(rids[i], rids[j])
  }

  const START := Rid(RM_FIRST_RECORD_PAGE, -1)

  /** rids are exactly the live records up to and including `last`, in order. */
  ghost predicate Visited(f: File, rids: seq<Rid>, last: Rid) {
    && Increasing(rids)
    && (if rids == [] then last == START else last == rids[|rids| - 1])
    && (forall r :: r in rids <==> IsRecord(f, r) && !RidBefore(last, r))
  }

  lemma VisitOne(f: File, rids: seq<Rid>, last: Rid, n: Rid)
    requires Visited(f, rids, last) && IsNext(f, last, n) && IsRecord(f, n)
    ensures Visited(f, rids + [n], n)
  {
    var rids' := rids + [n];
    assert forall r :: r in rids' <==> r in rids || r == n;
    forall i, j | 0 <= i < j < |rids'| ensures RidBefore(rids'[i], rids'[j]) {
      if j == |rids| { assert rids'[i] in rids; assert RidBefore(last, n); }
    }
  }

  /** A full scan visits every live record exactly once, in increasing (page, slot) order, for every pattern of
      bitmaps. */
  method ScanAll(fh: RmFileHandle) returns (rids: seq<Rid>)
    requires fh.Valid()
    ensures Increasing(rids)
    ensures forall r :: r in rids <==> r in Contents(fh.State())
  {
    hide Contents;
    hide FileOk;
    hide Increasing;
    hide Visited;
    rids := [];
    ghost var f := fh.State();
    var scan := new RmScan(fh);
    ghost var last := START;
    VisitedNothing(f);
    var end := scan.IsEnd();
    while !end
      invariant fresh(scan) && scan.file == fh && scan.Valid() && fh.State() == f
      invariant end <==> scan.rid.pageNo >= |fh.pages|
      invariant Visited(f, rids, last) && IsNext(f, last, scan.rid)
      decreases |fh.pages| - scan.rid.pageNo, fh.cap - scan.rid.slotNo
    {
      VisitOne(f, rids, last, scan.rid);
      rids := rids + [scan.rid];
      last := scan.rid;
      scan.Next();
      end := scan.IsEnd();
    }
    VisitedAll(f, rids, last, scan.rid);
    forall r ensures r in rids <==> r in Contents(f) { InContents(f, r); }
  }

  lemma VisitedNothing(f: File)
    ensures Visited(f, [], START)
  {
  }

  lemma VisitedAll(f: File, rids: seq<Rid>, last: Rid, end: Rid)
    requires Visited(f, rids, last) && IsNext(f, last, end) && end.pageNo >= |f.pages|
    ensures Increasing(rids) && forall r :: r in rids <==> IsRecord(f, r)
  {
  }
}
