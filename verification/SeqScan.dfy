/** The sequential scan executor (src/execution/executor_seq_scan.h): it gives the same rids as the index scan. */
module SeqScanning {
  import opened Types
  import opened Compare
  import opened IndexScanning
  import Heap
  import RecordFile
  import RecordScan

  /** n is the first answer after r, or the end position when there is none. */
  ghost predicate IsNextMatch(f: Heap.File, cols: seq<ColMeta>, conds: seq<Condition>, r: Rid, n: Rid) {
    var t := Heap.Contents(f);
    && ((Matches(cols, conds, t, n) && RidBefore(r, n)) || n == Rid(|f.pages|, -1))
    && (forall m :: Matches(cols, conds, t, m) && RidBefore(r, m) ==> m == n || RidBefore(n, m))
  }

  /** A live record that fails the conditions can be passed over. */
  lemma PassOver(f: Heap.File, cols: seq<ColMeta>, conds: seq<Condition>, n: Rid, n': Rid)
    requires Heap.FileOk(f) && RecordScan.IsNext(f, n, n') && !Matches(cols, conds, Heap.Contents(f), n)
    ensures forall m :: Matches(cols, conds, Heap.Contents(f), m) && (m == n || RidBefore(n, m)) ==>
              m == n' || RidBefore(n', m)
  {
    hide Heap.Contents;
    hide EvalConditions;
    hide Heap.FileOk;
    forall m | m in Heap.Contents(f) ensures Heap.IsRecord(f, m) { Heap.InContents(f, m); }
  }

  class SeqScanExecutor {
    const file: RecordFile.RmFileHandle
    const cols: seq<ColMeta>
    const conds: seq<Condition>
    var scan: RecordScan.RmScan
    ghost var from: Rid

    ghost function Rows(): Table
      requires file.Valid()
      reads file
    {
      Heap.Contents(file.State())
    }

    ghost predicate Ready()
      reads this, scan, file
    {
      file.Valid() && Queryable(cols, conds, Rows()) && scan.file == file && scan.Valid()
    }

    /** The scan stands on the first answer after `from`. */
    ghost predicate Valid()
      reads this, scan, file
    {
      Ready() && IsNextMatch(file.State(), cols, conds, from, scan.rid)
    }

    /** The executor is made together with its first scan. */
    constructor (fh: RecordFile.RmFileHandle, cs: seq<ColMeta>, where: seq<Condition>)
      requires fh.Valid() && Queryable(cs, where, Heap.Contents(fh.State()))
      ensures file == fh && cols == cs && conds == where && fresh(scan) && Valid() && from == RecordScan.START
    {
      file, cols, conds, from := fh, cs, where, RecordScan.START;
      scan := new RecordScan.RmScan(fh);
      new;
      SkipToMatch();
    }

    method BeginTuple()
      requires file.Valid() && Queryable(cols, conds, Rows())
      modifies this
      ensures fresh(scan) && Valid() && from == RecordScan.START
    {
      from := RecordScan.START;
      scan := new RecordScan.RmScan(file);
      SkipToMatch();
    }

    method SkipToMatch()
      requires Ready() && RecordScan.IsNext(file.State(), from, scan.rid)
      modifies scan
      ensures Valid()
    {
      hide EvalConditions;
      hide Heap.Contents;
      hide Heap.FileOk;
      hide RecordScan.IsNext;
      hide Queryable;
      hide AtOrBefore;
      hide IsNextMatch;
      ghost var f := file.State();
      FirstNext(f, cols, conds, from, scan.rid);
      var end := scan.IsEnd();
      while !end
        invariant Ready() && scan == old(scan) && from == old(from) && file.State() == f
        invariant end <==> scan.rid.pageNo >= |file.pages|
        invariant AtOrBefore(f, cols, conds, from, scan.rid)
        decreases |file.pages| - scan.rid.pageNo, file.cap - scan.rid.slotNo
      {
        var rec := file.GetRecord(scan.rid);
        LiveAt(f, cols, conds, from, scan.rid);
        assert Queryable(cols, conds, Heap.Contents(f));
        Readable(cols, conds, Heap.Contents(f), scan.rid);
        if EvalConditions(cols, conds, rec.value) { Arrived(f, cols, conds, from, scan.rid); return; }
        ghost var was := scan.rid;
        scan.Next();
        NextOne(f, cols, conds, from, was, scan.rid);
        ScanMovesOn(f, was, scan.rid);
        end := scan.IsEnd();
      }
      Arrived(f, cols, conds, from, scan.rid);
    }

    method NextTuple()
      requires Valid()
      modifies this, scan
      ensures scan == old(scan) && Valid()
      ensures from == if old(scan.rid).pageNo >= |file.pages| then old(from) else old(scan.rid)
    {
      hide IsNextMatch;
      hide Heap.Contents;
      hide Heap.FileOk;
      var end := scan.IsEnd();
      if end { return; }
      from := scan.rid;
      scan.Next();
      SkipToMatch();
    }

    method IsEnd() returns (end: bool)
      requires Valid()
      ensures end <==> scan.rid.pageNo >= |file.pages|
    {
      end := scan.IsEnd();
    }

    method Next() returns (rec: Option<Record>)
      requires Valid()
      ensures rec == if scan.rid.pageNo >= |file.pages| then None else Lookup(Rows(), scan.rid)
    {
      var end := IsEnd();
      if end { return None; }
      rec := file.GetRecord(scan.rid);
    }
  }

  /** The position is on a live record, or at the end, and no answer after r comes before it. */
  ghost predicate AtOrBefore(f: Heap.File, cols: seq<ColMeta>, conds: seq<Condition>, r: Rid, n: Rid) {
    && ((Heap.IsRecord(f, n) && RidBefore(r, n)) || n == Rid(|f.pages|, -1))
    && (forall m :: Matches(cols, conds, Heap.Contents(f), m) && RidBefore(r, m) ==> m == n || RidBefore(n, m))
  }

  lemma FirstNext(f: Heap.File, cols: seq<ColMeta>, conds: seq<Condition>, r: Rid, n: Rid)
    requires Heap.FileOk(f) && RecordScan.IsNext(f, r, n)
    ensures AtOrBefore(f, cols, conds, r, n)
  {
    hide Heap.Contents;
    hide EvalConditions;
    forall m | m in Heap.Contents(f) ensures Heap.IsRecord(f, m) { Heap.InContents(f, m); }
  }

  lemma NextOne(f: Heap.File, cols: seq<ColMeta>, conds: seq<Condition>, r: Rid, n: Rid, n': Rid)
    requires Heap.FileOk(f) && AtOrBefore(f, cols, conds, r, n) && n.pageNo < |f.pages|
    requires RecordScan.IsNext(f, n, n') && !Matches(cols, conds, Heap.Contents(f), n)
    ensures AtOrBefore(f, cols, conds, r, n')
  {
    hide Heap.Contents;
    hide Matches;
    hide Heap.FileOk;
    PassOver(f, cols, conds, n, n');
  }

  lemma Readable(cols: seq<ColMeta>, conds: seq<Condition>, t: Table, r: Rid)
    requires Queryable(cols, conds, t) && r in t
    ensures Fits(cols, t[r]) && forall i :: 0 <= i < |conds| ==> Resolves(cols, conds[i])
  {
  }

  lemma LiveAt(f: Heap.File, cols: seq<ColMeta>, conds: seq<Condition>, r: Rid, n: Rid)
    requires Heap.FileOk(f) && AtOrBefore(f, cols, conds, r, n) && n.pageNo < |f.pages|
    ensures n in Heap.Contents(f)
  {
    hide Matches;
    Heap.InContents(f, n);
  }

  lemma Arrived(f: Heap.File, cols: seq<ColMeta>, conds: seq<Condition>, r: Rid, n: Rid)
    requires AtOrBefore(f, cols, conds, r, n) && (n.pageNo >= |f.pages| || Matches(cols, conds, Heap.Contents(f), n))
    ensures IsNextMatch(f, cols, conds, r, n)
  {
    hide Matches;
  }

  /** rids are exactly the answers up to and including `last`, in order. */
  ghost predicate Answered(f: Heap.File, cols: seq<ColMeta>, conds: seq<Condition>, rids: seq<Rid>, last: Rid) {
    && RecordScan.Increasing(rids)
    && (if rids == [] then last == RecordScan.START else last == rids[|rids| - 1])
    && (forall r :: r in rids <==> Matches(cols, conds, Heap.Contents(f), r) && !RidBefore(last, r))
  }

  lemma AnsweredNothing(f: Heap.File, cols: seq<ColMeta>, conds: seq<Condition>)
    requires Heap.FileOk(f)
    ensures Answered(f, cols, conds, [], RecordScan.START)
  {
    hide Heap.Contents;
    hide EvalConditions;
    forall m | m in Heap.Contents(f) ensures RidBefore(RecordScan.START, m) { Heap.InContents(f, m); }
  }

  lemma AnsweredOne(f: Heap.File, cols: seq<ColMeta>, conds: seq<Condition>, rids: seq<Rid>, last: Rid, n: Rid)
    requires Answered(f, cols, conds, rids, last) && IsNextMatch(f, cols, conds, last, n) && n.pageNo < |f.pages|
    ensures Answered(f, cols, conds, rids + [n], n)
  {
    hide Matches;
    var rids' := rids + [n];
    assert forall r :: r in rids' <==> r in rids || r == n;
    forall i, j | 0 <= i < j < |rids'| ensures RidBefore(rids'[i], rids'[j]) {
      if j == |rids| { assert rids'[i] in rids; assert RidBefore(last, n); }
    }
  }

  lemma AnsweredAll(f: Heap.File, cols: seq<ColMeta>, conds: seq<Condition>, rids: seq<Rid>, last: Rid, n: Rid)
    requires Answered(f, cols, conds, rids, last) && IsNextMatch(f, cols, conds, last, n) && n.pageNo >= |f.pages|
    requires Heap.FileOk(f)
    ensures RecordScan.Increasing(rids) && forall r :: r in rids <==> Matches(cols, conds, Heap.Contents(f), r)
  {
    hide Heap.Contents;
    hide EvalConditions;
    forall m | m in Heap.Contents(f) ensures m.pageNo < |f.pages| { Heap.InContents(f, m); }
  }

  /** The sequential scan, run to its end, gives every answer exactly once, in (page, slot) order. Its rids are
      therefore the same set as the index scan's. */
  method RunSeqScan(fh: RecordFile.RmFileHandle, cols: seq<ColMeta>, conds: seq<Condition>) returns (out: seq<Rid>)
    requires fh.Valid() && Queryable(cols, conds, Heap.Contents(fh.State()))
    ensures RecordScan.Increasing(out) && forall r :: r in out <==> Matches(cols, conds, Heap.Contents(fh.State()), r)
  {
    hide Matches;
    hide Answered;
    hide IsNextMatch;
    hide Heap.Contents;
    hide Heap.FileOk;
    hide Queryable;
    hide RecordScan.Increasing;
    var scan := new SeqScanExecutor(fh, cols, conds);
    ghost var f := fh.State();
    out := [];
    AnsweredNothing(f, cols, conds);
    var end := scan.IsEnd();
    while !end
      invariant fresh(scan) && fresh(scan.scan) && scan.file == fh && scan.cols == cols && scan.conds == conds
        && scan.Valid()
      invariant fh.State() == f && (end <==> scan.scan.rid.pageNo >= |fh.pages|)
      invariant Answered(f, cols, conds, out, scan.from)
      decreases |fh.pages| - scan.scan.rid.pageNo, fh.cap - scan.scan.rid.slotNo
    {
      ghost var was := scan.scan.rid;
      AnsweredOne(f, cols, conds, out, scan.from, was);
      out := out + [scan.scan.rid];
      scan.NextTuple();
      MovesOn(f, cols, conds, was, scan.scan.rid);
      end := scan.IsEnd();
    }
    AnsweredAll(f, cols, conds, out, scan.from, scan.scan.rid);
  }

  lemma ScanMovesOn(f: Heap.File, r: Rid, n: Rid)
    requires RecordScan.IsNext(f, r, n) && r.pageNo < |f.pages|
    ensures RidBefore(r, n)
  {
  }

  lemma MovesOn(f: Heap.File, cols: seq<ColMeta>, conds: seq<Condition>, r: Rid, n: Rid)
    requires IsNextMatch(f, cols, conds, r, n) && r.pageNo < |f.pages|
    ensures RidBefore(r, n)
  {
    hide Matches;
  }
}
