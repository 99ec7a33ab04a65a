/** scan_index as a loop (src/system/sm_manager.cpp) and the index scan executor
    (src/execution/executor_index_scan.h). */
module IndexScanning {
  import opened Types
  import opened Compare
  import opened Index
  import opened IndexRange
  import Heap
  import RecordFile

  // -------------------------------------------------------------------------- scan_index

  /** The search for an equality condition on one index column. */
  method FindEq(conds: seq<Condition>, col: Col) returns (r: Option<Field>)
    ensures r == FirstEq(conds, col)
  {
    var i := 0;
    while i < |conds|
      invariant 0 <= i <= |conds| && FirstEq(conds, col) == FirstEq(conds[i..], col)
    {
      if IsEq(conds[i], col) { return Some(conds[i].rhs.raw); }
      i := i + 1;
    }
    return None;
  }

  /** The loop over the range conditions on the first column without an equality condition. */
  method TightenBounds(meta: seq<ColMeta>, conds: seq<Condition>, eqs: Key)
      returns (lower: Option<Bound>, upper: Option<Bound>)
    requires |eqs| < |meta|
    ensures lower == Best(meta, Lower, conds, eqs, |conds|) && upper == Best(meta, Upper, conds, eqs, |conds|)
  {
    hide Better;
    lower, upper := None, None;
    var col := meta[|eqs|].col;
    for i := 0 to |conds|
      invariant lower == Best(meta, Lower, conds, eqs, i) && upper == Best(meta, Upper, conds, eqs, i)
    {
      var cond := conds[i];
      if !cond.rhs.RhsVal? || cond.lhs != col { continue; }
      if cond.op != OpLt && cond.op != OpLe && cond.op != OpGt && cond.op != OpGe { continue; }
      var bound := eqs + [cond.rhs.raw];
      if cond.op == OpGt || cond.op == OpGe {
        var b := Bound(bound, cond.op == OpGe);
        if lower.None? || Better(meta, Lower, b, lower.value) { lower := Some(b); }
      } else {
        var b := Bound(bound, cond.op == OpLe);
        if upper.None? || Better(meta, Upper, b, upper.value) { upper := Some(b); }
      }
    }
  }

  /** The loop over the index columns. */
  method FindBounds(meta: seq<ColMeta>, conds: seq<Condition>) returns (lower: Option<Bound>, upper: Option<Bound>)
    ensures lower == Limit(meta, Lower, conds) && upper == Limit(meta, Upper, conds)
  {
    hide Best;
    var eqs: Key := [];
    lower, upper := None, None;
    var i := 0;
    while i < |meta|
      invariant 0 <= i <= |meta| && |eqs| == i && lower.None? && upper.None?
      invariant EqPrefix(meta, conds, 0) == eqs + EqPrefix(meta, conds, i)
    {
      var eq := FindEq(conds, meta[i].col);
      if eq.None? {
        assert eqs + [] == eqs;
        lower, upper := TightenBounds(meta, conds, eqs);
        break;
      }
      assert eqs + ([eq.value] + EqPrefix(meta, conds, i + 1)) == (eqs + [eq.value]) + EqPrefix(meta, conds, i + 1);
      eqs := eqs + [eq.value];
      i := i + 1;
    }
    assert eqs + [] == eqs;
    if |eqs| > 0 && lower.None? { lower := Some(Bound(eqs, true)); }
    if |eqs| > 0 && upper.None? { upper := Some(Bound(eqs, true)); }
  }

  lemma LimitFits(meta: seq<ColMeta>, side: Side, conds: seq<Condition>)
    requires ValuesFit(meta, conds)
    ensures var b := Limit(meta, side, conds); b.Some? ==> Prefix(meta, b.value.key)
  {
    hide Best;
    var eqs := EqPrefix(meta, conds, 0);
    EqPrefixIsPrefix(meta, conds);
    if |eqs| < |meta| { BestFitsAll(meta, side, conds, eqs, |conds|); }
  }

  /** The rids of a contiguous part of the entries; empty when the limits contradict each other. */
  ghost function RidsIn(ix: Idx, b: nat, e: nat): (s: seq<Rid>)
    requires e <= |ix.entries|
    ensures |s| == if b <= e then e - b else 0
  {
    seq(if b <= e then e - b else 0, i requires 0 <= i < (if b <= e then e - b else 0) => ix.entries[b + i].rid)
  }

  ghost predicate Fitted(ix: Idx, bound: Option<Bound>) {
    bound.Some? ==> |bound.value.key| <= |ix.meta| && forall i :: 0 <= i < |ix.entries| ==>
      |bound.value.key| <= |ix.entries[i].key|
  }

  /** Where the range begins and ends. */
  function BeginOf(ix: Idx, lower: Option<Bound>): (b: nat)
    requires Fitted(ix, lower)
    ensures b <= |ix.entries|
  {
    if lower.None? then 0
    else if lower.value.inclusive then LowerBound(ix, lower.value.key, 0) else UpperBound(ix, lower.value.key, 0)
  }

  function EndOf(ix: Idx, upper: Option<Bound>): (e: nat)
    requires Fitted(ix, upper)
    ensures e <= |ix.entries|
  {
    if upper.None? then |ix.entries|
    else if upper.value.inclusive then UpperBound(ix, upper.value.key, 0) else LowerBound(ix, upper.value.key, 0)
  }

  /** Exactly the entries with selected keys are at positions b to e. */
  ghost predicate RangeIs(ix: Idx, conds: seq<Condition>, b: nat, e: nat) {
    forall j :: 0 <= j < |ix.entries| ==>
      (b <= j < e <==> Shaped(ix.meta, ix.entries[j].key) && Selected(ix.meta, conds, ix.entries[j].key))
  }

  lemma LimitsFitted(ix: Idx, conds: seq<Condition>, side: Side)
    requires Sorted(ix) && ValuesFit(ix.meta, conds)
    ensures Fitted(ix, Limit(ix.meta, side, conds))
  {
    hide Limit;
    hide Sorted;
    LimitFits(ix.meta, side, conds);
    var b := Limit(ix.meta, side, conds);
    if b.Some? { SortedFits(ix, b.value.key); }
  }

  /** The two positions bracket exactly the selected entries, for multiple and for contradictory bounds. */
  lemma RangeExact(ix: Idx, conds: seq<Condition>)
    requires Sorted(ix) && ValuesFit(ix.meta, conds)
    ensures var lower, upper := Limit(ix.meta, Lower, conds), Limit(ix.meta, Upper, conds);
      Fitted(ix, lower) && Fitted(ix, upper) && RangeIs(ix, conds, BeginOf(ix, lower), EndOf(ix, upper))
  {
    hide Selected;
    hide Limit;
    hide InsideOpt;
    hide Cmp;
    hide BeginOf;
    hide EndOf;
    var lower, upper := Limit(ix.meta, Lower, conds), Limit(ix.meta, Upper, conds);
    LimitsFitted(ix, conds, Lower);
    LimitsFitted(ix, conds, Upper);
    LimitFits(ix.meta, Lower, conds);
    LimitFits(ix.meta, Upper, conds);
    forall j | 0 <= j < |ix.entries|
      ensures BeginOf(ix, lower) <= j < EndOf(ix, upper) <==>
        Shaped(ix.meta, ix.entries[j].key) && Selected(ix.meta, conds, ix.entries[j].key)
    {
      AfterBegin(ix, lower, j);
      BeforeEnd(ix, upper, j);
      LimitsAreConditions(ix.meta, conds, ix.entries[j].key);
    }
  }

  /** Where an entry stands with respect to the position says whether its key is inside the limit. */
  lemma AfterBegin(ix: Idx, lower: Option<Bound>, j: nat)
    requires Sorted(ix) && j < |ix.entries| && Fitted(ix, lower) && (lower.Some? ==> Prefix(ix.meta, lower.value.key))
    ensures Shaped(ix.meta, ix.entries[j].key)
    ensures BeginOf(ix, lower) <= j <==> InsideOpt(ix.meta, Lower, lower, ix.entries[j].key)
  {
    hide Cmp;
    if lower.Some? { LowerBoundSplits(ix, lower.value.key, j); UpperBoundSplits(ix, lower.value.key, j); }
  }

  lemma BeforeEnd(ix: Idx, upper: Option<Bound>, j: nat)
    requires Sorted(ix) && j < |ix.entries| && Fitted(ix, upper) && (upper.Some? ==> Prefix(ix.meta, upper.value.key))
    ensures Shaped(ix.meta, ix.entries[j].key)
    ensures j < EndOf(ix, upper) <==> InsideOpt(ix.meta, Upper, upper, ix.entries[j].key)
  {
    hide Cmp;
    if upper.Some? { LowerBoundSplits(ix, upper.value.key, j); UpperBoundSplits(ix, upper.value.key, j); }
  }

  /** The range that is returned holds exactly the entries whose keys meet the equality prefix and every range
      condition on the next column. */
  method ScanIndex(ix: Idx, conds: seq<Condition>) returns (b: nat, e: nat, rids: seq<Rid>)
    requires Sorted(ix) && ValuesFit(ix.meta, conds)
    ensures e <= |ix.entries| && rids == RidsIn(ix, b, e)
    ensures RangeIs(ix, conds, b, e)
  {
    hide Sorted;
    hide RangeIs;
    hide Limit;
    hide BeginOf;
    hide EndOf;
    var lower, upper := FindBounds(ix.meta, conds);
    RangeExact(ix, conds);
    b, e := BeginOf(ix, lower), EndOf(ix, upper);
    rids := [];
    var it := b;
    while it < e
      invariant b <= it && (b <= e ==> it <= e) && (e < b ==> it == b)
      invariant |rids| == it - b && (forall i :: b <= i < it ==> rids[i - b] == ix.entries[i].rid)
    {
      rids := rids + [ix.entries[it].rid];
      it := it + 1;
    }
  }

  // ------------------------------------------------------------ conditions on records and on keys

  /** The index columns are columns of the table. */
  ghost predicate IndexOf(meta: seq<ColMeta>, cols: seq<ColMeta>) {
    forall i :: 0 <= i < |meta| ==> FindCol(cols, meta[i].col) == Some(meta[i])
  }

  ghost predicate AllResolve(cols: seq<ColMeta>, conds: seq<Condition>) {
    forall i :: 0 <= i < |conds| ==> Resolves(cols, conds[i])
  }

  lemma {:induction false} EqPrefixAt(meta: seq<ColMeta>, conds: seq<Condition>, i: nat, j: nat)
    requires i <= |meta| && j < |EqPrefix(meta, conds, i)|
    ensures FirstEq(conds, meta[i + j].col) == Some(EqPrefix(meta, conds, i)[j])
    decreases j
  {
    if j == 0 {
    } else {
      EqPrefixAt(meta, conds, i + 1, j - 1);
    }
  }

  /** A record that satisfies the conditions has a selected key: the range misses no answer. */
  lemma AnswersSelected(meta: seq<ColMeta>, cols: seq<ColMeta>, conds: seq<Condition>, rec: Record)
    requires IndexOf(meta, cols) && AllResolve(cols, conds) && Fits(cols, rec) && Fits(meta, rec)
    requires EvalConditions(cols, conds, rec)
    ensures Selected(meta, conds, MakeKey(meta, rec))
  {
    hide CompareRaw;
    hide FirstEq;
    var k, eqs := MakeKey(meta, rec), EqPrefix(meta, conds, 0);
    forall j | 0 <= j < |eqs| ensures CompareRaw(meta[j].ctype, k[j], eqs[j]) == 0 {
      EqPrefixAt(meta, conds, 0, j);
      var i :| 0 <= i < |conds| && IsEq(conds[i], meta[j].col) && conds[i].rhs.raw == eqs[j];
      assert EvalCondition(cols, conds[i], rec);
    }
    if |eqs| < |meta| {
      RangesAnswered(meta, cols, conds, rec, Lower);
      RangesAnswered(meta, cols, conds, rec, Upper);
    }
  }

  lemma RangesAnswered(meta: seq<ColMeta>, cols: seq<ColMeta>, conds: seq<Condition>, rec: Record, side: Side)
    requires IndexOf(meta, cols) && AllResolve(cols, conds) && Fits(cols, rec) && Fits(meta, rec)
    requires EvalConditions(cols, conds, rec) && |EqPrefix(meta, conds, 0)| < |meta|
    ensures RangesHold(meta, side, conds, EqPrefix(meta, conds, 0), |conds|, MakeKey(meta, rec))
  {
    hide CompareRaw;
    hide EqPrefix;
    var p := |EqPrefix(meta, conds, 0)|;
    forall i | 0 <= i < |conds| && IsRange(conds[i], meta[p].col, side)
      ensures EvalCompare(CompareRaw(meta[p].ctype, MakeKey(meta, rec)[p], conds[i].rhs.raw), conds[i].op)
    {
      assert EvalCondition(cols, conds[i], rec);
    }
  }

  lemma ResolvedValuesFit(meta: seq<ColMeta>, cols: seq<ColMeta>, conds: seq<Condition>)
    requires IndexOf(meta, cols) && AllResolve(cols, conds)
    ensures ValuesFit(meta, conds)
  {
    forall i, j | 0 <= i < |conds| && 0 <= j < |meta| && conds[i].rhs.RhsVal? && conds[i].lhs == meta[j].col
      ensures |conds[i].rhs.raw| == meta[j].len
    {
      assert Resolves(cols, conds[i]);
    }
  }

  /** The rid is an answer: a live record that satisfies every condition. */
  predicate Matches(cols: seq<ColMeta>, conds: seq<Condition>, t: Table, r: Rid) {
    r in t && Fits(cols, t[r]) && (forall i :: 0 <= i < |conds| ==> Resolves(cols, conds[i]))
      && EvalConditions(cols, conds, t[r])
  }

  /** What both executors need: records as long as the columns say, and conditions over existing columns. */
  ghost predicate Queryable(cols: seq<ColMeta>, conds: seq<Condition>, t: Table) {
    AllResolve(cols, conds) && forall r :: r in t ==> Fits(cols, t[r])
  }

  ghost function Kept(cols: seq<ColMeta>, conds: seq<Condition>, t: Table, rids: seq<Rid>): seq<Rid> {
    if rids == [] then []
    else if Matches(cols, conds, t, rids[0]) then [rids[0]] + Kept(cols, conds, t, rids[1..])
    else Kept(cols, conds, t, rids[1..])
  }

  lemma {:induction false} KeptElements(cols: seq<ColMeta>, conds: seq<Condition>, t: Table, rids: seq<Rid>)
    ensures forall r :: r in Kept(cols, conds, t, rids) <==> r in rids && Matches(cols, conds, t, r)
  {
    hide Matches;
    if rids == [] {
    } else {
      KeptElements(cols, conds, t, rids[1..]);
      assert rids == [rids[0]] + rids[1..];
    }
  }

  ghost predicate Once(rids: seq<Rid>) { forall i, j :: 0 <= i < j < |rids| ==> rids[i] != rids[j] }

  lemma {:induction false} KeptOnce(cols: seq<ColMeta>, conds: seq<Condition>, t: Table, rids: seq<Rid>)
    requires Once(rids)
    ensures Once(Kept(cols, conds, t, rids))
  {
    hide Matches;
    if rids == [] {
    } else {
      KeptOnce(cols, conds, t, rids[1..]);
      KeptElements(cols, conds, t, rids[1..]);
      assert rids[0] !in rids[1..];
    }
  }

  /** The part of the index that scan_index returns holds every answer, and no rid twice. */
  lemma RangeHoldsAnswers(ix: Idx, t: Table, cols: seq<ColMeta>, conds: seq<Condition>, b: nat, e: nat)
    requires Agrees(ix, t) && IndexOf(ix.meta, cols) && Queryable(cols, conds, t) && e <= |ix.entries|
    requires RangeIs(ix, conds, b, e)
    ensures Once(RidsIn(ix, b, e)) && forall r :: Matches(cols, conds, t, r) ==> r in RidsIn(ix, b, e)
    ensures forall r :: r in RidsIn(ix, b, e) ==> r in t
  {
    hide Agrees;
    hide RangeIs;
    hide Matches;
    var rids := RidsIn(ix, b, e);
    forall i, j | 0 <= i < j < |rids| ensures rids[i] != rids[j] {
      EntriesOnce(ix, t, b + i, b + j);
    }
    forall r | Matches(cols, conds, t, r) ensures r in rids {
      var j := AnswerInRange(ix, t, cols, conds, b, e, r);
      assert rids[j - b] == r;
    }
    forall r | r in rids ensures r in t {
      var i :| 0 <= i < |rids| && rids[i] == r;
      EntriesLive(ix, t, b + i);
    }
  }

  lemma EntriesLive(ix: Idx, t: Table, i: nat)
    requires Agrees(ix, t) && i < |ix.entries|
    ensures ix.entries[i].rid in t
  {
    hide Sorted;
    assert ix.entries[i] in ix.entries;
  }

  /** The position of an answer's entry is in the range. */
  lemma AnswerInRange(ix: Idx, t: Table, cols: seq<ColMeta>, conds: seq<Condition>, b: nat, e: nat, r: Rid)
      returns (j: nat)
    requires Agrees(ix, t) && IndexOf(ix.meta, cols) && Queryable(cols, conds, t) && e <= |ix.entries|
    requires RangeIs(ix, conds, b, e) && Matches(cols, conds, t, r)
    ensures b <= j < e && ix.entries[j].rid == r
  {
    hide Selected;
    hide Sorted;
    hide EvalConditions;
    var entry := Entry(MakeKey(ix.meta, t[r]), r);
    assert entry in ix.entries;
    j :| 0 <= j < |ix.entries| && ix.entries[j] == entry;
    MakeKeyShaped(ix.meta, t[r]);
    AnswersSelected(ix.meta, cols, conds, t[r]);
  }

  lemma EntriesOnce(ix: Idx, t: Table, i: nat, j: nat)
    requires Agrees(ix, t) && i < j < |ix.entries|
    ensures ix.entries[i].rid != ix.entries[j].rid
  {
    hide CompareKey;
    var x, y := ix.entries[i], ix.entries[j];
    assert x in ix.entries && y in ix.entries;
    if x.rid == y.rid { CmpFlip(ix.meta, x.key, x.key, |ix.meta|); }
  }

  // ---------------------------------------------------------------------------- executors

  class IndexScanExecutor {
    const file: RecordFile.RmFileHandle
    const ix: Idx
    const cols: seq<ColMeta>
    const conds: seq<Condition>
    var rids: seq<Rid>
    var cursor: nat
    var rid: Rid

    ghost function Rows(): Table
      requires file.Valid()
      reads file
    {
      Heap.Contents(file.State())
    }

    ghost predicate Ready()
      reads file
    {
      file.Valid() && Agrees(ix, Rows()) && IndexOf(ix.meta, cols) && Queryable(cols, conds, Rows())
    }

    ghost predicate Loaded()
      reads this, file
    {
      Ready() && cursor <= |rids| && (forall r :: r in rids ==> r in Rows())
    }

    ghost predicate Valid()
      reads this, file
    {
      && Loaded()
      && (cursor < |rids| ==> rid == rids[cursor] && Matches(cols, conds, Rows(), rid))
    }

    /** The rids still to be given out. */
    ghost function Rest(): seq<Rid>
      requires Loaded()
      reads this, file
    {
      Kept(cols, conds, Rows(), rids[cursor..])
    }

    constructor (fh: RecordFile.RmFileHandle, index: Idx, cs: seq<ColMeta>, where: seq<Condition>)
      ensures file == fh && ix == index && cols == cs && conds == where && rids == [] && cursor == 0
    {
      file, ix, cols, conds, rids, cursor := fh, index, cs, where, [], 0;
      rid := Rid(0, 0);
    }

    /** The loop shared by beginTuple and nextTuple: move on to the next record that satisfies the conditions. */
    method SkipToMatch()
      requires Loaded()
      modifies this
      ensures Valid() && rids == old(rids) && Rest() == old(Rest())
    {
      hide EvalConditions;
      hide Agrees;
      hide Heap.Contents;
      while cursor < |rids|
        invariant Loaded() && rids == old(rids) && Rest() == old(Rest())
      {
        rid := rids[cursor];
        assert rid in rids;
        var rec := file.GetRecord(rid);
        if EvalConditions(cols, conds, rec.value) { return; }
        assert rids[cursor..][1..] == rids[cursor + 1..];
        cursor := cursor + 1;
      }
    }

    method BeginTuple()
      requires Ready()
      modifies this
      ensures Valid() && Once(Rest()) && forall r :: r in Rest() <==> Matches(cols, conds, Rows(), r)
    {
      hide Agrees;
      hide Matches;
      hide RangeIs;
      hide Heap.Contents;
      ResolvedValuesFit(ix.meta, cols, conds);
      AgreesSorted(ix, Rows());
      var b, e, found := ScanIndex(ix, conds);
      RangeHoldsAnswers(ix, Rows(), cols, conds, b, e);
      rids, cursor := found, 0;
      assert rids[0..] == rids;
      KeptElements(cols, conds, Rows(), rids);
      KeptOnce(cols, conds, Rows(), rids);
      SkipToMatch();
    }

    method NextTuple()
      requires Valid()
      modifies this
      ensures Valid() && Rest() == if old(Rest()) == [] then [] else old(Rest())[1..]
    {
      hide Agrees;
      hide Matches;
      hide Heap.Contents;
      if cursor >= |rids| { return; }
      assert rids[cursor..][1..] == rids[cursor + 1..];
      cursor := cursor + 1;
      SkipToMatch();
    }

    method IsEnd() returns (end: bool)
      requires Valid()
      ensures end <==> Rest() == []
    {
      end := cursor >= |rids|;
    }

    method Next() returns (rec: Option<Record>)
      requires Valid()
      ensures rec == if Rest() == [] then None else Lookup(Rows(), Rest()[0])
    {
      if cursor >= |rids| { return None; }
      rec := file.GetRecord(rids[cursor]);
    }
  }

  lemma AgreesSorted(ix: Idx, t: Table)
    requires Agrees(ix, t)
    ensures Sorted(ix)
  {
  }

  /** The index scan, run to its end, gives every answer exactly once and nothing else. */
  method RunIndexScan(fh: RecordFile.RmFileHandle, ix: Idx, cols: seq<ColMeta>, conds: seq<Condition>)
      returns (out: seq<Rid>)
    requires fh.Valid() && Agrees(ix, Heap.Contents(fh.State())) && IndexOf(ix.meta, cols)
    requires Queryable(cols, conds, Heap.Contents(fh.State()))
    ensures Once(out) && forall r :: r in out <==> Matches(cols, conds, Heap.Contents(fh.State()), r)
  {
    hide Agrees;
    hide Matches;
    hide Kept;
    hide Heap.Contents;
    hide Heap.FileOk;
    hide Queryable;
    hide IndexOf;
    hide RecordFile.RmFileHandle.Shape;
    hide RecordFile.RmFileHandle.State;
    hide Once;
    var scan := new IndexScanExecutor(fh, ix, cols, conds);
    scan.BeginTuple();
    ghost var all := scan.Rest();
    out := [];
    var end := scan.IsEnd();
    while !end
      invariant fresh(scan) && scan.Valid() && all == out + scan.Rest() && (end <==> scan.Rest() == [])
      invariant scan.file == fh
      decreases |scan.Rest()|
    {
      assert scan.rid == scan.Rest()[0] by { CurrentIsFirst(scan); }
      Shift(out, scan.Rest());
      out := out + [scan.rid];
      scan.NextTuple();
      end := scan.IsEnd();
    }
    assert all == out;
  }

  lemma Shift(out: seq<Rid>, rest: seq<Rid>)
    requires rest != []
    ensures out + rest == (out + [rest[0]]) + rest[1..]
  {
  }

  lemma CurrentIsFirst(scan: IndexScanExecutor)
    requires scan.Valid() && scan.Rest() != []
    ensures scan.cursor < |scan.rids| && scan.rid == scan.Rest()[0]
  {
  }
}
