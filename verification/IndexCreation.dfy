/** create_index and rebuild_runtime_index (src/system/sm_manager.cpp): collect the entries of a table in scan order,
    sort them, and look for equal neighbours. */
module IndexCreation {
  import opened Types
  import opened Compare
  import opened Index
  import opened IndexBuild
  import Heap
  import RecordFile
  import RecordScan

  // ------------------------------------------------------------------------------ collecting

  /** One entry per listed rid, with the key of its record. */
  ghost predicate EntriesOf(meta: seq<ColMeta>, es: seq<Entry>, rids: seq<Rid>, t: Table)
    requires AllFit(meta, t)
  {
    |es| == |rids| && forall i :: 0 <= i < |es| ==> rids[i] in t && es[i] == Entry(MakeKey(meta, t[rids[i]]), rids[i])
  }

  /** The scan loop: every live record gives one entry. */
  method CollectEntries(meta: seq<ColMeta>, fh: RecordFile.RmFileHandle) returns (es: seq<Entry>, ghost rids: seq<Rid>)
    requires fh.Valid() && AllFit(meta, Heap.Contents(fh.State()))
    ensures EntriesOf(meta, es, rids, Heap.Contents(fh.State()))
    ensures RecordScan.Increasing(rids) && forall r :: r in rids <==> r in Heap.Contents(fh.State())
  {
    hide Heap.Contents;
    hide Heap.FileOk;
    var found := RecordScan.ScanAll(fh);
    rids := found;
    es := [];
    for i := 0 to |found|
      invariant EntriesOf(meta, es, found[..i], Heap.Contents(fh.State()))
    {
      assert found[i] in found;
      var rec := fh.GetRecord(found[i]);
      es := es + [Entry(MakeKey(meta, rec.value), found[i])];
      assert found[..i + 1] == found[..i] + [found[i]];
    }
    assert found[..|found|] == found;
  }

  // -------------------------------------------------------------------------------- sorting

  ghost predicate AllShaped(meta: seq<ColMeta>, es: seq<Entry>)
  {
    forall i :: 0 <= i < |es| ==> Shaped(meta, es[i].key)
  }

  ghost predicate Ordered(meta: seq<ColMeta>, es: seq<Entry>)
    requires AllShaped(meta, es)
  {
    forall i, j :: 0 <= i < j < |es| ==> EntryBefore(meta, es[i], es[j])
  }

  ghost predicate RidsDiffer(es: seq<Entry>) { forall i, j :: 0 <= i < j < |es| ==> es[i].rid != es[j].rid }

  lemma BeforeTrans(meta: seq<ColMeta>, x: Entry, y: Entry, z: Entry)
    requires Shaped(meta, x.key) && Shaped(meta, y.key) && Shaped(meta, z.key)
    requires EntryBefore(meta, x, y) && EntryBefore(meta, y, z)
    ensures EntryBefore(meta, x, z)
  {
    hide CompareKey;
    var n := |meta|;
    CmpTrans(meta, x.key, y.key, z.key, n);
    if Cmp(meta, x.key, z.key, n) == 0 {
      CmpFlip(meta, x.key, y.key, n);
      CmpFlip(meta, y.key, z.key, n);
    }
  }

  /** Entries of different records are comparable, one way. */
  lemma BeforeTotal(meta: seq<ColMeta>, x: Entry, y: Entry)
    requires Shaped(meta, x.key) && Shaped(meta, y.key) && x.rid != y.rid
    ensures EntryBefore(meta, x, y) <==> !EntryBefore(meta, y, x)
  {
    hide CompareKey;
    CmpFlip(meta, x.key, y.key, |meta|);
  }

  /** The comparator that std::sort is given. */
  method LessThan(meta: seq<ColMeta>, x: Entry, y: Entry) returns (r: bool)
    requires |x.key| == |meta| && |y.key| == |meta|
    ensures r == EntryBefore(meta, x, y)
  {
    var cmp := Cmp(meta, x.key, y.key, |meta|);
    if cmp != 0 { return cmp < 0; }
    return RidBefore(x.rid, y.rid);
  }

  /** Putting one entry where it belongs. */
  method Place(meta: seq<ColMeta>, es: seq<Entry>, e: Entry) returns (r: seq<Entry>)
    requires AllShaped(meta, es) && Ordered(meta, es) && Shaped(meta, e.key)
    requires forall i :: 0 <= i < |es| ==> es[i].rid != e.rid
    ensures AllShaped(meta, r) && Ordered(meta, r) && |r| == |es| + 1 && forall x :: x in r <==> x in es || x == e
  {
    hide EntryBefore;
    var k := 0;
    while k < |es|
      invariant 0 <= k <= |es| && forall i :: 0 <= i < k ==> EntryBefore(meta, es[i], e)
    {
      var less := LessThan(meta, es[k], e);
      if !less { break; }
      k := k + 1;
    }
    r := es[..k] + [e] + es[k..];
    if k < |es| { BeforeTotal(meta, es[k], e); }
    Placed(meta, es, e, k);
  }

  /** The entries around the place where e belongs. */
  lemma Around(meta: seq<ColMeta>, es: seq<Entry>, e: Entry, k: nat)
    requires AllShaped(meta, es) && Ordered(meta, es) && Shaped(meta, e.key) && k < |es| && EntryBefore(meta, e, es[k])
    ensures forall i :: k <= i < |es| ==> EntryBefore(meta, e, es[i])
  {
    hide EntryBefore;
    forall i | k <= i < |es| ensures EntryBefore(meta, e, es[i]) {
      if i > k { BeforeTrans(meta, e, es[k], es[i]); }
    }
  }

  lemma PlacedOrdered(meta: seq<ColMeta>, es: seq<Entry>, e: Entry, k: nat, r: seq<Entry>)
    requires AllShaped(meta, es) && Ordered(meta, es) && Shaped(meta, e.key) && k <= |es|
    requires forall i :: 0 <= i < k ==> EntryBefore(meta, es[i], e)
    requires forall i :: k <= i < |es| ==> EntryBefore(meta, e, es[i])
    requires |r| == |es| + 1 && r[..k] == es[..k] && r[k] == e && r[k + 1..] == es[k..]
    ensures AllShaped(meta, r) && Ordered(meta, r)
  {
    hide EntryBefore;
    forall i | 0 <= i < |r| ensures Shaped(meta, r[i].key) {
      if i < k { assert r[..k][i] == es[i]; } else if i > k { assert r[k + 1..][i - k - 1] == es[i - 1]; }
    }
    forall i, j | 0 <= i < j < |r| ensures EntryBefore(meta, r[i], r[j]) {
      if i < k { assert r[..k][i] == es[i]; } else if i > k { assert r[k + 1..][i - k - 1] == es[i - 1]; }
      if j < k { assert r[..k][j] == es[j]; } else if j > k { assert r[k + 1..][j - k - 1] == es[j - 1]; }
    }
  }

  lemma Placed(meta: seq<ColMeta>, es: seq<Entry>, e: Entry, k: nat)
    requires AllShaped(meta, es) && Ordered(meta, es) && Shaped(meta, e.key) && k <= |es|
    requires forall i :: 0 <= i < k ==> EntryBefore(meta, es[i], e)
    requires k < |es| ==> EntryBefore(meta, e, es[k])
    ensures var r := es[..k] + [e] + es[k..];
      AllShaped(meta, r) && Ordered(meta, r) && |r| == |es| + 1 && forall x :: x in r <==> x in es || x == e
  {
    hide EntryBefore;
    hide Ordered;
    var r := es[..k] + [e] + es[k..];
    assert es == es[..k] + es[k..];
    if k < |es| { Around(meta, es, e, k); }
    PlacedOrdered(meta, es, e, k, r);
  }

  /** The result that std::sort is specified to give: the same entries in the comparator's order. */
  method SortEntries(meta: seq<ColMeta>, es: seq<Entry>) returns (r: seq<Entry>)
    requires AllShaped(meta, es) && RidsDiffer(es)
    ensures AllShaped(meta, r) && Ordered(meta, r) && |r| == |es| && forall x :: x in r <==> x in es
  {
    hide Ordered;
    r := [];
    NothingOrdered(meta);
    for i := 0 to |es|
      invariant AllShaped(meta, r) && Ordered(meta, r) && |r| == i && forall x :: x in r <==> x in es[..i]
    {
      forall k | 0 <= k < |r| ensures r[k].rid != es[i].rid {
        assert r[k] in es[..i];
        var j :| 0 <= j < i && es[..i][j] == r[k];
      }
      r := Place(meta, r, es[i]);
      assert es[..i + 1] == es[..i] + [es[i]];
    }
    assert es[..|es|] == es;
  }

  lemma NothingOrdered(meta: seq<ColMeta>)
    ensures AllShaped(meta, []) && Ordered(meta, [])
  {
  }

  // ---------------------------------------------------------------------- the whole operation

  lemma CollectedShape(meta: seq<ColMeta>, es: seq<Entry>, rids: seq<Rid>, t: Table)
    requires AllFit(meta, t) && EntriesOf(meta, es, rids, t) && RecordScan.Increasing(rids)
      && forall r :: r in rids <==> r in t
    ensures AllShaped(meta, es) && RidsDiffer(es)
    ensures forall e :: e in es <==> e.rid in t && e.key == MakeKey(meta, t[e.rid])
  {
    hide Fits;
    forall i | 0 <= i < |es| ensures Shaped(meta, es[i].key) { MakeKeyShaped(meta, t[rids[i]]); }
    forall e ensures e in es <==> e.rid in t && e.key == MakeKey(meta, t[e.rid]) {
      if e.rid in t && e.key == MakeKey(meta, t[e.rid]) {
        assert e.rid in rids;
        var i :| 0 <= i < |rids| && rids[i] == e.rid;
        assert es[i] == e;
      }
    }
  }

  /** rebuild_runtime_index: the sorted entries of the table. It agrees with the table if and only if no two records
      have equal keys. */
  method RebuildIndex(meta: seq<ColMeta>, fh: RecordFile.RmFileHandle) returns (ix: Idx)
    requires fh.Valid() && AllFit(meta, Heap.Contents(fh.State()))
    ensures ix.meta == meta && Built(meta, ix.entries, Heap.Contents(fh.State()))
    ensures Agrees(ix, Heap.Contents(fh.State())) <==> KeysDiffer(meta, Heap.Contents(fh.State()))
  {
    hide Heap.Contents;
    hide Heap.FileOk;
    hide EntryBefore;
    hide Agrees;
    hide KeysDiffer;
    ghost var rids;
    var es;
    es, rids := CollectEntries(meta, fh);
    CollectedShape(meta, es, rids, Heap.Contents(fh.State()));
    es := SortEntries(meta, es);
    ix := Idx(meta, es);
    BuildExact(meta, es, Heap.Contents(fh.State()));
  }

  /** create_index: the duplicate error if and only if two records have equal keys; otherwise the new index agrees with
      the table. */
  method CreateIndex(meta: seq<ColMeta>, fh: RecordFile.RmFileHandle) returns (ix: Option<Idx>)
    requires fh.Valid() && AllFit(meta, Heap.Contents(fh.State()))
    ensures ix.Some? <==> KeysDiffer(meta, Heap.Contents(fh.State()))
    ensures ix.Some? ==> ix.value.meta == meta && Agrees(ix.value, Heap.Contents(fh.State()))
  {
    hide Heap.Contents;
    hide Heap.FileOk;
    hide EntryBefore;
    hide Agrees;
    hide KeysDiffer;
    hide Cmp;
    var r := RebuildIndex(meta, fh);
    BuildExact(meta, r.entries, Heap.Contents(fh.State()));
    var i := 1;
    while i < |r.entries|
      invariant 1 <= i
      invariant forall j :: 1 <= j < i && j < |r.entries| ==>
        Cmp(meta, r.entries[j - 1].key, r.entries[j].key, |meta|) != 0
    {
      if Cmp(meta, r.entries[i - 1].key, r.entries[i].key, |meta|) == 0 { return None; }
      i := i + 1;
    }
    return Some(r);
  }
}
