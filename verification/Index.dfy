/** The runtime index: a sorted vector of composite keys (src/system/sm_manager.cpp). */
module Index {
  import opened Types
  import opened Compare

  datatype Entry = Entry(key: Key, rid: Rid)

  datatype Idx = Idx(meta: seq<ColMeta>, entries: seq<Entry>)

  ghost predicate Shaped(meta: seq<ColMeta>, k: Key) {
    |k| == |meta| && forall i :: 0 <= i < |k| ==> |k[i]| == meta[i].len
  }

  function TypesOf(meta: seq<ColMeta>): (ts: seq<ColType>)
    ensures |ts| == |meta| && forall i :: 0 <= i < |ts| ==> ts[i] == meta[i].ctype
  {
    seq(|meta|, i requires 0 <= i < |meta| => meta[i].ctype)
  }

  /** compare_index_key on the first n columns. */
  function Cmp(meta: seq<ColMeta>, a: Key, b: Key, n: nat): int
    requires n <= |meta| && n <= |a| && n <= |b|
  {
    CompareKey(TypesOf(meta), a, b, 0, n)
  }

  /** make_index_key. */
  function MakeKey(meta: seq<ColMeta>, rec: Record): (k: Key)
    requires Fits(meta, rec)
    ensures |k| == |meta| && forall i :: 0 <= i < |k| ==> k[i] == FieldOf(rec, meta[i])
  {
    seq(|meta|, i requires 0 <= i < |meta| => FieldOf(rec, meta[i]))
  }

  lemma MakeKeyShaped(meta: seq<ColMeta>, rec: Record)
    requires Fits(meta, rec)
    ensures Shaped(meta, MakeKey(meta, rec))
  {
  }

  /** Strictly increasing composite keys: sorted, and no key twice. */
  ghost predicate Sorted(ix: Idx) {
    && (forall i :: 0 <= i < |ix.entries| ==> Shaped(ix.meta, ix.entries[i].key))
    && (forall i, j :: 0 <= i < j < |ix.entries| ==> Cmp(ix.meta, ix.entries[i].key, ix.entries[j].key, |ix.meta|) < 0)
  }

  lemma CmpFlip(meta: seq<ColMeta>, a: Key, b: Key, n: nat)
    requires n <= |meta| && n <= |a| && n <= |b|
    ensures Cmp(meta, a, b, n) == -Cmp(meta, b, a, n)
  {
    KeyFlip(TypesOf(meta), a, b, 0, n);
  }

  /** Keys of entries and bounds: |k| columns, each of its column's length. */
  ghost predicate Prefix(meta: seq<ColMeta>, k: Key) {
    |k| <= |meta| && forall i :: 0 <= i < |k| ==> |k[i]| == meta[i].len
  }

  lemma CmpTrans(meta: seq<ColMeta>, a: Key, b: Key, c: Key, n: nat)
    requires n <= |a| && n <= |b| && n <= |c| && Prefix(meta, a) && Prefix(meta, b) && Prefix(meta, c)
    requires Cmp(meta, a, b, n) <= 0 && Cmp(meta, b, c, n) <= 0
    ensures Cmp(meta, a, c, n) <= 0
    ensures Cmp(meta, a, b, n) < 0 || Cmp(meta, b, c, n) < 0 ==> Cmp(meta, a, c, n) < 0
  {
    assert SameShape(a, b, n) && SameShape(b, c, n);
    KeyTrans(TypesOf(meta), a, b, c, 0, n);
  }

  /** On any leading columns, the entries of a sorted index are in weakly increasing order. */
  lemma SortedOnPrefix(ix: Idx, i: nat, j: nat, m: nat)
    requires Sorted(ix) && i <= j < |ix.entries| && m <= |ix.meta|
    ensures Cmp(ix.meta, ix.entries[i].key, ix.entries[j].key, m) <= 0
  {
    hide CompareKey;
    var a, b := ix.entries[i].key, ix.entries[j].key;
    if i < j { KeyPrefix(TypesOf(ix.meta), a, b, 0, m, |ix.meta|); } else { CmpFlip(ix.meta, a, a, m); }
  }

  // ----------------------------------------------------------- lower_bound and upper_bound

  /** std::lower_bound with the prefix order: the first entry not below the key. */
  function LowerBound(ix: Idx, key: Key, from: nat): (b: nat)
    requires |key| <= |ix.meta| && from <= |ix.entries|
    requires forall i :: 0 <= i < |ix.entries| ==> |key| <= |ix.entries[i].key|
    ensures from <= b <= |ix.entries|
    ensures forall i :: from <= i < b ==> Cmp(ix.meta, ix.entries[i].key, key, |key|) < 0
    ensures b < |ix.entries| ==> Cmp(ix.meta, ix.entries[b].key, key, |key|) >= 0
    decreases |ix.entries| - from
  {
    if from == |ix.entries| || Cmp(ix.meta, ix.entries[from].key, key, |key|) >= 0 then from
    else LowerBound(ix, key, from + 1)
  }

  /** std::upper_bound with the prefix order: the first entry above the key. */
  function UpperBound(ix: Idx, key: Key, from: nat): (b: nat)
    requires |key| <= |ix.meta| && from <= |ix.entries|
    requires forall i :: 0 <= i < |ix.entries| ==> |key| <= |ix.entries[i].key|
    ensures from <= b <= |ix.entries|
    ensures forall i :: from <= i < b ==> Cmp(ix.meta, key, ix.entries[i].key, |key|) >= 0
    ensures b < |ix.entries| ==> Cmp(ix.meta, key, ix.entries[b].key, |key|) < 0
    decreases |ix.entries| - from
  {
    if from == |ix.entries| || Cmp(ix.meta, key, ix.entries[from].key, |key|) < 0 then from
    else UpperBound(ix, key, from + 1)
  }

  lemma SortedFits(ix: Idx, key: Key)
    requires Sorted(ix) && Prefix(ix.meta, key)
    ensures forall i :: 0 <= i < |ix.entries| ==> |key| <= |ix.entries[i].key| && Prefix(ix.meta, ix.entries[i].key)
  {
  }

  /** In a sorted index the bound splits the entries: below the key before it, not below from it on. */
  lemma LowerBoundSplits(ix: Idx, key: Key, j: nat)
    requires Sorted(ix) && Prefix(ix.meta, key) && j < |ix.entries|
    ensures forall i :: 0 <= i < |ix.entries| ==> |key| <= |ix.entries[i].key|
    ensures j < LowerBound(ix, key, 0) <==> Cmp(ix.meta, ix.entries[j].key, key, |key|) < 0
  {
    hide Cmp;
    hide Sorted;
    SortedFits(ix, key);
    var b := LowerBound(ix, key, 0);
    if b <= j {
      SortedOnPrefix(ix, b, j, |key|);
      CmpFlip(ix.meta, ix.entries[b].key, key, |key|);
      CmpFlip(ix.meta, ix.entries[j].key, key, |key|);
      CmpTrans(ix.meta, key, ix.entries[b].key, ix.entries[j].key, |key|);
    }
  }

  lemma UpperBoundSplits(ix: Idx, key: Key, j: nat)
    requires Sorted(ix) && Prefix(ix.meta, key) && j < |ix.entries|
    ensures forall i :: 0 <= i < |ix.entries| ==> |key| <= |ix.entries[i].key|
    ensures j < UpperBound(ix, key, 0) <==> Cmp(ix.meta, ix.entries[j].key, key, |key|) <= 0
  {
    hide Cmp;
    hide Sorted;
    SortedFits(ix, key);
    var b := UpperBound(ix, key, 0);
    CmpFlip(ix.meta, key, ix.entries[j].key, |key|);
    if b <= j {
      SortedOnPrefix(ix, b, j, |key|);
      CmpTrans(ix.meta, key, ix.entries[b].key, ix.entries[j].key, |key|);
    }
  }

  // --------------------------------------------------------------- maintenance of the entries

  /** The position where check, insert and delete start: the lower bound of a full key. */
  function At(ix: Idx, key: Key): (b: nat)
    requires |key| == |ix.meta| && forall i :: 0 <= i < |ix.entries| ==> |ix.entries[i].key| == |ix.meta|
    ensures b <= |ix.entries|
  {
    LowerBound(ix, key, 0)
  }

  predicate Wide(ix: Idx) { forall i :: 0 <= i < |ix.entries| ==> |ix.entries[i].key| == |ix.meta| }

  /** check_index_insert on one index: a different rid already has this key. */
  predicate Duplicate(ix: Idx, key: Key, self: Option<Rid>)
    requires |key| == |ix.meta| && Wide(ix)
  {
    var b := At(ix, key);
    b < |ix.entries| && Cmp(ix.meta, ix.entries[b].key, key, |ix.meta|) == 0 && Some(ix.entries[b].rid) != self
  }

  function InsertEntry(ix: Idx, key: Key, rid: Rid): Idx
    requires |key| == |ix.meta| && Wide(ix)
  {
    var b := At(ix, key);
    ix.(entries := ix.entries[..b] + [Entry(key, rid)] + ix.entries[b..])
  }

  /** The erase loop: the first entry with an equal key and this rid, from position i on. */
  function Erase(ix: Idx, key: Key, rid: Rid, i: nat): Idx
    requires |key| == |ix.meta| && Wide(ix) && i <= |ix.entries|
    decreases |ix.entries| - i
  {
    if i == |ix.entries| || Cmp(ix.meta, ix.entries[i].key, key, |ix.meta|) != 0 then ix
    else if ix.entries[i].rid == rid then ix.(entries := ix.entries[..i] + ix.entries[i + 1..])
    else Erase(ix, key, rid, i + 1)
  }

  function DeleteEntry(ix: Idx, key: Key, rid: Rid): Idx
    requires |key| == |ix.meta| && Wide(ix)
  {
    Erase(ix, key, rid, At(ix, key))
  }

  /** An entry with an equal key is the one the search finds. */
  lemma EqualKeyAt(ix: Idx, key: Key, i: nat)
    requires Sorted(ix) && Shaped(ix.meta, key) && i < |ix.entries|
      && Cmp(ix.meta, ix.entries[i].key, key, |ix.meta|) == 0
    ensures Wide(ix) && At(ix, key) == i
  {
    hide CompareKey;
    LowerBoundSplits(ix, key, i);
    var b := At(ix, key);
    if b < i {
      LowerBoundSplits(ix, key, b);
      CmpFlip(ix.meta, ix.entries[b].key, key, |ix.meta|);
      CmpFlip(ix.meta, ix.entries[i].key, key, |ix.meta|);
      CmpTrans(ix.meta, key, ix.entries[b].key, ix.entries[i].key, |ix.meta|);
    }
  }

  /** The duplicate check is exact. */
  lemma DuplicateIff(ix: Idx, key: Key, self: Option<Rid>)
    requires Sorted(ix) && Shaped(ix.meta, key)
    ensures Wide(ix)
    ensures Duplicate(ix, key, self) <==>
            exists i :: 0 <= i < |ix.entries| && Cmp(ix.meta, ix.entries[i].key, key, |ix.meta|) == 0
              && Some(ix.entries[i].rid) != self
  {
    hide CompareKey;
    forall i | 0 <= i < |ix.entries| && Cmp(ix.meta, ix.entries[i].key, key, |ix.meta|) == 0
      ensures i == At(ix, key)
    {
      EqualKeyAt(ix, key, i);
    }
  }

  lemma InsertedEntries(ix: Idx, key: Key, rid: Rid)
    requires Wide(ix) && |key| == |ix.meta|
    ensures forall e :: e in InsertEntry(ix, key, rid).entries <==> e in ix.entries || e == Entry(key, rid)
    ensures |InsertEntry(ix, key, rid).entries| == |ix.entries| + 1
  {
    hide Cmp;
    hide LowerBound;
    var b := At(ix, key);
    assert ix.entries == ix.entries[..b] + ix.entries[b..];
  }

  lemma InsertedAt(ix: Idx, key: Key, rid: Rid, i: nat)
    requires Wide(ix) && |key| == |ix.meta| && i < |InsertEntry(ix, key, rid).entries|
    ensures InsertEntry(ix, key, rid).entries[i] ==
      if i < At(ix, key) then ix.entries[i] else if i == At(ix, key) then Entry(key, rid) else ix.entries[i - 1]
  {
    hide Cmp;
    hide LowerBound;
  }

  /** Where the new entry stands, its neighbours' keys are below and above it. */
  lemma InsertedPair(ix: Idx, key: Key, i: nat, j: nat)
    requires Sorted(ix) && Shaped(ix.meta, key) && Wide(ix) && i < j <= |ix.entries|
    requires forall i :: 0 <= i < |ix.entries| ==> Cmp(ix.meta, ix.entries[i].key, key, |ix.meta|) != 0
    ensures var b := At(ix, key);
      && (j == b ==> Cmp(ix.meta, ix.entries[i].key, key, |ix.meta|) < 0)
      && (i == b ==> Cmp(ix.meta, key, ix.entries[j - 1].key, |ix.meta|) < 0)
  {
    hide Cmp;
    hide Sorted;
    LowerBoundSplits(ix, key, i);
    LowerBoundSplits(ix, key, j - 1);
    CmpFlip(ix.meta, ix.entries[j - 1].key, key, |ix.meta|);
  }

  /** Inserting a key that no entry has keeps the index strictly sorted. */
  lemma InsertSorted(ix: Idx, key: Key, rid: Rid)
    requires Sorted(ix) && Shaped(ix.meta, key)
    requires forall i :: 0 <= i < |ix.entries| ==> Cmp(ix.meta, ix.entries[i].key, key, |ix.meta|) != 0
    ensures Wide(ix) && Sorted(InsertEntry(ix, key, rid))
    ensures forall e :: e in InsertEntry(ix, key, rid).entries <==> e in ix.entries || e == Entry(key, rid)
  {
    hide Cmp;
    hide InsertEntry;
    hide LowerBound;
    var b, ix' := At(ix, key), InsertEntry(ix, key, rid);
    InsertedEntries(ix, key, rid);
    InsertKeepsMeta(ix, key, rid);
    var es := ix'.entries;
    forall i | 0 <= i < |es| ensures Shaped(ix.meta, es[i].key) {
      InsertedAt(ix, key, rid, i);
    }
    forall i, j | 0 <= i < j < |es| ensures Cmp(ix.meta, es[i].key, es[j].key, |ix.meta|) < 0 {
      InsertedPair(ix, key, i, j);
      InsertedAt(ix, key, rid, i);
      InsertedAt(ix, key, rid, j);
    }
  }

  lemma InsertKeepsMeta(ix: Idx, key: Key, rid: Rid)
    requires Wide(ix) && |key| == |ix.meta|
    ensures InsertEntry(ix, key, rid).meta == ix.meta
  {
  }

  /** Deleting the entry of a key and rid that are present removes exactly that entry. */
  lemma DeleteSorted(ix: Idx, key: Key, rid: Rid)
    requires Sorted(ix) && Shaped(ix.meta, key) && Entry(key, rid) in ix.entries
    ensures Wide(ix) && Sorted(DeleteEntry(ix, key, rid)) && DeleteEntry(ix, key, rid).meta == ix.meta
    ensures forall e :: e in DeleteEntry(ix, key, rid).entries <==> e in ix.entries && e != Entry(key, rid)
  {
    hide CompareKey;
    var k :| 0 <= k < |ix.entries| && ix.entries[k] == Entry(key, rid);
    CmpFlip(ix.meta, key, key, |ix.meta|);
    EqualKeyAt(ix, key, k);
    RemovedAt(ix, k);
  }

  lemma RemovedAt(ix: Idx, b: nat)
    requires Sorted(ix) && b < |ix.entries|
    ensures var ix' := ix.(entries := ix.entries[..b] + ix.entries[b + 1..]);
      && Sorted(ix') && (forall e :: e in ix'.entries <==> e in ix.entries && e != ix.entries[b])
  {
    hide CompareKey;
    var es := ix.entries;
    var es' := es[..b] + es[b + 1..];
    assert forall i :: 0 <= i < |es'| ==> es'[i] == es[if i < b then i else i + 1];
    forall e ensures e in es' <==> e in es && e != es[b] { OtherEntries(ix, b, e); }
  }

  lemma OtherEntries(ix: Idx, b: nat, e: Entry)
    requires Sorted(ix) && b < |ix.entries|
    ensures e in ix.entries[..b] + ix.entries[b + 1..] <==> e in ix.entries && e != ix.entries[b]
  {
    hide Cmp;
    var es := ix.entries;
    assert es == es[..b] + [es[b]] + es[b + 1..];
    if e == es[b] { CmpFlip(ix.meta, e.key, e.key, |ix.meta|); }
  }

  // ------------------------------------------------------------------ agreement with the heap

  ghost predicate AllFit(meta: seq<ColMeta>, t: Table) {
    forall rid :: rid in t ==> Fits(meta, t[rid])
  }

  /** The index is strictly sorted and holds exactly one entry, (key of record, rid), per live record. */
  ghost predicate Agrees(ix: Idx, t: Table) {
    && AllFit(ix.meta, t)
    && Sorted(ix)
    && (forall e :: e in ix.entries <==> e.rid in t && e.key == MakeKey(ix.meta, t[e.rid]))
  }

  lemma AgreesWide(ix: Idx, t: Table)
    requires Agrees(ix, t)
    ensures Wide(ix)
  {
  }

  lemma InsertAgrees(ix: Idx, t: Table, rid: Rid, rec: Record)
    requires Agrees(ix, t) && rid !in t && Fits(ix.meta, rec) && Wide(ix)
    requires !Duplicate(ix, MakeKey(ix.meta, rec), None)
    ensures Agrees(InsertEntry(ix, MakeKey(ix.meta, rec), rid), t[rid := rec])
  {
    hide Cmp;
    var key := MakeKey(ix.meta, rec);
    MakeKeyShaped(ix.meta, rec);
    DuplicateIff(ix, key, None);
    InsertSorted(ix, key, rid);
  }

  lemma DeleteAgrees(ix: Idx, t: Table, rid: Rid)
    requires Agrees(ix, t) && rid in t && Wide(ix)
    ensures Agrees(DeleteEntry(ix, MakeKey(ix.meta, t[rid]), rid), t - {rid})
  {
    hide Cmp;
    MakeKeyShaped(ix.meta, t[rid]);
    DeleteSorted(ix, MakeKey(ix.meta, t[rid]), rid);
  }

  /** A key that only the record's own entry may have is free once that entry is gone. */
  lemma FreeAfterDelete(ix: Idx, ix1: Idx, key: Key, rid: Rid)
    requires Sorted(ix) && Sorted(ix1) && ix1.meta == ix.meta && Shaped(ix.meta, key) && Wide(ix) && Wide(ix1)
    requires !Duplicate(ix, key, Some(rid))
    requires forall e :: e in ix1.entries ==> e in ix.entries && e.rid != rid
    ensures !Duplicate(ix1, key, None)
  {
    hide Cmp;
    hide Sorted;
    DuplicateIff(ix, key, Some(rid));
    DuplicateIff(ix1, key, None);
    forall i | 0 <= i < |ix1.entries| ensures Cmp(ix1.meta, ix1.entries[i].key, key, |ix1.meta|) != 0 {
      var e := ix1.entries[i];
      assert e in ix1.entries;
      var j :| 0 <= j < |ix.entries| && ix.entries[j] == e;
    }
  }

  /** An update that passed the check keeps the agreement. */
  lemma UpdateAgrees(ix: Idx, t: Table, rid: Rid, rec: Record)
    requires Agrees(ix, t) && rid in t && Fits(ix.meta, rec) && Wide(ix)
    requires !Duplicate(ix, MakeKey(ix.meta, rec), Some(rid))
    ensures var ix1 := DeleteEntry(ix, MakeKey(ix.meta, t[rid]), rid);
      Wide(ix1) && ix1.meta == ix.meta && Agrees(InsertEntry(ix1, MakeKey(ix.meta, rec), rid), t[rid := rec])
  {
    hide Sorted;
    hide DeleteEntry;
    hide InsertEntry;
    hide Duplicate;
    hide Fits;
    hide Wide;
    var key, ix1 := MakeKey(ix.meta, rec), DeleteEntry(ix, MakeKey(ix.meta, t[rid]), rid);
    MakeKeyShaped(ix.meta, rec);
    DeleteKeepsMeta(ix, MakeKey(ix.meta, t[rid]), rid);
    DeleteAgrees(ix, t, rid);
    AgreesWide(ix1, t - {rid});
    FreeAfterDelete(ix, ix1, key, rid);
    InsertAgrees(ix1, t - {rid}, rid, rec);
    assert (t - {rid})[rid := rec] == t[rid := rec];
  }

  lemma {:induction false} DeleteKeepsMeta(ix: Idx, key: Key, rid: Rid)
    requires |key| == |ix.meta| && Wide(ix)
    ensures DeleteEntry(ix, key, rid).meta == ix.meta
  {
    EraseKeepsMeta(ix, key, rid, At(ix, key));
  }

  lemma {:induction false} EraseKeepsMeta(ix: Idx, key: Key, rid: Rid, i: nat)
    requires |key| == |ix.meta| && Wide(ix) && i <= |ix.entries|
    ensures Erase(ix, key, rid, i).meta == ix.meta
    decreases |ix.entries| - i
  {
    if i == |ix.entries| {
    } else {
      EraseKeepsMeta(ix, key, rid, i + 1);
    }
  }

  /** Two records of one table never have equal keys. */
  lemma KeysUnique(ix: Idx, t: Table, a: Rid, b: Rid)
    requires Agrees(ix, t) && a in t && b in t && a != b
    ensures Cmp(ix.meta, MakeKey(ix.meta, t[a]), MakeKey(ix.meta, t[b]), |ix.meta|) != 0
  {
    hide CompareKey;
    var ea, eb := Entry(MakeKey(ix.meta, t[a]), a), Entry(MakeKey(ix.meta, t[b]), b);
    assert ea in ix.entries && eb in ix.entries;
    var i :| 0 <= i < |ix.entries| && ix.entries[i] == ea;
    var j :| 0 <= j < |ix.entries| && ix.entries[j] == eb;
    CmpFlip(ix.meta, ea.key, eb.key, |ix.meta|);
  }

  lemma TailSorted(a: Idx)
    requires Sorted(a) && a.entries != []
    ensures Sorted(a.(entries := a.entries[1..]))
    ensures forall e :: e in a.entries[1..] <==> e in a.entries && e != a.entries[0]
  {
    hide Sorted;
    RemovedAt(a, 0);
    assert a.entries[..0] + a.entries[1..] == a.entries[1..];
  }

  /** The agreement determines the entries: strictly sorted vectors with the same entries are equal. */
  lemma {:induction false} SortedUnique(a: Idx, b: Idx)
    requires Sorted(a) && Sorted(b) && a.meta == b.meta && forall e :: e in a.entries <==> e in b.entries
    ensures a.entries == b.entries
    decreases |a.entries|
  {
    hide Sorted;
    if a.entries == [] {
      assert forall e :: e in b.entries ==> e in a.entries;
      assert forall i :: 0 <= i < |b.entries| ==> b.entries[i] in b.entries;
    } else {
      FirstEqual(a, b);
      TailSorted(a);
      TailSorted(b);
      SortedUnique(a.(entries := a.entries[1..]), b.(entries := b.entries[1..]));
      assert a.entries == [a.entries[0]] + a.entries[1..] && b.entries == [b.entries[0]] + b.entries[1..];
    }
  }

  lemma FirstEqual(a: Idx, b: Idx)
    requires Sorted(a) && Sorted(b) && a.meta == b.meta && a.entries != []
    requires forall e :: e in a.entries <==> e in b.entries
    ensures b.entries != [] && a.entries[0] == b.entries[0]
  {
    hide CompareKey;
    var x := a.entries[0];
    assert x in b.entries;
    var i :| 0 <= i < |b.entries| && b.entries[i] == x;
    var y := b.entries[0];
    assert y in a.entries;
    var j :| 0 <= j < |a.entries| && a.entries[j] == y;
    CmpFlip(a.meta, x.key, y.key, |a.meta|);
  }

  lemma AgreementDetermines(a: Idx, b: Idx, t: Table)
    requires Agrees(a, t) && Agrees(b, t) && a.meta == b.meta
    ensures a == b
  {
    SortedUnique(a, b);
  }
}
