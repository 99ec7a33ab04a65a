/** Keys as bytes, building an index from its table, and the planner's choice of an index (src/system/sm_manager.cpp,
    src/optimizer/planner.cpp). */
module IndexBuild {
  import opened Types
  import opened Compare
  import opened Index
  import opened IndexRange

  // ---------------------------------------------------------------- keys as concatenated bytes

  /** The bytes of the columns from i on, one after the other, as make_index_key appends them. */
  function Flat(k: Key, i: nat): seq<Byte>
    requires i <= |k|
    decreases |k| - i
  {
    if i == |k| then [] else k[i] + Flat(k, i + 1)
  }

  /** compare_index_key walks both keys with one running offset; on keys of the index's column lengths it is the
      column-by-column comparison. */
  method CompareIndexKey(meta: seq<ColMeta>, lhs: seq<Byte>, rhs: seq<Byte>, n: nat, ghost a: Key, ghost b: Key)
      returns (r: int)
    requires Prefix(meta, a) && Prefix(meta, b) && n <= |a| && n <= |b| && lhs == Flat(a, 0) && rhs == Flat(b, 0)
    ensures r == Cmp(meta, a, b, n)
  {
    hide CompareRaw;
    var offset := 0;
    var i := 0;
    while i < n
      invariant 0 <= i <= n && 0 <= offset <= |lhs| && offset <= |rhs|
      invariant lhs[offset..] == Flat(a, i) && rhs[offset..] == Flat(b, i)
      invariant Cmp(meta, a, b, n) == CompareKey(TypesOf(meta), a, b, i, n)
    {
      var len := meta[i].len;
      NextField(lhs, offset, a, i);
      NextField(rhs, offset, b, i);
      var cmp := CompareRaw(meta[i].ctype, lhs[offset..offset + len], rhs[offset..offset + len]);
      if cmp != 0 { return cmp; }
      offset := offset + len;
      i := i + 1;
    }
    return 0;
  }

  lemma NextField(s: seq<Byte>, offset: nat, k: Key, i: nat)
    requires offset <= |s| && i < |k| && s[offset..] == Flat(k, i)
    ensures offset + |k[i]| <= |s| && s[offset..offset + |k[i]|] == k[i] && s[offset + |k[i]|..] == Flat(k, i + 1)
  {
    var n := |k[i]|;
    assert s[offset..] == k[i] + Flat(k, i + 1);
    assert s[offset..][..n] == k[i] && s[offset..][n..] == Flat(k, i + 1);
    assert s[offset..][n..] == s[offset + n..];
  }

  // ------------------------------------------------------------ create_index and rebuild

  /** The order that std::sort is given: by key, then by rid. */
  ghost predicate EntryBefore(meta: seq<ColMeta>, x: Entry, y: Entry)
    requires |x.key| == |meta| && |y.key| == |meta|
  {
    var c := Cmp(meta, x.key, y.key, |meta|);
    c < 0 || (c == 0 && RidBefore(x.rid, y.rid))
  }

  /** The entries collected from a scan of the table, in the sorted order. */
  ghost predicate Built(meta: seq<ColMeta>, es: seq<Entry>, t: Table) {
    && AllFit(meta, t)
    && (forall e :: e in es <==> e.rid in t && e.key == MakeKey(meta, t[e.rid]))
    && (forall i :: 0 <= i < |es| ==> Shaped(meta, es[i].key))
    && (forall i, j :: 0 <= i < j < |es| ==> EntryBefore(meta, es[i], es[j]))
  }

  /** The loop of create_index over neighbours finds no equal keys. */
  ghost predicate NeighboursDiffer(meta: seq<ColMeta>, es: seq<Entry>)
    requires forall i :: 0 <= i < |es| ==> |es[i].key| == |meta|
  {
    forall i :: 1 <= i < |es| ==> Cmp(meta, es[i - 1].key, es[i].key, |meta|) != 0
  }

  ghost predicate KeysDiffer(meta: seq<ColMeta>, t: Table)
    requires AllFit(meta, t)
  {
    forall a, b :: a in t && b in t && a != b ==> Cmp(meta, MakeKey(meta, t[a]), MakeKey(meta, t[b]), |meta|) != 0
  }

  /** Looking at neighbours is enough: keys of distant entries differ as well. */
  lemma StrictFromNeighbours(meta: seq<ColMeta>, es: seq<Entry>, t: Table, i: nat, j: nat)
    requires Built(meta, es, t) && NeighboursDiffer(meta, es) && i < j < |es|
    ensures Cmp(meta, es[i].key, es[j].key, |meta|) < 0
  {
    hide CompareKey;
    var n := |meta|;
    assert EntryBefore(meta, es[i], es[i + 1]);
    assert Cmp(meta, es[i + 1 - 1].key, es[i + 1].key, n) != 0;
    if i + 1 < j {
      assert EntryBefore(meta, es[i + 1], es[j]);
      CmpTrans(meta, es[i].key, es[i + 1].key, es[j].key, n);
    }
  }

  /** Creating an index succeeds exactly when no two records of the table have equal keys, and then the new index agrees
      with the table; a rebuilt index agrees exactly under the same condition. */
  lemma BuildExact(meta: seq<ColMeta>, es: seq<Entry>, t: Table)
    requires Built(meta, es, t)
    ensures NeighboursDiffer(meta, es) <==> KeysDiffer(meta, t)
    ensures Agrees(Idx(meta, es), t) <==> KeysDiffer(meta, t)
  {
    hide Cmp;
    if NeighboursDiffer(meta, es) {
      forall i, j | 0 <= i < j < |es|
        ensures Cmp(meta, es[i].key, es[j].key, |meta|) < 0
      {
        StrictFromNeighbours(meta, es, t, i, j);
      }
      assert Agrees(Idx(meta, es), t);
    }
    if Agrees(Idx(meta, es), t) {
      forall a, b | a in t && b in t && a != b
        ensures Cmp(meta, MakeKey(meta, t[a]), MakeKey(meta, t[b]), |meta|) != 0
      {
        KeysUnique(Idx(meta, es), t, a, b);
      }
    }
    if KeysDiffer(meta, t) {
      forall i | 1 <= i < |es|
        ensures Cmp(meta, es[i - 1].key, es[i].key, |meta|) != 0
      {
        NeighbourKeys(meta, es, t, i);
      }
    }
  }

  lemma NeighbourKeys(meta: seq<ColMeta>, es: seq<Entry>, t: Table, i: nat)
    requires Built(meta, es, t) && KeysDiffer(meta, t) && 1 <= i < |es|
    ensures Cmp(meta, es[i - 1].key, es[i].key, |meta|) != 0
  {
    hide Cmp;
    var x, y := es[i - 1], es[i];
    assert x in es && y in es;
    assert EntryBefore(meta, x, y);
    if x.rid == y.rid { CmpFlip(meta, x.key, x.key, |meta|); }
  }

  // ------------------------------------------------------------------------ get_index_cols

  predicate HasRange(conds: seq<Condition>, col: Col) {
    exists i :: 0 <= i < |conds| && (IsRange(conds[i], col, Lower) || IsRange(conds[i], col, Upper))
  }

  /** The number of leading columns that the search can use. */
  function Score(meta: seq<ColMeta>, conds: seq<Condition>): nat {
    var p := |EqPrefix(meta, conds, 0)|;
    p + if p < |meta| && HasRange(conds, meta[p].col) then 1 else 0
  }

  /** The two inner loops of get_index_cols. */
  method ScoreIndex(meta: seq<ColMeta>, conds: seq<Condition>) returns (score: nat)
    ensures score == Score(meta, conds)
  {
    hide FirstEq;
    score := 0;
    var i := 0;
    while i < |meta|
      invariant score == i <= |meta| && |EqPrefix(meta, conds, 0)| == i + |EqPrefix(meta, conds, i)|
    {
      var hasEq, hasRange := false, false;
      for j := 0 to |conds|
        invariant hasEq <==> exists k :: 0 <= k < j && IsEq(conds[k], meta[i].col)
        invariant hasRange <==>
          exists k :: 0 <= k < j && (IsRange(conds[k], meta[i].col, Lower) || IsRange(conds[k], meta[i].col, Upper))
      {
        var cond := conds[j];
        if !cond.rhs.RhsVal? || cond.lhs != meta[i].col { continue; }
        if cond.op == OpEq { hasEq := true; }
        else if cond.op == OpLt || cond.op == OpLe || cond.op == OpGt || cond.op == OpGe { hasRange := true; }
      }
      if !hasEq {
        if hasRange { score := score + 1; }
        return;
      }
      score, i := score + 1, i + 1;
    }
  }

  /** get_index_cols: an index with the greatest score, the first such; none when no index can use a condition. */
  method ChooseIndex(metas: seq<seq<ColMeta>>, conds: seq<Condition>) returns (best: Option<nat>)
    ensures best.None? <==> forall i :: 0 <= i < |metas| ==> Score(metas[i], conds) == 0
    ensures best.Some? ==> best.value < |metas| && Score(metas[best.value], conds) > 0
    ensures best.Some? ==> forall i :: 0 <= i < |metas| ==> Score(metas[i], conds) <= Score(metas[best.value], conds)
    ensures best.Some? ==> forall i :: 0 <= i < best.value ==> Score(metas[i], conds) < Score(metas[best.value], conds)
  {
    hide Score;
    var bestScore := 0;
    best := None;
    for i := 0 to |metas|
      invariant bestScore == if best.None? then 0 else if best.value < i then Score(metas[best.value], conds) else 0
      invariant best.Some? ==> best.value < i && bestScore > 0
      invariant forall k :: 0 <= k < i ==> Score(metas[k], conds) <= bestScore
      invariant best.Some? ==> forall k :: 0 <= k < best.value ==> Score(metas[k], conds) < bestScore
    {
      var score := ScoreIndex(metas[i], conds);
      if score > bestScore { bestScore, best := score, Some(i); }
    }
  }

  lemma {:induction false} BestExists(meta: seq<ColMeta>, side: Side, conds: seq<Condition>, eqs: Key, n: nat)
    requires |eqs| < |meta| && n <= |conds|
    ensures Best(meta, side, conds, eqs, n).Some? <==>
      exists i :: 0 <= i < n && IsRange(conds[i], meta[|eqs|].col, side)
  {
    hide Better;
    hide IsRange;
    if n == 0 {
    } else {
      BestExists(meta, side, conds, eqs, n - 1);
    }
  }

  /** Some condition fixes the column to a value. */
  predicate Equates(conds: seq<Condition>, col: Col) {
    exists i :: 0 <= i < |conds| && conds[i].rhs.RhsVal? && conds[i].lhs == col && conds[i].op == OpEq
  }

  /** Some condition bounds the column by a value, from below or from above. */
  predicate Bounds(conds: seq<Condition>, col: Col) {
    exists i :: 0 <= i < |conds| && conds[i].rhs.RhsVal? && conds[i].lhs == col
      && (conds[i].op == OpLt || conds[i].op == OpLe || conds[i].op == OpGt || conds[i].op == OpGe)
  }

  /** The conditions narrow the first n columns of the index: they fix all but the last, and fix or bound the last. */
  predicate Narrows(meta: seq<ColMeta>, conds: seq<Condition>, n: nat) {
    && n <= |meta| && (forall i :: 0 <= i < n - 1 ==> Equates(conds, meta[i].col))
    && (n > 0 ==> Equates(conds, meta[n - 1].col) || Bounds(conds, meta[n - 1].col))
  }

  lemma FirstEqIff(conds: seq<Condition>, col: Col)
    ensures FirstEq(conds, col).Some? <==> Equates(conds, col)
  {
    if Equates(conds, col) {
      var i :| 0 <= i < |conds| && conds[i].rhs.RhsVal? && conds[i].lhs == col && conds[i].op == OpEq;
      assert IsEq(conds[i], col);
    }
  }

  lemma HasRangeIff(conds: seq<Condition>, col: Col)
    ensures HasRange(conds, col) <==> Bounds(conds, col)
  {
    if HasRange(conds, col) {
      var i :| 0 <= i < |conds| && (IsRange(conds[i], col, Lower) || IsRange(conds[i], col, Upper));
      assert conds[i].rhs.RhsVal? && conds[i].lhs == col;
    }
    if Bounds(conds, col) {
      var i :| 0 <= i < |conds| && conds[i].rhs.RhsVal? && conds[i].lhs == col
        && (conds[i].op == OpLt || conds[i].op == OpLe || conds[i].op == OpGt || conds[i].op == OpGe);
      assert IsRange(conds[i], col, Lower) || IsRange(conds[i], col, Upper);
    }
  }

  /** The equality prefix covers the columns that the conditions fix, up to the first that they do not. */
  lemma {:induction false} PrefixFixes(meta: seq<ColMeta>, conds: seq<Condition>, i: nat)
    requires i <= |meta|
    ensures var p := i + |EqPrefix(meta, conds, i)|;
      && (forall j :: i <= j < p ==> Equates(conds, meta[j].col))
      && (p < |meta| ==> !Equates(conds, meta[p].col))
    decreases |meta| - i
  {
    hide FirstEq;
    hide Equates;
    if i == |meta| {
    } else {
      FirstEqIff(conds, meta[i].col);
      if FirstEq(conds, meta[i].col).Some? { PrefixFixes(meta, conds, i + 1); }
    }
  }

  /** The score is the greatest number of leading columns that the conditions narrow. */
  lemma ScoreIff(meta: seq<ColMeta>, conds: seq<Condition>, n: nat)
    ensures n <= Score(meta, conds) <==> Narrows(meta, conds, n)
  {
    hide Equates;
    hide Bounds;
    hide HasRange;
    hide EqPrefix;
    var p := |EqPrefix(meta, conds, 0)|;
    PrefixFixes(meta, conds, 0);
    if p < |meta| { HasRangeIff(conds, meta[p].col); }
  }

  /** The score is positive exactly when the search has a bound to start from. */
  lemma ScorePositive(meta: seq<ColMeta>, conds: seq<Condition>)
    ensures Score(meta, conds) > 0 <==> Limit(meta, Lower, conds).Some? || Limit(meta, Upper, conds).Some?
  {
    hide Best;
    hide IsRange;
    var eqs := EqPrefix(meta, conds, 0);
    if |eqs| < |meta| {
      BestExists(meta, Lower, conds, eqs, |conds|);
      BestExists(meta, Upper, conds, eqs, |conds|);
    }
  }
}
