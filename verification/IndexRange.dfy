/** The prefix range search of SmManager::scan_index (src/system/sm_manager.cpp). */
module IndexRange {
  import opened Types
  import opened Compare
  import opened Index

  /** A lower or upper limit on the leading |key| columns. */
  datatype Bound = Bound(key: Key, inclusive: bool)

  datatype Side = Lower | Upper

  /** c seen from the side: positive is further inside the range. */
  function Dir(side: Side, c: int): int { if side.Lower? then c else -c }

  predicate Inside(meta: seq<ColMeta>, side: Side, b: Bound, k: Key)
    requires |b.key| <= |meta| && |b.key| <= |k|
  {
    var c := Dir(side, Cmp(meta, k, b.key, |b.key|));
    c > 0 || (c == 0 && b.inclusive)
  }

  predicate InsideOpt(meta: seq<ColMeta>, side: Side, b: Option<Bound>, k: Key)
    requires b.Some? ==> |b.value.key| <= |meta| && |b.value.key| <= |k|
  {
    b.Some? ==> Inside(meta, side, b.value, k)
  }

  /** better_lower and better_upper. */
  predicate Better(meta: seq<ColMeta>, side: Side, a: Bound, b: Bound)
    requires |a.key| == |b.key| <= |meta|
  {
    var c := Dir(side, Cmp(meta, a.key, b.key, |a.key|));
    c > 0 || (c == 0 && !a.inclusive && b.inclusive)
  }

  /** The better bound is the tighter one: it lets through no key that the other keeps out. */
  lemma BetterIsTighter(meta: seq<ColMeta>, side: Side, a: Bound, b: Bound, k: Key)
    requires |a.key| == |b.key| <= |k| && Prefix(meta, a.key) && Prefix(meta, b.key) && Prefix(meta, k)
    ensures Better(meta, side, a, b) ==> (Inside(meta, side, a, k) ==> Inside(meta, side, b, k))
    ensures !Better(meta, side, a, b) ==> (Inside(meta, side, b, k) ==> Inside(meta, side, a, k))
  {
    hide Cmp;
    var n := |a.key|;
    CmpFlip(meta, a.key, b.key, n);
    CmpFlip(meta, a.key, k, n);
    CmpFlip(meta, b.key, k, n);
    TransAll(meta, a.key, b.key, k, n);
    TransAll(meta, b.key, a.key, k, n);
  }

  /** Transitivity through b in both directions. */
  lemma TransAll(meta: seq<ColMeta>, a: Key, b: Key, k: Key, n: nat)
    requires n <= |a| && n <= |b| && n <= |k| && Prefix(meta, a) && Prefix(meta, b) && Prefix(meta, k)
    ensures Cmp(meta, a, b, n) <= 0 && Cmp(meta, b, k, n) <= 0 ==>
              Cmp(meta, a, k, n) <= 0 && (Cmp(meta, a, b, n) < 0 || Cmp(meta, b, k, n) < 0 ==> Cmp(meta, a, k, n) < 0)
    ensures Cmp(meta, k, b, n) <= 0 && Cmp(meta, b, a, n) <= 0 ==>
              Cmp(meta, k, a, n) <= 0 && (Cmp(meta, k, b, n) < 0 || Cmp(meta, b, a, n) < 0 ==> Cmp(meta, k, a, n) < 0)
  {
    hide Cmp;
    if Cmp(meta, a, b, n) <= 0 && Cmp(meta, b, k, n) <= 0 { CmpTrans(meta, a, b, k, n); }
    if Cmp(meta, k, b, n) <= 0 && Cmp(meta, b, a, n) <= 0 { CmpTrans(meta, k, b, a, n); }
  }

  // ------------------------------------------------------- the conditions that the search uses

  predicate IsEq(c: Condition, col: Col) { c.rhs.RhsVal? && c.op == OpEq && c.lhs == col }

  /** A range condition on the column that limits this side. */
  predicate IsRange(c: Condition, col: Col, side: Side) {
    c.rhs.RhsVal? && c.lhs == col
      && (if side.Lower? then c.op == OpGt || c.op == OpGe else c.op == OpLt || c.op == OpLe)
  }

  /** Every value compared with an index column was initialised to that column's length. */
  ghost predicate ValuesFit(meta: seq<ColMeta>, conds: seq<Condition>) {
    forall i, j :: 0 <= i < |conds| && 0 <= j < |meta| && conds[i].rhs.RhsVal? && conds[i].lhs == meta[j].col ==>
      |conds[i].rhs.raw| == meta[j].len
  }

  /** The value of the first equality condition on the column. */
  function FirstEq(conds: seq<Condition>, col: Col): (r: Option<Field>)
    ensures r.Some? <==> exists i :: 0 <= i < |conds| && IsEq(conds[i], col)
    ensures r.Some? ==> exists i :: 0 <= i < |conds| && IsEq(conds[i], col) && conds[i].rhs.raw == r.value
  {
    if conds == [] then None
    else if IsEq(conds[0], col) then assert IsEq(conds[0], col); Some(conds[0].rhs.raw)
    else
      var r := FirstEq(conds[1..], col);
      assert forall i :: 0 <= i < |conds| - 1 ==> conds[1..][i] == conds[i + 1];
      assert r.Some? ==> exists i :: 1 <= i < |conds| && IsEq(conds[i], col) && conds[i].rhs.raw == r.value by {
        if r.Some? { var j :| 0 <= j < |conds[1..]| && IsEq(conds[1..][j], col)
          && conds[1..][j].rhs.raw == r.value; assert IsEq(conds[j + 1], col); }
      }
      r
  }

  /** The leading columns that have an equality condition, with their values, from column i on. */
  function EqPrefix(meta: seq<ColMeta>, conds: seq<Condition>, i: nat): (k: Key)
    requires i <= |meta|
    ensures i + |k| <= |meta|
    decreases |meta| - i
  {
    if i == |meta| || FirstEq(conds, meta[i].col).None? then []
    else [FirstEq(conds, meta[i].col).value] + EqPrefix(meta, conds, i + 1)
  }

  function BoundOf(c: Condition, eqs: Key): Bound
    requires c.rhs.RhsVal?
  {
    Bound(eqs + [c.rhs.raw], c.op == OpGe || c.op == OpLe)
  }

  /** The best bound on one side from the first n conditions, all on the column after the equality prefix. */
  function Best(meta: seq<ColMeta>, side: Side, conds: seq<Condition>, eqs: Key, n: nat): (r: Option<Bound>)
    requires |eqs| < |meta| && n <= |conds|
    ensures r.Some? ==> |r.value.key| == |eqs| + 1
  {
    if n == 0 then None
    else
      var r := Best(meta, side, conds, eqs, n - 1);
      var c := conds[n - 1];
      if IsRange(c, meta[|eqs|].col, side)
        && (r.None? || Better(meta, side, BoundOf(c, eqs), r.value)) then Some(BoundOf(c, eqs))
      else r
  }

  /** The bound that the search finally uses on one side. */
  function Limit(meta: seq<ColMeta>, side: Side, conds: seq<Condition>): (r: Option<Bound>)
    ensures r.Some? ==> |r.value.key| <= |meta|
  {
    var eqs := EqPrefix(meta, conds, 0);
    var r := if |eqs| < |meta| then Best(meta, side, conds, eqs, |conds|) else None;
    if eqs != [] && r.None? then Some(Bound(eqs, true)) else r
  }

  /** The key equals every value of the equality prefix and satisfies every range condition on the next column. */
  ghost predicate Selected(meta: seq<ColMeta>, conds: seq<Condition>, k: Key)
    requires |k| == |meta|
  {
    var eqs := EqPrefix(meta, conds, 0);
    && (forall i :: 0 <= i < |eqs| ==> CompareRaw(meta[i].ctype, k[i], eqs[i]) == 0)
    && (|eqs| < |meta| ==>
      RangesHold(meta, Lower, conds, eqs, |conds|, k) && RangesHold(meta, Upper, conds, eqs, |conds|, k))
  }

  ghost predicate RangesHold(meta: seq<ColMeta>, side: Side, conds: seq<Condition>, eqs: Key, n: nat, k: Key)
    requires |k| == |meta| && |eqs| < |meta| && n <= |conds|
  {
    var m := meta[|eqs|];
    forall i :: 0 <= i < n && IsRange(conds[i], m.col, side) ==>
      EvalCompare(CompareRaw(m.ctype, k[|eqs|], conds[i].rhs.raw), conds[i].op)
  }

  // ---------------------------------------------------------- the chosen bounds are the conditions

  lemma {:induction false} EqPrefixFits(meta: seq<ColMeta>, conds: seq<Condition>, i: nat, j: nat)
    requires i <= |meta| && ValuesFit(meta, conds) && j < |EqPrefix(meta, conds, i)|
    ensures |EqPrefix(meta, conds, i)[j]| == meta[i + j].len
    decreases |meta| - i
  {
    if j == 0 {
    } else {
      EqPrefixFits(meta, conds, i + 1, j - 1);
    }
  }

  lemma EqPrefixIsPrefix(meta: seq<ColMeta>, conds: seq<Condition>)
    requires ValuesFit(meta, conds)
    ensures Prefix(meta, EqPrefix(meta, conds, 0))
  {
    var k := EqPrefix(meta, conds, 0);
    forall j | 0 <= j < |k| ensures |k[j]| == meta[j].len { EqPrefixFits(meta, conds, 0, j); }
  }

  /** For a key that agrees with the equality prefix, a bound is its own condition. */
  lemma BoundIsCondition(meta: seq<ColMeta>, side: Side, c: Condition, eqs: Key, k: Key)
    requires |eqs| < |meta| == |k| && IsRange(c, meta[|eqs|].col, side)
    requires forall i :: 0 <= i < |eqs| ==> CompareRaw(meta[i].ctype, k[i], eqs[i]) == 0
    ensures Inside(meta, side, BoundOf(c, eqs), k) <==>
      EvalCompare(CompareRaw(meta[|eqs|].ctype, k[|eqs|], c.rhs.raw), c.op)
  {
    hide CompareRaw;
    var b, p := BoundOf(c, eqs).key, |eqs|;
    KeySkip(TypesOf(meta), k, b, 0, p, p + 1);
    assert CompareKey(TypesOf(meta), k, b, p + 1, p + 1) == 0;
  }

  /** Keeping the best bound loses none of the conditions. */
  lemma {:induction false} BestIsAll(meta: seq<ColMeta>, side: Side, conds: seq<Condition>, eqs: Key, n: nat, k: Key)
    requires Shaped(meta, k) && Prefix(meta, eqs) && |eqs| < |meta| && n <= |conds| && ValuesFit(meta, conds)
    requires forall i :: 0 <= i < |eqs| ==> CompareRaw(meta[i].ctype, k[i], eqs[i]) == 0
    ensures BestFits(meta, side, conds, eqs, n)
    ensures InsideOpt(meta, side, Best(meta, side, conds, eqs, n), k) <==> RangesHold(meta, side, conds, eqs, n, k)
  {
    hide Cmp;
    hide Better;
    hide Inside;
    hide CompareRaw;
    if n == 0 {
    } else {
      BestIsAll(meta, side, conds, eqs, n - 1, k);
      BestFitsOne(meta, side, conds, eqs, n);
      var r, c := Best(meta, side, conds, eqs, n - 1), conds[n - 1];
      if IsRange(c, meta[|eqs|].col, side) {
        BoundIsCondition(meta, side, c, eqs, k);
        if r.Some? { BetterIsTighter(meta, side, BoundOf(c, eqs), r.value, k); }
      }
    }
  }

  ghost predicate BestFits(meta: seq<ColMeta>, side: Side, conds: seq<Condition>, eqs: Key, n: nat)
    requires |eqs| < |meta| && n <= |conds|
  {
    var r := Best(meta, side, conds, eqs, n);
    r.Some? ==>
      && Prefix(meta, r.value.key)
      && exists i :: 0 <= i < n && IsRange(conds[i], meta[|eqs|].col, side) && r.value == BoundOf(conds[i], eqs)
  }

  lemma BestFitsOne(meta: seq<ColMeta>, side: Side, conds: seq<Condition>, eqs: Key, n: nat)
    requires 0 < n <= |conds| && Prefix(meta, eqs) && |eqs| < |meta| && ValuesFit(meta, conds)
    requires BestFits(meta, side, conds, eqs, n - 1)
    ensures BestFits(meta, side, conds, eqs, n)
    ensures IsRange(conds[n - 1], meta[|eqs|].col, side) ==> Prefix(meta, BoundOf(conds[n - 1], eqs).key)
  {
    hide Better;
    hide IsRange;
    var c := conds[n - 1];
    if IsRange(c, meta[|eqs|].col, side) { BoundFits(meta, side, conds, eqs, n - 1); }
  }

  lemma BoundFits(meta: seq<ColMeta>, side: Side, conds: seq<Condition>, eqs: Key, i: nat)
    requires i < |conds| && Prefix(meta, eqs) && |eqs| < |meta| && ValuesFit(meta, conds)
      && IsRange(conds[i], meta[|eqs|].col, side)
    ensures conds[i].rhs.RhsVal? && Prefix(meta, BoundOf(conds[i], eqs).key)
  {
  }

  lemma {:induction false} BestFitsAll(meta: seq<ColMeta>, side: Side, conds: seq<Condition>, eqs: Key, n: nat)
    requires n <= |conds| && Prefix(meta, eqs) && |eqs| < |meta| && ValuesFit(meta, conds)
    ensures BestFits(meta, side, conds, eqs, n)
  {
    hide BestFits;
    if n == 0 { BestFitsNone(meta, side, conds, eqs); } else {
      BestFitsAll(meta, side, conds, eqs, n - 1);
      BestFitsOne(meta, side, conds, eqs, n);
    }
  }

  lemma BestFitsNone(meta: seq<ColMeta>, side: Side, conds: seq<Condition>, eqs: Key)
    requires |eqs| < |meta|
    ensures BestFits(meta, side, conds, eqs, 0)
  {
  }

  /** CompareKey looks at the first n columns only. */
  lemma {:induction false} KeyCongruent(types: seq<ColType>, a: Key, b: Key, b': Key, i: nat, n: nat)
    requires i <= n <= |types| && n <= |a| && n <= |b| && n <= |b'| && forall j :: i <= j < n ==> b[j] == b'[j]
    ensures CompareKey(types, a, b, i, n) == CompareKey(types, a, b', i, n)
    decreases n - i
  {
    hide CompareRaw;
    if i == n {
    } else {
      KeyCongruent(types, a, b, b', i + 1, n);
    }
  }

  /** The limit extends the equality prefix, so a key inside it is on the right side of the prefix as well. */
  lemma LimitExtends(meta: seq<ColMeta>, side: Side, conds: seq<Condition>, k: Key)
    requires Shaped(meta, k) && ValuesFit(meta, conds)
    requires InsideOpt(meta, side, Limit(meta, side, conds), k)
    ensures var eqs := EqPrefix(meta, conds, 0); Dir(side, Cmp(meta, k, eqs, |eqs|)) >= 0
  {
    hide CompareRaw;
    hide CompareKey;
    var eqs := EqPrefix(meta, conds, 0);
    var p := |eqs|;
    EqPrefixIsPrefix(meta, conds);
    if p == 0 { EmptyCmp(meta, k, eqs); return; }
    if p < |meta| { BestFitsAll(meta, side, conds, eqs, |conds|); }
    var b := Limit(meta, side, conds).value.key;
    assert b == eqs || (p < |meta| && |b| == p + 1 && b[..p] == eqs);
    KeyPrefix(TypesOf(meta), k, b, 0, p, |b|);
    KeyPrefix(TypesOf(meta), b, k, 0, p, |b|);
    KeyFlip(TypesOf(meta), k, b, 0, p);
    KeyFlip(TypesOf(meta), k, b, 0, |b|);
    KeyCongruent(TypesOf(meta), k, eqs, b, 0, p);
  }

  lemma EmptyCmp(meta: seq<ColMeta>, a: Key, b: Key)
    ensures Cmp(meta, a, b, 0) == 0
  {
  }

  lemma CmpZero(meta: seq<ColMeta>, a: Key, b: Key, n: nat)
    requires n <= |meta| && n <= |a| && n <= |b|
    ensures Cmp(meta, a, b, n) == 0 <==> forall i :: 0 <= i < n ==> CompareRaw(meta[i].ctype, a[i], b[i]) == 0
  {
    hide CompareRaw;
    if Cmp(meta, a, b, n) == 0 { KeyZero(TypesOf(meta), a, b, 0, n); }
    else if forall i :: 0 <= i < n ==>
      CompareRaw(meta[i].ctype, a[i], b[i]) == 0 { KeySkip(TypesOf(meta), a, b, 0, n, n); }
  }

  /** The two limits together are exactly the equality prefix and every range condition on the next column. */
  lemma LimitsAreConditions(meta: seq<ColMeta>, conds: seq<Condition>, k: Key)
    requires Shaped(meta, k) && ValuesFit(meta, conds)
    ensures InsideOpt(meta, Lower, Limit(meta, Lower, conds), k) && InsideOpt(meta, Upper, Limit(meta, Upper, conds), k)
            <==> Selected(meta, conds, k)
  {
    hide CompareRaw;
    hide Cmp;
    hide RangesHold;
    hide Best;
    var eqs := EqPrefix(meta, conds, 0);
    if InsideOpt(meta, Lower, Limit(meta, Lower, conds), k) && InsideOpt(meta, Upper, Limit(meta, Upper, conds), k) {
      LimitExtends(meta, Lower, conds, k);
      LimitExtends(meta, Upper, conds, k);
    }
    CmpZero(meta, k, eqs, |eqs|);
    EqPrefixIsPrefix(meta, conds);
    if |eqs| < |meta| && Cmp(meta, k, eqs, |eqs|) == 0 {
      BestIsAll(meta, Lower, conds, eqs, |conds|, k);
      BestIsAll(meta, Upper, conds, eqs, |conds|, k);
    }
  }
}
