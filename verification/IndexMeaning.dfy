/** What an index scan selects, said on conditions and records (src/system/sm_manager.cpp:358-473): which conditions the
    search uses, and that it selects exactly the records that satisfy them. */
module IndexMeaning {
  import opened Types
  import opened Compare
  import opened Index
  import opened IndexRange
  import opened IndexBuild
  import opened IndexScanning

  /** A comparison of the column with a value, for equality. */
  predicate Fixes(c: Condition, col: Col) { c.rhs.RhsVal? && c.lhs == col && c.op == OpEq }

  predicate Limits(c: Condition, col: Col) {
    c.rhs.RhsVal? && c.lhs == col && (c.op == OpLt || c.op == OpLe || c.op == OpGt || c.op == OpGe)
  }

  /** The search uses condition i on column j of the index: conditions fix all columns before j, and this is the first
      that fixes column j, or one that limits it when none fixes it. */
  ghost predicate Uses(meta: seq<ColMeta>, conds: seq<Condition>, i: int, j: int) {
    && 0 <= i < |conds| && 0 <= j < |meta| && (forall m :: 0 <= m < j ==> Equates(conds, meta[m].col))
    && if Equates(conds, meta[j].col)
       then Fixes(conds[i], meta[j].col) && forall k :: 0 <= k < i ==> !Fixes(conds[k], meta[j].col)
       else Limits(conds[i], meta[j].col)
  }

  lemma {:induction false} FirstEqFirst(conds: seq<Condition>, col: Col, i: nat)
    requires i < |conds| && Fixes(conds[i], col) && forall k :: 0 <= k < i ==> !Fixes(conds[k], col)
    ensures FirstEq(conds, col) == Some(conds[i].rhs.raw)
  {
    if i == 0 {
    } else {
      assert !IsEq(conds[0], col);
      FirstEqFirst(conds[1..], col, i - 1);
    }
  }

  lemma {:induction false} FirstFixing(conds: seq<Condition>, col: Col, n: nat) returns (i: nat)
    requires n < |conds| && Fixes(conds[n], col)
    ensures i <= n && Fixes(conds[i], col) && forall k :: 0 <= k < i ==> !Fixes(conds[k], col)
    decreases n
  {
    if k :| 0 <= k < n && Fixes(conds[k], col) {
      i := FirstFixing(conds, col, k);
    } else {
      i := n;
    }
  }

  /** Condition i of the WHERE clause holds of the key's column j. */
  ghost predicate HoldsAt(meta: seq<ColMeta>, conds: seq<Condition>, k: Key, i: int, j: int)
    requires 0 <= i < |conds| && 0 <= j < |meta| && j < |k| && conds[i].rhs.RhsVal?
  {
    EvalCompare(CompareRaw(meta[j].ctype, k[j], conds[i].rhs.raw), conds[i].op)
  }

  /** A column of the equality prefix: the one condition used on it is the first equality. */
  lemma FixedColumn(meta: seq<ColMeta>, conds: seq<Condition>, k: Key, j: nat)
    requires |k| == |meta| && j < |EqPrefix(meta, conds, 0)|
    ensures CompareRaw(meta[j].ctype, k[j], EqPrefix(meta, conds, 0)[j]) == 0 <==>
      forall i :: Uses(meta, conds, i, j) ==> HoldsAt(meta, conds, k, i, j)
  {
    hide CompareRaw;
    hide FirstEq;
    PrefixFixes(meta, conds, 0);
    EqPrefixAt(meta, conds, 0, j);
    var n :| 0 <= n < |conds| && conds[n].rhs.RhsVal? && conds[n].lhs == meta[j].col && conds[n].op == OpEq;
    var i := FirstFixing(conds, meta[j].col, n);
    FirstEqFirst(conds, meta[j].col, i);
    assert Uses(meta, conds, i, j);
    forall x | Uses(meta, conds, x, j) ensures x == i { }
  }

  /** The column after the prefix: every condition that limits it is used. */
  lemma LimitedColumn(meta: seq<ColMeta>, conds: seq<Condition>, k: Key)
    requires |k| == |meta| && |EqPrefix(meta, conds, 0)| < |meta|
    ensures var eqs := EqPrefix(meta, conds, 0);
      RangesHold(meta, Lower, conds, eqs, |conds|, k) && RangesHold(meta, Upper, conds, eqs, |conds|, k) <==>
      forall i :: Uses(meta, conds, i, |eqs|) ==> HoldsAt(meta, conds, k, i, |eqs|)
  {
    hide CompareRaw;
    PrefixFixes(meta, conds, 0);
    var p := |EqPrefix(meta, conds, 0)|;
    forall i | 0 <= i < |conds|
      ensures Uses(meta, conds, i, p) <==>
        IsRange(conds[i], meta[p].col, Lower) || IsRange(conds[i], meta[p].col, Upper)
    {
    }
  }

  /** A key is selected exactly when it satisfies every condition that the search uses. */
  lemma SelectedIff(meta: seq<ColMeta>, conds: seq<Condition>, k: Key)
    requires |k| == |meta|
    ensures Selected(meta, conds, k) <==> forall i, j :: Uses(meta, conds, i, j) ==> HoldsAt(meta, conds, k, i, j)
  {
    hide CompareRaw;
    hide HoldsAt;
    hide RangesHold;
    hide Equates;
    PrefixFixes(meta, conds, 0);
    var p := |EqPrefix(meta, conds, 0)|;
    forall j | 0 <= j < p
      ensures CompareRaw(meta[j].ctype, k[j], EqPrefix(meta, conds, 0)[j]) == 0 <==>
        forall i :: Uses(meta, conds, i, j) ==> HoldsAt(meta, conds, k, i, j)
    {
      FixedColumn(meta, conds, k, j);
    }
    if p < |meta| { LimitedColumn(meta, conds, k); }
    forall i, j | Uses(meta, conds, i, j) ensures j <= p { }
  }

  /** The record of a selected entry satisfies every condition that the search uses, in the bytes of its own fields, and
      every such record has a selected entry. */
  lemma SelectedRecord(ix: Idx, t: Table, conds: seq<Condition>, r: Rid)
    requires Agrees(ix, t) && r in t
    ensures Fits(ix.meta, t[r])
    ensures Selected(ix.meta, conds, MakeKey(ix.meta, t[r])) <==>
      forall i, j :: Uses(ix.meta, conds, i, j) ==>
        EvalCompare(CompareRaw(ix.meta[j].ctype, FieldOf(t[r], ix.meta[j]), conds[i].rhs.raw), conds[i].op)
  {
    hide CompareRaw;
    hide Uses;
    hide Selected;
    UsesValues(ix.meta, conds);
    SelectedIff(ix.meta, conds, MakeKey(ix.meta, t[r]));
  }

  lemma UsesValues(meta: seq<ColMeta>, conds: seq<Condition>)
    ensures forall i, j :: Uses(meta, conds, i, j) ==> 0 <= i < |conds| && 0 <= j < |meta| && conds[i].rhs.RhsVal?
  {
  }
}
