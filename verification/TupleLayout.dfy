/** The layout of joined tuples (src/execution/executor_nestedloop_join.h): columns, lengths and bytes of every plan
    node. */
module TupleLayout {
  import opened Types
  import opened Compare
  import opened Planner

  /** Columns and record length of each table. */
  datatype Catalog = Catalog(cols: map<TableName, seq<ColMeta>>, len: map<TableName, nat>)

  ghost predicate CatalogOk(cat: Catalog) {
    && cat.cols.Keys == cat.len.Keys
    && (forall t, i :: t in cat.cols && 0 <= i < |cat.cols[t]| ==>
          cat.cols[t][i].col.tab == t && cat.cols[t][i].offset + cat.cols[t][i].len <= cat.len[t])
  }

  /** One record of each table. */
  type Env = map<TableName, Record>

  ghost predicate EnvOk(cat: Catalog, env: Env) {
    forall t :: t in env ==> t in cat.len && |env[t]| == cat.len[t]
  }

  // ------------------------------------------------------------------- tuples of the executors

  function ShiftCols(cols: seq<ColMeta>, shift: nat): (r: seq<ColMeta>)
    ensures |r| == |cols| && forall i :: 0 <= i < |r| ==> r[i] == cols[i].(offset := cols[i].offset + shift)
  {
    seq(|cols|, i requires 0 <= i < |cols| => cols[i].(offset := cols[i].offset + shift))
  }

  /** tupleLen(). */
  function Len(cat: Catalog, plan: Plan): nat
    requires Tables(plan) <= cat.len.Keys
  {
    match plan
    case ScanPlan(tab, _) => cat.len[tab]
    case JoinPlan(l, r, _) => Len(cat, l) + Len(cat, r)
  }

  /** cols(): the right part's columns are shifted by the left part's length. */
  function Cols(cat: Catalog, plan: Plan): seq<ColMeta>
    requires Tables(plan) <= cat.len.Keys && Tables(plan) <= cat.cols.Keys
  {
    match plan
    case ScanPlan(tab, _) => cat.cols[tab]
    case JoinPlan(l, r, _) => Cols(cat, l) + ShiftCols(Cols(cat, r), Len(cat, l))
  }

  /** join_tuple: left bytes, then right bytes. */
  function Tuple(plan: Plan, env: Env): Record
    requires Tables(plan) <= env.Keys
  {
    match plan
    case ScanPlan(tab, _) => env[tab]
    case JoinPlan(l, r, _) => Tuple(l, env) + Tuple(r, env)
  }

  ghost predicate Over(cat: Catalog, plan: Plan, env: Env) {
    CatalogOk(cat) && EnvOk(cat, env) && Tables(plan) <= env.Keys && Tables(plan) <= cat.len.Keys
      && Tables(plan) <= cat.cols.Keys
  }

  lemma {:induction false} TupleLen(cat: Catalog, plan: Plan, env: Env)
    requires Over(cat, plan, env)
    ensures |Tuple(plan, env)| == Len(cat, plan)
  {
    if plan.ScanPlan? {
    } else {
      TupleLen(cat, plan.left, env);
      TupleLen(cat, plan.right, env);
    }
  }

  /** Every column of a node belongs to one of its tables and lies inside its tuple. */
  lemma {:induction false} ColsInside(cat: Catalog, plan: Plan, env: Env)
    requires Over(cat, plan, env)
    ensures forall i :: 0 <= i < |Cols(cat, plan)| ==>
      Cols(cat, plan)[i].col.tab in Tables(plan) && Cols(cat, plan)[i].offset + Cols(cat, plan)[i].len <= Len(cat, plan)
  {
    if plan.ScanPlan? {
    } else {
      ColsInside(cat, plan.left, env);
      ColsInside(cat, plan.right, env);
      var l, cs := Cols(cat, plan.left), Cols(cat, plan);
      forall i | 0 <= i < |cs| ensures cs[i].col.tab in Tables(plan) && cs[i].offset + cs[i].len <= Len(cat, plan) {
        if i >= |l| { assert cs[i] == ShiftCols(Cols(cat, plan.right), Len(cat, plan.left))[i - |l|]; }
      }
    }
  }

  lemma {:induction false} FindColAppend(a: seq<ColMeta>, b: seq<ColMeta>, c: Col)
    ensures FindCol(a + b, c) == if FindCol(a, c).Some? then FindCol(a, c) else FindCol(b, c)
  {
    if a == [] { assert a + b == b; } else {
      FindColAppend(a[1..], b, c);
      assert (a + b)[0] == a[0] && (a + b)[1..] == a[1..] + b;
    }
  }

  function Shifted(m: Option<ColMeta>, shift: nat): Option<ColMeta> {
    if m.None? then None else Some(m.value.(offset := m.value.offset + shift))
  }

  lemma {:induction false} FindColShift(cols: seq<ColMeta>, shift: nat, c: Col)
    ensures FindCol(ShiftCols(cols, shift), c) == Shifted(FindCol(cols, c), shift)
  {
    hide FindCol;
    hide ShiftCols;
    if cols == [] {
      FindColNil(c);
    } else {
      FindColShift(cols[1..], shift, c);
      ShiftTail(cols, shift);
      FindColStep(cols, c);
      FindColStep(ShiftCols(cols, shift), c);
    }
  }

  lemma FindColNil(c: Col)
    ensures FindCol([], c) == None
  {
  }

  lemma FindColStep(cols: seq<ColMeta>, c: Col)
    requires cols != []
    ensures FindCol(cols, c) == if cols[0].col == c then Some(cols[0]) else FindCol(cols[1..], c)
  {
  }

  lemma ShiftTail(cols: seq<ColMeta>, shift: nat)
    requires cols != []
    ensures ShiftCols(cols, shift)[1..] == ShiftCols(cols[1..], shift)
  {
  }

  /** A column that no table of the node has is not found in the node. */
  lemma ForeignCol(cat: Catalog, plan: Plan, env: Env, c: Col)
    requires Over(cat, plan, env) && c.tab !in Tables(plan)
    ensures FindCol(Cols(cat, plan), c).None?
  {
    ColsInside(cat, plan, env);
  }

  lemma FieldLeft(a: Record, b: Record, m: ColMeta)
    requires m.offset + m.len <= |a|
    ensures FieldOf(a + b, m) == FieldOf(a, m)
  {
  }

  lemma FieldRight(a: Record, b: Record, m: ColMeta)
    requires m.offset + m.len <= |b|
    ensures FieldOf(a + b, m.(offset := m.offset + |a|)) == FieldOf(b, m)
  {
  }

  /** The column's meaning: its type, length and bytes in the record of its own table. */
  ghost predicate SameField(cat: Catalog, plan: Plan, env: Env, c: Col)
    requires Over(cat, plan, env) && c.tab in Tables(plan)
  {
    var base, m := FindCol(cat.cols[c.tab], c), FindCol(Cols(cat, plan), c);
    && (m.Some? <==> base.Some?)
    && (m.Some? ==>
          && m.value.offset + m.value.len <= |Tuple(plan, env)| && base.value.offset + base.value.len <= |env[c.tab]|
          && m.value.ctype == base.value.ctype && m.value.len == base.value.len
          && FieldOf(Tuple(plan, env), m.value) == FieldOf(env[c.tab], base.value))
  }

  /** In a tree with no table twice, looking a column up in the joined tuple gives the bytes of its own table's
      record. */
  lemma {:induction false} FieldInTuple(cat: Catalog, plan: Plan, env: Env, c: Col)
    requires Over(cat, plan, env) && EachOnce(plan) && c.tab in Tables(plan)
    ensures SameField(cat, plan, env, c)
  {
    hide CatalogOk;
    hide EnvOk;
    hide FindCol;
    hide ShiftCols;
    hide FieldOf;
    match plan
    case ScanPlan(tab, _) =>
      ScanField(cat, tab, env, c);
    case JoinPlan(l, r, _) =>
      FindColAppend(Cols(cat, l), ShiftCols(Cols(cat, r), Len(cat, l)), c);
      FindColShift(Cols(cat, r), Len(cat, l), c);
      TupleLen(cat, l, env);
      if c.tab in Tables(l) {
        FieldInTuple(cat, l, env, c);
        ForeignCol(cat, r, env, c);
        var m := FindCol(Cols(cat, l), c);
        if m.Some? { FieldLeft(Tuple(l, env), Tuple(r, env), m.value); }
      } else {
        FieldInTuple(cat, r, env, c);
        ForeignCol(cat, l, env, c);
        var m := FindCol(Cols(cat, r), c);
        if m.Some? { FieldRight(Tuple(l, env), Tuple(r, env), m.value); }
      }
  }

  lemma ScanField(cat: Catalog, tab: TableName, env: Env, c: Col)
    requires CatalogOk(cat) && EnvOk(cat, env) && tab in env && tab in cat.cols
    ensures var base := FindCol(cat.cols[tab], c); base.Some? ==> base.value.offset + base.value.len <= |env[tab]|
  {
    var r := FindCol(cat.cols[tab], c);
    if r.Some? { var i :| 0 <= i < |cat.cols[tab]| && cat.cols[tab][i] == r.value; }
  }
}
