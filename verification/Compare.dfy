/** Comparison of raw column values and evaluation of conditions (src/execution/execution_defs.h), and composite index
    keys (src/system/sm_manager.cpp). */
module Compare {
  import opened Types
  import opened Integers

  datatype ColType = TypeInt | TypeFloat | TypeString | TypeBigint | TypeDatetime

  datatype CompOp = OpEq | OpNe | OpLt | OpGt | OpLe | OpGe

  type Field = seq<Byte>

  // ------------------------------------------------------------------ compare_raw_value

  function Sign(x: int): int { if x < 0 then -1 else if x > 0 then 1 else 0 }

  function Signed(s: seq<Byte>, modulus: nat): int {
    var x := FromLittleEndian(s);
    if 2 * x >= modulus then x - modulus else x
  }

  /** The order of IEEE single-precision numbers other than NaN: sign and magnitude, with the two zeros equal. */
  function FloatRank(s: seq<Byte>): int {
    var x := FromLittleEndian(s);
    if x >= TWO31 then TWO31 - x else x
  }

  /** strncmp over a common length: the first difference decides, and a shared NUL ends the comparison. */
  function StrCmp(a: Field, b: Field): int {
    if a == [] || b == [] then 0
    else if a[0] != b[0] then a[0] - b[0]
    else if a[0] == 0 then 0
    else StrCmp(a[1..], b[1..])
  }

  /** strncmp of |a| bytes has its answer before the end of b. */
  predicate Decided(a: Field, b: Field) {
    a == [] || (b != [] && (a[0] != b[0] || a[0] == 0 || Decided(a[1..], b[1..])))
  }

  function CompareRaw(t: ColType, a: Field, b: Field): int {
    match t
    case TypeInt => Sign(Signed(a, TWO32) - Signed(b, TWO32))
    case TypeFloat => Sign(FloatRank(a) - FloatRank(b))
    case TypeBigint => Sign(Signed(a, TWO64) - Signed(b, TWO64))
    case TypeDatetime => Sign(Signed(a, TWO64) - Signed(b, TWO64))
    case TypeString => StrCmp(a, b)
  }

  predicate EvalCompare(cmp: int, op: CompOp) {
    match op
    case OpEq => cmp == 0
    case OpNe => cmp != 0
    case OpLt => cmp < 0
    case OpGt => cmp > 0
    case OpLe => cmp <= 0
    case OpGe => cmp >= 0
  }

  lemma {:induction false} StrCmpFlip(a: Field, b: Field)
    ensures StrCmp(a, b) == -StrCmp(b, a)
  {
    if a == [] || b == [] || a[0] != b[0] || a[0] == 0 {
    } else {
      StrCmpFlip(a[1..], b[1..]);
    }
  }

  lemma {:induction false} StrCmpTrans(a: Field, b: Field, c: Field)
    requires |a| == |b| == |c| && StrCmp(a, b) <= 0 && StrCmp(b, c) <= 0
    ensures StrCmp(a, c) <= 0
  {
    if a == [] || a[0] != b[0] || b[0] != c[0] || a[0] == 0 {
    } else {
      StrCmpTrans(a[1..], b[1..], c[1..]);
    }
  }

  lemma CompareFlip(t: ColType, a: Field, b: Field)
    ensures CompareRaw(t, a, b) == -CompareRaw(t, b, a)
  {
    StrCmpFlip(a, b);
  }

  /** On columns of one length the comparison is a total preorder. */
  lemma CompareTrans(t: ColType, a: Field, b: Field, c: Field)
    requires |a| == |b| == |c| && CompareRaw(t, a, b) <= 0 && CompareRaw(t, b, c) <= 0
    ensures CompareRaw(t, a, c) <= 0
  {
    if t == TypeString { StrCmpTrans(a, b, c); }
  }

  // ------------------------------------------------------------------- composite keys

  type Key = seq<Field>

  /** compare_index_key on the first n columns, from column i on. */
  function CompareKey(types: seq<ColType>, a: Key, b: Key, i: nat, n: nat): int
    requires i <= n <= |types| && n <= |a| && n <= |b|
    decreases n - i
  {
    if i == n then 0
    else
      var c := CompareRaw(types[i], a[i], b[i]);
      if c != 0 then c else CompareKey(types, a, b, i + 1, n)
  }

  /** Keys whose corresponding columns have equal lengths. */
  predicate SameShape(a: Key, b: Key, n: nat)
    requires n <= |a| && n <= |b|
  {
    forall i :: 0 <= i < n ==> |a[i]| == |b[i]|
  }

  lemma {:induction false} KeyFlip(types: seq<ColType>, a: Key, b: Key, i: nat, n: nat)
    requires i <= n <= |types| && n <= |a| && n <= |b|
    ensures CompareKey(types, a, b, i, n) == -CompareKey(types, b, a, i, n)
    decreases n - i
  {
    hide CompareRaw;
    if i == n {
    } else {
      CompareFlip(types[i], a[i], b[i]);
      KeyFlip(types, a, b, i + 1, n);
    }
  }

  lemma {:induction false} KeyTrans(types: seq<ColType>, a: Key, b: Key, c: Key, i: nat, n: nat)
    requires i <= n <= |types| && n <= |a| && n <= |b| && n <= |c| && SameShape(a, b, n) && SameShape(b, c, n)
    requires CompareKey(types, a, b, i, n) <= 0 && CompareKey(types, b, c, i, n) <= 0
    ensures CompareKey(types, a, c, i, n) <= 0
    ensures CompareKey(types, a, b, i, n) < 0 || CompareKey(types, b, c, i, n) < 0 ==> CompareKey(types, a, c, i, n) < 0
    decreases n - i
  {
    hide CompareRaw;
    if i == n {
    } else {
      assert |a[i]| == |b[i]| == |c[i]|;
      var t, x, y, z := types[i], a[i], b[i], c[i];
      CompareTrans(t, x, y, z);
      CompareFlip(t, x, z);
      CompareFlip(t, x, y);
      CompareFlip(t, y, z);
      if CompareRaw(t, x, z) == 0 {
        CompareTrans(t, y, z, x);
        CompareTrans(t, z, x, y);
        KeyTrans(types, a, b, c, i + 1, n);
      }
    }
  }

  /** A shorter prefix of the columns can only forget differences. */
  lemma {:induction false} KeyPrefix(types: seq<ColType>, a: Key, b: Key, i: nat, m: nat, n: nat)
    requires i <= m <= n <= |types| && n <= |a| && n <= |b|
    ensures CompareKey(types, a, b, i, n) <= 0 ==> CompareKey(types, a, b, i, m) <= 0
    ensures CompareKey(types, a, b, i, m) < 0 ==> CompareKey(types, a, b, i, n) < 0
    decreases n - i
  {
    hide CompareRaw;
    if i == m {
    } else {
      KeyPrefix(types, a, b, i + 1, m, n);
    }
  }

  /** Keys that agree on columns i to m compare by the columns from m on. */
  lemma {:induction false} KeySkip(types: seq<ColType>, a: Key, b: Key, i: nat, m: nat, n: nat)
    requires i <= m <= n <= |types| && n <= |a| && n <= |b|
    requires forall j :: i <= j < m ==> CompareRaw(types[j], a[j], b[j]) == 0
    ensures CompareKey(types, a, b, i, n) == CompareKey(types, a, b, m, n)
    decreases m - i
  {
    hide CompareRaw;
    if i == m {
    } else {
      KeySkip(types, a, b, i + 1, m, n);
    }
  }

  /** A zero comparison means agreement on every column. */
  lemma {:induction false} KeyZero(types: seq<ColType>, a: Key, b: Key, i: nat, n: nat)
    requires i <= n <= |types| && n <= |a| && n <= |b| && CompareKey(types, a, b, i, n) == 0
    ensures forall j :: i <= j < n ==> CompareRaw(types[j], a[j], b[j]) == 0
    decreases n - i
  {
    hide CompareRaw;
    if i == n {
    } else {
      KeyZero(types, a, b, i + 1, n);
    }
  }

  // --------------------------------------------------------------- columns and conditions

  datatype Col = Col(tab: TableName, name: string)

  datatype ColMeta = ColMeta(col: Col, ctype: ColType, len: nat, offset: nat)

  datatype Rhs = RhsVal(raw: Field) | RhsCol(rcol: Col)

  datatype Condition = Condition(lhs: Col, op: CompOp, rhs: Rhs)

  /** find_col_meta: the first column with that name; None is ColumnNotFoundError. */
  function FindCol(cols: seq<ColMeta>, c: Col): (r: Option<ColMeta>)
    ensures r.Some? ==> r.value in cols && r.value.col == c
    ensures r.None? ==> forall m :: m in cols ==> m.col != c
  {
    if cols == [] then None else if cols[0].col == c then Some(cols[0]) else FindCol(cols[1..], c)
  }

  /** The first column of the name is the one that is found. */
  lemma {:induction false} FindFirst(cols: seq<ColMeta>, i: nat)
    requires i < |cols| && forall j :: 0 <= j < i ==> cols[j].col != cols[i].col
    ensures FindCol(cols, cols[i].col) == Some(cols[i])
  {
    if i == 0 {
    } else {
      FindFirst(cols[1..], i - 1);
    }
  }

  predicate Fits(cols: seq<ColMeta>, rec: Record) {
    forall i :: 0 <= i < |cols| ==> cols[i].offset + cols[i].len <= |rec|
  }

  function FieldOf(rec: Record, m: ColMeta): Field
    requires m.offset + m.len <= |rec|
  {
    rec[m.offset..m.offset + m.len]
  }

  /** The condition's columns exist and its value, if any, was initialised to the column's length. */
  predicate Resolves(cols: seq<ColMeta>, c: Condition) {
    && FindCol(cols, c.lhs).Some?
    && (c.rhs.RhsVal? ==> |c.rhs.raw| == FindCol(cols, c.lhs).value.len)
    && (c.rhs.RhsCol? ==> FindCol(cols, c.rhs.rcol).Some?)
  }

  /** The bytes that eval_condition reads for a right-hand column: from the column's offset, as many as the left column
      is long, whatever the right column's own length; the record ends before them at worst. */
  function RightBytes(rec: Record, r: ColMeta, len: nat): (b: Field)
    requires r.offset <= |rec|
  {
    rec[r.offset..if r.offset + len <= |rec| then r.offset + len else |rec|]
  }

  /** eval_condition; None is a strncmp that runs past the end of the record, which the source leaves undefined. */
  function CondValue(cols: seq<ColMeta>, c: Condition, rec: Record): Option<bool>
    requires Fits(cols, rec) && Resolves(cols, c)
  {
    var l := FindCol(cols, c.lhs).value;
    var a := FieldOf(rec, l);
    var b := match c.rhs
             case RhsVal(raw) => raw
             case RhsCol(rc) => RightBytes(rec, FindCol(cols, rc).value, l.len);
    if l.ctype.TypeString? && !Decided(a, b) then None else Some(EvalCompare(CompareRaw(l.ctype, a, b), c.op))
  }

  predicate EvalCondition(cols: seq<ColMeta>, c: Condition, rec: Record)
    requires Fits(cols, rec) && Resolves(cols, c)
  {
    CondValue(cols, c, rec) == Some(true)
  }

  predicate EvalConditions(cols: seq<ColMeta>, conds: seq<Condition>, rec: Record)
    requires Fits(cols, rec) && forall i :: 0 <= i < |conds| ==> Resolves(cols, conds[i])
  {
    forall i :: 0 <= i < |conds| ==> EvalCondition(cols, conds[i], rec)
  }
}
