/** Queries that join by equality, with CHAR columns of any lengths: on every database the plan is right if and only if
    two conditions hold that the WHERE clause and the catalog show. */
module EquiJoins {
  import opened Types
  import opened Compare
  import opened Planner
  import opened TupleLayout
  import opened CharLengths
  import opened PlanMeaning
  import opened PlanRows

  // ------------------------------------------------------------ comparisons without an answer

  /** eval_condition on the node's tuple runs past the tuple's end. */
  ghost predicate NodeUndefined(cat: Catalog, plan: Plan, env: Env, c: Condition)
    requires Over(cat, plan, env)
  {
    var cols, rec := Cols(cat, plan), Tuple(plan, env);
    Fits(cols, rec) && Resolves(cols, c) && CondValue(cols, c, rec).None?
  }

  /** On this combination the executors reach a comparison that runs past its tuple: all before it hold. */
  ghost predicate RunsPast(cat: Catalog, plan: Plan, env: Env)
    requires Over(cat, plan, env)
  {
    || (plan.JoinPlan? && (RunsPast(cat, plan.left, env) || RunsPast(cat, plan.right, env)))
    || (&& (plan.JoinPlan? ==> Survives(cat, plan.left, env) && Survives(cat, plan.right, env))
        && exists i :: 0 <= i < |plan.conds| && NodeUndefined(cat, plan, env, plan.conds[i])
             && forall j :: 0 <= j < i ==> NodeHolds(cat, plan, env, plan.conds[j]))
  }

  lemma {:induction false} ProperNeverRunsPast(cat: Catalog, plan: Plan, env: Env)
    requires Over(cat, plan, env) && EachOnce(plan) && Covered(plan) && AllProper(cat, plan)
    ensures !RunsPast(cat, plan, env)
  {
    hide Comparable;
    hide ProperIn;
    hide CondValue;
    hide Survives;
    hide NodeHolds;
    AttachedSplit(plan);
    forall i | 0 <= i < |plan.conds| ensures !NodeUndefined(cat, plan, env, plan.conds[i]) {
      assert Attached(plan, plan.conds[i]);
      CoveredWithin(plan, plan.conds[i]);
      NodeMeans(cat, plan, env, plan.conds[i]);
    }
    if plan.ScanPlan? {
    } else {
      ProperNeverRunsPast(cat, plan.left, env);
      ProperNeverRunsPast(cat, plan.right, env);
    }
  }

  // ------------------------------------------------------------------- records of one letter

  ghost predicate AllBytes(rec: Record, b: Byte) { forall i :: 0 <= i < |rec| ==> rec[i] == b }

  /** One record of each table, all of the same byte. */
  ghost function Uniform(cat: Catalog, tabs: set<TableName>, b: Byte): (env: Env)
    requires tabs <= cat.len.Keys
    ensures env.Keys == tabs && EnvOk(cat, env) && forall t :: t in env ==> AllBytes(env[t], b)
  {
    map t | t in tabs :: Fill(cat.len[t], b)
  }

  lemma {:induction false} UniformTuple(plan: Plan, env: Env, b: Byte)
    requires Tables(plan) <= env.Keys && forall t :: t in env ==> AllBytes(env[t], b)
    ensures AllBytes(Tuple(plan, env), b)
  {
    match plan
    case ScanPlan(tab, _) =>
    case JoinPlan(l, r, _) =>
      UniformTuple(l, env, b);
      UniformTuple(r, env, b);
  }

  /** An equality of two columns, the only kind of condition in an equi-join. */
  predicate IsEquality(c: Condition) { c.op == OpEq && c.rhs.RhsCol? }

  /** On a tuple of one letter every equality holds, unless strncmp runs past the tuple. */
  lemma LettersEqual(cols: seq<ColMeta>, c: Condition, rec: Record)
    requires Fits(cols, rec) && Resolves(cols, c) && IsEquality(c) && LikeTypes(Left(cols, c), Right(cols, c))
    requires AllBytes(rec, 97)
    ensures CondValue(cols, c, rec).None? || CondValue(cols, c, rec) == Some(true)
  {
    hide CompareRaw;
    var l, r := Left(cols, c), Right(cols, c);
    var a, w := FieldOf(rec, l), RightBytes(rec, r, l.len);
    if l.ctype.TypeString? {
      StringIsStrCmp(a, w);
      if |w| < |a| { RunsOut(a, w); } else { StrCmpEqual(a, w); }
    } else {
      assert a == w;
      CompareFlip(l.ctype, a, a);
    }
  }

  /** The column resolves at a node that covers it, with its own type and length. */
  lemma NodeResolves(cat: Catalog, plan: Plan, env: Env, c: Condition)
    requires Over(cat, plan, env) && EachOnce(plan) && Comparable(cat, c) && c.rhs.RhsCol? && Within(c, Tables(plan))
    ensures var cols := Cols(cat, plan);
      Fits(cols, Tuple(plan, env)) && Resolves(cols, c) && LikeTypes(Left(cols, c), Right(cols, c))
  {
    hide CatalogOk;
    hide EnvOk;
    FieldInTuple(cat, plan, env, c.lhs);
    FieldInTuple(cat, plan, env, c.rhs.rcol);
    NodeFits(cat, plan, env);
  }

  ghost predicate AllEqualities(cat: Catalog, plan: Plan) {
    forall c :: Attached(plan, c) ==> Comparable(cat, c) && IsEquality(c)
  }

  /** The first condition that does not hold has no value, if all before it hold. */
  lemma {:induction false} FirstUndefined(cat: Catalog, plan: Plan, env: Env, n: nat)
    requires Over(cat, plan, env) && n <= |plan.conds|
    requires forall i :: 0 <= i < n ==>
      NodeHolds(cat, plan, env, plan.conds[i]) || NodeUndefined(cat, plan, env, plan.conds[i])
    ensures (forall i :: 0 <= i < n ==> NodeHolds(cat, plan, env, plan.conds[i])) ||
      exists i :: 0 <= i < n && NodeUndefined(cat, plan, env, plan.conds[i])
        && forall j :: 0 <= j < i ==> NodeHolds(cat, plan, env, plan.conds[j])
  {
    hide NodeHolds;
    hide NodeUndefined;
    hide Over;
    if n == 0 {
    } else {
      FirstUndefined(cat, plan, env, n - 1);
    }
  }

  /** At one node every condition holds, or the first that does not has no value. */
  lemma LettersNode(cat: Catalog, plan: Plan, env: Env)
    requires Over(cat, plan, env) && EachOnce(plan) && Covered(plan) && AllEqualities(cat, plan)
    requires forall t :: t in env ==> AllBytes(env[t], 97)
    ensures (forall i :: 0 <= i < |plan.conds| ==> NodeHolds(cat, plan, env, plan.conds[i])) ||
      exists i :: 0 <= i < |plan.conds| && NodeUndefined(cat, plan, env, plan.conds[i])
        && forall j :: 0 <= j < i ==> NodeHolds(cat, plan, env, plan.conds[j])
  {
    hide Comparable;
    hide IsEquality;
    hide NodeHolds;
    hide NodeUndefined;
    hide AllBytes;
    hide Covered;
    hide EachOnce;
    hide Over;
    TablesThere(cat, plan, env);
    UniformTuple(plan, env, 97);
    forall i | 0 <= i < |plan.conds|
      ensures NodeHolds(cat, plan, env, plan.conds[i]) || NodeUndefined(cat, plan, env, plan.conds[i])
    {
      assert Attached(plan, plan.conds[i]);
      LetterHere(cat, plan, env, plan.conds[i]);
    }
    FirstUndefined(cat, plan, env, |plan.conds|);
  }

  lemma TablesThere(cat: Catalog, plan: Plan, env: Env)
    requires Over(cat, plan, env)
    ensures Tables(plan) <= env.Keys
  {
  }

  lemma {:induction false} LettersPass(cat: Catalog, plan: Plan, env: Env)
    requires Over(cat, plan, env) && EachOnce(plan) && Covered(plan) && AllEqualities(cat, plan)
    requires forall t :: t in env ==> AllBytes(env[t], 97)
    ensures Survives(cat, plan, env) || RunsPast(cat, plan, env)
  {
    hide Comparable;
    hide IsEquality;
    hide NodeHolds;
    hide NodeUndefined;
    hide AllBytes;
    hide Attached;
    hide Across;
    hide CatalogOk;
    hide EnvOk;
    LettersNode(cat, plan, env);
    if plan.ScanPlan? {
    } else {
      AttachedSplit(plan);
      LettersPass(cat, plan.left, env);
      LettersPass(cat, plan.right, env);
    }
  }

  lemma LetterHere(cat: Catalog, plan: Plan, env: Env, c: Condition)
    requires Over(cat, plan, env) && EachOnce(plan) && Covered(plan) && c in plan.conds
    requires Comparable(cat, c) && IsEquality(c) && AllBytes(Tuple(plan, env), 97)
    ensures NodeHolds(cat, plan, env, c) || NodeUndefined(cat, plan, env, c)
  {
    hide Comparable;
    hide CondValue;
    hide AllBytes;
    hide Covered;
    CoveredWithin(plan, c);
    NodeResolves(cat, plan, env, c);
    LettersEqual(Cols(cat, plan), c, Tuple(plan, env));
  }

  // ------------------------------------------------------------------ what the values say

  /** On records of one letter an equality holds exactly when its columns have one length. */
  lemma LettersMean(cat: Catalog, env: Env, c: Condition)
    requires CatalogOk(cat) && EnvOk(cat, env) && Comparable(cat, c) && Within(c, env.Keys) && IsEquality(c)
    requires forall t :: t in env ==> AllBytes(env[t], 97)
    ensures Holds(cat, env, c) <==> OneLength(cat, c)
  {
    hide CompareRaw;
    var a, b := ValueOf(cat, env, c.lhs), ValueOf(cat, env, c.rhs.rcol);
    assert AllBytes(a, 97) && AllBytes(b, 97);
    if |a| > |b| {
      TextLonger(a, b);
    } else if |b| > |a| {
      TextLonger(b, a);
      TextFlip(a, b);
    } else {
      assert a == b;
      ValuesFlip(FindCol(cat.cols[c.lhs.tab], c.lhs).value.ctype, a, b);
    }
  }

  /** On records of zero bytes every equality holds: empty strings and zeros. */
  lemma ZerosMean(cat: Catalog, env: Env, c: Condition)
    requires CatalogOk(cat) && EnvOk(cat, env) && Comparable(cat, c) && Within(c, env.Keys) && IsEquality(c)
    requires forall t :: t in env ==> AllBytes(env[t], 0)
    ensures Holds(cat, env, c)
  {
    hide CompareRaw;
    var l := FindCol(cat.cols[c.lhs.tab], c.lhs).value;
    var a, b := ValueOf(cat, env, c.lhs), ValueOf(cat, env, c.rhs.rcol);
    assert AllBytes(a, 0) && AllBytes(b, 0);
    if !l.ctype.TypeString? {
      assert a == b;
      CompareFlip(l.ctype, a, a);
    }
  }

  // --------------------------------------------------------------------- whole databases

  /** A query: planner guarantees for a WHERE clause of column equalities. */
  ghost predicate EquiPlan(cat: Catalog, plan: Plan, tables: seq<TableName>, conds: seq<Condition>) {
    && CatalogOk(cat) && (forall t :: t in tables ==> t in cat.cols && t in cat.len)
    && EachOnce(plan) && Tables(plan) == (set t | t in tables) && JoinsAcross(plan)
    && (forall k :: CountIn(plan, k) == Count(conds, k))
    && OverTables(tables, conds) && (forall c :: c in conds ==> Comparable(cat, c) && IsEquality(c))
  }

  /** On this database the plan delivers exactly the answers, and no comparison runs past its tuple. */
  ghost predicate AnswersOn(cat: Catalog, db: Database, plan: Plan, tables: seq<TableName>, conds: seq<Condition>) {
    && (forall p :: IsRow(cat, db, plan, p) <==> Answer(cat, db, tables, conds, p))
    && (forall p :: PickOk(cat, db, plan, p) ==> !RunsPast(cat, plan, Records(db, p)))
  }

  /** The database with one record in each table. */
  ghost function OneEach(env: Env): (db: Database)
    ensures db.Keys == env.Keys && forall t :: t in db ==> db[t] == map[Rid(1, 0) := env[t]]
  {
    map t | t in env :: map[Rid(1, 0) := env[t]]
  }

  ghost function PickEach(env: Env): (p: Pick)
    ensures p.Keys == env.Keys && forall t :: t in p ==> p[t] == Rid(1, 0)
  {
    map t | t in env :: Rid(1, 0)
  }

  lemma OneEachOk(cat: Catalog, plan: Plan, env: Env)
    requires Over(cat, plan, env) && env.Keys == Tables(plan)
    ensures var db, p := OneEach(env), PickEach(env);
      InDb(cat, db, plan) && PickOk(cat, db, plan, p) && Records(db, p) == env
  {
    hide CatalogOk;
    var db, p := OneEach(env), PickEach(env);
    assert Live(db, p);
    assert Records(db, p) == env;
  }

  lemma {:induction false} MisplacedNeverSurvives(cat: Catalog, plan: Plan, env: Env)
    requires Over(cat, plan, env) && JoinsAcross(plan) && !Covered(plan)
    ensures !Survives(cat, plan, env)
  {
    hide CondValue;
    match plan
    case ScanPlan(tab, conds) =>
      var i :| 0 <= i < |conds| && !Within(conds[i], {tab});
      ForeignOf(cat, plan, env, conds[i]);
    case JoinPlan(l, r, _) =>
      if !Covered(l) { MisplacedNeverSurvives(cat, l, env); } else { MisplacedNeverSurvives(cat, r, env); }
  }

  lemma RightIfLike(cat: Catalog, db: Database, plan: Plan, tables: seq<TableName>, conds: seq<Condition>)
    requires EquiPlan(cat, plan, tables, conds) && InDb(cat, db, plan)
    requires Covered(plan) && forall c :: c in conds ==> OneLength(cat, c)
    ensures AnswersOn(cat, db, plan, tables, conds)
  {
    hide Covered;
    hide Comparable;
    hide OneLength;
    hide CountIn;
    hide Count;
    hide IsRow;
    hide Answer;
    hide RunsPast;
    hide AllProper;
    OneLengthProper(cat, plan, conds);
    forall p ensures IsRow(cat, db, plan, p) <==> Answer(cat, db, tables, conds, p) {
      RowIsAnswer(cat, db, plan, tables, conds, p);
    }
    forall p | PickOk(cat, db, plan, p) ensures !RunsPast(cat, plan, Records(db, p)) {
      ProperNeverRunsPast(cat, plan, Records(db, p));
    }
  }

  lemma OverUniform(cat: Catalog, plan: Plan, tables: seq<TableName>, conds: seq<Condition>, b: Byte)
    requires EquiPlan(cat, plan, tables, conds)
    ensures Tables(plan) <= cat.len.Keys && Over(cat, plan, Uniform(cat, Tables(plan), b))
    ensures forall c :: c in conds ==> Within(c, Tables(plan))
  {
    hide CatalogOk;
    hide Comparable;
    hide Count;
    hide CountIn;
  }

  /** A misplaced condition: on empty strings and zeros there is an answer, and the plan does not deliver it. */
  lemma WrongIfMisplaced(cat: Catalog, plan: Plan, tables: seq<TableName>, conds: seq<Condition>)
    requires EquiPlan(cat, plan, tables, conds) && !Covered(plan)
    ensures exists db :: InDb(cat, db, plan) && !AnswersOn(cat, db, plan, tables, conds)
  {
    hide Covered;
    hide Holds;
    hide Survives;
    hide AllBytes;
    hide CatalogOk;
    hide Comparable;
    hide Count;
    hide CountIn;
    OverUniform(cat, plan, tables, conds, 0);
    var env := Uniform(cat, Tables(plan), 0);
    OneEachOk(cat, plan, env);
    var db, p := OneEach(env), PickEach(env);
    forall c | c in conds ensures Within(c, env.Keys) && Holds(cat, env, c) { ZerosMean(cat, env, c); }
    MisplacedNeverSurvives(cat, plan, env);
    assert Answer(cat, db, tables, conds, p);
    assert !IsRow(cat, db, plan, p);
  }

  /** Unlike lengths: on equal letters the plan delivers a row that is no answer, or reads past a tuple. */
  lemma WrongIfUnlike(cat: Catalog, plan: Plan, tables: seq<TableName>, conds: seq<Condition>, c: Condition)
    requires EquiPlan(cat, plan, tables, conds) && Covered(plan) && c in conds && !OneLength(cat, c)
    ensures exists db :: InDb(cat, db, plan) && !AnswersOn(cat, db, plan, tables, conds)
  {
    hide Covered;
    hide Holds;
    hide Survives;
    hide RunsPast;
    hide AllBytes;
    hide CatalogOk;
    hide Comparable;
    hide OneLength;
    hide Count;
    hide CountIn;
    OverUniform(cat, plan, tables, conds, 97);
    var env := Uniform(cat, Tables(plan), 97);
    OneEachOk(cat, plan, env);
    var db, p := OneEach(env), PickEach(env);
    LettersMean(cat, env, c);
    AttachedEqualities(cat, plan, conds);
    LettersPass(cat, plan, env);
    assert !Answer(cat, db, tables, conds, p);
    assert PickOk(cat, db, plan, p);
    assert IsRow(cat, db, plan, p) || RunsPast(cat, plan, Records(db, p));
  }

  lemma AttachedEqualities(cat: Catalog, plan: Plan, conds: seq<Condition>)
    requires forall k :: CountIn(plan, k) == Count(conds, k)
    requires forall c :: c in conds ==> Comparable(cat, c) && IsEquality(c)
    ensures AllEqualities(cat, plan)
  {
    hide Comparable;
    hide OneLength;
    hide ProperIn;
    hide IsEquality;
    hide Same;
    hide Count;
    hide CountIn;
    hide Attached;
    AttachedIsWritten(plan, conds);
    forall c | Attached(plan, c) ensures Comparable(cat, c) && IsEquality(c) {
      var d :| d in conds && Same(d, c);
      FlipLengths(cat, d, c);
      FlipEquality(d, c);
    }
  }

  lemma FlipEquality(c: Condition, k: Condition)
    requires IsEquality(c) && Same(c, k)
    ensures IsEquality(k)
  {
  }

  /** For a WHERE clause of column equalities the plan is right on every database if and only if no condition is
      misplaced and any two compared columns have one length. With MakeOneRel the first half means: no same-table
      equality is on a table other than the first. */
  lemma EquiJoinRightIff(cat: Catalog, plan: Plan, tables: seq<TableName>, conds: seq<Condition>)
    requires EquiPlan(cat, plan, tables, conds)
    ensures (forall db :: InDb(cat, db, plan) ==> AnswersOn(cat, db, plan, tables, conds))
            <==> Covered(plan) && forall c :: c in conds ==> OneLength(cat, c)
  {
    hide Covered;
    hide AnswersOn;
    hide InDb;
    hide EquiPlan;
    hide OneLength;
    WhereComparable(cat, plan, tables, conds);
    if !Covered(plan) {
      WrongIfMisplaced(cat, plan, tables, conds);
    } else if c :| c in conds && !OneLength(cat, c) {
      WrongIfUnlike(cat, plan, tables, conds, c);
    } else {
      forall db | InDb(cat, db, plan) ensures AnswersOn(cat, db, plan, tables, conds) {
        RightIfLike(cat, db, plan, tables, conds);
      }
    }
  }

  lemma WhereComparable(cat: Catalog, plan: Plan, tables: seq<TableName>, conds: seq<Condition>)
    requires EquiPlan(cat, plan, tables, conds)
    ensures forall c :: c in conds ==> Comparable(cat, c)
  {
  }

  // -------------------------------------------------- the order of the WHERE conditions matters

  const A: TableName := [97]
  const B: TableName := [98]
  const C: TableName := [99]

  /** a(s CHAR(1), k CHAR(1)), b(s CHAR(2)), c(k CHAR(1)). */
  ghost function Schema(): Catalog {
    Catalog(map[A := [ColMeta(Col(A, "s"), TypeString, 1, 0), ColMeta(Col(A, "k"), TypeString, 1, 1)],
                B := [ColMeta(Col(B, "s"), TypeString, 2, 0)], C := [ColMeta(Col(C, "k"), TypeString, 1, 0)]],
            map[A := 2, B := 2, C := 1])
  }

  /** One row in each table: 'a' and '', 'ab', ''. */
  ghost function OneRow(): Env { map[A := [97, 0], B := [97, 98], C := [0]] }

  function ByName(): Condition { Condition(Col(A, "s"), OpEq, RhsCol(Col(B, "s"))) }

  function ByKey(): Condition { Condition(Col(A, "k"), OpEq, RhsCol(Col(C, "k"))) }

  /** What make_one_rel builds for a.s = b.s AND a.k = c.k. */
  function NamesFirst(): Plan {
    JoinPlan(ScanPlan(C, []), JoinPlan(ScanPlan(A, []), ScanPlan(B, []), [ByName()]), [Flip(ByKey())])
  }

  /** What make_one_rel builds for a.k = c.k AND a.s = b.s. */
  function KeysFirst(): Plan {
    JoinPlan(ScanPlan(B, []), JoinPlan(ScanPlan(A, []), ScanPlan(C, []), [ByKey()]), [Flip(ByName())])
  }

  lemma SchemaOk()
    ensures CatalogOk(Schema()) && EnvOk(Schema(), OneRow())
    ensures Comparable(Schema(), ByName()) && Comparable(Schema(), ByKey()) && !OneLength(Schema(), ByName())
  {
    hide CompareRaw;
    assert "s" != "k";
  }

  lemma CountTwo(c: Condition, d: Condition, k: Condition)
    ensures Count([c, d], k) == (if Same(c, k) then 1 else 0) + if Same(d, k) then 1 else 0
  {
    hide Same;
    assert [c, d] == [c] + [d];
    CountAppend([c], [d], k);
    CountOne(c, k);
    CountOne(d, k);
  }

  lemma TwoJoins(t: TableName, u: TableName, v: TableName, c: Condition, d: Condition, k: Condition)
    requires d.rhs.RhsCol?
    ensures CountIn(JoinPlan(ScanPlan(t, []), JoinPlan(ScanPlan(u, []), ScanPlan(v, []), [c]), [Flip(d)]), k)
      == Count([c, d], k) == Count([d, c], k)
  {
    hide Same;
    hide Flip;
    SameFlip(d, k);
    CountTwo(c, d, k);
    CountTwo(d, c, k);
    CountOne(c, k);
    CountOne(Flip(d), k);
    assert Count([], k) == 0;
    var inner := JoinPlan(ScanPlan(u, []), ScanPlan(v, []), [c]);
    assert CountIn(ScanPlan(t, []), k) == 0 && CountIn(inner, k) == Count([c], k);
  }

  /** Both plans have the planner's guarantees for the same two conditions. */
  lemma BothPlanned()
    ensures EquiPlan(Schema(), NamesFirst(), [A, B, C], [ByName(), ByKey()])
    ensures EquiPlan(Schema(), KeysFirst(), [A, B, C], [ByKey(), ByName()])
  {
    hide Comparable;
    hide CatalogOk;
    hide CountIn;
    hide Count;
    SchemaOk();
    forall k { TwoJoins(C, A, B, ByName(), ByKey(), k); }
    forall k { TwoJoins(B, A, C, ByKey(), ByName(), k); }
  }

  function ColOf(t: TableName, name: string, len: nat, offset: nat): ColMeta {
    ColMeta(Col(t, name), TypeString, len, offset)
  }

  /** Columns and tuple of a join of two nodes. */
  lemma JoinLayout(cat: Catalog, env: Env, l: Plan, r: Plan, conds: seq<Condition>)
    requires Over(cat, JoinPlan(l, r, conds), env)
    ensures var plan := JoinPlan(l, r, conds);
      && Cols(cat, plan) == Cols(cat, l) + ShiftCols(Cols(cat, r), |Tuple(l, env)|)
      && Tuple(plan, env) == Tuple(l, env) + Tuple(r, env)
  {
    hide CatalogOk;
    hide EnvOk;
    TupleLen(cat, l, env);
  }

  lemma NamesInner()
    ensures Over(Schema(), NamesFirst(), OneRow())
    ensures var plan := NamesFirst().right;
      && Cols(Schema(), plan) == [ColOf(A, "s", 1, 0), ColOf(A, "k", 1, 1), ColOf(B, "s", 2, 2)]
      && Tuple(plan, OneRow()) == [97, 0, 97, 98]
  {
    hide CatalogOk;
    hide EnvOk;
    SchemaOk();
    JoinLayout(Schema(), OneRow(), ScanPlan(A, []), ScanPlan(B, []), [ByName()]);
    assert ShiftCols(Schema().cols[B], 2) == [ColOf(B, "s", 2, 2)];
  }

  lemma KeysInner()
    ensures Over(Schema(), KeysFirst(), OneRow())
    ensures var plan := KeysFirst().right;
      && Cols(Schema(), plan) == [ColOf(A, "s", 1, 0), ColOf(A, "k", 1, 1), ColOf(C, "k", 1, 2)]
      && Tuple(plan, OneRow()) == [97, 0, 0]
  {
    hide CatalogOk;
    hide EnvOk;
    SchemaOk();
    JoinLayout(Schema(), OneRow(), ScanPlan(A, []), ScanPlan(C, []), [ByKey()]);
    assert ShiftCols(Schema().cols[C], 2) == [ColOf(C, "k", 1, 2)];
  }

  lemma NamesOuter()
    ensures Over(Schema(), NamesFirst(), OneRow())
    ensures Cols(Schema(), NamesFirst())
      == [ColOf(C, "k", 1, 0), ColOf(A, "s", 1, 1), ColOf(A, "k", 1, 2), ColOf(B, "s", 2, 3)]
    ensures Tuple(NamesFirst(), OneRow()) == [0, 97, 0, 97, 98]
  {
    hide CatalogOk;
    hide EnvOk;
    NamesInner();
    JoinLayout(Schema(), OneRow(), ScanPlan(C, []), NamesFirst().right, NamesFirst().conds);
  }

  lemma KeysOuter()
    ensures Over(Schema(), KeysFirst(), OneRow())
    ensures Cols(Schema(), KeysFirst())
      == [ColOf(B, "s", 2, 0), ColOf(A, "s", 1, 2), ColOf(A, "k", 1, 3), ColOf(C, "k", 1, 4)]
    ensures Tuple(KeysFirst(), OneRow()) == [97, 98, 97, 0, 0]
  {
    hide CatalogOk;
    hide EnvOk;
    KeysInner();
    JoinLayout(Schema(), OneRow(), ScanPlan(B, []), KeysFirst().right, KeysFirst().conds);
  }

  /** eval_condition on two CHAR columns found at positions i and j. */
  lemma ValueAt(cols: seq<ColMeta>, c: Condition, rec: Record, i: nat, j: nat)
    requires Fits(cols, rec) && i < |cols| && j < |cols| && cols[i].ctype == TypeString && c.rhs.RhsCol?
    requires c.lhs == cols[i].col && c.rhs.rcol == cols[j].col
    requires (forall k :: 0 <= k < i ==> cols[k].col != cols[i].col)
      && forall k :: 0 <= k < j ==> cols[k].col != cols[j].col
    ensures Resolves(cols, c)
    ensures var a, w := FieldOf(rec, cols[i]), RightBytes(rec, cols[j], cols[i].len);
      CondValue(cols, c, rec) == if Decided(a, w) then Some(EvalCompare(StrCmp(a, w), c.op)) else None
  {
    hide FindCol;
    FindFirst(cols, i);
    FindFirst(cols, j);
  }

  lemma NamesPass()
    ensures Over(Schema(), NamesFirst(), OneRow()) && Survives(Schema(), NamesFirst(), OneRow())
  {
    hide CatalogOk;
    hide EnvOk;
    hide CondValue;
    hide FindCol;
    hide Cols;
    hide Tuple;
    NamesInner();
    NamesOuter();
    var inner, outer := NamesFirst().right, NamesFirst();
    ValueAt(Cols(Schema(), inner), ByName(), Tuple(inner, OneRow()), 0, 2);
    ValueAt(Cols(Schema(), outer), Flip(ByKey()), Tuple(outer, OneRow()), 0, 2);
    assert NodeHolds(Schema(), inner, OneRow(), ByName());
    assert NodeHolds(Schema(), outer, OneRow(), Flip(ByKey()));
    assert Survives(Schema(), inner, OneRow());
  }

  lemma KeysFail()
    ensures Over(Schema(), KeysFirst(), OneRow()) && !Survives(Schema(), KeysFirst(), OneRow())
  {
    hide CatalogOk;
    hide EnvOk;
    hide CondValue;
    hide FindCol;
    hide Cols;
    hide Tuple;
    KeysOuter();
    var plan, rec := KeysFirst(), Tuple(KeysFirst(), OneRow());
    ValueAt(Cols(Schema(), plan), Flip(ByName()), rec, 0, 1);
    assert AgreeTo([97, 98], [97, 0], 1);
    StrCmpAt([97, 98], [97, 0], 1);
    assert rec[0..2] == [97, 98] && rec[2..4] == [97, 0];
    assert !NodeHolds(Schema(), plan, OneRow(), plan.conds[0]);
  }

  /** A concrete failure: the same two conditions in another order give another result. With a.s = b.s first the strings
      'a' and 'ab' are compared by one byte and the row is delivered; with a.k = c.k first the comparison is turned
      round, reads two bytes, and the row is not delivered. */
  lemma WhereOrderMatters()
    ensures EquiPlan(Schema(), NamesFirst(), [A, B, C], [ByName(), ByKey()])
    ensures EquiPlan(Schema(), KeysFirst(), [A, B, C], [ByKey(), ByName()])
    ensures Over(Schema(), NamesFirst(), OneRow()) && Survives(Schema(), NamesFirst(), OneRow())
    ensures Over(Schema(), KeysFirst(), OneRow()) && !Survives(Schema(), KeysFirst(), OneRow())
  {
    BothPlanned();
    NamesPass();
    KeysFail();
  }
}
