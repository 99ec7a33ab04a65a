/** What a plan computes (src/portal.h builds the executors of a plan): node by node on the bytes of the joined tuple,
    against the WHERE clause on the records of the tables. */
module PlanMeaning {
  import opened Types
  import opened Compare
  import opened Planner
  import opened TupleLayout
  import opened CharLengths

  // ------------------------------------------------------------------ conditions on table records

  /** The columns exist; a value has its column's length, and two columns have one type. The analyzer checks no more:
      CHAR columns may have different lengths. */
  ghost predicate Comparable(cat: Catalog, c: Condition) {
    && c.lhs.tab in cat.cols && FindCol(cat.cols[c.lhs.tab], c.lhs).Some?
    && var l := FindCol(cat.cols[c.lhs.tab], c.lhs).value;
       match c.rhs
       case RhsVal(raw) => |raw| == l.len
       case RhsCol(rc) =>
         && rc.tab in cat.cols && FindCol(cat.cols[rc.tab], rc).Some?
         && LikeTypes(l, FindCol(cat.cols[rc.tab], rc).value)
  }

  /** Two compared columns have lengths, and an operator, with which eval_condition orders their values. */
  ghost predicate ProperIn(cat: Catalog, c: Condition)
    requires Comparable(cat, c)
  {
    c.rhs.RhsCol? ==>
      var l, r := FindCol(cat.cols[c.lhs.tab], c.lhs).value, FindCol(cat.cols[c.rhs.rcol.tab], c.rhs.rcol).value;
      Proper(l.len, r.len, c.op)
  }

  /** Two compared columns have one length. */
  ghost predicate OneLength(cat: Catalog, c: Condition)
    requires Comparable(cat, c)
  {
    c.rhs.RhsCol? ==>
      FindCol(cat.cols[c.lhs.tab], c.lhs).value.len == FindCol(cat.cols[c.rhs.rcol.tab], c.rhs.rcol).value.len
  }

  ghost predicate Within(c: Condition, tabs: set<TableName>) {
    c.lhs.tab in tabs && (c.rhs.RhsCol? ==> c.rhs.rcol.tab in tabs)
  }

  /** The bytes of a column in the record of its table. */
  ghost function ValueOf(cat: Catalog, env: Env, c: Col): Field
    requires CatalogOk(cat) && EnvOk(cat, env) && c.tab in env && c.tab in cat.cols && FindCol(cat.cols[c.tab], c).Some?
  {
    ScanField(cat, c.tab, env, c);
    FieldOf(env[c.tab], FindCol(cat.cols[c.tab], c).value)
  }

  /** The condition on the values of one record of each table. */
  ghost predicate Holds(cat: Catalog, env: Env, c: Condition)
    requires CatalogOk(cat) && EnvOk(cat, env) && Comparable(cat, c) && Within(c, env.Keys)
  {
    var t := FindCol(cat.cols[c.lhs.tab], c.lhs).value.ctype;
    var cmp := match c.rhs
               case RhsVal(raw) => CompareRaw(t, ValueOf(cat, env, c.lhs), raw)
               case RhsCol(rc) => CompareValues(t, ValueOf(cat, env, c.lhs), ValueOf(cat, env, rc));
    EvalCompare(cmp, c.op)
  }

  /** Swapping the operands of a comparison keeps its meaning on the values. */
  lemma FlipHolds(cat: Catalog, env: Env, c: Condition, k: Condition)
    requires CatalogOk(cat) && EnvOk(cat, env) && Comparable(cat, c) && Within(c, env.Keys) && Same(c, k)
    ensures Comparable(cat, k) && Within(k, env.Keys) && (Holds(cat, env, c) <==> Holds(cat, env, k))
  {
    hide CompareValues;
    if c != k {
      var l := FindCol(cat.cols[c.lhs.tab], c.lhs).value;
      ValuesFlip(l.ctype, ValueOf(cat, env, c.lhs), ValueOf(cat, env, c.rhs.rcol));
      SwapOpFlips(CompareValues(l.ctype, ValueOf(cat, env, c.lhs), ValueOf(cat, env, c.rhs.rcol)), c.op);
    }
  }

  /** Unlike lengths can turn proper by a swap, and improper; like lengths stay. */
  lemma FlipLengths(cat: Catalog, c: Condition, k: Condition)
    requires Comparable(cat, c) && Same(c, k)
    ensures Comparable(cat, k) && (OneLength(cat, k) <==> OneLength(cat, c)) && (OneLength(cat, c) ==> ProperIn(cat, k))
  {
  }

  /** eval_condition on a node's tuple; false also stands for a column that the node does not have. */
  ghost predicate NodeHolds(cat: Catalog, plan: Plan, env: Env, c: Condition)
    requires Over(cat, plan, env)
  {
    var cols, rec := Cols(cat, plan), Tuple(plan, env);
    Fits(cols, rec) && Resolves(cols, c) && EvalCondition(cols, c, rec)
  }

  /** A value has its column's length, so the comparison with it has its answer. */
  lemma {:induction false} DecidedWithin(a: Field, b: Field)
    requires |a| == |b|
    ensures Decided(a, b)
  {
    if a == [] {
    } else {
      DecidedWithin(a[1..], b[1..]);
    }
  }

  lemma NodeFits(cat: Catalog, plan: Plan, env: Env)
    requires Over(cat, plan, env)
    ensures Fits(Cols(cat, plan), Tuple(plan, env))
  {
    ColsInside(cat, plan, env);
    TupleLen(cat, plan, env);
  }

  /** At a node that covers its columns a condition has a value, and it is what the condition means on the tables. */
  lemma NodeMeans(cat: Catalog, plan: Plan, env: Env, c: Condition)
    requires Over(cat, plan, env) && EachOnce(plan) && Comparable(cat, c) && ProperIn(cat, c) && Within(c, Tables(plan))
    ensures Within(c, env.Keys) && Fits(Cols(cat, plan), Tuple(plan, env)) && Resolves(Cols(cat, plan), c)
    ensures CondValue(Cols(cat, plan), c, Tuple(plan, env)) == Some(Holds(cat, env, c))
    ensures NodeHolds(cat, plan, env, c) <==> Holds(cat, env, c)
  {
    hide CompareRaw;
    hide CompareValues;
    hide Cols;
    hide Tuple;
    hide CatalogOk;
    hide EnvOk;
    FieldInTuple(cat, plan, env, c.lhs);
    NodeFits(cat, plan, env);
    if c.rhs.RhsCol? {
      FieldInTuple(cat, plan, env, c.rhs.rcol);
      ProperMeans(Cols(cat, plan), c, Tuple(plan, env));
    } else {
      DecidedWithin(ValueOf(cat, env, c.lhs), c.rhs.raw);
    }
  }

  /** The combination of records passes every node: every scan filter and every join condition. */
  ghost predicate Survives(cat: Catalog, plan: Plan, env: Env)
    requires Over(cat, plan, env)
  {
    && (forall i :: 0 <= i < |plan.conds| ==> NodeHolds(cat, plan, env, plan.conds[i]))
    && (plan.JoinPlan? ==> Survives(cat, plan.left, env) && Survives(cat, plan.right, env))
  }

  ghost predicate Attached(plan: Plan, c: Condition) {
    c in plan.conds || (plan.JoinPlan? && (Attached(plan.left, c) || Attached(plan.right, c)))
  }

  lemma {:induction false} AttachedCount(plan: Plan, k: Condition)
    ensures CountIn(plan, k) > 0 <==> exists c :: Attached(plan, c) && Same(c, k)
  {
    hide Same;
    CountPositive(plan.conds, k);
    assert forall c :: c in plan.conds ==> Attached(plan, c);
    assert forall i :: 0 <= i < |plan.conds| ==> plan.conds[i] in plan.conds;
    if plan.ScanPlan? {
    } else {
      AttachedCount(plan.left, k);
      AttachedCount(plan.right, k);
      assert forall c :: Attached(plan.left, c) || Attached(plan.right, c) ==> Attached(plan, c);
    }
  }

  ghost predicate AllProper(cat: Catalog, plan: Plan) {
    forall c :: Attached(plan, c) ==> Comparable(cat, c) && ProperIn(cat, c)
  }

  lemma ConditionsHere(cat: Catalog, plan: Plan, env: Env)
    requires Over(cat, plan, env) && EachOnce(plan) && Covered(plan) && AllProper(cat, plan)
    ensures forall c :: c in plan.conds ==>
      Comparable(cat, c) && Within(c, env.Keys) && (NodeHolds(cat, plan, env, c) <==> Holds(cat, env, c))
  {
    hide NodeHolds;
    hide Holds;
    hide Comparable;
    hide Covered;
    forall c | c in plan.conds
      ensures Comparable(cat, c) && Within(c, env.Keys) && (NodeHolds(cat, plan, env, c) <==> Holds(cat, env, c))
    {
      assert Attached(plan, c);
      CoveredWithin(plan, c);
      NodeMeans(cat, plan, env, c);
    }
  }

  lemma AttachedSplit(plan: Plan)
    ensures forall c :: Attached(plan, c) <==>
      c in plan.conds || (plan.JoinPlan? && (Attached(plan.left, c) || Attached(plan.right, c)))
    ensures forall i :: 0 <= i < |plan.conds| ==> plan.conds[i] in plan.conds
  {
  }

  /** In a covered plan, passing every node is satisfying every attached condition. */
  lemma {:induction false} SurvivesMeans(cat: Catalog, plan: Plan, env: Env)
    requires Over(cat, plan, env) && EachOnce(plan) && Covered(plan) && AllProper(cat, plan)
    ensures forall c :: Attached(plan, c) ==> Within(c, env.Keys)
    ensures Survives(cat, plan, env) <==> forall c :: Attached(plan, c) ==> Holds(cat, env, c)
  {
    hide NodeHolds;
    hide Holds;
    hide Comparable;
    hide Within;
    hide CatalogOk;
    hide EnvOk;
    hide Attached;
    hide Across;
    ConditionsHere(cat, plan, env);
    AttachedSplit(plan);
    if plan.ScanPlan? {
    } else {
      SurvivesMeans(cat, plan.left, env);
      SurvivesMeans(cat, plan.right, env);
    }
  }

  lemma CoveredWithin(plan: Plan, c: Condition)
    requires Covered(plan) && c in plan.conds
    ensures Within(c, Tables(plan))
  {
    var i :| 0 <= i < |plan.conds| && plan.conds[i] == c;
  }

  /** The attached conditions are the WHERE conditions, up to operand swaps. */
  lemma AttachedIsWritten(plan: Plan, conds: seq<Condition>)
    requires forall k :: CountIn(plan, k) == Count(conds, k)
    ensures forall c :: Attached(plan, c) ==> exists d :: d in conds && Same(d, c)
    ensures forall d :: d in conds ==> exists c :: Attached(plan, c) && Same(c, d)
  {
    hide Same;
    hide Count;
    hide CountIn;
    hide Attached;
    forall c | Attached(plan, c) ensures exists d :: d in conds && Same(d, c) {
      SameSelf(c);
      AttachedCount(plan, c);
      CountPositive(conds, c);
      var i :| 0 <= i < |conds| && Same(conds[i], c);
      assert conds[i] in conds;
    }
    forall d | d in conds ensures exists c :: Attached(plan, c) && Same(c, d) {
      SameSelf(d);
      var i :| 0 <= i < |conds| && conds[i] == d;
      CountPositive(conds, d);
      AttachedCount(plan, d);
    }
  }

  /** One length for each pair of compared columns is enough, however the planner turns the comparisons. */
  lemma OneLengthProper(cat: Catalog, plan: Plan, conds: seq<Condition>)
    requires forall k :: CountIn(plan, k) == Count(conds, k)
    requires forall c :: c in conds ==> Comparable(cat, c) && OneLength(cat, c)
    ensures AllProper(cat, plan)
  {
    hide Same;
    hide Comparable;
    hide OneLength;
    hide ProperIn;
    AttachedIsWritten(plan, conds);
    forall c | Attached(plan, c) ensures Comparable(cat, c) && ProperIn(cat, c) {
      var d :| d in conds && Same(d, c);
      FlipLengths(cat, d, c);
    }
  }

  /** The plan preserves the meaning of the WHERE clause: a combination of one record of each table passes every node
      exactly when it satisfies every WHERE condition. Any plan with make_one_rel's guarantees will do, if it compares
      no CHAR columns of unlike lengths the wrong way round. */
  lemma PlanPreservesMeaning(cat: Catalog, plan: Plan, tables: seq<TableName>, conds: seq<Condition>, env: Env)
    requires CatalogOk(cat) && EnvOk(cat, env)
      && (forall t :: t in tables ==> t in env && t in cat.len && t in cat.cols)
    requires EachOnce(plan) && Tables(plan) == (set t | t in tables) && Covered(plan) && AllProper(cat, plan)
    requires forall k :: CountIn(plan, k) == Count(conds, k)
    requires OverTables(tables, conds) && forall c :: c in conds ==> Comparable(cat, c)
    ensures Over(cat, plan, env) && forall c :: c in conds ==> Within(c, env.Keys)
    ensures Survives(cat, plan, env) <==> forall c :: c in conds ==> Holds(cat, env, c)
  {
    hide Same;
    hide Holds;
    hide Comparable;
    hide ProperIn;
    hide Survives;
    hide Covered;
    hide Count;
    hide CountIn;
    hide Attached;
    hide CatalogOk;
    AttachedIsWritten(plan, conds);
    SurvivesMeans(cat, plan, env);
    forall c, d | d in conds && Same(d, c)
      ensures Comparable(cat, c) && Within(c, env.Keys) && (Holds(cat, env, d) <==> Holds(cat, env, c))
    {
      FlipHolds(cat, env, d, c);
    }
    forall c, d | Attached(plan, c) && Same(c, d)
      ensures Comparable(cat, d) && Within(d, env.Keys) && (Holds(cat, env, c) <==> Holds(cat, env, d))
    {
      FlipHolds(cat, env, c, d);
    }
  }

  lemma SameSelf(c: Condition)
    ensures Same(c, c)
  {
  }
}
