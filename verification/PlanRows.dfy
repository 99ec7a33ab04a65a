/** The rows that a plan delivers: scans and joins as list comprehensions over picks of one rid per table. */
module PlanRows {
  import opened Types
  import opened Compare
  import opened Planner
  import opened TupleLayout
  import opened PlanMeaning

  /** One rid per table. */
  type Pick = map<TableName, Rid>

  type Database = map<TableName, Table>

  /** The pick names live records. */
  ghost predicate Live(db: Database, p: Pick) {
    forall t :: t in p ==> t in db && p[t] in db[t]
  }

  ghost function Records(db: Database, p: Pick): (env: Env)
    requires Live(db, p)
    ensures env.Keys == p.Keys && forall t :: t in p ==> env[t] == db[t][p[t]]
  {
    map t | t in p :: db[t][p[t]]
  }

  ghost predicate DbOk(cat: Catalog, db: Database) {
    CatalogOk(cat) && forall t, r :: t in db && r in db[t] ==> t in cat.len && |db[t][r]| == cat.len[t]
  }

  /** Each scan visits every live rid of its table once. */
  ghost predicate OrdersOk(db: Database, orders: map<TableName, seq<Rid>>) {
    && orders.Keys == db.Keys
    && (forall t, r :: t in db ==> (r in orders[t] <==> r in db[t]))
    && (forall t, i, j :: t in db && 0 <= i < j < |orders[t]| ==> orders[t][i] != orders[t][j])
  }

  ghost predicate PickOk(cat: Catalog, db: Database, plan: Plan, p: Pick) {
    p.Keys == Tables(plan) && Live(db, p) && Over(cat, plan, Records(db, p))
  }

  /** The node's own conditions hold on the pick's tuple. */
  ghost predicate NodeKeeps(cat: Catalog, db: Database, plan: Plan, p: Pick) {
    PickOk(cat, db, plan, p) && forall i :: 0 <= i < |plan.conds| ==>
      NodeHolds(cat, plan, Records(db, p), plan.conds[i])
  }

  ghost function Keep(cat: Catalog, db: Database, plan: Plan, ps: seq<Pick>): seq<Pick> {
    if ps == [] then []
    else (if NodeKeeps(cat, db, plan, ps[0]) then [ps[0]] else []) + Keep(cat, db, plan, ps[1..])
  }

  ghost function Singles(tab: TableName, rids: seq<Rid>): (ps: seq<Pick>)
    ensures |ps| == |rids| && forall i :: 0 <= i < |ps| ==> ps[i] == map[tab := rids[i]]
  {
    seq(|rids|, i requires 0 <= i < |rids| => map[tab := rids[i]])
  }

  ghost function WithRight(ls: seq<Pick>, r: Pick): (ps: seq<Pick>)
    ensures |ps| == |ls| && forall i :: 0 <= i < |ps| ==> ps[i] == ls[i] + r
  {
    seq(|ls|, i requires 0 <= i < |ls| => ls[i] + r)
  }

  /** Every pair, right picks in the outer loop. */
  ghost function Product(ls: seq<Pick>, rs: seq<Pick>): seq<Pick> {
    if rs == [] then [] else WithRight(ls, rs[0]) + Product(ls, rs[1..])
  }

  ghost function Rows(cat: Catalog, db: Database, orders: map<TableName, seq<Rid>>, plan: Plan): seq<Pick>
    requires Tables(plan) <= orders.Keys
  {
    match plan
    case ScanPlan(tab, _) => Keep(cat, db, plan, Singles(tab, orders[tab]))
    case JoinPlan(l, r, _) => Keep(cat, db, plan, Product(Rows(cat, db, orders, l), Rows(cat, db, orders, r)))
  }

  // --------------------------------------------------------------------------- list lemmas

  ghost predicate Once(ps: seq<Pick>) { forall i, j :: 0 <= i < j < |ps| ==> ps[i] != ps[j] }

  lemma {:induction false} KeepElements(cat: Catalog, db: Database, plan: Plan, ps: seq<Pick>)
    ensures forall p :: p in Keep(cat, db, plan, ps) <==> p in ps && NodeKeeps(cat, db, plan, p)
  {
    hide NodeKeeps;
    if ps == [] {
    } else {
      KeepElements(cat, db, plan, ps[1..]);
      assert ps == [ps[0]] + ps[1..];
    }
  }

  lemma {:induction false} KeepOnce(cat: Catalog, db: Database, plan: Plan, ps: seq<Pick>)
    requires Once(ps)
    ensures Once(Keep(cat, db, plan, ps))
  {
    hide NodeKeeps;
    if ps == [] {
    } else {
      KeepOnce(cat, db, plan, ps[1..]);
      KeepElements(cat, db, plan, ps[1..]);
      assert forall i :: 0 <= i < |ps| - 1 ==> ps[1..][i] == ps[i + 1];
      assert ps[0] !in ps[1..];
    }
  }

  ghost predicate AllKeys(ps: seq<Pick>, keys: set<TableName>) { forall i :: 0 <= i < |ps| ==> ps[i].Keys == keys }

  /** The two halves of a merged pick can be read off. */
  lemma Halves(l: Pick, r: Pick, a: set<TableName>, b: set<TableName>)
    requires l.Keys == a && r.Keys == b && a !! b
    ensures (l + r).Keys == a + b && Half(l + r, a) == l && Half(l + r, b) == r
  {
  }

  ghost function Half(p: Pick, keys: set<TableName>): (h: Pick)
    requires keys <= p.Keys
  {
    map t | t in keys :: p[t]
  }

  lemma HalvesBack(p: Pick, a: set<TableName>, b: set<TableName>)
    requires p.Keys == a + b && a !! b
    ensures Half(p, a) + Half(p, b) == p && Half(p, a).Keys == a && Half(p, b).Keys == b
  {
  }

  lemma {:induction false} ProductElements(ls: seq<Pick>, rs: seq<Pick>, a: set<TableName>, b: set<TableName>, p: Pick)
    requires AllKeys(ls, a) && AllKeys(rs, b) && a !! b
    ensures p in Product(ls, rs) <==> p.Keys == a + b && Half(p, a) in ls && Half(p, b) in rs
  {
    if rs == [] {
    } else {
      ProductElements(ls, rs[1..], a, b, p);
      assert rs == [rs[0]] + rs[1..];
      RightElements(ls, rs[0], a, b, p);
    }
  }

  lemma RightElements(ls: seq<Pick>, r: Pick, a: set<TableName>, b: set<TableName>, p: Pick)
    requires AllKeys(ls, a) && r.Keys == b && a !! b
    ensures p in WithRight(ls, r) <==> p.Keys == a + b && Half(p, a) in ls && Half(p, b) == r
  {
    if p in WithRight(ls, r) {
      var i :| 0 <= i < |ls| && WithRight(ls, r)[i] == p;
      Halves(ls[i], r, a, b);
    }
    if p.Keys == a + b && Half(p, a) in ls && Half(p, b) == r {
      HalvesBack(p, a, b);
      var i :| 0 <= i < |ls| && ls[i] == Half(p, a);
      assert WithRight(ls, r)[i] == p;
    }
  }

  lemma {:induction false} ProductOnce(ls: seq<Pick>, rs: seq<Pick>, a: set<TableName>, b: set<TableName>)
    requires AllKeys(ls, a) && AllKeys(rs, b) && a !! b && Once(ls) && Once(rs)
    ensures Once(Product(ls, rs))
  {
    if rs == [] {
    } else {
      var first, rest := WithRight(ls, rs[0]), Product(ls, rs[1..]);
      ProductOnce(ls, rs[1..], a, b);
      assert forall i :: 0 <= i < |rs| - 1 ==> rs[1..][i] == rs[i + 1];
      forall i, j | 0 <= i < j < |first| ensures first[i] != first[j] {
        Halves(ls[i], rs[0], a, b);
        Halves(ls[j], rs[0], a, b);
      }
      forall p | p in first && p in rest ensures false {
        RightElements(ls, rs[0], a, b, p);
        ProductElements(ls, rs[1..], a, b, p);
      }
      OnceAppend(first, rest);
    }
  }

  lemma OnceAppend(a: seq<Pick>, b: seq<Pick>)
    requires Once(a) && Once(b) && forall p :: !(p in a && p in b)
    ensures Once(a + b)
  {
    var s := a + b;
    forall i, j | 0 <= i < j < |s| ensures s[i] != s[j] {
      if i < |a| <= j { assert s[i] in a && s[j] in b; }
    }
  }

  // --------------------------------------------------------------------- the rows of a plan

  lemma {:induction false} TupleFrame(plan: Plan, env: Env, env': Env)
    requires Tables(plan) <= env.Keys && Tables(plan) <= env'.Keys
    requires forall t :: t in Tables(plan) ==> env[t] == env'[t]
    ensures Tuple(plan, env) == Tuple(plan, env')
  {
    if plan.ScanPlan? {
    } else {
      TupleFrame(plan.left, env, env');
      TupleFrame(plan.right, env, env');
    }
  }

  /** Surviving depends only on the records of the plan's own tables. */
  lemma {:induction false} SurvivesFrame(cat: Catalog, plan: Plan, env: Env, env': Env)
    requires Over(cat, plan, env) && Over(cat, plan, env') && forall t :: t in Tables(plan) ==> env[t] == env'[t]
    ensures Survives(cat, plan, env) <==> Survives(cat, plan, env')
  {
    hide CatalogOk;
    hide EnvOk;
    hide EvalCondition;
    TupleFrame(plan, env, env');
    if plan.ScanPlan? {
    } else {
      SurvivesFrame(cat, plan.left, env, env');
      SurvivesFrame(cat, plan.right, env, env');
    }
  }

  /** A row of the plan: one live record of each of its tables, passing every node. */
  ghost predicate IsRow(cat: Catalog, db: Database, plan: Plan, p: Pick) {
    PickOk(cat, db, plan, p) && Survives(cat, plan, Records(db, p))
  }

  ghost predicate InDb(cat: Catalog, db: Database, plan: Plan) {
    DbOk(cat, db) && Tables(plan) <= db.Keys && Tables(plan) <= cat.cols.Keys && Tables(plan) <= cat.len.Keys
  }

  lemma LiveOver(cat: Catalog, db: Database, plan: Plan, p: Pick)
    requires InDb(cat, db, plan) && Live(db, p) && Tables(plan) <= p.Keys
    ensures Over(cat, plan, Records(db, p))
  {
    hide CatalogOk;
  }

  lemma ScanRow(cat: Catalog, db: Database, orders: map<TableName, seq<Rid>>, plan: Plan, p: Pick)
    requires plan.ScanPlan? && InDb(cat, db, plan) && OrdersOk(db, orders)
    ensures p in Singles(plan.tab, orders[plan.tab]) && NodeKeeps(cat, db, plan, p) <==> IsRow(cat, db, plan, p)
  {
    hide NodeHolds;
    hide Over;
    if IsRow(cat, db, plan, p) {
      assert p == map[plan.tab := p[plan.tab]];
      var i :| 0 <= i < |orders[plan.tab]| && orders[plan.tab][i] == p[plan.tab];
      assert Singles(plan.tab, orders[plan.tab])[i] == p;
    }
  }

  lemma JoinRow(cat: Catalog, db: Database, plan: Plan, p: Pick)
    requires plan.JoinPlan? && InDb(cat, db, plan) && Tables(plan.left) !! Tables(plan.right) && p.Keys == Tables(plan)
    ensures IsRow(cat, db, plan, p) <==> (
      && NodeKeeps(cat, db, plan, p)
      && IsRow(cat, db, plan.left, Half(p, Tables(plan.left)))
        && IsRow(cat, db, plan.right, Half(p, Tables(plan.right))))
  {
    hide NodeHolds;
    hide Over;
    hide Live;
    HalfRow(cat, db, plan, plan.left, p);
    HalfRow(cat, db, plan, plan.right, p);
  }

  /** A part's row is the corresponding half of the pick. */
  lemma HalfRow(cat: Catalog, db: Database, plan: Plan, part: Plan, p: Pick)
    requires InDb(cat, db, plan) && Tables(part) <= Tables(plan) == p.Keys
    ensures PickOk(cat, db, plan, p) ==> (
      && PickOk(cat, db, part, Half(p, Tables(part))) && Over(cat, part, Records(db, p))
      && (Survives(cat, part, Records(db, p)) <==> IsRow(cat, db, part, Half(p, Tables(part)))))
  {
    hide Survives;
    hide Over;
    var h := Half(p, Tables(part));
    if PickOk(cat, db, plan, p) {
      assert Live(db, h);
      PartIn(cat, db, plan, part);
      LiveOver(cat, db, part, p);
      LiveOver(cat, db, part, h);
      SurvivesFrame(cat, part, Records(db, p), Records(db, h));
    }
  }

  lemma PartIn(cat: Catalog, db: Database, plan: Plan, part: Plan)
    requires InDb(cat, db, plan) && Tables(part) <= Tables(plan)
    ensures InDb(cat, db, part)
  {
  }

  /** The plan delivers every row exactly once. */
  lemma {:induction false} RowsExact(cat: Catalog, db: Database, orders: map<TableName, seq<Rid>>, plan: Plan)
    requires InDb(cat, db, plan) && OrdersOk(db, orders) && EachOnce(plan)
    ensures Once(Rows(cat, db, orders, plan))
    ensures forall p :: p in Rows(cat, db, orders, plan) <==> IsRow(cat, db, plan, p)
  {
    hide NodeKeeps;
    hide IsRow;
    hide DbOk;
    match plan
    case ScanPlan(tab, _) =>
      var ps := Singles(tab, orders[tab]);
      KeepElements(cat, db, plan, ps);
      forall p
        ensures p in ps && NodeKeeps(cat, db, plan, p) <==> IsRow(cat, db, plan, p)
      {
        ScanRow(cat, db, orders, plan, p);
      }
      SinglesOnce(tab, orders[tab]);
      KeepOnce(cat, db, plan, ps);
    case JoinPlan(l, r, _) =>
      RowsExact(cat, db, orders, l);
      RowsExact(cat, db, orders, r);
      var ls, rs := Rows(cat, db, orders, l), Rows(cat, db, orders, r);
      RowKeys(cat, db, l, ls);
      RowKeys(cat, db, r, rs);
      ProductOnce(ls, rs, Tables(l), Tables(r));
      KeepOnce(cat, db, plan, Product(ls, rs));
      KeepElements(cat, db, plan, Product(ls, rs));
      forall p ensures p in Product(ls, rs) && NodeKeeps(cat, db, plan, p) <==> IsRow(cat, db, plan, p) {
        ProductElements(ls, rs, Tables(l), Tables(r), p);
        RowHasKeys(cat, db, plan, p);
        if p.Keys == Tables(plan) { JoinRow(cat, db, plan, p); }
      }
  }

  lemma RowHasKeys(cat: Catalog, db: Database, plan: Plan, p: Pick)
    ensures NodeKeeps(cat, db, plan, p) || IsRow(cat, db, plan, p) ==> p.Keys == Tables(plan)
  {
    hide Survives;
    hide NodeHolds;
  }

  lemma RowKeys(cat: Catalog, db: Database, plan: Plan, ps: seq<Pick>)
    requires forall p :: p in ps <==> IsRow(cat, db, plan, p)
    ensures AllKeys(ps, Tables(plan))
  {
    hide Survives;
    forall i | 0 <= i < |ps| ensures ps[i].Keys == Tables(plan) { assert ps[i] in ps; }
  }

  lemma SinglesOnce(tab: TableName, rids: seq<Rid>)
    requires forall i, j :: 0 <= i < j < |rids| ==> rids[i] != rids[j]
    ensures Once(Singles(tab, rids))
  {
    var ps := Singles(tab, rids);
    forall i, j | 0 <= i < j < |ps| ensures ps[i] != ps[j] { assert ps[i][tab] != ps[j][tab]; }
  }

  /** End to end: a plan with make_one_rel's guarantees delivers, once each, exactly the combinations of one live record
      of each table that satisfy every WHERE condition. */
  lemma PlanAnswersQuery(cat: Catalog, db: Database, orders: map<TableName, seq<Rid>>, plan: Plan,
      tables: seq<TableName>, conds: seq<Condition>)
    requires InDb(cat, db, plan) && OrdersOk(db, orders)
    requires EachOnce(plan) && Tables(plan) == (set t | t in tables) && Covered(plan) && AllProper(cat, plan)
    requires forall k :: CountIn(plan, k) == Count(conds, k)
    requires OverTables(tables, conds) && forall c :: c in conds ==> Comparable(cat, c)
    ensures Once(Rows(cat, db, orders, plan))
    ensures forall p :: p in Rows(cat, db, orders, plan) <==> Answer(cat, db, tables, conds, p)
  {
    hide Survives;
    hide Covered;
    hide Rows;
    hide CountIn;
    hide Count;
    RowsExact(cat, db, orders, plan);
    forall p ensures IsRow(cat, db, plan, p) <==> Answer(cat, db, tables, conds, p) {
      RowIsAnswer(cat, db, plan, tables, conds, p);
    }
  }

  /** One live record of each table, satisfying every WHERE condition. */
  ghost predicate Answer(cat: Catalog, db: Database, tables: seq<TableName>, conds: seq<Condition>, p: Pick) {
    && p.Keys == (set t | t in tables) && Live(db, p) && CatalogOk(cat) && EnvOk(cat, Records(db, p))
    && (forall c :: c in conds ==> Comparable(cat, c) && Within(c, p.Keys))
    && (forall c :: c in conds ==> Holds(cat, Records(db, p), c))
  }

  lemma RowIsAnswer(cat: Catalog, db: Database, plan: Plan, tables: seq<TableName>, conds: seq<Condition>, p: Pick)
    requires InDb(cat, db, plan) && EachOnce(plan) && Tables(plan) == (set t | t in tables) && Covered(plan)
      && AllProper(cat, plan)
    requires forall k :: CountIn(plan, k) == Count(conds, k)
    requires OverTables(tables, conds) && forall c :: c in conds ==> Comparable(cat, c)
    ensures IsRow(cat, db, plan, p) <==> Answer(cat, db, tables, conds, p)
  {
    hide Survives;
    hide Covered;
    hide CountIn;
    hide Count;
    hide Holds;
    hide Comparable;
    hide CatalogOk;
    hide AllProper;
    if p.Keys == Tables(plan) && Live(db, p) {
      LiveOver(cat, db, plan, p);
      PlanPreservesMeaning(cat, plan, tables, conds, Records(db, p));
    }
  }

  // ------------------------------------------------------------------- misplaced conditions

  /** A condition over a column that the scanned table does not have holds on no record. */
  lemma MisplacedHoldsNowhere(cat: Catalog, db: Database, plan: Plan, i: nat, p: Pick)
    requires plan.ScanPlan? && i < |plan.conds| && !Within(plan.conds[i], {plan.tab})
    ensures !NodeKeeps(cat, db, plan, p)
  {
    hide EvalCondition;
    if PickOk(cat, db, plan, p) {
      var c, env := plan.conds[i], Records(db, p);
      ForeignOf(cat, plan, env, c);
      assert !NodeHolds(cat, plan, env, c);
    }
  }

  lemma ForeignOf(cat: Catalog, plan: Plan, env: Env, c: Condition)
    requires plan.ScanPlan? && Over(cat, plan, env) && !Within(c, {plan.tab})
    ensures !Resolves(Cols(cat, plan), c)
  {
    if c.lhs.tab != plan.tab { ForeignCol(cat, plan, env, c.lhs); } else { ForeignCol(cat, plan, env, c.rhs.rcol); }
  }

  /** A plan with a misplaced condition delivers nothing; the source raises ColumnNotFoundError at the first record. */
  lemma {:induction false} MisplacedDeliversNothing(cat: Catalog, db: Database, orders: map<TableName, seq<Rid>>,
      plan: Plan)
    requires Tables(plan) <= orders.Keys && JoinsAcross(plan) && !Covered(plan)
    ensures Rows(cat, db, orders, plan) == []
  {
    hide NodeKeeps;
    match plan
    case ScanPlan(tab, conds) =>
      var i :| 0 <= i < |conds| && !Within(conds[i], {tab});
      forall p ensures !NodeKeeps(cat, db, plan, p) { MisplacedHoldsNowhere(cat, db, plan, i, p); }
      KeepsNone(cat, db, plan, Singles(tab, orders[tab]));
    case JoinPlan(l, r, _) =>
      if !Covered(l) { MisplacedDeliversNothing(cat, db, orders, l); }
        else { MisplacedDeliversNothing(cat, db, orders, r); }
      ProductEmpty(Rows(cat, db, orders, l), Rows(cat, db, orders, r));
  }

  lemma {:induction false} KeepsNone(cat: Catalog, db: Database, plan: Plan, ps: seq<Pick>)
    requires forall p :: !NodeKeeps(cat, db, plan, p)
    ensures Keep(cat, db, plan, ps) == []
  {
    hide NodeKeeps;
    if ps == [] {
    } else {
      KeepsNone(cat, db, plan, ps[1..]);
    }
  }

  lemma {:induction false} ProductEmpty(ls: seq<Pick>, rs: seq<Pick>)
    requires ls == [] || rs == []
    ensures Product(ls, rs) == []
  {
    if rs == [] {
    } else {
      ProductEmpty(ls, rs[1..]);
    }
  }

  /** A plan with a misplaced condition answers the query if and only if there is no answer. A plan that compares no
      CHAR columns of unlike lengths the wrong way round answers the query if and only if every condition is at a node
      that covers its columns, or there is no answer. With MakeOneRel, conditions are misplaced if and only if some
      same-table comparison is on a table other than the first. */
  lemma PlanRightIff(cat: Catalog, db: Database, orders: map<TableName, seq<Rid>>, plan: Plan, tables: seq<TableName>,
      conds: seq<Condition>)
    requires InDb(cat, db, plan) && OrdersOk(db, orders)
    requires EachOnce(plan) && Tables(plan) == (set t | t in tables) && JoinsAcross(plan)
    requires forall k :: CountIn(plan, k) == Count(conds, k)
    requires OverTables(tables, conds) && forall c :: c in conds ==> Comparable(cat, c)
    ensures var right := forall p :: p in Rows(cat, db, orders, plan) <==> Answer(cat, db, tables, conds, p);
      && (!Covered(plan) ==> (right <==> forall p :: !Answer(cat, db, tables, conds, p)))
      && (AllProper(cat, plan) ==> (right <==> Covered(plan) || forall p :: !Answer(cat, db, tables, conds, p)))
  {
    hide Covered;
    hide Rows;
    hide Answer;
    hide CountIn;
    hide Count;
    hide AllProper;
    if !Covered(plan) {
      MisplacedDeliversNothing(cat, db, orders, plan);
    } else if AllProper(cat, plan) {
      PlanAnswersQuery(cat, db, orders, plan, tables, conds);
    }
  }
}
