/** The planner (src/optimizer/planner.cpp): a WHERE clause over several tables becomes a join tree. */
module Planner {
  import opened Types
  import opened Compare

  datatype Plan =
    | ScanPlan(tab: TableName, conds: seq<Condition>)
    | JoinPlan(left: Plan, right: Plan, conds: seq<Condition>)

  // --------------------------------------------------------------- conditions and operand swaps

  function SwapOp(op: CompOp): CompOp {
    match op
    case OpLt => OpGt
    case OpGt => OpLt
    case OpLe => OpGe
    case OpGe => OpLe
    case _ => op
  }

  /** The operand swap. */
  function Flip(c: Condition): Condition
    requires c.rhs.RhsCol?
  {
    Condition(c.rhs.rcol, SwapOp(c.op), RhsCol(c.lhs))
  }

  /** The same condition up to operand swap. */
  predicate Same(c: Condition, k: Condition) {
    c == k || (c.rhs.RhsCol? && Flip(c) == k)
  }

  lemma SameFlip(c: Condition, k: Condition)
    requires c.rhs.RhsCol?
    ensures Flip(c).rhs.RhsCol? && Flip(Flip(c)) == c && (Same(Flip(c), k) <==> Same(c, k))
    ensures Flip(c).lhs == c.rhs.rcol && Flip(c).rhs.rcol == c.lhs
  {
  }

  /** How often k occurs, up to operand swap. */
  function Count(conds: seq<Condition>, k: Condition): nat {
    if conds == [] then 0 else (if Same(conds[0], k) then 1 else 0) + Count(conds[1..], k)
  }

  lemma {:induction false} CountAppend(a: seq<Condition>, b: seq<Condition>, k: Condition)
    ensures Count(a + b, k) == Count(a, k) + Count(b, k)
  {
    hide Same;
    if a == [] { assert a + b == b; } else {
      CountAppend(a[1..], b, k);
      assert (a + b)[0] == a[0] && (a + b)[1..] == a[1..] + b;
    }
  }

  lemma CountOne(c: Condition, k: Condition)
    ensures Count([c], k) == if Same(c, k) then 1 else 0
  {
    assert [c][1..] == [];
  }

  /** k occurs exactly when some condition is the same. */
  lemma {:induction false} CountPositive(conds: seq<Condition>, k: Condition)
    ensures Count(conds, k) > 0 <==> exists i :: 0 <= i < |conds| && Same(conds[i], k)
  {
    hide Same;
    if conds == [] {
    } else {
      CountPositive(conds[1..], k);
      assert forall i :: 0 <= i < |conds| - 1 ==> conds[1..][i] == conds[i + 1];
      if exists i :: 0 <= i < |conds| && Same(conds[i], k) {
        var i :| 0 <= i < |conds| && Same(conds[i], k);
        if i > 0 { assert conds[1..][i - 1] == conds[i]; }
      }
    }
  }

  /** The right-hand table name; the parser leaves it empty when the right-hand side is a value. */
  function RhsTab(c: Condition): TableName {
    if c.rhs.RhsCol? then c.rhs.rcol.tab else []
  }

  /** A column comparison inside one table. */
  predicate SameTable(c: Condition) { c.rhs.RhsCol? && c.lhs.tab == c.rhs.rcol.tab }

  // -------------------------------------------------------------------------------- pop_conds

  predicate Solves(c: Condition, tab: TableName) {
    (tab == c.lhs.tab && c.rhs.RhsVal?) || c.lhs.tab == RhsTab(c)
  }

  function Solved(conds: seq<Condition>, tab: TableName): seq<Condition> {
    if conds == [] then []
    else (if Solves(conds[0], tab) then [conds[0]] else []) + Solved(conds[1..], tab)
  }

  function Unsolved(conds: seq<Condition>, tab: TableName): seq<Condition> {
    if conds == [] then []
    else (if Solves(conds[0], tab) then [] else [conds[0]]) + Unsolved(conds[1..], tab)
  }

  lemma {:induction false} PoppedElements(conds: seq<Condition>, tab: TableName)
    ensures forall c :: c in Solved(conds, tab) <==> c in conds && Solves(c, tab)
    ensures forall c :: c in Unsolved(conds, tab) <==> c in conds && !Solves(c, tab)
  {
    hide Solves;
    if conds == [] {
    } else {
      PoppedElements(conds[1..], tab);
      assert conds == [conds[0]] + conds[1..];
    }
  }

  /** Popping moves conditions; it loses and repeats none. */
  lemma {:induction false} PoppedCount(conds: seq<Condition>, tab: TableName, k: Condition)
    ensures Count(Solved(conds, tab), k) + Count(Unsolved(conds, tab), k) == Count(conds, k)
  {
    hide Solves;
    hide Same;
    if conds == [] {
    } else {
      var c, rest := conds[0], conds[1..];
      PoppedCount(rest, tab, k);
      CountAppend([c], Solved(rest, tab), k);
      CountAppend([c], Unsolved(rest, tab), k);
      CountOne(c, k);
      assert [] + Solved(rest, tab) == Solved(rest, tab) && [] + Unsolved(rest, tab) == Unsolved(rest, tab);
    }
  }

  /** pop_conds: the loop erases the conditions that it takes. */
  method PopConds(conds: seq<Condition>, tab: TableName) returns (solved: seq<Condition>, rest: seq<Condition>)
    ensures solved == Solved(conds, tab) && rest == Unsolved(conds, tab)
  {
    hide Solves;
    solved, rest := [], conds;
    var it := 0;
    while it < |rest|
      invariant 0 <= it <= |rest|
      invariant solved + Solved(rest[it..], tab) == Solved(conds, tab)
      invariant rest[..it] + Unsolved(rest[it..], tab) == Unsolved(conds, tab)
      decreases |rest| - it
    {
      ghost var c, tail := rest[it], rest[it + 1..];
      assert rest[it..][0] == c && rest[it..][1..] == tail;
      if Solves(rest[it], tab) {
        solved := solved + [rest[it]];
        assert (rest[..it] + rest[it + 1..])[it..] == tail && (rest[..it] + rest[it + 1..])[..it] == rest[..it];
        Assoc(solved[..|solved| - 1], c, Solved(tail, tab));
        rest := rest[..it] + rest[it + 1..];
        assert [] + Unsolved(tail, tab) == Unsolved(tail, tab);
      } else {
        Assoc(rest[..it], c, Unsolved(tail, tab));
        assert rest[..it] + [c] == rest[..it + 1];
        assert [] + Solved(tail, tab) == Solved(tail, tab);
        it := it + 1;
      }
    }
    assert rest[it..] == [] && rest[..it] == rest;
  }

  lemma Assoc(a: seq<Condition>, c: Condition, b: seq<Condition>)
    ensures a + ([c] + b) == (a + [c]) + b
  {
  }

  // ------------------------------------------------------------------------- trees

  function Tables(plan: Plan): set<TableName> {
    match plan
    case ScanPlan(tab, _) => {tab}
    case JoinPlan(l, r, _) => Tables(l) + Tables(r)
  }

  /** How often k occurs in the tree, up to operand swap. */
  function CountIn(plan: Plan, k: Condition): nat {
    match plan
    case ScanPlan(_, conds) => Count(conds, k)
    case JoinPlan(l, r, conds) => CountIn(l, k) + CountIn(r, k) + Count(conds, k)
  }

  /** A join node's conditions compare a column of its left part with one of its right part. */
  ghost predicate Across(l: Plan, r: Plan, conds: seq<Condition>) {
    forall i :: 0 <= i < |conds| ==>
      conds[i].rhs.RhsCol? && conds[i].lhs.tab in Tables(l) && conds[i].rhs.rcol.tab in Tables(r)
  }

  /** A tree over the given scans: no table twice, and every join condition at a node that covers its columns. */
  ghost predicate TreeOk(plan: Plan, plans: seq<Plan>) {
    match plan
    case ScanPlan(_, _) => plan in plans
    case JoinPlan(l, r, conds) => TreeOk(l, plans) && TreeOk(r, plans) && Tables(l) !! Tables(r) && Across(l, r, conds)
  }

  /** Every condition is at a node that covers its columns. */
  ghost predicate Covered(plan: Plan) {
    match plan
    case ScanPlan(tab, conds) =>
      forall i :: 0 <= i < |conds| ==>
        conds[i].lhs.tab == tab && (conds[i].rhs.RhsCol? ==> conds[i].rhs.rcol.tab == tab)
    case JoinPlan(l, r, conds) => Covered(l) && Covered(r) && Across(l, r, conds)
  }

  /** Every join condition compares a column of the node's left part with one of its right part. */
  ghost predicate JoinsAcross(plan: Plan) {
    plan.JoinPlan? ==> JoinsAcross(plan.left) && JoinsAcross(plan.right) && Across(plan.left, plan.right, plan.conds)
  }

  /** No table occurs twice. */
  ghost predicate EachOnce(plan: Plan) {
    plan.JoinPlan? ==> EachOnce(plan.left) && EachOnce(plan.right) && Tables(plan.left) !! Tables(plan.right)
  }

  // ----------------------------------------------------------------------------- push_conds

  /** push_conds: 3 when the condition was attached below, otherwise which of its sides occur (1 left, 2 right). */
  function PushConds(c: Condition, plan: Plan): (r: (int, Plan))
    requires c.rhs.RhsCol?
  {
    match plan
    case ScanPlan(tab, _) => (if tab == c.lhs.tab then 1 else if tab == c.rhs.rcol.tab then 2 else 0, plan)
    case JoinPlan(left, right, conds) =>
      var (leftRes, l) := PushConds(c, left);
      if leftRes == 3 then (3, JoinPlan(l, right, conds))
      else
        var (rightRes, r) := PushConds(c, right);
        if rightRes == 3 then (3, JoinPlan(left, r, conds))
        else if leftRes == 0 || rightRes == 0 then (leftRes + rightRes, plan)
        else (3, JoinPlan(left, right, conds + [if leftRes == 2 then Flip(c) else c]))
  }

  ghost function SideCode(c: Condition, tabs: set<TableName>): int
    requires c.rhs.RhsCol?
  {
    if c.lhs.tab in tabs then if c.rhs.rcol.tab in tabs then 3 else 1
    else if c.rhs.rcol.tab in tabs then 2 else 0
  }

  /** In a tree with no table twice the condition is attached exactly when both its tables occur, at a node that has
      one of them on each side; otherwise the tree is unchanged and the code says which side occurs. */
  lemma {:induction false} PushCondsEffect(c: Condition, plan: Plan, plans: seq<Plan>)
    requires c.rhs.RhsCol? && c.lhs.tab != c.rhs.rcol.tab && TreeOk(plan, plans)
    ensures var (res, p) := PushConds(c, plan);
      res == SideCode(c, Tables(plan)) && TreeOk(p, plans) && Tables(p) == Tables(plan) && (res != 3 ==> p == plan)
  {
    hide Flip;
    if plan.ScanPlan? {
    } else {
      PushCondsEffect(c, plan.left, plans);
      PushCondsEffect(c, plan.right, plans);
      SameFlip(c, c);
    }
  }

  /** It is attached once. */
  lemma {:induction false} PushCondsCount(c: Condition, plan: Plan, k: Condition)
    requires c.rhs.RhsCol?
    ensures var (res, p) := PushConds(c, plan);
      CountIn(p, k) == CountIn(plan, k) + if res == 3 && Same(c, k) then 1 else 0
  {
    hide Flip;
    hide Same;
    if plan.JoinPlan? {
      PushCondsCount(c, plan.left, k);
      PushCondsCount(c, plan.right, k);
      var at := if PushConds(c, plan.left).0 == 2 then Flip(c) else c;
      SameFlip(c, k);
      CountAppend(plan.conds, [at], k);
      CountOne(at, k);
    }
  }

  // ------------------------------------------------------------------------- scans and marks

  /** Table names of a query: not empty, and all different. */
  ghost predicate Names(tables: seq<TableName>) {
    && (forall i :: 0 <= i < |tables| ==> tables[i] != [])
    && (forall i, j :: 0 <= i < j < |tables| ==> tables[i] != tables[j])
  }

  /** How often k occurs in the scans that are not yet in the tree (scantbl entry -1). */
  ghost function Waiting(plans: seq<Plan>, marks: seq<int>, k: Condition): nat
    requires |plans| == |marks|
  {
    if plans == [] then 0
    else
      var n := |plans| - 1;
      Waiting(plans[..n], marks[..n], k) + if marks[n] == -1 then CountIn(plans[n], k) else 0
  }

  lemma {:induction false} MarkOne(plans: seq<Plan>, marks: seq<int>, i: nat, k: Condition)
    requires |plans| == |marks| && i < |plans| && marks[i] == -1
    ensures Waiting(plans, marks, k) == Waiting(plans, marks[i := 1], k) + CountIn(plans[i], k)
  {
    hide CountIn;
    var n := |plans| - 1;
    if i < n {
      MarkOne(plans[..n], marks[..n], i, k);
      assert marks[i := 1][..n] == marks[..n][i := 1];
    } else {
      assert marks[i := 1][..n] == marks[..n];
    }
  }

  /** The loop invariant of make_one_rel: the tree holds exactly the marked scans, and joined_tables their names. */
  ghost predicate JoinedOk(tree: Plan, plans: seq<Plan>, marks: seq<int>, joined: seq<TableName>)
    requires forall i :: 0 <= i < |plans| ==> plans[i].ScanPlan?
  {
    && TreeOk(tree, plans) && |marks| == |plans|
    && (forall i :: 0 <= i < |plans| ==>
      (marks[i] == -1 || marks[i] == 1) && (marks[i] == 1 <==> plans[i].tab in Tables(tree)))
    && (forall t :: t != [] ==> (t in joined <==> t in Tables(tree)))
  }

  /** pop_scan: find the scan of the table, mark it and record its name. */
  method PopScan(scantbl: array<int>, table: TableName, joined: seq<TableName>, plans: seq<Plan>)
    returns (plan: Option<Plan>, joined': seq<TableName>, ghost at: nat)
    requires scantbl.Length == |plans| && forall i :: 0 <= i < |plans| ==> plans[i].ScanPlan?
    modifies scantbl
    ensures plan.Some? <==> exists i :: 0 <= i < |plans| && plans[i].tab == table
    ensures plan.None? ==> joined' == joined && scantbl[..] == old(scantbl[..])
    ensures plan.Some? ==> at < |plans| && plan.value == plans[at] && plans[at].tab == table
    ensures plan.Some? ==> joined' == joined + [table] && scantbl[..] == old(scantbl[..])[at := 1]
  {
    at := 0;
    for i := 0 to |plans|
      invariant scantbl[..] == old(scantbl[..])
      invariant forall j :: 0 <= j < i ==> plans[j].tab != table
    {
      if plans[i].tab == table {
        scantbl[i] := 1;
        at := i;
        return Some(plans[i]), joined + [plans[i].tab], at;
      }
    }
    return None, joined, at;
  }

  // ------------------------------------------------------------------------ growing the tree

  /** A remaining WHERE condition: it compares columns of two different tables of the query. */
  ghost predicate JoinCond(c: Condition, plans: seq<Plan>) {
    && c.rhs.RhsCol? && c.lhs.tab != c.rhs.rcol.tab && c.lhs.tab != [] && c.rhs.rcol.tab != []
    && (exists i :: 0 <= i < |plans| && plans[i].ScanPlan? && plans[i].tab == c.lhs.tab)
    && (exists i :: 0 <= i < |plans| && plans[i].ScanPlan? && plans[i].tab == c.rhs.rcol.tab)
  }

  ghost predicate Scans(plans: seq<Plan>) {
    && (forall i :: 0 <= i < |plans| ==> plans[i].ScanPlan? && plans[i].tab != [])
    && (forall i, j :: 0 <= i < j < |plans| && plans[i].ScanPlan? && plans[j].ScanPlan? ==>
      plans[i].tab != plans[j].tab)
  }

  lemma MarkTwo(plans: seq<Plan>, marks: seq<int>, i: nat, j: nat, c: Condition, k: Condition)
    requires |plans| == |marks| && i < |plans| && j < |plans| && i != j && marks[i] == -1 && marks[j] == -1
    ensures CountIn(JoinPlan(plans[i], plans[j], [c]), k) + Waiting(plans, marks[i := 1][j := 1], k)
            == Waiting(plans, marks, k) + if Same(c, k) then 1 else 0
  {
    hide Same;
    MarkOne(plans, marks, i, k);
    MarkOne(plans, marks[i := 1], j, k);
    CountOne(c, k);
  }

  lemma NamesAdded(joined: seq<TableName>, a: TableName, b: TableName)
    ensures forall t :: t in joined + [a] <==> t in joined || t == a
    ensures forall t :: t in joined + [a] + [b] <==> t in joined || t == a || t == b
  {
  }

  lemma StartTree(plans: seq<Plan>, i: nat, j: nat, c: Condition, marks: seq<int>, joined: seq<TableName>)
    requires Scans(plans) && i < |plans| && j < |plans| && i != j && |marks| == |plans|
    requires forall m :: 0 <= m < |marks| ==> marks[m] == -1
    requires forall t :: t in joined ==> t == []
    requires c.rhs.RhsCol? && c.lhs.tab == plans[i].tab && c.rhs.rcol.tab == plans[j].tab
    ensures JoinedOk(JoinPlan(plans[i], plans[j], [c]), plans, marks[i := 1][j := 1], joined + [plans[i].tab]
      + [plans[j].tab])
    ensures forall k :: CountIn(JoinPlan(plans[i], plans[j], [c]), k) + Waiting(plans, marks[i := 1][j := 1], k)
              == Waiting(plans, marks, k) + if Same(c, k) then 1 else 0
  {
    hide Same;
    hide CountIn;
    hide Waiting;
    NamesAdded(joined, plans[i].tab, plans[j].tab);
    PairTree(plans, i, j, c);
    forall k ensures CountIn(JoinPlan(plans[i], plans[j], [c]), k) + Waiting(plans, marks[i := 1][j := 1], k)
              == Waiting(plans, marks, k) + if Same(c, k) then 1 else 0
    {
      MarkTwo(plans, marks, i, j, c, k);
    }
  }

  lemma PairTree(plans: seq<Plan>, i: nat, j: nat, c: Condition)
    requires Scans(plans) && i < |plans| && j < |plans| && i != j
    requires c.rhs.RhsCol? && c.lhs.tab == plans[i].tab && c.rhs.rcol.tab == plans[j].tab
    ensures var pair := JoinPlan(plans[i], plans[j], [c]);
      TreeOk(pair, plans) && Tables(pair) == {plans[i].tab, plans[j].tab}
  {
  }

  /** Putting one more scan to the left of the tree. */
  lemma AddScan(tree: Plan, plans: seq<Plan>, marks: seq<int>, joined: seq<TableName>, i: nat, conds: seq<Condition>)
    requires Scans(plans) && JoinedOk(tree, plans, marks, joined) && i < |plans| && marks[i] == -1
    requires Across(plans[i], tree, conds)
    ensures JoinedOk(JoinPlan(plans[i], tree, conds), plans, marks[i := 1], joined + [plans[i].tab])
    ensures forall k :: CountIn(JoinPlan(plans[i], tree, conds), k) + Waiting(plans, marks[i := 1], k)
              == CountIn(tree, k) + Waiting(plans, marks, k) + Count(conds, k)
  {
    hide Count;
    hide Waiting;
    NamesAdded(joined, plans[i].tab, []);
    assert TreeOk(plans[i], plans) && Tables(plans[i]) == {plans[i].tab};
    assert TreeOk(JoinPlan(plans[i], tree, conds), plans)
      && Tables(JoinPlan(plans[i], tree, conds)) == {plans[i].tab} + Tables(tree);
    forall k ensures CountIn(JoinPlan(plans[i], tree, conds), k) + Waiting(plans, marks[i := 1], k)
              == CountIn(tree, k) + Waiting(plans, marks, k) + Count(conds, k)
    {
      MarkOne(plans, marks, i, k);
    }
  }

  /** Putting a join of two more scans to the left of the tree. */
  lemma AddPair(tree: Plan, plans: seq<Plan>, marks: seq<int>, joined: seq<TableName>, i: nat, j: nat, c: Condition)
    requires Scans(plans) && JoinedOk(tree, plans, marks, joined) && i < |plans| && j < |plans| && i != j
    requires marks[i] == -1 && marks[j] == -1
    requires c.rhs.RhsCol? && c.lhs.tab == plans[i].tab && c.rhs.rcol.tab == plans[j].tab
    ensures var tree' := JoinPlan(JoinPlan(plans[i], plans[j], [c]), tree, []);
      && JoinedOk(tree', plans, marks[i := 1][j := 1], joined + [plans[i].tab] + [plans[j].tab])
      && forall k :: CountIn(tree', k) + Waiting(plans, marks[i := 1][j := 1], k)
           == CountIn(tree, k) + Waiting(plans, marks, k) + if Same(c, k) then 1 else 0
  {
    hide Same;
    hide Waiting;
    hide Count;
    NamesAdded(joined, plans[i].tab, plans[j].tab);
    PairTree(plans, i, j, c);
    CountNone();
    var tree' := JoinPlan(JoinPlan(plans[i], plans[j], [c]), tree, []);
    forall k ensures CountIn(tree', k) + Waiting(plans, marks[i := 1][j := 1], k)
           == CountIn(tree, k) + Waiting(plans, marks, k) + if Same(c, k) then 1 else 0
    {
      MarkTwo(plans, marks, i, j, c, k);
      assert CountIn(tree', k) == CountIn(JoinPlan(plans[i], plans[j], [c]), k) + CountIn(tree, k) + Count([], k);
    }
  }

  /** Pushing a condition whose tables are both in the tree. */
  lemma PushInto(tree: Plan, plans: seq<Plan>, marks: seq<int>, joined: seq<TableName>, c: Condition)
    requires Scans(plans) && JoinedOk(tree, plans, marks, joined) && JoinCond(c, plans)
    requires c.lhs.tab in Tables(tree) && c.rhs.rcol.tab in Tables(tree)
    ensures JoinedOk(PushConds(c, tree).1, plans, marks, joined)
    ensures forall k :: CountIn(PushConds(c, tree).1, k) == CountIn(tree, k) + if Same(c, k) then 1 else 0
  {
    hide Same;
    hide CountIn;
    PushCondsEffect(c, tree, plans);
    forall k { PushCondsCount(c, tree, k); }
  }

  /** One iteration of the loop over the conditions after the first. */
  method JoinOne(scantbl: array<int>, plans: seq<Plan>, joined: seq<TableName>, tree: Plan, c: Condition)
    returns (tree': Plan, joined': seq<TableName>)
    requires Scans(plans) && JoinedOk(tree, plans, scantbl[..], joined) && JoinCond(c, plans)
    modifies scantbl
    ensures JoinedOk(tree', plans, scantbl[..], joined')
    ensures forall k :: CountIn(tree', k) + Waiting(plans, scantbl[..], k)
              == CountIn(tree, k) + Waiting(plans, old(scantbl[..]), k) + if Same(c, k) then 1 else 0
  {
    hide Same;
    hide CountIn;
    hide Waiting;
    hide TreeOk;
    hide Count;
    ghost var marks := scantbl[..];
    var left, right, cond := None, None, c;
    ghost var i, j := 0, 0;
    joined' := joined;
    if c.lhs.tab !in joined' { left, joined', i := PopScan(scantbl, c.lhs.tab, joined', plans); }
    var reverse := false;
    if c.rhs.rcol.tab !in joined' {
      right, joined', j := PopScan(scantbl, c.rhs.rcol.tab, joined', plans);
      reverse := true;
    }
    if left.Some? && right.Some? {
      AddPair(tree, plans, marks, joined, i, j, c);
      return JoinPlan(JoinPlan(left.value, right.value, [c]), tree, []), joined';
    } else if left.Some? || right.Some? {
      if reverse {
        SameFlip(c, c);
        cond := Flip(c);
        left := right;
      }
      OneScan(tree, plans, marks, joined, if reverse then j else i, c, cond);
      return JoinPlan(left.value, tree, [cond]), joined';
    } else {
      PushInto(tree, plans, marks, joined, c);
      return PushConds(c, tree).1, joined';
    }
  }

  lemma OneScan(tree: Plan, plans: seq<Plan>, marks: seq<int>, joined: seq<TableName>, i: nat, c: Condition,
      cond: Condition)
    requires Scans(plans) && JoinedOk(tree, plans, marks, joined) && i < |plans| && marks[i] == -1
    requires c.rhs.RhsCol? && (cond == c || cond == Flip(c))
    requires cond.lhs.tab == plans[i].tab && cond.rhs.rcol.tab in Tables(tree)
    ensures JoinedOk(JoinPlan(plans[i], tree, [cond]), plans, marks[i := 1], joined + [plans[i].tab])
    ensures forall k :: CountIn(JoinPlan(plans[i], tree, [cond]), k) + Waiting(plans, marks[i := 1], k)
              == CountIn(tree, k) + Waiting(plans, marks, k) + if Same(c, k) then 1 else 0
  {
    hide Same;
    hide JoinedOk;
    hide CountIn;
    hide Waiting;
    AddScan(tree, plans, marks, joined, i, [cond]);
    forall k ensures Count([cond], k) == if Same(c, k) then 1 else 0 { CountOne(cond, k); SameFlip(c, k); }
  }

  // ------------------------------------------------------------------------------ make_one_rel

  function Unmarked(n: nat): (s: seq<int>)
    ensures |s| == n && forall i :: 0 <= i < n ==> s[i] == -1
  {
    seq(n, _ => -1)
  }

  /** What the scans hold: a table's value conditions, and with the first table also every same-table comparison. */
  ghost predicate ScansHold(plans: seq<Plan>, tables: seq<TableName>, conds: seq<Condition>) {
    && |plans| <= |tables|
    && (forall i :: 0 <= i < |plans| ==> plans[i].ScanPlan? && plans[i].tab == tables[i])
    && (forall i, c :: 1 <= i < |plans| && c in plans[i].conds ==> c.rhs.RhsVal? && c.lhs.tab == tables[i])
    && (|plans| > 0 ==> forall c :: c in plans[0].conds <==> c in conds && Solves(c, tables[0]))
  }

  /** After i tables: the conditions not yet taken. */
  ghost predicate RestIs(rest: seq<Condition>, tables: seq<TableName>, conds: seq<Condition>, i: nat)
    requires i <= |tables|
  {
    forall c :: c in rest <==> c in conds && forall j :: 0 <= j < i ==> !Solves(c, tables[j])
  }

  lemma {:induction false} WaitingSnoc(plans: seq<Plan>, p: Plan, k: Condition)
    ensures Waiting(plans + [p], Unmarked(|plans| + 1), k) == Waiting(plans, Unmarked(|plans|), k) + CountIn(p, k)
  {
    var n := |plans|;
    assert (plans + [p])[..n] == plans && Unmarked(n + 1)[..n] == Unmarked(n);
  }

  lemma ScanOne(plans: seq<Plan>, tables: seq<TableName>, conds: seq<Condition>, rest: seq<Condition>)
    requires Names(tables) && |plans| < |tables| && ScansHold(plans, tables, conds)
      && RestIs(rest, tables, conds, |plans|)
    requires forall c :: c in conds ==> c.lhs.tab != []
    ensures var i := |plans|; var p := ScanPlan(tables[i], Solved(rest, tables[i]));
      && ScansHold(plans + [p], tables, conds) && RestIs(Unsolved(rest, tables[i]), tables, conds, i + 1)
      && forall k :: CountIn(p, k) + Count(Unsolved(rest, tables[i]), k) == Count(rest, k)
  {
    hide Count;
    hide Solved;
    hide Unsolved;
    var i := |plans|;
    PoppedElements(rest, tables[i]);
    forall k { PoppedCount(rest, tables[i], k); }
    if i > 0 {
      assert forall c :: c in rest ==> !Solves(c, tables[0]);
    }
  }

  /** The loop that makes one scan per table. */
  method MakeScans(tables: seq<TableName>, conds: seq<Condition>) returns (plans: seq<Plan>, rest: seq<Condition>)
    requires Names(tables) && forall c :: c in conds ==> c.lhs.tab != []
    ensures |plans| == |tables| && ScansHold(plans, tables, conds) && RestIs(rest, tables, conds, |tables|)
    ensures forall k :: Waiting(plans, Unmarked(|plans|), k) + Count(rest, k) == Count(conds, k)
  {
    hide Count;
    hide Waiting;
    hide Names;
    hide ScansHold;
    hide RestIs;
    hide CountIn;
    plans, rest := [], conds;
    NoScans(tables, conds);
    for i := 0 to |tables|
      invariant |plans| == i && ScansHold(plans, tables, conds) && RestIs(rest, tables, conds, i)
      invariant forall k :: Waiting(plans, Unmarked(|plans|), k) + Count(rest, k) == Count(conds, k)
    {
      ScanOne(plans, tables, conds, rest);
      var curr, rest' := PopConds(rest, tables[i]);
      forall k { WaitingSnoc(plans, ScanPlan(tables[i], curr), k); }
      plans, rest := plans + [ScanPlan(tables[i], curr)], rest';
    }
  }

  lemma NoScans(tables: seq<TableName>, conds: seq<Condition>)
    ensures ScansHold([], tables, conds) && RestIs(conds, tables, conds, 0)
    ensures forall k :: Waiting([], Unmarked(0), k) == 0
  {
  }

  lemma ScansAre(plans: seq<Plan>, tables: seq<TableName>, conds: seq<Condition>)
    requires Names(tables) && ScansHold(plans, tables, conds) && |plans| == |tables|
    ensures Scans(plans)
  {
  }

  /** What is left after the scans are join conditions. */
  lemma RestJoins(plans: seq<Plan>, tables: seq<TableName>, conds: seq<Condition>, rest: seq<Condition>, c: Condition)
    requires Names(tables) && ScansHold(plans, tables, conds) && |plans| == |tables| && |tables| > 0
    requires RestIs(rest, tables, conds, |tables|) && OverTables(tables, conds) && c in rest
    ensures JoinCond(c, plans)
  {
    assert !Solves(c, tables[0]);
    assert c in conds;
    var i :| 0 <= i < |tables| && tables[i] == c.lhs.tab;
    assert !Solves(c, tables[i]) && plans[i].tab == tables[i];
    var j :| 0 <= j < |tables| && tables[j] == c.rhs.rcol.tab;
    assert plans[j].tab == tables[j];
  }

  /** The analyzer resolved every column to a table of the query. */
  ghost predicate OverTables(tables: seq<TableName>, conds: seq<Condition>) {
    forall c :: c in conds ==> c.lhs.tab in tables && (c.rhs.RhsCol? ==> c.rhs.rcol.tab in tables)
  }

  lemma StartAlone(plans: seq<Plan>)
    requires Scans(plans) && |plans| > 0
    ensures JoinedOk(plans[0], plans, Unmarked(|plans|)[0 := 1], [plans[0].tab])
    ensures forall k ::
      CountIn(plans[0], k) + Waiting(plans, Unmarked(|plans|)[0 := 1], k) == Waiting(plans, Unmarked(|plans|), k)
  {
    hide CountIn;
    forall k { MarkOne(plans, Unmarked(|plans|), 0, k); }
  }

  lemma CountStep(conds: seq<Condition>)
    requires conds != []
    ensures forall k :: Count(conds, k) == Count(conds[1..], k) + if Same(conds[0], k) then 1 else 0
  {
  }

  lemma CountNone()
    ensures forall k :: Count([], k) == 0
  {
  }

  /** The loops that build the join tree from the conditions. */
  method JoinAll(scantbl: array<int>, plans: seq<Plan>, conds: seq<Condition>)
      returns (tree: Plan, ghost names: seq<TableName>)
    requires Scans(plans) && |plans| > 0 && scantbl.Length == |plans| && scantbl[..] == Unmarked(|plans|)
    requires forall c :: c in conds ==> JoinCond(c, plans)
    modifies scantbl
    ensures JoinedOk(tree, plans, scantbl[..], names)
    ensures forall k ::
      CountIn(tree, k) + Waiting(plans, scantbl[..], k) == Waiting(plans, Unmarked(|plans|), k) + Count(conds, k)
  {
    hide Waiting;
    hide CountIn;
    hide Count;
    hide Same;
    hide JoinedOk;
    hide JoinCond;
    CountNone();
    if |conds| >= 1 {
      var joined: seq<TableName>;
      tree, joined := JoinFirst(scantbl, plans, conds[0]);
      var rest := conds[1..];
      CountStep(conds);
      while |rest| > 0
        invariant JoinedOk(tree, plans, scantbl[..], joined) && forall c :: c in rest ==> c in conds
        invariant forall k :: CountIn(tree, k) + Waiting(plans, scantbl[..], k) + Count(rest, k)
                    == Waiting(plans, Unmarked(|plans|), k) + Count(conds, k)
        decreases |rest|
      {
        assert rest[0] in rest;
        CountStep(rest);
        tree, joined := JoinOne(scantbl, plans, joined, tree, rest[0]);
        rest := rest[1..];
      }
      names := joined;
    } else {
      StartAlone(plans);
      tree := plans[0];
      scantbl[0] := 1;
      names := [plans[0].tab];
    }
  }

  /** The first condition makes the first join. */
  method JoinFirst(scantbl: array<int>, plans: seq<Plan>, c: Condition) returns (tree: Plan, joined: seq<TableName>)
    requires Scans(plans) && scantbl.Length == |plans| && scantbl[..] == Unmarked(|plans|) && JoinCond(c, plans)
    modifies scantbl
    ensures JoinedOk(tree, plans, scantbl[..], joined)
    ensures forall k :: CountIn(tree, k) + Waiting(plans, scantbl[..], k)
              == Waiting(plans, Unmarked(|plans|), k) + if Same(c, k) then 1 else 0
  {
    hide Waiting;
    hide CountIn;
    hide Same;
    hide JoinedOk;
    ghost var i, j;
    var left, right;
    joined := seq(|plans|, _ => []);
    ghost var empties := joined;
    left, joined, i := PopScan(scantbl, c.lhs.tab, joined, plans);
    right, joined, j := PopScan(scantbl, c.rhs.rcol.tab, joined, plans);
    StartTree(plans, i, j, c, Unmarked(|plans|), empties);
    return JoinPlan(left.value, right.value, [c]), joined;
  }

  /** The marks when the scans before i have all been joined. */
  ghost function MarkedTo(marks: seq<int>, i: nat): (s: seq<int>)
    requires i <= |marks|
    ensures |s| == |marks| && forall j :: 0 <= j < |s| ==> s[j] == if j < i then 1 else marks[j]
  {
    seq(|marks|, j requires 0 <= j < |marks| => if j < i then 1 else marks[j])
  }

  lemma {:induction false} NothingWaits(plans: seq<Plan>, marks: seq<int>, k: Condition)
    requires |plans| == |marks| && forall i :: 0 <= i < |marks| ==> marks[i] == 1
    ensures Waiting(plans, marks, k) == 0
  {
    if plans == [] {
    } else {
      NothingWaits(plans[..|plans| - 1], marks[..|marks| - 1], k);
    }
  }

  /** One iteration of the loop that joins the tables no condition mentioned. */
  lemma JoinLeftover(tree: Plan, plans: seq<Plan>, marks: seq<int>, names: seq<TableName>, i: nat)
    requires Scans(plans) && |marks| == |plans| && i < |plans| && JoinedOk(tree, plans, MarkedTo(marks, i), names)
    requires marks[i] == 1 || marks[i] == -1
    ensures marks[i] == -1 ==> (
      && JoinedOk(JoinPlan(plans[i], tree, []), plans, MarkedTo(marks, i + 1), names + [plans[i].tab])
      && forall k :: CountIn(JoinPlan(plans[i], tree, []), k) + Waiting(plans, MarkedTo(marks, i + 1), k)
           == CountIn(tree, k) + Waiting(plans, MarkedTo(marks, i), k))
    ensures marks[i] == 1 ==> MarkedTo(marks, i + 1) == MarkedTo(marks, i)
  {
    hide JoinedOk;
    hide CountIn;
    hide Waiting;
    if marks[i] == -1 {
      assert MarkedTo(marks, i + 1) == MarkedTo(marks, i)[i := 1];
      AddScan(tree, plans, MarkedTo(marks, i), names, i, []);
      CountNone();
    }
  }

  method JoinLeftovers(scantbl: array<int>, plans: seq<Plan>, tree: Plan, ghost names: seq<TableName>)
      returns (plan: Plan)
    requires Scans(plans) && JoinedOk(tree, plans, scantbl[..], names)
    ensures TreeOk(plan, plans) && forall i :: 0 <= i < |plans| ==> plans[i].ScanPlan? && plans[i].tab in Tables(plan)
    ensures forall k :: CountIn(plan, k) == CountIn(tree, k) + Waiting(plans, scantbl[..], k)
  {
    hide CountIn;
    hide Waiting;
    hide TreeOk;
    hide Tables;
    plan := tree;
    ghost var marks, joined := scantbl[..], names;
    assert MarkedTo(marks, 0) == marks;
    for i := 0 to |plans|
      invariant scantbl[..] == marks && JoinedOk(plan, plans, MarkedTo(marks, i), joined)
      invariant forall k ::
        CountIn(plan, k) + Waiting(plans, MarkedTo(marks, i), k) == CountIn(tree, k) + Waiting(plans, marks, k)
    {
      JoinLeftover(plan, plans, marks, joined, i);
      if scantbl[i] == -1 {
        plan := JoinPlan(plans[i], plan, []);
        joined := joined + [plans[i].tab];
      }
    }
    forall k { NothingWaits(plans, MarkedTo(marks, |plans|), k); }
  }

  // ------------------------------------------------------------------------- the whole planner

  lemma {:induction false} TreeTables(plan: Plan, plans: seq<Plan>)
    requires TreeOk(plan, plans)
    ensures EachOnce(plan) && JoinsAcross(plan)
    ensures forall t :: t in Tables(plan) ==> exists i :: 0 <= i < |plans| && plans[i].ScanPlan? && plans[i].tab == t
  {
    if plan.ScanPlan? {
    } else {
      TreeTables(plan.left, plans);
      TreeTables(plan.right, plans);
    }
  }

  /** A tree over well-covered scans is well covered. */
  lemma {:induction false} CoveredIfScans(plan: Plan, plans: seq<Plan>)
    requires TreeOk(plan, plans) && forall i :: 0 <= i < |plans| ==> Covered(plans[i])
    ensures Covered(plan)
  {
    if plan.ScanPlan? {
    } else {
      CoveredIfScans(plan.left, plans);
      CoveredIfScans(plan.right, plans);
    }
  }

  /** The scan of a table of the tree is the query's scan of that table. */
  lemma {:induction false} ScanInTree(plan: Plan, plans: seq<Plan>, i: nat)
    requires TreeOk(plan, plans) && Scans(plans) && i < |plans| && plans[i].tab in Tables(plan) && Covered(plan)
    ensures Covered(plans[i])
  {
    if plan.JoinPlan? {
      if plans[i].tab in Tables(plan.left) { ScanInTree(plan.left, plans, i); }
        else { ScanInTree(plan.right, plans, i); }
    }
  }

  /** Same-table comparisons occur only on the first table. */
  ghost predicate SameTableOnlyFirst(tables: seq<TableName>, conds: seq<Condition>)
    requires tables != []
  {
    forall c :: c in conds && SameTable(c) ==> c.lhs.tab == tables[0]
  }

  lemma ScansCoveredIff(plans: seq<Plan>, tables: seq<TableName>, conds: seq<Condition>)
    requires Names(tables) && tables != [] && OverTables(tables, conds) && |plans| == |tables|
      && ScansHold(plans, tables, conds)
    ensures forall i :: 1 <= i < |plans| ==> Covered(plans[i])
    ensures Covered(plans[0]) <==> SameTableOnlyFirst(tables, conds)
  {
    forall i | 1 <= i < |plans| ensures Covered(plans[i]) {
      assert forall j :: 0 <= j < |plans[i].conds| ==> plans[i].conds[j] in plans[i].conds;
    }
    var cs := plans[0].conds;
    if SameTableOnlyFirst(tables, conds) {
      forall j | 0 <= j < |cs|
        ensures cs[j].lhs.tab == tables[0] && (cs[j].rhs.RhsCol? ==> cs[j].rhs.rcol.tab == tables[0])
      {
        assert cs[j] in cs;
        assert cs[j] in conds && Solves(cs[j], tables[0]);
      }
    }
    if Covered(plans[0]) {
      forall c | c in conds && SameTable(c) ensures c.lhs.tab == tables[0] {
        assert c in cs;
      }
    }
  }

  /** make_one_rel: every table occurs exactly once and every condition exactly as often as in the WHERE clause, up to
      operand swaps. Every condition is at a node that covers its columns if and only if no same-table comparison is
      on a table other than the first. */
  method MakeOneRel(tables: seq<TableName>, conds: seq<Condition>) returns (plan: Plan)
    requires |tables| >= 1 && Names(tables) && OverTables(tables, conds)
    ensures EachOnce(plan) && Tables(plan) == (set t | t in tables) && JoinsAcross(plan)
    ensures forall k :: CountIn(plan, k) == Count(conds, k)
    ensures Covered(plan) <==> SameTableOnlyFirst(tables, conds)
  {
    hide Waiting;
    hide CountIn;
    hide Count;
    hide ScansHold;
    hide RestIs;
    hide JoinCond;
    hide Scans;
    hide JoinedOk;
    hide Covered;
    hide EachOnce;
    hide JoinsAcross;
    hide Tables;
    hide TreeOk;
    NonEmptyNames(tables, conds);
    var plans, rest := MakeScans(tables, conds);
    ScansAre(plans, tables, conds);
    forall c | c in rest ensures JoinCond(c, plans) { RestJoins(plans, tables, conds, rest, c); }
    if |tables| == 1 {
      OnlyOne(plans, tables, conds, rest);
      return plans[0];
    }
    var scantbl := new int[|tables|](_ => -1);
    assert scantbl[..] == Unmarked(|plans|);
    ghost var names;
    plan, names := JoinAll(scantbl, plans, rest);
    plan := JoinLeftovers(scantbl, plans, plan, names);
    Finished(plan, plans, tables, conds);
  }

  lemma NonEmptyNames(tables: seq<TableName>, conds: seq<Condition>)
    requires Names(tables) && OverTables(tables, conds)
    ensures forall c :: c in conds ==> c.lhs.tab != []
  {
  }

  lemma OnlyOne(plans: seq<Plan>, tables: seq<TableName>, conds: seq<Condition>, rest: seq<Condition>)
    requires |tables| == 1 && Names(tables) && OverTables(tables, conds) && |plans| == 1
      && ScansHold(plans, tables, conds)
    requires forall c :: c in rest ==> JoinCond(c, plans)
    requires forall k :: Waiting(plans, Unmarked(|plans|), k) + Count(rest, k) == Count(conds, k)
    ensures EachOnce(plans[0]) && Tables(plans[0]) == (set t | t in tables) && JoinsAcross(plans[0])
    ensures forall k :: CountIn(plans[0], k) == Count(conds, k)
    ensures Covered(plans[0]) <==> SameTableOnlyFirst(tables, conds)
  {
    hide Covered;
    hide Count;
    hide CountIn;
    hide Waiting;
    hide JoinCond;
    ScansCoveredIff(plans, tables, conds);
    NoJoinsOverOne(plans, rest);
    CountNone();
    OneScanWaits(plans);
  }

  lemma NoJoinsOverOne(plans: seq<Plan>, rest: seq<Condition>)
    requires |plans| == 1 && forall c :: c in rest ==> JoinCond(c, plans)
    ensures rest == []
  {
    assert |rest| > 0 ==> JoinCond(rest[0], plans);
  }

  lemma OneScanWaits(plans: seq<Plan>)
    requires |plans| == 1
    ensures forall k :: Waiting(plans, Unmarked(|plans|), k) == CountIn(plans[0], k)
  {
    hide CountIn;
    forall k ensures Waiting(plans, Unmarked(|plans|), k) == CountIn(plans[0], k) {
      WaitingSnoc([], plans[0], k);
      assert [] + [plans[0]] == plans;
    }
  }

  lemma Finished(plan: Plan, plans: seq<Plan>, tables: seq<TableName>, conds: seq<Condition>)
    requires |tables| >= 1 && Names(tables) && OverTables(tables, conds) && |plans| == |tables|
      && ScansHold(plans, tables, conds)
    requires Scans(plans) && TreeOk(plan, plans)
    requires forall i :: 0 <= i < |plans| ==> plans[i].ScanPlan? && plans[i].tab in Tables(plan)
    ensures EachOnce(plan) && Tables(plan) == (set t | t in tables) && JoinsAcross(plan)
    ensures Covered(plan) <==> SameTableOnlyFirst(tables, conds)
  {
    hide Covered;
    hide TreeOk;
    TreeTables(plan, plans);
    ScansCoveredIff(plans, tables, conds);
    if SameTableOnlyFirst(tables, conds) { CoveredIfScans(plan, plans); }
    if Covered(plan) { ScanInTree(plan, plans, 0); }
    assert forall i :: 0 <= i < |plans| ==> plans[i].tab == tables[i];
  }

  /** A same-table comparison on the second table goes to the first table's scan, which has none of its columns. */
  lemma MisplacedComparison()
    ensures exists tables: seq<TableName>, c: Condition ::
      && |tables| == 2 && Names(tables) && OverTables(tables, [c]) && !SameTableOnlyFirst(tables, [c])
      && Solved([c], tables[0]) == [c] && !Covered(ScanPlan(tables[0], Solved([c], tables[0])))
  {
    var tables: seq<TableName> := [[97], [98]];
    var c := Condition(Col([98], "x"), OpEq, RhsCol(Col([98], "y")));
    assert c in [c] && SameTable(c);
    assert Solved([c], tables[0]) == [c] by { assert [c][1..] == []; }
    assert !Covered(ScanPlan(tables[0], [c])) by { assert [c][0].lhs.tab != tables[0]; }
    assert Names(tables) && OverTables(tables, [c]);
  }
}
