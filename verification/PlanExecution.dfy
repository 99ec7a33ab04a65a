/** The executor tree of a plan (src/portal.h): scans and block nested-loop joins over each other's output. */
module PlanExecution {
  import opened Types
  import opened Compare
  import opened Planner
  import opened TupleLayout
  import opened PlanMeaning
  import opened PlanRows
  import opened NestedLoopJoins
  import Index
  import IndexScanning
  import SeqScanning
  import Heap
  import RecordFile

  // --------------------------------------------------------- sums do not depend on the order

  ghost function Total(g: Record -> nat, s: seq<Record>): nat {
    if s == [] then 0 else g(s[0]) + Total(g, s[1..])
  }

  /** Same elements, equally often. */
  ghost predicate Reordered(a: seq<Record>, b: seq<Record>) {
    forall t :: Occurs(a, t) == Occurs(b, t)
  }

  lemma {:induction false} TotalAppend(g: Record -> nat, a: seq<Record>, b: seq<Record>)
    ensures Total(g, a + b) == Total(g, a) + Total(g, b)
  {
    if a == [] { assert a + b == b; } else {
      TotalAppend(g, a[1..], b);
      assert (a + b)[0] == a[0] && (a + b)[1..] == a[1..] + b;
    }
  }

  lemma {:induction false} TotalSame(g: Record -> nat, h: Record -> nat, s: seq<Record>)
    requires forall a :: g(a) == h(a)
    ensures Total(g, s) == Total(h, s)
  {
    if s == [] {
    } else {
      TotalSame(g, h, s[1..]);
    }
  }

  lemma {:induction false} FindOne(s: seq<Record>, t: Record) returns (i: nat)
    requires Occurs(s, t) > 0
    ensures i < |s| && s[i] == t
  {
    if s[0] == t { return 0; }
    i := FindOne(s[1..], t);
    i := i + 1;
  }

  lemma OccursOne(a: Record, t: Record)
    ensures Occurs([a], t) == if a == t then 1 else 0
  {
    assert [a][1..] == [];
  }

  /** Taking one element out of the middle. */
  lemma TakeOut(g: Record -> nat, s: seq<Record>, i: nat)
    requires i < |s|
    ensures Total(g, s) == g(s[i]) + Total(g, s[..i] + s[i + 1..])
    ensures forall t :: Occurs(s, t) == Occurs(s[..i] + s[i + 1..], t) + if s[i] == t then 1 else 0
  {
    hide Total;
    hide Occurs;
    var p, a, q := s[..i], s[i], s[i + 1..];
    assert s == p + ([a] + q);
    TotalAppend(g, p, [a] + q);
    TotalAppend(g, [a], q);
    TotalAppend(g, p, q);
    TotalOne(g, a);
    forall t ensures Occurs(s, t) == Occurs(p + q, t) + if a == t then 1 else 0 {
      OccursAppend(p, [a] + q, t);
      OccursAppend([a], q, t);
      OccursAppend(p, q, t);
      OccursOne(a, t);
    }
  }

  lemma TotalOne(g: Record -> nat, a: Record)
    ensures Total(g, [a]) == g(a)
  {
    assert [a][1..] == [];
  }

  lemma {:induction false} TotalReordered(g: Record -> nat, a: seq<Record>, b: seq<Record>)
    requires Reordered(a, b)
    ensures Total(g, a) == Total(g, b)
    decreases |a|
  {
    if a == [] {
      assert b != [] ==> Occurs(b, b[0]) > Occurs(a, b[0]);
    } else {
      var t := a[0];
      assert Occurs(a, t) == Occurs(b, t);
      var i := FindOne(b, t);
      TakeOut(g, b, i);
      TakeOut(g, a, 0);
      assert a[..0] + a[1..] == a[1..];
      forall x ensures Occurs(a[1..], x) == Occurs(b[..i] + b[i + 1..], x) {
        assert Occurs(a, x) == Occurs(b, x);
      }
      TotalReordered(g, a[1..], b[..i] + b[i + 1..]);
    }
  }

  // --------------------------------------------------------------- pairs as sums

  ghost function PairTotal(f: Filter, lefts: seq<Record>, rights: seq<Record>, t: Record): nat {
    Total(l => Total(r => Gives(f, l, r, t), rights), lefts)
  }

  lemma {:induction false} PairsWithLeftTotal(f: Filter, l: Record, rights: seq<Record>, j: nat, t: Record)
    requires j <= |rights|
    ensures PairsWithLeft(f, l, rights, j, t) == Total(r => Gives(f, l, r, t), rights[j..])
    decreases |rights| - j
  {
    hide Gives;
    if j == |rights| {
    } else {
      PairsWithLeftTotal(f, l, rights, j + 1, t);
      assert rights[j..][1..] == rights[j + 1..];
    }
  }

  lemma {:induction false} PairsTotal(f: Filter, lefts: seq<Record>, i: nat, rights: seq<Record>, t: Record)
    requires i <= |lefts|
    ensures Pairs(f, lefts, i, |lefts|, rights, 0, t) == PairTotal(f, lefts[i..], rights, t)
    decreases |lefts| - i
  {
    hide Gives;
    if i == |lefts| {
    } else {
      PairsTotal(f, lefts, i + 1, rights, t);
      PairsWithLeftTotal(f, lefts[i], rights, 0, t);
      assert rights[0..] == rights;
      assert lefts[i..][1..] == lefts[i + 1..];
    }
  }

  /** Joining reordered inputs gives the reordered output. */
  lemma PairTotalReordered(f: Filter, l: seq<Record>, l': seq<Record>, r: seq<Record>, r': seq<Record>, t: Record)
    requires Reordered(l, l') && Reordered(r, r')
    ensures PairTotal(f, l, r, t) == PairTotal(f, l', r', t)
  {
    hide Gives;
    hide Occurs;
    var g := (x: Record) => Total(y => Gives(f, x, y, t), r);
    var h := (x: Record) => Total(y => Gives(f, x, y, t), r');
    forall x ensures g(x) == h(x) { TotalReordered(y => Gives(f, x, y, t), r, r'); }
    TotalSame(g, h, l);
    TotalReordered(h, l, l');
  }

  // ---------------------------------------------------------- executors and the rows of the plan

  /** The bytes of the picks, in order. */
  ghost function Tuples(db: Database, plan: Plan, ps: seq<Pick>): (ts: seq<Record>)
    requires forall i :: 0 <= i < |ps| ==> Live(db, ps[i]) && Tables(plan) <= ps[i].Keys
    ensures |ts| == |ps| && forall i :: 0 <= i < |ts| ==> ts[i] == Tuple(plan, Records(db, ps[i]))
  {
    seq(|ps|, i requires 0 <= i < |ps| => Tuple(plan, Records(db, ps[i])))
  }

  ghost predicate AllOk(cat: Catalog, db: Database, plan: Plan, ps: seq<Pick>) {
    forall i :: 0 <= i < |ps| ==> PickOk(cat, db, plan, ps[i])
  }

  ghost function NodeFilter(cat: Catalog, plan: Plan): Filter
    requires Tables(plan) <= cat.len.Keys && Tables(plan) <= cat.cols.Keys
  {
    Filter(Cols(cat, plan), plan.conds)
  }

  /** The merged pick has the concatenated bytes. */
  lemma MergedPick(cat: Catalog, db: Database, plan: Plan, l: Pick, r: Pick)
    requires InDb(cat, db, plan) && plan.JoinPlan? && Tables(plan.left) !! Tables(plan.right)
    requires PickOk(cat, db, plan.left, l) && PickOk(cat, db, plan.right, r)
    ensures PickOk(cat, db, plan, l + r)
    ensures Tuple(plan, Records(db, l + r)) == Tuple(plan.left, Records(db, l)) + Tuple(plan.right, Records(db, r))
  {
    hide DbOk;
    hide Over;
    var p := l + r;
    assert Live(db, p);
    LiveOver(cat, db, plan, p);
    TupleFrame(plan.left, Records(db, p), Records(db, l));
    TupleFrame(plan.right, Records(db, p), Records(db, r));
  }

  /** The node keeps a merged pick exactly when the join passes the concatenated tuples. */
  lemma KeepsIsPasses(cat: Catalog, db: Database, plan: Plan, l: Pick, r: Pick)
    requires InDb(cat, db, plan) && plan.JoinPlan? && Tables(plan.left) !! Tables(plan.right)
    requires PickOk(cat, db, plan.left, l) && PickOk(cat, db, plan.right, r)
    ensures PickOk(cat, db, plan, l + r)
    ensures Tuple(plan, Records(db, l + r)) == Tuple(plan.left, Records(db, l)) + Tuple(plan.right, Records(db, r))
    ensures NodeKeeps(cat, db, plan, l + r) <==>
            Passes(NodeFilter(cat, plan), Tuple(plan.left, Records(db, l)) + Tuple(plan.right, Records(db, r)))
  {
    hide EvalCondition;
    hide DbOk;
    hide Over;
    hide Live;
    hide Records;
    hide Tuple;
    hide Cols;
    hide Fits;
    hide Resolves;
    MergedPick(cat, db, plan, l, r);
    NodeFits(cat, plan, Records(db, l + r));
  }

  lemma {:induction false} KeepAppend(cat: Catalog, db: Database, plan: Plan, a: seq<Pick>, b: seq<Pick>)
    ensures Keep(cat, db, plan, a + b) == Keep(cat, db, plan, a) + Keep(cat, db, plan, b)
  {
    hide NodeKeeps;
    hide Keep;
    if a == [] {
      assert a + b == b;
      KeepNone(cat, db, plan);
    } else {
      var p := a[0];
      KeepAppend(cat, db, plan, a[1..], b);
      assert (a + b)[0] == p && (a + b)[1..] == a[1..] + b;
      KeepStep(cat, db, plan, a);
      KeepStep(cat, db, plan, a + b);
    }
  }

  lemma KeepNone(cat: Catalog, db: Database, plan: Plan)
    ensures Keep(cat, db, plan, []) == []
  {
  }

  lemma KeepStep(cat: Catalog, db: Database, plan: Plan, ps: seq<Pick>)
    requires ps != []
    ensures NodeKeeps(cat, db, plan, ps[0]) ==> Keep(cat, db, plan, ps) == [ps[0]] + Keep(cat, db, plan, ps[1..])
    ensures !NodeKeeps(cat, db, plan, ps[0]) ==> Keep(cat, db, plan, ps) == Keep(cat, db, plan, ps[1..])
  {
    hide NodeKeeps;
  }

  lemma KeptOk(cat: Catalog, db: Database, plan: Plan, ps: seq<Pick>)
    ensures AllOk(cat, db, plan, Keep(cat, db, plan, ps))
  {
    hide Live;
    hide Over;
    KeepElements(cat, db, plan, ps);
    var ks := Keep(cat, db, plan, ps);
    forall i | 0 <= i < |ks| ensures PickOk(cat, db, plan, ks[i]) { assert ks[i] in ks; }
  }

  lemma TuplesAppend(cat: Catalog, db: Database, plan: Plan, a: seq<Pick>, b: seq<Pick>)
    requires AllOk(cat, db, plan, a) && AllOk(cat, db, plan, b)
    ensures AllOk(cat, db, plan, a + b) && Tuples(db, plan, a + b) == Tuples(db, plan, a) + Tuples(db, plan, b)
  {
    hide Live;
    hide Over;
    hide Tuple;
    hide Records;
    assert AllOk(cat, db, plan, a + b);
  }

  ghost predicate JoinOver(cat: Catalog, db: Database, plan: Plan, ls: seq<Pick>, rs: seq<Pick>) {
    && plan.JoinPlan? && InDb(cat, db, plan) && Tables(plan.left) !! Tables(plan.right)
    && AllOk(cat, db, plan.left, ls) && AllOk(cat, db, plan.right, rs)
  }

  /** The kept merges with one right pick are the join's row for its tuple. */
  lemma {:induction false} RowIsRow(cat: Catalog, db: Database, plan: Plan, ls: seq<Pick>, k: nat, rs: seq<Pick>,
      j: nat)
    requires JoinOver(cat, db, plan, ls, rs) && j < |rs| && k <= |ls|
    ensures AllOk(cat, db, plan, Keep(cat, db, plan, WithRight(ls[k..], rs[j])))
    ensures Tuples(db, plan, Keep(cat, db, plan, WithRight(ls[k..], rs[j])))
            == Row(NodeFilter(cat, plan), Tuples(db, plan.left, ls), k, Tuples(db, plan.right, rs)[j])
    decreases |ls| - k
  {
    hide NodeKeeps;
    hide Passes;
    hide Live;
    hide Over;
    hide Tuple;
    hide Records;
    hide InDb;
    KeptOk(cat, db, plan, WithRight(ls[k..], rs[j]));
    if k == |ls| {
    } else {
      RowIsRow(cat, db, plan, ls, k + 1, rs, j);
      KeepsIsPasses(cat, db, plan, ls[k], rs[j]);
      var all, rest, p := WithRight(ls[k..], rs[j]), WithRight(ls[k + 1..], rs[j]), ls[k] + rs[j];
      assert all[0] == p && all[1..] == rest;
      var here := if NodeKeeps(cat, db, plan, p) then [p] else [];
      assert AllOk(cat, db, plan, here);
      KeptOk(cat, db, plan, rest);
      TuplesAppend(cat, db, plan, here, Keep(cat, db, plan, rest));
      assert Tuples(db, plan, here) == if NodeKeeps(cat, db, plan, p) then [Tuple(plan, Records(db, p))] else [];
    }
  }

  lemma {:induction false} ProductIsBlockJoin(cat: Catalog, db: Database, plan: Plan, ls: seq<Pick>, rs: seq<Pick>,
      j: nat)
    requires JoinOver(cat, db, plan, ls, rs) && j <= |rs|
    ensures AllOk(cat, db, plan, Keep(cat, db, plan, Product(ls, rs[j..])))
    ensures Tuples(db, plan, Keep(cat, db, plan, Product(ls, rs[j..])))
            == BlockJoin(NodeFilter(cat, plan), Tuples(db, plan.left, ls), Tuples(db, plan.right, rs), j)
    decreases |rs| - j
  {
    hide NodeKeeps;
    hide Passes;
    hide Live;
    hide Over;
    hide Tuple;
    hide Records;
    hide InDb;
    hide Row;
    KeptOk(cat, db, plan, Product(ls, rs[j..]));
    if j == |rs| {
    } else {
      ProductIsBlockJoin(cat, db, plan, ls, rs, j + 1);
      RowIsRow(cat, db, plan, ls, 0, rs, j);
      assert ls[0..] == ls && rs[j..][1..] == rs[j + 1..] && rs[j..][0] == rs[j];
      var first, rest := WithRight(ls, rs[j]), Product(ls, rs[j + 1..]);
      KeepAppend(cat, db, plan, first, rest);
      KeptOk(cat, db, plan, first);
      KeptOk(cat, db, plan, rest);
      TuplesAppend(cat, db, plan, Keep(cat, db, plan, first), Keep(cat, db, plan, rest));
    }
  }

  ghost predicate Runnable(cat: Catalog, db: Database, orders: map<TableName, seq<Rid>>, plan: Plan) {
    InDb(cat, db, plan) && OrdersOk(db, orders) && EachOnce(plan)
  }

  lemma RowsOk(cat: Catalog, db: Database, orders: map<TableName, seq<Rid>>, plan: Plan)
    requires Runnable(cat, db, orders, plan)
    ensures AllOk(cat, db, plan, Rows(cat, db, orders, plan))
  {
    hide Survives;
    hide Over;
    hide Live;
    hide Rows;
    RowsExact(cat, db, orders, plan);
    var ps := Rows(cat, db, orders, plan);
    forall i | 0 <= i < |ps| ensures PickOk(cat, db, plan, ps[i]) { assert ps[i] in ps; }
  }

  /** The bytes of the plan's rows. */
  ghost function RowBytes(cat: Catalog, db: Database, orders: map<TableName, seq<Rid>>, plan: Plan): seq<Record>
    requires Runnable(cat, db, orders, plan)
  {
    RowsOk(cat, db, orders, plan);
    Tuples(db, plan, Rows(cat, db, orders, plan))
  }

  lemma PartsRunnable(cat: Catalog, db: Database, orders: map<TableName, seq<Rid>>, plan: Plan)
    requires Runnable(cat, db, orders, plan)
    ensures Tables(plan) <= cat.len.Keys && Tables(plan) <= cat.cols.Keys
    ensures plan.JoinPlan? ==> Runnable(cat, db, orders, plan.left) && Runnable(cat, db, orders, plan.right)
  {
    hide DbOk;
  }

  /** What a scan executor gives: the rids of exactly the matching records, once each, in an order of its own. */
  ghost predicate ScanGives(cat: Catalog, db: Database, plan: Plan, rids: seq<Rid>)
    requires plan.ScanPlan? && plan.tab in cat.cols && plan.tab in db
  {
    IndexScanning.Once(rids) && forall r :: r in rids <==>
      IndexScanning.Matches(cat.cols[plan.tab], plan.conds, db[plan.tab], r)
  }

  /** The bytes of the records at the rids. */
  ghost function BytesAt(t: Table, rids: seq<Rid>): (out: seq<Record>)
    requires forall i :: 0 <= i < |rids| ==> rids[i] in t
    ensures |out| == |rids| && forall i :: 0 <= i < |out| ==> out[i] == t[rids[i]]
  {
    seq(|rids|, i requires 0 <= i < |rids| => t[rids[i]])
  }

  ghost predicate AllIn(t: Table, rids: seq<Rid>) { forall i :: 0 <= i < |rids| ==> rids[i] in t }

  lemma PlanTables(cat: Catalog, db: Database, orders: map<TableName, seq<Rid>>, plan: Plan)
    requires Runnable(cat, db, orders, plan) && plan.ScanPlan?
    ensures plan.tab in cat.cols && plan.tab in cat.len && plan.tab in db && plan.tab in orders
  {
    hide DbOk;
    assert plan.tab in Tables(plan);
  }

  /** What the executor tree of the plan may deliver: a scan gives the bytes of its executor's rids, a join runs the
      block nested-loop join over what its children deliver. */
  ghost predicate Delivers(cat: Catalog, db: Database, orders: map<TableName, seq<Rid>>, plan: Plan, out: seq<Record>)
    requires Runnable(cat, db, orders, plan)
  {
    PartsRunnable(cat, db, orders, plan);
    match plan
    case ScanPlan(tab, _) =>
      PlanTables(cat, db, orders, plan);
      exists rids :: ScanGives(cat, db, plan, rids) && AllIn(db[tab], rids) && out == BytesAt(db[tab], rids)
    case JoinPlan(l, r, _) =>
      exists ls, rs :: Delivers(cat, db, orders, l, ls) && Delivers(cat, db, orders, r, rs)
                       && out == JoinFrom(NodeFilter(cat, plan), ls, 0, rs)
  }

  // ------------------------------------------------------------------------- scan leaves

  /** The scan matches a rid exactly when the plan has the row. */
  lemma MatchIsRow(cat: Catalog, db: Database, orders: map<TableName, seq<Rid>>, plan: Plan, r: Rid)
    requires Runnable(cat, db, orders, plan) && plan.ScanPlan? && plan.tab in cat.cols && plan.tab in db
    ensures IndexScanning.Matches(cat.cols[plan.tab], plan.conds, db[plan.tab], r) <==>
      IsRow(cat, db, plan, map[plan.tab := r])
  {
    hide EvalCondition;
    hide DbOk;
    hide Over;
    hide Resolves;
    hide Fits;
    hide OrdersOk;
    var p: Pick := map[plan.tab := r];
    if r in db[plan.tab] {
      assert Live(db, p);
      LiveOver(cat, db, plan, p);
      NodeFits(cat, plan, Records(db, p));
      assert Tuple(plan, Records(db, p)) == db[plan.tab][r];
    }
  }

  /** The rids of the plan's rows, in order. */
  ghost function RidsOf(tab: TableName, ps: seq<Pick>): (rids: seq<Rid>)
    requires forall i :: 0 <= i < |ps| ==> tab in ps[i]
    ensures |rids| == |ps| && forall i :: 0 <= i < |rids| ==> rids[i] == ps[i][tab]
  {
    seq(|ps|, i requires 0 <= i < |ps| => ps[i][tab])
  }

  lemma RowIsSingle(cat: Catalog, db: Database, plan: Plan, p: Pick)
    requires plan.ScanPlan? && IsRow(cat, db, plan, p)
    ensures plan.tab in p && p == map[plan.tab := p[plan.tab]] && plan.tab in db && p[plan.tab] in db[plan.tab]
  {
    hide Over;
    hide Survives;
    assert plan.tab in p.Keys;
    assert p == map[plan.tab := p[plan.tab]];
  }

  /** The rows of a scan plan, as rids, are what its executor gives. */
  lemma RowsAreGiven(cat: Catalog, db: Database, orders: map<TableName, seq<Rid>>, plan: Plan)
    requires Runnable(cat, db, orders, plan) && plan.ScanPlan?
    ensures plan.tab in cat.cols && plan.tab in db
    ensures var ps := Rows(cat, db, orders, plan);
      && (forall i :: 0 <= i < |ps| ==> plan.tab in ps[i]) && ScanGives(cat, db, plan, RidsOf(plan.tab, ps))
      && AllIn(db[plan.tab], RidsOf(plan.tab, ps))
        && RowBytes(cat, db, orders, plan) == BytesAt(db[plan.tab], RidsOf(plan.tab, ps))
  {
    hide Rows;
    hide IsRow;
    hide DbOk;
    hide OrdersOk;
    hide IndexScanning.Matches;
    PlanTables(cat, db, orders, plan);
    RowsExact(cat, db, orders, plan);
    RowsOk(cat, db, orders, plan);
    var tab, ps := plan.tab, Rows(cat, db, orders, plan);
    forall i | 0 <= i < |ps| ensures tab in ps[i] && ps[i] == map[tab := ps[i][tab]] && ps[i][tab] in db[tab] {
      assert ps[i] in ps;
      RowIsSingle(cat, db, plan, ps[i]);
    }
    var rids := RidsOf(tab, ps);
    forall r ensures r in rids <==> IndexScanning.Matches(cat.cols[tab], plan.conds, db[tab], r) {
      MatchIsRow(cat, db, orders, plan, r);
      RidOfSingle(tab, ps, r);
    }
    forall i | 0 <= i < |ps|
      ensures Tuple(plan, Records(db, ps[i])) == db[tab][rids[i]]
    {
      assert PickOk(cat, db, plan, ps[i]);
    }
  }

  lemma RidOfSingle(tab: TableName, ps: seq<Pick>, r: Rid)
    requires forall i :: 0 <= i < |ps| ==> tab in ps[i] && ps[i] == map[tab := ps[i][tab]]
    ensures r in RidsOf(tab, ps) <==> map[tab := r] in ps
  {
    var p: Pick, rids := map[tab := r], RidsOf(tab, ps);
    if r in rids {
      var i :| 0 <= i < |rids| && rids[i] == r;
      assert ps[i] == p;
    }
    if p in ps {
      var i :| 0 <= i < |ps| && ps[i] == p;
      assert rids[i] == r;
    }
  }

  lemma BytesTakeOut(t: Table, rids: seq<Rid>, i: nat, x: Record)
    requires AllIn(t, rids) && i < |rids|
    ensures var rest := rids[..i] + rids[i + 1..];
      AllIn(t, rest) && Occurs(BytesAt(t, rids), x) == Occurs(BytesAt(t, rest), x) + if t[rids[i]] == x then 1 else 0
  {
    var rest := rids[..i] + rids[i + 1..];
    var a, b := BytesAt(t, rids), BytesAt(t, rest);
    assert b == a[..i] + a[i + 1..];
    TakeOut(_ => 0, a, i);
  }

  lemma OnceTakeOut(rids: seq<Rid>, i: nat)
    requires IndexScanning.Once(rids) && i < |rids|
    ensures var rest := rids[..i] + rids[i + 1..];
      IndexScanning.Once(rest) && forall r :: r in rest <==> r in rids && r != rids[i]
  {
    var rest := rids[..i] + rids[i + 1..];
    assert forall j :: 0 <= j < |rest| ==> rest[j] == rids[if j < i then j else j + 1];
    assert rids == rids[..i] + [rids[i]] + rids[i + 1..];
  }

  lemma HasOne(rids: seq<Rid>)
    requires rids != []
    ensures exists r :: r in rids
  {
    assert rids[0] in rids;
  }

  /** Two orders of the same rids give the same bytes equally often. */
  lemma {:induction false} SameRidsSameBytes(t: Table, a: seq<Rid>, b: seq<Rid>, x: Record)
    requires AllIn(t, a) && AllIn(t, b) && IndexScanning.Once(a) && IndexScanning.Once(b)
    requires forall r :: r in a <==> r in b
    ensures Occurs(BytesAt(t, a), x) == Occurs(BytesAt(t, b), x)
    decreases |a|
  {
    hide Occurs;
    hide IndexScanning.Once;
    if a == [] {
      if b != [] { HasOne(b); }
    } else {
      assert a[0] in b;
      var i :| 0 <= i < |b| && b[i] == a[0];
      BytesTakeOut(t, a, 0, x);
      BytesTakeOut(t, b, i, x);
      OnceTakeOut(a, 0);
      OnceTakeOut(b, i);
      SameRidsSameBytes(t, a[..0] + a[0 + 1..], b[..i] + b[i + 1..], x);
    }
  }

  /** A scan leaf delivers the plan's rows. */
  lemma ScanDelivers(cat: Catalog, db: Database, orders: map<TableName, seq<Rid>>, plan: Plan, out: seq<Record>)
    requires Runnable(cat, db, orders, plan) && plan.ScanPlan? && Delivers(cat, db, orders, plan, out)
    ensures Reordered(out, RowBytes(cat, db, orders, plan))
  {
    hide RowBytes;
    hide Rows;
    hide Occurs;
    hide IndexScanning.Matches;
    hide IndexScanning.Once;
    RowsAreGiven(cat, db, orders, plan);
    var rids :| ScanGives(cat, db, plan, rids) && AllIn(db[plan.tab], rids) && out == BytesAt(db[plan.tab], rids);
    var rows := RidsOf(plan.tab, Rows(cat, db, orders, plan));
    forall x ensures Occurs(out, x) == Occurs(RowBytes(cat, db, orders, plan), x) {
      SameRidsSameBytes(db[plan.tab], rids, rows, x);
    }
  }

  /** The rows of a join node are the one-block join of the rows of its parts. */
  lemma RowsAreBlockJoin(cat: Catalog, db: Database, orders: map<TableName, seq<Rid>>, plan: Plan)
    requires Runnable(cat, db, orders, plan) && plan.JoinPlan?
    ensures Runnable(cat, db, orders, plan.left) && Runnable(cat, db, orders, plan.right)
      && Tables(plan) <= cat.len.Keys && Tables(plan) <= cat.cols.Keys
    ensures RowBytes(cat, db, orders, plan)
            == BlockJoin(NodeFilter(cat, plan), RowBytes(cat, db, orders, plan.left),
              RowBytes(cat, db, orders, plan.right), 0)
  {
    hide BlockJoin;
    hide Keep;
    hide Product;
    hide DbOk;
    hide PickOk;
    PartsRunnable(cat, db, orders, plan);
    var lp, rp := Rows(cat, db, orders, plan.left), Rows(cat, db, orders, plan.right);
    RowsOk(cat, db, orders, plan.left);
    RowsOk(cat, db, orders, plan.right);
    ProductIsBlockJoin(cat, db, plan, lp, rp, 0);
    assert rp[0..] == rp;
  }

  lemma OneJoin(f: Filter, ls: seq<Record>, rs: seq<Record>, lt: seq<Record>, rt: seq<Record>, t: Record)
    requires Reordered(ls, lt) && Reordered(rs, rt)
    ensures Occurs(JoinFrom(f, ls, 0, rs), t) == Occurs(BlockJoin(f, lt, rt, 0), t)
  {
    hide JoinFrom;
    hide BlockJoin;
    hide Pairs;
    hide PairTotal;
    hide Reordered;
    hide Occurs;
    assert lt[0..|lt|] == lt && ls[0..] == ls && lt[0..] == lt;
    JoinEmitsPairs(f, ls, 0, rs, t);
    PairsTotal(f, ls, 0, rs, t);
    PairTotalReordered(f, ls, lt, rs, rt, t);
    PairsTotal(f, lt, 0, rt, t);
    BlockPairs(f, lt, 0, |lt|, rt, 0, t);
  }

  /** The executor tree delivers exactly the plan's rows, each as often as it occurs, whatever the scan orders and the
      block boundaries were. */
  lemma {:induction false} ExecutorsDeliverRows(cat: Catalog, db: Database, orders: map<TableName, seq<Rid>>,
      plan: Plan, out: seq<Record>)
    requires Runnable(cat, db, orders, plan) && Delivers(cat, db, orders, plan, out)
    ensures Reordered(out, RowBytes(cat, db, orders, plan))
  {
    hide JoinFrom;
    hide BlockJoin;
    hide Occurs;
    hide Runnable;
    hide RowBytes;
    PartsRunnable(cat, db, orders, plan);
    if plan.ScanPlan? { ScanDelivers(cat, db, orders, plan, out); } else {
      RowsAreBlockJoin(cat, db, orders, plan);
      var ls, rs :| Delivers(cat, db, orders, plan.left, ls) && Delivers(cat, db, orders, plan.right, rs)
        && out == JoinFrom(NodeFilter(cat, plan), ls, 0, rs);
      ExecutorsDeliverRows(cat, db, orders, plan.left, ls);
      ExecutorsDeliverRows(cat, db, orders, plan.right, rs);
      forall t ensures Occurs(out, t) == Occurs(RowBytes(cat, db, orders, plan), t) {
        OneJoin(NodeFilter(cat, plan), ls, rs, RowBytes(cat, db, orders, plan.left),
          RowBytes(cat, db, orders, plan.right), t);
      }
    }
  }

  // ------------------------------------------------------------------- running the executors

  type Files = map<TableName, RecordFile.RmFileHandle>

  /** The tables are the contents of their files. */
  ghost predicate FilesHold(files: Files, db: Database)
    reads files.Values
  {
    && files.Keys == db.Keys
    && (forall tab :: tab in files ==> files[tab].Valid() && db[tab] == Heap.Contents(files[tab].State()))
  }

  /** The scans' conditions are over existing columns, and an index that is given agrees with its table. */
  ghost predicate Prepared(cat: Catalog, db: Database, plan: Plan, indexes: map<TableName, Index.Idx>)
    requires Tables(plan) <= cat.cols.Keys && Tables(plan) <= db.Keys
  {
    match plan
    case ScanPlan(tab, conds) =>
      assert tab in Tables(plan);
      && IndexScanning.Queryable(cat.cols[tab], conds, db[tab])
      && (tab in indexes ==>
        Index.Agrees(indexes[tab], db[tab]) && IndexScanning.IndexOf(indexes[tab].meta, cat.cols[tab]))
    case JoinPlan(l, r, _) => Prepared(cat, db, l, indexes) && Prepared(cat, db, r, indexes)
  }

  /** A scan node: the index scan where the plan chose an index, the sequential scan otherwise; every rid's record is
      fetched. */
  method RunScan(ghost cat: Catalog, ghost db: Database, fh: RecordFile.RmFileHandle, cols: seq<ColMeta>, plan: Plan,
                 index: Option<Index.Idx>) returns (out: seq<Record>, ghost rids: seq<Rid>)
    requires plan.ScanPlan? && plan.tab in cat.cols && plan.tab in db && cols == cat.cols[plan.tab]
    requires fh.Valid() && db[plan.tab] == Heap.Contents(fh.State())
    requires IndexScanning.Queryable(cols, plan.conds, db[plan.tab])
    requires index.Some? ==> Index.Agrees(index.value, db[plan.tab]) && IndexScanning.IndexOf(index.value.meta, cols)
    ensures ScanGives(cat, db, plan, rids) && AllIn(db[plan.tab], rids) && out == BytesAt(db[plan.tab], rids)
  {
    hide Index.Agrees;
    hide Heap.Contents;
    hide Heap.FileOk;
    hide IndexScanning.Queryable;
    hide IndexScanning.IndexOf;
    var found: seq<Rid>;
    if index.Some? {
      found := IndexScanning.RunIndexScan(fh, index.value, cols, plan.conds);
    } else {
      found := SeqScanning.RunSeqScan(fh, cols, plan.conds);
      IncreasingOnce(found);
    }
    rids := found;
    MatchesLive(cols, plan.conds, db[plan.tab], found);
    out := [];
    for i := 0 to |found|
      invariant |out| == i && forall j :: 0 <= j < i ==> out[j] == db[plan.tab][found[j]]
    {
      var rec := fh.GetRecord(found[i]);
      out := out + [rec.value];
    }
  }

  lemma MatchesLive(cols: seq<ColMeta>, conds: seq<Condition>, t: Table, rids: seq<Rid>)
    requires forall r :: r in rids <==> IndexScanning.Matches(cols, conds, t, r)
    ensures AllIn(t, rids)
  {
    forall i | 0 <= i < |rids| ensures rids[i] in t { assert rids[i] in rids; }
  }

  lemma IncreasingOnce(rids: seq<Rid>)
    requires SeqScanning.RecordScan.Increasing(rids)
    ensures IndexScanning.Once(rids)
  {
  }

  method RunJoinOver(ls: seq<Record>, rs: seq<Record>, filter: Filter) returns (out: seq<Record>)
    ensures out == JoinFrom(filter, ls, 0, rs)
  {
    hide JoinFrom;
    var left := new Cursor(ls);
    var right := new Cursor(rs);
    var join := new NestedLoopJoin(left, right, filter);
    out := RunJoin(join);
  }

  /** The whole executor tree of a plan: scans over the files, block nested-loop joins over the children's rows. It
      delivers exactly the plan's rows, each as often as it occurs. */
  method RunPlan(cat: Catalog, ghost db: Database, ghost orders: map<TableName, seq<Rid>>, files: Files,
                 indexes: map<TableName, Index.Idx>, plan: Plan) returns (out: seq<Record>)
    requires Runnable(cat, db, orders, plan) && FilesHold(files, db)
    requires Tables(plan) <= cat.cols.Keys && Tables(plan) <= db.Keys && Prepared(cat, db, plan, indexes)
    ensures Delivers(cat, db, orders, plan, out)
    ensures Reordered(out, RowBytes(cat, db, orders, plan))
    decreases plan
  {
    hide Runnable;
    hide RowBytes;
    hide JoinFrom;
    hide Delivers;
    hide Prepared;
    hide FilesHold;
    hide Tables;
    PartsRunnable(cat, db, orders, plan);
    PartsIn(cat, db, plan, indexes);
    match plan {
      case ScanPlan(tab, conds) =>
        PlanTables(cat, db, orders, plan);
        FileThere(files, db, tab);
        ghost var rids;
        out, rids := RunScan(cat, db, files[tab], cat.cols[tab], plan, Lookup(indexes, tab));
        ScanLeaf(cat, db, orders, plan, rids, out);
      case JoinPlan(l, r, conds) =>
        var ls := RunPlan(cat, db, orders, files, indexes, l);
        var rs := RunPlan(cat, db, orders, files, indexes, r);
        out := RunJoinOver(ls, rs, Filter(Cols(cat, plan), conds));
        JoinNode(cat, db, orders, plan, ls, rs, out);
    }
    ExecutorsDeliverRows(cat, db, orders, plan, out);
  }

  lemma FileThere(files: Files, db: Database, tab: TableName)
    requires FilesHold(files, db) && tab in db
    ensures tab in files && files[tab].Valid() && db[tab] == Heap.Contents(files[tab].State())
  {
    hide Heap.Contents;
    hide Heap.FileOk;
  }

  lemma ScanLeaf(cat: Catalog, db: Database, orders: map<TableName, seq<Rid>>, plan: Plan, rids: seq<Rid>,
      out: seq<Record>)
    requires Runnable(cat, db, orders, plan) && plan.ScanPlan? && plan.tab in cat.cols && plan.tab in db
    requires ScanGives(cat, db, plan, rids) && AllIn(db[plan.tab], rids) && out == BytesAt(db[plan.tab], rids)
    ensures Delivers(cat, db, orders, plan, out)
  {
    hide Runnable;
    hide ScanGives;
  }

  lemma JoinNode(cat: Catalog, db: Database, orders: map<TableName, seq<Rid>>, plan: Plan, ls: seq<Record>,
      rs: seq<Record>, out: seq<Record>)
    requires Runnable(cat, db, orders, plan) && plan.JoinPlan?
    requires Runnable(cat, db, orders, plan.left) && Runnable(cat, db, orders, plan.right)
    requires Delivers(cat, db, orders, plan.left, ls) && Delivers(cat, db, orders, plan.right, rs)
    requires Tables(plan) <= cat.len.Keys && Tables(plan) <= cat.cols.Keys
      && out == JoinFrom(NodeFilter(cat, plan), ls, 0, rs)
    ensures Delivers(cat, db, orders, plan, out)
  {
    hide Runnable;
    hide JoinFrom;
  }

  lemma PartsIn(cat: Catalog, db: Database, plan: Plan, indexes: map<TableName, Index.Idx>)
    requires Tables(plan) <= cat.cols.Keys && Tables(plan) <= db.Keys && Prepared(cat, db, plan, indexes)
    ensures plan.ScanPlan? ==>
      && plan.tab in cat.cols && plan.tab in db && IndexScanning.Queryable(cat.cols[plan.tab], plan.conds, db[plan.tab])
      && (plan.tab in indexes ==>
        Index.Agrees(indexes[plan.tab], db[plan.tab])
          && IndexScanning.IndexOf(indexes[plan.tab].meta, cat.cols[plan.tab]))
    ensures plan.JoinPlan? ==>
      && Tables(plan.left) <= cat.cols.Keys && Tables(plan.left) <= db.Keys && Prepared(cat, db, plan.left, indexes)
      && Tables(plan.right) <= cat.cols.Keys && Tables(plan.right) <= db.Keys && Prepared(cat, db, plan.right, indexes)
  {
    hide Index.Agrees;
    hide IndexScanning.Queryable;
    hide IndexScanning.IndexOf;
  }
}
