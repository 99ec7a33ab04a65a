/** The block nested-loop join as a resumable iterator (src/execution/executor_nestedloop_join.h). */
module NestedLoopJoins {
  import opened Types
  import opened Compare

  const JOIN_BUFFER_BYTES := 4 * 1024 * 1024

  /** The join conditions over the columns of the joined tuple. */
  datatype Filter = Filter(cols: seq<ColMeta>, conds: seq<Condition>)

  predicate Evaluable(f: Filter, rec: Record) {
    Fits(f.cols, rec) && forall i :: 0 <= i < |f.conds| ==> Resolves(f.cols, f.conds[i])
  }

  predicate Passes(f: Filter, rec: Record) {
    Evaluable(f, rec) && EvalConditions(f.cols, f.conds, rec)
  }

  // ---------------------------------------------------------------------- what is emitted

  /** The matches of one right tuple with the block, from a block position on. */
  ghost function Row(f: Filter, block: seq<Record>, k: nat, r: Record): seq<Record>
    requires k <= |block|
    decreases |block| - k
  {
    if k == |block| then []
    else (if Passes(f, block[k] + r) then [block[k] + r] else []) + Row(f, block, k + 1, r)
  }

  /** The matches of the right tuples, from a position on, with the block. */
  ghost function BlockJoin(f: Filter, block: seq<Record>, rights: seq<Record>, j: nat): seq<Record>
    requires j <= |rights|
    decreases |rights| - j
  {
    if j == |rights| then [] else Row(f, block, 0, rights[j]) + BlockJoin(f, block, rights, j + 1)
  }

  /** What is still to come for a loaded block, from block position k at right position j. */
  ghost function InBlock(f: Filter, block: seq<Record>, k: nat, rights: seq<Record>, j: nat): seq<Record>
    requires k <= |block| && j <= |rights|
  {
    if block == [] || j == |rights| then [] else Row(f, block, k, rights[j]) + BlockJoin(f, block, rights, j + 1)
  }

  /** The first match of the current row is the first of what is still to come for the block. */
  lemma RowFound(f: Filter, block: seq<Record>, k: nat, k': nat, rights: seq<Record>, j: nat, t: Record)
    requires k <= k' <= |block| && block != [] && j < |rights|
    requires Row(f, block, k, rights[j]) == [t] + Row(f, block, k', rights[j])
    ensures InBlock(f, block, k, rights, j) == [t] + InBlock(f, block, k', rights, j)
  {
    hide Row;
    hide BlockJoin;
  }

  /** A row without further matches leaves what the later right tuples give. */
  lemma RowDone(f: Filter, block: seq<Record>, k: nat, rights: seq<Record>, j: nat)
    requires k <= |block| && block != [] && j < |rights| && Row(f, block, k, rights[j]) == []
    ensures InBlock(f, block, k, rights, j) == InBlock(f, block, 0, rights, j + 1)
  {
    hide Row;
    assert [] + BlockJoin(f, block, rights, j + 1) == BlockJoin(f, block, rights, j + 1);
  }

  lemma BlockDone(f: Filter, block: seq<Record>, k: nat, rights: seq<Record>)
    requires k <= |block|
    ensures InBlock(f, block, k, rights, |rights|) == []
  {
  }

  lemma Regroup(t: Record, a: seq<Record>, b: seq<Record>)
    ensures ([t] + a) + b == [t] + (a + b)
  {
  }

  /** How many left tuples load_left_block takes when it already holds `used` bytes. */
  function BlockLen(lefts: seq<Record>, i: nat, used: nat): (n: nat)
    requires i <= |lefts|
    ensures i + n <= |lefts| && (i < |lefts| ==> n >= 1)
    decreases |lefts| - i
  {
    if i == |lefts| then 0
    else if used + |lefts[i]| >= JOIN_BUFFER_BYTES then 1
    else 1 + BlockLen(lefts, i + 1, used + |lefts[i]|)
  }

  /** Everything emitted from left position i on: block after block. */
  ghost function JoinFrom(f: Filter, lefts: seq<Record>, i: nat, rights: seq<Record>): seq<Record>
    requires i <= |lefts|
    decreases |lefts| - i
  {
    if i == |lefts| then []
    else
      var n := BlockLen(lefts, i, 0);
      BlockJoin(f, lefts[i..i + n], rights, 0) + JoinFrom(f, lefts, i + n, rights)
  }

  // ------------------------------------------------------- the reference: a list comprehension

  function Occurs(ts: seq<Record>, t: Record): nat {
    if ts == [] then 0 else (if ts[0] == t then 1 else 0) + Occurs(ts[1..], t)
  }

  lemma {:induction false} OccursAppend(a: seq<Record>, b: seq<Record>, t: Record)
    ensures Occurs(a + b, t) == Occurs(a, t) + Occurs(b, t)
  {
    if a == [] { assert a + b == b; } else {
      OccursAppend(a[1..], b, t);
      assert (a + b)[0] == a[0] && (a + b)[1..] == a[1..] + b;
    }
  }

  /** 1 when the pair passes the conditions and gives the tuple t. */
  ghost function Gives(f: Filter, l: Record, r: Record, t: Record): nat {
    if Passes(f, l + r) && l + r == t then 1 else 0
  }

  /** The number of pairs (x, y), x from i to n, y from j to m, that pass and give t. */
  ghost function PairsWithLeft(f: Filter, l: Record, rights: seq<Record>, j: nat, t: Record): nat
    requires j <= |rights|
    decreases |rights| - j
  {
    if j == |rights| then 0 else Gives(f, l, rights[j], t) + PairsWithLeft(f, l, rights, j + 1, t)
  }

  ghost function Pairs(f: Filter, lefts: seq<Record>, i: nat, n: nat, rights: seq<Record>, j: nat, t: Record): nat
    requires i <= n <= |lefts| && j <= |rights|
    decreases n - i
  {
    if i == n then 0 else PairsWithLeft(f, lefts[i], rights, j, t) + Pairs(f, lefts, i + 1, n, rights, j, t)
  }

  lemma {:induction false} PairsSplit(f: Filter, lefts: seq<Record>, i: nat, m: nat, n: nat, rights: seq<Record>,
      t: Record)
    requires i <= m <= n <= |lefts|
    ensures Pairs(f, lefts, i, n, rights, 0, t)
      == Pairs(f, lefts, i, m, rights, 0, t) + Pairs(f, lefts, m, n, rights, 0, t)
    decreases m - i
  {
    hide Gives;
    hide PairsWithLeft;
    if i == m {
    } else {
      PairsSplit(f, lefts, i + 1, m, n, rights, t);
    }
  }

  lemma {:induction false} NoRights(f: Filter, lefts: seq<Record>, i: nat, n: nat, rights: seq<Record>, t: Record)
    requires i <= n <= |lefts|
    ensures Pairs(f, lefts, i, n, rights, |rights|, t) == 0
    decreases n - i
  {
    if i == n {
    } else {
      NoRights(f, lefts, i + 1, n, rights, t);
    }
  }

  /** One right tuple's row, and the pairs of the other right tuples. */
  lemma {:induction false} RowPairs(f: Filter, lefts: seq<Record>, i: nat, k: nat, n: nat, rights: seq<Record>,
      j: nat, t: Record)
    requires i <= i + k <= n <= |lefts| && j < |rights|
    ensures Occurs(Row(f, lefts[i..n], k, rights[j]), t) + Pairs(f, lefts, i + k, n, rights, j + 1, t)
            == Pairs(f, lefts, i + k, n, rights, j, t)
    decreases n - i - k
  {
    hide Passes;
    if i + k < n {
      RowPairs(f, lefts, i, k + 1, n, rights, j, t);
      var l := lefts[i..n][k];
      var here := if Passes(f, l + rights[j]) then [l + rights[j]] else [];
      assert l == lefts[i + k];
      OccursAppend(here, Row(f, lefts[i..n], k + 1, rights[j]), t);
      assert Occurs(here, t) == Gives(f, l, rights[j], t) by { assert |here| > 0 ==> here[1..] == []; }
    }
  }

  lemma {:induction false} BlockPairs(f: Filter, lefts: seq<Record>, i: nat, n: nat, rights: seq<Record>, j: nat,
      t: Record)
    requires i <= n <= |lefts| && j <= |rights|
    ensures Occurs(BlockJoin(f, lefts[i..n], rights, j), t) == Pairs(f, lefts, i, n, rights, j, t)
    decreases |rights| - j
  {
    hide Gives;
    hide Row;
    if j == |rights| { NoRights(f, lefts, i, n, rights, t); } else {
      BlockPairs(f, lefts, i, n, rights, j + 1, t);
      RowPairs(f, lefts, i, 0, n, rights, j, t);
      OccursAppend(Row(f, lefts[i..n], 0, rights[j]), BlockJoin(f, lefts[i..n], rights, j + 1), t);
    }
  }

  /** The join refines the list comprehension: whatever the block boundaries, every tuple is emitted exactly as often as
      there are left-right pairs that pass the conditions and give it. */
  lemma {:induction false} JoinEmitsPairs(f: Filter, lefts: seq<Record>, i: nat, rights: seq<Record>, t: Record)
    requires i <= |lefts|
    ensures Occurs(JoinFrom(f, lefts, i, rights), t) == Pairs(f, lefts, i, |lefts|, rights, 0, t)
    decreases |lefts| - i
  {
    hide BlockJoin;
    hide Gives;
    if i == |lefts| {
    } else {
      var n := BlockLen(lefts, i, 0);
      JoinEmitsPairs(f, lefts, i + n, rights, t);
      BlockPairs(f, lefts, i, i + n, rights, 0, t);
      OccursAppend(BlockJoin(f, lefts[i..i + n], rights, 0), JoinFrom(f, lefts, i + n, rights), t);
      PairsSplit(f, lefts, i, i + n, |lefts|, rights, t);
    }
  }

  // ------------------------------------------------------------------------------- the objects

  /** A child executor: it delivers the same rows again after each beginTuple. */
  class Cursor {
    const rows: seq<Record>
    var pos: nat

    constructor (rs: seq<Record>)
      ensures rows == rs && pos == 0
    {
      rows, pos := rs, 0;
    }

    method BeginTuple()
      modifies this
      ensures pos == 0
    {
      pos := 0;
    }

    method NextTuple()
      modifies this
      ensures pos == if old(pos) < |rows| then old(pos) + 1 else old(pos)
    {
      if pos < |rows| { pos := pos + 1; }
    }

    method Next() returns (rec: Option<Record>)
      ensures rec == if pos < |rows| then Some(rows[pos]) else None
    {
      return if pos < |rows| then Some(rows[pos]) else None;
    }
  }

  class NestedLoopJoin {
    const left: Cursor
    const right: Cursor
    const filter: Filter
    var isEnd: bool
    var block: seq<Record>
    var rightTuple: Option<Record>
    var current: Option<Record>
    var cursor: nat

    ghost predicate Valid()
      reads this, left, right
    {
      && left != right && left.pos <= |left.rows| && right.pos <= |right.rows| && cursor <= |block|
      && (rightTuple.Some? ==> right.pos < |right.rows| && rightTuple.value == right.rows[right.pos])
      && (block == [] ==> cursor == 0 && rightTuple.None?)
      && (rightTuple.None? ==> cursor == 0)
    }

    /** The tuples still to be found from the current position. */
    ghost function Rest(): seq<Record>
      requires Valid()
      reads this, left, right
    {
      BlockRest() + JoinFrom(filter, left.rows, left.pos, right.rows)
    }

    ghost function BlockRest(): seq<Record>
      requires Valid()
      reads this, left, right
    {
      InBlock(filter, block, cursor, right.rows, right.pos)
    }

    /** What a caller will still see: the current tuple and then the rest. */
    ghost function Pending(): seq<Record>
      requires Valid()
      reads this, left, right
    {
      if isEnd || current.None? then [] else [current.value] + Rest()
    }

    constructor (l: Cursor, r: Cursor, f: Filter)
      requires l != r && l.pos <= |l.rows| && r.pos <= |r.rows|
      ensures Valid() && left == l && right == r && filter == f
    {
      left, right, filter := l, r, f;
      isEnd, block, rightTuple, current, cursor := false, [], None, None, 0;
    }

    method LoadLeftBlock() returns (some: bool)
      requires Valid()
      modifies this`block, this`cursor, left
      ensures cursor == 0 && (some <==> block != []) && (some <==> old(left.pos) < |left.rows|)
      ensures left.pos == old(left.pos) + |block| <= |left.rows| && block == left.rows[old(left.pos)..left.pos]
      ensures |block| == BlockLen(left.rows, old(left.pos), 0)
    {
      block := [];
      var used: nat := 0;
      while left.pos < |left.rows|
        invariant old(left.pos) <= left.pos <= |left.rows| && block == left.rows[old(left.pos)..left.pos]
        invariant BlockLen(left.rows, old(left.pos), 0) == |block| + BlockLen(left.rows, left.pos, used)
      {
        var rec := left.Next();
        used := used + |rec.value|;
        block := block + [rec.value];
        left.NextTuple();
        if used >= JOIN_BUFFER_BYTES { break; }
      }
      cursor := 0;
      return block != [];
    }

    /** The inner loop over the block: stop after the first match. */
    method MatchInBlock(r: Record) returns (found: bool)
      requires cursor <= |block|
      modifies this`cursor, this`current
      ensures old(cursor) <= cursor <= |block|
      ensures found ==>
        current.Some? && Row(filter, block, old(cursor), r) == [current.value] + Row(filter, block, cursor, r)
      ensures !found ==> Row(filter, block, old(cursor), r) == [] && cursor == |block| && current == old(current)
    {
      hide Passes;
      while cursor < |block|
        invariant old(cursor) <= cursor <= |block| && current == old(current)
        invariant Row(filter, block, old(cursor), r) == Row(filter, block, cursor, r)
      {
        var rec := block[cursor] + r;
        cursor := cursor + 1;
        if Passes(filter, rec) {
          current := Some(rec);
          return true;
        }
      }
      return false;
    }

    /** One round of the middle loop: the current right tuple against the rest of the block. */
    method MatchOneRight() returns (found: bool)
      requires Valid() && block != [] && right.pos < |right.rows|
      modifies this`cursor, this`current, this`rightTuple, right
      ensures Valid()
      ensures found ==> current.Some? && old(BlockRest()) == [current.value] + BlockRest()
      ensures !found ==> BlockRest() == old(BlockRest()) && right.pos == old(right.pos) + 1 && current == old(current)
    {
      hide Row;
      hide BlockJoin;
      if rightTuple.None? { rightTuple := right.Next(); }
      ghost var k := cursor;
      found := MatchInBlock(rightTuple.value);
      if found {
        RowFound(filter, block, k, cursor, right.rows, right.pos, current.value);
        return true;
      }
      RowDone(filter, block, k, right.rows, right.pos);
      right.NextTuple();
      rightTuple, cursor := None, 0;
    }

    /** The middle loop: one right tuple after the other, for the loaded block. */
    method MatchInRights() returns (found: bool)
      requires Valid() && block != []
      modifies this`cursor, this`current, this`rightTuple, right
      ensures Valid()
      ensures found ==> current.Some? && old(BlockRest()) == [current.value] + BlockRest()
      ensures !found ==> old(BlockRest()) == [] && right.pos == |right.rows| && current == old(current)
    {
      hide Row;
      hide BlockJoin;
      hide InBlock;
      while right.pos < |right.rows|
        invariant Valid() && BlockRest() == old(BlockRest()) && current == old(current)
        decreases |right.rows| - right.pos
      {
        found := MatchOneRight();
        if found { return true; }
      }
      BlockDone(filter, block, cursor, right.rows);
      return false;
    }

    /** The load branch: an empty block is refilled and the right side starts over; false at the end of the left
        side. */
    method LoadNext() returns (some: bool)
      requires Valid() && block == []
      modifies this`block, this`cursor, this`rightTuple, left, right
      ensures Valid()
      ensures some ==> block != [] && Rest() == old(Rest()) && left.pos > old(left.pos)
      ensures !some ==> old(Rest()) == []
    {
      hide Row;
      hide BlockJoin;
      hide JoinFrom;
      hide InBlock;
      ghost var at := left.pos;
      NoBlock();
      NothingLeft(left.rows, right.rows);
      some := LoadLeftBlock();
      if some {
        right.BeginTuple();
        rightTuple := None;
        Loaded(at);
      }
    }

    /** The match branch: the next tuple of the block, or the block is done and cleared. */
    method MatchOrClear() returns (found: bool)
      requires Valid() && block != []
      modifies this`block, this`cursor, this`current, this`rightTuple, right
      ensures Valid()
      ensures found ==> current.Some? && old(Rest()) == [current.value] + Rest()
      ensures !found ==> block == [] && Rest() == old(Rest()) && current == old(current)
    {
      hide Row;
      hide BlockJoin;
      hide JoinFrom;
      hide InBlock;
      ghost var here, more := BlockRest(), JoinFrom(filter, left.rows, left.pos, right.rows);
      found := MatchInRights();
      if found {
        Regroup(current.value, BlockRest(), more);
        return;
      }
      assert here + more == more;
      block, cursor, rightTuple := [], 0, None;
      NoBlock();
    }

    /** advance_to_match: the next tuple of the rest becomes current, or the join ends; the loop terminates because
        every round uses up left tuples. */
    method AdvanceToMatch()
      requires Valid()
      modifies this, left, right
      ensures Valid() && (isEnd <==> old(Rest()) == [])
      ensures !isEnd ==> current.Some? && old(Rest()) == [current.value] + Rest()
    {
      hide JoinFrom;
      hide InBlock;
      current := None;
      while true
        invariant Valid() && Rest() == old(Rest())
        decreases |left.rows| - left.pos, |block|
      {
        if block == [] {
          var some := LoadNext();
          if !some {
            isEnd := true;
            return;
          }
        }
        var found := MatchOrClear();
        if found {
          isEnd := false;
          return;
        }
      }
    }

    lemma NoBlock()
      requires Valid() && block == []
      ensures Rest() == JoinFrom(filter, left.rows, left.pos, right.rows)
    {
    }

    lemma NothingLeft(lefts: seq<Record>, rights: seq<Record>)
      ensures JoinFrom(filter, lefts, |lefts|, rights) == []
    {
    }

    /** A freshly loaded block stands for its part of the join. */
    lemma Loaded(at: nat)
      requires Valid() && block != [] && at < left.pos && block == left.rows[at..left.pos]
        && |block| == BlockLen(left.rows, at, 0)
      requires right.pos == 0 && cursor == 0
      ensures Rest() == JoinFrom(filter, left.rows, at, right.rows)
    {
      hide Row;
    }

    /** beginTuple: from now on exactly the join of the two inputs is pending, however far an earlier run had got. */
    method BeginTuple()
      requires Valid()
      modifies this, left, right
      ensures Valid() && Pending() == JoinFrom(filter, left.rows, 0, right.rows)
      ensures isEnd <==> Pending() == []
    {
      block, rightTuple, current, cursor := [], None, None, 0;
      left.BeginTuple();
      assert [] + JoinFrom(filter, left.rows, 0, right.rows) == JoinFrom(filter, left.rows, 0, right.rows);
      AdvanceToMatch();
    }

    method NextTuple()
      requires Valid() && (isEnd <==> Pending() == [])
      modifies this, left, right
      ensures Valid() && Pending() == if old(Pending()) == [] then [] else old(Pending())[1..]
      ensures isEnd <==> Pending() == []
    {
      if isEnd { return; }
      AdvanceToMatch();
    }

    method Next() returns (rec: Option<Record>)
      requires Valid() && (isEnd <==> Pending() == [])
      ensures rec == if Pending() == [] then None else Some(Pending()[0])
    {
      if isEnd { return None; }
      return current;
    }
  }

  lemma MoveOne(out: seq<Record>, pending: seq<Record>)
    requires pending != []
    ensures out + pending == (out + [pending[0]]) + pending[1..]
  {
  }

  /** A full run: it terminates and emits the join; a second run emits the same sequence again. */
  method RunJoin(join: NestedLoopJoin) returns (out: seq<Record>)
    requires join.Valid()
    modifies join, join.left, join.right
    ensures join.Valid() && out == JoinFrom(join.filter, join.left.rows, 0, join.right.rows)
  {
    hide JoinFrom;
    hide NestedLoopJoin.Valid;
    hide NestedLoopJoin.Rest;
    hide NestedLoopJoin.Pending;
    join.BeginTuple();
    out := [];
    ghost var all := join.Pending();
    while !join.isEnd
      invariant join.Valid() && (join.isEnd <==> join.Pending() == []) && all == out + join.Pending()
      decreases |join.Pending()|
    {
      var rec := join.Next();
      MoveOne(out, join.Pending());
      out := out + [rec.value];
      join.NextTuple();
    }
    assert all == out;
  }
}
