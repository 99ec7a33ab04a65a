/** The no-wait lock table (src/transaction/concurrency/lock_manager.cpp).
    Every latched method is one atomic step. */
module Locking {
  import opened Types

  datatype LockMode = Shared | Exclusive | IntentionShared | IntentionExclusive | SharedIntentionExclusive

  datatype LockRequest = LockRequest(txn: TxnId, mode: LockMode, granted: bool)

  datatype GroupMode = NonLock | IS | IX | S | X | SIX

  datatype Queue = Queue(requests: seq<LockRequest>, group: GroupMode)

  datatype LockDataId = TableLock(tab: TableName) | RecordLock(tab: TableName, rid: Rid)

  type LockTable = map<LockDataId, Queue>

  datatype LockOutcome = Granted | LockOnShrinking | DeadlockPrevention

  predicate Compatible(requested: LockMode, granted: LockMode) {
    match requested
    case IntentionShared => granted != Exclusive
    case IntentionExclusive => granted == IntentionShared || granted == IntentionExclusive
    case Shared => granted == IntentionShared || granted == Shared
    case _ => false
  }

  predicate StrongerOrEqual(held: LockMode, requested: LockMode) {
    if held == requested || held == Exclusive then true
    else if held == SharedIntentionExclusive then requested != Exclusive
    else if held == Shared then requested == IntentionShared
    else if held == IntentionExclusive then requested == IntentionShared
    else false
  }

  /** The modes the public lock_* calls can ask for. */
  predicate Requestable(mode: LockMode) {
    mode != SharedIntentionExclusive
  }

  // ---------------------------------------------------------------- group mode

  predicate Has(q: seq<LockRequest>, mode: LockMode) {
    exists i :: 0 <= i < |q| && q[i].granted && q[i].mode == mode
  }

  function GroupOf(q: seq<LockRequest>): GroupMode {
    if Has(q, Exclusive) then X
    else if Has(q, SharedIntentionExclusive) || (Has(q, Shared) && Has(q, IntentionExclusive)) then SIX
    else if Has(q, Shared) then S
    else if Has(q, IntentionExclusive) then IX
    else if Has(q, IntentionShared) then IS
    else NonLock
  }

  function AsGroup(mode: LockMode): GroupMode {
    match mode
    case Shared => S
    case Exclusive => X
    case IntentionShared => IS
    case IntentionExclusive => IX
    case SharedIntentionExclusive => SIX
  }

  /** The lattice of multi-granularity modes: NonLock < IS < {IX, S} < SIX < X. */
  predicate Below(a: GroupMode, b: GroupMode) {
    a == b || a == NonLock || b == X || (b == SIX && a != X) || (a == IS && b != NonLock)
  }

  predicate UpperBound(q: seq<LockRequest>, g: GroupMode) {
    forall i :: 0 <= i < |q| && q[i].granted ==> Below(AsGroup(q[i].mode), g)
  }

  /** The stored group mode is the least upper bound of the granted modes. */
  lemma GroupIsLeastUpperBound(q: seq<LockRequest>, g: GroupMode)
    ensures UpperBound(q, GroupOf(q))
    ensures UpperBound(q, g) ==> Below(GroupOf(q), g)
  {
    forall i | 0 <= i < |q| && q[i].granted
      ensures Below(AsGroup(q[i].mode), GroupOf(q))
    {
      assert Has(q, q[i].mode);
    }
  }

  method ComputeGroupMode(q: seq<LockRequest>) returns (g: GroupMode)
    ensures g == GroupOf(q)
  {
    var hasIs, hasIx, hasS, hasX, hasSix := false, false, false, false, false;
    for i := 0 to |q|
      invariant hasIs == Has(q[..i], IntentionShared)
      invariant hasIx == Has(q[..i], IntentionExclusive)
      invariant hasS == Has(q[..i], Shared)
      invariant hasX == Has(q[..i], Exclusive)
      invariant hasSix == Has(q[..i], SharedIntentionExclusive)
    {
      HasSnoc(q, i);
      if q[i].granted {
        hasIs := hasIs || q[i].mode == IntentionShared;
        hasIx := hasIx || q[i].mode == IntentionExclusive;
        hasS := hasS || q[i].mode == Shared;
        hasX := hasX || q[i].mode == Exclusive;
        hasSix := hasSix || q[i].mode == SharedIntentionExclusive;
      }
    }
    assert q[..|q|] == q;
    if hasX { return X; }
    if hasSix || (hasS && hasIx) { return SIX; }
    if hasS { return S; }
    if hasIx { return IX; }
    if hasIs { return IS; }
    return NonLock;
  }

  lemma HasSnoc(q: seq<LockRequest>, i: nat)
    requires i < |q|
    ensures forall m :: Has(q[..i + 1], m) <==> Has(q[..i], m) || (q[i].granted && q[i].mode == m)
  {
    forall m ensures Has(q[..i + 1], m) <==> Has(q[..i], m) || (q[i].granted && q[i].mode == m) {
      if Has(q[..i], m) {
        var k :| 0 <= k < i && q[..i][k].granted && q[..i][k].mode == m;
        assert q[..i + 1][k] == q[..i][k];
      }
      if q[i].granted && q[i].mode == m {
        assert q[..i + 1][i] == q[i];
      }
      if Has(q[..i + 1], m) {
        var k :| 0 <= k < i + 1 && q[..i + 1][k].granted && q[..i + 1][k].mode == m;
        if k < i { assert q[..i][k] == q[..i + 1][k]; }
      }
    }
  }

  // ------------------------------------------------------- lock table transitions

  function QueueAt(table: LockTable, id: LockDataId): Queue {
    if id in table then table[id] else Queue([], NonLock)
  }

  /** Index of the first request of t, or |q|. */
  function Find(q: seq<LockRequest>, t: TxnId): (i: nat)
    ensures i <= |q|
    ensures i < |q| ==> q[i].txn == t
    ensures forall j :: 0 <= j < i ==> q[j].txn != t
  {
    if |q| == 0 then 0 else if q[0].txn == t then 0 else 1 + Find(q[1..], t)
  }

  predicate Conflict(q: seq<LockRequest>, t: TxnId, mode: LockMode) {
    exists i :: 0 <= i < |q| && q[i].granted && q[i].txn != t && !Compatible(mode, q[i].mode)
  }

  /** Effect of lock() on the table; None is the no-wait refusal. */
  function Acquire(table: LockTable, t: TxnId, id: LockDataId, mode: LockMode): Option<LockTable> {
    var q := QueueAt(table, id).requests;
    var self := Find(q, t);
    if self < |q| && StrongerOrEqual(q[self].mode, mode) then Some(table)
    else if Conflict(q, t, mode) then None
    else
      var q' := Grant(q, t, mode);
      Some(table[id := Queue(q', GroupOf(q'))])
  }

  /** The queue with t's request overwritten, or appended when t has none. */
  function Grant(q: seq<LockRequest>, t: TxnId, mode: LockMode): seq<LockRequest> {
    var self := Find(q, t);
    if self < |q| then q[self := q[self].(mode := mode)] else q + [LockRequest(t, mode, true)]
  }

  function Remove(q: seq<LockRequest>, i: nat): seq<LockRequest>
    requires i < |q|
  {
    q[..i] + q[i + 1..]
  }

  /** Effect of unlock() on the table; None when it returns false. */
  function Release(table: LockTable, t: TxnId, id: LockDataId): Option<LockTable> {
    if id !in table then None
    else
      var q := table[id].requests;
      var i := Find(q, t);
      if i == |q| then None
      else
        var q' := Remove(q, i);
        if q' == [] then Some(table - {id}) else Some(table[id := Queue(q', GroupOf(q'))])
  }

  function FoundMode(q: seq<LockRequest>, t: TxnId): Option<LockMode> {
    var i := Find(q, t);
    if i < |q| then Some(q[i].mode) else None
  }

  /** The mode in which t holds id, if any. */
  function HeldMode(table: LockTable, t: TxnId, id: LockDataId): Option<LockMode> {
    FoundMode(QueueAt(table, id).requests, t)
  }

  // ------------------------------------------------------------------ invariant

  ghost predicate RequestsOk(q: seq<LockRequest>) {
    && (forall i :: 0 <= i < |q| ==> q[i].granted && Requestable(q[i].mode))
    && (forall i, j :: 0 <= i < |q| && 0 <= j < |q| && i != j ==>
          q[i].txn != q[j].txn && Compatible(q[i].mode, q[j].mode))
  }

  ghost predicate QueueOk(q: Queue) {
    q.requests != [] && RequestsOk(q.requests) && q.group == GroupOf(q.requests)
  }

  ghost predicate TableOk(table: LockTable) {
    forall id :: id in table ==> QueueOk(table[id])
  }

  lemma FindAt(q: seq<LockRequest>, i: nat)
    requires i < |q|
    requires forall j :: 0 <= j < i ==> q[j].txn != q[i].txn
    ensures Find(q, q[i].txn) == i
  {
  }

  /** In a well-formed queue the request at i is the one found for its transaction. */
  lemma HeldAt(table: LockTable, id: LockDataId, i: nat)
    requires TableOk(table) && id in table && i < |table[id].requests|
    ensures HeldMode(table, table[id].requests[i].txn, id) == Some(table[id].requests[i].mode)
  {
    FindAt(table[id].requests, i);
  }

  lemma GrantOk(q: seq<LockRequest>, t: TxnId, mode: LockMode)
    requires RequestsOk(q) && Requestable(mode) && !Conflict(q, t, mode)
    ensures RequestsOk(Grant(q, t, mode)) && Grant(q, t, mode) != []
    ensures forall u :: FoundMode(Grant(q, t, mode), u) == if u == t then Some(mode) else FoundMode(q, u)
  {
    hide Find;
    var q', self := Grant(q, t, mode), Find(q, t);
    assert q'[self] == LockRequest(t, mode, true);
    forall i | 0 <= i < |q'| && i != self
      ensures q'[i].txn != t && Compatible(q'[i].mode, mode) && Compatible(mode, q'[i].mode)
    {
      CompatibleSymmetric(q[i].mode, mode);
    }
    forall u ensures FoundMode(q', u) == if u == t then Some(mode) else FoundMode(q, u) {
      if u == t { FindAt(q', self); }
      else if Find(q, u) < |q| { FindAt(q', Find(q, u)); }
    }
  }

  /** lock(): the invariant is kept, the requester ends with the mode it held if that covers the
      request and with the requested one otherwise, and no other holding changes. */
  lemma AcquireEffect(table: LockTable, t: TxnId, id: LockDataId, mode: LockMode)
    requires TableOk(table) && Requestable(mode)
    requires Acquire(table, t, id, mode).Some?
    ensures var table' := Acquire(table, t, id, mode).value;
      && TableOk(table')
      && HeldMode(table', t, id) ==
           (var h := HeldMode(table, t, id);
            if h.Some? && StrongerOrEqual(h.value, mode) then h else Some(mode))
      && (forall u, id2 :: (u, id2) != (t, id) ==> HeldMode(table', u, id2) == HeldMode(table, u, id2))
  {
    var q := QueueAt(table, id).requests;
    var self := Find(q, t);
    if !(self < |q| && StrongerOrEqual(q[self].mode, mode)) {
      assert RequestsOk(q);
      GrantOk(q, t, mode);
    }
  }

  /** lock() refuses exactly when some other transaction holds an incompatible mode and the
      requester does not already hold a mode that covers the request. */
  lemma AcquireRefusesIff(table: LockTable, t: TxnId, id: LockDataId, mode: LockMode)
    requires TableOk(table)
    ensures Acquire(table, t, id, mode).None? <==>
            (var h := HeldMode(table, t, id);
             && !(h.Some? && StrongerOrEqual(h.value, mode))
             && exists u :: u != t && HeldMode(table, u, id).Some? && !Compatible(mode, HeldMode(table, u, id).value))
  {
    var q := QueueAt(table, id).requests;
    if Conflict(q, t, mode) {
      var i :| 0 <= i < |q| && q[i].granted && q[i].txn != t && !Compatible(mode, q[i].mode);
      HeldAt(table, id, i);
    }
  }

  /** Where the k-th remaining request stood before the i-th was removed. */
  function Shift(i: nat, k: nat): nat { if k < i then k else k + 1 }

  lemma RemoveOk(q: seq<LockRequest>, i: nat)
    requires RequestsOk(q) && i < |q|
    ensures RequestsOk(Remove(q, i))
  {
    hide Compatible;
    hide Requestable;
    var q' := Remove(q, i);
    forall k | 0 <= k < |q'| ensures q'[k] == q[Shift(i, k)] {}
    forall k | 0 <= k < |q'| ensures q'[k].granted && Requestable(q'[k].mode) { assert q'[k] == q[Shift(i, k)]; }
    forall j, k | 0 <= j < |q'| && 0 <= k < |q'| && j != k
      ensures q'[j].txn != q'[k].txn && Compatible(q'[j].mode, q'[k].mode)
    {
      assert Shift(i, j) != Shift(i, k);
      assert q'[j] == q[Shift(i, j)] && q'[k] == q[Shift(i, k)];
    }
  }

  lemma RemoveFinds(q: seq<LockRequest>, t: TxnId, u: TxnId)
    requires RequestsOk(q) && Find(q, t) < |q|
    ensures FoundMode(Remove(q, Find(q, t)), u) == if u == t then None else FoundMode(q, u)
  {
    hide Find;
    hide Compatible;
    hide Requestable;
    var i, j := Find(q, t), Find(q, u);
    var q' := Remove(q, i);
    assert forall k :: 0 <= k < |q'| ==> q'[k] == q[Shift(i, k)];
    if u != t && j < |q| {
      FindAt(q', if j < i then j else j - 1);
    }
  }

  /** unlock(): fails exactly when nothing is held; otherwise it removes one holding, keeps the invariant
      and drops the item when its queue becomes empty. */
  lemma ReleaseEffect(table: LockTable, t: TxnId, id: LockDataId)
    requires TableOk(table)
    ensures Release(table, t, id).None? <==> HeldMode(table, t, id).None?
    ensures Release(table, t, id).Some? ==>
            var table' := Release(table, t, id).value;
            && TableOk(table')
            && HeldMode(table', t, id).None?
            && (forall u, id2 :: (u, id2) != (t, id) ==> HeldMode(table', u, id2) == HeldMode(table, u, id2))
  {
    hide Find;
    hide GroupOf;
    hide Compatible;
    if Release(table, t, id).Some? {
      var q := table[id].requests;
      RemoveOk(q, Find(q, t));
      forall u ensures HeldMode(Release(table, t, id).value, u, id) == if u == t then None else HeldMode(table, u, id) {
        RemoveFinds(q, t, u);
      }
    }
  }

  /** Compatibility is symmetric over the requestable modes, so "pairwise compatible" has no direction. */
  lemma CompatibleSymmetric(a: LockMode, b: LockMode)
    requires Requestable(a) && Requestable(b)
    ensures Compatible(a, b) <==> Compatible(b, a)
  {
  }

  /** A table lock held in mode X excludes every other holder. */
  lemma ExclusiveExcludes(table: LockTable, t: TxnId, u: TxnId, id: LockDataId)
    requires TableOk(table) && t != u
    requires HeldMode(table, t, id) == Some(Exclusive)
    ensures HeldMode(table, u, id).None?
  {
  }

  /** A lock upgrade overwrites the held mode. It keeps what was held except in exactly two cases:
      S then IX, and IX then S. */
  lemma UpgradeKeepsHeldIff(table: LockTable, t: TxnId, id: LockDataId, mode: LockMode)
    requires TableOk(table) && Requestable(mode)
    requires HeldMode(table, t, id).Some? && Acquire(table, t, id, mode).Some?
    ensures var held, after := HeldMode(table, t, id).value, HeldMode(Acquire(table, t, id, mode).value, t, id);
      && after.Some?
      && (StrongerOrEqual(after.value, held)
      <==> !((held == Shared && mode == IntentionExclusive) || (held == IntentionExclusive && mode == Shared)))
  {
    AcquireEffect(table, t, id, mode);
    var q := table[id].requests;
    assert Requestable(q[Find(q, t)].mode);
  }

  /** The concrete failure: transaction 0 holds S on an item, so transaction 1 is refused IX; after 0 asks for IX as
      well, its S is gone and 1 is granted IX beside it. */
  lemma SharedLostOnUpgrade(id: LockDataId)
    ensures var s := Acquire(map[], 0, id, Shared);
      && s.Some? && HeldMode(s.value, 0, id) == Some(Shared)
      && Acquire(s.value, 1, id, IntentionExclusive).None?
      && var up := Acquire(s.value, 0, id, IntentionExclusive);
      && up.Some? && HeldMode(up.value, 0, id) == Some(IntentionExclusive)
      && Acquire(up.value, 1, id, IntentionExclusive).Some?
  {
    hide Acquire;
    hide TableOk;
    EmptyTable(id);
    AcquireRefusesIff(map[], 0, id, Shared);
    AcquireEffect(map[], 0, id, Shared);
    var s := Acquire(map[], 0, id, Shared).value;
    AcquireRefusesIff(s, 1, id, IntentionExclusive);
    AcquireRefusesIff(s, 0, id, IntentionExclusive);
    AcquireEffect(s, 0, id, IntentionExclusive);
    var up := Acquire(s, 0, id, IntentionExclusive).value;
    AcquireRefusesIff(up, 1, id, IntentionExclusive);
    assert !Compatible(IntentionExclusive, Shared) && Compatible(IntentionExclusive, IntentionExclusive);
  }

  lemma EmptyTable(id: LockDataId)
    ensures TableOk(map[]) && forall u :: HeldMode(map[], u, id).None?
  {
  }

  // ------------------------------------------------------------------ whole runs

  /** The lock table together with every transaction's lock set. */
  datatype LockState = LockState(table: LockTable, sets: map<TxnId, set<LockDataId>>)

  function SetOf(s: LockState, t: TxnId): set<LockDataId> {
    if t in s.sets then s.sets[t] else {}
  }

  datatype LockStep = LockIt(t: TxnId, id: LockDataId, mode: LockMode) | UnlockIt(t: TxnId, id: LockDataId)

  function DoLock(s: LockState, t: TxnId, id: LockDataId, mode: LockMode): LockState {
    var r := Acquire(s.table, t, id, mode);
    if r.None? then s else LockState(r.value, s.sets[t := SetOf(s, t) + {id}])
  }

  function DoUnlock(s: LockState, t: TxnId, id: LockDataId): LockState {
    var r := Release(s.table, t, id);
    if r.None? then s else LockState(r.value, s.sets[t := SetOf(s, t) - {id}])
  }

  function ApplyStep(s: LockState, step: LockStep): LockState {
    match step
    case LockIt(t, id, mode) => DoLock(s, t, id, mode)
    case UnlockIt(t, id) => DoUnlock(s, t, id)
  }

  function Run(s: LockState, steps: seq<LockStep>): LockState {
    if steps == [] then s else ApplyStep(Run(s, steps[..|steps| - 1]), steps[|steps| - 1])
  }

  /** Queues well formed, and every lock set is exactly the transaction's queue memberships. */
  ghost predicate LocksOk(s: LockState) {
    && TableOk(s.table)
    && (forall t, id :: id in SetOf(s, t) <==> HeldMode(s.table, t, id).Some?)
  }

  lemma DoKeepsLocksOk(s: LockState, step: LockStep)
    requires LocksOk(s)
    requires step.LockIt? ==> Requestable(step.mode)
    ensures LocksOk(ApplyStep(s, step))
  {
    hide TableOk;
    hide HeldMode;
    hide Acquire;
    hide Release;
    match step
    case LockIt(t, id, mode) => if Acquire(s.table, t, id, mode).Some? { AcquireEffect(s.table, t, id, mode); }
    case UnlockIt(t, id) => ReleaseEffect(s.table, t, id);
  }

  /** The lock-table invariant holds after every run of lock and unlock calls. */
  lemma {:induction false} LocksOkInEveryRun(steps: seq<LockStep>)
    requires forall i :: 0 <= i < |steps| && steps[i].LockIt? ==> Requestable(steps[i].mode)
    ensures LocksOk(Run(LockState(map[], map[]), steps))
  {
    if steps == [] {
    } else {
      LocksOkInEveryRun(steps[..|steps| - 1]);
      DoKeepsLocksOk(Run(LockState(map[], map[]), steps[..|steps| - 1]), steps[|steps| - 1]);
    }
  }

  // ------------------------------------------------------------------ the object

  datatype TransactionState = Default | Growing | Shrinking | Committed | Aborted

  class Transaction {
    const id: TxnId
    var state: TransactionState
    var lockSet: set<LockDataId>
    var writeSet: seq<WriteRecord>
    var prevLsn: int
    var startTs: nat

    constructor (txnId: TxnId)
      ensures id == txnId && state == Default && lockSet == {} && writeSet == [] && prevLsn == INVALID_LSN
    {
      id, state, lockSet, writeSet, prevLsn, startTs := txnId, Default, {}, [], INVALID_LSN, 0;
    }
  }

  class LockManager {
    var table: LockTable

    constructor ()
      ensures table == map[]
    {
      table := map[];
    }

    /** lock(): a null transaction is always granted, a shrinking one is refused,
        otherwise the outcome and the new table are those of Acquire. */
    method Lock(txn: Transaction?, id: LockDataId, mode: LockMode) returns (r: LockOutcome)
      requires TableOk(table)
      modifies this, if txn == null then {} else {txn}
      ensures txn == null ==> r == Granted && table == old(table)
      ensures txn != null ==>
        txn.state == old(txn.state) && txn.writeSet == old(txn.writeSet) && txn.prevLsn == old(txn.prevLsn)
      ensures txn != null && old(txn.state) == Shrinking ==>
                r == LockOnShrinking && table == old(table) && txn.lockSet == old(txn.lockSet)
      ensures txn != null && old(txn.state) != Shrinking ==>
                match Acquire(old(table), txn.id, id, mode)
                case None => r == DeadlockPrevention && table == old(table) && txn.lockSet == old(txn.lockSet)
                case Some(table') => r == Granted && table == table' && txn.lockSet == old(txn.lockSet) + {id}
    {
      hide GroupOf;
      hide Find;
      if txn == null { return Granted; }
      if txn.state == Shrinking { return LockOnShrinking; }
      var queue := QueueAt(table, id);
      var q := queue.requests;
      var self := FindGranted(q, txn.id);
      if self < |q| && StrongerOrEqual(q[self].mode, mode) {
        txn.lockSet := txn.lockSet + {id};
        return Granted;
      }
      for i := 0 to |q|
        invariant table == old(table) && txn.lockSet == old(txn.lockSet)
        invariant txn.state == old(txn.state) && txn.writeSet == old(txn.writeSet) && txn.prevLsn == old(txn.prevLsn)
        invariant forall j :: 0 <= j < i ==> !(q[j].granted && q[j].txn != txn.id && !Compatible(mode, q[j].mode))
      {
        if q[i].granted && q[i].txn != txn.id && !Compatible(mode, q[i].mode) {
          return DeadlockPrevention;
        }
      }
      if self < |q| {
        q := q[self := q[self].(mode := mode)];
      } else {
        q := q + [LockRequest(txn.id, mode, true)];
      }
      var group := ComputeGroupMode(q);
      table := table[id := Queue(q, group)];
      txn.lockSet := txn.lockSet + {id};
      return Granted;
    }

    /** unlock(): false exactly when Release is undefined; a growing transaction starts to shrink. */
    method Unlock(txn: Transaction?, id: LockDataId) returns (ok: bool)
      requires TableOk(table)
      modifies this, if txn == null then {} else {txn}
      ensures txn == null ==> ok && table == old(table)
      ensures txn != null ==> txn.writeSet == old(txn.writeSet) && txn.prevLsn == old(txn.prevLsn)
      ensures txn != null ==>
                match Release(old(table), txn.id, id)
                case None => !ok && table == old(table) && txn.lockSet == old(txn.lockSet)
                  && txn.state == old(txn.state)
                case Some(table') =>
                  && ok && table == table' && txn.lockSet == old(txn.lockSet) - {id}
                  && txn.state == (if old(txn.state) == Growing then Shrinking else old(txn.state))
    {
      hide GroupOf;
      hide Find;
      if txn == null { return true; }
      if id !in table { return false; }
      var q := table[id].requests;
      var i := FindGranted(q, txn.id);
      if i == |q| { return false; }
      q := Remove(q, i);
      var group := ComputeGroupMode(q);
      table := table[id := Queue(q, group)];
      if q == [] {
        table := table - {id};
        assert table == old(table) - {id};
      }
      txn.lockSet := txn.lockSet - {id};
      if txn.state == Growing { txn.state := Shrinking; }
      return true;
    }

    /** The release loop that ends commit() and abort(): afterwards the transaction is in no queue,
        everybody else holds what they held, and the lock-table invariant still holds. */
    method UnlockAll(txn: Transaction)
      requires TableOk(table)
      requires forall id :: id in txn.lockSet <==> HeldMode(table, txn.id, id).Some?
      requires txn.state == Committed || txn.state == Aborted
      modifies this, txn
      ensures TableOk(table) && txn.lockSet == {}
      ensures forall id :: HeldMode(table, txn.id, id).None?
      ensures forall u, id :: u != txn.id ==> HeldMode(table, u, id) == HeldMode(old(table), u, id)
      ensures txn.state == old(txn.state) && txn.writeSet == old(txn.writeSet) && txn.prevLsn == old(txn.prevLsn)
    {
      hide TableOk;
      hide HeldMode;
      hide Release;
      var locks := txn.lockSet;
      while locks != {}
        invariant TableOk(table) && locks == txn.lockSet
        invariant forall id :: id in txn.lockSet <==> HeldMode(table, txn.id, id).Some?
        invariant forall u, id :: u != txn.id ==> HeldMode(table, u, id) == HeldMode(old(table), u, id)
        invariant txn.state == old(txn.state) && txn.writeSet == old(txn.writeSet) && txn.prevLsn == old(txn.prevLsn)
        decreases |locks|
      {
        var id :| id in locks;
        locks := locks - {id};
        ReleaseEffect(table, txn.id, id);
        var _ := Unlock(txn, id);
      }
    }
  }

  /** The std::find_if of lock() and unlock(); in a well-formed queue every request is granted. */
  method FindGranted(q: seq<LockRequest>, t: TxnId) returns (i: nat)
    ensures i <= |q|
    ensures RequestsOk(q) ==> i == Find(q, t)
  {
    i := 0;
    while i < |q| && !(q[i].txn == t && q[i].granted)
      invariant i <= |q|
      invariant RequestsOk(q) ==> forall j :: 0 <= j < i ==> q[j].txn != t
    {
      i := i + 1;
    }
    if RequestsOk(q) { if i < |q| { FindAt(q, i); } }
  }
}
