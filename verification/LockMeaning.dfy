/** What the lock modes stand for (src/transaction/concurrency/lock_manager.cpp): which accesses a mode allows, and that
    the compatibility matrix and the strength test say exactly what those accesses imply. */
module LockMeaning {
  import opened Types
  import opened Locking

  /** An access to the whole item, or to parts of it that are locked one by one. */
  datatype Scope = Whole | Parts

  datatype Access = Access(scope: Scope, write: bool)

  /** What a holder of the mode may do. */
  function Accesses(mode: LockMode): set<Access> {
    match mode
    case Shared => {Access(Whole, false)}
    case Exclusive => {Access(Whole, false), Access(Whole, true)}
    case IntentionShared => {Access(Parts, false)}
    case IntentionExclusive => {Access(Parts, false), Access(Parts, true)}
    case SharedIntentionExclusive => {Access(Whole, false), Access(Parts, false), Access(Parts, true)}
  }

  /** One of them writes, and they are not both to parts, where the locks of the parts decide. */
  predicate Interfere(a: Access, b: Access) { (a.write || b.write) && !(a.scope == Parts && b.scope == Parts) }

  /** A requestable mode is compatible with a granted one exactly when no access of the one interferes with an access of
      the other. */
  lemma CompatibleIff(requested: LockMode, granted: LockMode)
    requires Requestable(requested)
    ensures Compatible(requested, granted) <==>
      forall a, b :: a in Accesses(requested) && b in Accesses(granted) ==> !Interfere(a, b)
  {
    if !Compatible(requested, granted) {
      var a := if requested == Exclusive then Access(Whole, true) else if requested == IntentionExclusive
        then Access(Parts, true) else if requested == Shared then Access(Whole, false) else Access(Parts, false);
      var b := if granted == Exclusive then Access(Whole, true) else if granted == Shared then Access(Whole, false)
        else if granted == IntentionShared then Access(Parts, false)
        else if requested == IntentionExclusive then Access(Whole, false) else Access(Parts, true);
      assert a in Accesses(requested) && b in Accesses(granted) && Interfere(a, b);
    }
  }

  /** A holder of the mode may do it: directly, or because it may do it to the whole item. */
  predicate Allows(mode: LockMode, a: Access) {
    a in Accesses(mode) || (a.scope == Parts && Access(Whole, a.write) in Accesses(mode))
  }

  /** A held mode counts as strong enough exactly when it allows everything that the requested mode allows. */
  lemma StrongerIff(held: LockMode, requested: LockMode)
    ensures StrongerOrEqual(held, requested) <==> forall a :: a in Accesses(requested) ==> Allows(held, a)
  {
    if !StrongerOrEqual(held, requested) {
      var a := if requested == Exclusive then Access(Whole, true)
        else if requested == Shared then Access(Whole, false)
        else if requested == IntentionShared then Access(Parts, false)
        else if held == IntentionExclusive then Access(Whole, false) else Access(Parts, true);
      assert a in Accesses(requested) && !Allows(held, a);
    }
  }

  /** The lattice of group modes is that order. */
  lemma BelowIff(a: LockMode, b: LockMode)
    ensures Below(AsGroup(a), AsGroup(b)) <==> forall x :: x in Accesses(a) ==> Allows(b, x)
    ensures Below(NonLock, AsGroup(a)) && !Below(AsGroup(a), NonLock)
  {
    StrongerIff(b, a);
  }

  // ---------------------------------------------------------------------- refusals, mode by mode

  ghost predicate Holds(table: LockTable, t: TxnId, id: LockDataId, mode: LockMode) {
    HeldMode(table, t, id) == Some(mode)
  }

  lemma HeldRequestable(table: LockTable, t: TxnId, id: LockDataId)
    requires TableOk(table)
    ensures HeldMode(table, t, id).Some? ==> Requestable(HeldMode(table, t, id).value)
  {
    if id in table { assert QueueOk(table[id]); }
  }

  /** A request for S is refused exactly when the requester holds neither S nor X and somebody else holds X or IX. */
  lemma SharedRefusedIff(table: LockTable, t: TxnId, id: LockDataId)
    requires TableOk(table)
    ensures Acquire(table, t, id, Shared).None? <==>
      && !Holds(table, t, id, Shared) && !Holds(table, t, id, Exclusive)
      && exists u :: u != t && (Holds(table, u, id, Exclusive) || Holds(table, u, id, IntentionExclusive))
  {
    hide HeldMode;
    hide Acquire;
    AcquireRefusesIff(table, t, id, Shared);
    HeldRequestable(table, t, id);
    if Acquire(table, t, id, Shared).None? {
      var u :| u != t && HeldMode(table, u, id).Some? && !Compatible(Shared, HeldMode(table, u, id).value);
      HeldRequestable(table, u, id);
      assert Holds(table, u, id, Exclusive) || Holds(table, u, id, IntentionExclusive);
    } else if u :| u != t && (Holds(table, u, id, Exclusive) || Holds(table, u, id, IntentionExclusive)) {
      assert !Compatible(Shared, HeldMode(table, u, id).value);
    }
  }

  /** A request for X is refused exactly when the requester does not hold X and somebody else holds anything. */
  lemma ExclusiveRefusedIff(table: LockTable, t: TxnId, id: LockDataId)
    requires TableOk(table)
    ensures Acquire(table, t, id, Exclusive).None? <==>
      !Holds(table, t, id, Exclusive) && exists u :: u != t && HeldMode(table, u, id).Some?
  {
    hide HeldMode;
    hide Acquire;
    AcquireRefusesIff(table, t, id, Exclusive);
    HeldRequestable(table, t, id);
  }

  /** A request for IS is refused exactly when the requester holds nothing and somebody else holds X. */
  lemma IntentionSharedRefusedIff(table: LockTable, t: TxnId, id: LockDataId)
    requires TableOk(table)
    ensures Acquire(table, t, id, IntentionShared).None? <==>
      HeldMode(table, t, id).None? && exists u :: u != t && Holds(table, u, id, Exclusive)
  {
    hide HeldMode;
    hide Acquire;
    AcquireRefusesIff(table, t, id, IntentionShared);
    HeldRequestable(table, t, id);
    if Acquire(table, t, id, IntentionShared).None? {
      var u :| u != t && HeldMode(table, u, id).Some? && !Compatible(IntentionShared, HeldMode(table, u, id).value);
      HeldRequestable(table, u, id);
      assert Holds(table, u, id, Exclusive);
    } else if u :| u != t && Holds(table, u, id, Exclusive) {
      assert !Compatible(IntentionShared, HeldMode(table, u, id).value);
    }
  }

  /** A request for IX is refused exactly when the requester holds neither IX nor X and somebody else holds S or X. */
  lemma IntentionExclusiveRefusedIff(table: LockTable, t: TxnId, id: LockDataId)
    requires TableOk(table)
    ensures Acquire(table, t, id, IntentionExclusive).None? <==>
      && !Holds(table, t, id, IntentionExclusive) && !Holds(table, t, id, Exclusive)
      && exists u :: u != t && (Holds(table, u, id, Exclusive) || Holds(table, u, id, Shared))
  {
    hide HeldMode;
    hide Acquire;
    AcquireRefusesIff(table, t, id, IntentionExclusive);
    HeldRequestable(table, t, id);
    if Acquire(table, t, id, IntentionExclusive).None? {
      var u :| u != t && HeldMode(table, u, id).Some? && !Compatible(IntentionExclusive, HeldMode(table, u, id).value);
      HeldRequestable(table, u, id);
      assert Holds(table, u, id, Exclusive) || Holds(table, u, id, Shared);
    } else if u :| u != t && (Holds(table, u, id, Exclusive) || Holds(table, u, id, Shared)) {
      assert !Compatible(IntentionExclusive, HeldMode(table, u, id).value);
    }
  }

  // ------------------------------------------------------------------------------ many readers

  /** Everybody who holds the item reads it, whole or in parts. */
  ghost predicate OnlyReaders(table: LockTable, id: LockDataId) {
    forall u :: HeldMode(table, u, id).Some? ==> Holds(table, u, id, Shared) || Holds(table, u, id, IntentionShared)
  }

  /** In every state of the lock table without a writer of the item, any transactions can take S on it, one after the
      other, and then hold it together. */
  lemma {:induction false} ReadersShare(s: LockState, id: LockDataId, ts: seq<TxnId>) returns (s': LockState)
    requires LocksOk(s) && OnlyReaders(s.table, id)
    ensures LocksOk(s') && OnlyReaders(s'.table, id)
    ensures forall i :: 0 <= i < |ts| ==> Holds(s'.table, ts[i], id, Shared)
    ensures forall u :: Holds(s.table, u, id, Shared) ==> Holds(s'.table, u, id, Shared)
    ensures LockedByAll(s, id, ts, s')
    decreases |ts|
  {
    hide HeldMode;
    hide Acquire;
    hide LocksOk;
    if ts == [] {
      s' := s;
    } else {
      var t := ts[0];
      var s1 := DoLock(s, t, id, Shared);
      OneReader(s, id, t);
      s' := ReadersShare(s1, id, ts[1..]);
      forall i | 0 <= i < |ts| ensures Holds(s'.table, ts[i], id, Shared) {
        if i > 0 { assert ts[1..][i - 1] == ts[i]; }
      }
    }
  }

  /** s' is s after one lock call for S by each of the transactions, all of them granted. */
  ghost predicate LockedByAll(s: LockState, id: LockDataId, ts: seq<TxnId>, s': LockState)
    decreases |ts|
  {
    if ts == [] then s' == s
    else Acquire(s.table, ts[0], id, Shared).Some? && LockedByAll(DoLock(s, ts[0], id, Shared), id, ts[1..], s')
  }

  lemma OneReader(s: LockState, id: LockDataId, t: TxnId)
    requires LocksOk(s) && OnlyReaders(s.table, id)
    ensures Acquire(s.table, t, id, Shared).Some?
    ensures var s' := DoLock(s, t, id, Shared);
      && LocksOk(s') && OnlyReaders(s'.table, id) && Holds(s'.table, t, id, Shared)
      && forall u :: Holds(s.table, u, id, Shared) ==> Holds(s'.table, u, id, Shared)
  {
    hide HeldMode;
    hide Acquire;
    SharedRefusedIff(s.table, t, id);
    AcquireEffect(s.table, t, id, Shared);
    DoKeepsLocksOk(s, LockIt(t, id, Shared));
  }
}
