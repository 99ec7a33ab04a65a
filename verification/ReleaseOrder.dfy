/** Least recently used, over whole runs of the buffer pool (src/replacer/lru_replacer.cpp and
    src/storage/buffer_pool_manager.cpp): the evictable frames are listed by the step at which each was last released,
    and pin counts are the pins that are still out. */
module ReleaseOrder {
  import opened Types
  import opened Finite
  import opened BufferPool

  // ------------------------------------------------------------------------------ release times

  /** The frame whose last pin the step gives back. */
  function ReleasedFrame(p: Pool, step: PoolStep): Option<nat> {
    match step
    case Unpin(id, _) =>
      if id in p.table && p.table[id] < |p.frames| && p.frames[p.table[id]].pins == 1 then Some(p.table[id]) else None
    case _ => None
  }

  /** The latest of the first k steps that released frame f, or -1. */
  ghost function ReleasedAt(steps: seq<PoolStep>, stores: seq<Store>, k: nat, f: nat): int
    requires k <= |steps| < |stores|
  {
    if k == 0 then -1
    else if ReleasedFrame(stores[k - 1].pool, steps[k - 1]) == Some(f) then k - 1
    else ReleasedAt(steps, stores, k - 1, f)
  }

  lemma {:induction false} ReleasedBefore(steps: seq<PoolStep>, stores: seq<Store>, k: nat, f: nat)
    requires k <= |steps| < |stores|
    ensures -1 <= ReleasedAt(steps, stores, k, f) < k
  {
    if k == 0 {
    } else {
      ReleasedBefore(steps, stores, k - 1, f);
    }
  }

  type Times = nat -> int

  /** The frames are listed by their times, earliest first. */
  ghost predicate ByTime(s: seq<nat>, at: Times) {
    (forall i :: 0 <= i < |s| ==> at(s[i]) >= 0) && forall i, j :: 0 <= i < j < |s| ==> at(s[i]) < at(s[j])
  }

  /** What one step does to the list: nothing, one frame leaves it, or the released frame joins it at the end. */
  lemma {:induction false} RemovedByTime(s: seq<nat>, f: nat, at: Times)
    requires ByTime(s, at)
    ensures ByTime(RemoveFrame(s, f), at) && forall x :: x in RemoveFrame(s, f) ==> x in s
  {
    if s == [] || s[0] == f {
    } else {
      var r := RemoveFrame(s[1..], f);
      assert ByTime(s[1..], at);
      RemovedByTime(s[1..], f, at);
      forall i | 0 <= i < |r| ensures at(s[0]) < at(r[i]) {
        assert r[i] in s[1..];
        var j :| 0 <= j < |s| - 1 && s[1..][j] == r[i];
      }
    }
  }

  lemma AppendedByTime(s: seq<nat>, f: nat, at: Times, at': Times, now: int)
    requires ByTime(s, at) && f !in s && now >= 0 && forall x :: x in s ==> at(x) < now
    requires forall x :: at'(x) == if x == f then now else at(x)
    ensures ByTime(s + [f], at')
  {
    forall i | 0 <= i < |s| ensures at'(s[i]) == at(s[i]) && at(s[i]) < now { assert s[i] in s; }
  }

  ghost function TimesAt(steps: seq<PoolStep>, stores: seq<Store>, k: nat): Times
    requires k <= |steps| < |stores|
  {
    (f: nat) => ReleasedAt(steps, stores, k, f)
  }

  /** The list after a frame left it, or not. */
  ghost predicate OneLeft(s: seq<nat>, s': seq<nat>) {
    s' == s || (s != [] && s' == s[1..]) || exists f :: s' == RemoveFrame(s, f)
  }

  /** Taking a frame for another page takes it off the list, if it is on it. */
  lemma TakenLeaves(p: Pool, id: PageId, data: Data)
    requires Victim(p).Some? && Victim(p).value < |p.frames|
    ensures OneLeft(p.lru, Install(TakeVictim(p), Victim(p).value, id, data).lru)
  {
  }

  /** A step that releases no frame adds none to the list. */
  lemma NoneJoins(s: Store, step: PoolStep)
    requires PoolOk(s.pool) && Possible(s, step) && ReleasedFrame(s.pool, step).None?
    ensures InRange(s.pool) && OneLeft(s.pool.lru, After(s, step).pool.lru)
  {
    hide ZeroPage;
    hide Install;
    hide OneLeft;
    OkInRange(s.pool);
    var p := s.pool;
    SameList(p.lru);
    match step
    case Fetch(id) =>
      if id in p.table { RemovedLeft(p.lru, p.table[id]); }
      else if Victim(p).Some? { TakenLeaves(p, id, p.disk[id]); }
    case New(id) => if Victim(p).Some? { TakenLeaves(p, id, ZeroPage()); }
    case Delete(id) => if id in p.table { RemovedLeft(p.lru, p.table[id]); }
    case _ =>
  }

  lemma SameList(s: seq<nat>)
    ensures OneLeft(s, s)
  {
  }

  lemma RemovedLeft(s: seq<nat>, f: nat)
    ensures OneLeft(s, RemoveFrame(s, f))
  {
  }

  /** The released frame joins the list at the end. */
  lemma ReleasedJoins(s: Store, step: PoolStep, f: nat)
    requires PoolOk(s.pool) && Possible(s, step) && ReleasedFrame(s.pool, step) == Some(f)
    ensures InRange(s.pool) && f !in s.pool.lru && After(s, step).pool.lru == s.pool.lru + [f]
  {
    OkInRange(s.pool);
    assert FrameOk(s.pool, f);
    GuardNeverDrops(s.pool, f);
  }

  /** In every state of every run, the evictable frames are listed by the step at which each was last released. */
  lemma {:induction false} ListedByRelease(n: nat, disk: map<PageId, Data>, steps: seq<PoolStep>, stores: seq<Store>,
      k: nat)
    requires IsPoolRun(steps, stores) && k <= |steps| && stores[0] == FirstStore(n, disk)
    ensures ByTime(stores[k].pool.lru, TimesAt(steps, stores, k))
  {
    hide PoolOk;
    hide Possible;
    hide InRange;
    hide After;
    hide ReleasedFrame;
    if k == 0 {
    } else {
      var j := k - 1;
      ListedByRelease(n, disk, steps, stores, j);
      StoreOkInEveryRun(n, disk, steps, stores, j);
      var p, at, at' := stores[j].pool, TimesAt(steps, stores, j), TimesAt(steps, stores, k);
      assert StepTo(stores[j], steps[j], stores[j + 1]);
      forall x ensures at(x) < j { ReleasedBefore(steps, stores, j, x); }
      match ReleasedFrame(p, steps[j])
      case Some(f) =>
        ReleasedJoins(stores[j], steps[j], f);
        AppendedByTime(p.lru, f, at, at', j);
      case None =>
        NoneJoins(stores[j], steps[j]);
        SameTimes(p.lru, stores[k].pool.lru, at, at');
    }
  }

  lemma SameTimes(s: seq<nat>, s': seq<nat>, at: Times, at': Times)
    requires ByTime(s, at) && (forall x :: at'(x) == at(x))
    requires OneLeft(s, s')
    ensures ByTime(s', at')
  {
    if f :| s' == RemoveFrame(s, f) { RemovedByTime(s, f, at); }
  }

  /** Least recently used: in every state of every run, the frame that is taken next is a free one, or the one whose
      last release is the earliest of all resident frames that nobody has pinned. */
  lemma VictimIsLeastRecent(n: nat, disk: map<PageId, Data>, steps: seq<PoolStep>, stores: seq<Store>, k: nat, v: nat)
    requires IsPoolRun(steps, stores) && k <= |steps| && stores[0] == FirstStore(n, disk)
    requires Victim(stores[k].pool) == Some(v)
    ensures v < |stores[k].pool.frames| && stores[k].pool.frames[v].pins == 0
    ensures IsValid(stores[k].pool.frames[v].id) ==>
      forall f :: 0 <= f < |stores[k].pool.frames| && f != v ==>
        && IsValid(stores[k].pool.frames[f].id)
        && (stores[k].pool.frames[f].pins == 0 ==>
              0 <= ReleasedAt(steps, stores, k, v) < ReleasedAt(steps, stores, k, f))
  {
    hide After;
    hide Possible;
    StoreOkInEveryRun(n, disk, steps, stores, k);
    ListedByRelease(n, disk, steps, stores, k);
    var p, at := stores[k].pool, TimesAt(steps, stores, k);
    VictimOk(p);
    assert FrameOk(p, v);
    if IsValid(p.frames[v].id) {
      NoneFree(p, v);
      forall f | 0 <= f < |p.frames| && f != v
        ensures IsValid(p.frames[f].id) && (p.frames[f].pins == 0 ==> 0 <= at(v) < at(f))
      {
        assert FrameOk(p, f);
        if p.frames[f].pins == 0 {
          var i :| 0 <= i < |p.lru| && p.lru[i] == f;
          assert at(p.lru[0]) < at(p.lru[i]);
        }
      }
    }
  }

  lemma NoneFree(p: Pool, v: nat)
    requires PoolOk(p) && Victim(p) == Some(v) && v < |p.frames| && IsValid(p.frames[v].id)
    ensures p.free == [] && p.lru != [] && p.lru[0] == v
  {
    assert p.free != [] ==> p.free[0] in p.free;
    assert FrameOk(p, v);
  }

  // --------------------------------------------------------------------------------- pin counts

  /** What a step adds to the pins of the page: a successful fetch or new page one, a successful unpin minus one. */
  function PinChange(p: Pool, step: PoolStep, id: PageId): int {
    match step
    case Fetch(x) => if x == id && (x in p.table || Victim(p).Some?) then 1 else 0
    case New(x) => if x == id && Victim(p).Some? then 1 else 0
    case Unpin(x, _) =>
      if x == id && x in p.table && p.table[x] < |p.frames| && p.frames[p.table[x]].pins > 0 then -1 else 0
    case _ => 0
  }

  /** The pins of the page that are still out after k steps. */
  ghost function PinsOut(steps: seq<PoolStep>, stores: seq<Store>, k: nat, id: PageId): int
    requires k <= |steps| < |stores|
  {
    if k == 0 then 0 else PinsOut(steps, stores, k - 1, id) + PinChange(stores[k - 1].pool, steps[k - 1], id)
  }

  /** The pin count of a page in the pool; none when it is not resident. */
  function PinsIn(p: Pool, id: PageId): nat {
    if id in p.table && p.table[id] < |p.frames| then p.frames[p.table[id]].pins else 0
  }

  lemma InstalledPins(p: Pool, id: PageId, data: Data, x: PageId)
    requires PoolOk(p) && Victim(p).Some? && id !in p.table && IsValid(id)
    ensures Victim(p).value < |p.frames|
    ensures PinsIn(Install(TakeVictim(p), Victim(p).value, id, data), x) == if x == id then 1 else PinsIn(p, x)
  {
    VictimOk(p);
    var v := Victim(p).value;
    assert FrameOk(p, v);
    if x in p.table && x != id && p.table[x] != v { assert FrameOk(p, p.table[x]); }
  }

  lemma PinsAfter(s: Store, step: PoolStep, x: PageId)
    requires PoolOk(s.pool) && Possible(s, step)
    ensures InRange(s.pool)
    ensures PinsIn(After(s, step).pool, x) == PinsIn(s.pool, x) + PinChange(s.pool, step, x)
  {
    hide ZeroPage;
    hide Install;
    OkInRange(s.pool);
    var p := s.pool;
    match step
    case Fetch(id) =>
      if id in p.table {
        if x in p.table && x != id { OneFrameEach(p, x, id); }
      } else if Victim(p).Some? {
        InstalledPins(p, id, p.disk[id], x);
      }
    case New(id) => if Victim(p).Some? { InstalledPins(p, id, ZeroPage(), x); }
    case WriteBytes(id, _) => if x in p.table && x != id { OneFrameEach(p, x, id); }
    case Unpin(id, _) => if x in p.table && id in p.table && x != id { OneFrameEach(p, x, id); }
    case Flush(id) => if x in p.table && id in p.table && x != id { OneFrameEach(p, x, id); }
    case Delete(id) => if x in p.table && id in p.table && x != id { OneFrameEach(p, x, id); }
  }

  /** In every state of every run the pin count of every page is the number of its pins that are still out; so a page
      with a pin out is resident, and evictable frames hold pages without one. */
  lemma {:induction false} PinsCounted(n: nat, disk: map<PageId, Data>, steps: seq<PoolStep>, stores: seq<Store>,
      k: nat, id: PageId)
    requires IsPoolRun(steps, stores) && k <= |steps| && stores[0] == FirstStore(n, disk)
    ensures PinsIn(stores[k].pool, id) == PinsOut(steps, stores, k, id)
    ensures PinsOut(steps, stores, k, id) > 0 ==> id in stores[k].pool.table
  {
    hide PoolOk;
    hide Possible;
    hide InRange;
    hide After;
    hide PinChange;
    if k == 0 {
    } else {
      var j := k - 1;
      PinsCounted(n, disk, steps, stores, j, id);
      StoreOkInEveryRun(n, disk, steps, stores, j);
      assert StepTo(stores[j], steps[j], stores[j + 1]);
      PinsAfter(stores[j], steps[j], id);
    }
  }

  // ------------------------------------------------------------------------------- single calls

  /** Every other resident page keeps its frame as it is. */
  ghost predicate OthersKept(p: Pool, q: Pool, id: PageId) {
    |q.frames| == |p.frames| && forall x :: x in p.table && x != id ==>
      && p.table[x] < |p.frames| && x in q.table && q.table[x] == p.table[x]
      && q.frames[p.table[x]] == p.frames[p.table[x]]
  }

  /** The frame of a resident page. */
  ghost predicate InFrameOf(p: Pool, id: PageId, f: Frame) {
    id in p.table && p.table[id] < |p.frames| && p.frames[p.table[id]] == f
  }

  /** fetch_page of a resident page: one more pin, and nothing else changes on any page. */
  lemma FetchResident(p: Pool, id: PageId, x: Frame)
    requires PoolOk(p) && InFrameOf(p, id, x)
    ensures Victim(p).Some? ==> Victim(p).value < |p.frames|
    ensures var (q, r) := FetchPage(p, id);
      r == InFrame(p.table[id]) && InFrameOf(q, id, x.(pins := x.pins + 1)) && OthersKept(p, q, id) && q.disk == p.disk
  {
    OkInRange(p);
    forall y | y in p.table && y != id ensures p.table[y] != p.table[id] { OneFrameEach(p, y, id); }
  }

  predicate AllZero(d: Data) { |d| == PAGE_SIZE && forall i :: 0 <= i < |d| ==> d[i] == 0 }

  /** new_page of a number that is not resident: PAGE_SIZE zero bytes, clean, pinned once. */
  lemma NewEffect(p: Pool, id: PageId)
    requires PoolOk(p) && IsValid(id) && id !in p.table && Victim(p).Some?
    ensures Victim(p).value < |p.frames|
    ensures var (q, r) := NewPage(p, id);
      r == Victim(p) && exists zero :: AllZero(zero) && InFrameOf(q, id, Frame(id, zero, false, 1))
  {
    VictimOk(p);
    var q := NewPage(p, id).0;
    assert AllZero(ZeroPage()) && InFrameOf(q, id, Frame(id, ZeroPage(), false, 1));
  }

  /** unpin_page fails exactly on a page without a pin; otherwise one pin goes, dirty stays or becomes set, and the
      bytes stay. */
  lemma UnpinEffect(p: Pool, id: PageId, dirty: bool)
    requires PoolOk(p)
    ensures var (q, ok) := UnpinPage(p, id, dirty);
      && (ok <==> PinsIn(p, id) > 0) && (!ok ==> q == p) && OthersKept(p, q, id) && q.disk == p.disk
      && (ok ==> var x := p.frames[p.table[id]];
                 InFrameOf(q, id, x.(pins := x.pins - 1, dirty := x.dirty || dirty)))
  {
    forall y | y in p.table && id in p.table && y != id ensures p.table[y] != p.table[id] { OneFrameEach(p, y, id); }
  }

  /** flush_page fails exactly on a page that is not resident; otherwise its bytes are on disk and it is clean. */
  lemma FlushEffect(p: Pool, id: PageId)
    requires PoolOk(p)
    ensures var (q, ok) := FlushPage(p, id);
      && (ok <==> id in p.table) && (!ok ==> q == p) && OthersKept(p, q, id)
      && (ok ==> var x := p.frames[p.table[id]];
                 InFrameOf(q, id, x.(dirty := false)) && q.disk == p.disk[id := x.data])
  {
    forall y | y in p.table && id in p.table && y != id ensures p.table[y] != p.table[id] { OneFrameEach(p, y, id); }
  }

  /** delete_page fails exactly on a pinned page; otherwise the page is not resident, its frame is free, and every other
      page, and the disk, is as before. */
  lemma DeleteEffect(p: Pool, id: PageId)
    requires PoolOk(p)
    ensures var (q, ok) := DeletePage(p, id);
      && (ok <==> PinsIn(p, id) == 0) && (!ok ==> q == p) && OthersKept(p, q, id) && q.disk == p.disk
      && (ok ==> id !in q.table && q.free == if id in p.table then p.free + [p.table[id]] else p.free)
  {
    forall y | y in p.table && id in p.table && y != id ensures p.table[y] != p.table[id] { OneFrameEach(p, y, id); }
  }
}
