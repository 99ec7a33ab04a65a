/** The buffer pool (src/storage/buffer_pool_manager.cpp) with its LRU replacer
    (src/replacer/lru_replacer.cpp), over a disk that is a map from page id to bytes. */
module BufferPool {
  import opened Types
  import opened Finite

  datatype PageId = PageId(fd: int, pageNo: int)

  type Data = seq<Byte>

  const INVALID_PAGE_ID := -1

  function Zeros(n: nat): (s: Data)
    ensures |s| == n && forall i :: 0 <= i < n ==> s[i] == 0
  {
    if n == 0 then [] else [0] + Zeros(n - 1)
  }

  /** reset_memory: a page of zero bytes. */
  function ZeroPage(): Data { Zeros(PAGE_SIZE) }

  datatype Frame = Frame(id: PageId, data: Data, dirty: bool, pins: nat)

  /** lru lists the evictable frames, least recently released first. */
  datatype Pool = Pool(frames: seq<Frame>, table: map<PageId, nat>, free: seq<nat>, lru: seq<nat>,
      disk: map<PageId, Data>)

  predicate IsValid(id: PageId) { id.pageNo != INVALID_PAGE_ID }

  // --------------------------------------------------------------------- transitions

  function RemoveFrame(s: seq<nat>, f: nat): seq<nat> {
    if s == [] then [] else if s[0] == f then s[1..] else [s[0]] + RemoveFrame(s[1..], f)
  }

  /** find_victim_page: a free frame if there is one, else the least recently released frame. */
  function Victim(p: Pool): Option<nat> {
    if p.free != [] then Some(p.free[0]) else if p.lru != [] then Some(p.lru[0]) else None
  }

  function TakeVictim(p: Pool): Pool
    requires Victim(p).Some?
  {
    if p.free != [] then p.(free := p.free[1..]) else p.(lru := p.lru[1..])
  }

  /** update_page: the frame's old page is written back if dirty and unmapped, and the frame is mapped to the new page,
      zeroed, clean and not pinned. */
  function Remap(p: Pool, f: nat, id: PageId): Pool
    requires f < |p.frames|
  {
    var was := p.frames[f];
    p.(disk := if IsValid(was.id) && was.dirty then p.disk[was.id := was.data] else p.disk,
       table := (if IsValid(was.id) then p.table - {was.id} else p.table)[id := f],
       frames := p.frames[f := Frame(id, ZeroPage(), false, 0)])
  }

  /** What fetch_page and new_page do with the victim: update_page, then the bytes, and one pin. */
  function Install(p: Pool, f: nat, id: PageId, data: Data): Pool
    requires f < |p.frames|
  {
    var q := Remap(p, f, id);
    q.(frames := q.frames[f := Frame(id, data, false, 1)])
  }

  /** The frame of the page, the null result, or the error of a read that finds no such page on disk. */
  datatype Fetched = InFrame(frame: nat) | NoFrame | ReadFailed

  /** fetch_page. A failing read leaves the victim mapped to the page, neither pinned nor evictable. */
  function FetchPage(p: Pool, id: PageId): (Pool, Fetched)
    requires id in p.table ==> p.table[id] < |p.frames|
    requires Victim(p).Some? ==> Victim(p).value < |p.frames|
  {
    if id in p.table then
      var f := p.table[id];
      (p.(frames := p.frames[f := p.frames[f].(pins := p.frames[f].pins + 1)], lru := RemoveFrame(p.lru, f)),
       InFrame(f))
    else if Victim(p).None? then (p, NoFrame)
    else if id in p.disk then
      (Install(TakeVictim(p), Victim(p).value, id, p.disk[id]), InFrame(Victim(p).value))
    else (Remap(TakeVictim(p), Victim(p).value, id), ReadFailed)
  }

  function NewPage(p: Pool, id: PageId): (Pool, Option<nat>)
    requires Victim(p).Some? ==> Victim(p).value < |p.frames|
  {
    if Victim(p).None? then (p, None) else (Install(TakeVictim(p), Victim(p).value, id, ZeroPage()), Victim(p))
  }

  /** LRUReplacer::unpin with its capacity guard. */
  function MakeEvictable(lru: seq<nat>, f: nat, capacity: nat): seq<nat> {
    if f in lru || |lru| >= capacity then lru else lru + [f]
  }

  function UnpinPage(p: Pool, id: PageId, dirty: bool): (Pool, bool)
    requires id in p.table ==> p.table[id] < |p.frames|
  {
    if id !in p.table then (p, false)
    else
      var f := p.table[id];
      var x := p.frames[f];
      if x.pins == 0 then (p, false)
      else
        (p.(frames := p.frames[f := x.(dirty := x.dirty || dirty, pins := x.pins - 1)],
            lru := if x.pins == 1 then MakeEvictable(p.lru, f, |p.frames|) else p.lru), true)
  }

  function FlushPage(p: Pool, id: PageId): (Pool, bool)
    requires id in p.table ==> p.table[id] < |p.frames|
  {
    if id !in p.table then (p, false)
    else
      var x := p.frames[p.table[id]];
      (p.(frames := p.frames[p.table[id] := x.(dirty := false)], disk := p.disk[id := x.data]), true)
  }

  function DeletePage(p: Pool, id: PageId): (Pool, bool)
    requires id in p.table ==> p.table[id] < |p.frames|
  {
    if id !in p.table then (p, true)
    else
      var f := p.table[id];
      if p.frames[f].pins != 0 then (p, false)
      else
        (p.(frames := p.frames[f := Frame(PageId(id.fd, INVALID_PAGE_ID), ZeroPage(), false, 0)],
          table := p.table - {id},
            free := p.free + [f], lru := RemoveFrame(p.lru, f)), true)
  }

  // ----------------------------------------------------------------------- invariant

  /** Frames are partitioned into free ones, evictable ones (resident, pin count 0) and pinned resident ones, and the
      page table is a bijection between resident pages and frames that are not free. */
  ghost predicate PoolOk(p: Pool) {
    && Distinct(p.free) && Distinct(p.lru)
    && (forall f :: f in p.free || f in p.lru ==> f < |p.frames|)
    && (forall f :: 0 <= f < |p.frames| ==> FrameOk(p, f))
    && (forall id :: id in p.table ==> p.table[id] < |p.frames| && p.frames[p.table[id]].id == id && IsValid(id))
  }

  ghost predicate FrameOk(p: Pool, f: nat)
    requires f < |p.frames|
  {
    var x := p.frames[f];
    && (f in p.free <==> !IsValid(x.id))
    && (f in p.free ==> x.pins == 0)
    && (f in p.lru <==> f !in p.free && x.pins == 0)
    && (f !in p.free ==> x.id in p.table && p.table[x.id] == f)
  }

  lemma {:induction false} RemoveFrameOk(s: seq<nat>, f: nat)
    requires Distinct(s)
    ensures Distinct(RemoveFrame(s, f))
    ensures forall x :: x in RemoveFrame(s, f) <==> x in s && x != f
  {
    if s == [] {
    } else {
      assert Distinct(s[1..]);
      RemoveFrameOk(s[1..], f);
      assert forall x :: x in s <==> x == s[0] || x in s[1..];
      if s[0] != f {
        var r := RemoveFrame(s[1..], f);
        assert forall x :: x in [s[0]] + r <==> x == s[0] || x in r;
        assert s[0] !in s[1..];
      }
    }
  }

  lemma RemoveStep(s: seq<nat>, f: nat)
    requires s != []
    ensures RemoveFrame(s, f) == if s[0] == f then s[1..] else [s[0]] + RemoveFrame(s[1..], f)
  {
  }

  /** LRUReplacer::pin, said on the list: one frame leaves, the others keep their order. */
  lemma {:induction false} RemovedBetween(a: seq<nat>, f: nat, b: seq<nat>)
    requires f !in a
    ensures RemoveFrame(a + [f] + b, f) == a + b
  {
    hide RemoveFrame;
    var s := a + [f] + b;
    RemoveStep(s, f);
    if a == [] {
      assert s[1..] == b && a + b == b;
    } else {
      RemovedBetween(a[1..], f, b);
      assert s[0] == a[0] && s[1..] == a[1..] + [f] + b;
      assert [a[0]] + (a[1..] + b) == a + b;
    }
  }

  /** The replacer's capacity guard never drops a frame. */
  lemma GuardNeverDrops(p: Pool, f: nat)
    requires PoolOk(p) && f < |p.frames| && f !in p.lru
    ensures MakeEvictable(p.lru, f, |p.frames|) == p.lru + [f]
  {
    Pigeonhole(p.lru, |p.frames|, f);
  }

  lemma VictimOk(p: Pool)
    requires PoolOk(p) && Victim(p).Some?
    ensures var f, q := Victim(p).value, TakeVictim(p);
      && f < |p.frames| && p.frames[f].pins == 0
      && Distinct(q.free) && Distinct(q.lru)
      && (forall x :: x in q.free <==> x in p.free && x != f)
      && (forall x :: x in q.lru <==> x in p.lru && x != f)
  {
    assert p.free != [] ==> p.free[0] in p.free;
    assert p.lru != [] ==> p.lru[0] in p.lru;
    assert FrameOk(p, Victim(p).value);
    if p.free != [] { DistinctTail(p.free); assert p.free[0] !in p.lru; } else { DistinctTail(p.lru); }
  }

  lemma InstallOk(p: Pool, id: PageId, data: Data)
    requires PoolOk(p) && Victim(p).Some? && id !in p.table && IsValid(id)
    ensures var f := Victim(p).value;
      f < |p.frames| && PoolOk(Install(TakeVictim(p), f, id, data))
  {
    VictimOk(p);
    var f := Victim(p).value;
    var q := Install(TakeVictim(p), f, id, data);
    assert FrameOk(p, f);
    forall g | 0 <= g < |q.frames| ensures FrameOk(q, g) {
      assert FrameOk(p, g);
    }
  }

  lemma FetchOk(p: Pool, id: PageId)
    requires PoolOk(p) && IsValid(id) && (id in p.table || id in p.disk || Victim(p).None?)
    ensures Victim(p).Some? ==> Victim(p).value < |p.frames|
    ensures PoolOk(FetchPage(p, id).0) && !FetchPage(p, id).1.ReadFailed?
  {
    if Victim(p).Some? { VictimOk(p); }
    if id in p.table {
      var f, q := p.table[id], FetchPage(p, id).0;
      RemoveFrameOk(p.lru, f);
      forall g | 0 <= g < |q.frames| ensures FrameOk(q, g) { assert FrameOk(p, g); }
    } else if Victim(p).Some? {
      VictimOk(p);
      InstallOk(p, id, p.disk[id]);
    }
  }

  /** fetch_page keeps the invariant if and only if the page is resident, or on disk, or no frame can be taken for it.
      Otherwise the read fails and the frame is lost: it can be taken no more, and a later fetch of the same page finds
      it there, full of zeros. */
  lemma FetchKeepsIff(p: Pool, id: PageId)
    requires PoolOk(p) && IsValid(id)
    ensures Victim(p).Some? ==> Victim(p).value < |p.frames|
    ensures var (q, r) := FetchPage(p, id);
      && (PoolOk(q) <==> id in p.table || id in p.disk || Victim(p).None?) && (r.ReadFailed? <==> !PoolOk(q))
      && (r.ReadFailed? ==>
            var f := Victim(p).value;
            && f !in q.free && f !in q.lru && id in q.table && q.table[id] == f
            && q.frames[f] == Frame(id, ZeroPage(), false, 0))
  {
    hide ZeroPage;
    if Victim(p).Some? { VictimOk(p); }
    if id in p.table || id in p.disk || Victim(p).None? {
      FetchOk(p, id);
    } else {
      var f, q := Victim(p).value, FetchPage(p, id).0;
      assert f !in q.free && f !in q.lru;
      assert !FrameOk(q, f);
    }
  }

  /** new_page keeps the invariant if and only if the allocated page number is not resident, or in the frame that is
      taken, or no frame can be taken. Pages of a closed file stay resident, so its number can come back. */
  lemma NewKeepsIff(p: Pool, id: PageId)
    requires PoolOk(p) && IsValid(id)
    ensures Victim(p).Some? ==> Victim(p).value < |p.frames|
    ensures PoolOk(NewPage(p, id).0) <==>
      id !in p.table || Victim(p).None? || Victim(p) == Some(p.table[id])
  {
    hide ZeroPage;
    if Victim(p).Some? {
      VictimOk(p);
      var f, q := Victim(p).value, NewPage(p, id).0;
      assert FrameOk(p, f);
      if id !in p.table {
        InstallOk(p, id, ZeroPage());
      } else if p.table[id] == f {
        forall g | 0 <= g < |q.frames| ensures FrameOk(q, g) { assert FrameOk(p, g); }
      } else {
        assert FrameOk(p, p.table[id]);
        assert !FrameOk(q, p.table[id]);
      }
    }
  }

  lemma UnpinOk(p: Pool, id: PageId, dirty: bool)
    requires PoolOk(p)
    ensures PoolOk(UnpinPage(p, id, dirty).0)
  {
    if id in p.table && p.frames[p.table[id]].pins > 0 {
      var f, q := p.table[id], UnpinPage(p, id, dirty).0;
      assert FrameOk(p, f);
      if p.frames[f].pins == 1 {
        GuardNeverDrops(p, f);
        DistinctSnoc(p.lru, f);
      }
      forall g | 0 <= g < |q.frames| ensures FrameOk(q, g) { assert FrameOk(p, g); }
    }
  }

  lemma FlushOk(p: Pool, id: PageId)
    requires PoolOk(p)
    ensures PoolOk(FlushPage(p, id).0)
  {
    if id in p.table {
      var q := FlushPage(p, id).0;
      forall g | 0 <= g < |q.frames| ensures FrameOk(q, g) { assert FrameOk(p, g); }
    }
  }

  lemma DeleteOk(p: Pool, id: PageId)
    requires PoolOk(p)
    ensures PoolOk(DeletePage(p, id).0)
  {
    if id in p.table && p.frames[p.table[id]].pins == 0 {
      var f, q := p.table[id], DeletePage(p, id).0;
      assert FrameOk(p, f);
      RemoveFrameOk(p.lru, f);
      DistinctSnoc(p.free, f);
      forall g | 0 <= g < |q.frames| ensures FrameOk(q, g) { assert FrameOk(p, g); }
    }
  }

  ghost predicate AllPinned(p: Pool) { forall f :: 0 <= f < |p.frames| ==> p.frames[f].pins > 0 }

  ghost predicate Holds(p: Pool, f: nat, data: Data)
    requires f < |p.frames|
  {
    p.frames[f].data == data
  }

  /** fetch_page and new_page find no frame exactly when every frame is pinned. */
  lemma NoVictimIff(p: Pool)
    requires PoolOk(p)
    ensures Victim(p).None? <==> AllPinned(p)
  {
    if Victim(p).None? {
      forall f | 0 <= f < |p.frames| ensures p.frames[f].pins > 0 { assert FrameOk(p, f); }
    } else {
      VictimOk(p);
    }
  }

  /** A pinned frame is never evicted: whatever page is brought in, pinned frames keep their page and bytes. */
  lemma PinnedNeverEvicted(p: Pool, id: PageId, data: Data, f: nat)
    requires PoolOk(p) && Victim(p).Some? && f < |p.frames| && p.frames[f].pins > 0
    ensures Victim(p).value < |p.frames| && Install(TakeVictim(p), Victim(p).value, id, data).frames[f] == p.frames[f]
  {
    VictimOk(p);
  }

  // ------------------------------------------------------- refinement of a flat page store

  /** The pool next to the store it should behave like: `released` holds, for every page, the bytes it had when a pin on
      it was last released as dirty, or those on disk at the start if none was. `open` are the pages written since then,
      or new and never released dirty; about those the pool promises nothing yet. */
  datatype Store = Store(pool: Pool, released: map<PageId, Data>, open: set<PageId>)

  datatype PoolStep =
    | Fetch(id: PageId)
    | New(id: PageId)
    | WriteBytes(id: PageId, data: Data)
    | Unpin(id: PageId, dirty: bool)
    | Flush(id: PageId)
    | Delete(id: PageId)

  /** A page of the pool carries the bytes d: in its frame and, when the frame is clean or absent, on disk. */
  ghost predicate Carries(p: Pool, id: PageId, d: Data) {
    if id in p.table then
      p.table[id] < |p.frames| && p.frames[p.table[id]].data == d
      && (!p.frames[p.table[id]].dirty ==> Lookup(p.disk, id) == Some(d))
    else Lookup(p.disk, id) == Some(d)
  }

  ghost predicate StoreOk(s: Store) {
    PoolOk(s.pool) && forall id :: id in s.released && id !in s.open ==>
      IsValid(id) && Carries(s.pool, id, s.released[id])
  }

  /** Reads succeed, new page numbers are not resident, and only pinned pages are written. */
  ghost predicate Possible(s: Store, step: PoolStep) {
    match step
    case Fetch(id) => IsValid(id) && (id in s.pool.table || id in s.pool.disk)
    case New(id) => IsValid(id) && id !in s.pool.table
    case WriteBytes(id, _) => id in s.pool.table && s.pool.table[id] < |s.pool.frames|
      && s.pool.frames[s.pool.table[id]].pins > 0
    case _ => true
  }

  function WriteFrame(p: Pool, id: PageId, data: Data): Pool
    requires id in p.table && p.table[id] < |p.frames|
  {
    p.(frames := p.frames[p.table[id] := p.frames[p.table[id]].(data := data)])
  }

  /** Every frame number that the step can use is a frame number. */
  ghost predicate InRange(p: Pool) {
    && (forall id :: id in p.table ==> p.table[id] < |p.frames|)
    && (Victim(p).Some? ==> Victim(p).value < |p.frames|)
  }

  ghost function After(s: Store, step: PoolStep): Store
    requires InRange(s.pool) && Possible(s, step)
  {
    var p := s.pool;
    match step
    case Fetch(id) => s.(pool := FetchPage(p, id).0)
    case New(id) =>
      if Victim(p).None? then s
      else Store(NewPage(p, id).0, s.released - {id}, s.open + {id})
    case WriteBytes(id, data) => s.(pool := WriteFrame(p, id, data), open := s.open + {id})
    case Unpin(id, dirty) =>
      var r := UnpinPage(p, id, dirty);
      if r.1 && dirty then Store(r.0, s.released[id := p.frames[p.table[id]].data], s.open - {id}) else s.(pool := r.0)
    case Flush(id) => s.(pool := FlushPage(p, id).0)
    case Delete(id) =>
      var r := DeletePage(p, id);
      if r.1 then Store(r.0, s.released - {id}, s.open - {id}) else s
  }

  lemma OkInRange(p: Pool)
    requires PoolOk(p)
    ensures InRange(p)
  {
    if Victim(p).Some? { VictimOk(p); }
  }

  lemma InstallCarries(p: Pool, id: PageId, data: Data, x: PageId, d: Data)
    requires PoolOk(p) && Victim(p).Some? && id !in p.table && IsValid(id) && x != id
    requires Carries(p, x, d)
    ensures Victim(p).value < |p.frames| && Carries(Install(TakeVictim(p), Victim(p).value, id, data), x, d)
  {
    VictimOk(p);
    assert FrameOk(p, Victim(p).value);
  }

  lemma FetchCarries(p: Pool, id: PageId, x: PageId, d: Data)
    requires PoolOk(p) && IsValid(id) && (id in p.table || id in p.disk) && Carries(p, x, d)
    ensures Victim(p).Some? ==> Victim(p).value < |p.frames|
    ensures Carries(FetchPage(p, id).0, x, d)
  {
    if Victim(p).Some? { VictimOk(p); }
    if id !in p.table && Victim(p).Some? && x != id { InstallCarries(p, id, p.disk[id], x, d); }
    if id !in p.table && Victim(p).Some? && x == id { assert FrameOk(p, Victim(p).value); }
  }

  lemma SteppedOk(s: Store, step: PoolStep)
    requires StoreOk(s) && Possible(s, step)
    ensures InRange(s.pool) && StoreOk(After(s, step))
  {
    hide Carries;
    hide PoolOk;
    hide InRange;
    OkInRange(s.pool);
    var p, s' := s.pool, After(s, step);
    if Victim(p).Some? { VictimOk(p); }
    match step
    case Fetch(id) =>
      FetchOk(p, id);
      forall x | x in s'.released && x !in s'.open ensures Carries(s'.pool, x, s'.released[x]) {
        FetchCarries(p, id, x, s.released[x]);
      }
    case New(id) =>
      if Victim(p).Some? {
        InstallOk(p, id, ZeroPage());
        forall x | x in s'.released && x !in s'.open ensures Carries(s'.pool, x, s'.released[x]) {
          InstallCarries(p, id, ZeroPage(), x, s.released[x]);
        }
      }
    case WriteBytes(id, data) => WriteStepOk(s, id, data);
    case Unpin(id, dirty) => UnpinStepOk(s, id, dirty);
    case Flush(id) => FlushStepOk(s, id);
    case Delete(id) => DeleteStepOk(s, id);
  }

  /** Distinct resident pages live in distinct frames. */
  lemma OneFrameEach(p: Pool, x: PageId, y: PageId)
    requires PoolOk(p) && x in p.table && y in p.table && x != y
    ensures p.table[x] != p.table[y]
  {
  }

  lemma WriteStepOk(s: Store, id: PageId, data: Data)
    requires StoreOk(s) && Possible(s, WriteBytes(id, data)) && InRange(s.pool)
    ensures StoreOk(After(s, WriteBytes(id, data)))
  {
    var p, q := s.pool, WriteFrame(s.pool, id, data);
    forall g | 0 <= g < |q.frames| ensures FrameOk(q, g) { assert FrameOk(p, g); }
    forall x | x in s.released && x !in s.open && x != id ensures Carries(q, x, s.released[x]) {
      if x in p.table { OneFrameEach(p, x, id); }
    }
  }

  lemma UnpinStepOk(s: Store, id: PageId, dirty: bool)
    requires StoreOk(s) && InRange(s.pool)
    ensures StoreOk(After(s, Unpin(id, dirty)))
  {
    var p, s' := s.pool, After(s, Unpin(id, dirty));
    UnpinOk(p, id, dirty);
    forall x | x in s'.released && x !in s'.open ensures IsValid(x) && Carries(s'.pool, x, s'.released[x]) {
      if x in p.table && id in p.table && x != id { OneFrameEach(p, x, id); }
    }
  }

  lemma FlushStepOk(s: Store, id: PageId)
    requires StoreOk(s) && InRange(s.pool)
    ensures StoreOk(After(s, Flush(id)))
  {
    var p, s' := s.pool, After(s, Flush(id));
    FlushOk(p, id);
    forall x | x in s'.released && x !in s'.open ensures IsValid(x) && Carries(s'.pool, x, s'.released[x]) {
      if x in p.table && id in p.table && x != id { OneFrameEach(p, x, id); }
    }
  }

  lemma DeleteStepOk(s: Store, id: PageId)
    requires StoreOk(s) && InRange(s.pool)
    ensures StoreOk(After(s, Delete(id)))
  {
    var p, s' := s.pool, After(s, Delete(id));
    DeleteOk(p, id);
    forall x | x in s'.released && x !in s'.open ensures IsValid(x) && Carries(s'.pool, x, s'.released[x]) {
      if x in p.table && id in p.table && x != id { OneFrameEach(p, x, id); }
    }
  }

  /** One step; with a frame number out of range anything may happen. */
  ghost predicate StepTo(s: Store, step: PoolStep, s': Store) {
    Possible(s, step) && (InRange(s.pool) ==> s' == After(s, step))
  }

  /** A run of the pool: every step possible when taken. */
  ghost predicate IsPoolRun(steps: seq<PoolStep>, stores: seq<Store>) {
    |stores| == |steps| + 1 && forall i :: 0 <= i < |steps| ==> StepTo(stores[i], steps[i], stores[i + 1])
  }

  /** A fresh pool of n frames over any disk: all frames free. */
  function FreshPool(n: nat, disk: map<PageId, Data>): Pool {
    Pool(seq(n, _ => Frame(PageId(0, INVALID_PAGE_ID), ZeroPage(), false, 0)), map[], seq(n, i => i), [], disk)
  }

  /** A concrete failure: in a pool of one frame a fetch of a page that is not on disk loses the frame, so another page
      can no longer be fetched although nothing is pinned, and the missing page is found, as zeros. */
  lemma FailedReadLosesFrame(id: PageId, other: PageId, disk: map<PageId, Data>)
    requires IsValid(id) && IsValid(other) && id != other && id !in disk && other in disk
    ensures var p := FreshPool(1, disk);
      && Victim(p) == Some(0) && FetchPage(p, id).1 == ReadFailed
      && var q := FetchPage(p, id).0;
      && Victim(q).None? && !AllPinned(q) && FetchPage(q, other).1 == NoFrame
      && id in q.table && q.table[id] == 0 && FetchPage(q, id).1 == InFrame(0)
      && FetchPage(q, id).0.frames[0].data == ZeroPage()
  {
    hide ZeroPage;
    var p := FreshPool(1, disk);
    assert p.free == [0];
    var q := FetchPage(p, id).0;
    assert q.free == [] && q.lru == [] && q.frames[0].pins == 0;
  }

  /** A pool of two frames after page id was created, released dirty and flushed. */
  function OnceWritten(id: PageId, disk: map<PageId, Data>): Pool {
    var p0 := FreshPool(2, disk);
    var p1 := NewPage(p0, id).0;
    var p2 := UnpinPage(p1, id, true).0;
    FlushPage(p2, id).0
  }

  lemma OnceWrittenIs(id: PageId, disk: map<PageId, Data>)
    ensures var p, empty := OnceWritten(id, disk), Frame(PageId(0, INVALID_PAGE_ID), ZeroPage(), false, 0);
      && p.frames == [Frame(id, ZeroPage(), false, 0), empty]
      && p.table == map[id := 0] && p.free == [1] && p.lru == [0] && p.disk == disk[id := ZeroPage()]
  {
    hide ZeroPage;
    var p0 := FreshPool(2, disk);
    assert p0.free == [0, 1];
    var p1 := NewPage(p0, id).0;
    assert p1.free == [1] && p1.table == map[id := 0] && p1.frames[0] == Frame(id, ZeroPage(), false, 1);
  }

  /** Page id of a table is written, the table is dropped (its pages are flushed, its file is removed), and a new table
      gets the same file descriptor and so the same page number. */
  ghost function NumberComesBack(id: PageId, disk: map<PageId, Data>): Pool {
    var p := OnceWritten(id, disk);
    OnceWrittenIs(id, disk);
    NewPage(p.(disk := p.disk - {id}), id).0
  }

  /** Two frames hold the page, and the table knows one of them. */
  function MappedTwice(id: PageId, disk: map<PageId, Data>): Pool {
    Pool([Frame(id, ZeroPage(), false, 0), Frame(id, ZeroPage(), false, 1)], map[id := 1], [], [0], disk - {id})
  }

  lemma ComesBackIs(id: PageId, disk: map<PageId, Data>)
    ensures NumberComesBack(id, disk) == MappedTwice(id, disk)
  {
    hide ZeroPage;
    hide OnceWritten;
    OnceWrittenIs(id, disk);
    var p := OnceWritten(id, disk);
    var dropped := p.(disk := p.disk - {id});
    assert dropped.disk == disk - {id} && Victim(dropped) == Some(1) && TakeVictim(dropped).free == [];
  }

  /** A concrete failure: bringing in another page then evicts the old copy, which unmaps the new page although it is
      pinned; releasing it as dirty is refused, and its bytes never reach the disk. */
  lemma ComingBackUnmapsPinned(id: PageId, other: PageId, disk: map<PageId, Data>)
    requires IsValid(id) && IsValid(other) && id != other && other in disk
    ensures var p := MappedTwice(id, disk);
      && NumberComesBack(id, disk) == p && !PoolOk(p) && FetchPage(p, other).1 == InFrame(0)
      && var q := FetchPage(p, other).0;
      q.frames[1] == Frame(id, ZeroPage(), false, 1) && id !in q.table && UnpinPage(q, id, true) == (q, false)
  {
    hide ZeroPage;
    hide NumberComesBack;
    ComesBackIs(id, disk);
    assert !FrameOk(MappedTwice(id, disk), 0);
  }

  lemma FreshOk(n: nat, disk: map<PageId, Data>)
    ensures PoolOk(FreshPool(n, disk))
  {
    var p := FreshPool(n, disk);
    forall f | 0 <= f < |p.frames| ensures FrameOk(p, f) { assert p.free[f] == f; }
  }

  /** The pool before its first step: the store it should behave like is the disk. */
  ghost function FirstStore(n: nat, disk: map<PageId, Data>): Store {
    Store(FreshPool(n, disk), map id | id in disk && IsValid(id) :: disk[id], {})
  }

  lemma {:induction false} StoreOkInEveryRun(n: nat, disk: map<PageId, Data>, steps: seq<PoolStep>,
      stores: seq<Store>, k: nat)
    requires IsPoolRun(steps, stores) && k <= |steps| && stores[0] == FirstStore(n, disk)
    ensures StoreOk(stores[k])
  {
    hide StoreOk;
    hide Possible;
    hide InRange;
    hide After;
    if k == 0 {
      FirstStoreOk(n, disk);
    } else {
      StoreOkInEveryRun(n, disk, steps, stores, k - 1);
      assert StepTo(stores[k - 1], steps[k - 1], stores[k - 1 + 1]);
      SteppedOk(stores[k - 1], steps[k - 1]);
    }
  }

  lemma FirstStoreOk(n: nat, disk: map<PageId, Data>)
    ensures StoreOk(FirstStore(n, disk))
  {
    FreshOk(n, disk);
  }

  /** The buffer pool refines a flat page store: after any run of fetch, new, write, unpin, flush and delete, with any
      evictions, the invariant holds, and fetching a page that is not being written either finds every frame
      pinned or returns a frame that holds the bytes last released dirty, or those on disk at the start. */
  lemma FetchGivesLastReleased(n: nat, disk: map<PageId, Data>, steps: seq<PoolStep>, stores: seq<Store>, k: nat,
      id: PageId)
    requires IsPoolRun(steps, stores) && k <= |steps| && stores[0] == FirstStore(n, disk)
    requires id in stores[k].released && id !in stores[k].open
    ensures PoolOk(stores[k].pool) && Possible(stores[k], Fetch(id))
    ensures Victim(stores[k].pool).Some? ==> Victim(stores[k].pool).value < |stores[k].pool.frames|
    ensures var (pool', f) := FetchPage(stores[k].pool, id);
      match f
      case NoFrame => id !in stores[k].pool.table && AllPinned(stores[k].pool)
      case InFrame(g) => g < |pool'.frames| && pool'.frames[g].id == id && Holds(pool', g, stores[k].released[id])
      case ReadFailed => false
  {
    StoreOkInEveryRun(n, disk, steps, stores, k);
    var p := stores[k].pool;
    NoVictimIff(p);
    if Victim(p).Some? { VictimOk(p); }
  }
}
