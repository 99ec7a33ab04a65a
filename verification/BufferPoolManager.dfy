/** LRUReplacer and BufferPoolManager as objects; every method does exactly the transition of the same name
    in BufferPool. */
module BufferPoolObjects {
  import opened Types
  import opened Finite
  import opened BufferPool

  class LRUReplacer {
    const maxSize: nat
    var list: seq<nat>
    var hash: set<nat>

    /** The list and the hash always hold the same frames, each once. */
    ghost predicate Valid()
      reads this
    {
      Distinct(list) && hash == Elems(list)
    }

    constructor (numPages: nat)
      ensures Valid() && list == [] && maxSize == numPages
    {
      maxSize, list, hash := numPages, [], {};
    }

    method Victim() returns (f: Option<nat>)
      requires Valid()
      modifies this
      ensures Valid()
      ensures if old(list) == [] then f == None && list == [] else f == Some(old(list)[0]) && list == old(list)[1..]
    {
      if list == [] { return None; }
      DistinctTail(list);
      f := Some(list[0]);
      hash := hash - {list[0]};
      list := list[1..];
    }

    method Pin(f: nat)
      requires Valid()
      modifies this
      ensures Valid() && list == RemoveFrame(old(list), f)
      ensures f !in old(list) ==> list == old(list)
      ensures forall a, b :: old(list) == a + [f] + b ==> list == a + b
    {
      RemoveFrameOk(list, f);
      forall a, b | list == a + [f] + b ensures RemoveFrame(list, f) == a + b { RemovedInside(list, a, f, b); }
      if f !in hash {
        RemoveAbsent(list, f);
        return;
      }
      list := RemoveFrame(list, f);
      hash := hash - {f};
    }

    method Unpin(f: nat)
      requires Valid()
      modifies this
      ensures Valid() && list == MakeEvictable(old(list), f, maxSize)
    {
      if f in hash || |list| >= maxSize { return; }
      DistinctSnoc(list, f);
      list := list + [f];
      hash := hash + {f};
    }
  }

  lemma RemovedInside(s: seq<nat>, a: seq<nat>, f: nat, b: seq<nat>)
    requires Distinct(s) && s == a + [f] + b
    ensures RemoveFrame(s, f) == a + b
  {
    forall i | 0 <= i < |a| ensures a[i] != f { assert s[i] == a[i] && s[|a|] == f; }
    RemovedBetween(a, f, b);
  }

  lemma {:induction false} RemoveAbsent(s: seq<nat>, f: nat)
    requires f !in s
    ensures RemoveFrame(s, f) == s
  {
    if s == [] {
    } else {
      RemoveAbsent(s[1..], f);
    }
  }

  class BufferPoolManager {
    var pages: array<Frame>
    var pageTable: map<PageId, nat>
    var freeList: seq<nat>
    var replacer: LRUReplacer
    var disk: map<PageId, Data>

    ghost function State(): Pool
      reads this, pages, replacer
    {
      Pool(pages[..], pageTable, freeList, replacer.list, disk)
    }

    ghost predicate Valid()
      reads this, pages, replacer
    {
      PoolOk(State()) && replacer.Valid() && replacer.maxSize == pages.Length
    }

    constructor (n: nat, disk0: map<PageId, Data>)
      ensures Valid() && fresh(pages) && fresh(replacer) && State() == FreshPool(n, disk0)
    {
      pages := new Frame[n](_ => Frame(PageId(0, INVALID_PAGE_ID), ZeroPage(), false, 0));
      pageTable, freeList, disk := map[], seq(n, i => i), disk0;
      replacer := new LRUReplacer(n);
      new;
      assert pages[..] == FreshPool(n, disk0).frames;
      FreshOk(n, disk0);
    }

    /** find_victim_page. */
    method FindVictimPage() returns (f: Option<nat>)
      requires Valid()
      modifies this`freeList, replacer
      ensures replacer.Valid() && f == BufferPool.Victim(old(State()))
      ensures f == None ==> State() == old(State())
      ensures f != None ==> State() == TakeVictim(old(State()))
    {
      if freeList != [] {
        f := Some(freeList[0]);
        freeList := freeList[1..];
        return;
      }
      f := replacer.Victim();
    }

    /** update_page. */
    method UpdatePage(f: nat, id: PageId)
      requires f < pages.Length && IsValid(id)
      modifies this`disk, this`pageTable, pages
      ensures State() == Remap(old(State()), f, id)
    {
      hide ZeroPage;
      var page := pages[f];
      if IsValid(page.id) {
        if page.dirty { disk := disk[page.id := page.data]; }
        pageTable := pageTable - {page.id};
      }
      pages[f] := Frame(id, ZeroPage(), false, 0);
      pageTable := pageTable[id := f];
    }

    /** fetch_page: the pinned frame of the page, none when every frame is pinned, or the error of the read. The
        invariant survives unless the read fails. */
    method FetchPage(id: PageId) returns (r: Fetched)
      requires Valid() && IsValid(id)
      modifies this, pages, replacer
      ensures pages == old(pages) && replacer == old(replacer) && replacer.Valid()
      ensures Valid() <==> !r.ReadFailed?
      ensures BufferPool.Victim(old(State())).Some? ==> BufferPool.Victim(old(State())).value < |old(State()).frames|
      ensures (State(), r) == BufferPool.FetchPage(old(State()), id)
    {
      hide Remap;
      hide PoolOk;
      hide ZeroPage;
      hide RemoveFrame;
      ghost var p := State();
      FetchKeepsIff(p, id);
      if id in pageTable {
        ResidentFrame(p, id);
        var g := pageTable[id];
        pages[g] := pages[g].(pins := pages[g].pins + 1);
        replacer.Pin(g);
        return InFrame(g);
      }
      var f := FindVictimPage();
      if f == None { return NoFrame; }
      VictimNotListed(p, f.value, id);
      RemapDisk(TakeVictim(p), f.value, id);
      RemapFrames(TakeVictim(p), f.value, id);
      UpdatePage(f.value, id);
      if id !in disk { return ReadFailed; }
      Pinned(f.value, disk[id]);
      return InFrame(f.value);
    }

    /** The end of fetch_page and new_page. */
    method Pinned(v: nat, data: Data)
      requires v < pages.Length && replacer.Valid() && v !in replacer.list
      modifies pages, replacer
      ensures replacer.Valid() && replacer.list == old(replacer.list)
      ensures pages[..] == old(pages[..])[v := old(pages[v]).(data := data, pins := 1)]
    {
      RemoveAbsent(replacer.list, v);
      pages[v] := pages[v].(data := data, pins := 1);
      replacer.Pin(v);
    }

    /** new_page, for the page number the disk manager allocates; the invariant survives under the condition of
        NewKeepsIff. */
    method NewPage(id: PageId) returns (f: Option<nat>)
      requires Valid() && IsValid(id)
      modifies this, pages, replacer
      ensures pages == old(pages) && replacer == old(replacer) && replacer.Valid()
      ensures BufferPool.Victim(old(State())).Some? ==> BufferPool.Victim(old(State())).value < |old(State()).frames|
      ensures (State(), f) == BufferPool.NewPage(old(State()), id)
      ensures Valid() <==> id !in old(pageTable) || f == None || f == Some(old(pageTable)[id])
    {
      hide Remap;
      hide PoolOk;
      hide ZeroPage;
      ghost var p := State();
      NewKeepsIff(p, id);
      f := FindVictimPage();
      if f == None { return; }
      VictimTaken(p, f.value);
      RemapFrames(TakeVictim(p), f.value, id);
      UpdatePage(f.value, id);
      Pinned(f.value, ZeroPage());
    }

    /** unpin_page. */
    method UnpinPage(id: PageId, dirty: bool) returns (ok: bool)
      requires Valid()
      modifies this, pages, replacer
      ensures Valid() && pages == old(pages) && replacer == old(replacer)
      ensures (State(), ok) == BufferPool.UnpinPage(old(State()), id, dirty)
    {
      UnpinOk(State(), id, dirty);
      if id !in pageTable { return false; }
      var f := pageTable[id];
      var page := pages[f];
      if page.pins <= 0 { return false; }
      if dirty { page := page.(dirty := true); }
      page := page.(pins := page.pins - 1);
      pages[f] := page;
      if page.pins == 0 { replacer.Unpin(f); }
      return true;
    }

    /** flush_page. */
    method FlushPage(id: PageId) returns (ok: bool)
      requires Valid()
      modifies this, pages
      ensures Valid() && pages == old(pages) && replacer == old(replacer)
      ensures (State(), ok) == BufferPool.FlushPage(old(State()), id)
    {
      FlushOk(State(), id);
      if id !in pageTable { return false; }
      var f := pageTable[id];
      disk := disk[id := pages[f].data];
      pages[f] := pages[f].(dirty := false);
      return true;
    }

    /** delete_page. */
    method DeletePage(id: PageId) returns (ok: bool)
      requires Valid()
      modifies this, pages, replacer
      ensures Valid() && pages == old(pages) && replacer == old(replacer)
      ensures (State(), ok) == BufferPool.DeletePage(old(State()), id)
    {
      DeleteOk(State(), id);
      if id !in pageTable { return true; }
      var f := pageTable[id];
      if pages[f].pins != 0 { return false; }
      replacer.Pin(f);
      pageTable := pageTable - {id};
      pages[f] := Frame(PageId(id.fd, INVALID_PAGE_ID), ZeroPage(), false, 0);
      freeList := freeList + [f];
      return true;
    }

    /** flush_all_pages: every resident page of the file ends clean with its bytes on disk; nothing else changes. */
    method FlushAllPages(fd: int)
      requires Valid()
      modifies this, pages
      ensures Valid() && pages == old(pages) && replacer == old(replacer)
      ensures Flushed(old(State()), State(), set id | id in old(pageTable) && id.fd == fd)
    {
      hide PoolOk;
      hide Flushed;
      hide LRUReplacer.Valid;
      var all := set id | id in pageTable && id.fd == fd;
      var todo := all;
      ghost var done: set<PageId> := {};
      FlushedNothing(State());
      while todo != {}
        invariant Valid() && pages == old(pages) && replacer == old(replacer)
        invariant done + todo == all && done !! todo && Flushed(old(State()), State(), done)
        decreases |todo|
      {
        var id :| id in todo;
        FlushOne(old(State()), done, id);
        todo, done := todo - {id}, done + {id};
      }
    }

    /** One iteration of flush_all_pages. */
    method FlushOne(ghost p: Pool, ghost done: set<PageId>, id: PageId)
      requires Valid() && Flushed(p, State(), done) && id in p.table && id !in done
      modifies this, pages
      ensures Valid() && pages == old(pages) && replacer == old(replacer)
      ensures Flushed(p, State(), done + {id})
    {
      hide PoolOk;
      hide Flushed;
      hide BufferPool.FlushPage;
      hide LRUReplacer.Valid;
      FlushedOk(p, State(), done);
      FlushedOneMore(p, State(), done, id);
      var _ := FlushPage(id);
    }
  }

  lemma FlushedOk(p: Pool, q: Pool, done: set<PageId>)
    requires Flushed(p, q, done)
    ensures PoolOk(p) && q.table == p.table
  {
  }

  /** q is p after writing back the given resident pages: they are clean and on disk, all else is as before. */
  ghost predicate Flushed(p: Pool, q: Pool, done: set<PageId>) {
    && PoolOk(p) && q.table == p.table && q.free == p.free && q.lru == p.lru && |q.frames| == |p.frames|
    && (forall id :: id in p.table ==>
          q.frames[p.table[id]] == if id in done then p.frames[p.table[id]].(dirty := false) else p.frames[p.table[id]])
    && (forall id :: Lookup(q.disk, id) ==
          if id in done && id in p.table then Some(p.frames[p.table[id]].data) else Lookup(p.disk, id))
  }

  lemma FlushedNothing(p: Pool)
    requires PoolOk(p)
    ensures Flushed(p, p, {})
  {
  }

  lemma FlushedOneMore(p: Pool, q: Pool, done: set<PageId>, id: PageId)
    requires Flushed(p, q, done) && PoolOk(q) && id in p.table && id !in done
    ensures Flushed(p, BufferPool.FlushPage(q, id).0, done + {id})
  {
    forall x | x in p.table && x != id
      ensures BufferPool.FlushPage(q, id).0.frames[p.table[x]] == q.frames[p.table[x]]
    {
      OneFrameEach(p, x, id);
    }
  }

  lemma VictimNotListed(p: Pool, v: nat, id: PageId)
    requires PoolOk(p) && Victim(p) == Some(v) && id !in p.table && IsValid(id)
    ensures v < |p.frames| && v !in TakeVictim(p).lru && p.frames[v].id != id && TakeVictim(p).frames == p.frames
    ensures TakeVictim(p).disk == p.disk
  {
    VictimOk(p);
    assert FrameOk(p, v);
  }

  lemma VictimTaken(p: Pool, v: nat)
    requires PoolOk(p) && Victim(p) == Some(v)
    ensures v < |p.frames| && v !in TakeVictim(p).lru
  {
    VictimOk(p);
  }

  lemma ResidentFrame(p: Pool, id: PageId)
    requires PoolOk(p) && id in p.table
    ensures p.table[id] < |p.frames|
  {
  }

  /** Writing back another page does not change what is on disk for this one. */
  lemma RemapDisk(p: Pool, f: nat, id: PageId)
    requires f < |p.frames| && p.frames[f].id != id
    ensures Lookup(Remap(p, f, id).disk, id) == Lookup(p.disk, id)
  {
  }

  lemma RemapFrames(p: Pool, f: nat, id: PageId)
    requires f < |p.frames|
    ensures Remap(p, f, id).frames == p.frames[f := Frame(id, ZeroPage(), false, 0)] && Remap(p, f, id).lru == p.lru
  {
  }
}
