/**
 The page cache as the kernel runs it: lookup, allocation with eviction, the retry loop
 that writes dirty pages out to make room, write-back in runs, and truncation.  Device
 I/O succeeds; the hash table is the set of cached pages.
 */
module PageCache {
  import opened Arith
  import opened Seqs
  import opened Wrappers
  import opened Pages
  import opened FileView
  import opened CacheState
  import opened CacheSupply

  class Cache {
    var pages: map<Id, Page>
    var lru: seq<Id>
    var dirtyList: seq<Id>
    var assocs: seq<Assoc>
    var disk: Disk
    var nextId: Id
    /** The block maps of the file system, which the resolver reads. */
    var maps: BlockMaps
    /** The answers of the memory allocator, one for every request, and how many were made. */
    const supply: nat -> bool
    var asked: nat
    /** For every block, the bytes last written to it. */
    ghost var last: Disk
    /** The references that are out. */
    ghost var held: Refs

    ghost function View(): State
      reads this
    {
      State(pages, dirtyList, assocs, disk)
    }

    ghost predicate Valid()
      reads this
    {
      Sound(View(), last, maps) && Tidy(pages, lru, nextId) && Counts(pages, held)
    }

    constructor (d: Disk, m: BlockMaps, answers: nat -> bool)
      ensures Valid() && Settled(View()) && last == d && disk == d && maps == m && pages == map[] && held == map[]
      ensures dirtyList == [] && supply == answers && asked == 0
    {
      pages, lru, dirtyList, assocs, nextId := map[], [], [], [], 0;
      disk, maps, last := d, m, d;
      supply, asked, held := answers, 0, map[];
    }

    /** Some request for memory after the first `from` was refused. */
    ghost predicate Refused(from: nat)
      reads this
    {
      RefusedIn(supply, from, asked)
    }

    /** A request to the memory allocator. */
    method Ask() returns (granted: bool)
      modifies this`asked
      ensures asked == old(asked) + 1 && granted == supply(old(asked))
    {
      granted := supply(asked);
      asked := asked + 1;
    }

    /** `page_cache_find` */
    method Find(k: Key) returns (r: Option<Id>)
      ensures r.Some? ==> r.value in pages && pages[r.value].key == k
      ensures r.None? ==> Uncached(pages, k)
    {
      if id :| id in pages.Keys && pages[id].key == k {
        return Some(id);
      }
      return None;
    }

    /** `page_cache_free_page` of a clean page nobody holds. */
    method FreePage(id: Id)
      requires Valid() && id in pages && pages[id].refs == 0 && !pages[id].dirty
      modifies this`pages, this`lru, this`assocs
      ensures Valid() && View() == Evict(old(View()), id) && |pages| == |old(pages)| - 1
    {
      EvictKeeps(View(), last, maps, id);
      CountsEvict(pages, held, id);
      TidyRemove(pages, lru, nextId, id);
      pages := pages - {id};
      lru := Without(lru, id);
      assocs := WithoutPage(assocs, id);
    }

    /** `page_cache_evict_one`: the least recently used page nobody holds and that is clean. */
    method EvictOne() returns (done: bool)
      requires Valid()
      modifies this`pages, this`lru, this`assocs
      ensures Valid() && Framed(old(View()), View()) && pages.Keys <= old(pages).Keys
      ensures forall id :: id in pages ==> pages[id] == old(pages)[id]
      ensures if done then |pages| < |old(pages)| else View() == old(View()) && NothingToEvict(pages)
      ensures done <==> !NothingToEvict(old(pages))
    {
      var i := 0;
      while i < |lru|
        invariant i <= |lru| && lru == old(lru) && View() == old(View())
        invariant forall j :: 0 <= j < i ==> lru[j] in pages && Busy(pages[lru[j]])
      {
        TidyMember(pages, lru, nextId, i);
        if !Busy(pages[lru[i]]) {
          EvictFramed(View(), lru[i]);
          FreePage(lru[i]);
          return true;
        }
        i := i + 1;
      }
      AllBusy(pages, lru, nextId);
      return false;
    }

    method AddPage(k: Key) returns (id: Id)
      requires Valid() && Uncached(pages, k) && |pages| < NR_PAGES
      modifies this`pages, this`lru, this`nextId
      ensures Valid() && id !in old(pages) && View() == NewPage(old(View()), id, k)
    {
      id := nextId;
      var p := Page(k, ZeroData(), 0, false, false);
      TidyAdd(pages, lru, id, p);
      CountsNew(pages, held, id, p);
      NewPageKeeps(View(), last, maps, id, k);
      pages := pages[id := p];
      lru := lru + [id];
      nextId := nextId + 1;
    }

    /** `page_cache_alloc`: asks for the descriptor and then for the page frame. */
    method Alloc(k: Key) returns (r: Option<Id>)
      requires Valid() && Uncached(pages, k)
      modifies this`pages, this`lru, this`assocs, this`nextId, this`asked
      ensures Valid() && Framed(old(View()), View())
      ensures Attempted(old(View()), View(), k, supply, old(asked), asked, r.Some?)
      ensures r.Some? ==> r.value in pages && pages[r.value].key == k
    {
      TidyCount(pages, lru, nextId);
      if |pages| >= NR_PAGES {
        var done := EvictOne();
        if !done {
          return None;
        }
      }
      var granted := Ask();
      if !granted {
        return None;
      }
      granted := Ask();
      if !granted {
        return None;
      }
      ghost var before := View();
      var id := AddPage(k);
      NewPageFramed(before, id, k);
      FramedTrans(old(View()), before, View());
      return Some(id);
    }

    /** `page_cache_sync_page` */
    method SyncPage(id: Id)
      requires Valid() && id in pages && pages[id].uptodate
      modifies this`pages, this`dirtyList, this`disk
      ensures Valid() && View() == Sync(old(View()), id) && held == old(held)
    {
      SyncKeeps(View(), last, maps, id);
      disk := disk[pages[id].key := pages[id].data];
      var p := pages[id].(dirty := false);
      CountsUpdate(pages, held, id, p);
      TidyUpdate(pages, lru, nextId, id, p);
      pages := pages[id := p];
      dirtyList := Without(dirtyList, id);
    }

    /** Takes a reference and moves the page to the recently used end. */
    method Touch(id: Id)
      requires Valid() && id in pages
      modifies this`pages, this`lru, this`held
      ensures Valid() && Framed(old(View()), View()) && pages.Keys == old(pages).Keys
      ensures pages[id] == old(pages)[id].(refs := old(pages)[id].refs + 1) && held == Taken(old(held), id, pages[id].key)
    {
      RefFramed(View(), id);
      CountsTake(pages, held, id);
      RefsKeep(View(), last, maps, id, pages[id].refs + 1);
      var p := pages[id].(refs := pages[id].refs + 1);
      TidyUpdate(pages, lru, nextId, id, p);
      TidyMove(pages[id := p], lru, nextId, id);
      pages := pages[id := p];
      lru := Without(lru, id) + [id];
      held := Taken(held, id, p.key);
    }

    /** `page_cache_put_page` */
    method Put(id: Id)
      requires Valid() && id in pages && pages[id].refs > 0
      modifies this`pages, this`held
      ensures Valid() && View() == SetRefs(old(View()), id, old(pages)[id].refs - 1)
      ensures held == Given(old(held), id)
    {
      CountsGive(pages, held, id);
      RefsKeep(View(), last, maps, id, pages[id].refs - 1);
      var p := pages[id].(refs := pages[id].refs - 1);
      TidyUpdate(pages, lru, nextId, id, p);
      pages := pages[id := p];
      held := Given(held, id);
    }

    /** `page_cache_read_physical`, when the page is not up to date. */
    method ReadPage(id: Id)
      requires Valid() && id in pages
      modifies this`pages
      ensures Valid() && View() == if old(pages)[id].uptodate then old(View()) else Load(old(View()), id)
      ensures Framed(old(View()), View())
      ensures pages.Keys == old(pages).Keys && pages[id].key == old(pages)[id].key && pages[id].refs == old(pages)[id].refs
      ensures pages[id].uptodate && pages[id].data == Held(last, pages[id].key)
    {
      if pages[id].uptodate {
        UpToDate(View(), last, maps, id);
        FramedSelf(View());
      } else {
        LoadFramed(View(), id);
        LoadKeeps(View(), last, maps, id);
        var p := pages[id].(data := Held(disk, pages[id].key), uptodate := true);
        CountsUpdate(pages, held, id, p);
        TidyUpdate(pages, lru, nextId, id, p);
        pages := pages[id := p];
      }
    }

    /**
     The search part of `page_cache_get`: while no page can be had, one dirty page is
     written out, so it ends after at most as many rounds as there are dirty pages.
     */
    method FindOrAlloc(k: Key, create: bool) returns (r: Option<Id>, e: Errno)
      requires Valid()
      modifies this`pages, this`lru, this`assocs, this`nextId, this`dirtyList, this`disk, this`asked
      ensures Valid() && Framed(old(View()), View()) && asked >= old(asked)
      ensures r.Some? ==> e == Ok && r.value in pages && pages[r.value].key == k
      ensures r.None? ==>
                if create then e == ENOMEM && Exhausted(pages, dirtyList, k, Refused(old(asked)))
                else e == ENODATA && Uncached(pages, k) && View() == old(View())
      ensures create ==> (r.None? <==> old(Fails(View(), k, supply, asked)))
    {
      FramedSelf(View());
      while true
        invariant Valid() && Framed(old(View()), View()) && asked >= old(asked)
        invariant if create then Fails(View(), k, supply, asked) <==> old(Fails(View(), k, supply, asked))
                  else View() == old(View())
        decreases |dirtyList|
      {
        r := Find(k);
        if r.Some? {
          return r, Ok;
        }
        if !create {
          return None, ENODATA;
        }
        ghost var before := View();
        r := AllocStep(k, old(asked));
        FramedTrans(old(View()), before, View());
        if r.Some? {
          return r, Ok;
        }
        if dirtyList == [] {
          return None, ENOMEM;
        }
        ghost var unsynced := View();
        WriteOutFirst();
        FramedTrans(old(View()), unsynced, View());
      }
    }

    /** One attempt of the search, and what is to be expected of the rest of it. */
    method AllocStep(k: Key, ghost from: nat) returns (r: Option<Id>)
      requires Valid() && Uncached(pages, k) && from <= asked
      modifies this`pages, this`lru, this`assocs, this`nextId, this`asked
      ensures Valid() && Framed(old(View()), View()) && asked >= old(asked)
      ensures r.Some? ==> r.value in pages && pages[r.value].key == k && !old(Fails(View(), k, supply, asked))
      ensures r.None? && dirtyList == [] ==>
                old(Fails(View(), k, supply, asked)) && Exhausted(pages, dirtyList, k, Refused(from))
      ensures r.None? && dirtyList != [] ==>
                && dirtyList[0] in pages
                && (Fails(Sync(View(), dirtyList[0]), k, supply, asked) <==> old(Fails(View(), k, supply, asked)))
    {
      r := Alloc(k);
      TidyCount(pages, lru, nextId);
      AttemptTells(old(View()), View(), last, maps, k, supply, from, old(asked), asked, r.Some?);
    }

    /** The oldest dirty page is written out. */
    method WriteOutFirst()
      requires Valid() && dirtyList != []
      modifies this`pages, this`dirtyList, this`disk
      ensures old(dirtyList[0]) in old(pages) && View() == Sync(old(View()), old(dirtyList[0]))
      ensures Valid() && Framed(old(View()), View()) && |dirtyList| < |old(dirtyList)|
    {
      DirtyFacts(View(), last, maps, dirtyList[0]);
      SyncFramed(View(), dirtyList[0]);
      SyncPage(dirtyList[0]);
    }

    /** The end of a lookup: the page is held and, if asked for, read. */
    method Hold(id: Id, read: bool)
      requires Valid() && id in pages
      modifies this`pages, this`lru, this`held
      ensures Valid() && Framed(old(View()), View()) && id in pages && pages[id].refs > 0
      ensures pages.Keys == old(pages).Keys && pages[id].key == old(pages)[id].key
      ensures held == Taken(old(held), id, pages[id].key)
      ensures read ==> pages[id].uptodate && pages[id].data == Held(last, pages[id].key)
    {
      Touch(id);
      if read {
        ghost var before := View();
        ReadPage(id);
        FramedTrans(old(View()), before, View());
      }
    }

    /**
     `page_cache_get`: the page for a block, held, and up to date if asked for.  Creating fails
     exactly when `Fails` foretells it; if memory is not refused, that is when the block is
     not cached and every page is held.
     */
    method Get(k: Key, create: bool, read: bool) returns (r: Option<Id>, e: Errno)
      requires Valid()
      modifies this`pages, this`lru, this`assocs, this`nextId, this`dirtyList, this`disk, this`asked, this`held
      ensures Valid() && Framed(old(View()), View()) && asked >= old(asked)
      ensures r.Some? ==> e == Ok && r.value in pages && pages[r.value].key == k && pages[r.value].refs > 0
      ensures r.Some? && read ==> pages[r.value].uptodate && pages[r.value].data == Held(last, k)
      ensures held == if r.Some? then Taken(old(held), r.value, k) else old(held)
      ensures r.None? ==>
                if create then e == ENOMEM && Exhausted(pages, dirtyList, k, Refused(old(asked)))
                else e == ENODATA && Uncached(old(pages), k)
      ensures create ==> (r.None? <==> old(Fails(View(), k, supply, asked)))
      ensures create && r.None? ==> Refused(old(asked)) || Crowded(old(held), k)
    {
      r, e := FindOrAlloc(k, create);
      if r.None? {
        TidyCount(pages, lru, nextId);
        CrowdedIs(pages, held, k);
        return;
      }
      ghost var before := View();
      Hold(r.value, read);
      FramedTrans(old(View()), before, View());
    }

    // ---- File indices ----

    /** New contents for a page, marked dirty: a write to its block. */
    method StorePage(id: Id, d: Data)
      requires Valid() && id in pages
      modifies this`pages, this`dirtyList, this`last
      ensures Valid() && View() == Store(old(View()), id, d) && last == old(last)[old(pages)[id].key := d]
    {
      StoreKeeps(View(), last, maps, id, d);
      var p := pages[id].(data := d, uptodate := true, dirty := true);
      CountsUpdate(pages, held, id, p);
      TidyUpdate(pages, lru, nextId, id, p);
      last := last[pages[id].key := d];
      if !pages[id].dirty {
        dirtyList := dirtyList + [id];
      }
      pages := pages[id := p];
    }

    /** New contents for a held page, which is then let go. */
    method StoreAndPut(id: Id, d: Data)
      requires Valid() && id in pages && pages[id].refs > 0
      modifies this`pages, this`dirtyList, this`last, this`held
      ensures Valid() && last == old(last)[old(pages)[id].key := d] && held == Given(old(held), id)
      ensures SettledBut(old(View()), id) ==> Settled(View())
    {
      StoreSettles(View(), id, d);
      StorePage(id, d);
      PutSettles(View(), id, pages[id].refs - 1);
      Put(id);
    }

    /** The same, with the page written out. */
    method StoreSyncPut(id: Id, d: Data)
      requires Valid() && id in pages && pages[id].refs > 0
      modifies this`pages, this`dirtyList, this`last, this`held, this`disk
      ensures Valid() && last == old(last)[old(pages)[id].key := d] && held == Given(old(held), id)
      ensures SettledBut(old(View()), id) ==> Settled(View())
    {
      StoreSettles(View(), id, d);
      StorePage(id, d);
      SyncSettles(View(), id);
      SyncPage(id);
      PutSettles(View(), id, pages[id].refs - 1);
      Put(id);
    }

    /** `ext2_zero_block`; nothing happens if no page can be had. */
    method ZeroBlock(k: Key) returns (zeroed: bool)
      requires Valid()
      modifies this
      ensures Valid() && maps == old(maps) && asked >= old(asked) && held == old(held)
      ensures last == if zeroed then old(last)[k := ZeroData()] else old(last)
      ensures !zeroed ==> Refused(old(asked)) || Crowded(old(held), k)
      ensures !zeroed <==> old(Fails(View(), k, supply, asked))
      ensures (Settled(old(View())) ==> Settled(View())) && Fewer(assocs, old(assocs))
    {
      var r, e := Get(k, true, true);
      if r.None? {
        FramedSettles(old(View()), View(), 0);
        return false;
      }
      FramedSettles(old(View()), View(), r.value);
      GivenTaken(old(pages), old(held), r.value, k);
      StoreSyncPut(r.value, ZeroData());
      return true;
    }

    /**
     `ext2_resolve_block`: the block of an index; a hole is filled with block `spareBlock`, if
     there is one, when creating.  Whether the block could be zeroed is not looked at.
     */
    method ResolveIndex(m: Mapping, index: nat, create: bool, spareBlock: Option<nat>)
      returns (b: Option<nat>, e: Errno, ghost zeroed: bool)
      requires Valid()
      modifies this
      ensures Valid() && (Settled(old(View())) ==> Settled(View())) && Fewer(assocs, old(assocs))
      ensures asked >= old(asked) && held == old(held)
      ensures Resolved(old(last), old(maps), last, maps, m, index, create, spareBlock, zeroed)
      ensures b == Resolve(maps, m, index)
      ensures !Fills(old(maps), m, index, create, spareBlock) ==> View() == old(View()) && asked == old(asked)
      ensures b.None? ==> NoPageFor(old(maps), m, index, create, true, spareBlock, e) && e != ENOMEM
      ensures !zeroed ==> Fills(old(maps), m, index, create, spareBlock)
                          && (Refused(old(asked)) || Crowded(old(held), Key(m.dev, spareBlock.value)))
      ensures Fills(old(maps), m, index, create, spareBlock) ==>
                (!zeroed <==> old(Fails(View(), Key(m.dev, spareBlock.value), supply, asked)))
    {
      b, zeroed := Resolve(maps, m, index), true;
      if b.Some? {
        return b, Ok, true;
      }
      if !create {
        return None, ENODATA, true;
      }
      if spareBlock.None? {
        return None, ENOSPC, true;
      }
      FillKeeps(View(), last, maps, m, index, spareBlock.value);
      maps := Filled(maps, m, index, spareBlock.value);
      var z := ZeroBlock(Key(m.dev, spareBlock.value));
      return spareBlock, Ok, z;
    }

    /** `page_cache_find_mapping`, the search. */
    method FindMapping(m: Mapping, index: nat) returns (i: nat)
      ensures i == AssocAt(assocs, m, index, 0)
    {
      i := 0;
      while i < |assocs| && !(assocs[i].mapping == m && assocs[i].index == index)
        invariant i <= |assocs| && AssocAt(assocs, m, index, i) == AssocAt(assocs, m, index, 0)
      {
        i := i + 1;
      }
    }

    /** `page_cache_assoc_add` for an index that has no association yet. */
    method AddAssoc(m: Mapping, index: nat, id: Id)
      requires Valid() && AssocOk(pages, maps, Assoc(m, index, id))
      modifies this`assocs
      ensures Valid() && assocs == old(assocs) + [Assoc(m, index, id)]
    {
      AssocAddKeeps(View(), last, maps, Assoc(m, index, id));
      assocs := assocs + [Assoc(m, index, id)];
    }

    /** `page_cache_assoc_add` on a held page, which is let go if there is no memory for it. */
    method Associate(m: Mapping, index: nat, id: Id) returns (granted: bool)
      requires Valid() && id in pages && pages[id].refs > 0 && AssocOk(pages, maps, Assoc(m, index, id))
      modifies this`pages, this`assocs, this`asked, this`held
      ensures Valid() && asked == old(asked) + 1 && granted == supply(old(asked))
      ensures granted ==> pages == old(pages) && held == old(held) && assocs == old(assocs) + [Assoc(m, index, id)]
      ensures !granted ==>
                held == Given(old(held), id) && assocs == old(assocs) && (Settled(old(View())) ==> Settled(View()))
    {
      granted := Ask();
      if granted {
        AddAssoc(m, index, id);
      } else {
        PutSettles(View(), id, pages[id].refs - 1);
        Put(id);
      }
    }

    /** The page of the block behind an index, associated with the index; `make` allows a new page. */
    method Attach(m: Mapping, index: nat, b: nat, make: bool, read: bool) returns (r: Option<Id>, e: Errno)
      requires Valid() && Resolve(maps, m, index) == Some(b)
      modifies this`pages, this`lru, this`assocs, this`nextId, this`dirtyList, this`disk, this`asked, this`held
      ensures Valid() && asked >= old(asked) && OnlyAdds(old(assocs), assocs, m, index)
      ensures r.Some? ==>
                && ReadyFor(pages, last, maps, m, index, read, r.value)
                && held == Taken(old(held), r.value, pages[r.value].key)
                && (Settled(old(View())) ==> SettledBut(View(), r.value))
      ensures r.None? ==> held == old(held) && (Settled(old(View())) ==> Settled(View()))
      ensures r.None? ==> e == ENOMEM || (e == ENODATA && !make && Uncached(old(pages), Key(m.dev, b)))
      ensures r.None? && e == ENOMEM && !Refused(old(asked)) ==>
                make && Crowded(held, Key(m.dev, b)) && Exhausted(pages, dirtyList, Key(m.dev, b), false)
    {
      r, e := Get(Key(m.dev, b), make, read);
      FramedSettles(old(View()), View(), if r.Some? then r.value else 0);
      if r.None? {
        return;
      }
      AddSettles(View(), Assoc(m, index, r.value));
      GivenTaken(old(pages), old(held), r.value, Key(m.dev, b));
      var granted := Associate(m, index, r.value);
      if !granted {
        return None, ENOMEM;
      }
    }

    /** The part of `page_cache_get_mapping` that asks the resolver and makes the association. */
    method GetResolved(m: Mapping, index: nat, create: bool, read: bool, spareBlock: Option<nat>)
      returns (r: Option<Id>, e: Errno, ghost zeroed: bool)
      requires Valid()
      modifies this
      ensures Valid() && asked >= old(asked)
      ensures Resolved(old(last), old(maps), last, maps, m, index, create, spareBlock, zeroed)
      ensures !zeroed ==> Fills(old(maps), m, index, create, spareBlock)
                          && (Refused(old(asked)) || Crowded(old(held), Key(m.dev, spareBlock.value)))
      ensures Fills(old(maps), m, index, create, spareBlock) ==>
                (!zeroed <==> old(Fails(View(), Key(m.dev, spareBlock.value), supply, asked)))
      ensures r.Some? ==>
                && ReadyFor(pages, last, maps, m, index, read, r.value)
                && held == Taken(old(held), r.value, pages[r.value].key)
                && (Settled(old(View())) ==> SettledBut(View(), r.value))
      ensures r.None? ==>
                && NoPageFor(old(maps), m, index, create, read, spareBlock, e)
                && (e == ENODATA && Resolve(maps, m, index).Some? ==>
                      Uncached(old(pages), Key(m.dev, Resolve(maps, m, index).value)))
                && held == old(held)
                && (Settled(old(View())) ==> Settled(View()))
      ensures r.None? && e == ENOMEM && !Refused(old(asked)) ==>
                var k := Target(old(maps), m, index, spareBlock).value;
                Crowded(old(held), k) && Exhausted(pages, dirtyList, k, false)
      ensures OnlyAdds(old(assocs), assocs, m, index)
    {
      var b;
      b, e, zeroed := ResolveIndex(m, index, create, spareBlock);
      if b.None? {
        return None, e, zeroed;
      }
      r, e := Attach(m, index, b.value, create || read, read);
    }

    /**
     `page_cache_get_mapping`: the held page of a file index.  An association found is
     used without asking the resolver; the page is the one the resolver would lead to.
     */
    method GetMapping(m: Mapping, index: nat, create: bool, read: bool, spareBlock: Option<nat>)
      returns (r: Option<Id>, e: Errno, ghost zeroed: bool)
      requires Valid()
      modifies this
      ensures Valid() && asked >= old(asked)
      ensures Resolved(old(last), old(maps), last, maps, m, index, create, spareBlock, zeroed)
      ensures !zeroed ==> Fills(old(maps), m, index, create, spareBlock)
                          && (Refused(old(asked)) || Crowded(old(held), Key(m.dev, spareBlock.value)))
      ensures Fills(old(maps), m, index, create, spareBlock) ==>
                (!zeroed <==> old(Fails(View(), Key(m.dev, spareBlock.value), supply, asked)))
      ensures r.Some? ==>
                && ReadyFor(pages, last, maps, m, index, read, r.value)
                && held == Taken(old(held), r.value, pages[r.value].key)
                && (Settled(old(View())) ==> SettledBut(View(), r.value))
      ensures r.None? ==>
                && NoPageFor(old(maps), m, index, create, read, spareBlock, e)
                && (e == ENODATA && Resolve(maps, m, index).Some? ==>
                      Uncached(old(pages), Key(m.dev, Resolve(maps, m, index).value)))
                && held == old(held)
                && (Settled(old(View())) ==> Settled(View()))
      ensures r.None? && e == ENOMEM && !Refused(old(asked)) ==>
                var k := Target(old(maps), m, index, spareBlock).value;
                Crowded(old(held), k) && Exhausted(pages, dirtyList, k, false)
      ensures OnlyAdds(old(assocs), assocs, m, index)
    {
      var i := FindMapping(m, index);
      if i < |assocs| {
        HitIsResolved(View(), last, maps, i);
        var id := assocs[i].page;
        Hold(id, read);
        FramedSettles(old(View()), View(), id);
        return Some(id), Ok, true;
      }
      r, e, zeroed := GetResolved(m, index, create, read, spareBlock);
    }

    /** One block of `ext2_read_file`: None when no page can be had. */
    method ReadIndex(m: Mapping, index: nat) returns (d: Option<Data>)
      requires Valid()
      modifies this
      ensures Valid() && last == old(last) && maps == old(maps)
      ensures asked >= old(asked) && held == old(held)
      ensures Settled(old(View())) ==> Settled(View())
      ensures d.Some? ==> d.value == Contents(last, maps, m, index)
      ensures d.None? ==> Resolve(maps, m, index).Some?
                          && (Refused(old(asked)) || Crowded(old(held), Key(m.dev, Resolve(maps, m, index).value)))
      ensures d.Some? && Resolve(maps, m, index).Some? ==>
                !Crowded(old(held), Key(m.dev, Resolve(maps, m, index).value))
    {
      var r, e, zeroed := GetMapping(m, index, false, true, None);
      if r.None? {
        return if e == ENODATA then Some(ZeroData()) else None;
      }
      d := Some(pages[r.value].data);
      TidyCount(pages, lru, nextId);
      TakenWasFree(pages, old(held), r.value, pages[r.value].key);
      SettleRead(View(), r.value);
      PutSettles(View(), r.value, pages[r.value].refs - 1);
      GivenTaken(old(pages), old(held), r.value, pages[r.value].key);
      Put(r.value);
    }

    /**
     One block of `ext2_write_file`: a whole block needs no read first.  `spareBlock` is
     what the allocator would hand out.
     */
    method WriteIndex(m: Mapping, index: nat, off: nat, bytes: seq<Byte>, spareBlock: Option<nat>)
      returns (e: Errno, ghost zeroed: bool)
      requires Valid() && m.File? && Injective(maps) && 0 < |bytes| && off + |bytes| <= BLOCK_SIZE
      requires spareBlock.Some? ==> Unused(maps, m.dev, spareBlock.value)
      modifies this
      ensures Valid() && Injective(maps) && asked >= old(asked) && held == old(held)
      ensures Settled(old(View())) ==> Settled(View())
      ensures WriteDone(old(last), old(maps), last, maps, m, index, spareBlock, zeroed, e == Ok, off, bytes)
      ensures !zeroed ==> Fills(old(maps), m, index, true, spareBlock)
                          && (Refused(old(asked)) || Crowded(old(held), Key(m.dev, spareBlock.value)))
      ensures Fills(old(maps), m, index, true, spareBlock) ==>
                (!zeroed <==> old(Fails(View(), Key(m.dev, spareBlock.value), supply, asked)))
      ensures if e == Ok then Resolve(maps, m, index).Some? else NoPageFor(old(maps), m, index, true, true, spareBlock, e)
      ensures e == ENOMEM && !Refused(old(asked)) ==>
                Crowded(old(held), Target(old(maps), m, index, spareBlock).value)
      ensures e == Ok ==> !Crowded(old(held), Key(m.dev, Resolve(maps, m, index).value))
    {
      var whole := off == 0 && |bytes| == BLOCK_SIZE;
      var r;
      r, e, zeroed := GetMapping(m, index, true, !whole, spareBlock);
      LookupWrote(old(last), old(maps), last, maps, m, index, spareBlock, zeroed, off, bytes);
      if r.None? {
        return;
      }
      var id := r.value;
      var d := if whole then bytes else Patch(pages[id].data, off, bytes);
      WriteTheorem(old(last), old(maps), last, maps, m, index, spareBlock, zeroed, off, bytes, pages[id].key, d);
      TidyCount(pages, lru, nextId);
      TakenWasFree(pages, old(held), id, pages[id].key);
      GivenTaken(old(pages), old(held), id, pages[id].key);
      StoreAndPut(id, d);
      e := Ok;
    }

    // ---- Truncation ----

    /** A page without associations loses its dirty and up-to-date flags. */
    method DropPage(id: Id)
      requires Valid() && id in pages
      modifies this`pages, this`dirtyList, this`last
      ensures Valid() && View() == Drop(old(View()), id)
      ensures last == old(last)[old(pages)[id].key := Held(disk, old(pages)[id].key)]
    {
      DropKeeps(View(), last, maps, id);
      var p := pages[id].(uptodate := false, dirty := false);
      CountsUpdate(pages, held, id, p);
      TidyUpdate(pages, lru, nextId, id, p);
      last := last[pages[id].key := Held(disk, pages[id].key)];
      pages := pages[id := p];
      dirtyList := Without(dirtyList, id);
    }

    /** Removes the association at `i`; the page is dropped if it was the last one. */
    method RemoveAssoc(i: nat)
      requires Valid() && Settled(View()) && i < |assocs|
      modifies this`assocs, this`pages, this`dirtyList, this`last
      ensures Valid() && Settled(View()) && assocs == old(assocs)[..i] + old(assocs)[i + 1..]
      ensures old(assocs)[i].page in old(pages)
      ensures var k := old(pages)[old(assocs)[i].page].key;
              last == old(last) || last == old(last)[k := Held(disk, k)]
    {
      var id := assocs[i].page;
      HitIsResolved(View(), last, maps, i);
      var rest := assocs[..i] + assocs[i + 1..];
      AssocSubsetKeeps(View(), last, maps, rest);
      RestSettles(View(), rest);
      assocs := rest;
      if forall j :: 0 <= j < |assocs| ==> assocs[j].page != id {
        DropSettles(View(), id);
        DropPage(id);
      }
    }

    /**
     `page_cache_truncate_mapping`: the associations from the new end on go, and a cached
     last block gets zeros behind the end.
     */
    method TruncateMapping(m: Mapping, size: nat)
      requires Valid() && Settled(View()) && m.File? && Injective(maps)
      modifies this`assocs, this`pages, this`dirtyList, this`last
      ensures Valid() && Settled(View()) && NoneFrom(assocs, m, KeepBlocks(size))
      ensures Trimmed(old(last), last, maps, m, KeepBlocks(size), size / 4096, size % 4096)
    {
      var tail, off, keep := size / 4096, size % 4096, KeepBlocks(size);
      var i := 0;
      while i < |assocs|
        invariant i <= |assocs| && Valid() && Settled(View()) && held == old(held)
        invariant NoneFrom(assocs[..i], m, keep) && Trimmed(old(last), last, maps, m, keep, tail, off)
        decreases |assocs| - i
      {
        var a := assocs[i];
        HitIsResolved(View(), last, maps, i);
        NoneFromMore(assocs, i, m, keep);
        if a.mapping != m || a.index < tail {
          i := i + 1;
        } else if a.index == tail && off != 0 {
          UpToDate(View(), last, maps, a.page);
          TrimZero(old(last), last, maps, m, keep, tail, off);
          StoreSettled(View(), a.page, ZeroFrom(pages[a.page].data, off));
          StorePage(a.page, ZeroFrom(pages[a.page].data, off));
          i := i + 1;
        } else {
          TrimDrop(old(last), last, maps, m, keep, tail, off, a.index, Held(disk, pages[a.page].key));
          RestOf(assocs, i);
          RemoveAssoc(i);
        }
      }
      assert assocs[..i] == assocs;
    }

    /** `ext2_zero_truncate_tail`: zeros behind the new end of the last block kept, on the disk too. */
    method ZeroTail(m: Mapping, size: nat) returns (done: bool)
      requires Valid() && Settled(View()) && m.File? && Injective(maps)
      modifies this
      ensures Valid() && Settled(View()) && maps == old(maps)
      ensures asked >= old(asked) && held == old(held)
      ensures NoneFrom(old(assocs), m, KeepBlocks(size)) ==> NoneFrom(assocs, m, KeepBlocks(size))
      ensures last == if done && size % 4096 != 0 then Tailed(old(last), maps, m, size / 4096, size % 4096) else old(last)
      ensures !done ==> size % 4096 != 0 && Resolve(maps, m, size / 4096).Some?
                        && (Refused(old(asked)) || Crowded(old(held), Key(m.dev, Resolve(maps, m, size / 4096).value)))
    {
      var tail, off := size / 4096, size % 4096;
      if off == 0 || Resolve(maps, m, tail).None? {
        return true;
      }
      var r, e, zeroed := GetMapping(m, tail, false, true, None);
      if r.None? {
        return false;
      }
      var id := r.value;
      GivenTaken(old(pages), old(held), id, pages[id].key);
      StoreSyncPut(id, ZeroFrom(pages[id].data, off));
      return true;
    }

    /**
     The page-cache side of `ext2_truncate_inode` making a file smaller, with the block map
     cut at the end: what is left reads as before, what is gone reads as zeros.  It gives up
     only over a partly kept last block for which no page can be had; the blocks that were to
     stay then still read as before, but for zeros behind the end in the last one.
     */
    method Shrink(m: Mapping, size: nat) returns (done: bool)
      requires Valid() && Settled(View()) && m.File? && Injective(maps)
      modifies this
      ensures Valid() && Settled(View()) && Injective(maps)
      ensures asked >= old(asked) && held == old(held)
      ensures maps == if done then Cut(old(maps), m, KeepBlocks(size)) else old(maps)
      ensures done ==> Shrunk(old(last), old(maps), last, maps, m, size)
      ensures !done ==> && Trimmed(old(last), last, maps, m, KeepBlocks(size), size / 4096, size % 4096)
                        && size % 4096 != 0 && Resolve(maps, m, size / 4096).Some?
                        && (Refused(old(asked)) || AllHeld(old(held)))
    {
      TruncateMapping(m, size);
      ghost var trimmed := last;
      done := ZeroTail(m, size);
      if done {
        CutKeeps(View(), last, maps, m, KeepBlocks(size));
        CutInjective(maps, m, KeepBlocks(size));
        ShrinkTheorem(old(last), trimmed, last, maps, m, size);
        maps := Cut(maps, m, KeepBlocks(size));
      }
    }

    // ---- Write-back ----

    /**
     The pages of one run, collected in one pass over the dirty list: `at` are the places in
     the list of the pages after the first.
     */
    method GatherRun(start: Id, m: Option<Mapping>) returns (run: seq<Id>, ghost at: seq<nat>)
      requires Valid() && start in dirtyList
      ensures RunOf(pages, run) && run[0] == start
      ensures Gathered(pages, assocs, dirtyList, m, run, at, |dirtyList|)
    {
      DirtyFacts(View(), last, maps, start);
      run, at := [start], [];
      var i := 0;
      while i < |dirtyList|
        invariant i <= |dirtyList| && RunOf(pages, run) && run[0] == start
        invariant Gathered(pages, assocs, dirtyList, m, run, at, i)
      {
        var id := dirtyList[i];
        DirtyFacts(View(), last, maps, id);
        GatherStep(pages, assocs, dirtyList, m, run, at, i);
        if |run| < WB_MAX && id != start && Continues(pages, assocs, m, run, dirtyList, i) {
          run, at := run + [id], at + [i];
        }
        i := i + 1;
      }
    }

    /** One device write of the whole run: block `k.block + i` gets page `i`. */
    method WriteBlocks(run: seq<Id>)
      requires Valid() && RunOf(pages, run)
      modifies this`disk
      ensures Valid() && AllOnDisk(pages, run, disk, last)
    {
      var k := pages[run[0]].key;
      var i := 0;
      while i < |run|
        invariant i <= |run| && Valid() && AllOnDisk(pages, run[..i], disk, last)
      {
        RunMember(pages, run, i);
        UpToDateDirty(View(), last, maps, run[i]);
        PutDiskKeeps(View(), last, maps, Key(k.dev, k.block + i));
        StaysOnDisk(pages, run, i, disk, last);
        disk := disk[Key(k.dev, k.block + i) := pages[run[i]].data];
        i := i + 1;
      }
      assert run[..i] == run;
    }

    /** The run's pages are clean once the write is done. */
    method CleanRun(run: seq<Id>)
      requires Valid() && RunOf(pages, run) && AllOnDisk(pages, run, disk, last)
      modifies this`pages, this`dirtyList
      ensures Valid() && Framed(old(View()), View()) && |dirtyList| < |old(dirtyList)|
    {
      var i := 0;
      FramedSelf(View());
      StartListed(View(), last, maps, run[0]);
      while i < |run|
        invariant i <= |run| && Valid() && Framed(old(View()), View())
        invariant AllOnDisk(pages, run, disk, last) && held == old(held)
        invariant if i == 0 then dirtyList == old(dirtyList) else |dirtyList| < |old(dirtyList)|
      {
        OnDiskMember(pages, run, i, disk, last);
        var p := pages[run[i]].(dirty := false);
        TidyUpdate(pages, lru, nextId, run[i], p);
        CountsUpdate(pages, held, run[i], p);
        CleanKeeps(View(), last, maps, run[i]);
        CleanFramed(View(), run[i]);
        FramedTrans(old(View()), View(), Clean(View(), run[i]));
        CleanOnDisk(pages, run, run[i], p, disk, last);
        pages := pages[run[i] := p];
        dirtyList := Without(dirtyList, run[i]);
        i := i + 1;
      }
    }

    /** `page_cache_wb_run` */
    method WriteRun(start: Id, m: Option<Mapping>)
      requires Valid() && start in dirtyList
      modifies this`pages, this`dirtyList, this`disk
      ensures Valid() && Framed(old(View()), View()) && |dirtyList| < |old(dirtyList)|
    {
      var run, at := GatherRun(start, m);
      WriteBlocks(run);
      ghost var s := View();
      DiskFramed(old(View()), s);
      CleanRun(run);
      FramedTrans(old(View()), s, View());
    }

    /** The first association of the mapping whose page is dirty. */
    method FindDirty(m: Mapping) returns (r: Option<Id>)
      requires Valid()
      ensures r.Some? ==> r.value in dirtyList
      ensures r.None? ==> forall i :: 0 <= i < |assocs| && assocs[i].mapping == m ==> assocs[i].page !in dirtyList
    {
      var i := 0;
      while i < |assocs|
        invariant i <= |assocs|
        invariant forall j :: 0 <= j < i && assocs[j].mapping == m ==> assocs[j].page !in dirtyList
      {
        HitIsResolved(View(), last, maps, i);
        var id := assocs[i].page;
        ListedIffDirty(View(), last, maps, id);
        if assocs[i].mapping == m && pages[id].dirty {
          return Some(id);
        }
        i := i + 1;
      }
      return None;
    }

    /** `page_cache_sync_mapping`: ends with every page of the mapping clean and on the disk. */
    method SyncMapping(m: Mapping)
      requires Valid()
      modifies this`pages, this`dirtyList, this`disk
      ensures Valid() && Framed(old(View()), View()) && held == old(held)
      ensures forall i :: 0 <= i < |assocs| && assocs[i].mapping == m ==>
                assocs[i].page in pages && OnDisk(pages[assocs[i].page].key, disk, last)
    {
      FramedSelf(View());
      var r := FindDirty(m);
      while r.Some?
        invariant Valid() && Framed(old(View()), View()) && held == old(held)
        invariant r.Some? ==> r.value in dirtyList
        invariant r.None? ==> forall i :: 0 <= i < |assocs| && assocs[i].mapping == m ==> assocs[i].page !in dirtyList
        decreases |dirtyList|, r.Some?
      {
        ghost var s := View();
        WriteRun(r.value, Some(m));
        FramedTrans(old(View()), s, View());
        r := FindDirty(m);
      }
      forall i | 0 <= i < |assocs| && assocs[i].mapping == m
        ensures assocs[i].page in pages && OnDisk(pages[assocs[i].page].key, disk, last)
      {
        HitIsResolved(View(), last, maps, i);
        CleanIsOnDisk(View(), last, maps, assocs[i].page);
      }
    }

    /** `page_cache_sync_all`: ends with the disk holding every last write. */
    method SyncAll()
      requires Valid()
      modifies this`pages, this`dirtyList, this`disk
      ensures Valid() && Framed(old(View()), View()) && dirtyList == [] && held == old(held)
      ensures forall k :: Held(disk, k) == Held(last, k)
    {
      FramedSelf(View());
      while dirtyList != []
        invariant Valid() && Framed(old(View()), View()) && held == old(held)
        decreases |dirtyList|
      {
        ghost var s := View();
        WriteRun(dirtyList[0], None);
        FramedTrans(old(View()), s, View());
      }
      forall k ensures Held(disk, k) == Held(last, k) {
        CleanMeansSynced(View(), last, maps, k);
      }
    }
  }
}
