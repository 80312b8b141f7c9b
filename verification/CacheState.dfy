/**
 Facts about the page cache's state that its operations rest on: the LRU list, what a
 lookup may change besides, file indices, truncation and write-back runs.
 */
module CacheState {
  import opened Arith
  import opened Seqs
  import opened Wrappers
  import opened Pages
  import opened FileView

  datatype Errno = Ok | ENODATA | ENOMEM | ENOSPC

  const NR_PAGES: nat := 512
  const WB_MAX: nat := 32

  /** Every cached page is on the LRU list, once. */
  ghost predicate LruOk(pages: map<Id, Page>, lru: seq<Id>) {
    NoRepeats(lru) && forall id :: id in lru <==> id in pages
  }

  predicate OpenLru(pages: map<Id, Page>, lru: seq<Id>, w: int) {
    true
  }

  predicate OpenFrame(s: State, s': State, w: int) {
    true
  }

  /** The LRU list, the number of pages and the next free id; closed like `Sound`. */
  ghost predicate Tidy(pages: map<Id, Page>, lru: seq<Id>, nextId: Id) {
    forall w {:trigger OpenLru(pages, lru, w)} :: OpenLru(pages, lru, w) ==>
      LruOk(pages, lru) && |pages| <= NR_PAGES && forall id :: id in pages ==> id < nextId
  }

  lemma TidyUpdate(pages: map<Id, Page>, lru: seq<Id>, n: Id, id: Id, p: Page)
    requires Tidy(pages, lru, n) && id in pages
    ensures Tidy(pages[id := p], lru, n)
  {
    assert OpenLru(pages, lru, 0);
    assert pages[id := p].Keys == pages.Keys;
  }

  lemma TidyMove(pages: map<Id, Page>, lru: seq<Id>, n: Id, id: Id)
    requires Tidy(pages, lru, n) && id in pages
    ensures Tidy(pages, Without(lru, id) + [id], n)
  {
    assert OpenLru(pages, lru, 0);
    var r := Without(lru, id);
    WithoutNoRepeats(lru, id);
    assert forall i :: 0 <= i < |r| ==> r[i] in r;
  }

  lemma TidyRemove(pages: map<Id, Page>, lru: seq<Id>, n: Id, id: Id)
    requires Tidy(pages, lru, n) && id in pages
    ensures Tidy(pages - {id}, Without(lru, id), n) && |pages - {id}| == |pages| - 1
  {
    assert OpenLru(pages, lru, 0);
    WithoutNoRepeats(lru, id);
    assert (pages - {id}).Keys == pages.Keys - {id};
  }

  lemma TidyAdd(pages: map<Id, Page>, lru: seq<Id>, n: Id, p: Page)
    requires Tidy(pages, lru, n) && |pages| < NR_PAGES
    ensures n !in pages && Tidy(pages[n := p], lru + [n], n + 1)
  {
    assert OpenLru(pages, lru, 0);
    assert forall i :: 0 <= i < |lru| ==> lru[i] in lru;
    assert pages[n := p].Keys == pages.Keys + {n};
  }

  lemma TidyMember(pages: map<Id, Page>, lru: seq<Id>, n: Id, i: nat)
    requires Tidy(pages, lru, n) && i < |lru|
    ensures lru[i] in pages
  {
    assert OpenLru(pages, lru, 0);
    assert lru[i] in lru;
  }

  predicate Busy(p: Page) {
    p.refs > 0 || p.dirty
  }

  lemma TidyCount(pages: map<Id, Page>, lru: seq<Id>, n: Id)
    requires Tidy(pages, lru, n)
    ensures |pages| <= NR_PAGES
  {
    assert OpenLru(pages, lru, 0);
  }

  lemma AllBusy(pages: map<Id, Page>, lru: seq<Id>, n: Id)
    requires Tidy(pages, lru, n) && forall j :: 0 <= j < |lru| ==> lru[j] in pages && Busy(pages[lru[j]])
    ensures NothingToEvict(pages)
  {
    assert OpenLru(pages, lru, 0);
  }

  /** Pages someone holds stay, with the contents they had. */
  ghost predicate Carried(a: map<Id, Page>, b: map<Id, Page>) {
    forall id {:trigger a[id]} {:trigger b[id]} :: id in a && a[id].refs > 0 ==>
      && id in b && b[id].key == a[id].key && b[id].refs >= a[id].refs
      && (a[id].uptodate ==> b[id].uptodate && b[id].data == a[id].data)
  }

  ghost predicate OnlyAdds(a: seq<Assoc>, b: seq<Assoc>, m: Mapping, index: nat) {
    forall x :: x in b ==> x in a || (x.mapping == m && x.index == index)
  }

  ghost predicate Fewer(a: seq<Assoc>, b: seq<Assoc>) {
    forall x :: x in a ==> x in b
  }

  /** What a lookup does to the cache besides: held pages stay, associations may go, none is left unsettled. */
  ghost predicate Framed(s: State, s': State) {
    forall w {:trigger OpenFrame(s, s', w)} :: OpenFrame(s, s', w) ==>
      Carried(s.pages, s'.pages) && Fewer(s'.assocs, s.assocs) && (Settled(s) ==> Settled(s'))
  }

  lemma FramedTrans(a: State, b: State, c: State)
    requires Framed(a, b) && Framed(b, c)
    ensures Framed(a, c)
  {
    assert OpenFrame(a, b, 0) && OpenFrame(b, c, 0);
    forall id | id in a.pages && a.pages[id].refs > 0
      ensures id in c.pages && c.pages[id].key == a.pages[id].key && c.pages[id].refs >= a.pages[id].refs
      ensures a.pages[id].uptodate ==> c.pages[id].uptodate && c.pages[id].data == a.pages[id].data
    {
      assert b.pages[id].refs > 0;
    }
  }

  /** All pages are held or dirty: nothing can be evicted. */
  ghost predicate NothingToEvict(pages: map<Id, Page>) {
    forall id :: id in pages ==> Busy(pages[id])
  }

  ghost predicate EveryPageHeld(pages: map<Id, Page>) {
    forall id :: id in pages ==> pages[id].refs > 0
  }

  /** The references taken on pages and not given back: the page's block, and how many. */
  type Refs = map<Id, (Key, nat)>

  /** The cache is full and somebody holds every page of it. */
  ghost predicate AllHeld(held: Refs) {
    |held| == NR_PAGES
  }

  /** As long as this lasts no page for `k` can be had. */
  ghost predicate Crowded(held: Refs, k: Key) {
    AllHeld(held) && forall id :: id in held ==> held[id].0 != k
  }

  /** No page for `k` was had: nothing is left to write out, and memory was refused or every page is held. */
  ghost predicate Exhausted(pages: map<Id, Page>, dirty: seq<Id>, k: Key, refused: bool) {
    Uncached(pages, k) && dirty == [] && (refused || (|pages| == NR_PAGES && EveryPageHeld(pages)))
  }

  lemma CleanAndBusy(s: State, last: Disk, maps: BlockMaps)
    requires Sound(s, last, maps) && s.dirty == []
    ensures NothingToEvict(s.pages) ==> EveryPageHeld(s.pages)
  {
    assert Open(s, 0);
    assert forall id :: id in s.pages ==> id !in s.dirty;
  }

  ghost predicate Uncached(pages: map<Id, Page>, k: Key) {
    forall id :: id in pages ==> pages[id].key != k
  }

  // ---- References ----

  predicate OpenHeld(pages: map<Id, Page>, held: Refs, w: int) {
    true
  }

  /** `held` are the references counted in the pages; closed like `Sound`. */
  ghost predicate Counts(pages: map<Id, Page>, held: Refs) {
    forall w {:trigger OpenHeld(pages, held, w)} :: OpenHeld(pages, held, w) ==>
      && (forall id :: id in held ==> id in pages && pages[id].refs > 0 && held[id] == (pages[id].key, pages[id].refs))
      && (forall id :: id in pages && pages[id].refs > 0 ==> id in held)
  }

  /** One reference more. */
  ghost function Taken(held: Refs, id: Id, k: Key): Refs {
    held[id := if id in held then (held[id].0, held[id].1 + 1) else (k, 1)]
  }

  /** One reference less. */
  ghost function Given(held: Refs, id: Id): Refs {
    if id !in held || held[id].1 <= 1 then held - {id} else held[id := (held[id].0, held[id].1 - 1)]
  }

  /** A reference taken and given back leaves no trace. */
  lemma GivenTaken(pages: map<Id, Page>, held: Refs, id: Id, k: Key)
    requires Counts(pages, held)
    ensures Given(Taken(held, id, k), id) == held
  {
    assert OpenHeld(pages, held, 0);
  }

  lemma CountsUpdate(pages: map<Id, Page>, held: Refs, id: Id, p: Page)
    requires Counts(pages, held) && id in pages && p.key == pages[id].key && p.refs == pages[id].refs
    ensures Counts(pages[id := p], held)
  {
    assert OpenHeld(pages, held, 0);
  }

  lemma CountsTake(pages: map<Id, Page>, held: Refs, id: Id)
    requires Counts(pages, held) && id in pages
    ensures Counts(pages[id := pages[id].(refs := pages[id].refs + 1)], Taken(held, id, pages[id].key))
  {
    assert OpenHeld(pages, held, 0);
  }

  lemma CountsGive(pages: map<Id, Page>, held: Refs, id: Id)
    requires Counts(pages, held) && id in pages && pages[id].refs > 0
    ensures Counts(pages[id := pages[id].(refs := pages[id].refs - 1)], Given(held, id))
  {
    assert OpenHeld(pages, held, 0);
  }

  lemma CountsEvict(pages: map<Id, Page>, held: Refs, id: Id)
    requires Counts(pages, held) && id in pages && pages[id].refs == 0
    ensures Counts(pages - {id}, held)
  {
    assert OpenHeld(pages, held, 0);
  }

  lemma CountsNew(pages: map<Id, Page>, held: Refs, id: Id, p: Page)
    requires Counts(pages, held) && id !in pages && p.refs == 0
    ensures Counts(pages[id := p], held)
  {
    assert OpenHeld(pages, held, 0);
  }

  /** A full cache whose pages are all held is one whose references cover every page. */
  lemma AllHeldIs(pages: map<Id, Page>, held: Refs)
    requires Counts(pages, held) && |pages| <= NR_PAGES
    ensures AllHeld(held) <==> |pages| == NR_PAGES && EveryPageHeld(pages)
  {
    assert OpenHeld(pages, held, 0);
    assert held.Keys <= pages.Keys;
    if EveryPageHeld(pages) {
      assert held.Keys == pages.Keys;
    }
    if AllHeld(held) {
      SameSize(held.Keys, pages.Keys);
    }
  }

  lemma CrowdedIs(pages: map<Id, Page>, held: Refs, k: Key)
    requires Counts(pages, held) && |pages| <= NR_PAGES
    ensures Crowded(held, k) <==> Uncached(pages, k) && |pages| == NR_PAGES && EveryPageHeld(pages)
  {
    AllHeldIs(pages, held);
    assert OpenHeld(pages, held, 0);
  }

  lemma SameSize(a: set<Id>, b: set<Id>)
    requires a <= b && |b| <= |a|
    ensures a == b
  {
    assert b == a + (b - a) && |b - a| == |b| - |a|;
  }

  /** Whoever got a page for `k` did not find all pages held by others. */
  lemma TakenWasFree(pages: map<Id, Page>, held: Refs, id: Id, k: Key)
    requires Counts(pages, Taken(held, id, k)) && |pages| <= NR_PAGES && id in pages && pages[id].key == k
    ensures !Crowded(held, k)
  {
    var after := Taken(held, id, k);
    assert OpenHeld(pages, after, 0);
    if id !in held {
      assert after.Keys == held.Keys + {id} && after.Keys <= pages.Keys;
      assert |pages.Keys - after.Keys| == |pages.Keys| - |after.Keys|;
    }
  }

  /** The `n`th request for memory is answered by `supply(n)`; some request in between was refused. */
  ghost predicate RefusedIn(supply: nat -> bool, from: nat, to: nat) {
    exists n: nat :: from <= n < to && !supply(n)
  }

  lemma FramedSelf(s: State)
    ensures Framed(s, s)
  {
  }

  lemma EvictFramed(s: State, id: Id)
    requires id in s.pages && s.pages[id].refs == 0
    ensures Framed(s, Evict(s, id))
  {
    EvictSettles(s, id);
  }

  lemma SyncFramed(s: State, id: Id)
    requires id in s.pages
    ensures Framed(s, Sync(s, id))
  {
  }

  lemma NewPageFramed(s: State, id: Id, k: Key)
    requires id !in s.pages
    ensures Framed(s, NewPage(s, id, k))
  {
  }

  lemma LoadFramed(s: State, id: Id)
    requires id in s.pages && !s.pages[id].uptodate
    ensures Framed(s, Load(s, id))
  {
  }

  lemma RefFramed(s: State, id: Id)
    requires id in s.pages
    ensures Framed(s, SetRefs(s, id, s.pages[id].refs + 1))
  {
  }

  // ---- File indices ----

  /** Every associated page but one is up to date. */
  ghost predicate SettledBut(s: State, id: Id) {
    forall i :: 0 <= i < |s.assocs| ==>
      s.assocs[i].page in s.pages && (s.assocs[i].page == id || s.pages[s.assocs[i].page].uptodate)
  }

  lemma FramedSettles(s: State, s': State, id: Id)
    requires Framed(s, s')
    ensures Settled(s) ==> Settled(s') && SettledBut(s', id)
    ensures Fewer(s'.assocs, s.assocs)
  {
    assert OpenFrame(s, s', 0);
  }

  /**
   What looking up an index does to blocks and maps: a hole is filled when that is asked for
   and there is a block; the block is zeroed if a page for it was had.
   */
  ghost predicate Resolved(last: Disk, maps: BlockMaps, last': Disk, maps': BlockMaps, m: Mapping, index: nat,
                           create: bool, spareBlock: Option<nat>, zeroed: bool) {
    if Resolve(maps, m, index).None? && create && spareBlock.Some?
    then
      && maps' == Filled(maps, m, index, spareBlock.value)
      && last' == if zeroed then last[Key(m.dev, spareBlock.value) := ZeroData()] else last
    else last' == last && maps' == maps
  }

  /** Why a lookup gave no page. */
  ghost predicate NoPageFor(maps: BlockMaps, m: Mapping, index: nat, create: bool, read: bool, spareBlock: Option<nat>,
                            e: Errno) {
    match e
    case Ok => false
    case ENODATA => !create && (Resolve(maps, m, index).None? || !read)
    case ENOSPC => Resolve(maps, m, index).None? && create && spareBlock.None?
    case ENOMEM => Resolve(maps, m, index).Some? || (create && spareBlock.Some?)
  }

  /** A hole is to be filled with a block. */
  predicate Fills(maps: BlockMaps, m: Mapping, index: nat, create: bool, spareBlock: Option<nat>) {
    Resolve(maps, m, index).None? && create && spareBlock.Some?
  }

  /** The block that a lookup of the index leads to. */
  function Target(maps: BlockMaps, m: Mapping, index: nat, spareBlock: Option<nat>): Option<Key> {
    match Resolve(maps, m, index)
    case Some(b) => Some(Key(m.dev, b))
    case None => if spareBlock.Some? then Some(Key(m.dev, spareBlock.value)) else None
  }

  /** What a block holds before it is written: a hole filled with a block not zeroed shows that block's old bytes. */
  ghost function Ground(last: Disk, maps: BlockMaps, maps': BlockMaps, m: Mapping, index: nat, zeroed: bool): Data {
    if Resolve(maps, m, index).None? && !zeroed then Contents(last, maps', m, index) else Contents(last, maps, m, index)
  }

  /** Every block but `k` holds what it held. */
  ghost predicate OnlyBlock(last: Disk, last': Disk, k: Option<Key>) {
    forall k' {:trigger Held(last', k')} :: Some(k') != k ==> Held(last', k') == Held(last, k')
  }

  ghost predicate OthersSame(last: Disk, maps: BlockMaps, last': Disk, maps': BlockMaps, m: Mapping, index: nat) {
    forall m': Mapping, i: nat {:trigger Contents(last', maps', m', i)} :: m'.File? && (m', i) != (m, index) ==>
      Contents(last', maps', m', i) == Contents(last, maps, m', i)
  }

  /** A lookup changes only the index it fills, and shows there what the block held if it was not zeroed. */
  lemma ResolvedShows(last: Disk, maps: BlockMaps, last': Disk, maps': BlockMaps,
                      m: Mapping, index: nat, create: bool, spareBlock: Option<nat>, zeroed: bool)
    requires Injective(maps) && m.File? && Resolved(last, maps, last', maps', m, index, create, spareBlock, zeroed)
    requires spareBlock.Some? ==> Unused(maps, m.dev, spareBlock.value)
    ensures Injective(maps') && OthersSame(last, maps, last', maps', m, index)
    ensures Contents(last', maps', m, index) == Ground(last, maps, maps', m, index, zeroed)
  {
    if maps' != maps {
      FillInjective(maps, m, index, spareBlock.value);
      forall m': Mapping, i: nat | m'.File? && (m', i) != (m, index)
        ensures Contents(last', maps', m', i) == Contents(last, maps, m', i)
      {
        FillResolve(maps, m, index, spareBlock.value, m', i);
        FillShowsSame(last, maps, m, index, spareBlock.value, m', i);
      }
      FillResolve(maps, m, index, spareBlock.value, m, index);
    }
  }

  /** The page is held and is the one behind the index, read if that was asked for. */
  ghost predicate ReadyFor(pages: map<Id, Page>, last: Disk, maps: BlockMaps,
                           m: Mapping, index: nat, read: bool, id: Id) {
    && id in pages && pages[id].refs > 0 && pages[id].key.dev == m.dev
    && Resolve(maps, m, index) == Some(pages[id].key.block)
    && (read ==> pages[id].uptodate && pages[id].data == Held(last, pages[id].key))
  }

  lemma AddSettles(s: State, a: Assoc)
    requires a.page in s.pages
    ensures SettledBut(s, a.page) ==> SettledBut(s.(assocs := s.assocs + [a]), a.page)
  {
  }

  lemma SettleRead(s: State, id: Id)
    requires id in s.pages && s.pages[id].uptodate
    ensures SettledBut(s, id) ==> Settled(s)
  {
  }

  lemma PutSettles(s: State, id: Id, refs: nat)
    requires id in s.pages
    ensures Settled(s) ==> Settled(SetRefs(s, id, refs))
  {
  }

  lemma StoreSettles(s: State, id: Id, d: Data)
    requires id in s.pages
    ensures SettledBut(s, id) ==> Settled(Store(s, id, d))
  {
  }

  /**
   What writing one block of a file does: a hole is filled if there is a block for it; the
   bytes go on top of what the block then shows, or nothing is written if that failed; no
   other index of any file changes, and no block but this one is touched.
   */
  ghost predicate Wrote(last: Disk, maps: BlockMaps, last': Disk, maps': BlockMaps, m: Mapping, index: nat,
                        spareBlock: Option<nat>, zeroed: bool, ok: bool, off: nat, bytes: seq<Byte>) {
    var ground := Ground(last, maps, maps', m, index, zeroed);
    && off + |bytes| <= BLOCK_SIZE
    && maps' == (if Resolve(maps, m, index).None? && spareBlock.Some? then Filled(maps, m, index, spareBlock.value) else maps)
    && Contents(last', maps', m, index) == (if ok then Patch(ground, off, bytes) else ground)
    && OthersSame(last, maps, last', maps', m, index)
    && OnlyBlock(last, last', Target(maps, m, index, spareBlock))
  }

  predicate OpenWrote(last': Disk, index: nat, w: int) {
    true
  }

  /** `Wrote`, closed like `Sound`. */
  ghost predicate WriteDone(last: Disk, maps: BlockMaps, last': Disk, maps': BlockMaps, m: Mapping, index: nat,
                            spareBlock: Option<nat>, zeroed: bool, ok: bool, off: nat, bytes: seq<Byte>) {
    forall w {:trigger OpenWrote(last', index, w)} :: OpenWrote(last', index, w) ==>
      Wrote(last, maps, last', maps', m, index, spareBlock, zeroed, ok, off, bytes)
  }

  lemma LookupWrote(last: Disk, maps: BlockMaps, last': Disk, maps': BlockMaps, m: Mapping, index: nat,
                    spareBlock: Option<nat>, zeroed: bool, off: nat, bytes: seq<Byte>)
    requires Injective(maps) && m.File? && Resolved(last, maps, last', maps', m, index, true, spareBlock, zeroed)
    requires spareBlock.Some? ==> Unused(maps, m.dev, spareBlock.value)
    requires off + |bytes| <= BLOCK_SIZE
    ensures Injective(maps') && Wrote(last, maps, last', maps', m, index, spareBlock, zeroed, false, off, bytes)
  {
    ResolvedShows(last, maps, last', maps', m, index, true, spareBlock, zeroed);
  }

  /** The page gets the bytes, patched in or as a whole block. */
  lemma WriteTheorem(last: Disk, maps: BlockMaps, last1: Disk, maps': BlockMaps, m: Mapping, index: nat,
                     spareBlock: Option<nat>, zeroed: bool, off: nat, bytes: seq<Byte>, k: Key, d: Data)
    requires m.File? && Injective(maps') && k.dev == m.dev && Resolve(maps', m, index) == Some(k.block)
    requires Wrote(last, maps, last1, maps', m, index, spareBlock, zeroed, false, off, bytes)
    requires || d == Patch(Held(last1, k), off, bytes)
             || (off == 0 && |bytes| == BLOCK_SIZE && d == bytes)
    ensures Wrote(last, maps, last1[k := d], maps', m, index, spareBlock, zeroed, true, off, bytes)
  {
    var last' := last1[k := d];
    forall m': Mapping, i: nat | m'.File?
      ensures Contents(last', maps', m', i) == if m' == m && i == index then d else Contents(last1, maps', m', i)
    {
      WriteShowsOne(last1, maps', m, index, d, m', i);
    }
    assert d == Patch(Contents(last1, maps', m, index), off, bytes);
    forall k' | k' != k ensures Held(last', k') == Held(last, k') {
      assert Held(last1, k') == Held(last, k');
    }
  }

  // ---- Truncation ----

  lemma RestSettles(s: State, assocs: seq<Assoc>)
    requires forall a :: a in assocs ==> a in s.assocs
    ensures Settled(s) ==> Settled(s.(assocs := assocs))
  {
    if Settled(s) {
      forall i | 0 <= i < |assocs| ensures assocs[i].page in s.pages && s.pages[assocs[i].page].uptodate {
        assert assocs[i] in s.assocs;
      }
    }
  }

  lemma DropSettles(s: State, id: Id)
    requires id in s.pages && forall j :: 0 <= j < |s.assocs| ==> s.assocs[j].page != id
    ensures Settled(s) ==> Settled(Drop(s, id))
  {
  }

  lemma StoreSettled(s: State, id: Id, d: Data)
    requires id in s.pages
    ensures Settled(s) ==> Settled(Store(s, id, d))
  {
  }

  lemma NoneFromMore(assocs: seq<Assoc>, i: nat, m: Mapping, keep: nat)
    requires i < |assocs| && NoneFrom(assocs[..i], m, keep)
    ensures assocs[i].mapping != m || assocs[i].index < keep ==> NoneFrom(assocs[..i + 1], m, keep)
  {
    assert assocs[..i + 1] == assocs[..i] + [assocs[i]];
  }

  lemma RestOf(assocs: seq<Assoc>, i: nat)
    requires i < |assocs|
    ensures (assocs[..i] + assocs[i + 1..])[..i] == assocs[..i]
  {
  }

  lemma SyncSettles(s: State, id: Id)
    requires id in s.pages
    ensures Settled(s) ==> Settled(Sync(s, id))
  {
  }

  /** The block of an index zeroed behind `off`, if it has one. */
  ghost function Tailed(last: Disk, maps: BlockMaps, m: Mapping, tail: nat, off: nat): Disk
    requires off <= BLOCK_SIZE
  {
    match Resolve(maps, m, tail)
    case None => last
    case Some(b) => last[Key(m.dev, b) := ZeroFrom(Held(last, Key(m.dev, b)), off)]
  }

  /** What a file of `size` bytes made out of the old one reads like; every other file is as before. */
  ghost predicate Shrunk(last: Disk, maps: BlockMaps, last': Disk, maps': BlockMaps, m: Mapping, size: nat) {
    forall m': Mapping, i: nat {:trigger Contents(last', maps', m', i)} :: m'.File? ==>
      Contents(last', maps', m', i) ==
        (if m' == m && i >= KeepBlocks(size) then ZeroData()
         else if m' == m && i == size / 4096 then ZeroFrom(Contents(last, maps, m', i), size % 4096)
         else Contents(last, maps, m', i))
  }

  lemma ZeroOfZero(off: nat)
    requires off <= BLOCK_SIZE
    ensures ZeroFrom(ZeroData(), off) == ZeroData()
  {
  }

  lemma ShrinkTheorem(last: Disk, trimmed: Disk, last': Disk, maps: BlockMaps, m: Mapping, size: nat)
    requires m.File? && Injective(maps)
    requires Trimmed(last, trimmed, maps, m, KeepBlocks(size), size / 4096, size % 4096)
    requires last' == if size % 4096 != 0 then Tailed(trimmed, maps, m, size / 4096, size % 4096) else trimmed
    ensures Shrunk(last, maps, last', Cut(maps, m, KeepBlocks(size)), m, size)
  {
    var tail, off, keep := size / 4096, size % 4096, KeepBlocks(size);
    var maps' := Cut(maps, m, keep);
    if off != 0 && Resolve(maps, m, tail).Some? {
      TrimZero(last, trimmed, maps, m, keep, tail, off);
    }
    ZeroOfZero(off);
    forall m': Mapping, i: nat | m'.File?
      ensures Contents(last', maps', m', i) ==
        (if m' == m && i >= keep then ZeroData()
         else if m' == m && i == tail then ZeroFrom(Contents(last, maps, m', i), off)
         else Contents(last, maps, m', i))
    {
      CutResolve(maps, m, keep, m', i);
      assert Survives(m, keep, m', i) ==> Contents(last', maps', m', i) == Contents(last', maps, m', i);
    }
  }

  ghost predicate OnDisk(k: Key, disk: Disk, last: Disk) {
    Held(disk, k) == Held(last, k)
  }

  lemma ListedIffDirty(s: State, last: Disk, maps: BlockMaps, id: Id)
    requires Sound(s, last, maps) && id in s.pages
    ensures id in s.dirty <==> s.pages[id].dirty
  {
    assert Open(s, 0);
  }

  lemma CleanIsOnDisk(s: State, last: Disk, maps: BlockMaps, id: Id)
    requires Sound(s, last, maps) && id in s.pages && id !in s.dirty
    ensures OnDisk(s.pages[id].key, s.disk, last)
  {
    assert Open(s, 0);
    assert !HasDirty(s.pages, s.pages[id].key);
  }

  // ---- Runs ----

  /** Dirty pages of consecutive blocks. */
  ghost predicate RunOf(pages: map<Id, Page>, run: seq<Id>) {
    && 0 < |run| <= WB_MAX && run[0] in pages
    && forall i {:trigger run[i]} :: 0 <= i < |run| ==>
         && run[i] in pages && pages[run[i]].dirty
         && pages[run[i]].key == Key(pages[run[0]].key.dev, pages[run[0]].key.block + i)
  }

  /** `page_cache_has_mapping_locked`; no mapping given means any page will do. */
  predicate Wanted(assocs: seq<Assoc>, id: Id, m: Option<Mapping>) {
    m.None? || exists i :: 0 <= i < |assocs| && assocs[i].page == id && assocs[i].mapping == m.value
  }

  /** The page of the block behind the run. */
  predicate NextOf(pages: map<Id, Page>, run: seq<Id>, id: Id)
    requires run != [] && run[0] in pages
  {
    id in pages && pages[id].key == Key(pages[run[0]].key.dev, pages[run[0]].key.block + |run|)
  }

  /** Place `j` of the dirty list comes after all places in `at`. */
  predicate Behind(at: seq<nat>, j: nat) {
    at != [] ==> at[|at| - 1] < j
  }

  /**
   What a pass over the first `n` dirty pages collects: wanted pages, from places further and
   further back; unless the run is full, no wanted page behind the last would continue it.
   */
  ghost predicate Gathered(pages: map<Id, Page>, assocs: seq<Assoc>, dirty: seq<Id>, m: Option<Mapping>,
                           run: seq<Id>, at: seq<nat>, n: nat)
    requires run != [] && run[0] in pages
  {
    && Places(assocs, dirty, m, run, at, n)
    && (|run| < WB_MAX ==> forall j: nat :: j < n && Behind(at, j) ==> !Continues(pages, assocs, m, run, dirty, j))
  }

  ghost predicate Places(assocs: seq<Assoc>, dirty: seq<Id>, m: Option<Mapping>, run: seq<Id>, at: seq<nat>, n: nat) {
    && |at| == |run| - 1 && n <= |dirty| && Rising(at)
    && (forall i: nat {:trigger TakenFrom(assocs, dirty, m, run, at, n, i)} :: i < |at| ==>
          TakenFrom(assocs, dirty, m, run, at, n, i))
  }

  ghost predicate Rising(at: seq<nat>) {
    forall i, j :: 0 <= i < j < |at| ==> at[i] < at[j]
  }

  /** Page `i + 1` of the run is the wanted page at place `at[i]`. */
  ghost predicate TakenFrom(assocs: seq<Assoc>, dirty: seq<Id>, m: Option<Mapping>, run: seq<Id>, at: seq<nat>, n: nat, i: nat)
    requires |at| == |run| - 1 && n <= |dirty| && i < |at|
  {
    at[i] < n && dirty[at[i]] == run[i + 1] && Wanted(assocs, run[i + 1], m)
  }

  predicate Continues(pages: map<Id, Page>, assocs: seq<Assoc>, m: Option<Mapping>, run: seq<Id>, dirty: seq<Id>, j: nat)
    requires run != [] && run[0] in pages && j < |dirty|
  {
    NextOf(pages, run, dirty[j]) && Wanted(assocs, dirty[j], m)
  }

  lemma GatherStep(pages: map<Id, Page>, assocs: seq<Assoc>, dirty: seq<Id>, m: Option<Mapping>,
                   run: seq<Id>, at: seq<nat>, n: nat)
    requires run != [] && run[0] in pages && n < |dirty| && Gathered(pages, assocs, dirty, m, run, at, n)
    ensures if |run| < WB_MAX && Continues(pages, assocs, m, run, dirty, n)
            then dirty[n] != run[0] && Gathered(pages, assocs, dirty, m, run + [dirty[n]], at + [n], n + 1)
            else Gathered(pages, assocs, dirty, m, run, at, n + 1)
  {
    if |run| < WB_MAX && Continues(pages, assocs, m, run, dirty, n) {
      PlacesMore(assocs, dirty, m, run, at, n);
      NoneBehind(at, n);
    } else {
      PlacesSame(assocs, dirty, m, run, at, n);
    }
  }

  /** The last place is the furthest. */
  lemma NoneBehind(at: seq<nat>, n: nat)
    ensures forall j: nat :: j < n + 1 ==> !Behind(at + [n], j)
  {
    assert (at + [n])[|at|] == n;
  }

  lemma PlacesSame(assocs: seq<Assoc>, dirty: seq<Id>, m: Option<Mapping>, run: seq<Id>, at: seq<nat>, n: nat)
    requires n < |dirty| && Places(assocs, dirty, m, run, at, n)
    ensures Places(assocs, dirty, m, run, at, n + 1)
  {
    var n' := n + 1;
    forall i: nat | i < |at| ensures TakenFrom(assocs, dirty, m, run, at, n', i) {
      assert TakenFrom(assocs, dirty, m, run, at, n, i);
    }
  }

  lemma PlacesMore(assocs: seq<Assoc>, dirty: seq<Id>, m: Option<Mapping>, run: seq<Id>, at: seq<nat>, n: nat)
    requires n < |dirty| && Places(assocs, dirty, m, run, at, n) && Wanted(assocs, dirty[n], m)
    ensures Places(assocs, dirty, m, run + [dirty[n]], at + [n], n + 1)
  {
    var run', at', n' := run + [dirty[n]], at + [n], n + 1;
    forall i: nat | i < |at| ensures at[i] < n {
      assert TakenFrom(assocs, dirty, m, run, at, n, i);
    }
    RisingMore(at, n);
    forall i: nat | i < |at'| ensures TakenFrom(assocs, dirty, m, run', at', n', i) {
      if i < |at| {
        assert TakenFrom(assocs, dirty, m, run, at, n, i);
        assert at'[i] == at[i] && run'[i + 1] == run[i + 1];
      } else {
        assert at'[i] == n && run'[i + 1] == dirty[n];
      }
    }
  }

  lemma RisingMore(at: seq<nat>, n: nat)
    requires Rising(at) && forall i: nat :: i < |at| ==> at[i] < n
    ensures Rising(at + [n])
  {
    var at' := at + [n];
    forall i, j | 0 <= i < j < |at'| ensures at'[i] < at'[j] {
      assert at'[i] == at[i] && (j < |at| ==> at'[j] == at[j]);
    }
  }

  lemma RunMember(pages: map<Id, Page>, run: seq<Id>, i: nat)
    requires RunOf(pages, run) && i < |run|
    ensures run[i] in pages && pages[run[i]].dirty
    ensures pages[run[i]].key == Key(pages[run[0]].key.dev, pages[run[0]].key.block + i)
  {
  }

  ghost predicate AllOnDisk(pages: map<Id, Page>, run: seq<Id>, disk: Disk, last: Disk) {
    forall i {:trigger run[i]} :: 0 <= i < |run| ==>
      run[i] in pages && Held(disk, pages[run[i]].key) == Held(last, pages[run[i]].key)
  }

  lemma OnDiskMember(pages: map<Id, Page>, run: seq<Id>, i: nat, disk: Disk, last: Disk)
    requires AllOnDisk(pages, run, disk, last) && i < |run|
    ensures run[i] in pages && Held(disk, pages[run[i]].key) == Held(last, pages[run[i]].key)
  {
  }

  lemma StaysOnDisk(pages: map<Id, Page>, run: seq<Id>, i: nat, disk: Disk, last: Disk)
    requires RunOf(pages, run) && i < |run| && AllOnDisk(pages, run[..i], disk, last)
    ensures var k := pages[run[i]].key;
            AllOnDisk(pages, run[..i + 1], disk[k := Held(last, k)], last)
  {
    forall j | 0 <= j < i + 1 ensures run[j] in pages && Held(disk[pages[run[i]].key := Held(last, pages[run[i]].key)], pages[run[j]].key) == Held(last, pages[run[j]].key) {
      assert j < i ==> run[..i][j] == run[j];
    }
  }

  lemma UpToDateDirty(s: State, last: Disk, maps: BlockMaps, id: Id)
    requires Sound(s, last, maps) && id in s.pages && s.pages[id].dirty
    ensures s.pages[id].data == Held(last, s.pages[id].key)
  {
    assert Open(s, 0);
    assert PageOk(s.pages[id], last);
  }

  lemma StartListed(s: State, last: Disk, maps: BlockMaps, id: Id)
    requires Sound(s, last, maps) && id in s.pages && s.pages[id].dirty
    ensures id in s.dirty
  {
    assert Open(s, 0);
  }

  lemma CleanOnDisk(pages: map<Id, Page>, run: seq<Id>, id: Id, p: Page, disk: Disk, last: Disk)
    requires AllOnDisk(pages, run, disk, last) && id in pages && p.key == pages[id].key
    ensures AllOnDisk(pages[id := p], run, disk, last)
  {
  }

  lemma CleanFramed(s: State, id: Id)
    requires id in s.pages
    ensures Framed(s, Clean(s, id))
  {
  }

  lemma DiskFramed(s: State, s': State)
    requires s'.pages == s.pages && s'.assocs == s.assocs
    ensures Framed(s, s')
  {
  }

  lemma EvictSettles(s: State, id: Id)
    ensures Settled(s) ==> Settled(Evict(s, id))
  {
    var s' := Evict(s, id);
    if Settled(s) {
      forall i | 0 <= i < |s'.assocs| ensures s'.assocs[i].page in s'.pages && s'.pages[s'.assocs[i].page].uptodate {
        assert s'.assocs[i] in s.assocs;
      }
    }
  }
}
