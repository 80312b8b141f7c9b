/**
 The page cache as a value: pages keyed by device and block, the dirty list, the
 associations of file indices with pages, and the disk behind them.  `last` is the simple
 thing the cache stands for: for every block, the bytes last written to it.
 */
module Pages {
  import opened Seqs
  import opened Wrappers

  const BLOCK_SIZE: nat := 4096

  type Byte = bv8

  /** The bytes of a block. */
  type Data = d: seq<Byte> | |d| == BLOCK_SIZE witness ZeroData()
  type Id = nat

  datatype Key = Key(dev: nat, block: nat)

  /** A file's mapping, or a block device's, whose indices are block numbers. */
  datatype Mapping = File(dev: nat, ino: nat) | Device(dev: nat)

  /** `struct page_cache` */
  datatype Page = Page(key: Key, data: Data, refs: nat, uptodate: bool, dirty: bool)

  datatype Assoc = Assoc(mapping: Mapping, index: nat, page: Id)

  type Disk = map<Key, Data>

  /** Block maps of the files, as the resolver sees them. */
  type BlockMaps = map<Mapping, map<nat, nat>>

  datatype State = State(pages: map<Id, Page>, dirty: seq<Id>, assocs: seq<Assoc>, disk: Disk)

  function Zeros(n: nat): (d: seq<Byte>)
    ensures |d| == n
  {
    seq(n, i => 0)
  }

  function ZeroData(): (d: seq<Byte>)
    ensures |d| == BLOCK_SIZE
  {
    Zeros(BLOCK_SIZE)
  }

  /** What a map of blocks holds for `k`; untouched blocks hold zeros. */
  function Held(m: Disk, k: Key): Data {
    if k in m then m[k] else ZeroData()
  }

  /** `mapping->ops->resolve` without creating: the block behind an index. */
  function Resolve(maps: BlockMaps, m: Mapping, index: nat): Option<nat> {
    match m
    case Device(_) => Some(index)
    case File(_, _) => if m in maps && index in maps[m] then Some(maps[m][index]) else None
  }

  // ---- The invariant ----

  /** At most one page per block. */
  ghost predicate OnePerBlock(pages: map<Id, Page>) {
    forall a, b {:trigger pages[a], pages[b]} :: a in pages && b in pages && pages[a].key == pages[b].key ==> a == b
  }

  /** The dirty list holds exactly the dirty pages, once each. */
  ghost predicate DirtyListed(pages: map<Id, Page>, dirty: seq<Id>) {
    NoRepeats(dirty) && forall id :: id in dirty <==> id in pages && pages[id].dirty
  }

  ghost predicate HasDirty(pages: map<Id, Page>, k: Key) {
    exists id :: id in pages && pages[id].key == k && pages[id].dirty
  }

  /** A page that is up to date holds the last write; a dirty page is up to date. */
  ghost predicate PageOk(p: Page, last: Disk) {
    (p.dirty ==> p.uptodate) && (p.uptodate ==> p.data == Held(last, p.key))
  }

  ghost predicate PagesOk(pages: map<Id, Page>, last: Disk) {
    forall id {:trigger pages[id]} :: id in pages ==> PageOk(pages[id], last)
  }

  /** Without a dirty page for a block, the disk holds its last write. */
  ghost predicate DiskOk(s: State, last: Disk) {
    forall k {:trigger HasDirty(s.pages, k)} :: HasDirty(s.pages, k) || Held(s.disk, k) == Held(last, k)
  }

  /** An association names a cached page whose block the resolver would return now. */
  ghost predicate AssocOk(pages: map<Id, Page>, maps: BlockMaps, a: Assoc) {
    && a.page in pages && pages[a.page].key.dev == a.mapping.dev
    && Resolve(maps, a.mapping, a.index) == Some(pages[a.page].key.block)
  }

  ghost predicate AssocsOk(pages: map<Id, Page>, maps: BlockMaps, assocs: seq<Assoc>) {
    forall i :: 0 <= i < |assocs| ==> AssocOk(pages, maps, assocs[i])
  }

  ghost predicate Consistent(s: State, last: Disk, maps: BlockMaps) {
    && OnePerBlock(s.pages) && DirtyListed(s.pages, s.dirty)
    && PagesOk(s.pages, last) && DiskOk(s, last) && AssocsOk(s.pages, maps, s.assocs)
  }

  predicate Open(s: State, w: int) {
    true
  }

  /** The invariant, closed: it is looked into by mentioning `Open`. */
  ghost predicate Sound(s: State, last: Disk, maps: BlockMaps) {
    forall w {:trigger Open(s, w)} :: Open(s, w) ==> Consistent(s, last, maps)
  }

  /** Between two operations every associated page is up to date. */
  ghost predicate Settled(s: State) {
    forall i :: 0 <= i < |s.assocs| ==> s.assocs[i].page in s.pages && s.pages[s.assocs[i].page].uptodate
  }

  /** What a program sees in a block: the cached bytes if they are up to date, else the disk. */
  ghost predicate Shows(s: State, k: Key, d: Data) {
    if exists id :: id in s.pages && s.pages[id].key == k && s.pages[id].uptodate
    then exists id :: id in s.pages && s.pages[id].key == k && s.pages[id].uptodate && s.pages[id].data == d
    else Held(s.disk, k) == d
  }

  /** The cache refines the plain map of last writes. */
  lemma ShowsLastWrite(s: State, last: Disk, maps: BlockMaps, k: Key, d: Data)
    requires Sound(s, last, maps)
    ensures Shows(s, k, d) <==> d == Held(last, k)
  {
    assert Open(s, 0);
    if id :| id in s.pages && s.pages[id].key == k && s.pages[id].uptodate {
      assert PageOk(s.pages[id], last);
    } else {
      assert !HasDirty(s.pages, k);
    }
  }

  /** With nothing dirty, the disk is that map. */
  lemma CleanMeansSynced(s: State, last: Disk, maps: BlockMaps, k: Key)
    requires Sound(s, last, maps) && s.dirty == []
    ensures Held(s.disk, k) == Held(last, k)
  {
    assert Open(s, 0);
    assert !HasDirty(s.pages, k);
  }

  lemma DirtyFacts(s: State, last: Disk, maps: BlockMaps, id: Id)
    requires Sound(s, last, maps) && id in s.dirty
    ensures id in s.pages && s.pages[id].dirty && s.pages[id].uptodate
  {
    assert Open(s, 0);
    assert PageOk(s.pages[id], last);
  }

  lemma UpToDate(s: State, last: Disk, maps: BlockMaps, id: Id)
    requires Sound(s, last, maps) && id in s.pages && s.pages[id].uptodate
    ensures s.pages[id].data == Held(last, s.pages[id].key)
  {
    assert Open(s, 0);
    assert PageOk(s.pages[id], last);
  }

  // ---- Changes of one page ----

  function SetPage(s: State, id: Id, p: Page): State {
    s.(pages := s.pages[id := p])
  }

  /** Reference counts matter to eviction only. */
  function SetRefs(s: State, id: Id, refs: nat): State
    requires id in s.pages
  {
    SetPage(s, id, s.pages[id].(refs := refs))
  }

  lemma RefsKeep(s: State, last: Disk, maps: BlockMaps, id: Id, refs: nat)
    requires Sound(s, last, maps) && id in s.pages
    ensures Sound(SetRefs(s, id, refs), last, maps)
  {
    assert Open(s, 0);
    var s' := SetRefs(s, id, refs);
    SamePages(s, s', last, maps);
  }

  /** Changing only reference counts. */
  lemma SamePages(s: State, s': State, last: Disk, maps: BlockMaps)
    requires Sound(s, last, maps) && s'.pages.Keys == s.pages.Keys
    requires s'.dirty == s.dirty && s'.assocs == s.assocs && s'.disk == s.disk
    requires forall id :: id in s.pages ==> s'.pages[id] == s.pages[id].(refs := s'.pages[id].refs)
    ensures Sound(s', last, maps)
  {
    assert Open(s, 0);
    forall id | id in s'.pages ensures PageOk(s'.pages[id], last) {
      assert PageOk(s.pages[id], last);
    }
    forall k ensures HasDirty(s'.pages, k) || Held(s'.disk, k) == Held(last, k) {
      if HasDirty(s.pages, k) {
        var id :| id in s.pages && s.pages[id].key == k && s.pages[id].dirty;
        assert s'.pages[id].dirty;
      }
    }
    forall i | 0 <= i < |s.assocs| ensures AssocOk(s'.pages, maps, s'.assocs[i]) {
      assert AssocOk(s.pages, maps, s.assocs[i]);
    }
  }

  /** Associations of other pages, in order. */
  function WithoutPage(assocs: seq<Assoc>, id: Id): (r: seq<Assoc>)
    ensures forall a :: a in r <==> a in assocs && a.page != id
  {
    if assocs == [] then []
    else if assocs[0].page == id then WithoutPage(assocs[1..], id)
    else [assocs[0]] + WithoutPage(assocs[1..], id)
  }

  /** `page_cache_free_page` */
  function Evict(s: State, id: Id): State {
    s.(pages := s.pages - {id}, assocs := WithoutPage(s.assocs, id))
  }

  lemma EvictKeeps(s: State, last: Disk, maps: BlockMaps, id: Id)
    requires Sound(s, last, maps) && id in s.pages && !s.pages[id].dirty
    ensures Sound(Evict(s, id), last, maps)
  {
    assert Open(s, 0);
    var s' := Evict(s, id);
    forall k ensures HasDirty(s'.pages, k) || Held(s'.disk, k) == Held(last, k) {
      if HasDirty(s.pages, k) {
        var d :| d in s.pages && s.pages[d].key == k && s.pages[d].dirty;
        assert d in s'.pages;
      }
    }
    forall i | 0 <= i < |s'.assocs| ensures AssocOk(s'.pages, maps, s'.assocs[i]) {
      assert s'.assocs[i] in s.assocs;
      var j :| 0 <= j < |s.assocs| && s.assocs[j] == s'.assocs[i];
      assert AssocOk(s.pages, maps, s.assocs[j]);
    }
  }

  /** `page_cache_alloc` */
  function NewPage(s: State, id: Id, k: Key): State {
    SetPage(s, id, Page(k, ZeroData(), 0, false, false))
  }

  lemma NewPageKeeps(s: State, last: Disk, maps: BlockMaps, id: Id, k: Key)
    requires Sound(s, last, maps) && id !in s.pages && forall d :: d in s.pages ==> s.pages[d].key != k
    ensures Sound(NewPage(s, id, k), last, maps)
  {
    assert Open(s, 0);
    var s' := NewPage(s, id, k);
    forall k' ensures HasDirty(s'.pages, k') || Held(s'.disk, k') == Held(last, k') {
      if HasDirty(s.pages, k') {
        var d :| d in s.pages && s.pages[d].key == k' && s.pages[d].dirty;
        assert s'.pages[d].dirty;
      }
    }
    forall i | 0 <= i < |s.assocs| ensures AssocOk(s'.pages, maps, s'.assocs[i]) {
      assert AssocOk(s.pages, maps, s.assocs[i]);
    }
  }

  /** Pages that differ in contents and flags only, with their keys kept, keep their associations. */
  lemma AssocsFollow(pages: map<Id, Page>, pages': map<Id, Page>, maps: BlockMaps, assocs: seq<Assoc>)
    requires AssocsOk(pages, maps, assocs)
    requires forall id :: id in pages ==> id in pages' && pages'[id].key == pages[id].key
    ensures AssocsOk(pages', maps, assocs)
  {
    forall i | 0 <= i < |assocs| ensures AssocOk(pages', maps, assocs[i]) {
      assert AssocOk(pages, maps, assocs[i]);
    }
  }

  /** `page_cache_read_physical` */
  function Load(s: State, id: Id): State
    requires id in s.pages
  {
    SetPage(s, id, s.pages[id].(data := Held(s.disk, s.pages[id].key), uptodate := true))
  }

  lemma LoadKeeps(s: State, last: Disk, maps: BlockMaps, id: Id)
    requires Sound(s, last, maps) && id in s.pages && !s.pages[id].uptodate
    ensures Sound(Load(s, id), last, maps) && Load(s, id).pages[id].data == Held(last, s.pages[id].key)
  {
    assert Open(s, 0);
    var s', k := Load(s, id), s.pages[id].key;
    assert PageOk(s.pages[id], last);
    assert !HasDirty(s.pages, k);
    forall k' ensures HasDirty(s'.pages, k') || Held(s'.disk, k') == Held(last, k') {
      if HasDirty(s.pages, k') {
        var d :| d in s.pages && s.pages[d].key == k' && s.pages[d].dirty;
        assert s'.pages[d].dirty;
      }
    }
    AssocsFollow(s.pages, s'.pages, maps, s.assocs);
  }

  function PutDisk(s: State, k: Key, d: Data): State {
    s.(disk := s.disk[k := d])
  }

  /** Writing a block's last contents to the disk is always safe. */
  lemma PutDiskKeeps(s: State, last: Disk, maps: BlockMaps, k: Key)
    requires Sound(s, last, maps)
    ensures Sound(PutDisk(s, k, Held(last, k)), last, maps)
  {
    assert Open(s, 0);
    forall k' ensures HasDirty(s.pages, k') || Held(s.disk[k := Held(last, k)], k') == Held(last, k') {
      assert HasDirty(s.pages, k') || Held(s.disk, k') == Held(last, k');
    }
  }

  /** `page_cache_clear_dirty_locked` */
  function Clean(s: State, id: Id): State
    requires id in s.pages
  {
    SetPage(s, id, s.pages[id].(dirty := false)).(dirty := Without(s.dirty, id))
  }

  lemma CleanKeeps(s: State, last: Disk, maps: BlockMaps, id: Id)
    requires Sound(s, last, maps) && id in s.pages && Held(s.disk, s.pages[id].key) == Held(last, s.pages[id].key)
    ensures Sound(Clean(s, id), last, maps)
  {
    assert Open(s, 0);
    var s' := Clean(s, id);
    WithoutNoRepeats(s.dirty, id);
    assert PageOk(s.pages[id], last);
    forall k ensures HasDirty(s'.pages, k) || Held(s'.disk, k) == Held(last, k) {
      if HasDirty(s.pages, k) {
        var d :| d in s.pages && s.pages[d].key == k && s.pages[d].dirty;
        assert d != id ==> s'.pages[d].dirty;
      }
    }
    AssocsFollow(s.pages, s'.pages, maps, s.assocs);
  }

  /** `page_cache_sync_page` with the device accepting the write. */
  function Sync(s: State, id: Id): State
    requires id in s.pages
  {
    Clean(PutDisk(s, s.pages[id].key, s.pages[id].data), id)
  }

  lemma SyncKeeps(s: State, last: Disk, maps: BlockMaps, id: Id)
    requires Sound(s, last, maps) && id in s.pages && s.pages[id].uptodate
    ensures Sound(Sync(s, id), last, maps)
  {
    assert Open(s, 0);
    assert PageOk(s.pages[id], last);
    PutDiskKeeps(s, last, maps, s.pages[id].key);
    CleanKeeps(PutDisk(s, s.pages[id].key, s.pages[id].data), last, maps, id);
  }

  /** New contents and `page_cache_mark_dirty`. */
  function Store(s: State, id: Id, d: Data): State
    requires id in s.pages
  {
    SetPage(s, id, s.pages[id].(data := d, uptodate := true, dirty := true))
      .(dirty := if s.pages[id].dirty then s.dirty else s.dirty + [id])
  }

  /** Storing is a write to the map of last writes. */
  lemma StoreKeeps(s: State, last: Disk, maps: BlockMaps, id: Id, d: Data)
    requires Sound(s, last, maps) && id in s.pages
    ensures Sound(Store(s, id, d), last[s.pages[id].key := d], maps)
  {
    assert Open(s, 0);
    var s', k := Store(s, id, d), s.pages[id].key;
    var last' := last[k := d];
    forall x | x in s'.pages ensures PageOk(s'.pages[x], last') {
      assert PageOk(s.pages[x], last);
      assert x != id ==> s.pages[x].key != k;
    }
    forall k' ensures HasDirty(s'.pages, k') || Held(s'.disk, k') == Held(last', k') {
      if k' == k {
        assert s'.pages[id].dirty;
      } else if HasDirty(s.pages, k') {
        var x :| x in s.pages && s.pages[x].key == k' && s.pages[x].dirty;
        assert s'.pages[x].dirty;
      } else {
        assert Held(s.disk, k') == Held(last, k');
      }
    }
    AssocsFollow(s.pages, s'.pages, maps, s.assocs);
  }

  /** A page whose last association is gone: neither dirty nor up to date. */
  function Drop(s: State, id: Id): State
    requires id in s.pages
  {
    SetPage(s, id, s.pages[id].(uptodate := false, dirty := false)).(dirty := Without(s.dirty, id))
  }

  /** Dropping forgets what was not yet on the disk. */
  lemma DropKeeps(s: State, last: Disk, maps: BlockMaps, id: Id)
    requires Sound(s, last, maps) && id in s.pages
    ensures Sound(Drop(s, id), last[s.pages[id].key := Held(s.disk, s.pages[id].key)], maps)
  {
    assert Open(s, 0);
    var s', k := Drop(s, id), s.pages[id].key;
    var last' := last[k := Held(s.disk, k)];
    WithoutNoRepeats(s.dirty, id);
    forall x | x in s'.pages ensures PageOk(s'.pages[x], last') {
      assert PageOk(s.pages[x], last);
      assert x != id ==> s.pages[x].key != k;
    }
    forall k' ensures HasDirty(s'.pages, k') || Held(s'.disk, k') == Held(last', k') {
      if k' != k && HasDirty(s.pages, k') {
        var x :| x in s.pages && s.pages[x].key == k' && s.pages[x].dirty;
        assert s'.pages[x].dirty;
      } else {
        assert k' != k ==> Held(s.disk, k') == Held(last, k');
      }
    }
    AssocsFollow(s.pages, s'.pages, maps, s.assocs);
  }

  // ---- Associations ----

  /** Position of the association of an index, or the length of the list. */
  function AssocAt(assocs: seq<Assoc>, m: Mapping, index: nat, i: nat): (r: nat)
    requires i <= |assocs|
    ensures i <= r <= |assocs| && (r < |assocs| ==> assocs[r].mapping == m && assocs[r].index == index)
    ensures forall j :: i <= j < r ==> !(assocs[j].mapping == m && assocs[j].index == index)
    decreases |assocs| - i
  {
    if i == |assocs| || (assocs[i].mapping == m && assocs[i].index == index) then i
    else AssocAt(assocs, m, index, i + 1)
  }

  /** A hit needs no resolver: it would return the block of the page found. */
  lemma HitIsResolved(s: State, last: Disk, maps: BlockMaps, i: nat)
    requires Sound(s, last, maps) && i < |s.assocs|
    ensures var a := s.assocs[i];
            && a.page in s.pages && s.pages[a.page].key.dev == a.mapping.dev
            && Resolve(maps, a.mapping, a.index) == Some(s.pages[a.page].key.block)
  {
    assert Open(s, 0);
    assert AssocOk(s.pages, maps, s.assocs[i]);
  }

  lemma AssocAddKeeps(s: State, last: Disk, maps: BlockMaps, a: Assoc)
    requires Sound(s, last, maps) && AssocOk(s.pages, maps, a)
    ensures Sound(s.(assocs := s.assocs + [a]), last, maps)
  {
    assert Open(s, 0);
  }

  lemma AssocSubsetKeeps(s: State, last: Disk, maps: BlockMaps, assocs: seq<Assoc>)
    requires Sound(s, last, maps) && forall a :: a in assocs ==> a in s.assocs
    ensures Sound(s.(assocs := assocs), last, maps)
  {
    assert Open(s, 0);
    forall i | 0 <= i < |assocs| ensures AssocOk(s.pages, maps, assocs[i]) {
      assert assocs[i] in s.assocs;
      var j :| 0 <= j < |s.assocs| && s.assocs[j] == assocs[i];
      assert AssocOk(s.pages, maps, s.assocs[j]);
    }
  }

  // ---- Changes of a file's block map ----

  function MapOf(maps: BlockMaps, m: Mapping): map<nat, nat> {
    if m in maps then maps[m] else map[]
  }

  /** The resolver fills a hole: block `b` for `index`, everything else as before. */
  function Filled(maps: BlockMaps, m: Mapping, index: nat, b: nat): BlockMaps {
    maps[m := MapOf(maps, m)[index := b]]
  }

  /** Truncation: indices from `keep` on lose their blocks. */
  function Cut(maps: BlockMaps, m: Mapping, keep: nat): BlockMaps {
    maps[m := map i: nat | i in MapOf(maps, m) && i < keep :: MapOf(maps, m)[i]]
  }

  lemma FillKeeps(s: State, last: Disk, maps: BlockMaps, m: Mapping, index: nat, b: nat)
    requires Sound(s, last, maps) && m.File? && Resolve(maps, m, index) == None
    ensures Sound(s, last, Filled(maps, m, index, b))
    ensures Resolve(Filled(maps, m, index, b), m, index) == Some(b)
  {
    assert Open(s, 0);
    forall i | 0 <= i < |s.assocs| ensures AssocOk(s.pages, Filled(maps, m, index, b), s.assocs[i]) {
      assert AssocOk(s.pages, maps, s.assocs[i]);
    }
  }

  ghost predicate NoneFrom(assocs: seq<Assoc>, m: Mapping, keep: nat) {
    forall a :: a in assocs && a.mapping == m ==> a.index < keep
  }

  /** Cutting the map is safe once the associations of the cut indices are gone. */
  lemma CutKeeps(s: State, last: Disk, maps: BlockMaps, m: Mapping, keep: nat)
    requires Sound(s, last, maps) && m.File? && NoneFrom(s.assocs, m, keep)
    ensures Sound(s, last, Cut(maps, m, keep))
  {
    assert Open(s, 0);
    forall i | 0 <= i < |s.assocs| ensures AssocOk(s.pages, Cut(maps, m, keep), s.assocs[i]) {
      assert AssocOk(s.pages, maps, s.assocs[i]) && s.assocs[i] in s.assocs;
    }
  }
}
