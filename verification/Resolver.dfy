/**
 The resolver of the page cache is the block map of the file system: what the cache asks
 of it (no block shared between two file indices, a filled hole gets an unused block,
 truncation cuts exactly the indices behind the end) is what the block trees guarantee.
 */
module Resolver {
  import opened Arith
  import opened Wrappers
  import opened BlockTree
  import opened Ext2Volume
  import opened Ext2File
  import opened Ext2Fs
  import Pages
  import FileView

  // ---- Two indices of a tree never find the same block ----

  lemma {:induction false} LookIsABlock(t: Tree, depth: nat, idx: nat)
    requires Look(t, depth, idx) != 0
    ensures Look(t, depth, idx) in Blocks(t)
    decreases t
  {
    if t.Node? {
      var c := idx / Span(depth - 1);
      LookIsABlock(t.kids[c], depth - 1, idx % Span(depth - 1));
      assert Blocks(t.kids[c]) <= AllBlocks(t.kids);
    }
  }

  lemma {:induction false} LookOnce(t: Tree, depth: nat, i: nat, j: nat)
    requires Shaped(t, depth) && Distinct(t) && i < Span(depth) && j < Span(depth)
    requires Look(t, depth, i) == Look(t, depth, j) != 0
    ensures i == j
    decreases t
  {
    if t.Node? {
      var c, m := SplitIndex(depth - 1, i);
      var e, n := SplitIndex(depth - 1, j);
      LookAt(t, depth - 1, c, m, i);
      LookAt(t, depth - 1, e, n, j);
      LookIsABlock(t.kids[c], depth - 1, m);
      LookIsABlock(t.kids[e], depth - 1, n);
      OnePlace(t.kids, c, e, Look(t, depth, i));
      LookOnce(t.kids[c], depth - 1, m, n);
    }
  }

  /** A block of two trees of an unshared run is of one tree. */
  lemma OnePlace(ts: seq<Tree>, i: nat, j: nat, b: nat)
    requires AllDistinct(ts) && i < |ts| && j < |ts| && b in Blocks(ts[i]) && b in Blocks(ts[j])
    ensures i == j && Distinct(ts[i])
  {
    assert i != j ==> Apart(ts[i], ts[j]);
  }

  lemma SlotLookOnce(disk: Disk, slots: Slots, a: nat, k: nat, b: nat, l: nat)
    requires AllDistinct(Forest(disk, slots)) && a < N_BLOCKS && b < N_BLOCKS
    requires k < Span(SlotDepth(a)) && l < Span(SlotDepth(b))
    requires Look(Forest(disk, slots)[a], SlotDepth(a), k) == Look(Forest(disk, slots)[b], SlotDepth(b), l) != 0
    ensures a == b && k == l
  {
    var ts := Forest(disk, slots);
    LookIsABlock(ts[a], SlotDepth(a), k);
    LookIsABlock(ts[b], SlotDepth(b), l);
    OnePlace(ts, a, b, Look(ts[a], SlotDepth(a), k));
    LoadShaped(disk, slots[a], SlotDepth(a));
    LookOnce(ts[a], SlotDepth(a), k, l);
  }

  lemma FileLookOnce(disk: Disk, slots: Slots, i: nat, j: nat)
    requires AllDistinct(Forest(disk, slots)) && i < Base(N_BLOCKS) && j < Base(N_BLOCKS)
    requires FileLook(Forest(disk, slots), i) == FileLook(Forest(disk, slots), j) != 0
    ensures i == j
  {
    var a, k := SlotAndRest(Forest(disk, slots), i);
    var b, l := SlotAndRest(Forest(disk, slots), j);
    SlotLookOnce(disk, slots, a, k, b, l);
  }

  /** The slot of an index, and the index within it. */
  lemma SlotAndRest(ts: seq<Tree>, i: nat) returns (a: nat, k: nat)
    requires |ts| == N_BLOCKS && i < Base(N_BLOCKS)
    ensures a < N_BLOCKS && k < Span(SlotDepth(a)) && i == Base(a) + k && FileLook(ts, i) == Look(ts[a], SlotDepth(a), k)
  {
    FileLookAt(ts, i);
    SlotShare(0, i);
    a := SlotOf(i);
    k := i - Base(a);
  }

  lemma FileLookIsABlock(ts: seq<Tree>, idx: nat)
    requires |ts| == N_BLOCKS && idx < Base(N_BLOCKS) && FileLook(ts, idx) != 0
    ensures FileLook(ts, idx) in AllBlocks(ts)
  {
    FileLookAt(ts, idx);
    var i := SlotOf(idx);
    LookIsABlock(ts[i], SlotDepth(i), idx - Base(i));
    assert Blocks(ts[i]) <= AllBlocks(ts);
  }

  // ---- Block maps that follow a volume ----

  /** What `ext2_resolve_block` finds for an index without creating. */
  ghost function Found(fs: Fs, ino: nat, idx: nat): Option<nat> {
    if ino !in fs.inodes || idx >= Base(TIND_BLOCK) || FileLook(Trees(fs.vol, fs.inodes[ino]), idx) == 0 then None
    else Some(FileLook(Trees(fs.vol, fs.inodes[ino]), idx))
  }

  /** The maps behind the resolver are those of the files of one volume on device `dev`. */
  ghost predicate Follows(maps: Pages.BlockMaps, dev: nat, fs: Fs) {
    && (forall m :: m in maps ==> m.File? && m.dev == dev)
    && (forall ino: nat, idx: nat {:trigger Pages.Resolve(maps, Pages.File(dev, ino), idx)} ::
          Pages.Resolve(maps, Pages.File(dev, ino), idx) == Found(fs, ino, idx))
  }

  lemma FoundOnce(fs: Fs, i: nat, k: nat, j: nat, l: nat)
    requires Consistent(fs) && Found(fs, i, k).Some? && Found(fs, i, k) == Found(fs, j, l)
    ensures i == j && k == l
  {
    Bases();
    assert Ext2Fs.Sound(fs, i) && Ext2Fs.Sound(fs, j) && NoOverlap(fs, i, j);
    FileLookIsABlock(Trees(fs.vol, fs.inodes[i]), k);
    FileLookIsABlock(Trees(fs.vol, fs.inodes[j]), l);
    if i == j {
      assert AllDistinct(Trees(fs.vol, fs.inodes[i]));
      FileLookOnce(fs.vol.disk, fs.inodes[i].slots, k, l);
    }
  }

  /** No block of a consistent volume belongs to two file indices. */
  lemma ResolverIsInjective(maps: Pages.BlockMaps, dev: nat, fs: Fs)
    requires Consistent(fs) && Follows(maps, dev, fs)
    ensures FileView.Injective(maps)
  {
    forall a: Pages.Mapping, i: nat, b: Pages.Mapping, j: nat | FileView.SameBlock(maps, a, i, b, j)
      ensures a == b && i == j
    {
      assert a in maps && b in maps;
      FoundOnce(fs, a.ino, i, b.ino, j);
    }
  }

  /** A block that is not marked used is no file's. */
  lemma FreeIsUnused(maps: Pages.BlockMaps, dev: nat, fs: Fs, b: nat)
    requires Consistent(fs) && Follows(maps, dev, fs) && b !in fs.vol.alloc.InUse()
    ensures FileView.Unused(maps, dev, b)
  {
    forall m: Pages.Mapping, i: nat | m.File? && m.dev == dev ensures Pages.Resolve(maps, m, i) != Some(b) {
      if Pages.Resolve(maps, m, i) == Some(b) {
        Bases();
        assert Pages.Resolve(maps, Pages.File(dev, m.ino), i) == Found(fs, m.ino, i);
        assert Ext2Fs.Sound(fs, m.ino);
        FileLookIsABlock(Trees(fs.vol, fs.inodes[m.ino]), i);
        assert false;
      }
    }
  }

  /** Mapping a hole on demand is filling it, with a block nobody had. */
  lemma MappingFills(maps: Pages.BlockMaps, dev: nat, fs: Fs, fs': Fs, ino: nat, idx: nat, mapped: nat)
    requires Consistent(fs) && Consistent(fs') && OnlyFile(fs, fs', ino) && Follows(maps, dev, fs)
    requires Mapped(fs.vol, fs.inodes[ino], idx, true, fs'.vol, fs'.inodes[ino], mapped)
    requires FileLook(Trees(fs.vol, fs.inodes[ino]), idx) == 0 && mapped != 0
    ensures FileView.Unused(maps, dev, mapped)
    ensures Follows(Pages.Filled(maps, Pages.File(dev, ino), idx, mapped), dev, fs')
  {
    var m := Pages.File(dev, ino);
    var maps' := Pages.Filled(maps, m, idx, mapped);
    FreeIsUnused(maps, dev, fs, mapped);
    forall i: nat, k: nat ensures Pages.Resolve(maps', Pages.File(dev, i), k) == Found(fs', i, k) {
      FileView.FillResolve(maps, m, idx, mapped, Pages.File(dev, i), k);
      assert Pages.Resolve(maps, Pages.File(dev, i), k) == Found(fs, i, k);
      MapTheorem(fs, fs', ino, idx, true, mapped);
      assert i in fs.inodes && i != ino ==> Trees(fs'.vol, fs.inodes[i]) == Trees(fs.vol, fs.inodes[i]);
    }
  }

  /** Truncating a file is cutting its map. */
  lemma TruncationCuts(maps: Pages.BlockMaps, dev: nat, fs: Fs, fs': Fs, ino: nat, size: nat)
    requires Truncated(fs, fs', ino, size) && size < fs.inodes[ino].size && Follows(maps, dev, fs)
    ensures Follows(Pages.Cut(maps, Pages.File(dev, ino), KeepBlocks(size)), dev, fs')
  {
    var m := Pages.File(dev, ino);
    var maps' := Pages.Cut(maps, m, KeepBlocks(size));
    forall i: nat, k: nat ensures Pages.Resolve(maps', Pages.File(dev, i), k) == Found(fs', i, k) {
      FileView.CutResolve(maps, m, KeepBlocks(size), Pages.File(dev, i), k);
      assert Pages.Resolve(maps, Pages.File(dev, i), k) == Found(fs, i, k);
      CutFinds(fs, fs', ino, size, i, k);
    }
  }

  /** What one index finds after a truncation. */
  lemma CutFinds(fs: Fs, fs': Fs, ino: nat, size: nat, i: nat, k: nat)
    requires Truncated(fs, fs', ino, size) && size < fs.inodes[ino].size
    ensures Found(fs', i, k) == if i == ino && k >= KeepBlocks(size) then None else Found(fs, i, k)
  {
    if i == ino {
      ShrinkTheorem(fs, fs', ino, size);
    } else {
      assert i in fs.inodes ==> Trees(fs'.vol, fs.inodes[i]) == Trees(fs.vol, fs.inodes[i]);
    }
  }
}
