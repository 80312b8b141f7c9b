/**
 All files of a volume together: growing or truncating one file keeps every block in at
 most one place of one file, keeps it marked used, and leaves the other files' maps alone.
 */
module Ext2Fs {
  import opened Arith
  import opened BlockTree
  import opened BlockBitmap
  import opened Ext2Volume
  import opened Ext2File

  /** The regular files and directories of a mounted volume. */
  datatype Fs = Fs(vol: Volume, inodes: map<nat, Inode>)

  datatype Errno = Ok | EINVAL

  ghost function BlocksOf(fs: Fs, ino: nat): set<nat>
    requires ino in fs.inodes
  {
    AllBlocks(Trees(fs.vol, fs.inodes[ino]))
  }

  ghost predicate NoOverlap(fs: Fs, i: nat, j: nat) {
    i in fs.inodes && j in fs.inodes && i != j ==> BlocksOf(fs, i) !! BlocksOf(fs, j)
  }

  ghost predicate Sound(fs: Fs, ino: nat)
    requires fs.vol.alloc.Exact()
  {
    ino in fs.inodes ==> FileOk(fs.vol, fs.inodes[ino])
  }

  /** The invariant every operation keeps. */
  ghost predicate Consistent(fs: Fs) {
    && fs.vol.alloc.Exact() && fs.vol.alloc.ZeroReserved()
    && (forall i {:trigger Sound(fs, i)} :: Sound(fs, i))
    && (forall i, j {:trigger NoOverlap(fs, i, j)} :: NoOverlap(fs, i, j))
  }

  /** File `ino` was rewritten; everything else reads as before. */
  ghost predicate OnlyFile(fs: Fs, fs': Fs, ino: nat) {
    && ino in fs.inodes && ino in fs'.inodes
    && fs'.inodes == fs.inodes[ino := fs'.inodes[ino]]
    && fs'.vol.alloc.geo == fs.vol.alloc.geo
    && forall j {:trigger fs.inodes[j]} :: j in fs.inodes && j != ino ==>
      Trees(fs'.vol, fs.inodes[j]) == Trees(fs.vol, fs.inodes[j])
  }

  /**
   The frame rule: a change of file `ino` that writes only its own blocks and blocks that
   were free, releases only its own blocks, and leaves the file itself in order, keeps
   the whole volume in order.
   */
  lemma Frame(fs: Fs, ino: nat, v: Volume, f: Inode, touched: set<nat>)
    requires Consistent(fs) && ino in fs.inodes && Ready(v, f) && v.alloc.geo == fs.vol.alloc.geo
    requires SameOutside(fs.vol.disk, v.disk, touched)
    requires forall b :: b in touched ==> b == 0 || b in BlocksOf(fs, ino) || b !in fs.vol.alloc.InUse()
    requires forall b :: b in fs.vol.alloc.InUse() && b !in BlocksOf(fs, ino) ==> b in v.alloc.InUse()
    requires forall b :: b in AllBlocks(Trees(v, f)) ==> b in BlocksOf(fs, ino) || b !in fs.vol.alloc.InUse()
    ensures var fs' := Fs(v, fs.inodes[ino := f]);
            Consistent(fs') && OnlyFile(fs, fs', ino)
  {
    var fs' := Fs(v, fs.inodes[ino := f]);
    forall j | j in fs.inodes && j != ino
      ensures Trees(v, fs.inodes[j]) == Trees(fs.vol, fs.inodes[j])
    {
      assert Sound(fs, j) && NoOverlap(fs, j, ino);
      SameTrees(fs.vol.disk, v.disk, fs.inodes[j].slots, touched);
    }
    forall j ensures Sound(fs', j) {
      if j in fs.inodes && j != ino {
        assert Sound(fs, j) && NoOverlap(fs, j, ino);
      }
    }
    forall i, j ensures NoOverlap(fs', i, j) {
      if i in fs'.inodes && j in fs'.inodes && i != j {
        assert NoOverlap(fs, i, j) && Sound(fs, i) && Sound(fs, j);
      }
    }
  }

  lemma SameTrees(d: Disk, d': Disk, slots: Slots, touched: set<nat>)
    requires SameOutside(d, d', touched)
    requires forall b :: b in touched && b != 0 ==> b !in FileBlocks(d, slots)
    ensures Forest(d', slots) == Forest(d, slots)
  {
    NoZeroFile(d, slots);
    var ts, us := Forest(d, slots), Forest(d', slots);
    forall i | 0 <= i < N_BLOCKS ensures us[i] == ts[i] {
      assert Blocks(ts[i]) <= AllBlocks(ts);
      LoadFrame(d, d', slots[i], SlotDepth(i));
    }
  }

  /** Map a logical block of one file of the volume. */
  method MapBlock(fs: Fs, ino: nat, idx: nat, create: bool) returns (fs': Fs, mapped: nat)
    requires Consistent(fs) && ino in fs.inodes
    ensures Consistent(fs') && OnlyFile(fs, fs', ino)
    ensures Mapped(fs.vol, fs.inodes[ino], idx, create, fs'.vol, fs'.inodes[ino], mapped)
  {
    assert Sound(fs, ino);
    var v, f;
    v, f, mapped := Bmap(fs.vol, fs.inodes[ino], ino, idx, create);
    fs' := Fs(v, fs.inodes[ino := f]);
    Frame(fs, ino, v, f, AllBlocks(Trees(v, f)));
  }

  /** Number of sectors `i_blocks` should show. */
  method CountFile(v: Volume, slots: Slots) returns (total: nat)
    ensures total == AllSize(Forest(v.disk, slots))
  {
    ghost var ts := Forest(v.disk, slots);
    total := 0;
    var i := 0;
    while i < N_BLOCKS
      invariant i <= N_BLOCKS && total == AllSize(ts[..i])
    {
      AllBlocksStep(ts, i);
      var n := CountTree(v, slots[i], SlotDepth(i));
      total := total + n;
      i := i + 1;
    }
    assert ts[..i] == ts;
  }

  /** `ext2_free_inode_blocks`: release every block of a file and empty its slots. */
  method FreeInodeBlocks(v: Volume, slots: Slots) returns (v': Volume)
    requires v.alloc.Exact()
    ensures Kept(v.alloc, v'.alloc) && v'.disk == v.disk
    ensures v'.alloc.InUse() == v.alloc.InUse() - FileBlocks(v.disk, slots)
  {
    ghost var ts := Forest(v.disk, slots);
    v' := v;
    var i := 0;
    while i < N_BLOCKS
      invariant i <= N_BLOCKS && Kept(v.alloc, v'.alloc) && v'.disk == v.disk
      invariant v'.alloc.InUse() == v.alloc.InUse() - AllBlocks(ts[..i])
    {
      AllBlocksStep(ts, i);
      assert ts[i] == Load(v.disk, slots[i], SlotDepth(i));
      v' := FreeChain(v', slots[i], SlotDepth(i));
      i := i + 1;
    }
    assert ts[..i] == ts;
  }

  /** What truncating file `ino` to `size` bytes did. */
  ghost predicate Truncated(fs: Fs, fs': Fs, ino: nat, size: nat) {
    && Consistent(fs) && Consistent(fs') && OnlyFile(fs, fs', ino)
    && fs'.inodes[ino].size == size
    && Trees(fs'.vol, fs'.inodes[ino])
       == (if size < fs.inodes[ino].size then TruncForest(Trees(fs.vol, fs.inodes[ino]), KeepBlocks(size))
           else Trees(fs.vol, fs.inodes[ino]))
    && BlocksOf(fs', ino) <= BlocksOf(fs, ino)
    && fs'.vol.alloc.InUse() == fs.vol.alloc.InUse() - (BlocksOf(fs, ino) - BlocksOf(fs', ino))
  }

  /** `ext2_truncate_inode`. */
  method Truncate(fs: Fs, ino: nat, size: nat) returns (fs': Fs, ret: Errno)
    requires Consistent(fs) && ino in fs.inodes
    ensures ret == EINVAL <==> size >= U32
    ensures ret == EINVAL || size == fs.inodes[ino].size ==> fs' == fs
    ensures ret == Ok && size != fs.inodes[ino].size ==> Truncated(fs, fs', ino, size)
  {
    if size >= U32 {
      return fs, EINVAL;
    }
    var f := fs.inodes[ino];
    if size == f.size {
      return fs, Ok;
    }
    assert Sound(fs, ino);
    var v, slots := fs.vol, f.slots;
    if size == 0 {
      v := FreeInodeBlocks(fs.vol, f.slots);
      slots := NoSlots();
      NothingLeft(fs.vol.disk, f.slots);
      fs' := Settle(fs, ino, v, slots, 0, 0);
    } else if size < f.size {
      v, slots := TruncateSlots(fs.vol, f.slots, KeepBlocks(size));
      fs' := Settle(fs, ino, v, slots, size, KeepBlocks(size));
    } else {
      fs' := Grow(fs, ino, size);
    }
    ret := Ok;
  }

  lemma NothingLeft(disk: Disk, slots: Slots)
    ensures Forest(disk, NoSlots()) == TruncForest(Forest(disk, slots), 0)
    ensures FileBlocks(disk, NoSlots()) == {}
  {
    var ts, us := Forest(disk, NoSlots()), TruncForest(Forest(disk, slots), 0);
    assert ts == us;
    HolesAreEmpty(ts);
  }

  /** Count what is left and write the inode. */
  method Settle(fs: Fs, ino: nat, v: Volume, slots: Slots, size: nat, ghost keep: nat) returns (fs': Fs)
    requires Consistent(fs) && ino in fs.inodes && size < fs.inodes[ino].size && keep == KeepBlocks(size)
    requires Kept(fs.vol.alloc, v.alloc)
    requires Forest(v.disk, slots) == TruncForest(Trees(fs.vol, fs.inodes[ino]), keep)
    requires v.alloc.InUse() == fs.vol.alloc.InUse() - (BlocksOf(fs, ino) - FileBlocks(v.disk, slots))
    requires SameOutside(fs.vol.disk, v.disk, {0} + BlocksOf(fs, ino))
    ensures Truncated(fs, fs', ino, size)
  {
    assert Sound(fs, ino);
    ghost var f := fs.inodes[ino];
    ghost var t := FileTree(fs.vol.disk, f.slots);
    assert AllDistinct(t.kids);
    TruncForestWithin(t.kids, keep);
    ShrinkAll(t.kids, TruncForest(t.kids, keep));
    NoZeroFile(v.disk, slots);
    NoZeroFile(fs.vol.disk, f.slots);
    var total := CountFile(v, slots);
    var f' := Inode(slots, (total * BLOCK_SECTORS) % U32, size);
    fs' := Fs(v, fs.inodes[ino := f']);
    Frame(fs, ino, v, f', {0} + BlocksOf(fs, ino));
  }

  /** A size change that keeps every block. */
  method Grow(fs: Fs, ino: nat, size: nat) returns (fs': Fs)
    requires Consistent(fs) && ino in fs.inodes && size > fs.inodes[ino].size
    ensures Truncated(fs, fs', ino, size)
  {
    assert Sound(fs, ino);
    var f := fs.inodes[ino];
    var total := CountFile(fs.vol, f.slots);
    var f' := f.(iBlocks := (total * BLOCK_SECTORS) % U32, size := size);
    fs' := Fs(fs.vol, fs.inodes[ino := f']);
    Frame(fs, ino, fs.vol, f', {});
  }

  // ---- What the operations mean to a caller ----

  /**
   Shrinking a file: lookups below the cut are unchanged and all others find nothing; the
   bits cleared are exactly the old tree's blocks minus the new tree's; both levels of free
   counters rise by exactly their number; and `i_blocks` is eight times what is left.
   */
  lemma ShrinkTheorem(fs: Fs, fs': Fs, ino: nat, size: nat)
    requires Truncated(fs, fs', ino, size) && size < fs.inodes[ino].size
    ensures forall idx: nat :: FileLook(Trees(fs'.vol, fs'.inodes[ino]), idx)
                               == if idx < KeepBlocks(size) then FileLook(Trees(fs.vol, fs.inodes[ino]), idx) else 0
    ensures fs.vol.alloc.InUse() - fs'.vol.alloc.InUse() == BlocksOf(fs, ino) - BlocksOf(fs', ino)
    ensures fs'.vol.alloc.InUse() <= fs.vol.alloc.InUse()
    ensures fs'.vol.alloc.sFree == fs.vol.alloc.sFree + |BlocksOf(fs, ino) - BlocksOf(fs', ino)|
    ensures forall g: nat :: g < |fs.vol.alloc.bgFree| ==>
              && g < |fs'.vol.alloc.bgFree|
              && fs'.vol.alloc.bgFree[g] == fs.vol.alloc.bgFree[g]
                 + |(BlocksOf(fs, ino) - BlocksOf(fs', ino)) * fs.vol.alloc.geo.AllIn(g)|
    ensures fs'.inodes[ino].iBlocks == (BLOCK_SECTORS * |BlocksOf(fs', ino)|) % U32
  {
    var ts, ts' := Trees(fs.vol, fs.inodes[ino]), Trees(fs'.vol, fs'.inodes[ino]);
    forall idx: nat
      ensures FileLook(ts', idx) == if idx < KeepBlocks(size) then FileLook(ts, idx) else 0
    {
      LookAfterTruncate(fs.vol.disk, fs.inodes[ino].slots, KeepBlocks(size), idx);
    }
    assert Sound(fs, ino) && Sound(fs', ino);
    var freed := BlocksOf(fs, ino) - BlocksOf(fs', ino);
    CountersFollow(fs.vol.alloc, fs'.vol.alloc, freed);
    assert AllDistinct(ts');
    AllSizeIsCardinality(ts');
  }

  /** Releasing a set of blocks raises the counters by its size, group by group. */
  lemma CountersFollow(a: Allocator, a': Allocator, freed: set<nat>)
    requires a.Exact() && a'.Exact() && a.geo == a'.geo
    requires freed <= a.InUse() && a'.InUse() == a.InUse() - freed
    ensures a'.sFree == a.sFree + |freed| && |a'.bgFree| == |a.bgFree|
    ensures forall g: nat :: g < |a.bgFree| ==> a'.bgFree[g] == a.bgFree[g] + |freed * a.geo.AllIn(g)|
  {
    assert a.Audit(0) && a'.Audit(0);
    forall g: nat | g < |a.bgFree| ensures a'.bgFree[g] == a.bgFree[g] + |freed * a.geo.AllIn(g)| {
      assert a.InUse() * a.geo.AllIn(g) == a'.InUse() * a.geo.AllIn(g) + freed * a.geo.AllIn(g);
    }
    assert a.InUse() == a'.InUse() + freed;
  }

  /**
   Mapping a block on demand: the block returned is the one the read-only lookup finds
   afterwards, no other logical block moves, the counters fall by exactly the blocks the
   tree gained, and a zero result means the volume is full.
   */
  lemma MapTheorem(fs: Fs, fs': Fs, ino: nat, idx: nat, create: bool, mapped: nat)
    requires Consistent(fs) && Consistent(fs') && OnlyFile(fs, fs', ino)
    requires Mapped(fs.vol, fs.inodes[ino], idx, create, fs'.vol, fs'.inodes[ino], mapped)
    ensures idx < Base(TIND_BLOCK) ==> FileLook(Trees(fs'.vol, fs'.inodes[ino]), idx) == mapped
    ensures forall k: nat :: k != idx ==>
              FileLook(Trees(fs'.vol, fs'.inodes[ino]), k) == FileLook(Trees(fs.vol, fs.inodes[ino]), k)
    ensures BlocksOf(fs', ino) == BlocksOf(fs, ino) + (fs'.vol.alloc.InUse() - fs.vol.alloc.InUse())
    ensures fs.vol.alloc.sFree == fs'.vol.alloc.sFree + |BlocksOf(fs', ino) - BlocksOf(fs, ino)|
    ensures |fs.vol.alloc.bgFree| == |fs'.vol.alloc.bgFree|
    ensures forall g: nat :: g < |fs.vol.alloc.bgFree| ==>
              fs.vol.alloc.bgFree[g]
              == fs'.vol.alloc.bgFree[g] + |(BlocksOf(fs', ino) - BlocksOf(fs, ino)) * fs.vol.alloc.geo.AllIn(g)|
    ensures fs'.inodes[ino].iBlocks == (BLOCK_SECTORS * |BlocksOf(fs', ino)|) % U32
    ensures create && idx < Base(TIND_BLOCK) ==> mapped != 0 || fs'.vol.alloc.sFree == 0
    ensures FileLook(Trees(fs.vol, fs.inodes[ino]), idx) == 0 && mapped != 0 ==> mapped !in fs.vol.alloc.InUse()
  {
    assert Sound(fs, ino) && Sound(fs', ino);
    var a, a' := fs.vol.alloc, fs'.vol.alloc;
    var gained := a'.InUse() - a.InUse();
    assert a.InUse() == a'.InUse() - gained;
    CountersFollow(a', a, gained);
    assert BlocksOf(fs', ino) - BlocksOf(fs, ino) == gained;
    var ts' := Trees(fs'.vol, fs'.inodes[ino]);
    assert AllDistinct(ts');
    AllSizeIsCardinality(ts');
    if create && idx < Base(TIND_BLOCK) && mapped == 0 {
      NoneFree(a');
    }
  }

  lemma NoneFree(a: Allocator)
    requires a.Exact() && a.InUse() == a.geo.AllOf()
    ensures a.sFree == 0
  {
    assert a.Audit(0);
    RangeCardinality(a.geo.firstData, a.geo.blocksCount);
  }
}
