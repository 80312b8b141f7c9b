/**
 The block map of ext2 files: lookup, on-demand allocation and truncation through the
 twelve direct slots and the single, double and triple indirect slots of an inode,
 over a volume shared by many files.
 */
module Ext2File {
  import opened Arith
  import opened BlockTree
  import opened BlockBitmap
  import opened Ext2Volume

  const NDIR_BLOCKS: nat := 12
  const IND_BLOCK: nat := 12
  const DIND_BLOCK: nat := 13
  const TIND_BLOCK: nat := 14
  const N_BLOCKS: nat := 15
  const BLOCK_SIZE: nat := 4096
  const BLOCK_SECTORS: nat := 8
  const U32: nat := 0x1_0000_0000

  /** `i_block`: fifteen slots. */
  type Slots = s: seq<nat> | |s| == N_BLOCKS witness NoSlots()

  function NoSlots(): (s: seq<nat>)
    ensures |s| == N_BLOCKS && forall i :: 0 <= i < N_BLOCKS ==> s[i] == 0
  {
    seq(N_BLOCKS, _ => 0)
  }

  function SlotDepth(i: nat): nat {
    if i < NDIR_BLOCKS then 0 else i - NDIR_BLOCKS + 1
  }

  /** The fifteen trees of a file. */
  ghost function Forest(disk: Disk, slots: Slots): (ts: seq<Tree>)
    ensures |ts| == N_BLOCKS
  {
    seq(N_BLOCKS, i requires 0 <= i < N_BLOCKS => Load(disk, slots[i], SlotDepth(i)))
  }

  /** The whole file as one tree hanging off the inode, which is no block itself. */
  ghost function FileTree(disk: Disk, slots: Slots): Tree {
    Node(0, Forest(disk, slots))
  }

  ghost function FileBlocks(disk: Disk, slots: Slots): set<nat> {
    AllBlocks(Forest(disk, slots))
  }

  // ---- Truncation of a forest ----

  function Minus(a: nat, b: nat): nat {
    if a > b then a - b else 0
  }

  /** The share of `keep` logical blocks that falls to slot `i`. */
  function TopKeep(keep: nat, i: nat): nat {
    if i < NDIR_BLOCKS then (if keep > i then 1 else 0)
    else if i == IND_BLOCK then Minus(keep, NDIR_BLOCKS)
    else if i == DIND_BLOCK then Minus(Minus(keep, NDIR_BLOCKS), Span(1))
    else Minus(Minus(Minus(keep, NDIR_BLOCKS), Span(1)), Span(2))
  }

  ghost function TruncForest(ts: seq<Tree>, keep: nat): (us: seq<Tree>)
    ensures |us| == |ts|
  {
    seq(|ts|, i requires 0 <= i < |ts| => Trunc(ts[i], SlotDepth(i), TopKeep(keep, i)))
  }

  lemma TruncForestWithin(ts: seq<Tree>, keep: nat)
    ensures Within(TruncForest(ts, keep), ts)
  {
    var us := TruncForest(ts, keep);
    forall i | 0 <= i < |ts| ensures Smaller(us[i], ts[i]) {
      TruncBlocks(ts[i], SlotDepth(i), TopKeep(keep, i));
    }
  }

  /** Cut one slot of the inode. */
  method TruncateBranch(v: Volume, slots: Slots, i: nat, keep: nat) returns (v': Volume, slots': Slots)
    requires v.alloc.Exact() && i < N_BLOCKS
    requires Distinct(Forest(v.disk, slots)[i])
    requires ClearOfOthers(Forest(v.disk, slots), i, Blocks(Forest(v.disk, slots)[i]))
    ensures Kept(v.alloc, v'.alloc)
    ensures Forest(v'.disk, slots')
            == Forest(v.disk, slots)[i := Trunc(Forest(v.disk, slots)[i], SlotDepth(i), keep)]
    ensures v'.alloc.InUse()
            == v.alloc.InUse() - (Blocks(Forest(v.disk, slots)[i]) - Blocks(Forest(v'.disk, slots')[i]))
    ensures SameOutside(v.disk, v'.disk, Blocks(Forest(v.disk, slots)[i]))
  {
    var slot;
    v', slot := TruncateSlot(v, slots[i], SlotDepth(i), keep);
    slots' := slots[i := slot];
    ghost var ts, us := Forest(v.disk, slots), Forest(v'.disk, slots');
    forall j | 0 <= j < N_BLOCKS && j != i ensures us[j] == ts[j] {
      assert Blocks(ts[j]) !! Blocks(ts[i]);
      LoadFrame(v.disk, v'.disk, slots[j], SlotDepth(j));
    }
    assert us == ts[i := Trunc(ts[i], SlotDepth(i), keep)];
  }

  /** Cut every slot in turn, handing each the part of the budget that is left. */
  method TruncateSlots(v: Volume, slots: Slots, keep: nat) returns (v': Volume, slots': Slots)
    requires v.alloc.Exact() && Distinct(FileTree(v.disk, slots))
    ensures Kept(v.alloc, v'.alloc)
    ensures Forest(v'.disk, slots') == TruncForest(Forest(v.disk, slots), keep)
    ensures v'.alloc.InUse()
            == v.alloc.InUse() - (FileBlocks(v.disk, slots) - FileBlocks(v'.disk, slots'))
    ensures SameOutside(v.disk, v'.disk, Blocks(FileTree(v.disk, slots)))
  {
    v', slots' := v, slots;
    ghost var t := FileTree(v.disk, slots);
    ghost var cut := TruncForest(t.kids, keep);
    TruncForestWithin(t.kids, keep);
    var remaining := keep;
    var i := 0;
    while i < NDIR_BLOCKS
      invariant i <= NDIR_BLOCKS && Kept(v.alloc, v'.alloc)
      invariant remaining == Minus(keep, i)
      invariant Cutting(t, cut, i, Forest(v'.disk, slots'), v.alloc.InUse(), v'.alloc.InUse(), v.disk, v'.disk)
    {
      v', slots' := TruncateNext(v, t, cut, keep, v', slots', i, if remaining > 0 then 1 else 0);
      if remaining > 0 {
        remaining := remaining - 1;
      }
      i := i + 1;
    }
    v', slots' := TruncateNext(v, t, cut, keep, v', slots', IND_BLOCK, remaining);
    remaining := if remaining > Span(1) then remaining - Span(1) else 0;
    v', slots' := TruncateNext(v, t, cut, keep, v', slots', DIND_BLOCK, remaining);
    remaining := if remaining > Span(2) then remaining - Span(2) else 0;
    v', slots' := TruncateNext(v, t, cut, keep, v', slots', TIND_BLOCK, remaining);
    CuttingDone(t, cut, Forest(v'.disk, slots'), v.alloc.InUse(), v'.alloc.InUse(), v.disk, v'.disk);
  }

  method TruncateNext(ghost v: Volume, ghost t: Tree, ghost cut: seq<Tree>, ghost keep: nat,
                      w: Volume, slots: Slots, i: nat, share: nat) returns (w': Volume, slots': Slots)
    requires v.alloc.Exact() && Kept(v.alloc, w.alloc) && i < N_BLOCKS && share == TopKeep(keep, i)
    requires Cutting(t, cut, i, Forest(w.disk, slots), v.alloc.InUse(), w.alloc.InUse(), v.disk, w.disk)
    requires cut == TruncForest(t.kids, keep)
    ensures Kept(v.alloc, w'.alloc)
    ensures Cutting(t, cut, i + 1, Forest(w'.disk, slots'), v.alloc.InUse(), w'.alloc.InUse(), v.disk, w'.disk)
  {
    ghost var es := Forest(w.disk, slots);
    CuttingNext(t, cut, i, es, v.alloc.InUse(), w.alloc.InUse(), v.disk, w.disk);
    w', slots' := TruncateBranch(w, slots, i, share);
    CuttingStep(t, cut, i, es, v.alloc.InUse(), w.alloc.InUse(), v.disk, w.disk, w'.disk);
  }

  // ---- Lookup ----

  /** The data block at logical block `idx` of a file, or 0: what the fifteen trees mean. */
  ghost function FileLook(ts: seq<Tree>, idx: nat): nat
    requires |ts| == N_BLOCKS
  {
    if idx < NDIR_BLOCKS then Look(ts[idx], 0, 0)
    else if idx < Base(DIND_BLOCK) then Look(ts[IND_BLOCK], 1, idx - Base(IND_BLOCK))
    else if idx < Base(TIND_BLOCK) then Look(ts[DIND_BLOCK], 2, idx - Base(DIND_BLOCK))
    else if idx < Base(N_BLOCKS) then Look(ts[TIND_BLOCK], 3, idx - Base(TIND_BLOCK))
    else 0
  }

  /** The first logical block below slot `i`. */
  function Base(i: nat): nat {
    if i <= NDIR_BLOCKS then i else Base(i - 1) + Span(SlotDepth(i - 1))
  }

  lemma Bases()
    ensures Base(12) == 12 && Base(13) == 12 + PTRS && Base(14) == 12 + PTRS + PTRS * PTRS
    ensures Base(15) == 12 + PTRS + PTRS * PTRS + PTRS * PTRS * PTRS
    ensures Span(0) == 1 && Span(1) == PTRS && Span(2) == PTRS * PTRS && Span(3) == PTRS * PTRS * PTRS
  {
  }

  /** The slot below which logical block `idx` lies. */
  function SlotOf(idx: nat): nat {
    if idx < NDIR_BLOCKS then idx
    else if idx < Base(DIND_BLOCK) then IND_BLOCK
    else if idx < Base(TIND_BLOCK) then DIND_BLOCK
    else TIND_BLOCK
  }

  lemma SlotShare(keep: nat, idx: nat)
    requires idx < Base(N_BLOCKS)
    ensures Base(SlotOf(idx)) <= idx && idx - Base(SlotOf(idx)) < Span(SlotDepth(SlotOf(idx)))
    ensures idx - Base(SlotOf(idx)) < TopKeep(keep, SlotOf(idx)) <==> idx < keep
  {
    Bases();
  }

  lemma FileLookAt(ts: seq<Tree>, idx: nat)
    requires |ts| == N_BLOCKS && idx < Base(N_BLOCKS)
    ensures Base(SlotOf(idx)) <= idx
    ensures FileLook(ts, idx) == Look(ts[SlotOf(idx)], SlotDepth(SlotOf(idx)), idx - Base(SlotOf(idx)))
  {
    Bases();
  }

  /**
   Truncation, in terms of lookups: logical blocks below `keep` map as before, all
   others map to nothing.
   */
  lemma LookAfterTruncate(disk: Disk, slots: Slots, keep: nat, idx: nat)
    ensures FileLook(TruncForest(Forest(disk, slots), keep), idx)
            == if idx < keep then FileLook(Forest(disk, slots), idx) else 0
  {
    if idx < Base(N_BLOCKS) {
      var ts, i := Forest(disk, slots), SlotOf(idx);
      SlotShare(keep, idx);
      FileLookAt(ts, idx);
      FileLookAt(TruncForest(ts, keep), idx);
      LoadShaped(disk, slots[i], SlotDepth(i));
      LookAfterTrunc(ts[i], SlotDepth(i), TopKeep(keep, i), idx - Base(i));
    } else {
      Bases();
    }
  }

  /** `ext2_ind_bmap_readonly`: one word of an indirect block. */
  function IndReadonly(disk: Disk, block: nat, index: nat): nat
    requires index < PTRS
  {
    if block == 0 then 0 else WordsAt(disk, block)[index]
  }

  /** Look a logical block up without allocating.  Triple-indirect blocks are not looked up. */
  method BmapReadonly(disk: Disk, slots: Slots, idx: nat) returns (b: nat)
    ensures b == if idx < Base(TIND_BLOCK) then FileLook(Forest(disk, slots), idx) else 0
  {
    Bases();
    if idx < NDIR_BLOCKS {
      return slots[idx];
    }
    var block := idx - NDIR_BLOCKS;
    if block < PTRS {
      LookInd(disk, slots[IND_BLOCK], block);
      return IndReadonly(disk, slots[IND_BLOCK], block);
    }
    block := block - PTRS;
    if block >= PTRS * PTRS {
      return 0;
    }
    if slots[DIND_BLOCK] == 0 {
      return 0;
    }
    var first := IndReadonly(disk, slots[DIND_BLOCK], block / PTRS);
    LookDind(disk, slots[DIND_BLOCK], block);
    if first == 0 {
      return 0;
    }
    b := IndReadonly(disk, first, block % PTRS);
  }

  lemma LookInd(disk: Disk, slot: nat, k: nat)
    requires k < PTRS
    ensures Look(Load(disk, slot, 1), 1, k) == IndReadonly(disk, slot, k)
  {
    Bases();
  }

  lemma LookDind(disk: Disk, slot: nat, k: nat)
    requires k < PTRS * PTRS
    ensures Look(Load(disk, slot, 2), 2, k)
            == IndReadonly(disk, IndReadonly(disk, slot, k / PTRS), k % PTRS)
  {
    Bases();
    if slot != 0 {
      LookInd(disk, WordsAt(disk, slot)[k / PTRS], k % PTRS);
    }
  }

  // ---- Allocation on demand ----

  /** What the block map needs of an inode. */
  datatype Inode = Inode(slots: Slots, iBlocks: nat, size: nat)

  ghost function Trees(v: Volume, f: Inode): (ts: seq<Tree>)
    ensures |ts| == N_BLOCKS
  {
    Forest(v.disk, f.slots)
  }

  /** The file's tree shares no block, all its blocks are marked used, and `i_blocks` counts sectors. */
  ghost predicate FileOk(v: Volume, f: Inode)
    requires v.alloc.Exact()
  {
    && Distinct(FileTree(v.disk, f.slots))
    && AllBlocks(Trees(v, f)) <= v.alloc.InUse()
    && f.iBlocks == (BLOCK_SECTORS * AllSize(Trees(v, f))) % U32
  }

  ghost predicate Ready(v: Volume, f: Inode) {
    v.alloc.Exact() && v.alloc.ZeroReserved() && FileOk(v, f)
  }

  /** From `(v, f)` to `(v', f')` the file gained exactly the blocks newly marked used. */
  ghost predicate Grew(v: Volume, f: Inode, v': Volume, f': Inode) {
    && Ready(v, f) && Ready(v', f') && v'.alloc.geo == v.alloc.geo && f'.size == f.size
    && v.alloc.InUse() <= v'.alloc.InUse()
    && AllBlocks(Trees(v', f')) == AllBlocks(Trees(v, f)) + (v'.alloc.InUse() - v.alloc.InUse())
    && SameOutside(v.disk, v'.disk, AllBlocks(Trees(v', f')))
  }

  /** Lookups changed at most at `hit`, which now finds `r`. */
  ghost predicate FileLooks(ts: seq<Tree>, ts': seq<Tree>, hit: int, r: nat)
    requires |ts| == N_BLOCKS && |ts'| == N_BLOCKS
  {
    forall k: nat :: FileLook(ts', k) == if k == hit then r else FileLook(ts, k)
  }

  lemma FileLooksSlot(ts: seq<Tree>, i: nat, u: Tree, hit: int, r: nat)
    requires |ts| == N_BLOCKS && i < TIND_BLOCK
    requires hit < Span(SlotDepth(i)) && Looks(ts[i], u, SlotDepth(i), hit, r)
    ensures FileLooks(ts, ts[i := u], if hit < 0 then -1 else Base(i) + hit, r)
  {
    Bases();
    var ts' := ts[i := u];
    var h := if hit < 0 then -1 else Base(i) + hit;
    forall k: nat ensures FileLook(ts', k) == if k == h then r else FileLook(ts, k) {
      if i < NDIR_BLOCKS {
        assert Look(u, 0, 0) == if 0 == hit then r else Look(ts[i], 0, 0);
      }
    }
  }

  /** `ext2_alloc_bmap_block`: the new block is not yet reachable, but already counted. */
  method AllocBmapBlock(v: Volume, f: Inode, ino: nat) returns (v': Volume, f': Inode, r: nat)
    requires Ready(v, f)
    ensures Kept(v.alloc, v'.alloc) && v'.alloc.ZeroReserved()
    ensures r == 0 ==> v' == v && f' == f && Full(v)
    ensures r != 0 ==>
              && r !in v.alloc.InUse() && v'.alloc.InUse() == v.alloc.InUse() + {r}
              && FirstFit(v.alloc.geo, v.alloc.Preferred(ino), v.alloc.InUse(), r)
              && v'.disk == v.disk[r := ZeroBlock()]
              && f' == f.(iBlocks := (f.iBlocks + BLOCK_SECTORS) % U32)
  {
    v', r := AllocBlock(v, ino);
    f' := if r == 0 then f else f.(iBlocks := (f.iBlocks + BLOCK_SECTORS) % U32);
  }

  lemma SectorStep(n: nat)
    ensures ((BLOCK_SECTORS * n) % U32 + BLOCK_SECTORS) % U32 == (BLOCK_SECTORS * (n + 1)) % U32
  {
  }

  /** Replacing the tree of slot `i` by one that has block `r` more. */
  lemma GrewBy(v: Volume, f: Inode, v': Volume, f': Inode, i: nat, u: Tree, r: nat)
    requires Ready(v, f) && Kept(v.alloc, v'.alloc) && v'.alloc.ZeroReserved()
    requires i < N_BLOCKS && r != 0 && r !in v.alloc.InUse() && v'.alloc.InUse() == v.alloc.InUse() + {r}
    requires Trees(v', f') == Trees(v, f)[i := u] && Grows(Trees(v, f)[i], u, r)
    requires f'.iBlocks == (f.iBlocks + BLOCK_SECTORS) % U32 && f'.size == f.size
    requires SameOutside(v.disk, v'.disk, AllBlocks(Trees(v, f)) + {r})
    ensures Grew(v, f, v', f')
  {
    var t := FileTree(v.disk, f.slots);
    assert AllDistinct(t.kids);
    GrowsRun(t.kids, i, u, r);
    SectorStep(AllSize(t.kids));
    NoZeroFile(v'.disk, f'.slots);
  }

  lemma NoZeroFile(disk: Disk, slots: Slots)
    ensures 0 !in FileBlocks(disk, slots)
  {
    var ts := Forest(disk, slots);
    forall i | 0 <= i < |ts| ensures 0 !in Blocks(ts[i]) {
      NoZero(disk, slots[i], SlotDepth(i));
    }
  }

  /** Changes to disk blocks clear of all trees but one leave the others as they were. */
  lemma ChangeSlot(d: Disk, d': Disk, slots: Slots, i: nat, slot: nat, touched: set<nat>)
    requires i < N_BLOCKS && SameOutside(d, d', touched)
    requires ClearOfOthers(Forest(d, slots), i, touched)
    ensures Forest(d', slots[i := slot]) == Forest(d, slots)[i := Load(d', slot, SlotDepth(i))]
  {
    var ts, us := Forest(d, slots), Forest(d', slots[i := slot]);
    forall j | 0 <= j < N_BLOCKS && j != i ensures us[j] == ts[j] {
      assert Blocks(ts[j]) !! touched;
      LoadFrame(d, d', slots[j], SlotDepth(j));
    }
    assert us == ts[i := Load(d', slot, SlotDepth(i))];
  }

  lemma ClearOfFile(ts: seq<Tree>, i: nat, bs: set<nat>)
    requires AllDistinct(ts) && i < |ts|
    requires forall b :: b in bs ==> b !in AllBlocks(ts) || b in Blocks(ts[i])
    ensures ClearOfOthers(ts, i, bs)
  {
    forall j | 0 <= j < |ts| && j != i ensures Blocks(ts[j]) !! bs {
      assert Apart(ts[j], ts[i]);
    }
  }

  /** Give an empty slot of the inode a block. */
  method FillSlot(v: Volume, f: Inode, ino: nat, i: nat) returns (v': Volume, f': Inode)
    requires Ready(v, f) && i < TIND_BLOCK && f.slots[i] == 0
    ensures Grew(v, f, v', f')
    ensures f'.slots[i] == 0 ==> v' == v && f' == f && Full(v)
    ensures f'.slots[i] != 0 ==>
              && f'.slots[i] !in v.alloc.InUse()
              && FileLooks(Trees(v, f), Trees(v', f'), if i < NDIR_BLOCKS then i else -1, f'.slots[i])
  {
    var r;
    v', f', r := AllocBmapBlock(v, f, ino);
    if r == 0 {
      return;
    }
    f' := f'.(slots := f.slots[i := r]);
    ghost var ts, depth := Trees(v, f), SlotDepth(i);
    ClearOfFile(ts, i, {r});
    ChangeSlot(v.disk, v'.disk, f.slots, i, r, {r});
    FreshLoads(v'.disk, r, depth);
    GrowsFresh(r, depth);
    GrewBy(v, f, v', f', i, Fresh(r, depth), r);
    LooksFresh(r, depth);
    FileLooksSlot(ts, i, Fresh(r, depth), if depth == 0 then 0 else -1, r);
    Bases();
  }

  /** A freshly marked block `r`, stored in empty entry `e` of block `blk` at depth `depth + 1`. */
  ghost predicate Stored(v: Volume, f: Inode, v': Volume, f': Inode, blk: nat, depth: nat, e: nat, r: nat) {
    && Ready(v, f) && Kept(v.alloc, v'.alloc) && v'.alloc.ZeroReserved() && r != 0 && e < PTRS && blk != 0
    && r !in v.alloc.InUse() && v'.alloc.InUse() == v.alloc.InUse() + {r}
    && WordsAt(v.disk, blk)[e] == 0 && WordsAt(v'.disk, blk) == WordsAt(v.disk, blk)[e := r]
    && Load(v'.disk, blk, depth + 1) == Node(blk, Load(v.disk, blk, depth + 1).kids[e := Fresh(r, depth)])
    && SameOutside(v.disk, v'.disk, {r, blk})
    && f' == f.(iBlocks := (f.iBlocks + BLOCK_SECTORS) % U32)
  }

  /** Give an empty entry of an indirect block a block. */
  method FillEntry(v: Volume, f: Inode, ino: nat, blk: nat, depth: nat, e: nat) returns (v': Volume, f': Inode, r: nat)
    requires Ready(v, f) && blk != 0 && e < PTRS && WordsAt(v.disk, blk)[e] == 0
    requires Distinct(Load(v.disk, blk, depth + 1)) && Blocks(Load(v.disk, blk, depth + 1)) <= v.alloc.InUse()
    ensures r == 0 ==> v' == v && f' == f && Full(v)
    ensures r != 0 ==> Stored(v, f, v', f', blk, depth, e, r)
  {
    v', f', r := AllocBmapBlock(v, f, ino);
    if r == 0 {
      return;
    }
    ghost var t := Load(v.disk, blk, depth + 1);
    NodeBlocks(v.disk, blk, depth + 1);
    FreshLoads(v'.disk, r, depth);
    GrowsFresh(r, depth);
    forall j | 0 <= j < PTRS && j != e ensures Blocks(t.kids[j]) !! {r} + {blk} {
      assert Blocks(t.kids[j]) <= AllBlocks(t.kids);
    }
    StoreEntry(v.disk, v'.disk, blk, depth, e, r, {r});
    v' := v'.(disk := v'.disk[blk := WordsAt(v'.disk, blk)[e := r]]);
  }

  /** Storing in the block that slot `i` names. */
  lemma StoredTop(v: Volume, f: Inode, v': Volume, f': Inode, i: nat, e: nat, r: nat)
    requires NDIR_BLOCKS <= i < TIND_BLOCK && Stored(v, f, v', f', f.slots[i], SlotDepth(i) - 1, e, r)
    ensures Grew(v, f, v', f')
    ensures FileLooks(Trees(v, f), Trees(v', f'), if i == IND_BLOCK then Base(i) + e else -1, r)
  {
    var ts, blk, depth := Trees(v, f), f.slots[i], SlotDepth(i) - 1;
    var t := ts[i];
    KidIs(v.disk, blk, depth, e);
    assert AllDistinct(ts) && Distinct(t);
    assert blk in Blocks(t) && Blocks(t) <= AllBlocks(ts);
    ClearOfFile(ts, i, {r, blk});
    ChangeSlot(v.disk, v'.disk, f.slots, i, blk, {r, blk});
    assert f.slots[i := blk] == f.slots;
    var u := Node(blk, t.kids[e := Fresh(r, depth)]);
    assert t.kids[e].Hole?;
    GrowsFresh(r, depth);
    GrowsNode(t, e, Fresh(r, depth), r);
    GrewBy(v, f, v', f', i, u, r);
    LooksFresh(r, depth);
    var hit := if depth == 0 then 0 else -1;
    Bases();
    LooksKid(t, depth, e, Fresh(r, depth), hit, r);
    FileLooksSlot(ts, i, u, if hit < 0 then -1 else e, r);
  }

  /** What storing `r` below entry `c` of the double-indirect block makes of its tree. */
  ghost function DeepTree(t: Tree, c: nat, e: nat, r: nat): Tree
    requires t.Node? && c < |t.kids| && t.kids[c].Node? && e < |t.kids[c].kids|
  {
    Node(t.blk, t.kids[c := Node(t.kids[c].blk, t.kids[c].kids[e := Data(r)])])
  }

  lemma DeepShape(v: Volume, f: Inode, c: nat, e: nat)
    requires Ready(v, f) && f.slots[DIND_BLOCK] != 0 && c < PTRS && e < PTRS
    requires WordsAt(v.disk, f.slots[DIND_BLOCK])[c] != 0
    ensures var t := Trees(v, f)[DIND_BLOCK];
            var blk := WordsAt(v.disk, f.slots[DIND_BLOCK])[c];
            && t.Node? && t.blk == f.slots[DIND_BLOCK] && |t.kids| == PTRS && Distinct(t) && Blocks(t) <= v.alloc.InUse()
            && t.kids[c] == Load(v.disk, blk, 1) && t.kids[c].Node? && t.kids[c].blk == blk
            && |t.kids[c].kids| == PTRS && t.kids[c].kids[e] == Load(v.disk, WordsAt(v.disk, blk)[e], 0)
            && AllDistinct(t.kids) && Distinct(t.kids[c]) && blk in Blocks(t.kids[c]) && blk != t.blk
            && blk in Blocks(t)
  {
    SlotTree(v, f, DIND_BLOCK);
    KidIs(v.disk, f.slots[DIND_BLOCK], 1, c);
    KidIs(v.disk, WordsAt(v.disk, f.slots[DIND_BLOCK])[c], 0, e);
    var t := Trees(v, f)[DIND_BLOCK];
    assert AllDistinct(t.kids) && Distinct(t.kids[c]);
    assert Blocks(t.kids[c]) <= AllBlocks(t.kids);
  }

  lemma DeepTrees(v: Volume, f: Inode, v': Volume, f': Inode, c: nat, e: nat, r: nat)
    requires f.slots[DIND_BLOCK] != 0 && c < PTRS
    requires Stored(v, f, v', f', WordsAt(v.disk, f.slots[DIND_BLOCK])[c], 0, e, r)
    ensures var t := Trees(v, f)[DIND_BLOCK];
            && t.Node? && c < |t.kids| && t.kids[c].Node? && e < |t.kids[c].kids|
            && Trees(v', f') == Trees(v, f)[DIND_BLOCK := DeepTree(t, c, e, r)]
  {
    DeepShape(v, f, c, e);
    var ts, top := Trees(v, f), f.slots[DIND_BLOCK];
    var blk, t := WordsAt(v.disk, top)[c], ts[DIND_BLOCK];
    ClearOfFile(t.kids, c, {r, blk});
    ChangeKid(v.disk, v'.disk, top, 1, c, {r, blk});
    assert AllDistinct(ts);
    ClearOfFile(ts, DIND_BLOCK, {r, blk});
    ChangeSlot(v.disk, v'.disk, f.slots, DIND_BLOCK, top, {r, blk});
    assert f.slots[DIND_BLOCK := top] == f.slots;
  }

  /** Storing in the block that entry `c` of the double-indirect block names. */
  lemma StoredDeep(v: Volume, f: Inode, v': Volume, f': Inode, c: nat, e: nat, r: nat)
    requires f.slots[DIND_BLOCK] != 0 && c < PTRS
    requires Stored(v, f, v', f', WordsAt(v.disk, f.slots[DIND_BLOCK])[c], 0, e, r)
    ensures Grew(v, f, v', f')
    ensures FileLooks(Trees(v, f), Trees(v', f'), Base(DIND_BLOCK) + c * PTRS + e, r)
  {
    DeepShape(v, f, c, e);
    DeepTrees(v, f, v', f', c, e, r);
    var ts := Trees(v, f);
    var t := ts[DIND_BLOCK];
    DeepGrows(t, c, e, r);
    GrewBy(v, f, v', f', DIND_BLOCK, DeepTree(t, c, e, r), r);
    FileLooksSlot(ts, DIND_BLOCK, DeepTree(t, c, e, r), c * PTRS + e, r);
  }

  lemma DeepGrows(t: Tree, c: nat, e: nat, r: nat)
    requires t.Node? && |t.kids| == PTRS && c < PTRS && t.kids[c].Node? && |t.kids[c].kids| == PTRS && e < PTRS
    requires Distinct(t) && Distinct(t.kids[c]) && t.kids[c].kids[e].Hole? && r !in Blocks(t)
    ensures Grows(t, DeepTree(t, c, e, r), r)
    ensures c * PTRS + e < Span(2) && Looks(t, DeepTree(t, c, e, r), 2, c * PTRS + e, r)
  {
    var k := t.kids[c];
    assert Blocks(k) <= AllBlocks(t.kids);
    var k' := Node(k.blk, k.kids[e := Data(r)]);
    GrowsFresh(r, 0);
    GrowsNode(k, e, Data(r), r);
    GrowsNode(t, c, k', r);
    LooksFresh(r, 0);
    Bases();
    LooksKid(k, 0, e, Data(r), 0, r);
    LooksKid(t, 1, c, k', e, r);
  }

  /** What mapping logical block `idx` to `mapped` did. */
  ghost predicate Mapped(v: Volume, f: Inode, idx: nat, create: bool, v': Volume, f': Inode, mapped: nat) {
    && Grew(v, f, v', f')
    && FileLooks(Trees(v, f), Trees(v', f'), if idx < Base(TIND_BLOCK) then idx else -1, mapped)
    && (!create || FileLook(Trees(v, f), idx) != 0 || idx >= Base(TIND_BLOCK) ==> v' == v && f' == f)
    && (create && idx < Base(TIND_BLOCK) && mapped == 0 ==> Full(v'))
    && (idx >= Base(TIND_BLOCK) ==> mapped == 0)
    && (FileLook(Trees(v, f), idx) == 0 && mapped != 0 ==> mapped !in v.alloc.InUse())
  }

  ghost predicate Full(v: Volume) {
    v.alloc.Exact() && v.alloc.InUse() == v.alloc.geo.AllOf()
  }

  lemma MappedSame(v: Volume, f: Inode, idx: nat, create: bool, mapped: nat)
    requires Ready(v, f) && mapped == if idx < Base(TIND_BLOCK) then FileLook(Trees(v, f), idx) else 0
    requires create && idx < Base(TIND_BLOCK) && mapped == 0 ==> Full(v)
    ensures Mapped(v, f, idx, create, v, f, mapped)
  {
  }

  lemma MappedNew(v: Volume, f: Inode, idx: nat, v': Volume, f': Inode, r: nat)
    requires Grew(v, f, v', f') && idx < Base(TIND_BLOCK) && r != 0 && r !in v.alloc.InUse()
    requires FileLooks(Trees(v, f), Trees(v', f'), idx, r) && FileLook(Trees(v, f), idx) == 0
    ensures Mapped(v, f, idx, true, v', f', r)
  {
  }

  /** A step that only added an indirect block, and then a mapping. */
  lemma MappedVia(v: Volume, f: Inode, v1: Volume, f1: Inode, r1: nat, idx: nat, v2: Volume, f2: Inode, mapped: nat)
    requires Grew(v, f, v1, f1) && FileLooks(Trees(v, f), Trees(v1, f1), -1, r1)
    requires FileLook(Trees(v, f), idx) == 0 && idx < Base(TIND_BLOCK)
    requires Mapped(v1, f1, idx, true, v2, f2, mapped)
    ensures Mapped(v, f, idx, true, v2, f2, mapped)
  {
    var ts, ts1, ts2 := Trees(v, f), Trees(v1, f1), Trees(v2, f2);
    forall k: nat ensures FileLook(ts2, k) == if k == idx then mapped else FileLook(ts, k) {
      assert FileLook(ts1, k) == FileLook(ts, k);
    }
  }

  /**
   Map logical block `idx` of a file, allocating the data block and the indirect blocks
   above it when `create` is set and they are missing.
   */
  method Bmap(v: Volume, f: Inode, ino: nat, idx: nat, create: bool) returns (v': Volume, f': Inode, mapped: nat)
    requires Ready(v, f)
    ensures Mapped(v, f, idx, create, v', f', mapped)
  {
    Bases();
    if idx < NDIR_BLOCKS {
      if f.slots[idx] == 0 && create {
        v', f' := FillSlot(v, f, ino, idx);
        mapped := f'.slots[idx];
        if mapped != 0 {
          MappedNew(v, f, idx, v', f', mapped);
          return;
        }
      }
      v', f', mapped := v, f, f.slots[idx];
      MappedSame(v, f, idx, create, mapped);
    } else if idx < Base(DIND_BLOCK) {
      v', f', mapped := BmapInd(v, f, ino, idx - NDIR_BLOCKS, create);
    } else if idx < Base(TIND_BLOCK) {
      v', f', mapped := BmapDind(v, f, ino, idx - Base(DIND_BLOCK), create);
    } else {
      v', f', mapped := v, f, 0;
      MappedSame(v, f, idx, create, mapped);
    }
  }

  /** The single-indirect part, `k` blocks past the direct ones. */
  method BmapInd(v: Volume, f: Inode, ino: nat, k: nat, create: bool) returns (v': Volume, f': Inode, mapped: nat)
    requires Ready(v, f) && k < PTRS
    ensures Mapped(v, f, Base(IND_BLOCK) + k, create, v', f', mapped)
  {
    LookAtInd(v, f, k);
    if f.slots[IND_BLOCK] == 0 && create {
      var v1, f1 := FillSlot(v, f, ino, IND_BLOCK);
      if f1.slots[IND_BLOCK] == 0 {
        v', f', mapped := v, f, 0;
        MappedSame(v, f, Base(IND_BLOCK) + k, create, mapped);
        return;
      }
      v', f', mapped := IndBmap(v1, f1, ino, k, create);
      MappedVia(v, f, v1, f1, f1.slots[IND_BLOCK], Base(IND_BLOCK) + k, v', f', mapped);
    } else if f.slots[IND_BLOCK] == 0 {
      v', f', mapped := v, f, 0;
      MappedSame(v, f, Base(IND_BLOCK) + k, create, mapped);
    } else {
      v', f', mapped := IndBmap(v, f, ino, k, create);
    }
  }

  /** `ext2_ind_bmap` on the single-indirect block. */
  method IndBmap(v: Volume, f: Inode, ino: nat, k: nat, create: bool) returns (v': Volume, f': Inode, mapped: nat)
    requires Ready(v, f) && k < PTRS && f.slots[IND_BLOCK] != 0
    ensures Mapped(v, f, Base(IND_BLOCK) + k, create, v', f', mapped)
  {
    LookAtInd(v, f, k);
    v', f', mapped := v, f, WordsAt(v.disk, f.slots[IND_BLOCK])[k];
    if mapped == 0 && create {
      SlotTree(v, f, IND_BLOCK);
      v', f', mapped := FillEntry(v, f, ino, f.slots[IND_BLOCK], 0, k);
      if mapped != 0 {
        StoredTop(v, f, v', f', IND_BLOCK, k, mapped);
        MappedNew(v, f, Base(IND_BLOCK) + k, v', f', mapped);
        return;
      }
    }
    MappedSame(v, f, Base(IND_BLOCK) + k, create, mapped);
  }

  lemma LookAtInd(v: Volume, f: Inode, k: nat)
    requires k < PTRS
    ensures Base(IND_BLOCK) + k < Base(DIND_BLOCK) < Base(TIND_BLOCK)
    ensures FileLook(Trees(v, f), Base(IND_BLOCK) + k) == IndReadonly(v.disk, f.slots[IND_BLOCK], k)
  {
    Bases();
    LookInd(v.disk, f.slots[IND_BLOCK], k);
  }

  /** A slot's tree has no sharing and only used blocks. */
  lemma SlotTree(v: Volume, f: Inode, i: nat)
    requires Ready(v, f) && i < N_BLOCKS
    ensures var t := Load(v.disk, f.slots[i], SlotDepth(i));
            Distinct(t) && Blocks(t) <= v.alloc.InUse() && t == Trees(v, f)[i]
  {
    var ts := Trees(v, f);
    assert AllDistinct(ts) && Distinct(ts[i]) && Blocks(ts[i]) <= AllBlocks(ts);
  }

  /** Logical block number of entry `second` below entry `first` of the double-indirect block. */
  function DindIndex(first: nat, second: nat): nat {
    Base(DIND_BLOCK) + first * PTRS + second
  }

  lemma LookAtDind(v: Volume, f: Inode, first: nat, second: nat)
    requires first < PTRS && second < PTRS
    ensures DindIndex(first, second) < Base(TIND_BLOCK)
    ensures FileLook(Trees(v, f), DindIndex(first, second))
            == IndReadonly(v.disk, IndReadonly(v.disk, f.slots[DIND_BLOCK], first), second)
  {
    Bases();
    var k := first * PTRS + second;
    DivUnique(k, PTRS, first, second);
    LookDind(v.disk, f.slots[DIND_BLOCK], k);
  }

  /** The double-indirect part, `k` blocks past the single-indirect ones. */
  method BmapDind(v: Volume, f: Inode, ino: nat, k: nat, create: bool) returns (v': Volume, f': Inode, mapped: nat)
    requires Ready(v, f) && k < PTRS * PTRS
    ensures Mapped(v, f, Base(DIND_BLOCK) + k, create, v', f', mapped)
  {
    var first, second := k / PTRS, k % PTRS;
    LookAtDind(v, f, first, second);
    assert DindIndex(first, second) == Base(DIND_BLOCK) + k by { DivBounds(k, PTRS); }
    if f.slots[DIND_BLOCK] == 0 && create {
      var v1, f1 := FillSlot(v, f, ino, DIND_BLOCK);
      if f1.slots[DIND_BLOCK] == 0 {
        v', f', mapped := v, f, 0;
        MappedSame(v, f, DindIndex(first, second), create, mapped);
        return;
      }
      v', f', mapped := DindBmap(v1, f1, ino, first, second, create);
      MappedVia(v, f, v1, f1, f1.slots[DIND_BLOCK], DindIndex(first, second), v', f', mapped);
    } else if f.slots[DIND_BLOCK] == 0 {
      v', f', mapped := v, f, 0;
      MappedSame(v, f, DindIndex(first, second), create, mapped);
    } else {
      v', f', mapped := DindBmap(v, f, ino, first, second, create);
    }
  }

  /** The double-indirect block exists; make entry `first` name an indirect block. */
  method DindBmap(v: Volume, f: Inode, ino: nat, first: nat, second: nat, create: bool)
    returns (v': Volume, f': Inode, mapped: nat)
    requires Ready(v, f) && first < PTRS && second < PTRS && f.slots[DIND_BLOCK] != 0
    ensures Mapped(v, f, DindIndex(first, second), create, v', f', mapped)
  {
    LookAtDind(v, f, first, second);
    var blk := WordsAt(v.disk, f.slots[DIND_BLOCK])[first];
    if blk == 0 && create {
      SlotTree(v, f, DIND_BLOCK);
      var v1, f1, r := FillEntry(v, f, ino, f.slots[DIND_BLOCK], 1, first);
      if r == 0 {
        v', f', mapped := v, f, 0;
        MappedSame(v, f, DindIndex(first, second), create, mapped);
        return;
      }
      StoredTop(v, f, v1, f1, DIND_BLOCK, first, r);
      v', f', mapped := LeafBmap(v1, f1, ino, first, second, create);
      MappedVia(v, f, v1, f1, r, DindIndex(first, second), v', f', mapped);
    } else if blk == 0 {
      v', f', mapped := v, f, 0;
      MappedSame(v, f, DindIndex(first, second), create, mapped);
    } else {
      v', f', mapped := LeafBmap(v, f, ino, first, second, create);
    }
  }

  /** `ext2_ind_bmap` on the indirect block that entry `first` of the double-indirect block names. */
  method LeafBmap(v: Volume, f: Inode, ino: nat, first: nat, second: nat, create: bool)
    returns (v': Volume, f': Inode, mapped: nat)
    requires Ready(v, f) && first < PTRS && second < PTRS && f.slots[DIND_BLOCK] != 0
    requires WordsAt(v.disk, f.slots[DIND_BLOCK])[first] != 0
    ensures Mapped(v, f, DindIndex(first, second), create, v', f', mapped)
  {
    LookAtDind(v, f, first, second);
    var blk := WordsAt(v.disk, f.slots[DIND_BLOCK])[first];
    v', f', mapped := v, f, WordsAt(v.disk, blk)[second];
    if mapped == 0 && create {
      SlotTree(v, f, DIND_BLOCK);
      KidTree(v.disk, f.slots[DIND_BLOCK], 1, first);
      v', f', mapped := FillEntry(v, f, ino, blk, 0, second);
      if mapped != 0 {
        StoredDeep(v, f, v', f', first, second, mapped);
        MappedNew(v, f, DindIndex(first, second), v', f', mapped);
        return;
      }
    }
    MappedSame(v, f, DindIndex(first, second), create, mapped);
  }

  lemma KidTree(disk: Disk, slot: nat, depth: nat, e: nat)
    requires slot != 0 && e < PTRS && Distinct(Load(disk, slot, depth + 1))
    ensures var k := Load(disk, WordsAt(disk, slot)[e], depth);
            Distinct(k) && Blocks(k) <= Blocks(Load(disk, slot, depth + 1))
  {
    KidIs(disk, slot, depth, e);
    var t := Load(disk, slot, depth + 1);
    assert AllDistinct(t.kids) && Distinct(t.kids[e]) && Blocks(t.kids[e]) <= AllBlocks(t.kids);
  }
}
