/**
 ext2 block allocation and the recursive walks over one file's block tree.
 Device I/O succeeds, so a cached metadata block and its copy on disk are one thing.
 A `Volume` is the whole of the mutable metadata; a step replaces it.
 */
module Ext2Volume {
  import opened BlockTree
  import opened BlockBitmap

  datatype Allocator = Allocator(geo: Geometry, bitmaps: Bitmaps, bgFree: seq<nat>, sFree: nat)
  {
    /**
     The two levels of free counters agree with the bitmaps.  Said group by group
     through `Audit`, so that proofs about trees need not look inside.
     */
    ghost predicate Exact() {
      && |bitmaps| > 0
      && forall g: nat {:trigger Audit(g)} :: g < |bitmaps| ==> Audit(g)
    }

    ghost predicate Audit(g: nat) {
      Counted(geo, bitmaps, UsedSet(), bgFree, sFree) && g < |bgFree|
    }

    ghost function UsedSet(): set<nat> {
      if Sized(geo, bitmaps) then Used(geo, bitmaps) else {}
    }

    /** The blocks whose bitmap bit is set. */
    ghost function InUse(): set<nat>
      requires Exact()
    {
      assert Audit(0);
      Used(geo, bitmaps)
    }

    /** Block 0 doubles as "no block", so its bit must stay set when it is a data block. */
    ghost predicate ZeroReserved()
      requires Exact()
    {
      geo.firstData == 0 ==> 0 in InUse()
    }

    /** The group an inode's blocks are looked for first. */
    function Preferred(ino: nat): nat {
      if ino > 0 && geo.inodesPerGroup > 0 then (ino - 1) / geo.inodesPerGroup else 0
    }
  }

  /** One step kept the geometry and the counters right. */
  ghost predicate Kept(a: Allocator, a': Allocator) {
    a'.geo == a.geo && a'.Exact()
  }

  method FreeBlock(a: Allocator, b: nat) returns (a': Allocator)
    requires a.Exact()
    ensures Kept(a, a') && a'.InUse() == a.InUse() - {b}
  {
    a' := a;
    Layout(a);
    if b < a.geo.firstData || b >= a.geo.blocksCount {
      return;
    }
    GroupBounds(a.geo, b);
    var group := (b - a.geo.firstData) / a.geo.blocksPerGroup;
    var bit := b - a.geo.GroupFirst(group);
    BitTells(a, b);
    if a.bitmaps[group][bit] {
      ReleaseBit(a, b);
      a' := a.(bitmaps := a.bitmaps[group := a.bitmaps[group][bit := false]],
               bgFree := a.bgFree[group := a.bgFree[group] + 1],
               sFree := a.sFree + 1);
    }
  }

  lemma Layout(a: Allocator)
    requires a.Exact()
    ensures a.geo.Valid() && |a.bitmaps| == a.geo.Groups() == |a.bgFree| && a.InUse() <= a.geo.AllOf()
    ensures forall g :: 0 <= g < |a.bitmaps| ==> |a.bitmaps[g]| == a.geo.blocksPerGroup
  {
    assert a.Audit(0);
  }

  lemma BitTells(a: Allocator, b: nat)
    requires a.Exact() && a.geo.Valid() && a.geo.InRange(b) && a.geo.GroupOf(b) < |a.bitmaps|
    requires 0 <= b - a.geo.GroupFirst(a.geo.GroupOf(b)) < |a.bitmaps[a.geo.GroupOf(b)]|
    ensures a.bitmaps[a.geo.GroupOf(b)][b - a.geo.GroupFirst(a.geo.GroupOf(b))] <==> b in a.InUse()
  {
    assert a.Audit(0);
    UsedIsMarked(a.geo, a.bitmaps);
    assert Bit(a.geo, a.bitmaps, b) <==> b in a.InUse();
  }

  /** Clearing one set bit and raising both counters. */
  lemma ReleaseBit(a: Allocator, b: nat)
    requires a.Exact() && b in a.InUse() && a.geo.Valid() && a.geo.InRange(b)
    requires a.geo.GroupOf(b) < |a.bitmaps| == |a.bgFree|
    requires 0 <= b - a.geo.GroupFirst(a.geo.GroupOf(b)) < |a.bitmaps[a.geo.GroupOf(b)]|
    ensures var g := a.geo.GroupOf(b);
            var a' := a.(bitmaps := a.bitmaps[g := a.bitmaps[g][b - a.geo.GroupFirst(g) := false]],
                         bgFree := a.bgFree[g := a.bgFree[g] + 1], sFree := a.sFree + 1);
            Kept(a, a') && a'.InUse() == a.InUse() - {b}
  {
    assert a.Audit(0);
    UsedIsMarked(a.geo, a.bitmaps);
    FlipBit(a.geo, a.bitmaps, a.InUse(), b, false);
    var g := a.geo.GroupOf(b);
    var bitmaps := a.bitmaps[g := a.bitmaps[g][b - a.geo.GroupFirst(g) := false]];
    CountFreed(a.geo, a.bitmaps, a.InUse(), bitmaps, a.bgFree, a.sFree, b);
    MarkedIsUsed(a.geo, bitmaps, a.InUse() - {b});
  }

  /** Scan one group's bitmap for its first clear bit. */
  method FindClear(a: Allocator, group: nat) returns (bit: nat)
    requires a.Exact() && group < |a.bitmaps|
    ensures bit <= a.geo.GroupBlocks(group)
    ensures bit == a.geo.GroupBlocks(group) ==> a.geo.AllIn(group) <= a.InUse()
    ensures bit < a.geo.GroupBlocks(group) ==>
              LowestFree(a.geo, group, a.InUse(), a.geo.GroupFirst(group) + bit)
  {
    assert a.Audit(group);
    GroupFits(a.geo, group);
    var groupBlocks := a.geo.GroupBlocks(group);
    bit := 0;
    while bit < groupBlocks && a.bitmaps[group][bit]
      invariant bit <= groupBlocks
      invariant forall k: nat :: k < bit ==> a.bitmaps[group][k]
    {
      bit := bit + 1;
    }
    UsedIsMarked(a.geo, a.bitmaps);
    ScanStop(a.geo, a.bitmaps, a.InUse(), group, bit);
  }

  /** Set one clear bit and lower both counters. */
  method TakeBit(a: Allocator, group: nat, bit: nat) returns (a': Allocator)
    requires a.Exact() && group < |a.bitmaps| && bit < a.geo.blocksPerGroup
    requires a.geo.GroupFirst(group) + bit < a.geo.blocksCount
    requires a.geo.GroupFirst(group) + bit !in a.InUse()
    ensures Kept(a, a') && a'.InUse() == a.InUse() + {a.geo.GroupFirst(group) + bit}
  {
    ghost var r := a.geo.GroupFirst(group) + bit;
    assert a.Audit(group);
    UsedIsMarked(a.geo, a.bitmaps);
    GroupOfBit(a.geo, group, bit);
    FlipBit(a.geo, a.bitmaps, a.InUse(), r, true);
    var bitmaps := a.bitmaps[group := a.bitmaps[group][bit := true]];
    CountTaken(a.geo, a.bitmaps, a.InUse(), bitmaps, a.bgFree, a.sFree, r);
    MarkedIsUsed(a.geo, bitmaps, a.InUse() + {r});
    a' := a.(bitmaps := bitmaps,
             bgFree := a.bgFree[group := a.bgFree[group] - 1],
             sFree := a.sFree - 1);
  }

  /** The counter of a group tells whether it is full. */
  lemma GroupState(a: Allocator, group: nat)
    requires a.Exact() && group < |a.bitmaps|
    ensures |a.bgFree| == |a.bitmaps| && (a.bgFree[group] == 0 <==> a.geo.AllIn(group) <= a.InUse())
  {
    assert a.Audit(group);
    FullGroup(a.geo, a.bitmaps, a.InUse(), a.bgFree, a.sFree, group);
  }

  /** Take the lowest free block of one group; 0 means the group is full. */
  method TryGroup(a: Allocator, group: nat) returns (a': Allocator, r: nat)
    requires a.Exact() && a.ZeroReserved() && group < |a.bitmaps|
    ensures Kept(a, a') && a'.ZeroReserved()
    ensures r == 0 ==> a' == a && a.geo.AllIn(group) <= a.InUse()
    ensures r != 0 ==> a'.InUse() == a.InUse() + {r} && LowestFree(a.geo, group, a.InUse(), r)
  {
    GroupState(a, group);
    if a.bgFree[group] != 0 {
      var bit := FindClear(a, group);
      if bit < a.geo.GroupBlocks(group) {
        r := a.geo.GroupFirst(group) + bit;
        a' := TakeBit(a, group, bit);
        return;
      }
    }
    return a, 0;
  }

  /** Search the groups round from the inode's own for a free block and mark it; 0 means none. */
  method FindBlock(a: Allocator, ino: nat) returns (a': Allocator, r: nat)
    requires a.Exact() && a.ZeroReserved()
    ensures Kept(a, a') && a'.ZeroReserved()
    ensures r == 0 ==> a' == a && a.InUse() == a.geo.AllOf()
    ensures r != 0 ==> a'.InUse() == a.InUse() + {r} && FirstFit(a.geo, a.Preferred(ino), a.InUse(), r)
  {
    var preferred := a.Preferred(ino);
    Layout(a);
    var pass := 0;
    while pass < a.geo.Groups()
      invariant pass <= a.geo.Groups()
      invariant FullBefore(a.geo, preferred, a.InUse(), pass)
    {
      a.geo.GroupsPositive();
      a', r := TryGroup(a, a.geo.Turn(preferred, pass));
      if r != 0 {
        return;
      }
      pass := pass + 1;
    }
    RoundFull(a.geo, a.InUse(), preferred);
    return a, 0;
  }

  /** The block maps and what the pointer blocks hold. */
  datatype Volume = Volume(alloc: Allocator, disk: Disk)

  /** Allocate a block for an inode and fill it with zeros. */
  method AllocBlock(v: Volume, ino: nat) returns (v': Volume, r: nat)
    requires v.alloc.Exact() && v.alloc.ZeroReserved()
    ensures Kept(v.alloc, v'.alloc) && v'.alloc.ZeroReserved()
    ensures r == 0 ==> v' == v && v.alloc.InUse() == v.alloc.geo.AllOf()
    ensures r != 0 ==>
              && r !in v.alloc.InUse() && v'.alloc.InUse() == v.alloc.InUse() + {r}
              && FirstFit(v.alloc.geo, v.alloc.Preferred(ino), v.alloc.InUse(), r)
              && v'.disk == v.disk[r := ZeroBlock()]
  {
    var a;
    a, r := FindBlock(v.alloc, ino);
    v' := if r == 0 then v else Volume(a, v.disk[r := ZeroBlock()]);
  }

  /** Release every block below a slot. */
  method FreeChain(v: Volume, block: nat, depth: nat) returns (v': Volume)
    requires v.alloc.Exact()
    ensures Kept(v.alloc, v'.alloc) && v'.disk == v.disk
    ensures v'.alloc.InUse() == v.alloc.InUse() - Blocks(Load(v.disk, block, depth))
    decreases depth, 0
  {
    if block == 0 {
      return v;
    }
    if depth == 0 {
      var a := FreeBlock(v.alloc, block);
      return v.(alloc := a);
    }
    v' := FreeEntries(v, WordsAt(v.disk, block), depth - 1);
    var a := FreeBlock(v'.alloc, block);
    v' := v'.(alloc := a);
  }

  method FreeEntries(v: Volume, entries: seq<nat>, depth: nat) returns (v': Volume)
    requires v.alloc.Exact()
    ensures Kept(v.alloc, v'.alloc) && v'.disk == v.disk
    ensures v'.alloc.InUse() == v.alloc.InUse() - AllBlocks(LoadAll(v.disk, entries, depth))
    decreases depth, 1
  {
    ghost var kids := LoadAll(v.disk, entries, depth);
    v' := v;
    var i := 0;
    while i < |entries|
      invariant i <= |entries| && Kept(v.alloc, v'.alloc) && v'.disk == v.disk
      invariant v'.alloc.InUse() == v.alloc.InUse() - AllBlocks(kids[..i])
    {
      AllBlocksStep(kids, i);
      assert kids[i] == Load(v.disk, entries[i], depth);
      if entries[i] != 0 {
        v' := FreeChain(v', entries[i], depth);
      }
      i := i + 1;
    }
    assert kids[..i] == kids;
  }

  /** Count the blocks below a slot. */
  method CountTree(v: Volume, block: nat, depth: nat) returns (total: nat)
    ensures total == Size(Load(v.disk, block, depth))
    decreases depth, 0
  {
    if block == 0 {
      return 0;
    }
    if depth == 0 {
      return 1;
    }
    var below := CountEntries(v, WordsAt(v.disk, block), depth - 1);
    total := 1 + below;
  }

  method CountEntries(v: Volume, entries: seq<nat>, depth: nat) returns (total: nat)
    ensures total == AllSize(LoadAll(v.disk, entries, depth))
    decreases depth, 1
  {
    ghost var kids := LoadAll(v.disk, entries, depth);
    total := 0;
    var i := 0;
    while i < |entries|
      invariant i <= |entries|
      invariant total == AllSize(kids[..i])
    {
      AllBlocksStep(kids, i);
      assert kids[i] == Load(v.disk, entries[i], depth);
      if entries[i] != 0 {
        var n := CountTree(v, entries[i], depth);
        total := total + n;
      }
      i := i + 1;
    }
    assert kids[..i] == kids;
  }

  /**
   Cut the tree below a slot down to its first `keep` logical blocks and return the
   slot's new value.
   */
  method TruncateSlot(v: Volume, slot: nat, depth: nat, keep: nat) returns (v': Volume, slot': nat)
    requires v.alloc.Exact() && Distinct(Load(v.disk, slot, depth))
    ensures Kept(v.alloc, v'.alloc)
    ensures Load(v'.disk, slot', depth) == Trunc(Load(v.disk, slot, depth), depth, keep)
    ensures v'.alloc.InUse() == v.alloc.InUse() - (Blocks(Load(v.disk, slot, depth)) - Blocks(Load(v'.disk, slot', depth)))
    ensures SameOutside(v.disk, v'.disk, Blocks(Load(v.disk, slot, depth)))
    decreases depth, 0
  {
    if slot == 0 {
      return v, 0;
    }
    if keep == 0 {
      v' := FreeChain(v, slot, depth);
      slot' := 0;
      return;
    }
    if depth == 0 {
      return v, slot;
    }
    var allZero;
    v', allZero := TruncateEntries(v, slot, depth - 1, keep);
    if allZero {
      var a := FreeBlock(v'.alloc, slot);
      return v'.(alloc := a), 0;
    }
    slot' := slot;
  }

  /** The trees below the entries of an indirect block. */
  ghost function Entries(disk: Disk, slot: nat, depth: nat): (ts: seq<Tree>)
    ensures |ts| == PTRS
  {
    LoadAll(disk, WordsAt(disk, slot), depth)
  }

  /** Cut the tree below entry `i` of indirect block `slot`, whose word is rewritten. */
  method TruncateEntry(v: Volume, slot: nat, depth: nat, i: nat, keep: nat) returns (v': Volume, child: nat)
    requires v.alloc.Exact() && slot != 0 && i < PTRS
    requires Distinct(Entries(v.disk, slot, depth)[i]) && slot !in Blocks(Entries(v.disk, slot, depth)[i])
    requires ClearOfOthers(Entries(v.disk, slot, depth), i, Blocks(Entries(v.disk, slot, depth)[i]) + {slot})
    ensures Kept(v.alloc, v'.alloc)
    ensures Entries(v'.disk, slot, depth)
            == Entries(v.disk, slot, depth)[i := Trunc(Entries(v.disk, slot, depth)[i], depth, keep)]
    ensures child != 0 <==> !Entries(v'.disk, slot, depth)[i].Hole?
    ensures v'.alloc.InUse()
            == v.alloc.InUse() - (Blocks(Entries(v.disk, slot, depth)[i]) - Blocks(Entries(v'.disk, slot, depth)[i]))
    ensures SameOutside(v.disk, v'.disk, Blocks(Entries(v.disk, slot, depth)[i]) + {slot})
    decreases depth, 1
  {
    ghost var t := Entries(v.disk, slot, depth)[i];
    v', child := TruncateSlot(v, WordsAt(v.disk, slot)[i], depth, keep);
    TruncBlocks(t, depth, keep);
    StoreEntry(v.disk, v'.disk, slot, depth, i, child, Blocks(t));
    v' := v'.(disk := v'.disk[slot := WordsAt(v'.disk, slot)[i := child]]);
  }

  /** Cut each entry of indirect block `slot`; say whether all entries are now holes. */
  method TruncateEntries(v: Volume, slot: nat, depth: nat, keep: nat) returns (v': Volume, allZero: bool)
    requires v.alloc.Exact() && slot != 0 && Distinct(Load(v.disk, slot, depth + 1))
    ensures Kept(v.alloc, v'.alloc)
    ensures Entries(v'.disk, slot, depth) == TruncKids(Entries(v.disk, slot, depth), depth, keep)
    ensures allZero <==> AllHoles(Entries(v'.disk, slot, depth))
    ensures v'.alloc.InUse()
            == v.alloc.InUse() - (AllBlocks(Entries(v.disk, slot, depth)) - AllBlocks(Entries(v'.disk, slot, depth)))
    ensures SameOutside(v.disk, v'.disk, Blocks(Load(v.disk, slot, depth + 1)))
    decreases depth, 2
  {
    var span := Span(depth);
    var remaining := keep;
    allZero := true;
    v' := v;
    ghost var t := Load(v.disk, slot, depth + 1);
    ghost var cut := TruncKids(t.kids, depth, keep);
    TruncKidsBlocks(t.kids, depth, keep);
    var i := 0;
    while i < PTRS
      invariant i <= PTRS && Kept(v.alloc, v'.alloc)
      invariant remaining == Left(keep, span, i)
      invariant allZero <==> HolesUpTo(cut, i)
      invariant Cutting(t, cut, i, Entries(v'.disk, slot, depth), v.alloc.InUse(), v'.alloc.InUse(), v.disk, v'.disk)
    {
      var childKeep := if remaining > span then span else remaining;
      LeftStep(keep, span, i);
      ghost var es, w := Entries(v'.disk, slot, depth), v';
      CuttingNext(t, cut, i, es, v.alloc.InUse(), w.alloc.InUse(), v.disk, w.disk);
      var child;
      v', child := TruncateEntry(v', slot, depth, i, childKeep);
      CuttingStep(t, cut, i, es, v.alloc.InUse(), w.alloc.InUse(), v.disk, w.disk, v'.disk);
      if child != 0 {
        allZero := false;
      }
      remaining := if remaining > childKeep then remaining - childKeep else 0;
      i := i + 1;
    }
    CuttingDone(t, cut, Entries(v'.disk, slot, depth), v.alloc.InUse(), v'.alloc.InUse(), v.disk, v'.disk);
  }
}
