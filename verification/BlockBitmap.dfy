/**
 The block bitmaps of an ext2 volume and the two levels of free counters kept
 beside them, as values: which blocks are used, and what it means for the counters
 to agree with the bits.
 */
module BlockBitmap {
  import opened Arith

  /** The superblock fields that fix the layout. */
  datatype Geometry = Geometry(
    firstData: nat, blocksCount: nat, blocksPerGroup: nat, inodesPerGroup: nat)
  {
    /** What mounting checks. */
    ghost predicate Valid() {
      firstData < blocksCount && blocksPerGroup > 0 && inodesPerGroup > 0
    }

    function Groups(): nat
      requires blocksPerGroup > 0 && firstData < blocksCount
    {
      (blocksCount - firstData + blocksPerGroup - 1) / blocksPerGroup
    }

    /** The group tried on pass `pass` when the search starts at group `start`. */
    function Turn(start: nat, pass: nat): (g: nat)
      requires Valid()
    {
      GroupsPositive();
      (start + pass) % Groups()
    }

    lemma GroupsPositive()
      requires Valid()
      ensures Groups() > 0
    {
      DivBounds(blocksCount - firstData + blocksPerGroup - 1, blocksPerGroup);
    }

    function GroupFirst(g: nat): nat {
      firstData + g * blocksPerGroup
    }

    /** Blocks in group `g`; the last group may be short. */
    function GroupBlocks(g: nat): int {
      var n := blocksCount - GroupFirst(g);
      if n > blocksPerGroup then blocksPerGroup else n
    }

    function GroupOf(b: nat): nat
      requires b >= firstData && blocksPerGroup > 0
    {
      (b - firstData) / blocksPerGroup
    }

    predicate InRange(b: nat) {
      firstData <= b < blocksCount
    }

    ghost function AllOf(): set<nat> {
      Range(firstData, blocksCount)
    }

    ghost function AllIn(g: nat): set<nat> {
      Range(GroupFirst(g), GroupFirst(g) + blocksPerGroup) * AllOf()
    }
  }

  type Bitmaps = seq<seq<bool>>

  ghost predicate Sized(geo: Geometry, bits: Bitmaps) {
    && geo.Valid() && |bits| == geo.Groups()
    && forall g :: 0 <= g < |bits| ==> |bits[g]| == geo.blocksPerGroup
  }

  lemma GroupBounds(geo: Geometry, b: nat)
    requires geo.Valid() && geo.InRange(b)
    ensures geo.GroupOf(b) < geo.Groups()
    ensures geo.GroupFirst(geo.GroupOf(b)) <= b < geo.GroupFirst(geo.GroupOf(b)) + geo.blocksPerGroup
  {
    var n, p := b - geo.firstData, geo.blocksPerGroup;
    var up := geo.blocksCount - geo.firstData + p - 1;
    DivBounds(n, p);
    DivBounds(up, p);
    if up / p <= n / p {
      MulMono(up / p, n / p, p);
    }
  }

  lemma GroupFits(geo: Geometry, g: nat)
    requires geo.Valid() && g < geo.Groups()
    ensures geo.GroupFirst(g) < geo.blocksCount && geo.GroupBlocks(g) > 0
  {
    var p := geo.blocksPerGroup;
    var up := geo.blocksCount - geo.firstData + p - 1;
    DivBounds(up, p);
    MulMono(g + 1, up / p, p);
  }

  lemma GroupOfBit(geo: Geometry, g: nat, bit: nat)
    requires geo.Valid() && bit < geo.blocksPerGroup
    ensures geo.GroupOf(geo.GroupFirst(g) + bit) == g
  {
    DivUnique(g * geo.blocksPerGroup + bit, geo.blocksPerGroup, g, bit);
  }

  /** The bitmap bit of block `b`. */
  ghost predicate Bit(geo: Geometry, bits: Bitmaps, b: nat)
    requires Sized(geo, bits) && geo.InRange(b)
  {
    GroupBounds(geo, b);
    bits[geo.GroupOf(b)][b - geo.GroupFirst(geo.GroupOf(b))]
  }

  /** `inUse` is the set of blocks whose bit is set. */
  ghost predicate Marked(geo: Geometry, bits: Bitmaps, inUse: set<nat>) {
    && Sized(geo, bits) && inUse <= geo.AllOf()
    && forall b {:trigger Bit(geo, bits, b)} :: geo.InRange(b) ==> (Bit(geo, bits, b) <==> b in inUse)
  }

  /** The used blocks numbered below `hi`. */
  ghost function UsedBelow(geo: Geometry, bits: Bitmaps, hi: nat): set<nat>
    requires Sized(geo, bits) && hi <= geo.blocksCount
  {
    if hi <= geo.firstData then {}
    else UsedBelow(geo, bits, hi - 1) + if Bit(geo, bits, hi - 1) then {hi - 1} else {}
  }

  lemma {:induction false} UsedBelowIs(geo: Geometry, bits: Bitmaps, hi: nat)
    requires Sized(geo, bits) && hi <= geo.blocksCount
    ensures forall b: nat :: b in UsedBelow(geo, bits, hi) <==> geo.InRange(b) && b < hi && Bit(geo, bits, b)
  {
    if hi > geo.firstData {
      UsedBelowIs(geo, bits, hi - 1);
    }
  }

  /** The blocks whose bitmap bit is set. */
  ghost function Used(geo: Geometry, bits: Bitmaps): set<nat>
    requires Sized(geo, bits)
  {
    UsedBelow(geo, bits, geo.blocksCount)
  }

  lemma UsedIsMarked(geo: Geometry, bits: Bitmaps)
    requires Sized(geo, bits)
    ensures Marked(geo, bits, Used(geo, bits))
  {
    UsedBelowIs(geo, bits, geo.blocksCount);
  }

  lemma MarkedIsUsed(geo: Geometry, bits: Bitmaps, inUse: set<nat>)
    requires Marked(geo, bits, inUse)
    ensures inUse == Used(geo, bits)
  {
    UsedBelowIs(geo, bits, geo.blocksCount);
    forall b | b in inUse ensures b in Used(geo, bits) {
      assert Bit(geo, bits, b);
    }
    forall b | b in Used(geo, bits) ensures b in inUse {
      assert Bit(geo, bits, b);
    }
  }

  /** Both levels of counters are exact. */
  ghost predicate Counted(geo: Geometry, bits: Bitmaps, inUse: set<nat>, bgFree: seq<nat>, sFree: nat) {
    && Marked(geo, bits, inUse) && |bgFree| == |bits|
    && (forall g :: 0 <= g < |bgFree| ==> bgFree[g] + |inUse * geo.AllIn(g)| == geo.GroupBlocks(g))
    && sFree + |inUse| == geo.blocksCount - geo.firstData
  }

  /** Writing one bit adds or removes exactly one block. */
  lemma FlipBit(geo: Geometry, bits: Bitmaps, inUse: set<nat>, b: nat, v: bool)
    requires Marked(geo, bits, inUse) && geo.InRange(b)
    requires geo.GroupOf(b) < |bits|
    requires 0 <= b - geo.GroupFirst(geo.GroupOf(b)) < geo.blocksPerGroup
    ensures var g := geo.GroupOf(b);
            Marked(geo, bits[g := bits[g][b - geo.GroupFirst(g) := v]], if v then inUse + {b} else inUse - {b})
  {
    var g := geo.GroupOf(b);
    var bits' := bits[g := bits[g][b - geo.GroupFirst(g) := v]];
    forall c: nat | geo.InRange(c)
      ensures Bit(geo, bits', c) == if c == b then v else Bit(geo, bits, c)
    {
      GroupBounds(geo, c);
    }
  }

  lemma InGroup(geo: Geometry, b: nat, g: nat)
    requires geo.Valid() && geo.InRange(b)
    ensures b in geo.AllIn(g) <==> geo.GroupOf(b) == g
  {
    GroupBounds(geo, b);
    if b in geo.AllIn(g) {
      GroupOfBit(geo, g, b - geo.GroupFirst(g));
    }
  }

  /** The counters stay exact when one block is released. */
  lemma CountFreed(geo: Geometry, bits: Bitmaps, inUse: set<nat>, bits': Bitmaps, bgFree: seq<nat>, sFree: nat, b: nat)
    requires Counted(geo, bits, inUse, bgFree, sFree) && b in inUse
    requires Marked(geo, bits', inUse - {b})
    ensures geo.GroupOf(b) < |bgFree|
    ensures var g := geo.GroupOf(b);
            Counted(geo, bits', inUse - {b}, bgFree[g := bgFree[g] + 1], sFree + 1)
  {
    GroupBounds(geo, b);
    var g := geo.GroupOf(b);
    forall h | 0 <= h < |bgFree|
      ensures (inUse - {b}) * geo.AllIn(h) == if h == g then inUse * geo.AllIn(h) - {b} else inUse * geo.AllIn(h)
      ensures h == g ==> b in inUse * geo.AllIn(h)
    {
      InGroup(geo, b, h);
    }
  }

  lemma RoomFor(geo: Geometry, inUse: set<nat>, g: nat)
    requires geo.Valid() && inUse <= geo.AllOf() && g < geo.Groups()
    ensures |inUse * geo.AllIn(g)| <= geo.GroupBlocks(g)
    ensures |inUse| <= geo.blocksCount - geo.firstData
  {
    GroupCardinality(geo, g);
    SubsetCardinality(inUse * geo.AllIn(g), geo.AllIn(g));
    SubsetCardinality(inUse, geo.AllOf());
    RangeCardinality(geo.firstData, geo.blocksCount);
  }

  /** The counters stay exact, and do not go below zero, when one block is taken. */
  lemma CountTaken(geo: Geometry, bits: Bitmaps, inUse: set<nat>, bits': Bitmaps, bgFree: seq<nat>, sFree: nat, b: nat)
    requires Counted(geo, bits, inUse, bgFree, sFree) && geo.InRange(b) && b !in inUse
    requires Marked(geo, bits', inUse + {b})
    ensures geo.GroupOf(b) < |bgFree| && bgFree[geo.GroupOf(b)] > 0 && sFree > 0
    ensures var g := geo.GroupOf(b);
            Counted(geo, bits', inUse + {b}, bgFree[g := bgFree[g] - 1], sFree - 1)
  {
    GroupBounds(geo, b);
    var g := geo.GroupOf(b);
    forall h | 0 <= h < |bgFree|
      ensures (inUse + {b}) * geo.AllIn(h) == if h == g then inUse * geo.AllIn(h) + {b} else inUse * geo.AllIn(h)
    {
      InGroup(geo, b, h);
    }
    RoomFor(geo, inUse + {b}, g);
  }

  lemma GroupCardinality(geo: Geometry, g: nat)
    requires geo.Valid() && g < geo.Groups()
    ensures |geo.AllIn(g)| == geo.GroupBlocks(g)
  {
    GroupFits(geo, g);
    MulMono(0, g, geo.blocksPerGroup);
    RangeMeet(geo.GroupFirst(g), geo.GroupFirst(g) + geo.blocksPerGroup, geo.firstData, geo.blocksCount);
  }

  /** A zero group counter means the group is full. */
  lemma FullGroup(geo: Geometry, bits: Bitmaps, inUse: set<nat>, bgFree: seq<nat>, sFree: nat, g: nat)
    requires Counted(geo, bits, inUse, bgFree, sFree) && g < |bgFree|
    ensures bgFree[g] == 0 <==> geo.AllIn(g) <= inUse
  {
    GroupCardinality(geo, g);
    SubsetCardinality(inUse * geo.AllIn(g), geo.AllIn(g));
    if geo.AllIn(g) <= inUse {
      assert inUse * geo.AllIn(g) == geo.AllIn(g);
    }
  }

  /** `r` is the lowest free block of group `g`. */
  ghost predicate LowestFree(geo: Geometry, g: nat, inUse: set<nat>, r: nat) {
    && r in geo.AllIn(g) && r !in inUse
    && forall b :: b in geo.AllIn(g) && b < r ==> b in inUse
  }

  /** `r` is the lowest free block of the first group, round from `start`, that has one. */
  ghost predicate FirstFit(geo: Geometry, start: nat, inUse: set<nat>, r: nat) {
    geo.Valid() && exists pass: nat ::
      && pass < geo.Groups()
      && LowestFree(geo, geo.Turn(start, pass), inUse, r)
      && FullBefore(geo, start, inUse, pass)
  }

  ghost predicate FullBefore(geo: Geometry, start: nat, inUse: set<nat>, pass: nat)
    requires geo.Valid()
  {
    forall p: nat :: p < pass ==> geo.AllIn(geo.Turn(start, p)) <= inUse
  }

  /** A run of set bits is a run of used blocks. */
  lemma BitsAreBlocks(geo: Geometry, bits: Bitmaps, inUse: set<nat>, g: nat, n: nat, b: nat)
    requires Marked(geo, bits, inUse) && g < |bits| && n <= geo.blocksPerGroup
    requires forall k: nat :: k < n ==> bits[g][k]
    requires b in geo.AllIn(g) && b < geo.GroupFirst(g) + n
    ensures b in inUse
  {
    InGroup(geo, b, g);
    assert Bit(geo, bits, b);
  }

  /** Where a scan of a group's bits stops is its lowest free block, or the group is full. */
  lemma ScanStop(geo: Geometry, bits: Bitmaps, inUse: set<nat>, g: nat, bit: nat)
    requires Marked(geo, bits, inUse) && g < |bits| && bit <= geo.GroupBlocks(g)
    requires forall k: nat :: k < bit ==> bits[g][k]
    requires bit < geo.GroupBlocks(g) ==> !bits[g][bit]
    ensures bit == geo.GroupBlocks(g) ==> geo.AllIn(g) <= inUse
    ensures bit < geo.GroupBlocks(g) ==> LowestFree(geo, g, inUse, geo.GroupFirst(g) + bit)
  {
    forall b | b in geo.AllIn(g) && b < geo.GroupFirst(g) + bit ensures b in inUse {
      BitsAreBlocks(geo, bits, inUse, g, bit, b);
    }
    if bit < geo.GroupBlocks(g) {
      var r := geo.GroupFirst(g) + bit;
      GroupOfBit(geo, g, bit);
      MulMono(0, g, geo.blocksPerGroup);
      InGroup(geo, r, g);
      assert !Bit(geo, bits, r);
    }
  }

  /** Starting anywhere and going once round visits every group, so all groups full is all blocks used. */
  lemma RoundVisits(geo: Geometry, start: nat, g: nat) returns (p: nat)
    requires geo.Valid() && g < geo.Groups()
    ensures p < geo.Groups() && geo.Turn(start, p) == g
  {
    var groups := geo.Groups();
    DivBounds(start, groups);
    var q, s := start / groups, start % groups;
    if s <= g {
      p := g - s;
      DivUnique(start + p, groups, q, g);
    } else {
      p := g + groups - s;
      DivUnique(start + p, groups, q + 1, g);
    }
  }

  lemma RoundFull(geo: Geometry, inUse: set<nat>, start: nat)
    requires geo.Valid() && inUse <= geo.AllOf()
    requires FullBefore(geo, start, inUse, geo.Groups())
    ensures inUse == geo.AllOf()
  {
    forall b | b in geo.AllOf() ensures b in inUse {
      GroupBounds(geo, b);
      var g := geo.GroupOf(b);
      InGroup(geo, b, g);
      var p := RoundVisits(geo, start, g);
      assert geo.AllIn(geo.Turn(start, p)) <= inUse;
    }
  }
}
