/** The contents of files as the block maps and the map of last writes give them. */
module FileView {
  import opened Wrappers
  import opened Pages

  /** Block `index` of a file; a hole reads as zeros. */
  function Contents(last: Disk, maps: BlockMaps, m: Mapping, index: nat): Data {
    match Resolve(maps, m, index)
    case None => ZeroData()
    case Some(b) => Held(last, Key(m.dev, b))
  }

  /** `d` with `bytes` written at `off`. */
  function Patch(d: Data, off: nat, bytes: seq<Byte>): (r: Data)
    requires off + |bytes| <= BLOCK_SIZE
  {
    d[..off] + bytes + d[off + |bytes|..]
  }

  function ZeroFrom(d: Data, off: nat): (r: Data)
    requires off <= BLOCK_SIZE
  {
    d[..off] + Zeros(BLOCK_SIZE - off)
  }

  lemma ZeroTwice(d: Data, off: nat)
    requires off <= BLOCK_SIZE
    ensures ZeroFrom(ZeroFrom(d, off), off) == ZeroFrom(d, off)
  {
    assert ZeroFrom(d, off)[..off] == d[..off];
  }

  /** No block belongs to two file indices. */
  ghost predicate Injective(maps: BlockMaps) {
    forall a: Mapping, i: nat, b: Mapping, j: nat {:trigger Resolve(maps, a, i), Resolve(maps, b, j)} ::
      SameBlock(maps, a, i, b, j) ==> a == b && i == j
  }

  predicate SameBlock(maps: BlockMaps, a: Mapping, i: nat, b: Mapping, j: nat) {
    && a.File? && b.File? && a.dev == b.dev && Resolve(maps, a, i).Some?
    && Resolve(maps, a, i) == Resolve(maps, b, j)
  }

  ghost predicate Unused(maps: BlockMaps, dev: nat, b: nat) {
    forall m: Mapping, i: nat {:trigger Resolve(maps, m, i)} :: m.File? && m.dev == dev ==> Resolve(maps, m, i) != Some(b)
  }

  lemma FillResolve(maps: BlockMaps, m: Mapping, index: nat, b: nat, m': Mapping, i: nat)
    requires m.File?
    ensures Resolve(Filled(maps, m, index, b), m', i) ==
            if m' == m && i == index then Some(b) else Resolve(maps, m', i)
  {
  }

  lemma CutResolve(maps: BlockMaps, m: Mapping, keep: nat, m': Mapping, i: nat)
    requires m.File?
    ensures Resolve(Cut(maps, m, keep), m', i) == if m' == m && i >= keep then None else Resolve(maps, m', i)
  {
  }

  lemma FillInjective(maps: BlockMaps, m: Mapping, index: nat, b: nat)
    requires Injective(maps) && m.File? && Unused(maps, m.dev, b)
    ensures Injective(Filled(maps, m, index, b))
  {
    var maps' := Filled(maps, m, index, b);
    forall x: Mapping, i: nat, y: Mapping, j: nat | SameBlock(maps', x, i, y, j)
      ensures x == y && i == j
    {
      FillResolve(maps, m, index, b, x, i);
      FillResolve(maps, m, index, b, y, j);
      assert Resolve(maps, x, i) == Resolve(maps, x, i) && Resolve(maps, y, j) == Resolve(maps, y, j);
    }
  }

  lemma CutInjective(maps: BlockMaps, m: Mapping, keep: nat)
    requires Injective(maps) && m.File?
    ensures Injective(Cut(maps, m, keep))
  {
    var maps' := Cut(maps, m, keep);
    forall x: Mapping, i: nat, y: Mapping, j: nat | SameBlock(maps', x, i, y, j)
      ensures x == y && i == j
    {
      CutResolve(maps, m, keep, x, i);
      CutResolve(maps, m, keep, y, j);
      assert Resolve(maps, x, i) == Resolve(maps, y, j);
    }
  }

  /** Filling a hole with a zeroed, unused block changes no file's contents. */
  lemma FillShowsSame(last: Disk, maps: BlockMaps, m: Mapping, index: nat, b: nat, m': Mapping, i: nat)
    requires m.File? && m'.File? && Resolve(maps, m, index) == None && Unused(maps, m.dev, b)
    ensures Contents(last[Key(m.dev, b) := ZeroData()], Filled(maps, m, index, b), m', i)
         == Contents(last, maps, m', i)
  {
    FillResolve(maps, m, index, b, m', i);
    assert m'.dev == m.dev ==> Resolve(maps, m', i) != Some(b);
  }

  /** Writing the block of one index changes that index and no other. */
  lemma WriteShowsOne(last: Disk, maps: BlockMaps, m: Mapping, index: nat, d: Data, m': Mapping, i: nat)
    requires Injective(maps) && m.File? && m'.File? && Resolve(maps, m, index).Some?
    ensures Contents(last[Key(m.dev, Resolve(maps, m, index).value) := d], maps, m', i)
         == if m' == m && i == index then d else Contents(last, maps, m', i)
  {
    if m'.dev == m.dev && Resolve(maps, m', i) == Resolve(maps, m, index) {
      assert m' == m && i == index;
    }
  }

  // ---- Truncation ----

  /** A file index that a truncation of `m` to `keep` blocks leaves. */
  predicate Survives(m: Mapping, keep: nat, m': Mapping, i: nat) {
    m'.File? && !(m' == m && i >= keep)
  }

  /** Surviving indices are as before, but for zeros behind `off` in the last block kept. */
  ghost predicate Trimmed(last: Disk, last': Disk, maps: BlockMaps, m: Mapping, keep: nat, tail: nat, off: nat)
    requires off <= BLOCK_SIZE
  {
    forall m': Mapping, i: nat {:trigger Contents(last', maps, m', i)} :: Survives(m, keep, m', i) ==>
      || Contents(last', maps, m', i) == Contents(last, maps, m', i)
      || (m' == m && i == tail && Contents(last', maps, m', i) == ZeroFrom(Contents(last, maps, m', i), off))
  }

  /** A block behind the new end may come to hold anything. */
  lemma TrimDrop(last: Disk, last': Disk, maps: BlockMaps, m: Mapping, keep: nat, tail: nat, off: nat, i: nat, d: Data)
    requires off <= BLOCK_SIZE && Trimmed(last, last', maps, m, keep, tail, off)
    requires Injective(maps) && m.File? && i >= keep && Resolve(maps, m, i).Some?
    ensures Trimmed(last, last'[Key(m.dev, Resolve(maps, m, i).value) := d], maps, m, keep, tail, off)
  {
    var after := last'[Key(m.dev, Resolve(maps, m, i).value) := d];
    forall m': Mapping, j: nat | Survives(m, keep, m', j)
      ensures Contents(after, maps, m', j) == Contents(last', maps, m', j)
    {
      WriteShowsOne(last', maps, m, i, d, m', j);
    }
  }

  /** Zeroing the tail of the last block kept, even twice. */
  lemma TrimZero(last: Disk, last': Disk, maps: BlockMaps, m: Mapping, keep: nat, tail: nat, off: nat)
    requires off <= BLOCK_SIZE && tail < keep && Trimmed(last, last', maps, m, keep, tail, off)
    requires Injective(maps) && m.File? && Resolve(maps, m, tail).Some?
    ensures var k := Key(m.dev, Resolve(maps, m, tail).value);
            var after := last'[k := ZeroFrom(Held(last', k), off)];
            && Trimmed(last, after, maps, m, keep, tail, off)
            && Contents(after, maps, m, tail) == ZeroFrom(Contents(last, maps, m, tail), off)
  {
    var k := Key(m.dev, Resolve(maps, m, tail).value);
    var d := ZeroFrom(Held(last', k), off);
    assert Contents(last', maps, m, tail) == Held(last', k);
    ZeroTwice(Contents(last, maps, m, tail), off);
    forall m': Mapping, j: nat | Survives(m, keep, m', j)
      ensures Contents(last'[k := d], maps, m', j) == if m' == m && j == tail then d else Contents(last', maps, m', j)
    {
      WriteShowsOne(last', maps, m, tail, d, m', j);
    }
  }
}
