/**
 `ext2_read_file` and `ext2_write_file`: byte ranges of a file, block by block through the
 page cache.
 */
module FileIo {
  import opened Arith
  import opened Seqs
  import opened Wrappers
  import opened Pages
  import opened FileView
  import opened CacheState
  import opened PageCache

  /** The byte of a file at position `p`. */
  ghost function ByteAt(last: Disk, maps: BlockMaps, m: Mapping, p: nat): Byte {
    Contents(last, maps, m, p / 4096)[p % 4096]
  }

  /** `out` are the bytes of the file from `pos` on. */
  ghost predicate Bytes(out: seq<Byte>, last: Disk, maps: BlockMaps, m: Mapping, pos: nat) {
    forall j: nat {:trigger out[j]} :: j < |out| ==> out[j] == ByteAt(last, maps, m, pos + j)
  }

  const MAX_FILE_SIZE: nat := 0xFFFF_FFFF

  /** How much of a request lies inside the file. */
  function Readable(size: nat, pos: nat, count: nat): nat {
    if pos >= Min(size, MAX_FILE_SIZE) then 0 else Min(count, Min(size, MAX_FILE_SIZE) - pos)
  }

  lemma WithinBlock(b: nat, o: nat, j: nat)
    requires o + j < 4096
    ensures (b * 4096 + o + j) / 4096 == b && (b * 4096 + o + j) % 4096 == o + j
  {
  }

  /** `n` bytes of a block from `o` on. */
  function Piece(d: Data, o: nat, n: nat): (r: seq<Byte>)
    requires o + n <= BLOCK_SIZE
    ensures |r| == n
  {
    d[o..o + n]
  }

  /** A piece of one block appended to what was read. */
  lemma ReadMore(out: seq<Byte>, last: Disk, maps: BlockMaps, m: Mapping, pos: nat, b: nat, o: nat, n: nat)
    requires Bytes(out, last, maps, m, pos) && pos + |out| == b * 4096 + o && o + n <= 4096
    ensures Bytes(out + Piece(Contents(last, maps, m, b), o, n), last, maps, m, pos)
  {
    var d := Contents(last, maps, m, b);
    var more := out + Piece(d, o, n);
    forall j: nat | j < |more| ensures more[j] == ByteAt(last, maps, m, pos + j) {
      if j >= |out| {
        WithinBlock(b, o, j - |out|);
      }
    }
  }

  /** The index has a block for which no page can be had as long as these references are out. */
  ghost predicate CrowdedAt(held: Refs, maps: BlockMaps, m: Mapping, i: nat) {
    Resolve(maps, m, i).Some? && Crowded(held, Key(m.dev, Resolve(maps, m, i).value))
  }

  /** The blocks behind indices `from` to `to` are cached, or a page for them can be made. */
  ghost predicate Available(held: Refs, maps: BlockMaps, m: Mapping, from: nat, to: nat) {
    forall i: nat {:trigger CrowdedAt(held, maps, m, i)} :: from <= i < to ==> !CrowdedAt(held, maps, m, i)
  }

  /** The index behind the last one that `n` bytes at `pos` touch. */
  function End(pos: nat, n: nat): nat {
    if n == 0 then pos / 4096 else (pos + n - 1) / 4096 + 1
  }

  /** Up to where a write that got through `done` bytes has gone; one that gave up tried one index more. */
  function Reached(pos: nat, done: nat, complete: bool): nat {
    if complete || pos >= MAX_FILE_SIZE then End(pos, done) else End(pos, done) + 1
  }

  /** A piece that starts at `pos` or at a block boundary and fills its block or is the last. */
  lemma EndStep(pos: nat, n: nat, chunk: nat)
    requires n == 0 || (pos + n) % 4096 == 0
    requires 0 < chunk <= 4096 - (pos + n) % 4096
    ensures End(pos, n) == (pos + n) / 4096 && End(pos, n + chunk) == End(pos, n) + 1
    ensures chunk == 4096 - (pos + n) % 4096 ==> (pos + n + chunk) % 4096 == 0
  {
  }

  lemma EndWithin(pos: nat, n: nat, count: nat)
    requires n <= count
    ensures End(pos, n) <= End(pos, count) && (n < count && (n == 0 || (pos + n) % 4096 == 0) ==> End(pos, n) < End(pos, count))
  {
  }

  /** The next piece of a request: to the end of the block, or of the request. */
  function Chunk(pos: nat, n: nat, count: nat): nat
    requires n <= count
  {
    Min(4096 - (pos + n) % 4096, count - n)
  }

  /** Nothing is done, or all, or everything up to the end of a block. */
  predicate AtBoundary(pos: nat, n: nat, count: nat) {
    n == 0 || n == count || (pos + n) % 4096 == 0
  }

  predicate OpenPlace(pos: nat, n: nat, b: nat, w: int) {
    true
  }

  /** The loop over a request has done `n` bytes and comes to index `b`; closed like `Sound`. */
  ghost predicate Place(pos: nat, n: nat, count: nat, b: nat) {
    forall w {:trigger OpenPlace(pos, n, b, w)} :: OpenPlace(pos, n, b, w) ==>
      n <= count && AtBoundary(pos, n, count) && b == End(pos, n)
  }

  /** `o` is where in block `b` the next byte goes, and `chunk` bytes fit; closed like `Sound`. */
  ghost predicate Spot(pos: nat, n: nat, b: nat, o: nat, chunk: nat) {
    forall w {:trigger OpenPlace(pos, n, b, w)} :: OpenPlace(pos, n, b, w) ==>
      && b == (pos + n) / 4096 && o == (pos + n) % 4096 && o + chunk <= 4096
      && (n == 0 || o == 0) && pos / 4096 <= b
  }

  lemma PlaceStart(pos: nat, count: nat)
    ensures Place(pos, 0, count, pos / 4096)
  {
  }

  lemma PlaceStep(pos: nat, n: nat, count: nat, b: nat)
    requires Place(pos, n, count, b) && n < count
    ensures var chunk := Chunk(pos, n, count);
            && 0 < chunk && n + chunk <= count && b == (pos + n) / 4096
            && (pos + n) % 4096 + chunk <= 4096 && Spot(pos, n, b, (pos + n) % 4096, chunk)
            && Place(pos, n + chunk, count, b + 1) && pos / 4096 <= b < End(pos, count)
  {
    assert OpenPlace(pos, n, b, 0);
    EndStep(pos, n, Chunk(pos, n, count));
    EndWithin(pos, n, count);
  }

  /** The index, the offset in its block and the length of the next piece. */
  method Locate(pos: nat, n: nat, count: nat, ghost b: nat) returns (i: nat, o: nat, chunk: nat)
    requires Place(pos, n, count, b) && n < count
    ensures i == b && 0 < chunk && n + chunk <= count && o + chunk <= 4096
    ensures Spot(pos, n, b, o, chunk) && Place(pos, n + chunk, count, b + 1) && pos / 4096 <= b < End(pos, count)
  {
    PlaceStep(pos, n, count, b);
    i, o, chunk := (pos + n) / 4096, (pos + n) % 4096, Chunk(pos, n, count);
  }

  lemma PlaceIs(pos: nat, n: nat, count: nat, b: nat)
    requires Place(pos, n, count, b)
    ensures n <= count && b == End(pos, n) && AtBoundary(pos, n, count)
  {
    assert OpenPlace(pos, n, b, 0);
  }

  predicate OpenRead(out: seq<Byte>, w: int) {
    true
  }

  /** `out` are the first bytes of a request, all from blocks that can be had; closed like `Sound`. */
  ghost predicate ReadSoFar(held: Refs, last: Disk, maps: BlockMaps, m: Mapping, pos: nat, out: seq<Byte>, b: nat) {
    forall w {:trigger OpenRead(out, w)} :: OpenRead(out, w) ==>
      Bytes(out, last, maps, m, pos) && Available(held, maps, m, pos / 4096, b)
  }

  lemma ReadOn(held: Refs, last: Disk, maps: BlockMaps, m: Mapping, pos: nat, out: seq<Byte>, b: nat,
               o: nat, n: nat)
    requires ReadSoFar(held, last, maps, m, pos, out, b) && Spot(pos, |out|, b, o, n) && o + n <= BLOCK_SIZE
    requires !CrowdedAt(held, maps, m, b)
    ensures ReadSoFar(held, last, maps, m, pos, out + Piece(Contents(last, maps, m, b), o, n), b + 1)
  {
    assert OpenRead(out, 0) && OpenPlace(pos, |out|, b, 0);
    ReadMore(out, last, maps, m, pos, b, o, n);
  }

  lemma ReadStuck(held: Refs, maps: BlockMaps, m: Mapping, from: nat, b: nat, to: nat)
    requires from <= b < to && CrowdedAt(held, maps, m, b)
    ensures !Available(held, maps, m, from, to)
  {
  }

  /**
   `ext2_read_file`, for a file of `size` bytes.  If memory is not refused it delivers all
   that was asked for exactly when no block of the range is one that no page can be had for,
   and otherwise everything up to the first such block.
   */
  method ReadFile(c: Cache, m: Mapping, size: nat, pos: nat, count: nat) returns (out: seq<Byte>, complete: bool)
    requires c.Valid() && Settled(c.View())
    modifies c
    ensures c.Valid() && Settled(c.View()) && c.last == old(c.last) && c.maps == old(c.maps)
    ensures c.held == old(c.held) && c.asked >= old(c.asked)
    ensures Bytes(out, c.last, c.maps, m, pos)
    ensures |out| <= Readable(size, pos, count) && (complete ==> |out| == Readable(size, pos, count))
    ensures !complete ==> c.Refused(old(c.asked)) || AllHeld(c.held)
    ensures !c.Refused(old(c.asked)) ==>
              (complete <==> Available(c.held, c.maps, m, pos / 4096, End(pos, Readable(size, pos, count))))
    ensures AtBoundary(pos, |out|, Readable(size, pos, count))
    ensures !complete && !c.Refused(old(c.asked)) ==>
              Available(c.held, c.maps, m, pos / 4096, End(pos, |out|)) && CrowdedAt(c.held, c.maps, m, End(pos, |out|))
  {
    out, complete := [], true;
    var want := Readable(size, pos, count);
    ghost var b: nat := pos / 4096;
    PlaceStart(pos, want);
    while |out| < want
      invariant c.Valid() && Settled(c.View()) && c.last == old(c.last) && c.maps == old(c.maps)
      invariant c.held == old(c.held) && c.asked >= old(c.asked)
      invariant |out| <= want && Place(pos, |out|, want, b) && ReadSoFar(c.held, c.last, c.maps, m, pos, out, b)
    {
      var more := ReadChunk(c, m, pos, out, want, b, old(c.asked));
      if more.None? {
        PlaceIs(pos, |out|, want, b);
        assert OpenRead(out, 0);
        return out, false;
      }
      out, b := out + more.value, b + 1;
    }
    PlaceIs(pos, |out|, want, b);
    assert OpenRead(out, 0);
  }

  /** One round of the read loop. */
  method ReadChunk(c: Cache, m: Mapping, pos: nat, out: seq<Byte>, want: nat, ghost b: nat, ghost from: nat)
    returns (more: Option<seq<Byte>>)
    requires c.Valid() && Settled(c.View()) && |out| < want && from <= c.asked
    requires Place(pos, |out|, want, b) && ReadSoFar(c.held, c.last, c.maps, m, pos, out, b)
    modifies c
    ensures c.Valid() && Settled(c.View()) && c.last == old(c.last) && c.maps == old(c.maps)
    ensures c.held == old(c.held) && c.asked >= old(c.asked)
    ensures more.Some? ==>
              && 0 < |more.value| && |out| + |more.value| <= want && Place(pos, |out| + |more.value|, want, b + 1)
              && ReadSoFar(c.held, c.last, c.maps, m, pos, out + more.value, b + 1)
    ensures more.None? ==>
              || c.Refused(from)
              || (AllHeld(c.held) && CrowdedAt(c.held, c.maps, m, b)
                  && !Available(c.held, c.maps, m, pos / 4096, End(pos, want)))
  {
    var i, o, chunk := Locate(pos, |out|, want, b);
    var d := c.ReadIndex(m, i);
    if d.None? {
      WiderRefusal(c.supply, from, old(c.asked), c.asked);
      if !c.Refused(from) {
        ReadStuck(c.held, c.maps, m, pos / 4096, b, End(pos, want));
      }
      return None;
    }
    ReadOn(c.held, c.last, c.maps, m, pos, out, b, o, chunk);
    return Some(Piece(d.value, o, chunk));
  }

  lemma WiderRefusal(supply: nat -> bool, from: nat, from': nat, to: nat)
    requires from <= from'
    ensures RefusedIn(supply, from', to) ==> RefusedIn(supply, from, to)
  {
  }

  // ---- Writing ----

  /**
   What reading finds after the first `n` bytes of `buf` were written at `pos` of file `m`:
   those bytes, and everything else as before; but a hole of the file in `stale` was filled
   with a block that still holds what was last written to it.
   */
  ghost function Expected(last: Disk, maps: BlockMaps, maps': BlockMaps, m: Mapping, pos: nat, buf: seq<Byte>, n: nat,
                          stale: set<nat>, m': Mapping, p: nat): Byte
    requires n <= |buf|
  {
    if m' == m && pos <= p < pos + n then buf[p - pos]
    else if m' == m && p / 4096 in stale then ByteAt(last, maps', m, p)
    else ByteAt(last, maps, m', p)
  }

  ghost predicate WrittenSoFar(last: Disk, maps: BlockMaps, last': Disk, maps': BlockMaps,
                               m: Mapping, pos: nat, buf: seq<Byte>, n: nat, stale: set<nat>) {
    && n <= |buf|
    && forall m': Mapping, p: nat {:trigger ByteAt(last', maps', m', p)} :: m'.File? ==>
         ByteAt(last', maps', m', p) == Expected(last, maps, maps', m, pos, buf, n, stale, m', p)
  }

  lemma PatchAt(d: Data, off: nat, bytes: seq<Byte>, i: nat)
    requires off + |bytes| <= BLOCK_SIZE && i < BLOCK_SIZE
    ensures Patch(d, off, bytes)[i] == if off <= i < off + |bytes| then bytes[i - off] else d[i]
  {
  }

  /** Within one block, offsets compare as positions do. */
  lemma SamePlace(b: nat, o: nat, p: nat, q: nat)
    requires q / 4096 == b && q % 4096 == o && p / 4096 == b
    ensures p - q == p % 4096 - o
  {
  }

  lemma OtherBlock(p: nat, q: nat, n: nat)
    requires q % 4096 + n <= 4096
    ensures p / 4096 != q / 4096 ==> !(q <= p < q + n)
  {
  }

  // ---- Holes and the blocks that fill them ----

  /** How many of the indices from `from` to `to` are holes. */
  ghost function Holes(maps: BlockMaps, m: Mapping, from: nat, to: nat): (r: nat) {
    if to <= from then 0 else Holes(maps, m, from, to - 1) + if Resolve(maps, m, to - 1).None? then 1 else 0
  }

  /** The holes from `from` to `to` filled in order with `blocks`, as far as these go. */
  ghost function FillHoles(maps: BlockMaps, m: Mapping, from: nat, to: nat, blocks: seq<nat>): BlockMaps {
    if to <= from then maps
    else
      var before, n := FillHoles(maps, m, from, to - 1, blocks), Holes(maps, m, from, to - 1);
      if Resolve(maps, m, to - 1).None? && n < |blocks| then Filled(before, m, to - 1, blocks[n]) else before
  }

  lemma {:induction false} HolesGrow(maps: BlockMaps, m: Mapping, from: nat, mid: nat, to: nat)
    requires mid <= to
    ensures Holes(maps, m, from, mid) <= Holes(maps, m, from, to)
    decreases (to - from)
  {
    if mid < to && from < to {
      HolesGrow(maps, m, from, mid, to - 1);
    }
  }

  /** Which block each index has once holes were filled. */
  lemma {:induction false} FillHolesResolve(maps: BlockMaps, m: Mapping, from: nat, to: nat, blocks: seq<nat>,
                                            m': Mapping, i: nat)
    requires m.File?
    ensures Resolve(FillHoles(maps, m, from, to, blocks), m', i) ==
            if m' == m && from <= i < to && Resolve(maps, m, i).None? && Holes(maps, m, from, i) < |blocks|
            then Some(blocks[Holes(maps, m, from, i)]) else Resolve(maps, m', i)
    decreases (to - from)
  {
    if from < to {
      FillHolesResolve(maps, m, from, to - 1, blocks, m', i);
      var n := Holes(maps, m, from, to - 1);
      if n < |blocks| {
        FillResolve(FillHoles(maps, m, from, to - 1, blocks), m, to - 1, blocks[n], m', i);
      }
    }
  }

  /** Blocks no file has, which the allocator will hand out in this order. */
  ghost predicate Spares(maps: BlockMaps, dev: nat, blocks: seq<nat>) {
    NoRepeats(blocks) && forall i :: 0 <= i < |blocks| ==> Unused(maps, dev, blocks[i])
  }

  /** The blocks not handed out yet are still unused. */
  lemma SparesLeft(maps: BlockMaps, m: Mapping, from: nat, to: nat, blocks: seq<nat>, j: nat)
    requires m.File? && Spares(maps, m.dev, blocks) && Holes(maps, m, from, to) <= j < |blocks|
    ensures Unused(FillHoles(maps, m, from, to, blocks), m.dev, blocks[j])
  {
    forall m': Mapping, i: nat | m'.File? && m'.dev == m.dev
      ensures Resolve(FillHoles(maps, m, from, to, blocks), m', i) != Some(blocks[j])
    {
      FillHolesResolve(maps, m, from, to, blocks, m', i);
      assert Unused(maps, m.dev, blocks[j]);
      if m' == m && from <= i < to && Resolve(maps, m, i).None? {
        HolesGrow(maps, m, from, i + 1, to);
      }
    }
  }

  /** Blocks not handed out yet hold what they held. */
  ghost predicate Untouched(last: Disk, last': Disk, dev: nat, blocks: seq<nat>, n: nat) {
    forall j {:trigger blocks[j]} :: n <= j < |blocks| ==> Held(last', Key(dev, blocks[j])) == Held(last, Key(dev, blocks[j]))
  }

  // ---- The write loop ----

  datatype Job = Job(m: Mapping, pos: nat, buf: seq<Byte>, blocks: seq<nat>) {
    /** How many of the blocks the indices before `b` have used. */
    ghost function Used(maps: BlockMaps, b: nat): nat {
      Holes(maps, m, pos / 4096, b)
    }

    /** The map with the holes before `b` filled. */
    ghost function Filled(maps: BlockMaps, b: nat): BlockMaps {
      FillHoles(maps, m, pos / 4096, b, blocks)
    }

    /** The block for the next hole. */
    ghost function Spare(maps: BlockMaps, b: nat): Option<nat> {
      if Used(maps, b) < |blocks| then Some(blocks[Used(maps, b)]) else None
    }
  }

  /** Index `i` was a hole and has a block now. */
  ghost predicate Filling(maps: BlockMaps, maps': BlockMaps, m: Mapping, i: nat) {
    Resolve(maps, m, i).None? && Resolve(maps', m, i).Some?
  }

  /** `n` bytes are written and the indices before `b` are done; `last` and `maps` were there at first. */
  ghost predicate Progress(last: Disk, maps: BlockMaps, last': Disk, maps': BlockMaps,
                           job: Job, n: nat, b: nat, stale: set<nat>) {
    && maps' == FillHoles(maps, job.m, job.pos / 4096, b, job.blocks)
    && WrittenSoFar(last, maps, last', maps', job.m, job.pos, job.buf, n, stale)
    && (forall i :: i in stale ==> job.pos / 4096 <= i < b && Filling(maps, maps', job.m, i))
  }

  /** What a block shows before it is written: what was there at first, or the old bytes of a stale block. */
  lemma GroundHere(last: Disk, maps: BlockMaps, last1: Disk, maps1: BlockMaps, maps2: BlockMaps,
                   job: Job, n: nat, b: nat, stale: set<nat>, zeroed: bool, p: nat)
    requires job.m.File? && WrittenSoFar(last, maps, last1, maps1, job.m, job.pos, job.buf, n, stale) && b !in stale
    requires p / 4096 == b && !(job.pos <= p < job.pos + n)
    requires Resolve(maps1, job.m, b) == Resolve(maps, job.m, b)
    requires !zeroed ==> Resolve(maps, job.m, b).None? && Contents(last1, maps2, job.m, b) == Contents(last, maps2, job.m, b)
    ensures Ground(last1, maps1, maps2, job.m, b, zeroed)[p % 4096] ==
            if zeroed then ByteAt(last, maps, job.m, p) else ByteAt(last, maps2, job.m, p)
  {
    assert ByteAt(last1, maps1, job.m, p) == Expected(last, maps, maps1, job.m, job.pos, job.buf, n, stale, job.m, p);
  }

  lemma BlockStart(pos: nat, n: nat, b: nat, p: nat)
    requires b == (pos + n) / 4096 && (n == 0 || (pos + n) % 4096 == 0) && p / 4096 == b
    ensures !(pos <= p < pos + n) && p - (pos + n) == p % 4096 - (pos + n) % 4096
  {
    SamePlace(b, (pos + n) % 4096, p, pos + n);
  }

  /** The bytes of one block, written onto what the block shows. */
  lemma WriteHere(last: Disk, maps: BlockMaps, maps2: BlockMaps, job: Job, n: nat, b: nat, stale: set<nat>,
                  zeroed: bool, ground: Data, o: nat, chunk: nat, p: nat)
    requires n + chunk <= |job.buf| && o + chunk <= 4096 && p / 4096 == b && b !in stale
    requires !(job.pos <= p < job.pos + n) && p - (job.pos + n) == p % 4096 - o
    requires ground[p % 4096] == if zeroed then ByteAt(last, maps, job.m, p) else ByteAt(last, maps2, job.m, p)
    ensures var stale' := if zeroed then stale else stale + {b};
            && ground[p % 4096] == Expected(last, maps, maps2, job.m, job.pos, job.buf, n, stale', job.m, p)
            && Patch(ground, o, job.buf[n..n + chunk])[p % 4096]
               == Expected(last, maps, maps2, job.m, job.pos, job.buf, n + chunk, stale', job.m, p)
  {
    PatchAt(ground, o, job.buf[n..n + chunk], p % 4096);
  }

  lemma WriteElsewhere(last: Disk, maps: BlockMaps, last1: Disk, maps1: BlockMaps, last2: Disk, maps2: BlockMaps,
                       job: Job, n: nat, b: nat, stale: set<nat>, stale': set<nat>, n': nat, m': Mapping, p: nat)
    requires m'.File? && WrittenSoFar(last, maps, last1, maps1, job.m, job.pos, job.buf, n, stale)
    requires b == (job.pos + n) / 4096 && n <= n' <= |job.buf| && (job.pos + n) % 4096 + (n' - n) <= 4096
    requires OthersSame(last1, maps1, last2, maps2, job.m, b) && !(m' == job.m && p / 4096 == b)
    requires p / 4096 in stale' <==> p / 4096 in stale || (m' != job.m && p / 4096 in stale')
    requires m' == job.m ==> Resolve(maps2, m', p / 4096) == Resolve(maps1, m', p / 4096)
    ensures ByteAt(last2, maps2, m', p) == Expected(last, maps, maps2, job.m, job.pos, job.buf, n', stale', m', p)
  {
    assert Contents(last2, maps2, m', p / 4096) == Contents(last1, maps1, m', p / 4096);
    assert ByteAt(last1, maps1, m', p) == Expected(last, maps, maps1, job.m, job.pos, job.buf, n, stale, m', p);
    OtherBlock(p, job.pos + n, n' - n);
  }

  /** No index but `b` gets another block. */
  lemma MapsElsewhere(maps1: BlockMaps, maps2: BlockMaps, m: Mapping, b: nat, spare: Option<nat>, m': Mapping, i: nat)
    requires m.File? && (m' != m || i != b)
    requires maps2 == if Resolve(maps1, m, b).None? && spare.Some? then Filled(maps1, m, b, spare.value) else maps1
    ensures Resolve(maps2, m', i) == Resolve(maps1, m', i)
  {
    if maps2 != maps1 {
      FillResolve(maps1, m, b, spare.value, m', i);
    }
  }

  /** One byte after one round of the write loop, whether or not it could write. */
  lemma ByteMore(last: Disk, maps: BlockMaps, last1: Disk, maps1: BlockMaps, last2: Disk, maps2: BlockMaps, job: Job,
                 n: nat, b: nat, stale: set<nat>, spare: Option<nat>, zeroed: bool, ok: bool, chunk: nat, m': Mapping, p: nat)
    requires job.m.File? && m'.File? && WrittenSoFar(last, maps, last1, maps1, job.m, job.pos, job.buf, n, stale)
    requires b == (job.pos + n) / 4096 && (n == 0 || (job.pos + n) % 4096 == 0) && b !in stale
    requires n + chunk <= |job.buf| && (job.pos + n) % 4096 + chunk <= 4096
    requires Wrote(last1, maps1, last2, maps2, job.m, b, spare, zeroed, ok, (job.pos + n) % 4096, job.buf[n..n + chunk])
    requires Resolve(maps1, job.m, b) == Resolve(maps, job.m, b)
    requires !zeroed ==> Resolve(maps, job.m, b).None? && Contents(last1, maps2, job.m, b) == Contents(last, maps2, job.m, b)
    ensures var n', stale' := if ok then n + chunk else n, if zeroed then stale else stale + {b};
            ByteAt(last2, maps2, m', p) == Expected(last, maps, maps2, job.m, job.pos, job.buf, n', stale', m', p)
  {
    if m' == job.m && p / 4096 == b {
      BlockStart(job.pos, n, b, p);
      GroundHere(last, maps, last1, maps1, maps2, job, n, b, stale, zeroed, p);
      WriteHere(last, maps, maps2, job, n, b, stale, zeroed, Ground(last1, maps1, maps2, job.m, b, zeroed),
                (job.pos + n) % 4096, chunk, p);
    } else {
      MapsElsewhere(maps1, maps2, job.m, b, spare, m', p / 4096);
      WriteElsewhere(last, maps, last1, maps1, last2, maps2, job, n, b, stale, if zeroed then stale else stale + {b},
                     if ok then n + chunk else n, m', p);
    }
  }

  /** One round of the write loop, whether or not it could write. */
  lemma ProgressMore(last: Disk, maps: BlockMaps, last1: Disk, maps1: BlockMaps, last2: Disk, maps2: BlockMaps,
                     job: Job, n: nat, b: nat, stale: set<nat>, zeroed: bool, ok: bool, chunk: nat)
    requires job.m.File? && Progress(last, maps, last1, maps1, job, n, b, stale)
    requires b == (job.pos + n) / 4096 && (n == 0 || (job.pos + n) % 4096 == 0)
    requires n + chunk <= |job.buf| && (job.pos + n) % 4096 + chunk <= 4096
    requires Untouched(last, last1, job.m.dev, job.blocks, job.Used(maps, b))
    requires Wrote(last1, maps1, last2, maps2, job.m, b, job.Spare(maps, b), zeroed, ok, (job.pos + n) % 4096, job.buf[n..n + chunk])
    requires !zeroed ==> Fills(maps1, job.m, b, true, job.Spare(maps, b))
    ensures Progress(last, maps, last2, maps2, job, if ok then n + chunk else n, b + 1,
                     if zeroed then stale else stale + {b})
  {
    var n', stale' := if ok then n + chunk else n, if zeroed then stale else stale + {b};
    FillHolesResolve(maps, job.m, job.pos / 4096, b, job.blocks, job.m, b);
    assert !zeroed ==> Contents(last1, maps2, job.m, b) == Contents(last, maps2, job.m, b);
    forall m': Mapping, p: nat | m'.File?
      ensures ByteAt(last2, maps2, m', p) == Expected(last, maps, maps2, job.m, job.pos, job.buf, n', stale', m', p)
    {
      ByteMore(last, maps, last1, maps1, last2, maps2, job, n, b, stale, job.Spare(maps, b), zeroed, ok, chunk, m', p);
    }
    forall i | i in stale' ensures job.pos / 4096 <= i < b + 1 && Filling(maps, maps2, job.m, i) {
      if i != b {
        MapsElsewhere(maps1, maps2, job.m, b, job.Spare(maps, b), job.m, i);
      }
    }
  }

  /** Blocks still to be handed out stay as they are while another block is written. */
  lemma StillUntouched(last: Disk, last1: Disk, maps: BlockMaps, maps1: BlockMaps, last2: Disk, job: Job, b: nat)
    requires job.m.File? && Spares(maps, job.m.dev, job.blocks)
    requires maps1 == FillHoles(maps, job.m, job.pos / 4096, b, job.blocks)
    requires Untouched(last, last1, job.m.dev, job.blocks, job.Used(maps, b))
    requires OnlyBlock(last1, last2, Target(maps1, job.m, b, job.Spare(maps, b)))
    ensures job.pos / 4096 <= b ==> Untouched(last, last2, job.m.dev, job.blocks, job.Used(maps, b + 1))
  {
    if job.pos / 4096 <= b {
      forall j | job.Used(maps, b + 1) <= j < |job.blocks|
        ensures Held(last2, Key(job.m.dev, job.blocks[j])) == Held(last, Key(job.m.dev, job.blocks[j]))
      {
        SparesLeft(maps, job.m, job.pos / 4096, b, job.blocks, j);
        FillHolesResolve(maps, job.m, job.pos / 4096, b, job.blocks, job.m, b);
        assert Resolve(maps1, job.m, b) != Some(job.blocks[j]);
        assert Target(maps1, job.m, b, job.Spare(maps, b)) != Some(Key(job.m.dev, job.blocks[j]));
      }
    }
  }

  predicate OpenWriting(n: nat, b: nat, stale: set<nat>, w: int) {
    true
  }

  /** Where the loop stands; what is written so far is closed like `Sound`. */
  ghost predicate Writing(c: Cache, last: Disk, maps: BlockMaps, job: Job, n: nat, b: nat, stale: set<nat>)
    reads c
  {
    && c.Valid() && Settled(c.View())
    && Standing(last, maps, c.last, c.maps, job, n, b, stale)
  }

  ghost predicate Standing(last: Disk, maps: BlockMaps, last': Disk, maps': BlockMaps,
                           job: Job, n: nat, b: nat, stale: set<nat>) {
    forall w {:trigger OpenWriting(n, b, stale, w)} :: OpenWriting(n, b, stale, w) ==>
      && job.m.File? && Spares(maps, job.m.dev, job.blocks)
      && Progress(last, maps, last', maps', job, n, b, stale) && Injective(maps')
      && Untouched(last, last', job.m.dev, job.blocks, job.Used(maps, b))
  }

  /** What the loop may rely on before it writes the next block. */
  lemma StandingFacts(last: Disk, maps: BlockMaps, last1: Disk, maps1: BlockMaps, job: Job, n: nat, b: nat, stale: set<nat>)
    requires Standing(last, maps, last1, maps1, job, n, b, stale)
    ensures job.m.File? && Injective(maps1) && maps1 == job.Filled(maps, b)
    ensures Resolve(maps1, job.m, b) == Resolve(maps, job.m, b)
    ensures job.Spare(maps, b).Some? ==> Unused(maps1, job.m.dev, job.Spare(maps, b).value)
  {
    assert OpenWriting(n, b, stale, 0);
    FillHolesResolve(maps, job.m, job.pos / 4096, b, job.blocks, job.m, b);
    if job.Used(maps, b) < |job.blocks| {
      SparesLeft(maps, job.m, job.pos / 4096, b, job.blocks, job.Used(maps, b));
    }
  }

  lemma UsedMore(last: Disk, maps: BlockMaps, last1: Disk, maps1: BlockMaps, job: Job, n: nat, b: nat, stale: set<nat>)
    requires Standing(last, maps, last1, maps1, job, n, b, stale) && job.pos / 4096 <= b
    ensures job.Used(maps, b + 1) == job.Used(maps, b) + if Resolve(maps1, job.m, b).None? then 1 else 0
  {
    StandingFacts(last, maps, last1, maps1, job, n, b, stale);
  }

  lemma StandingMore(last: Disk, maps: BlockMaps, last1: Disk, maps1: BlockMaps, last2: Disk, maps2: BlockMaps,
                     job: Job, n: nat, b: nat, stale: set<nat>, zeroed: bool, ok: bool, o: nat, chunk: nat)
    requires Standing(last, maps, last1, maps1, job, n, b, stale)
    requires Spot(job.pos, n, b, o, chunk) && n + chunk <= |job.buf|
    requires WriteDone(last1, maps1, last2, maps2, job.m, b, job.Spare(maps, b), zeroed, ok, o, job.buf[n..n + chunk])
    requires Injective(maps2) && (!zeroed ==> Fills(maps1, job.m, b, true, job.Spare(maps, b)))
    ensures Standing(last, maps, last2, maps2, job, if ok then n + chunk else n, b + 1, if zeroed then stale else stale + {b})
  {
    assert OpenWriting(n, b, stale, 0) && OpenPlace(job.pos, n, b, 0) && OpenWrote(last2, b, 0);
    ProgressMore(last, maps, last1, maps1, last2, maps2, job, n, b, stale, zeroed, ok, chunk);
    StillUntouched(last, last1, maps, maps1, last2, job, b);
  }

  predicate OpenServed(job: Job, b: nat, w: int) {
    true
  }

  /** For every index before `b` a page can be had, with the holes filled; closed like `Sound`. */
  ghost predicate Served(held: Refs, maps: BlockMaps, job: Job, b: nat) {
    forall w {:trigger OpenServed(job, b, w)} :: OpenServed(job, b, w) ==>
      Available(held, job.Filled(maps, b), job.m, job.pos / 4096, b)
  }

  lemma ServedMore(held: Refs, maps: BlockMaps, job: Job, b: nat)
    requires job.m.File? && Served(held, maps, job, b) && !CrowdedAt(held, job.Filled(maps, b + 1), job.m, b)
    ensures Served(held, maps, job, b + 1)
  {
    assert OpenServed(job, b, 0);
    var filled := job.Filled(maps, b + 1);
    forall i: nat | job.pos / 4096 <= i < b + 1 ensures !CrowdedAt(held, filled, job.m, i) {
      if i < b {
        FillHolesResolve(maps, job.m, job.pos / 4096, b, job.blocks, job.m, i);
        FillHolesResolve(maps, job.m, job.pos / 4096, b + 1, job.blocks, job.m, i);
        assert !CrowdedAt(held, job.Filled(maps, b), job.m, i);
      }
    }
  }

  /** `FirstStuck`, closed like `Sound`. */
  ghost predicate StopsAt(held: Refs, maps: BlockMaps, job: Job, b: nat) {
    forall w {:trigger OpenServed(job, b, w)} :: OpenServed(job, b, w) ==> FirstStuck(held, maps, job, b)
  }

  /** Index `b` is the first that cannot be written: a hole without a block, or no page can be had for its block. */
  ghost predicate FirstStuck(held: Refs, maps: BlockMaps, job: Job, b: nat) {
    && job.Used(maps, b) <= |job.blocks| && Available(held, job.Filled(maps, b), job.m, job.pos / 4096, b)
    && (job.Used(maps, b + 1) > |job.blocks| || CrowdedAt(held, job.Filled(maps, b + 1), job.m, b))
  }

  /** The block looked up is the one the index has afterwards. */
  lemma TargetIs(maps: BlockMaps, maps': BlockMaps, m: Mapping, b: nat, spare: Option<nat>)
    requires m.File?
    requires maps' == if Resolve(maps, m, b).None? && spare.Some? then Pages.Filled(maps, m, b, spare.value) else maps
    ensures Target(maps, m, b, spare) == match Resolve(maps', m, b) case None => None case Some(x) => Some(Key(m.dev, x))
  {
  }

  /** What came of one round, by the answer of the page cache. */
  lemma RoundDone(held: Refs, maps: BlockMaps, maps1: BlockMaps, maps2: BlockMaps, job: Job, b: nat, spare: Option<nat>,
                  e: Errno, refused: bool)
    requires job.m.File? && Served(held, maps, job, b) && job.Used(maps, b) <= |job.blocks| && job.pos / 4096 <= b
    requires spare == job.Spare(maps, b) && maps1 == job.Filled(maps, b) && maps2 == job.Filled(maps, b + 1)
    requires if e == Errno.Ok then Resolve(maps2, job.m, b).Some? else NoPageFor(maps1, job.m, b, true, true, spare, e)
    requires e == ENOMEM && !refused ==> Crowded(held, Target(maps1, job.m, b, spare).value)
    requires e == Errno.Ok ==> !Crowded(held, Key(job.m.dev, Resolve(maps2, job.m, b).value))
    ensures e == Errno.Ok ==> Served(held, maps, job, b + 1) && job.Used(maps, b + 1) <= |job.blocks|
    ensures e != Errno.Ok ==> refused || StopsAt(held, maps, job, b)
  {
    FillHolesResolve(maps, job.m, job.pos / 4096, b, job.blocks, job.m, b);
    TargetIs(maps1, maps2, job.m, b, spare);
    if e == Errno.Ok {
      ServedMore(held, maps, job, b);
    } else {
      assert OpenServed(job, b, 0);
    }
  }

  /** All that one round does, on values. */
  lemma Round(held: Refs, last: Disk, maps: BlockMaps, last1: Disk, maps1: BlockMaps, last2: Disk, maps2: BlockMaps,
              job: Job, n: nat, b: nat, stale: set<nat>, spare: Option<nat>, o: nat, chunk: nat,
              e: Errno, zeroed: bool, refused: bool)
    requires Standing(last, maps, last1, maps1, job, n, b, stale)
    requires Spot(job.pos, n, b, o, chunk) && n + chunk <= |job.buf| && job.pos / 4096 <= b
    requires Served(held, maps, job, b) && job.Used(maps, b) <= |job.blocks| && spare == job.Spare(maps, b)
    requires WriteDone(last1, maps1, last2, maps2, job.m, b, spare, zeroed, e == Errno.Ok, o, job.buf[n..n + chunk])
    requires Injective(maps2) && (!zeroed ==> Fills(maps1, job.m, b, true, spare))
    requires if e == Errno.Ok then Resolve(maps2, job.m, b).Some? else NoPageFor(maps1, job.m, b, true, true, spare, e)
    requires e == ENOMEM && !refused ==> Crowded(held, Target(maps1, job.m, b, spare).value)
    requires e == Errno.Ok ==> !Crowded(held, Key(job.m.dev, Resolve(maps2, job.m, b).value))
    ensures Standing(last, maps, last2, maps2, job, if e == Errno.Ok then n + chunk else n, b + 1,
                     if zeroed then stale else stale + {b})
    ensures e == Errno.Ok ==> Served(held, maps, job, b + 1) && job.Used(maps, b + 1) <= |job.blocks|
    ensures e != Errno.Ok ==> refused || StopsAt(held, maps, job, b)
  {
    StandingFacts(last, maps, last1, maps1, job, n, b, stale);
    StandingMore(last, maps, last1, maps1, last2, maps2, job, n, b, stale, zeroed, e == Errno.Ok, o, chunk);
    assert OpenWrote(last2, b, 0);
    RoundDone(held, maps, maps1, maps2, job, b, spare, e, refused);
  }

  /** Everything up to `end` can be written. */
  ghost predicate GoesThrough(held: Refs, maps: BlockMaps, job: Job, end: nat) {
    job.Used(maps, end) <= |job.blocks| && Available(held, job.Filled(maps, end), job.m, job.pos / 4096, end)
  }

  lemma StopsShort(held: Refs, maps: BlockMaps, job: Job, b: nat, end: nat)
    requires job.m.File? && StopsAt(held, maps, job, b) && job.pos / 4096 <= b < end
    ensures !GoesThrough(held, maps, job, end) && FirstStuck(held, maps, job, b)
  {
    assert OpenServed(job, b, 0);
    HolesGrow(maps, job.m, job.pos / 4096, b + 1, end);
    FillHolesResolve(maps, job.m, job.pos / 4096, b + 1, job.blocks, job.m, b);
    FillHolesResolve(maps, job.m, job.pos / 4096, end, job.blocks, job.m, b);
    assert CrowdedAt(held, job.Filled(maps, b + 1), job.m, b) ==> CrowdedAt(held, job.Filled(maps, end), job.m, b);
  }

  lemma WritingStart(c: Cache, job: Job)
    requires c.Valid() && Settled(c.View()) && Injective(c.maps)
    requires job.m.File? && Spares(c.maps, job.m.dev, job.blocks)
    ensures Writing(c, c.last, c.maps, job, 0, job.pos / 4096, {})
  {
  }

  lemma WritingIs(c: Cache, last: Disk, maps: BlockMaps, job: Job, n: nat, b: nat, stale: set<nat>)
    requires Writing(c, last, maps, job, n, b, stale)
    ensures Progress(last, maps, c.last, c.maps, job, n, b, stale) && Injective(c.maps)
  {
    assert OpenWriting(n, b, stale, 0);
  }

  /** One block of the write loop; `last` and `maps` are what the whole write started from. */
  method WriteOne(c: Cache, job: Job, done: nat, b: nat, o: nat, chunk: nat, spare: Option<nat>,
                  ghost last: Disk, ghost maps: BlockMaps, ghost stale: set<nat>)
    returns (e: Errno, ghost zeroed: bool)
    requires Writing(c, last, maps, job, done, b, stale) && Served(c.held, maps, job, b)
    requires Spot(job.pos, done, b, o, chunk) && 0 < chunk && done + chunk <= |job.buf| && o + chunk <= 4096
    requires spare == job.Spare(maps, b) && job.Used(maps, b) <= |job.blocks| && job.pos / 4096 <= b
    modifies c
    ensures c.Valid() && Settled(c.View()) && c.held == old(c.held) && c.asked >= old(c.asked)
    ensures Standing(last, maps, c.last, c.maps, job, if e == Errno.Ok then done + chunk else done, b + 1,
                     if zeroed then stale else stale + {b})
    ensures e == Errno.Ok ==> Served(c.held, maps, job, b + 1) && job.Used(maps, b + 1) <= |job.blocks|
    ensures e != Errno.Ok ==> c.Refused(old(c.asked)) || StopsAt(c.held, maps, job, b)
    ensures zeroed || c.Refused(old(c.asked)) || AllHeld(c.held)
  {
    StandingFacts(last, maps, c.last, c.maps, job, done, b, stale);
    ghost var last1, maps1 := c.last, c.maps;
    e, zeroed := c.WriteIndex(job.m, b, o, job.buf[done..done + chunk], spare);
    Round(c.held, last, maps, last1, maps1, c.last, c.maps, job, done, b, stale, spare, o, chunk,
          e, zeroed, c.Refused(old(c.asked)));
  }

  /** One round of the write loop. */
  method WriteChunk(c: Cache, job: Job, done: nat, b: nat, o: nat, chunk: nat, used: nat,
                    ghost last: Disk, ghost maps: BlockMaps, ghost stale: set<nat>)
    returns (ok: bool, done': nat, used': nat, ghost b': nat, ghost stale': set<nat>)
    requires Writing(c, last, maps, job, done, b, stale) && Served(c.held, maps, job, b)
    requires Spot(job.pos, done, b, o, chunk) && 0 < chunk && done + chunk <= |job.buf| && o + chunk <= 4096
    requires used == job.Used(maps, b) <= |job.blocks| && job.pos / 4096 <= b
    modifies c
    ensures Writing(c, last, maps, job, done', b', stale') && b' == b + 1 && done' == if ok then done + chunk else done
    ensures c.held == old(c.held) && c.asked >= old(c.asked)
    ensures ok ==> used' == job.Used(maps, b') <= |job.blocks|
    ensures if ok then Served(c.held, maps, job, b') else c.Refused(old(c.asked)) || StopsAt(c.held, maps, job, b)
    ensures stale' == stale || c.Refused(old(c.asked)) || AllHeld(c.held)
  {
    var spare := if used < |job.blocks| then Some(job.blocks[used]) else None;
    used' := used + if Resolve(c.maps, job.m, b).None? then 1 else 0;
    UsedMore(last, maps, c.last, c.maps, job, done, b, stale);
    var e, zeroed := WriteOne(c, job, done, b, o, chunk, spare, last, maps, stale);
    ok := e == Errno.Ok;
    done', b', stale' := if ok then done + chunk else done, b + 1, if zeroed then stale else stale + {b};
  }

  /** The loop of `ext2_write_file` over `count` bytes. */
  method WriteLoop(c: Cache, job: Job, count: nat)
    returns (done: nat, complete: bool, ghost stale: set<nat>, ghost b: nat, ghost reached: nat)
    requires Writing(c, c.last, c.maps, job, 0, job.pos / 4096, {}) && count <= |job.buf|
    modifies c
    ensures c.held == old(c.held) && c.asked >= old(c.asked)
    ensures done <= count && (complete <==> done == count) && Place(job.pos, done, count, b)
    ensures Writing(c, old(c.last), old(c.maps), job, done, reached, stale) && reached == if complete then b else b + 1
    ensures stale == {} || c.Refused(old(c.asked)) || AllHeld(c.held)
    ensures job.Used(old(c.maps), b) <= |job.blocks|
    ensures if complete then Served(c.held, old(c.maps), job, b)
            else c.Refused(old(c.asked)) || StopsAt(c.held, old(c.maps), job, b)
    ensures !complete ==> job.pos / 4096 <= b < End(job.pos, count)
  {
    var used, ok := 0, true;
    done, stale, b := 0, {}, job.pos / 4096;
    PlaceStart(job.pos, count);
    while done < count
      invariant Writing(c, old(c.last), old(c.maps), job, done, b, stale) && c.held == old(c.held) && c.asked >= old(c.asked)
      invariant done <= count && Place(job.pos, done, count, b)
      invariant used == job.Used(old(c.maps), b) <= |job.blocks| && Served(c.held, old(c.maps), job, b)
      invariant stale == {} || c.Refused(old(c.asked)) || AllHeld(c.held)
    {
      ghost var from, here := c.asked, b;
      var i, o, chunk := Locate(job.pos, done, count, b);
      ok, done, used, b, stale := WriteChunk(c, job, done, i, o, chunk, used, old(c.last), old(c.maps), stale);
      WiderRefusal(c.supply, old(c.asked), from, c.asked);
      if !ok {
        return done, false, stale, here, b;
      }
    }
    complete, reached := true, b;
  }

  /** What the loop's end means for the whole request. */
  lemma WriteEnds(held: Refs, maps: BlockMaps, job: Job, count: nat, b: nat, complete: bool, refused: bool)
    requires job.m.File? && job.Used(maps, b) <= |job.blocks|
    requires if complete then b == End(job.pos, count) && Served(held, maps, job, b) else refused || StopsAt(held, maps, job, b)
    requires !complete ==> job.pos / 4096 <= b < End(job.pos, count)
    ensures !refused ==>
              && (complete <==> GoesThrough(held, maps, job, End(job.pos, count)))
              && (!complete ==> FirstStuck(held, maps, job, b))
    ensures !complete ==> refused || AllHeld(held) || job.Used(maps, End(job.pos, count)) > |job.blocks|
  {
    if complete {
      assert OpenServed(job, b, 0);
    } else if !refused {
      StopsShort(held, maps, job, b, End(job.pos, count));
      HolesGrow(maps, job.m, job.pos / 4096, b + 1, End(job.pos, count));
    }
  }

  /** The size after `done` bytes were written at `pos` of a file of `size` bytes. */
  function SizeAfter(size: nat, pos: nat, done: nat): nat {
    if pos + done > size then pos + done else size
  }

  /** How much of a write the largest file size leaves room for. */
  function Writable(pos: nat, count: nat): nat {
    if pos >= MAX_FILE_SIZE then 0 else Min(count, MAX_FILE_SIZE - pos)
  }

  /**
   `ext2_write_file`: `done` bytes are in the file, the holes up to there are filled, and
   nothing else in any file changed, but for the holes in `stale`, whose blocks could not be
   zeroed.  If memory is not refused, the write completes exactly when there are blocks for the
   holes in its range and a page can be had for each of its indices, and otherwise stops at the
   first index where one of these fails.  The size is updated only by a write that completes.
   */
  method WriteFile(c: Cache, m: Mapping, size: nat, pos: nat, buf: seq<Byte>, blocks: seq<nat>)
    returns (done: nat, complete: bool, size': nat, ghost stale: set<nat>)
    requires c.Valid() && Settled(c.View()) && m.File? && Injective(c.maps) && Spares(c.maps, m.dev, blocks)
    modifies c
    ensures c.Valid() && Settled(c.View()) && Injective(c.maps) && c.held == old(c.held) && c.asked >= old(c.asked)
    ensures done <= Writable(pos, |buf|)
    ensures complete <==> done == Writable(pos, |buf|) && (pos < MAX_FILE_SIZE || buf == [])
    ensures c.maps == FillHoles(old(c.maps), m, pos / 4096, Reached(pos, done, complete), blocks)
    ensures WrittenSoFar(old(c.last), old(c.maps), c.last, c.maps, m, pos, buf, done, stale)
    ensures forall i :: i in stale ==>
              pos / 4096 <= i < Reached(pos, done, complete) && Filling(old(c.maps), c.maps, m, i)
    ensures stale != {} ==> c.Refused(old(c.asked)) || AllHeld(c.held)
    ensures complete ==> Holes(old(c.maps), m, pos / 4096, End(pos, done)) <= |blocks|
    ensures !complete && pos < MAX_FILE_SIZE ==>
              || c.Refused(old(c.asked)) || AllHeld(c.held)
              || Holes(old(c.maps), m, pos / 4096, End(pos, Writable(pos, |buf|))) > |blocks|
    ensures AtBoundary(pos, done, Writable(pos, |buf|)) && Holes(old(c.maps), m, pos / 4096, End(pos, done)) <= |blocks|
    ensures pos < MAX_FILE_SIZE && !c.Refused(old(c.asked)) ==>
              var job := Job(m, pos, buf, blocks);
              && (complete <==> GoesThrough(c.held, old(c.maps), job, End(pos, Writable(pos, |buf|))))
              && (!complete ==> FirstStuck(c.held, old(c.maps), job, End(pos, done)))
    ensures size' == if complete && pos < MAX_FILE_SIZE then SizeAfter(size, pos, done) else size
  {
    done, size', stale := 0, size, {};
    if pos >= MAX_FILE_SIZE {
      complete := buf == [];
      return;
    }
    var job, count := Job(m, pos, buf, blocks), Writable(pos, |buf|);
    ghost var b, reached;
    WritingStart(c, job);
    done, complete, stale, b, reached := WriteLoop(c, job, count);
    PlaceIs(pos, done, count, b);
    assert reached == Reached(pos, done, complete);
    WritingIs(c, old(c.last), old(c.maps), job, done, reached, stale);
    WriteEnds(c.held, old(c.maps), job, count, b, complete, c.Refused(old(c.asked)));
    size' := if complete then SizeAfter(size, pos, done) else size;
  }

  /** A write of nothing behind the end moves the end there, and only then changes the size. */
  lemma EmptyWriteExtends(size: nat, pos: nat)
    ensures SizeAfter(size, pos, 0) != size <==> size < pos
    ensures size < pos ==> SizeAfter(size, pos, 0) == pos
  {
  }

  method EmptyWrite(c: Cache, m: Mapping, size: nat, pos: nat) returns (size': nat)
    requires c.Valid() && Settled(c.View()) && m.File? && Injective(c.maps)
    modifies c
    ensures c.Valid() && c.maps == old(c.maps) && size' == if size < pos < MAX_FILE_SIZE then pos else size
  {
    var done, complete;
    ghost var stale;
    done, complete, size', stale := WriteFile(c, m, size, pos, [], []);
    EmptyWriteExtends(size, pos);
  }

  /**
   A write of two blocks into an empty file with one block left: the first block is written,
   and the file is as empty as before.
   */
  method ShortWriteKeepsSize(buf: seq<Byte>) returns (done: nat, complete: bool, size: nat)
    requires |buf| == 8192
    ensures done == 4096 && !complete && size == 0
  {
    var m, blocks := File(0, 1), [5];
    var c := new Cache(map[], map[], n => true);
    NoFiles(c.maps, 0, 5);
    ghost var stale;
    assert Holes(map[], m, 0, 1) == 1 && Holes(map[], m, 0, 2) == 2;
    done, complete, size, stale := WriteFile(c, m, 0, 0, buf, blocks);
    assert End(0, Writable(0, 8192)) == 2;
  }

  lemma NoFiles(maps: BlockMaps, dev: nat, b: nat)
    requires maps == map[]
    ensures Injective(maps) && Unused(maps, dev, b)
  {
    forall m: Mapping, i: nat, m': Mapping, j: nat ensures !SameBlock(maps, m, i, m', j) {
      assert m.File? ==> Resolve(maps, m, i) == None;
    }
  }

  /**
   A hole read as zeros before one byte was written into it, and shows what its new block held
   long ago after: the memory allocator refused the page to zero the block in.
   */
  method StaleBytesShow() returns (ghost before: Data, after: Option<Data>)
    ensures before == ZeroData() && after.Some? && after.value[1] == 7
  {
    var m, bytes := File(0, 1), seq(BLOCK_SIZE, i => 7 as Byte);
    var c := new Cache(map[Key(0, 5) := bytes], map[], n => n != 0);
    ghost var last := c.last;
    before := Contents(c.last, c.maps, m, 0);
    NoFiles(c.maps, 0, 5);
    var e, zeroed := c.WriteIndex(m, 0, 0, [1], Some(5));
    assert OpenWrote(c.last, 0, 0);
    assert Ground(last, map[], c.maps, m, 0, zeroed) == bytes;
    PatchAt(bytes, 0, [1], 1);
    after := c.ReadIndex(m, 0);
  }
}
