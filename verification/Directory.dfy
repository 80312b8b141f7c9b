/**
 An ext2 directory: a sequence of blocks, some of them holes.  Looking up, adding,
 deleting and replacing an entry are lookup, insertion, removal and update of a map from
 names to inodes; reading it may stop anywhere and be resumed.
 */
module Directory {
  import opened Arith
  import opened Wrappers
  import opened DirBlock
  import opened DirNames
  import opened DirRecords

  datatype Errno = Ok | EEXIST | ENOENT | ENOSPC | EREFUSED

  type Blocks = seq<Option<Bytes>>

  ghost predicate BlockOk(b: Option<Bytes>) {
    b.Some? ==> Tiled(b.value, 0)
  }

  ghost predicate AllTiled(bs: Blocks) {
    forall i :: 0 <= i < |bs| ==> BlockOk(bs[i])
  }

  ghost function LiveOf(b: Option<Bytes>): Entries
    requires BlockOk(b)
  {
    if b.None? then [] else Live(b.value, 0)
  }

  /** The live entries of all blocks, in order. */
  ghost function All(bs: Blocks): Entries
    requires AllTiled(bs)
  {
    if bs == [] then [] else All(bs[..|bs| - 1]) + LiveOf(bs[|bs| - 1])
  }

  lemma {:induction false} AllAppend(a: Blocks, b: Blocks)
    requires AllTiled(a) && AllTiled(b)
    ensures AllTiled(a + b) && All(a + b) == All(a) + All(b)
  {
    if b == [] {
      assert a + b == a;
    } else {
      var front := b[..|b| - 1];
      AllAppend(a, front);
      assert (a + b)[..|a + b| - 1] == a + front;
      Regroup(All(a), All(front), LiveOf(b[|b| - 1]));
    }
  }

  lemma AllOne(b: Option<Bytes>)
    requires BlockOk(b)
    ensures AllTiled([b]) && All([b]) == LiveOf(b)
  {
    assert [b][..0] == [];
  }

  /** The entries before, in and after block `i`. */
  lemma AllAround(bs: Blocks, i: nat, b: Option<Bytes>)
    requires AllTiled(bs) && i < |bs| && BlockOk(b)
    ensures AllTiled(bs[..i]) && AllTiled(bs[i + 1..]) && AllTiled(bs[i := b])
    ensures All(bs[i := b]) == All(bs[..i]) + LiveOf(b) + All(bs[i + 1..])
  {
    AllOne(b);
    AllAppend(bs[..i], [b]);
    AllAppend(bs[..i] + [b], bs[i + 1..]);
    Around(bs, i, b);
  }

  lemma Around(bs: Blocks, i: nat, b: Option<Bytes>)
    requires i < |bs|
    ensures bs[i := b] == bs[..i] + [b] + bs[i + 1..]
  {
  }

  lemma AllParts(bs: Blocks, i: nat)
    requires AllTiled(bs) && i < |bs|
    ensures AllTiled(bs[..i]) && AllTiled(bs[i + 1..])
    ensures All(bs) == All(bs[..i]) + LiveOf(bs[i]) + All(bs[i + 1..])
  {
    AllAround(bs, i, bs[i]);
    assert bs[i := bs[i]] == bs;
  }

  lemma AllUpTo(bs: Blocks, i: nat, name: Bytes)
    requires AllTiled(bs) && i < |bs|
    ensures AllTiled(bs[..i]) && AllTiled(bs[..i + 1])
    ensures HasName(All(bs[..i + 1]), name) <==> HasName(All(bs[..i]), name) || HasName(LiveOf(bs[i]), name)
  {
    assert bs[..i + 1][..i] == bs[..i];
    HasNameSplit(All(bs[..i]), LiveOf(bs[i]), name);
  }

  // ---- A change in one block is a change of the directory ----

  lemma BlockAdded(bs: Blocks, i: nat, d: Bytes, e: Entry)
    requires AllTiled(bs) && i < |bs| && Tiled(d, 0) && Added(LiveOf(bs[i]), Live(d, 0), e)
    ensures AllTiled(bs[i := Some(d)]) && Added(All(bs), All(bs[i := Some(d)]), e)
  {
    AllParts(bs, i);
    AllAround(bs, i, Some(d));
    AddedWithin(All(bs[..i]), LiveOf(bs[i]), Live(d, 0), All(bs[i + 1..]), e);
  }

  lemma BlockDropped(bs: Blocks, i: nat, d: Bytes, name: Bytes)
    requires AllTiled(bs) && i < |bs| && Tiled(d, 0) && Dropped(LiveOf(bs[i]), Live(d, 0), name)
    ensures AllTiled(bs[i := Some(d)]) && Dropped(All(bs), All(bs[i := Some(d)]), name)
  {
    AllParts(bs, i);
    AllAround(bs, i, Some(d));
    DroppedWithin(All(bs[..i]), LiveOf(bs[i]), Live(d, 0), All(bs[i + 1..]), name);
  }

  lemma EntryDropped(bs: Blocks, i: nat, d: Bytes, name: Bytes)
    requires AllTiled(bs) && Unique(All(bs)) && i < |bs| && Tiled(d, 0) && Dropped(LiveOf(bs[i]), Live(d, 0), name)
    ensures AllTiled(bs[i := Some(d)]) && Unique(All(bs[i := Some(d)])) && name in NameMap(All(bs))
    ensures NameMap(All(bs[i := Some(d)])) == NameMap(All(bs)) - {name}
  {
    BlockDropped(bs, i, d, name);
    DroppedMap(All(bs), All(bs[i := Some(d)]), name);
  }

  /** A name in no block is not bound. */
  lemma NotBound(bs: Blocks, name: Bytes)
    requires AllTiled(bs) && Unique(All(bs)) && !HasName(All(bs), name)
    ensures name !in NameMap(All(bs)) && NameMap(All(bs)) - {name} == NameMap(All(bs))
  {
    NameMapFacts(All(bs));
  }

  lemma BlockChanged(bs: Blocks, i: nat, d: Bytes, e: Entry)
    requires AllTiled(bs) && i < |bs| && Tiled(d, 0) && Changed(LiveOf(bs[i]), Live(d, 0), e)
    ensures AllTiled(bs[i := Some(d)]) && Changed(All(bs), All(bs[i := Some(d)]), e)
  {
    AllParts(bs, i);
    AllAround(bs, i, Some(d));
    ChangedWithin(All(bs[..i]), LiveOf(bs[i]), Live(d, 0), All(bs[i + 1..]), e);
  }

  function ZeroBlock(): (d: Bytes)
    ensures |d| == BLOCK_SIZE
  {
    seq(BLOCK_SIZE, i => 0)
  }

  /** A new block holding just one record that fills it. */
  function FreshBlock(e: Entry): Bytes
    requires Storable(e.name, e.ino)
  {
    Init(ZeroBlock(), 0, BLOCK_SIZE, e.name, e.ino, e.kind)
  }

  lemma FreshBlockFacts(e: Entry)
    requires Storable(e.name, e.ino)
    ensures Tiled(FreshBlock(e), 0) && Live(FreshBlock(e), 0) == [e]
  {
    InitFacts(ZeroBlock(), 0, BLOCK_SIZE, e.name, e.ino, e.kind);
    OnlyRecord(FreshBlock(e), e);
  }

  lemma OnlyRecord(d: Bytes, e: Entry)
    requires Fits(d, 0) && Next(d, 0) == BLOCK_SIZE && At(d, 0) == [e]
    ensures Tiled(d, 0) && Live(d, 0) == [e]
  {
    assert Tiled(d, BLOCK_SIZE) && Live(d, BLOCK_SIZE) == [];
  }

  lemma FreshFacts(bs: Blocks, e: Entry)
    requires AllTiled(bs) && Storable(e.name, e.ino)
    ensures AllTiled(bs + [Some(FreshBlock(e))]) && Added(All(bs), All(bs + [Some(FreshBlock(e))]), e)
  {
    FreshBlockFacts(e);
    AppendAdds(bs, FreshBlock(e), e);
  }

  lemma AppendAdds(bs: Blocks, d: Bytes, e: Entry)
    requires AllTiled(bs) && Tiled(d, 0) && Live(d, 0) == [e]
    ensures AllTiled(bs + [Some(d)]) && Added(All(bs), All(bs + [Some(d)]), e)
  {
    AllOne(Some(d));
    AllAppend(bs, [Some(d)]);
    PutInParts(All(bs), e, []);
    assert All(bs) + [e] + [] == All(bs) + [e];
    assert All(bs) + [] == All(bs);
  }

  /** The record found at (`b`, `o`) is the one the name map speaks of. */
  lemma FoundIsBound(bs: Blocks, b: nat, o: nat, name: Bytes)
    requires AllTiled(bs) && Unique(All(bs)) && b < |bs| && bs[b].Some?
    requires o < BLOCK_SIZE && Leads(bs[b].value, 0, o) && Fits(bs[b].value, o) && Match(bs[b].value, o, name)
    ensures name in NameMap(All(bs)) && NameMap(All(bs))[name] == Target(Ino(bs[b].value, o), Kind(bs[b].value, o))
  {
    var d := bs[b].value;
    Rest(d, 0, o);
    OneStep(d, o);
    Rest(d, o, Next(d, o));
    Decompose(d, o, Next(d, o));
    AllParts(bs, b);
    NameMapFacts(All(bs));
    var k := |All(bs[..b])| + |Between(d, 0, o)|;
    assert All(bs)[k] == Entry(name, Ino(d, o), Kind(d, o));
  }

  /** No record of the block has room for `need` bytes. */
  ghost predicate Full(b: Option<Bytes>, need: nat) {
    b.Some? ==> Leads(b.value, 0, BLOCK_SIZE) && NoRoom(b.value, 0, BLOCK_SIZE, need)
  }

  ghost predicate AllFull(bs: Blocks, need: nat) {
    forall i :: 0 <= i < |bs| ==> Full(bs[i], need)
  }

  // ---- Reading from a position ----

  /** The live entries of block `b` and all later ones. */
  ghost function AllFrom(bs: Blocks, b: nat): Entries
    requires AllTiled(bs)
    decreases |bs| - b
  {
    if b >= |bs| then [] else LiveOf(bs[b]) + AllFrom(bs, b + 1)
  }

  lemma {:induction false} AllFromIsRest(bs: Blocks, b: nat)
    requires AllTiled(bs) && b <= |bs|
    ensures AllTiled(bs[..b]) && All(bs) == All(bs[..b]) + AllFrom(bs, b)
    decreases |bs| - b
  {
    if b == |bs| {
      assert bs[..b] == bs;
    } else {
      AllFromIsRest(bs, b + 1);
      assert bs[..b + 1][..b] == bs[..b];
      Regroup(All(bs[..b]), LiveOf(bs[b]), AllFrom(bs, b + 1));
    }
  }

  /** A file position at a record boundary, in a hole, or at the end. */
  ghost predicate Boundary(bs: Blocks, b: nat, o: nat) {
    && AllTiled(bs) && b <= |bs| && o < BLOCK_SIZE
    && (if b == |bs| then o == 0 else bs[b].Some? ==> Leads(bs[b].value, 0, o))
  }

  /** The live entries from a position on. */
  ghost function Remaining(bs: Blocks, b: nat, o: nat): Entries
    requires Boundary(bs, b, o)
  {
    if b == |bs| then []
    else if bs[b].None? then AllFrom(bs, b + 1)
    else RestFrom(bs, b, o)
  }

  ghost function RestFrom(bs: Blocks, b: nat, o: nat): Entries
    requires Boundary(bs, b, o) && b < |bs| && bs[b].Some?
  {
    assert BlockOk(bs[b]);
    Rest(bs[b].value, 0, o);
    Live(bs[b].value, o) + AllFrom(bs, b + 1)
  }

  lemma AtBlockStart(bs: Blocks, b: nat)
    requires AllTiled(bs) && b <= |bs|
    ensures Boundary(bs, b, 0) && Remaining(bs, b, 0) == AllFrom(bs, b)
  {
  }

  /** Past a record, the rest is what it was without that record's entry. */
  lemma PastRecord(bs: Blocks, b: nat, o: nat)
    requires Boundary(bs, b, o) && b < |bs| && bs[b].Some?
    ensures Fits(bs[b].value, o)
    ensures var d, q := bs[b].value, Next(bs[b].value, o);
            if q == BLOCK_SIZE then
              Boundary(bs, b + 1, 0) && Remaining(bs, b, o) == At(d, o) + Remaining(bs, b + 1, 0)
            else
              Boundary(bs, b, q) && Remaining(bs, b, o) == At(d, o) + Remaining(bs, b, q)
  {
    var d := bs[b].value;
    assert BlockOk(bs[b]);
    StepOver(d, o);
    Rest(d, 0, o);
    var q := Next(d, o);
    Regroup(At(d, o), Live(d, q), AllFrom(bs, b + 1));
    if q == BLOCK_SIZE {
      AtBlockStart(bs, b + 1);
      assert [] + AllFrom(bs, b + 1) == AllFrom(bs, b + 1);
    }
  }

  function BlockOf(pos: nat): nat {
    pos / 4096
  }

  function OffsetIn(pos: nat): nat {
    pos % 4096
  }

  function Position(b: nat, o: nat): nat {
    b * 4096 + o
  }

  ghost predicate Good(bs: Blocks, pos: nat) {
    Boundary(bs, BlockOf(pos), OffsetIn(pos))
  }

  /** The live entries from file position `pos` on. */
  ghost function Left(bs: Blocks, pos: nat): Entries
    requires Good(bs, pos)
  {
    Remaining(bs, BlockOf(pos), OffsetIn(pos))
  }

  /** Block and offset of a position given by them. */
  lemma PositionParts(b: nat, o: nat)
    requires o <= 4096
    ensures o < 4096 ==> BlockOf(Position(b, o)) == b && OffsetIn(Position(b, o)) == o
    ensures o == 4096 ==> BlockOf(Position(b, o)) == b + 1 && OffsetIn(Position(b, o)) == 0
  {
  }

  lemma PastHole(bs: Blocks, b: nat, o: nat)
    requires Boundary(bs, b, o) && b < |bs| && bs[b].None?
    ensures var pos, next := Position(b, o), Position(b + 1, 0);
            Good(bs, pos) && Good(bs, next) && Left(bs, next) == Left(bs, pos)
  {
    AtBlockStart(bs, b + 1);
    PositionParts(b, o);
    PositionParts(b + 1, 0);
  }

  lemma PastPosition(bs: Blocks, b: nat, o: nat)
    requires Boundary(bs, b, o) && b < |bs| && bs[b].Some?
    ensures Fits(bs[b].value, o)
    ensures var pos, next := Position(b, o), Position(b, Next(bs[b].value, o));
            Good(bs, pos) && Good(bs, next) && Left(bs, pos) == At(bs[b].value, o) + Left(bs, next)
  {
    PastRecord(bs, b, o);
    PositionParts(b, o);
    PositionParts(b, Next(bs[b].value, o));
  }

  lemma NothingAtEnd(bs: Blocks, pos: nat)
    requires Good(bs, pos) && pos >= Position(|bs|, 0)
    ensures Left(bs, pos) == []
  {
    assert BlockOf(pos) >= |bs|;
  }

  predicate OpenRead(out: Entries, pos: nat, w: int) {
    true
  }

  /** `out` has been read, from what was left at first, when the position is `pos`; looked into by mentioning `OpenRead`. */
  ghost predicate ReadUpTo(bs: Blocks, all: Entries, out: Entries, pos: nat) {
    forall w {:trigger OpenRead(out, pos, w)} :: OpenRead(out, pos, w) ==> Good(bs, pos) && out + Left(bs, pos) == all
  }

  lemma ReadIs(bs: Blocks, all: Entries, out: Entries, pos: nat)
    requires ReadUpTo(bs, all, out, pos)
    ensures Good(bs, pos) && out + Left(bs, pos) == all
  {
    assert OpenRead(out, pos, 0);
  }

  lemma ReadNothing(bs: Blocks, pos: nat)
    requires Good(bs, pos)
    ensures ReadUpTo(bs, Left(bs, pos), [], pos)
  {
    assert [] + Left(bs, pos) == Left(bs, pos);
  }

  lemma ReadOn(bs: Blocks, all: Entries, out: Entries, pos: nat, e: Entries, next: nat)
    requires ReadUpTo(bs, all, out, pos) && Good(bs, pos) && Good(bs, next) && Left(bs, pos) == e + Left(bs, next)
    ensures ReadUpTo(bs, all, out + e, next)
  {
    assert OpenRead(out, pos, 0);
    Regroup(out, e, Left(bs, next));
  }

  /** How many entries the first `n` calls have room for. */
  function RoomIn(rooms: seq<nat>, n: nat): nat
    requires n <= |rooms|
  {
    if n == 0 then 0 else RoomIn(rooms, n - 1) + rooms[n - 1]
  }

  class Dir {
    var blocks: Blocks

    ghost predicate Valid()
      reads this
    {
      AllTiled(blocks) && Unique(All(blocks))
    }

    /** The directory as a program sees it. */
    ghost function Names(): map<Bytes, Target>
      requires Valid()
      reads this
    {
      NameMap(All(blocks))
    }

    constructor ()
      ensures Valid() && Names() == map[]
    {
      blocks := [];
    }

    /** `ext2_find_entry`: block and offset of the live record with that name. */
    method FindEntry(name: Bytes) returns (r: Option<(nat, nat)>)
      requires Valid()
      ensures r.Some? <==> name in Names()
      ensures r.Some? ==>
                var (b, o) := r.value;
                && b < |blocks| && blocks[b].Some? && o < BLOCK_SIZE && Leads(blocks[b].value, 0, o)
                && Fits(blocks[b].value, o) && Match(blocks[b].value, o, name)
                && Names()[name] == Target(Ino(blocks[b].value, o), Kind(blocks[b].value, o))
    {
      var i := 0;
      while i < |blocks|
        invariant i <= |blocks| && AllTiled(blocks[..i]) && !HasName(All(blocks[..i]), name)
      {
        if blocks[i].Some? {
          assert BlockOk(blocks[i]);
          var o := FindIn(blocks[i].value, name);
          if o.Some? {
            FoundIsBound(blocks, i, o.value, name);
            return Some((i, o.value));
          }
        }
        AllUpTo(blocks, i, name);
        i := i + 1;
      }
      assert blocks[..i] == blocks;
      NameMapFacts(All(blocks));
      return None;
    }

    /** `ext2_add_entry`; `canGrow` is whether a further block can be allocated. */
    method AddEntry(e: Entry, canGrow: bool) returns (r: Errno)
      requires Valid() && Storable(e.name, e.ino)
      modifies this
      ensures Valid()
      ensures r == EEXIST <==> e.name in old(Names())
      ensures r == Ok ==> Names() == old(Names())[e.name := Target(e.ino, e.kind)]
      ensures r != Ok ==> blocks == old(blocks)
      ensures r == EEXIST || r == Ok || (r == ENOSPC && !canGrow)
      ensures r == ENOSPC || |blocks| != |old(blocks)| ==> AllFull(old(blocks), Need(|e.name|))
    {
      var found := FindEntry(e.name);
      if found.Some? {
        return EEXIST;
      }
      assert !HasName(All(blocks), e.name) by {
        NameMapFacts(All(blocks));
      }
      var placed := PlaceEntry(e);
      if !placed {
        if !canGrow {
          return ENOSPC;
        }
        FreshFacts(blocks, e);
        blocks := blocks + [Some(FreshBlock(e))];
      }
      AddedMap(All(old(blocks)), All(blocks), e);
      return Ok;
    }

    /** The search for room: the first block that has some takes the entry. */
    method PlaceEntry(e: Entry) returns (placed: bool)
      requires AllTiled(blocks) && Storable(e.name, e.ino)
      modifies this
      ensures AllTiled(blocks) && |blocks| == |old(blocks)|
      ensures placed ==> Added(All(old(blocks)), All(blocks), e)
      ensures !placed ==> blocks == old(blocks) && AllFull(blocks, Need(|e.name|))
    {
      var i := 0;
      while i < |blocks|
        invariant i <= |blocks| && blocks == old(blocks)
        invariant forall j :: 0 <= j < i ==> Full(blocks[j], Need(|e.name|))
      {
        if blocks[i].Some? {
          assert BlockOk(blocks[i]);
          var d := AddIn(blocks[i].value, e);
          if d.Some? {
            BlockAdded(blocks, i, d.value, e);
            blocks := blocks[i := d];
            return true;
          }
        }
        i := i + 1;
      }
      return false;
    }

    /** `ext2_delete_entry` */
    method DeleteEntry(name: Bytes) returns (r: Errno)
      requires Valid()
      modifies this
      ensures Valid()
      ensures r == if name in old(Names()) then Ok else ENOENT
      ensures Names() == old(Names()) - {name}
      ensures r == ENOENT ==> blocks == old(blocks)
    {
      var i := 0;
      while i < |blocks|
        invariant i <= |blocks| && blocks == old(blocks)
        invariant AllTiled(blocks[..i]) && !HasName(All(blocks[..i]), name)
      {
        if blocks[i].Some? {
          assert BlockOk(blocks[i]);
          var d := DeleteIn(blocks[i].value, name);
          if d.Some? {
            EntryDropped(blocks, i, d.value, name);
            blocks := blocks[i := d];
            return Ok;
          }
        }
        AllUpTo(blocks, i, name);
        i := i + 1;
      }
      assert blocks[..i] == blocks;
      NotBound(blocks, name);
      return ENOENT;
    }

    /** `ext2_replace_entry` */
    method ReplaceEntry(name: Bytes, ino: nat, kind: Byte) returns (r: Errno)
      requires Valid() && Storable(name, ino)
      modifies this
      ensures Valid()
      ensures r == if name in old(Names()) then Ok else ENOENT
      ensures r == Ok ==> Names() == old(Names())[name := Target(ino, kind)]
      ensures r == ENOENT ==> blocks == old(blocks)
    {
      var found := FindEntry(name);
      if found.None? {
        return ENOENT;
      }
      var (b, o) := found.value;
      var d := blocks[b].value;
      var d' := SetTarget(d, o, Bytes32(ino), kind);
      assert BlockOk(blocks[b]);
      Bytes32RoundTrip(ino);
      RetargetFacts(d, o, Bytes32(ino), kind);
      BlockChanged(blocks, b, d', Entry(name, ino, kind));
      ChangedMap(All(blocks), All(blocks[b := Some(d')]), Entry(name, ino, kind));
      blocks := blocks[b := Some(d')];
      return Ok;
    }

    /**
     The record at a position: its entry, if it is live, and where the next one starts; a hole
     is skipped whole.  `out` was read before, of `all` there was at first.
     */
    method NextRecord(pos: nat, ghost all: Entries, ghost out: Entries) returns (e: Entries, next: nat)
      requires Valid() && ReadUpTo(blocks, all, out, pos) && pos < Position(|blocks|, 0)
      ensures pos < next && |e| <= 1 && ReadUpTo(blocks, all, out + e, next)
      ensures e != [] ==> Good(blocks, pos) && Left(blocks, pos) != []
    {
      ReadIs(blocks, all, out, pos);
      var b, o := BlockOf(pos), OffsetIn(pos);
      assert pos == Position(b, o) && b < |blocks|;
      if blocks[b].None? {
        PastHole(blocks, b, o);
        e, next := [], Position(b + 1, 0);
      } else {
        var d := blocks[b].value;
        PastPosition(blocks, b, o);
        e := if Ino(d, o) == 0 then [] else [Entry(Name(d, o), Ino(d, o), Kind(d, o))];
        next := Position(b, Next(d, o));
      }
      ReadOn(blocks, all, out, pos, e, next);
    }

    /**
     `ext2_readdir` from file position `pos`, with a callback that takes `room` entries
     and refuses the next: emits a prefix of what remains and stops where it ends.
     */
    method ReadDir(pos: nat, room: nat) returns (out: Entries, pos': nat, r: Errno)
      requires Valid() && Good(blocks, pos)
      ensures Good(blocks, pos') && |out| <= room && out + Left(blocks, pos') == Left(blocks, pos)
      ensures r == Ok ==> Left(blocks, pos') == []
      ensures r != Ok ==> |out| == room && Left(blocks, pos') != []
    {
      ghost var all := Left(blocks, pos);
      out, pos' := [], pos;
      ReadNothing(blocks, pos);
      while pos' < Position(|blocks|, 0)
        invariant ReadUpTo(blocks, all, out, pos') && |out| <= room
        decreases Position(|blocks|, 0) - pos'
      {
        var e, next := NextRecord(pos', all, out);
        if e != [] && |out| == room {
          ReadIs(blocks, all, out, pos');
          return out, pos', EREFUSED;
        }
        out, pos' := out + e, next;
      }
      ReadIs(blocks, all, out, pos');
      NothingAtEnd(blocks, pos');
      r := Ok;
    }

    /**
     Reading in parts: however often the callback refuses, the parts are the live entries in
     order, each exactly once, as many as there was room for; the last part is not refused
     exactly when there was room for all.
     */
    method ReadInParts(rooms: seq<nat>) returns (out: Entries, done: bool)
      requires Valid()
      ensures out == All(blocks)[..Min(RoomIn(rooms, |rooms|), |All(blocks)|)]
      ensures done <==> rooms != [] && RoomIn(rooms, |rooms|) >= |All(blocks)|
    {
      var pos := 0;
      AtBlockStart(blocks, 0);
      AllFromIsRest(blocks, 0);
      out, done := [], false;
      ghost var all := All(blocks);
      assert All(blocks[..0]) == [];
      ReadNothing(blocks, 0);
      for i := 0 to |rooms|
        invariant ReadUpTo(blocks, all, out, pos) && |out| == Min(RoomIn(rooms, i), |all|)
        invariant done <==> i > 0 && RoomIn(rooms, i) >= |all|
      {
        ReadIs(blocks, all, out, pos);
        var part, next, r := ReadDir(pos, rooms[i]);
        ReadOn(blocks, all, out, pos, part, next);
        out, pos, done := out + part, next, r == Ok;
      }
      ReadIs(blocks, all, out, pos);
    }
  }
}
