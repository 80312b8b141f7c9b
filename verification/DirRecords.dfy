/** Finding, adding, deleting and replacing a record in one directory block. */
module DirRecords {
  import opened Wrappers
  import opened DirBlock
  import opened DirNames

  /** A dead record long enough, or slack behind a record's own name. */
  predicate HasRoom(d: Bytes, o: nat, need: nat)
    requires Fits(d, o)
  {
    (Ino(d, o) == 0 && RecLen(d, o) >= need) || RecLen(d, o) - Need(NameLen(d, o)) >= need
  }

  /** No record on the way from `o` to `p` has room. */
  ghost predicate NoRoom(d: Bytes, o: nat, p: nat, need: nat)
    requires Leads(d, o, p)
    decreases BLOCK_SIZE - o
  {
    o == p || (!HasRoom(d, o, need) && NoRoom(d, Next(d, o), p, need))
  }

  lemma {:induction false} NoRoomExtend(d: Bytes, o: nat, p: nat, need: nat)
    requires Leads(d, o, p) && p < BLOCK_SIZE && Fits(d, p) && Leads(d, o, Next(d, p))
    requires NoRoom(d, o, p, need) && !HasRoom(d, p, need)
    ensures NoRoom(d, o, Next(d, p), need)
    decreases BLOCK_SIZE - o
  {
    if o != p {
      LeadsBelow(d, Next(d, o), p);
      NoRoomExtend(d, Next(d, o), p, need);
    }
  }

  /** The walk is at the record at `o` and may go past it. */
  lemma StepOver(d: Bytes, o: nat)
    requires Tiled(d, 0) && Leads(d, 0, o) && o < BLOCK_SIZE
    ensures Fits(d, o) && Leads(d, 0, Next(d, o)) && Between(d, 0, Next(d, o)) == Between(d, 0, o) + At(d, o)
  {
    Rest(d, 0, o);
    Extend(d, 0, o);
  }

  lemma WholeWalk(d: Bytes)
    requires Tiled(d, 0) && Leads(d, 0, BLOCK_SIZE)
    ensures Live(d, 0) == Between(d, 0, BLOCK_SIZE)
  {
    Join(d, 0, BLOCK_SIZE);
  }

  lemma AtName(d: Bytes, o: nat, name: Bytes)
    requires Fits(d, o)
    ensures HasName(At(d, o), name) <==> Match(d, o, name)
  {
    if Match(d, o, name) {
      assert At(d, o)[0].name == name;
    }
  }

  lemma Passed(d: Bytes, o: nat, name: Bytes)
    requires Tiled(d, 0) && Leads(d, 0, o) && o < BLOCK_SIZE && Fits(d, o)
    requires !HasName(Between(d, 0, o), name) && !Match(d, o, name)
    ensures Leads(d, 0, Next(d, o)) && !HasName(Between(d, 0, Next(d, o)), name)
  {
    StepOver(d, o);
    AtName(d, o, name);
    HasNameSplit(Between(d, 0, o), At(d, o), name);
  }

  /** The inner loop of `ext2_find_entry`: where the name is, if the block has it. */
  method FindIn(d: Bytes, name: Bytes) returns (r: Option<nat>)
    requires Tiled(d, 0)
    ensures r.Some? ==> r.value < BLOCK_SIZE && Leads(d, 0, r.value) && Fits(d, r.value) && Match(d, r.value, name)
    ensures r.None? ==> !HasName(Live(d, 0), name)
  {
    var o := 0;
    while o + 8 <= BLOCK_SIZE
      invariant o <= BLOCK_SIZE && Leads(d, 0, o) && !HasName(Between(d, 0, o), name)
      decreases BLOCK_SIZE - o
    {
      StepOver(d, o);
      if Match(d, o, name) {
        return Some(o);
      }
      Passed(d, o, name);
      o := Next(d, o);
    }
    Rest(d, 0, o);
    WholeWalk(d);
    return None;
  }

  // ---- The four ways a block changes ----

  /** The records from `p` to `q` of `d'` replace those of `d`. */
  ghost predicate Rewritten(d: Bytes, d': Bytes, p: nat, q: nat) {
    && Tiled(d, 0) && Leads(d, 0, p) && Leads(d, p, q) && Leads(d', p, q)
    && SameBytes(d, d', 0, p) && SameBytes(d, d', q, BLOCK_SIZE)
  }

  lemma InsertsEntry(d: Bytes, d': Bytes, p: nat, q: nat, keep: Entries, e: Entry)
    requires Rewritten(d, d', p, q) && Between(d, p, q) == keep && Between(d', p, q) == keep + [e]
    ensures Tiled(d', 0) && Added(Live(d, 0), Live(d', 0), e)
  {
    Rewrite(d, d', p, q);
    var a, c := Between(d, 0, p), Live(d, q);
    Regroup(a, keep, [e]);
    PutInParts(a + keep, e, c);
  }

  lemma DropsEntry(d: Bytes, d': Bytes, p: nat, q: nat, keep: Entries, e: Entry)
    requires Rewritten(d, d', p, q) && Between(d, p, q) == keep + [e] && Between(d', p, q) == keep
    ensures Tiled(d', 0) && Dropped(Live(d, 0), Live(d', 0), e.name)
  {
    Rewrite(d, d', p, q);
    var a, c := Between(d, 0, p), Live(d, q);
    Regroup(a, keep, [e]);
    PutInParts(a + keep, e, c);
  }

  lemma ChangesEntry(d: Bytes, d': Bytes, p: nat, q: nat, e: Entry, e': Entry)
    requires Rewritten(d, d', p, q) && Between(d, p, q) == [e] && Between(d', p, q) == [e'] && e.name == e'.name
    ensures Tiled(d', 0) && Changed(Live(d, 0), Live(d', 0), e')
  {
    Rewrite(d, d', p, q);
    ChangeOne(Between(d, 0, p), e, e', Live(d, q));
  }

  lemma ChangeOne(a: Entries, e: Entry, e': Entry, c: Entries)
    requires e.name == e'.name
    ensures Changed(a + [e] + c, a + [e'] + c, e')
  {
    var es := a + [e] + c;
    assert es[|a|].name == e'.name;
    assert a + [e'] + c == es[|a| := e'];
  }

  /** A dead record taken over. */
  lemma ReuseFacts(d: Bytes, o: nat, e: Entry)
    requires Tiled(d, 0) && Leads(d, 0, o) && o < BLOCK_SIZE && Fits(d, o) && Ino(d, o) == 0
    requires Storable(e.name, e.ino) && RecLen(d, o) >= Need(|e.name|)
    ensures var d' := Init(d, o, RecLen(d, o), e.name, e.ino, e.kind);
            Tiled(d', 0) && Added(Live(d, 0), Live(d', 0), e)
  {
    var d' := Init(d, o, RecLen(d, o), e.name, e.ino, e.kind);
    InitFacts(d, o, RecLen(d, o), e.name, e.ino, e.kind);
    ReuseWalk(d, d', o, e);
  }

  lemma ReuseWalk(d: Bytes, d': Bytes, o: nat, e: Entry)
    requires Tiled(d, 0) && Leads(d, 0, o) && o < BLOCK_SIZE && Fits(d, o) && At(d, o) == []
    requires Fits(d', o) && Next(d', o) == Next(d, o) && At(d', o) == [e]
    requires SameBytes(d, d', 0, o) && SameBytes(d, d', Next(d, o), BLOCK_SIZE)
    ensures Tiled(d', 0) && Added(Live(d, 0), Live(d', 0), e)
  {
    OneStep(d, o);
    OneStep(d', o);
    assert [] + [e] == [e];
    InsertsEntry(d, d', o, Next(d, o), [], e);
  }

  function SplitAt(d: Bytes, o: nat, used: nat, spare: nat, e: Entry): Bytes
    requires Fits(d, o) && o + used + spare <= BLOCK_SIZE && Storable(e.name, e.ino) && spare >= 8 + |e.name|
  {
    Init(SetRecLen(d, o, used), o + used, spare, e.name, e.ino, e.kind)
  }

  lemma SplitRecords(d: Bytes, o: nat, used: nat, spare: nat, e: Entry)
    requires Fits(d, o) && Storable(e.name, e.ino) && used == Need(NameLen(d, o)) && spare >= Need(|e.name|)
    requires o + used + spare == Next(d, o)
    ensures var d' := SplitAt(d, o, used, spare, e);
            && Fits(d', o) && Next(d', o) == o + used && At(d', o) == At(d, o)
            && Fits(d', o + used) && Next(d', o + used) == Next(d, o) && At(d', o + used) == [e]
            && SameBytes(d, d', 0, o) && SameBytes(d, d', Next(d, o), BLOCK_SIZE)
  {
    var m, d' := SetRecLen(d, o, used), SplitAt(d, o, used, spare, e);
    SetRecLenFacts(d, o, used);
    InitFacts(m, o + used, spare, e.name, e.ino, e.kind);
    SameRecord(m, d', o, o + used);
  }

  /** A record split behind its own name. */
  lemma SplitFacts(d: Bytes, o: nat, used: nat, spare: nat, e: Entry)
    requires Tiled(d, 0) && Leads(d, 0, o) && o < BLOCK_SIZE && Fits(d, o)
    requires Storable(e.name, e.ino) && used == Need(NameLen(d, o)) && spare >= Need(|e.name|)
    requires o + used + spare == Next(d, o)
    ensures var d' := SplitAt(d, o, used, spare, e);
            Tiled(d', 0) && Added(Live(d, 0), Live(d', 0), e)
  {
    SplitRecords(d, o, used, spare, e);
    SplitWalk(d, SplitAt(d, o, used, spare, e), o, o + used, e);
  }

  lemma SplitWalk(d: Bytes, d': Bytes, o: nat, m: nat, e: Entry)
    requires Tiled(d, 0) && Leads(d, 0, o) && o < BLOCK_SIZE && Fits(d, o)
    requires Fits(d', o) && Next(d', o) == m && At(d', o) == At(d, o)
    requires m < BLOCK_SIZE && Fits(d', m) && Next(d', m) == Next(d, o) && At(d', m) == [e]
    requires SameBytes(d, d', 0, o) && SameBytes(d, d', Next(d, o), BLOCK_SIZE)
    ensures Tiled(d', 0) && Added(Live(d, 0), Live(d', 0), e)
  {
    OneStep(d, o);
    TwoSteps(d', o);
    InsertsEntry(d, d', o, Next(d, o), At(d, o), e);
  }

  /** The record before `o`, of length `recLen` now, swallows the one at `o`. */
  lemma MergeFacts(d: Bytes, prev: nat, o: nat, recLen: nat)
    requires Tiled(d, 0) && Leads(d, 0, prev) && prev < BLOCK_SIZE && Fits(d, prev)
    requires Next(d, prev) == o && o < BLOCK_SIZE && Fits(d, o) && Ino(d, o) != 0 && prev + recLen == Next(d, o)
    ensures var d' := SetRecLen(d, prev, recLen);
            Tiled(d', 0) && Dropped(Live(d, 0), Live(d', 0), Name(d, o))
  {
    assert Need(NameLen(d, prev)) <= Next(d, prev) - prev <= recLen;
    SetRecLenFacts(d, prev, recLen);
    MergeWalk(d, SetRecLen(d, prev, recLen), prev, o);
  }

  lemma MergeWalk(d: Bytes, d': Bytes, prev: nat, o: nat)
    requires Tiled(d, 0) && Leads(d, 0, prev) && prev < BLOCK_SIZE
    requires Fits(d, prev) && Next(d, prev) == o && o < BLOCK_SIZE && Fits(d, o) && Ino(d, o) != 0
    requires Fits(d', prev) && Next(d', prev) == Next(d, o) && At(d', prev) == At(d, prev)
    requires SameBytes(d, d', 0, prev) && SameBytes(d, d', Next(d, o), BLOCK_SIZE)
    ensures Tiled(d', 0) && Dropped(Live(d, 0), Live(d', 0), Name(d, o))
  {
    TwoSteps(d, prev);
    OneStep(d', prev);
    DropsEntry(d, d', prev, Next(d, o), At(d, prev), At(d, o)[0]);
  }

  /** The record at `o` bound to another inode, or to none. */
  lemma RetargetFacts(d: Bytes, o: nat, ino: Bytes, kind: Byte)
    requires Tiled(d, 0) && Leads(d, 0, o) && o < BLOCK_SIZE && Fits(d, o) && Ino(d, o) != 0 && |ino| == 4
    ensures var d' := SetTarget(d, o, ino, kind);
            && Tiled(d', 0)
            && (Value(ino) == 0 ==> Dropped(Live(d, 0), Live(d', 0), Name(d, o)))
            && (Value(ino) != 0 ==> Changed(Live(d, 0), Live(d', 0), Entry(Name(d, o), Value(ino), kind)))
  {
    SetTargetFacts(d, o, ino, kind);
    RetargetWalk(d, SetTarget(d, o, ino, kind), o, Value(ino), kind);
  }

  lemma RetargetWalk(d: Bytes, d': Bytes, o: nat, ino: nat, kind: Byte)
    requires Tiled(d, 0) && Leads(d, 0, o) && o < BLOCK_SIZE && Fits(d, o) && Ino(d, o) != 0
    requires Fits(d', o) && Next(d', o) == Next(d, o)
    requires At(d', o) == if ino == 0 then [] else [Entry(Name(d, o), ino, kind)]
    requires SameBytes(d, d', 0, o) && SameBytes(d, d', Next(d, o), BLOCK_SIZE)
    ensures Tiled(d', 0)
    ensures ino == 0 ==> Dropped(Live(d, 0), Live(d', 0), Name(d, o))
    ensures ino != 0 ==> Changed(Live(d, 0), Live(d', 0), Entry(Name(d, o), ino, kind))
  {
    OneStep(d, o);
    OneStep(d', o);
    var e := At(d, o)[0];
    if ino == 0 {
      assert [] + [e] == [e];
      DropsEntry(d, d', o, Next(d, o), [], e);
    } else {
      ChangesEntry(d, d', o, Next(d, o), e, Entry(Name(d, o), ino, kind));
    }
  }

  // ---- The loops of add and delete ----

  /** The inner loop of `ext2_add_entry`: the first record with room takes the entry. */
  method AddIn(d: Bytes, e: Entry) returns (r: Option<Bytes>)
    requires Tiled(d, 0) && Storable(e.name, e.ino)
    ensures r.Some? ==> Tiled(r.value, 0) && Added(Live(d, 0), Live(r.value, 0), e)
    ensures r.None? ==> Leads(d, 0, BLOCK_SIZE) && NoRoom(d, 0, BLOCK_SIZE, Need(|e.name|))
  {
    var need, o := Need(|e.name|), 0;
    while o + 8 <= BLOCK_SIZE
      invariant o <= BLOCK_SIZE && Leads(d, 0, o) && NoRoom(d, 0, o, need)
      decreases BLOCK_SIZE - o
    {
      StepOver(d, o);
      if Ino(d, o) == 0 && RecLen(d, o) >= need {
        ReuseFacts(d, o, e);
        return Some(Init(d, o, RecLen(d, o), e.name, e.ino, e.kind));
      }
      var used := Need(NameLen(d, o));
      var spare := RecLen(d, o) - used;
      if spare >= need {
        SplitFacts(d, o, used, spare, e);
        return Some(SplitAt(d, o, used, spare, e));
      }
      NoRoomExtend(d, 0, o, need);
      o := Next(d, o);
    }
    Rest(d, 0, o);
    return None;
  }

  /** The length of a record together with the next. */
  function JoinedLen(d: Bytes, prev: nat, o: nat): (r: nat)
    requires Fits(d, prev) && Fits(d, o) && Next(d, prev) == o
    ensures prev + r == Next(d, o) && r < 65536
  {
    RecLen(d, prev) + RecLen(d, o)
  }

  function Swallow(d: Bytes, prev: nat, o: nat, recLen: nat): Bytes
    requires Fits(d, prev) && Fits(d, o) && recLen < 65536
  {
    SetRecLen(d, prev, recLen)
  }

  /** The block after the record at `o` is deleted; `prev` is the record before it, if there is one. */
  function DeleteAt(d: Bytes, prev: Option<nat>, o: nat): Bytes
    requires Fits(d, o) && (prev.Some? ==> Fits(d, prev.value) && Next(d, prev.value) == o)
  {
    if prev.None? then SetTarget(d, o, [0, 0, 0, 0], Kind(d, o))
    else Swallow(d, prev.value, o, JoinedLen(d, prev.value, o))
  }

  lemma DeleteFirst(d: Bytes, o: nat)
    requires Tiled(d, 0) && Leads(d, 0, o) && o < BLOCK_SIZE && Fits(d, o) && Ino(d, o) != 0
    ensures var d' := SetTarget(d, o, [0, 0, 0, 0], Kind(d, o)); Tiled(d', 0) && Dropped(Live(d, 0), Live(d', 0), Name(d, o))
  {
    RetargetFacts(d, o, [0, 0, 0, 0], Kind(d, o));
  }

  lemma DeleteBehind(d: Bytes, prev: nat, o: nat, recLen: nat)
    requires Tiled(d, 0) && Leads(d, 0, prev) && Fits(d, prev) && Next(d, prev) == o
    requires o < BLOCK_SIZE && Fits(d, o) && Ino(d, o) != 0 && prev + recLen == Next(d, o)
    ensures var d' := Swallow(d, prev, o, recLen); Tiled(d', 0) && Dropped(Live(d, 0), Live(d', 0), Name(d, o))
  {
    MergeFacts(d, prev, o, recLen);
  }

  lemma DeleteAtFacts(d: Bytes, prev: Option<nat>, o: nat, name: Bytes)
    requires Tiled(d, 0) && Leads(d, 0, o) && o < BLOCK_SIZE && Fits(d, o) && Match(d, o, name)
    requires prev.Some? ==> Leads(d, 0, prev.value) && Fits(d, prev.value) && Next(d, prev.value) == o
    ensures Tiled(DeleteAt(d, prev, o), 0) && Dropped(Live(d, 0), Live(DeleteAt(d, prev, o), 0), name)
  {
    match prev
    case None => DeleteFirst(d, o);
    case Some(p) => DeleteBehind(d, p, o, JoinedLen(d, p, o));
  }

  /** The inner loop of `ext2_delete_entry`. */
  method DeleteIn(d: Bytes, name: Bytes) returns (r: Option<Bytes>)
    requires Tiled(d, 0)
    ensures r.Some? ==> Tiled(r.value, 0) && Dropped(Live(d, 0), Live(r.value, 0), name)
    ensures r.None? ==> !HasName(Live(d, 0), name)
  {
    var prev: Option<nat>, o := None, 0;
    while o + 8 <= BLOCK_SIZE
      invariant o <= BLOCK_SIZE && Leads(d, 0, o) && !HasName(Between(d, 0, o), name)
      invariant prev.Some? ==> Leads(d, 0, prev.value) && Fits(d, prev.value) && Next(d, prev.value) == o
      decreases BLOCK_SIZE - o
    {
      StepOver(d, o);
      if Match(d, o, name) {
        DeleteAtFacts(d, prev, o, name);
        return Some(DeleteAt(d, prev, o));
      }
      Passed(d, o, name);
      prev, o := Some(o), Next(d, o);
    }
    Rest(d, 0, o);
    WholeWalk(d);
    return None;
  }
}
