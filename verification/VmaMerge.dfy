/**
 `vma_merge_all` as a function of the table.  Merging keeps everything a program sees
 except, in one branch, the file offset: when the lower area sits in the higher slot,
 the merged area's start moves down but its offset does not.
 */
module VmaMerge {
  import opened Wrappers
  import opened VmaTable

  predicate CanMerge(a: Vma, b: Vma) {
    && a.used && b.used
    && a.flags == b.flags && a.kind == b.kind && a.file == b.file && a.shared == b.shared
    && (if a.file != 0 then
          if a.end == b.start then a.start <= a.end && OffsetAt(a, a.end) == b.offset
          else b.end == a.start && b.start <= b.end && OffsetAt(b, b.end) == a.offset
        else a.end == b.start || b.end == a.start)
  }

  /** What area `v` becomes when it absorbs its neighbour `w`. */
  function Merged(v: Vma, w: Vma): Vma {
    if v.end == w.start then v.(end := w.end) else v.(start := w.start)
  }

  /** Area `j` is absorbed into area `i`. */
  function MergePair(t: Table, i: nat, j: nat): Table
    requires i < NR_VMA && j < NR_VMA
  {
    t[i := Merged(t[i], t[j])][j := FREE_SLOT]
  }

  /** The first mergeable pair in scan order from `(i, j)` on, or `(NR_VMA, 0)`. */
  function FirstPair(t: Table, i: nat, j: nat): (p: (nat, nat))
    requires i <= NR_VMA && j <= NR_VMA
    ensures p.0 == NR_VMA || (p.0 < NR_VMA && p.1 < NR_VMA && p.0 != p.1 && CanMerge(t[p.0], t[p.1]))
    decreases NR_VMA - i, NR_VMA - j
  {
    if i == NR_VMA then (NR_VMA, 0)
    else if j == NR_VMA then FirstPair(t, i + 1, 0)
    else if i != j && CanMerge(t[i], t[j]) then (i, j)
    else FirstPair(t, i, j + 1)
  }

  lemma {:induction false} NoPairLeft(t: Table, i: nat, j: nat, x: nat, y: nat)
    requires i <= NR_VMA && j <= NR_VMA && FirstPair(t, i, j).0 == NR_VMA
    requires x < NR_VMA && y < NR_VMA && x != y && (i < x || (i == x && j <= y))
    ensures !CanMerge(t[x], t[y])
    decreases NR_VMA - i, NR_VMA - j
  {
    if j == NR_VMA {
      NoPairLeft(t, i + 1, 0, x, y);
    } else if i != x || j != y {
      NoPairLeft(t, i, j + 1, x, y);
    }
  }

  ghost function Used(t: Table): nat {
    NR_VMA - CountFreeBounded(t)
  }

  ghost function CountFreeBounded(t: Table): (n: nat)
    ensures n == CountFree(t) && n <= NR_VMA
  {
    CountAtMost(t);
    CountFree(t)
  }

  lemma {:induction false} CountAtMost(t: seq<Vma>)
    ensures CountFree(t) <= |t|
  {
    if t != [] {
      CountAtMost(t[..|t| - 1]);
    }
  }

  /** Each merge frees one slot. */
  lemma MergeFrees(t: Table, i: nat, j: nat, f: nat)
    requires i < NR_VMA && j < NR_VMA && i != j && CanMerge(t[i], t[j])
    ensures Used(MergePair(t, i, j)) == Used(t) - 1
    ensures CountFile(MergePair(t, i, j), f) + Bit(NamesFile(t[j], f)) == CountFile(t, f)
  {
    var v := Merged(t[i], t[j]);
    Recount(t, i, v, f, 0, 0, 0);
    Recount(t[i := v], j, FREE_SLOT, f, 0, 0, 0);
  }

  /** `vma_merge_all`. */
  ghost function MergeAll(t: Table): Table
    decreases Used(t)
  {
    var p := FirstPair(t, 0, 0);
    if p.0 == NR_VMA then t
    else
      MergeFrees(t, p.0, p.1, 0);
      MergeAll(MergePair(t, p.0, p.1))
  }

  // ---- One merge ----

  /** The branch that keeps offsets right. */
  predicate Keeps(v: Vma, w: Vma) {
    v.file == 0 || v.end == w.start
  }

  lemma MergeApart(t: Table, i: nat, j: nat)
    requires WellFormed(t) && i < NR_VMA && j < NR_VMA && i != j && CanMerge(t[i], t[j])
    ensures WellFormed(MergePair(t, i, j))
  {
    var t' := MergePair(t, i, j);
    assert Sane(t[i]) && Sane(t[j]) && Apart(t[i], t[j]);
    forall x, y | 0 <= x < NR_VMA && 0 <= y < NR_VMA && x != y ensures Apart(t'[x], t'[y]) {
      assert Apart(t[x], t[y]) && Sane(t[x]) && Sane(t[y]);
      if x == i { assert Apart(t[j], t[y]) || y == j; }
      if y == i { assert Apart(t[x], t[j]) || x == j; }
    }
    forall x | 0 <= x < NR_VMA ensures Sane(t'[x]) {
      assert Sane(t[x]);
    }
  }

  /** `c'` is `c` with its file offset moved up by `s`. */
  ghost predicate Shift(c: Option<Cell>, c': Option<Cell>, s: nat) {
    if c.None? then c' == None
    else c'.Some? && c'.value == c.value.(offset := if c.value.file == 0 then 0 else (c.value.offset + s) % U64)
  }

  /** How far absorbing `w` moves the file offsets of both areas. */
  function MovedBy(v: Vma, w: Vma): nat {
    if Keeps(v, w) || v.start < w.start then 0 else v.start - w.start
  }

  ghost function Moved(t: Table, i: nat, j: nat, a: nat): nat
    requires i < NR_VMA && j < NR_VMA
  {
    if Holds(t[i], a) || Holds(t[j], a) then MovedBy(t[i], t[j]) else 0
  }

  lemma ShiftZero(t: Table, a: nat)
    ensures Shift(View(t, a), View(t, a), 0)
  {
  }

  function OldCell(v: Vma, w: Vma, a: nat): Cell
    requires Holds(v, a) || Holds(w, a)
  {
    if Holds(v, a) then CellAt(v, a) else CellAt(w, a)
  }

  lemma MergedCell(v: Vma, w: Vma, a: nat)
    requires CanMerge(v, w) && Sane(v) && Sane(w) && Apart(v, w) && (Holds(v, a) || Holds(w, a))
    ensures Holds(Merged(v, w), a)
    ensures Shift(Some(OldCell(v, w, a)), Some(CellAt(Merged(v, w), a)), MovedBy(v, w))
  {
    if v.file != 0 {
      if v.end == w.start {
        MergedUp(v, w, a);
      } else {
        MergedDown(v, w, a);
      }
    }
  }

  lemma MergedUp(v: Vma, w: Vma, a: nat)
    requires v.start < v.end == w.start && w.offset == OffsetAt(v, v.end) && w.start < w.end
    requires Holds(v, a) || Holds(w, a)
    ensures (if Holds(v, a) then OffsetAt(v, a) else OffsetAt(w, a)) % U64 == OffsetAt(v.(end := w.end), a)
  {
    if !Holds(v, a) {
      ModAdds(v.offset + (v.end - v.start), a - w.start);
    }
  }

  lemma MergedDown(v: Vma, w: Vma, a: nat)
    requires w.start < w.end == v.start && v.offset == OffsetAt(w, w.end) && v.start < v.end
    requires Holds(v, a) || Holds(w, a)
    ensures ((if Holds(v, a) then OffsetAt(v, a) else OffsetAt(w, a)) + (v.start - w.start)) % U64
            == OffsetAt(v.(start := w.start), a)
  {
    var len := v.start - w.start;
    if Holds(v, a) {
      ModAdds(v.offset + (a - v.start), len);
    } else {
      ModAdds(w.offset + len, a - w.start);
      ModAdds(w.offset + (a - w.start), len);
    }
  }

  lemma MergeViewIn(t: Table, i: nat, j: nat, a: nat)
    requires i < NR_VMA && j < NR_VMA && i != j && CanMerge(t[i], t[j])
    requires WellFormed(t) && WellFormed(MergePair(t, i, j))
    requires Holds(t[i], a) || Holds(t[j], a)
    ensures Shift(View(t, a), View(MergePair(t, i, j), a), Moved(t, i, j, a))
  {
    assert Sane(t[i]) && Sane(t[j]) && Apart(t[i], t[j]);
    MergedCell(t[i], t[j], a);
    ViewHeld(t, if Holds(t[i], a) then i else j, a);
    ViewHeld(MergePair(t, i, j), i, a);
  }

  lemma MergeViewOut(t: Table, i: nat, j: nat, a: nat)
    requires i < NR_VMA && j < NR_VMA && i != j && CanMerge(t[i], t[j])
    requires WellFormed(t) && WellFormed(MergePair(t, i, j))
    requires !Holds(t[i], a) && !Holds(t[j], a)
    ensures View(t, a) == View(MergePair(t, i, j), a)
  {
    var t' := MergePair(t, i, j);
    assert Sane(t[i]) && Sane(t[j]) && Apart(t[i], t[j]);
    var x := FindFrom(t, a, 0);
    if x < NR_VMA {
      SameView(t, x, t', x, a);
    } else {
      ViewNone(t', a);
    }
  }

  /** One merge moves file offsets by `Moved` and changes nothing else a program sees. */
  lemma MergeView(t: Table, i: nat, j: nat, a: nat)
    requires WellFormed(t) && i < NR_VMA && j < NR_VMA && i != j && CanMerge(t[i], t[j])
    ensures Shift(View(t, a), View(MergePair(t, i, j), a), Moved(t, i, j, a))
  {
    MergeApart(t, i, j);
    if Holds(t[i], a) || Holds(t[j], a) {
      MergeViewIn(t, i, j, a);
    } else {
      MergeViewOut(t, i, j, a);
      ShiftZero(t, a);
    }
  }

  // ---- The whole run ----

  /** No merge of file-backed areas in the run absorbs a lower neighbour. */
  ghost predicate AllKeep(t: Table)
    decreases Used(t)
  {
    var p := FirstPair(t, 0, 0);
    p.0 == NR_VMA ||
    (MergeFrees(t, p.0, p.1, 0);
     Keeps(t[p.0], t[p.1]) && AllKeep(MergePair(t, p.0, p.1)))
  }

  /** Everything but the file offset. */
  function Attributes(c: Option<Cell>): Option<Cell> {
    if c.None? then None else Some(c.value.(offset := 0))
  }

  /**
   The run ends with no mergeable pair, keeps areas apart, and leaves mapped-ness,
   flags, type, file and sharing of every address as they were.
   */
  lemma {:induction false} MergeAllFacts(t: Table)
    requires WellFormed(t)
    ensures WellFormed(MergeAll(t))
    ensures forall i, j :: 0 <= i < NR_VMA && 0 <= j < NR_VMA && i != j ==> !CanMerge(MergeAll(t)[i], MergeAll(t)[j])
    ensures forall a: nat :: Attributes(View(MergeAll(t), a)) == Attributes(View(t, a))
    decreases Used(t)
  {
    var p := FirstPair(t, 0, 0);
    if p.0 == NR_VMA {
      forall i, j | 0 <= i < NR_VMA && 0 <= j < NR_VMA && i != j ensures !CanMerge(t[i], t[j]) {
        NoPairLeft(t, 0, 0, i, j);
      }
    } else {
      MergeFrees(t, p.0, p.1, 0);
      MergeApart(t, p.0, p.1);
      var t' := MergePair(t, p.0, p.1);
      MergeAllFacts(t');
      forall a: nat ensures Attributes(View(MergeAll(t), a)) == Attributes(View(t, a)) {
        MergeView(t, p.0, p.1, a);
        assert Attributes(View(MergeAll(t'), a)) == Attributes(View(t', a));
      }
    }
  }

  lemma ShiftTwice(c: Option<Cell>, c1: Option<Cell>, c2: Option<Cell>, s: nat, r: nat)
    requires Shift(c, c1, s) && Shift(c1, c2, r)
    ensures Shift(c, c2, s + r)
  {
    if c.Some? {
      ModAdds(c.value.offset + s, r);
    }
  }

  /** Every merge moves offsets up, by less than the size of the address space. */
  lemma {:induction false} TotalShift(t: Table, a: nat) returns (s: nat)
    requires WellFormed(t)
    ensures Shift(View(t, a), View(MergeAll(t), a), s) && s <= Used(t) * TASK_SIZE
    decreases Used(t)
  {
    var p := FirstPair(t, 0, 0);
    if p.0 == NR_VMA {
      ShiftZero(t, a);
      s := 0;
    } else {
      StepShift(t, p.0, p.1, a);
      var t' := MergePair(t, p.0, p.1);
      var rest := TotalShift(t', a);
      s := AddShift(View(t, a), View(t', a), View(MergeAll(t'), a), Moved(t, p.0, p.1, a), rest);
    }
  }

  lemma StepShift(t: Table, i: nat, j: nat, a: nat)
    requires WellFormed(t) && i < NR_VMA && j < NR_VMA && i != j && CanMerge(t[i], t[j])
    ensures WellFormed(MergePair(t, i, j)) && Used(MergePair(t, i, j)) == Used(t) - 1
    ensures Shift(View(t, a), View(MergePair(t, i, j), a), Moved(t, i, j, a)) && Moved(t, i, j, a) <= TASK_SIZE
  {
    MergeFrees(t, i, j, 0);
    MergeApart(t, i, j);
    MergeView(t, i, j, a);
    assert Sane(t[i]);
  }

  lemma AddShift(c: Option<Cell>, c1: Option<Cell>, c2: Option<Cell>, s: nat, r: nat) returns (sum: nat)
    requires Shift(c, c1, s) && Shift(c1, c2, r)
    ensures sum == s + r && Shift(c, c2, sum)
  {
    ShiftTwice(c, c1, c2, s, r);
    sum := s + r;
  }

  lemma ShiftVisible(c: Option<Cell>, c': Option<Cell>, s: nat)
    requires Shift(c, c', s) && c.Some? && c.value.file != 0 && c.value.offset < U64 && 0 < s < U64
    ensures c' != c
  {
  }

  /** One absorbed lower neighbour is enough to spoil an offset for good. */
  lemma {:induction false} SpoiledOffset(t: Table) returns (a: nat)
    requires WellFormed(t) && !AllKeep(t)
    ensures View(MergeAll(t), a) != View(t, a)
    decreases Used(t)
  {
    var p := FirstPair(t, 0, 0);
    var t' := MergePair(t, p.0, p.1);
    MergeFrees(t, p.0, p.1, 0);
    if Keeps(t[p.0], t[p.1]) {
      MergeApart(t, p.0, p.1);
      a := SpoiledOffset(t');
      KeptView(t, p.0, p.1, a);
    } else {
      a := SpoiltHere(t, p.0, p.1);
    }
  }

  lemma SpoiltHere(t: Table, i: nat, j: nat) returns (a: nat)
    requires WellFormed(t) && i < NR_VMA && j < NR_VMA && i != j && CanMerge(t[i], t[j]) && !Keeps(t[i], t[j])
    ensures View(MergeAll(MergePair(t, i, j)), a) != View(t, a)
  {
    a := t[i].start;
    var t' := MergePair(t, i, j);
    assert Sane(t[i]) && Sane(t[j]) && Apart(t[i], t[j]);
    ViewHeld(t, i, a);
    StepShift(t, i, j, a);
    var rest := TotalShift(t', a);
    var s := AddShift(View(t, a), View(t', a), View(MergeAll(t'), a), Moved(t, i, j, a), rest);
    ShiftVisible(View(t, a), View(MergeAll(t'), a), s);
  }

  lemma KeptView(t: Table, i: nat, j: nat, a: nat)
    requires WellFormed(t) && i < NR_VMA && j < NR_VMA && i != j && CanMerge(t[i], t[j]) && Keeps(t[i], t[j])
    ensures View(MergePair(t, i, j), a) == View(t, a)
  {
    MergeView(t, i, j, a);
    ShiftZero(t, a);
  }

  lemma {:induction false} KeptOffsets(t: Table, a: nat)
    requires WellFormed(t) && AllKeep(t)
    ensures View(MergeAll(t), a) == View(t, a)
    decreases Used(t)
  {
    var p := FirstPair(t, 0, 0);
    if p.0 < NR_VMA {
      MergeFrees(t, p.0, p.1, 0);
      MergeApart(t, p.0, p.1);
      KeptView(t, p.0, p.1, a);
      KeptOffsets(MergePair(t, p.0, p.1), a);
    }
  }

  /** Merging keeps every file offset exactly when no file-backed area absorbs a lower neighbour. */
  lemma OffsetsKeptIff(t: Table)
    requires WellFormed(t)
    ensures (forall a: nat :: View(MergeAll(t), a) == View(t, a)) <==> AllKeep(t)
  {
    if AllKeep(t) {
      forall a: nat ensures View(MergeAll(t), a) == View(t, a) {
        KeptOffsets(t, a);
      }
    } else {
      var a := SpoiledOffset(t);
    }
  }

  /** Two neighbouring areas of one file, the lower one in the higher slot, whose merge spoils the offsets. */
  lemma OffsetsCanBeSpoiled()
    ensures var lower := Vma(0x1000, 0x2000, 1, 8, 7, 0, false, true);
            var upper := Vma(0x2000, 0x3000, 1, 8, 7, 0x1000, false, true);
            var t := EmptyTable()[0 := upper][1 := lower];
            && WellFormed(t) && View(t, 0x2000) == Some(Cell(1, 8, 7, false, 0x1000))
            && View(MergeAll(t), 0x2000) == Some(Cell(1, 8, 7, false, 0x2000))
  {
    var lower := Vma(0x1000, 0x2000, 1, 8, 7, 0, false, true);
    var upper := Vma(0x2000, 0x3000, 1, 8, 7, 0x1000, false, true);
    var t := EmptyTable()[0 := upper][1 := lower];
    assert CanMerge(t[0], t[1]);
    assert FirstPair(t, 0, 1) == (0, 1);
    var t' := MergePair(t, 0, 1);
    assert t' == EmptyTable()[0 := upper.(start := 0x1000)];
    AloneDoesNotMerge(t', 0, 0);
    MergeFrees(t, 0, 1, 0);
    ViewHeld(t, 0, 0x2000);
    MergeApart(t, 0, 1);
    ViewHeld(t', 0, 0x2000);
  }

  lemma {:induction false} AloneDoesNotMerge(t: Table, i: nat, j: nat)
    requires forall k :: 0 < k < NR_VMA ==> !t[k].used
    requires i <= NR_VMA && j <= NR_VMA
    ensures FirstPair(t, i, j).0 == NR_VMA
    decreases NR_VMA - i, NR_VMA - j
  {
    if i < NR_VMA {
      if j == NR_VMA {
        AloneDoesNotMerge(t, i + 1, 0);
      } else {
        AloneDoesNotMerge(t, i, j + 1);
      }
    }
  }
}
