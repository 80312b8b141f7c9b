/**
 The fixed table of memory areas of an address space, as a value, and what it means to
 the program: for every address, whether it is mapped and with which flags, type,
 backing file, sharing and file offset.
 */
module VmaTable {
  import opened Wrappers

  const NR_VMA: nat := 16
  const TASK_SIZE: nat := 0x8000_0000
  const U64: nat := 0x1_0000_0000_0000_0000

  /** `struct vm_area_struct`; file 0 is "no file". */
  datatype Vma = Vma(
    start: nat, end: nat, flags: nat, kind: nat, file: nat, offset: nat, shared: bool, used: bool)

  const FREE_SLOT: Vma := Vma(0, 0, 0, 0, 0, 0, false, false)

  type Table = s: seq<Vma> | |s| == NR_VMA witness EmptyTable()

  function EmptyTable(): (s: seq<Vma>)
    ensures |s| == NR_VMA && forall i :: 0 <= i < NR_VMA ==> s[i] == FREE_SLOT
  {
    seq(NR_VMA, _ => FREE_SLOT)
  }

  predicate Holds(v: Vma, a: nat) {
    v.used && v.start <= a < v.end
  }

  predicate Overlaps(v: Vma, start: nat, end: nat) {
    v.used && start < v.end && end > v.start
  }

  predicate ContainsSplit(v: Vma, addr: nat) {
    v.used && addr > v.start && addr < v.end
  }

  /** 64-bit arithmetic wraps. */
  function OffsetAt(v: Vma, va: nat): nat
    requires va >= v.start
  {
    (v.offset + (va - v.start)) % U64
  }

  /** What the program sees at one address. */
  datatype Cell = Cell(flags: nat, kind: nat, file: nat, shared: bool, offset: nat)

  function CellAt(v: Vma, a: nat): Cell
    requires a >= v.start
  {
    Cell(v.flags, v.kind, v.file, v.shared, if v.file != 0 then OffsetAt(v, a) else 0)
  }

  /** `find_vma`: the first slot that holds the address, or `NR_VMA`. */
  function FindFrom(t: Table, a: nat, i: nat): (r: nat)
    requires i <= NR_VMA
    ensures i <= r <= NR_VMA && (r < NR_VMA ==> Holds(t[r], a))
    ensures forall j :: i <= j < r ==> !Holds(t[j], a)
    decreases NR_VMA - i
  {
    if i == NR_VMA || Holds(t[i], a) then i else FindFrom(t, a, i + 1)
  }

  function View(t: Table, a: nat): Option<Cell> {
    var i := FindFrom(t, a, 0);
    if i == NR_VMA then None else Some(CellAt(t[i], a))
  }

  // ---- Well-formed tables ----

  ghost predicate Sane(v: Vma) {
    v.used ==> v.start < v.end <= TASK_SIZE && v.offset < U64
  }

  ghost predicate Apart(v: Vma, w: Vma) {
    v.used && w.used ==> v.end <= w.start || w.end <= v.start
  }

  ghost predicate WellFormed(t: Table) {
    && (forall i {:trigger Sane(t[i])} :: 0 <= i < NR_VMA ==> Sane(t[i]))
    && (forall i, j {:trigger Apart(t[i], t[j])} :: 0 <= i < NR_VMA && 0 <= j < NR_VMA && i != j ==> Apart(t[i], t[j]))
  }

  lemma ViewHeld(t: Table, i: nat, a: nat)
    requires WellFormed(t) && i < NR_VMA && Holds(t[i], a)
    ensures View(t, a) == Some(CellAt(t[i], a))
  {
    var r := FindFrom(t, a, 0);
    assert r <= i;
    assert r == i || Apart(t[r], t[i]);
  }

  lemma ViewNone(t: Table, a: nat)
    requires forall i :: 0 <= i < NR_VMA ==> !Holds(t[i], a)
    ensures View(t, a) == None
  {
  }

  // ---- Counting slots ----

  ghost function CountFree(t: seq<Vma>): nat {
    if t == [] then 0 else CountFree(t[..|t| - 1]) + if t[|t| - 1].used then 0 else 1
  }

  /** Slots that name file `f`. */
  ghost function CountFile(t: seq<Vma>, f: nat): nat {
    if t == [] then 0 else CountFile(t[..|t| - 1], f) + if NamesFile(t[|t| - 1], f) then 1 else 0
  }

  ghost predicate NamesFile(v: Vma, f: nat) {
    v.used && v.file == f
  }

  /** Areas that contain `addr` strictly inside. */
  ghost function CountSplit(t: seq<Vma>, addr: nat): nat {
    if t == [] then 0 else CountSplit(t[..|t| - 1], addr) + if ContainsSplit(t[|t| - 1], addr) then 1 else 0
  }

  predicate NeedsTwo(v: Vma, start: nat, end: nat) {
    Overlaps(v, start, end) && start > v.start && end < v.end
  }

  /** Areas from which the range is cut out of the middle. */
  ghost function CountMiddle(t: seq<Vma>, start: nat, end: nat): nat {
    if t == [] then 0 else CountMiddle(t[..|t| - 1], start, end) + if NeedsTwo(t[|t| - 1], start, end) then 1 else 0
  }

  function Bit(b: bool): nat {
    if b then 1 else 0
  }

  /** How the counts change when one slot is rewritten. */
  lemma {:induction false} Recount(t: seq<Vma>, i: nat, v: Vma, f: nat, addr: nat, start: nat, end: nat)
    requires i < |t|
    ensures CountFree(t[i := v]) + Bit(!t[i].used) == CountFree(t) + Bit(!v.used)
    ensures CountFile(t[i := v], f) + Bit(NamesFile(t[i], f)) == CountFile(t, f) + Bit(NamesFile(v, f))
    ensures CountSplit(t[i := v], addr) + Bit(ContainsSplit(t[i], addr))
            == CountSplit(t, addr) + Bit(ContainsSplit(v, addr))
    ensures CountMiddle(t[i := v], start, end) + Bit(NeedsTwo(t[i], start, end))
            == CountMiddle(t, start, end) + Bit(NeedsTwo(v, start, end))
  {
    var n := |t| - 1;
    if i == n {
      assert t[i := v][..n] == t[..n];
    } else {
      Recount(t[..n], i, v, f, addr, start, end);
      assert t[i := v][..n] == t[..n][i := v];
    }
  }

  /** `vma_alloc_slot`: the first unused slot, or `NR_VMA`. */
  function FirstFree(t: Table, i: nat): (r: nat)
    requires i <= NR_VMA
    ensures i <= r <= NR_VMA && (r < NR_VMA ==> !t[r].used)
    ensures forall j :: i <= j < r ==> t[j].used
    decreases NR_VMA - i
  {
    if i == NR_VMA || !t[i].used then i else FirstFree(t, i + 1)
  }

  lemma {:induction false} NoFreeSlot(t: seq<Vma>)
    requires forall j :: 0 <= j < |t| ==> t[j].used
    ensures CountFree(t) == 0
  {
    if t != [] {
      NoFreeSlot(t[..|t| - 1]);
    }
  }

  // ---- Splitting one area ----

  /** The part of an area from `addr` on. */
  function TailOf(v: Vma, addr: nat): Vma
    requires addr >= v.start
  {
    v.(start := addr, offset := if v.file != 0 then OffsetAt(v, addr) else v.offset)
  }

  function HeadOf(v: Vma, addr: nat): Vma {
    v.(end := addr)
  }

  /** Area `i` cut in two at `addr`, the upper part going to free slot `k`. */
  function Split(t: Table, i: nat, addr: nat, k: nat): Table
    requires i < NR_VMA && k < NR_VMA && addr >= t[i].start
  {
    t[k := TailOf(t[i], addr)][i := HeadOf(t[i], addr)]
  }

  lemma ModAdds(x: nat, y: nat)
    ensures (x % U64 + y) % U64 == (x + y) % U64
  {
  }

  lemma TailCell(v: Vma, addr: nat, a: nat)
    requires v.start <= addr <= a
    ensures CellAt(TailOf(v, addr), a) == CellAt(v, a)
  {
    ModAdds(v.offset + (addr - v.start), a - addr);
  }

  /** An address held on both sides by areas that give it the same cell looks the same. */
  lemma SameView(t: Table, j: nat, t': Table, j': nat, a: nat)
    requires WellFormed(t) && WellFormed(t') && j < NR_VMA && j' < NR_VMA
    requires Holds(t[j], a) && Holds(t'[j'], a) && CellAt(t[j], a) == CellAt(t'[j'], a)
    ensures View(t, a) == View(t', a)
  {
    ViewHeld(t, j, a);
    ViewHeld(t', j', a);
  }

  lemma SplitView(t: Table, i: nat, addr: nat, k: nat, a: nat)
    requires WellFormed(t) && i < NR_VMA && k < NR_VMA && !t[k].used && ContainsSplit(t[i], addr)
    requires WellFormed(Split(t, i, addr, k))
    ensures View(Split(t, i, addr, k), a) == View(t, a)
  {
    var t' := Split(t, i, addr, k);
    var j := FindFrom(t, a, 0);
    if j < NR_VMA {
      if j == i && a >= addr {
        TailCell(t[i], addr, a);
        SameView(t, i, t', k, a);
      } else {
        SameView(t, j, t', j, a);
      }
    } else {
      ViewNone(t', a);
    }
  }

  /** Splitting is invisible: every address keeps its cell, and areas stay apart. */
  lemma SplitFacts(t: Table, i: nat, addr: nat, k: nat)
    requires WellFormed(t) && i < NR_VMA && k < NR_VMA && !t[k].used && ContainsSplit(t[i], addr)
    ensures WellFormed(Split(t, i, addr, k))
    ensures forall a: nat :: View(Split(t, i, addr, k), a) == View(t, a)
  {
    var t' := Split(t, i, addr, k);
    assert Sane(t[i]);
    PiecesApart(t, t', i, addr, k);
    forall a: nat ensures View(t', a) == View(t, a) {
      SplitView(t, i, addr, k, a);
    }
  }

  /** Replacing area `i` by pieces of it, in slots `i` and `k`, keeps the table well-formed. */
  lemma PiecesApart(t: Table, t': Table, i: nat, addr: nat, k: nat)
    requires WellFormed(t) && i < NR_VMA && k < NR_VMA && i != k && !t[k].used && t[i].used
    requires forall j :: 0 <= j < NR_VMA && j != i && j != k ==> t'[j] == t[j]
    requires Inside(t'[i], t[i]) && Inside(t'[k], t[i]) && Apart(t'[i], t'[k])
    ensures WellFormed(t')
  {
    forall x, y | 0 <= x < NR_VMA && 0 <= y < NR_VMA && x != y ensures Apart(t'[x], t'[y]) {
      var ox, oy := if x == k then i else x, if y == k then i else y;
      assert ox == oy || Apart(t[ox], t[oy]);
    }
    forall x | 0 <= x < NR_VMA ensures Sane(t'[x]) {
      assert Sane(t[x]) && Sane(t[i]);
    }
  }

  ghost predicate Inside(v: Vma, w: Vma) {
    v.used ==> w.used && w.start <= v.start < v.end <= w.end && v.offset < U64
  }

  // ---- Cutting a range out of one area ----

  function Max(a: nat, b: nat): nat { if a > b then a else b }

  /** What is left of area `i` once `[start, end)` is unmapped; slot `k` takes the upper part if there are two. */
  function CutOut(t: Table, i: nat, start: nat, end: nat, k: nat): Table
    requires i < NR_VMA && k < NR_VMA && Overlaps(t[i], start, end)
  {
    var v := t[i];
    if start <= v.start && end >= v.end then t[i := FREE_SLOT]
    else if start <= v.start then t[i := TailOf(v, end)]
    else if end >= v.end then t[i := HeadOf(v, start)]
    else t[k := TailOf(v, end)][i := HeadOf(v, start)]
  }

  /** Cutting removes exactly the addresses of area `i` in the range. */
  lemma CutOutFacts(t: Table, i: nat, start: nat, end: nat, k: nat)
    requires WellFormed(t) && i < NR_VMA && k < NR_VMA && start < end && Overlaps(t[i], start, end)
    requires NeedsTwo(t[i], start, end) ==> !t[k].used
    ensures WellFormed(CutOut(t, i, start, end, k))
    ensures forall a: nat :: View(CutOut(t, i, start, end, k), a)
                             == if Holds(t[i], a) && start <= a < end then None else View(t, a)
  {
    var t' := CutOut(t, i, start, end, k);
    CutOutApart(t, i, start, end, k);
    forall a: nat ensures View(t', a) == if Holds(t[i], a) && start <= a < end then None else View(t, a) {
      CutOutView(t, i, start, end, k, a);
    }
  }

  lemma CutOutApart(t: Table, i: nat, start: nat, end: nat, k: nat)
    requires WellFormed(t) && i < NR_VMA && k < NR_VMA && start < end && Overlaps(t[i], start, end)
    requires NeedsTwo(t[i], start, end) ==> !t[k].used
    ensures WellFormed(CutOut(t, i, start, end, k))
  {
    var t' := CutOut(t, i, start, end, k);
    assert Sane(t[i]);
    if NeedsTwo(t[i], start, end) {
      PiecesApart(t, t', i, start, k);
    } else {
      forall x, y | 0 <= x < NR_VMA && 0 <= y < NR_VMA && x != y ensures Apart(t'[x], t'[y]) {
        assert Apart(t[x], t[y]);
      }
      forall x | 0 <= x < NR_VMA ensures Sane(t'[x]) {
        assert Sane(t[x]);
      }
    }
  }

  lemma CutOutView(t: Table, i: nat, start: nat, end: nat, k: nat, a: nat)
    requires WellFormed(t) && i < NR_VMA && k < NR_VMA && start < end && Overlaps(t[i], start, end)
    requires NeedsTwo(t[i], start, end) ==> !t[k].used
    ensures View(CutOut(t, i, start, end, k), a)
            == if Holds(t[i], a) && start <= a < end then None else View(t, a)
  {
    var t' := CutOut(t, i, start, end, k);
    CutOutApart(t, i, start, end, k);
    var j := FindFrom(t, a, 0);
    if Holds(t[i], a) {
      NoOtherHolds(t, i, a);
      if start <= a < end {
        ViewNone(t', a);
      } else if a >= end {
        TailCell(t[i], end, a);
        SameView(t, i, t', if NeedsTwo(t[i], start, end) then k else i, a);
      } else {
        SameView(t, i, t', i, a);
      }
    } else if j < NR_VMA {
      SameView(t, j, t', j, a);
    } else {
      ViewNone(t', a);
    }
  }

  lemma NoOtherHolds(t: Table, i: nat, a: nat)
    requires WellFormed(t) && i < NR_VMA && Holds(t[i], a)
    ensures forall j :: 0 <= j < NR_VMA && j != i ==> !Holds(t[j], a)
  {
    forall j | 0 <= j < NR_VMA && j != i ensures !Holds(t[j], a) {
      assert Apart(t[i], t[j]);
    }
  }
}
