/**
 The operations of an address space on its table of memory areas: splitting, unmapping,
 changing protection and merging, with their slot prechecks and file references.
 */
module AddressSpace {
  import opened Arith
  import opened Wrappers
  import opened VmaTable
  import opened VmaMerge
  import opened VmaChains

  datatype Errno = Ok | ENOMEM | EACCES

  /** References held on a file. */
  function RefOf(refs: map<nat, int>, f: nat): int {
    if f in refs then refs[f] else 0
  }

  function FileGet(refs: map<nat, int>, f: nat): map<nat, int> {
    if f == 0 then refs else refs[f := RefOf(refs, f) + 1]
  }

  function FilePut(refs: map<nat, int>, f: nat): map<nat, int> {
    if f == 0 then refs else refs[f := RefOf(refs, f) - 1]
  }

  /** The references on each file changed by as much as the number of slots naming it. */
  ghost predicate Balanced(t: Table, refs: map<nat, int>, t': Table, refs': map<nat, int>) {
    forall f: nat {:trigger RefOf(refs', f)} :: f != 0 ==>
      RefOf(refs', f) - CountFile(t', f) == RefOf(refs, f) - CountFile(t, f)
  }

  /** Slot `i` rewritten and the references adjusted to match. */
  lemma BalancedStep(t: Table, refs: map<nat, int>, i: nat, v: Vma, refs': map<nat, int>)
    requires i < NR_VMA
    requires forall f: nat :: f != 0 ==>
               RefOf(refs', f) == RefOf(refs, f) - Bit(NamesFile(t[i], f)) + Bit(NamesFile(v, f))
    ensures Balanced(t, refs, t[i := v], refs')
  {
    forall f: nat | f != 0
      ensures RefOf(refs', f) - CountFile(t[i := v], f) == RefOf(refs, f) - CountFile(t, f)
    {
      Recount(t, i, v, f, 0, 0, 0);
    }
  }

  lemma BalancedTrans(t: Table, r: map<nat, int>, t1: Table, r1: map<nat, int>, t2: Table, r2: map<nat, int>)
    requires Balanced(t, r, t1, r1) && Balanced(t1, r1, t2, r2)
    ensures Balanced(t, r, t2, r2)
  {
    forall f: nat | f != 0
      ensures RefOf(r2, f) - CountFile(t2, f) == RefOf(r, f) - CountFile(t, f)
    {
      assert RefOf(r1, f) - CountFile(t1, f) == RefOf(r, f) - CountFile(t, f);
    }
  }

  // ---- Unmapping a range: the loop over the slots ----

  /** Slots below `i` no longer meet the range; every address looks as before, or is gone and was in the range. */
  ghost predicate Unmapping(t0: Table, t: Table, start: nat, end: nat, i: nat) {
    && WellFormed(t) && CountMiddle(t, start, end) <= CountFree(t)
    && (forall j :: 0 <= j < i && j < NR_VMA ==> !Overlaps(t[j], start, end))
    && forall a: nat {:trigger View(t, a)} :: View(t, a) == View(t0, a) || (start <= a < end && View(t, a) == None)
  }

  lemma UnmappingSkip(t0: Table, t: Table, start: nat, end: nat, i: nat)
    requires Unmapping(t0, t, start, end, i) && i < NR_VMA && !Overlaps(t[i], start, end)
    ensures Unmapping(t0, t, start, end, i + 1)
  {
  }

  lemma MiddleNeedsFree(t: Table, start: nat, end: nat, i: nat)
    requires CountMiddle(t, start, end) <= CountFree(t) && i < NR_VMA && NeedsTwo(t[i], start, end)
    ensures FirstFree(t, 0) < NR_VMA
  {
    Recount(t, i, FREE_SLOT, 0, 0, start, end);
    if FirstFree(t, 0) == NR_VMA {
      NoFreeSlot(t);
    }
  }

  lemma UnmappingStep(t0: Table, t: Table, start: nat, end: nat, i: nat, k: nat)
    requires Unmapping(t0, t, start, end, i) && i < NR_VMA && k < NR_VMA && start < end && Overlaps(t[i], start, end)
    requires NeedsTwo(t[i], start, end) ==> !t[k].used
    ensures Unmapping(t0, CutOut(t, i, start, end, k), start, end, i + 1)
  {
    var t' := CutOut(t, i, start, end, k);
    CutOutFacts(t, i, start, end, k);
    CutOutCounts(t, start, end, i, k);
    forall a: nat ensures View(t', a) == View(t0, a) || (start <= a < end && View(t', a) == None) {
      assert View(t, a) == View(t0, a) || (start <= a < end && View(t, a) == None);
    }
  }

  lemma CutOutCounts(t: Table, start: nat, end: nat, i: nat, k: nat)
    requires i < NR_VMA && k < NR_VMA && start < end && Overlaps(t[i], start, end)
    requires NeedsTwo(t[i], start, end) ==> !t[k].used
    requires CountMiddle(t, start, end) <= CountFree(t)
    ensures CountMiddle(CutOut(t, i, start, end, k), start, end) <= CountFree(CutOut(t, i, start, end, k))
  {
    var v := t[i];
    if start <= v.start && end >= v.end {
      Recount(t, i, FREE_SLOT, 0, 0, start, end);
    } else if start <= v.start {
      Recount(t, i, TailOf(v, end), 0, 0, start, end);
    } else if end >= v.end {
      Recount(t, i, HeadOf(v, start), 0, 0, start, end);
    } else {
      Recount(t, k, TailOf(v, end), 0, 0, start, end);
      Recount(t[k := TailOf(v, end)], i, HeadOf(v, start), 0, 0, start, end);
    }
  }

  lemma UnmappingDone(t0: Table, t: Table, start: nat, end: nat)
    requires Unmapping(t0, t, start, end, NR_VMA)
    ensures forall a: nat :: View(t, a) == if start <= a < end then None else View(t0, a)
  {
    forall a: nat ensures View(t, a) == if start <= a < end then None else View(t0, a) {
      if start <= a < end {
        forall j | 0 <= j < NR_VMA ensures !Holds(t[j], a) {
          assert !Overlaps(t[j], start, end);
        }
        ViewNone(t, a);
      }
    }
  }

  const PAGE_SIZE: nat := 4096

  /** The first address of the `k`-th page of a range. */
  function PageAt(start: nat, k: nat): nat {
    start + PAGE_SIZE * k
  }

  ghost predicate PagesMapped(t: Table, start: nat, end: nat) {
    forall k: nat :: PageAt(start, k) < end ==> View(t, PageAt(start, k)).Some?
  }

  /** A shared mapping of a file that is not open for writing. */
  predicate Refused(c: Option<Cell>, writable: set<nat>) {
    c.Some? && c.value.file != 0 && c.value.shared && c.value.file !in writable
  }

  class Mm {
    var vma: Table
    /** References held on files, by these slots and by others. */
    var refs: map<nat, int>

    method AllocSlot() returns (k: nat)
      ensures k == FirstFree(vma, 0)
    {
      k := 0;
      while k < NR_VMA && vma[k].used
        invariant k <= NR_VMA && FirstFree(vma, k) == FirstFree(vma, 0)
      {
        k := k + 1;
      }
    }

    method FindVma(addr: nat) returns (i: nat)
      ensures i == FindFrom(vma, addr, 0)
    {
      i := 0;
      while i < NR_VMA && !Holds(vma[i], addr)
        invariant i <= NR_VMA && FindFrom(vma, addr, i) == FindFrom(vma, addr, 0)
      {
        i := i + 1;
      }
    }

    method FreeSlot(i: nat)
      requires i < NR_VMA && vma[i].used
      modifies this
      ensures vma == old(vma)[i := FREE_SLOT] && Balanced(old(vma), old(refs), vma, refs)
    {
      refs := FilePut(refs, vma[i].file);
      BalancedStep(vma, old(refs), i, FREE_SLOT, refs);
      vma := vma[i := FREE_SLOT];
    }

    method FreeSlotCount() returns (count: nat)
      ensures count == CountFree(vma)
    {
      count := 0;
      var i := 0;
      while i < NR_VMA
        invariant i <= NR_VMA && count == CountFree(vma[..i])
      {
        assert vma[..i + 1][..i] == vma[..i];
        if !vma[i].used {
          count := count + 1;
        }
        i := i + 1;
      }
      assert vma[..i] == vma;
    }

    method MunmapSlotsNeeded(start: nat, end: nat) returns (needed: nat)
      ensures needed == CountMiddle(vma, start, end)
    {
      needed := 0;
      var i := 0;
      while i < NR_VMA
        invariant i <= NR_VMA && needed == CountMiddle(vma[..i], start, end)
      {
        assert vma[..i + 1][..i] == vma[..i];
        if Overlaps(vma[i], start, end) {
          var unmapStart := Max(start, vma[i].start);
          var unmapEnd := Min(end, vma[i].end);
          if unmapStart > vma[i].start && unmapEnd < vma[i].end {
            needed := needed + 1;
          }
        }
        i := i + 1;
      }
      assert vma[..i] == vma;
    }

    /** Cut area `i` in two at `addr`, if that is inside it. */
    method SplitAt(i: nat, addr: nat) returns (ret: Errno)
      requires i < NR_VMA
      modifies this
      ensures !old(ContainsSplit(vma[i], addr)) ==> ret == Ok && unchanged(this)
      ensures ret == ENOMEM <==> old(ContainsSplit(vma[i], addr)) && old(FirstFree(vma, 0)) == NR_VMA
      ensures ret != EACCES && (ret == ENOMEM ==> unchanged(this))
      ensures ret == Ok && old(ContainsSplit(vma[i], addr)) ==>
                && vma == Split(old(vma), i, addr, old(FirstFree(vma, 0)))
                && Balanced(old(vma), old(refs), vma, refs)
    {
      if !ContainsSplit(vma[i], addr) {
        return Ok;
      }
      var k := AllocSlot();
      if k == NR_VMA {
        return ENOMEM;
      }
      var v := vma[i];
      refs := FileGet(refs, v.file);
      BalancedStep(vma, old(refs), k, TailOf(v, addr), refs);
      vma := vma[k := TailOf(v, addr)];
      BalancedStep(vma, refs, i, HeadOf(v, addr), refs);
      BalancedTrans(old(vma), old(refs), vma, refs, vma[i := HeadOf(v, addr)], refs);
      vma := vma[i := HeadOf(v, addr)];
      return Ok;
    }

    /** Unmap the part of area `i` that lies in the range. */
    method UnmapRange(i: nat, start: nat, end: nat) returns (ret: Errno)
      requires i < NR_VMA && WellFormed(vma) && start < end
      modifies this
      ensures !old(Overlaps(vma[i], start, end)) ==> ret == Ok && unchanged(this)
      ensures ret == ENOMEM <==> old(NeedsTwo(vma[i], start, end)) && old(FirstFree(vma, 0)) == NR_VMA
      ensures ret != EACCES && (ret == ENOMEM ==> unchanged(this))
      ensures ret == Ok && old(Overlaps(vma[i], start, end)) ==>
                && old(NeedsTwo(vma[i], start, end) ==> FirstFree(vma, 0) < NR_VMA)
                && vma == CutOut(old(vma), i, start, end, old(Min(FirstFree(vma, 0), NR_VMA - 1)))
                && Balanced(old(vma), old(refs), vma, refs)
    {
      if !Overlaps(vma[i], start, end) {
        return Ok;
      }
      var v := vma[i];
      var trimStart := Max(start, v.start);
      var trimEnd := Min(end, v.end);
      if trimStart == v.start && trimEnd == v.end {
        FreeSlot(i);
        return Ok;
      }
      if trimStart == v.start {
        BalancedStep(vma, refs, i, TailOf(v, trimEnd), refs);
        vma := vma[i := TailOf(v, trimEnd)];
        return Ok;
      }
      if trimEnd == v.end {
        BalancedStep(vma, refs, i, HeadOf(v, trimStart), refs);
        vma := vma[i := HeadOf(v, trimStart)];
        return Ok;
      }
      ret := SplitAt(i, trimStart);
      if ret != Ok {
        return;
      }
      ghost var k := old(FirstFree(vma, 0));
      var right := FindVma(trimStart);
      RightIsTail(old(vma), i, trimStart, k);
      assert right == k;
      var w := vma[right];
      TailOfTail(v, trimStart, trimEnd);
      BalancedStep(vma, refs, right, TailOf(w, trimEnd), refs);
      BalancedTrans(old(vma), old(refs), vma, refs, vma[right := TailOf(w, trimEnd)], refs);
      vma := vma[right := TailOf(w, trimEnd)];
    }

    /** Unmap `[addr, end)`: all of it, or on too few free slots nothing. */
    method UnmapRangeLocked(addr: nat, end: nat) returns (ret: Errno)
      requires WellFormed(vma) && addr < end
      modifies this
      ensures ret == ENOMEM <==> old(CountMiddle(vma, addr, end) > CountFree(vma))
      ensures ret != EACCES && (ret == ENOMEM ==> unchanged(this))
      ensures ret == Ok ==> WellFormed(vma) && Balanced(old(vma), old(refs), vma, refs)
      ensures ret == Ok ==> forall a: nat :: View(vma, a) == if addr <= a < end then None else View(old(vma), a)
    {
      var needed := MunmapSlotsNeeded(addr, end);
      var free := FreeSlotCount();
      if needed > free {
        return ENOMEM;
      }
      var i := 0;
      while i < NR_VMA
        invariant i <= NR_VMA && Unmapping(old(vma), vma, addr, end, i)
        invariant Balanced(old(vma), old(refs), vma, refs)
      {
        ghost var t, r, k := vma, refs, Min(FirstFree(vma, 0), NR_VMA - 1);
        if Overlaps(vma[i], addr, end) {
          if NeedsTwo(vma[i], addr, end) {
            MiddleNeedsFree(vma, addr, end, i);
          }
          UnmappingStep(old(vma), vma, addr, end, i, k);
          ret := UnmapRange(i, addr, end);
          BalancedTrans(old(vma), old(refs), t, r, vma, refs);
          if ret != Ok {
            return;
          }
        } else {
          UnmappingSkip(old(vma), vma, addr, end, i);
        }
        i := i + 1;
      }
      UnmappingDone(old(vma), vma, addr, end);
      return Ok;
    }

    method MprotectSlotsNeeded(start: nat, end: nat) returns (needed: nat)
      requires start < end
      ensures needed == CountSplit(vma, start) + CountSplit(vma, end)
    {
      needed := 0;
      var i := 0;
      while i < NR_VMA
        invariant i <= NR_VMA && needed == CountSplit(vma[..i], start) + CountSplit(vma[..i], end)
      {
        assert vma[..i + 1][..i] == vma[..i];
        if Overlaps(vma[i], start, end) {
          if ContainsSplit(vma[i], start) {
            needed := needed + 1;
          }
          if ContainsSplit(vma[i], end) {
            needed := needed + 1;
          }
        }
        i := i + 1;
      }
      assert vma[..i] == vma;
    }

    /** Split every area that contains `addr`; `other` is an address whose splits must stay affordable. */
    method SplitAll(addr: nat, ghost other: nat) returns (ret: Errno)
      requires WellFormed(vma) && addr != other
      requires CountSplit(vma, addr) + CountSplit(vma, other) <= CountFree(vma)
      modifies this
      ensures ret == Ok && WellFormed(vma) && Balanced(old(vma), old(refs), vma, refs)
      ensures CountSplit(vma, addr) == 0 && CountSplit(vma, other) == old(CountSplit(vma, other))
      ensures CountFree(vma) == old(CountFree(vma) - CountSplit(vma, addr))
      ensures forall a: nat :: View(vma, a) == View(old(vma), a)
      ensures vma == SplitTable(old(vma), addr, 0)
    {
      var i := 0;
      while i < NR_VMA
        invariant i <= NR_VMA && Splitting(old(vma), vma, addr, other, i)
        invariant SplitTable(vma, addr, i) == SplitTable(old(vma), addr, 0)
        invariant Balanced(old(vma), old(refs), vma, refs)
      {
        ghost var t, r, k := vma, refs, FirstFree(vma, 0);
        if ContainsSplit(vma[i], addr) {
          SplitNeedsFree(vma, addr, other, i);
          SplittingStep(old(vma), vma, addr, other, i, k);
          ret := SplitAt(i, addr);
          BalancedTrans(old(vma), old(refs), t, r, vma, refs);
        } else {
          ret := SplitAt(i, addr);
        }
        i := i + 1;
      }
      NoneContains(vma, addr);
      ret := Ok;
    }

    /** Give every area inside the range the new flags. */
    method UpdateFlagsRange(start: nat, end: nat, flags: nat)
      modifies this`vma
      ensures forall i :: 0 <= i < NR_VMA ==> vma[i] == Reflag(old(vma)[i], start, end, flags)
    {
      var i := 0;
      while i < NR_VMA
        invariant i <= NR_VMA
        invariant forall j :: 0 <= j < i ==> vma[j] == Reflag(old(vma)[j], start, end, flags)
        invariant forall j :: i <= j < NR_VMA ==> vma[j] == old(vma)[j]
      {
        if vma[i].used && vma[i].start >= start && vma[i].end <= end {
          vma := vma[i := vma[i].(flags := flags)];
        }
        i := i + 1;
      }
    }

    /** Merge neighbours until no pair is left. */
    method MergeAreas()
      requires WellFormed(vma)
      modifies this
      ensures vma == MergeAll(old(vma)) && Balanced(old(vma), old(refs), vma, refs)
    {
      var merged := true;
      while merged
        invariant WellFormed(vma) && MergeAll(vma) == MergeAll(old(vma))
        invariant Balanced(old(vma), old(refs), vma, refs)
        invariant !merged ==> FirstPair(vma, 0, 0).0 == NR_VMA
        decreases Used(vma), merged
      {
        var i, j := FindPair();
        merged := i < NR_VMA;
        if merged {
          ghost var t, r := vma, refs;
          MergeFrees(vma, i, j, 0);
          MergeApart(vma, i, j);
          AbsorbSlot(i, j);
          BalancedTrans(old(vma), old(refs), t, r, vma, refs);
        }
      }
    }

    /** The nested scan: the first pair of slots that can merge. */
    method FindPair() returns (i: nat, j: nat)
      ensures (i, j) == FirstPair(vma, 0, 0)
    {
      i := 0;
      while i < NR_VMA
        invariant i <= NR_VMA && FirstPair(vma, i, 0) == FirstPair(vma, 0, 0)
      {
        j := 0;
        while j < NR_VMA
          invariant j <= NR_VMA && FirstPair(vma, i, j) == FirstPair(vma, 0, 0)
        {
          if i != j && CanMerge(vma[i], vma[j]) {
            return;
          }
          j := j + 1;
        }
        i := i + 1;
      }
      j := 0;
    }

    method AbsorbSlot(i: nat, j: nat)
      requires i < NR_VMA && j < NR_VMA && i != j && CanMerge(vma[i], vma[j])
      modifies this
      ensures vma == MergePair(old(vma), i, j) && Balanced(old(vma), old(refs), vma, refs)
    {
      var v := vma[i];
      if vma[i].end == vma[j].start {
        v := v.(end := vma[j].end);
      } else {
        v := v.(start := vma[j].start);
      }
      BalancedStep(vma, refs, i, v, refs);
      vma := vma[i := v];
      ghost var t := vma;
      FreeSlot(j);
      BalancedTrans(old(vma), old(refs), t, old(refs), vma, refs);
    }

    /** `vma_range_is_mapped`: looks at the first address of every page of the range. */
    method RangeIsMapped(start: nat, end: nat) returns (mapped: bool)
      ensures mapped <==> forall k: nat :: PageAt(start, k) < end ==> View(vma, PageAt(start, k)).Some?
    {
      var k := 0;
      while PageAt(start, k) < end
        invariant forall j: nat :: j < k ==> View(vma, PageAt(start, j)).Some?
        decreases end - PageAt(start, k)
      {
        var i := FindVma(PageAt(start, k));
        if i == NR_VMA {
          return false;
        }
        k := k + 1;
      }
      return true;
    }

    /** The write check: no page of a shared mapping of a file that is not open for writing. */
    method MayWrite(start: nat, end: nat, writable: set<nat>) returns (ok: bool)
      ensures ok <==> forall k: nat :: PageAt(start, k) < end ==> !Refused(View(vma, PageAt(start, k)), writable)
    {
      var k := 0;
      while PageAt(start, k) < end
        invariant forall j: nat :: j < k ==> !Refused(View(vma, PageAt(start, j)), writable)
        decreases end - PageAt(start, k)
      {
        var i := FindVma(PageAt(start, k));
        RefusedAt(vma, PageAt(start, k), writable);
        if i < NR_VMA && vma[i].file != 0 && vma[i].shared && vma[i].file !in writable {
          assert Refused(View(vma, PageAt(start, k)), writable);
          return false;
        }
        k := k + 1;
      }
      return true;
    }

    /**
     The area part of `mprotect` on a page-aligned range: the range must be mapped, the
     slots must suffice, write access must be allowed; then split, change flags, merge.
     `write` is whether the new flags include VM_WRITE, `writable` the files open for writing.
     */
    method Protect(start: nat, end: nat, flags: nat, write: bool, writable: set<nat>) returns (ret: Errno)
      requires WellFormed(vma) && start < end
      modifies this
      ensures ret == ENOMEM <==> old(!PagesMapped(vma, start, end)
                                     || CountSplit(vma, start) + CountSplit(vma, end) > CountFree(vma))
      ensures ret == EACCES ==> write && exists k: nat :: PageAt(start, k) < end && Refused(old(View(vma, PageAt(start, k))), writable)
      ensures ret == Ok && write ==> forall k: nat :: PageAt(start, k) < end ==> !Refused(old(View(vma, PageAt(start, k))), writable)
      ensures ret != Ok ==> unchanged(this)
      ensures ret == Ok ==> WellFormed(vma) && Balanced(old(vma), old(refs), vma, refs)
      ensures ret == Ok ==> vma == MergeAll(ProtectTable(old(vma), start, end, flags))
      ensures ret == Ok ==> forall a: nat ::
                Attributes(View(vma, a)) == Attributes(Recolour(View(old(vma), a), start <= a < end, flags))
      ensures ret == Ok ==> WellFormed(ProtectTable(old(vma), start, end, flags))
      ensures ret == Ok ==> ((forall a: nat :: View(vma, a) == Recolour(View(old(vma), a), start <= a < end, flags))
                             <==> InOrder(ProtectTable(old(vma), start, end, flags)))
    {
      var mapped := RangeIsMapped(start, end);
      if !mapped {
        return ENOMEM;
      }
      var needed := MprotectSlotsNeeded(start, end);
      var free := FreeSlotCount();
      if needed > free {
        return ENOMEM;
      }
      if write {
        var ok := MayWrite(start, end, writable);
        if !ok {
          return EACCES;
        }
      }
      ret := SplitAll(start, end);
      ghost var t1, r1 := vma, refs;
      ret := SplitAll(end, start);
      BalancedTrans(old(vma), old(refs), t1, r1, vma, refs);
      ghost var t2, r2 := vma, refs;
      UpdateFlagsRange(start, end, flags);
      ReflagFacts(t2, vma, start, end, flags);
      ReflagBalanced(t2, vma, refs, start, end, flags);
      BalancedTrans(old(vma), old(refs), t2, r2, vma, refs);
      ghost var t3, r3 := vma, refs;
      assert vma == ProtectTable(old(vma), start, end, flags);
      MergedProtect(old(vma), t2, vma, start, end, flags);
      MergeAreas();
      BalancedTrans(old(vma), old(refs), t3, r3, vma, refs);
      return Ok;
    }
  }

  /** The write check in terms of the area found. */
  lemma RefusedAt(t: Table, a: nat, writable: set<nat>)
    ensures var i := FindFrom(t, a, 0);
            Refused(View(t, a), writable) <==> i < NR_VMA && t[i].file != 0 && t[i].shared && t[i].file !in writable
  {
  }

  // ---- Splitting at an address ----

  /** Slots below `i` no longer contain `addr`; nothing a program sees has changed. */
  ghost predicate Splitting(t0: Table, t: Table, addr: nat, other: nat, i: nat) {
    && WellFormed(t) && CountSplit(t, other) == CountSplit(t0, other)
    && CountFree(t) + CountSplit(t0, addr) == CountFree(t0) + CountSplit(t, addr)
    && CountSplit(t, addr) + CountSplit(t, other) <= CountFree(t)
    && (forall j :: 0 <= j < i && j < NR_VMA ==> !ContainsSplit(t[j], addr))
    && forall a: nat {:trigger View(t, a)} :: View(t, a) == View(t0, a)
  }

  lemma SplitNeedsFree(t: Table, addr: nat, other: nat, i: nat)
    requires CountSplit(t, addr) + CountSplit(t, other) <= CountFree(t) && i < NR_VMA && ContainsSplit(t[i], addr)
    ensures FirstFree(t, 0) < NR_VMA
  {
    Recount(t, i, FREE_SLOT, 0, addr, 0, 0);
    if FirstFree(t, 0) == NR_VMA {
      NoFreeSlot(t);
    }
  }

  lemma SplittingStep(t0: Table, t: Table, addr: nat, other: nat, i: nat, k: nat)
    requires Splitting(t0, t, addr, other, i) && i < NR_VMA && k < NR_VMA && !t[k].used
    requires ContainsSplit(t[i], addr) && addr != other
    ensures Splitting(t0, Split(t, i, addr, k), addr, other, i + 1)
  {
    SplitFacts(t, i, addr, k);
    var v, t1 := t[i], t[k := TailOf(t[i], addr)];
    Recount(t, k, TailOf(v, addr), 0, addr, 0, 0);
    Recount(t, k, TailOf(v, addr), 0, other, 0, 0);
    Recount(t1, i, HeadOf(v, addr), 0, addr, 0, 0);
    Recount(t1, i, HeadOf(v, addr), 0, other, 0, 0);
    var t' := Split(t, i, addr, k);
    forall a: nat ensures View(t', a) == View(t0, a) {
      assert View(t', a) == View(t, a);
    }
  }

  lemma {:induction false} NoneContains(t: seq<Vma>, addr: nat)
    requires forall j :: 0 <= j < |t| ==> !ContainsSplit(t[j], addr)
    ensures CountSplit(t, addr) == 0
  {
    if t != [] {
      NoneContains(t[..|t| - 1], addr);
    }
  }

  lemma {:induction false} ZeroMeansNone(t: seq<Vma>, addr: nat, j: nat)
    requires CountSplit(t, addr) == 0 && j < |t|
    ensures !ContainsSplit(t[j], addr)
  {
    if j < |t| - 1 {
      ZeroMeansNone(t[..|t| - 1], addr, j);
    }
  }

  // ---- Changing flags ----

  function Reflag(v: Vma, start: nat, end: nat, flags: nat): Vma {
    if v.used && v.start >= start && v.end <= end then v.(flags := flags) else v
  }

  function Recolour(c: Option<Cell>, inside: bool, flags: nat): Option<Cell> {
    if c.Some? && inside then Some(c.value.(flags := flags)) else c
  }

  /** Every area from slot `i` on that contains `addr` split there, the upper part going to the first free slot. */
  function SplitTable(t: Table, addr: nat, i: nat): Table
    requires i <= NR_VMA
    decreases NR_VMA - i
  {
    if i == NR_VMA then t
    else if ContainsSplit(t[i], addr) && FirstFree(t, 0) < NR_VMA then
      SplitTable(Split(t, i, addr, FirstFree(t, 0)), addr, i + 1)
    else SplitTable(t, addr, i + 1)
  }

  /** The table that `mprotect` merges: split at both ends of the range, with the new flags inside. */
  function ProtectTable(t: Table, start: nat, end: nat, flags: nat): Table {
    var split := SplitTable(SplitTable(t, start, 0), end, 0);
    seq(NR_VMA, i requires 0 <= i < NR_VMA => Reflag(split[i], start, end, flags))
  }

  /** What the closing merge of `mprotect` leaves, with file offsets if the chains are in order. */
  lemma MergedProtect(t0: Table, t: Table, t': Table, start: nat, end: nat, flags: nat)
    requires WellFormed(t') && (forall a: nat :: View(t, a) == View(t0, a))
    requires forall a: nat :: View(t', a) == Recolour(View(t, a), start <= a < end, flags)
    ensures WellFormed(MergeAll(t'))
    ensures forall a: nat ::
              Attributes(View(MergeAll(t'), a)) == Attributes(Recolour(View(t0, a), start <= a < end, flags))
    ensures (forall a: nat :: View(MergeAll(t'), a) == Recolour(View(t0, a), start <= a < end, flags)) <==> InOrder(t')
  {
    MergeAllFacts(t');
    OffsetsKeptIffInOrder(t');
    assert forall a: nat :: View(t', a) == Recolour(View(t0, a), start <= a < end, flags);
  }

  /** With no area across either end of the range, exactly the mapped addresses in it change flags. */
  lemma ReflagFacts(t: Table, t': Table, start: nat, end: nat, flags: nat)
    requires WellFormed(t) && start < end && CountSplit(t, start) == 0 && CountSplit(t, end) == 0
    requires forall i :: 0 <= i < NR_VMA ==> t'[i] == Reflag(t[i], start, end, flags)
    ensures WellFormed(t')
    ensures forall a: nat :: View(t', a) == Recolour(View(t, a), start <= a < end, flags)
  {
    forall x, y | 0 <= x < NR_VMA && 0 <= y < NR_VMA && x != y ensures Apart(t'[x], t'[y]) {
      assert Apart(t[x], t[y]);
    }
    forall x | 0 <= x < NR_VMA ensures Sane(t'[x]) {
      assert Sane(t[x]);
    }
    forall a: nat ensures View(t', a) == Recolour(View(t, a), start <= a < end, flags) {
      ReflagView(t, t', start, end, flags, a);
    }
  }

  lemma ReflagView(t: Table, t': Table, start: nat, end: nat, flags: nat, a: nat)
    requires WellFormed(t') && start < end && CountSplit(t, start) == 0 && CountSplit(t, end) == 0
    requires forall i :: 0 <= i < NR_VMA ==> t'[i] == Reflag(t[i], start, end, flags)
    ensures View(t', a) == Recolour(View(t, a), start <= a < end, flags)
  {
    var x := FindFrom(t, a, 0);
    if x < NR_VMA {
      ZeroMeansNone(t, start, x);
      ZeroMeansNone(t, end, x);
      ReflagCell(t[x], start, end, flags, a);
      ViewHeld(t', x, a);
    } else {
      forall i | 0 <= i < NR_VMA ensures !Holds(t'[i], a) {
        assert !Holds(t[i], a);
      }
      ViewNone(t', a);
    }
  }

  lemma ReflagCell(v: Vma, start: nat, end: nat, flags: nat, a: nat)
    requires Holds(v, a) && start < end && !ContainsSplit(v, start) && !ContainsSplit(v, end)
    ensures Holds(Reflag(v, start, end, flags), a)
    ensures Some(CellAt(Reflag(v, start, end, flags), a)) == Recolour(Some(CellAt(v, a)), start <= a < end, flags)
  {
  }

  lemma ReflagBalanced(t: Table, t': Table, refs: map<nat, int>, start: nat, end: nat, flags: nat)
    requires forall i :: 0 <= i < NR_VMA ==> t'[i] == Reflag(t[i], start, end, flags)
    ensures Balanced(t, refs, t', refs)
  {
    forall f: nat | f != 0
      ensures RefOf(refs, f) - CountFile(t', f) == RefOf(refs, f) - CountFile(t, f)
    {
      SameFiles(t, t', f);
    }
  }

  lemma {:induction false} SameFiles(t: seq<Vma>, t': seq<Vma>, f: nat)
    requires |t| == |t'| && forall i :: 0 <= i < |t| ==> t'[i].used == t[i].used && t'[i].file == t[i].file
    ensures CountFile(t, f) == CountFile(t', f)
  {
    if t != [] {
      SameFiles(t[..|t| - 1], t'[..|t| - 1], f);
    }
  }

  /** After the split the only area holding the cut address is the new one. */
  lemma RightIsTail(t: Table, i: nat, addr: nat, k: nat)
    requires WellFormed(t) && i < NR_VMA && k < NR_VMA && !t[k].used && ContainsSplit(t[i], addr)
    ensures FindFrom(Split(t, i, addr, k), addr, 0) == k
  {
    var t' := Split(t, i, addr, k);
    var r := FindFrom(t', addr, 0);
    assert t'[k] == TailOf(t[i], addr) && Holds(t'[k], addr);
    NoOtherHolds(t, i, addr);
  }

  lemma TailOfTail(v: Vma, mid: nat, addr: nat)
    requires v.start <= mid <= addr
    ensures TailOf(TailOf(v, mid), addr) == TailOf(v, addr)
  {
    ModAdds(v.offset + (mid - v.start), addr - mid);
  }
}
