/**
 When `vma_merge_all` keeps file offsets, told from the table it starts with: in every
 chain of file-backed areas that can merge, the lowest area must sit in the lowest slot.
 */
module VmaChains {
  import opened VmaTable
  import opened VmaMerge

  predicate SameKind(w: Vma, v: Vma) {
    w.flags == v.flags && w.kind == v.kind && w.file == v.file && w.shared == v.shared
  }

  /** `w` ends where `v` starts, and the two can merge. */
  predicate Under(w: Vma, v: Vma) {
    && w.used && v.used && SameKind(w, v) && w.end == v.start && w.start <= w.end
    && (v.file != 0 ==> OffsetAt(w, w.end) == v.offset)
  }

  lemma CanMergeIs(v: Vma, w: Vma)
    requires Sane(v) && Sane(w)
    ensures CanMerge(v, w) <==> Under(v, w) || Under(w, v)
    ensures !(Under(v, w) && Under(w, v))
  {
  }

  /** The slot, from `l` on, of the area below `v` that can merge with it, or `NR_VMA`. */
  function Lower(t: Table, v: Vma, l: nat): (r: nat)
    requires l <= NR_VMA
    ensures l <= r <= NR_VMA && (r < NR_VMA ==> Under(t[r], v))
    ensures forall x :: l <= x < r ==> !Under(t[x], v)
    decreases NR_VMA - l
  {
    if l == NR_VMA || Under(t[l], v) then l else Lower(t, v, l + 1)
  }

  lemma OnlyOneLower(t: Table, v: Vma, l: nat)
    requires WellFormed(t) && l < NR_VMA && Under(t[l], v)
    ensures Lower(t, v, 0) == l
  {
    var r := Lower(t, v, 0);
    assert r <= l;
    assert Sane(t[r]) && Sane(t[l]) && (r == l || Apart(t[r], t[l]));
  }

  /** The slot of the lowest area of the chain that area `i` is in. */
  ghost function Bottom(t: Table, i: nat): (r: nat)
    requires WellFormed(t) && i < NR_VMA
    ensures r < NR_VMA
    decreases t[i].start
  {
    var l := Lower(t, t[i], 0);
    if l == NR_VMA then i
    else
      assert Sane(t[l]);
      Bottom(t, l)
  }

  /** The lowest area of the chain of a file-backed area has no higher slot. */
  ghost predicate Seated(t: Table, i: nat)
    requires WellFormed(t) && i < NR_VMA
  {
    t[i].used && t[i].file != 0 ==> Bottom(t, i) <= i
  }

  /** In every chain of file-backed areas the lowest area sits in the lowest slot. */
  ghost predicate InOrder(t: Table)
    requires WellFormed(t)
  {
    forall i: nat :: i < NR_VMA ==> Seated(t, i)
  }

  /** The scan stops at the lowest slot that has a partner. */
  lemma {:induction false} FirstPairIsLowest(t: Table, i: nat, j: nat, x: nat, y: nat)
    requires i <= NR_VMA && j <= NR_VMA && x < NR_VMA && y < NR_VMA && x != y && CanMerge(t[x], t[y])
    requires i < x || (i == x && j <= y)
    ensures FirstPair(t, i, j).0 <= x
    decreases NR_VMA - i, NR_VMA - j
  {
    if i < NR_VMA {
      if j == NR_VMA {
        FirstPairIsLowest(t, i + 1, 0, x, y);
      } else if i != x || j != y {
        if i == j || !CanMerge(t[i], t[j]) {
          FirstPairIsLowest(t, i, j + 1, x, y);
        }
      }
    }
  }

  /** The bottom of a chain is the area itself, or has a partner above it. */
  lemma {:induction false} BottomHasPartner(t: Table, i: nat)
    requires WellFormed(t) && i < NR_VMA
    ensures var b := Bottom(t, i); b == i || (t[b].start < t[i].start && exists k :: 0 <= k < NR_VMA && Under(t[b], t[k]))
    decreases t[i].start
  {
    var l := Lower(t, t[i], 0);
    if l < NR_VMA {
      assert Sane(t[l]);
      BottomHasPartner(t, l);
    }
  }

  // ---- One merge ----

  /** The merged area has above it what the upper one had. */
  lemma MergedUnder(v: Vma, w: Vma, x: Vma)
    requires Under(v, w) && Sane(v) && Sane(w)
    ensures Under(Merged(v, w), x) <==> Under(w, x)
  {
    if x.file != 0 && v.file != 0 {
      ModAdds(v.offset + (v.end - v.start), w.end - w.start);
    }
  }

  /** And below it what the lower one had. */
  lemma MergedOver(v: Vma, w: Vma, x: Vma)
    requires Under(v, w)
    ensures Under(x, Merged(v, w)) <==> Under(x, v)
  {
  }

  /** Two areas are not over the same one. */
  lemma OnlyOneUpper(t: Table, l: nat, x: nat, y: nat)
    requires WellFormed(t) && l < NR_VMA && x < NR_VMA && y < NR_VMA && Under(t[l], t[x]) && Under(t[l], t[y])
    ensures x == y
  {
    assert x == y || Apart(t[x], t[y]);
    assert Sane(t[x]) && Sane(t[y]);
  }

  /** An upward merge leaves the bottom of every chain where it was. */
  lemma {:induction false} BottomAfterUp(t: Table, i: nat, j: nat, k: nat)
    requires WellFormed(t) && i < NR_VMA && j < NR_VMA && i != j && Under(t[i], t[j])
    requires WellFormed(MergePair(t, i, j)) && k < NR_VMA && k != j
    ensures Bottom(MergePair(t, i, j), k) == Bottom(t, k)
    decreases t[k].start
  {
    var t' := MergePair(t, i, j);
    assert Sane(t[i]) && Sane(t[j]);
    var l := Lower(t, t[k], 0);
    if l == NR_VMA {
      forall x | 0 <= x < NR_VMA ensures !Under(t'[x], t'[k]) {
        LowerSame(t, i, j, k, x);
      }
    } else if l == j {
      assert Sane(t[k]);
      LowerSame(t, i, j, k, i);
      OnlyOneLower(t', t'[k], i);
      OnlyOneLower(t, t[j], i);
      BottomAfterUp(t, i, j, i);
    } else {
      assert Sane(t[l]);
      if l == i {
        OnlyOneUpper(t, i, j, k);
      }
      LowerSame(t, i, j, k, l);
      OnlyOneLower(t', t'[k], l);
      BottomAfterUp(t, i, j, l);
    }
  }

  /** Who is under area `k` after the merge: slot `i` if it was `j`, and otherwise the same slot. */
  lemma LowerSame(t: Table, i: nat, j: nat, k: nat, x: nat)
    requires WellFormed(t) && i < NR_VMA && j < NR_VMA && i != j && Under(t[i], t[j])
    requires k < NR_VMA && k != j && x < NR_VMA
    ensures var t' := MergePair(t, i, j);
            Under(t'[x], t'[k]) <==> x != j && Under(t[if x == i then j else x], t[k])
  {
    var t' := MergePair(t, i, j);
    assert Sane(t[i]) && Sane(t[j]) && Sane(t[k]);
    CanMergeIs(t[i], t[j]);
    if k == i {
      MergedOver(t[i], t[j], t'[x]);
      if x == i {
        assert !Under(t'[i], t[i]);
      }
    } else if x == i {
      MergedUnder(t[i], t[j], t[k]);
    }
  }

  /** A merge of areas without a file leaves the chains of the others alone. */
  lemma {:induction false} BottomAfterAnonymous(t: Table, i: nat, j: nat, k: nat)
    requires WellFormed(t) && i < NR_VMA && j < NR_VMA && i != j && CanMerge(t[i], t[j]) && t[i].file == 0
    requires WellFormed(MergePair(t, i, j)) && k < NR_VMA && t[k].used && t[k].file != 0
    ensures Bottom(MergePair(t, i, j), k) == Bottom(t, k)
    decreases t[k].start
  {
    var t' := MergePair(t, i, j);
    assert forall x :: 0 <= x < NR_VMA ==> (Under(t'[x], t'[k]) <==> Under(t[x], t[k]));
    var l := Lower(t, t[k], 0);
    if l < NR_VMA {
      assert Sane(t[l]);
      OnlyOneLower(t', t'[k], l);
      BottomAfterAnonymous(t, i, j, l);
    }
  }

  lemma AnonymousOrder(t: Table, i: nat, j: nat)
    requires WellFormed(t) && i < NR_VMA && j < NR_VMA && i != j && CanMerge(t[i], t[j]) && t[i].file == 0
    requires WellFormed(MergePair(t, i, j))
    ensures InOrder(MergePair(t, i, j)) <==> InOrder(t)
  {
    forall k: nat | k < NR_VMA ensures Seated(MergePair(t, i, j), k) <==> Seated(t, k) {
      if t[k].used && t[k].file != 0 {
        BottomAfterAnonymous(t, i, j, k);
      }
    }
  }

  lemma SeatedAfterUp(t: Table, i: nat, j: nat, k: nat)
    requires WellFormed(t) && i < j < NR_VMA && Under(t[i], t[j]) && WellFormed(MergePair(t, i, j)) && k < NR_VMA
    ensures if k == j then Seated(MergePair(t, i, j), k) && (Seated(t, i) ==> Seated(t, k))
            else Seated(MergePair(t, i, j), k) <==> Seated(t, k)
  {
    if k == j {
      OnlyOneLower(t, t[j], i);
    } else {
      BottomAfterUp(t, i, j, k);
    }
  }

  lemma UpOrder(t: Table, i: nat, j: nat)
    requires WellFormed(t) && i < j < NR_VMA && Under(t[i], t[j]) && WellFormed(MergePair(t, i, j))
    ensures InOrder(MergePair(t, i, j)) <==> InOrder(t)
  {
    var t' := MergePair(t, i, j);
    forall k: nat | k < NR_VMA ensures (InOrder(t') ==> Seated(t, k)) && (InOrder(t) ==> Seated(t', k)) {
      SeatedAfterUp(t, i, j, k);
      SeatedAfterUp(t, i, j, i);
      assert InOrder(t') ==> Seated(t', i) && Seated(t', k);
      assert InOrder(t) ==> Seated(t, k);
    }
  }

  /** A merge that keeps offsets keeps the order of chains, both ways. */
  lemma KeptOrder(t: Table, i: nat, j: nat)
    requires WellFormed(t) && i < j < NR_VMA && CanMerge(t[i], t[j]) && Keeps(t[i], t[j])
    requires WellFormed(MergePair(t, i, j))
    ensures InOrder(MergePair(t, i, j)) <==> InOrder(t)
  {
    if t[i].file == 0 {
      AnonymousOrder(t, i, j);
    } else {
      assert Sane(t[i]) && Sane(t[j]);
      CanMergeIs(t[i], t[j]);
      UpOrder(t, i, j);
    }
  }

  /** A downward merge begins at an area that is not the bottom of its chain, though the bottom has a higher slot. */
  lemma DownIsOutOfOrder(t: Table, i: nat, j: nat)
    requires WellFormed(t) && i < NR_VMA && j < NR_VMA && (i, j) == FirstPair(t, 0, 0) && !Keeps(t[i], t[j])
    ensures !InOrder(t)
  {
    assert Sane(t[i]) && Sane(t[j]);
    CanMergeIs(t[i], t[j]);
    OnlyOneLower(t, t[i], j);
    BottomHasPartner(t, j);
    BottomHasPartner(t, i);
    var b := Bottom(t, i);
    assert b != i;
    var k :| 0 <= k < NR_VMA && Under(t[b], t[k]);
    assert Sane(t[b]) && Sane(t[k]);
    CanMergeIs(t[b], t[k]);
    FirstPairIsLowest(t, 0, 0, b, k);
    assert !Seated(t, i);
  }

  /** No merge of the run takes the downward branch if and only if the chains were in order at first. */
  lemma {:induction false} AllKeepIffInOrder(t: Table)
    requires WellFormed(t)
    ensures AllKeep(t) <==> InOrder(t)
    decreases Used(t)
  {
    var p := FirstPair(t, 0, 0);
    if p.0 == NR_VMA {
      forall i: nat | i < NR_VMA ensures Seated(t, i) {
        AloneIsBottom(t, i);
      }
    } else {
      MergeFrees(t, p.0, p.1, 0);
      MergeApart(t, p.0, p.1);
      if Keeps(t[p.0], t[p.1]) {
        assert Sane(t[p.0]) && Sane(t[p.1]);
        CanMergeIs(t[p.1], t[p.0]);
        CanMergeIs(t[p.0], t[p.1]);
        FirstPairIsLowest(t, 0, 0, p.1, p.0);
        KeptOrder(t, p.0, p.1);
        AllKeepIffInOrder(MergePair(t, p.0, p.1));
      } else {
        DownIsOutOfOrder(t, p.0, p.1);
      }
    }
  }

  lemma AloneIsBottom(t: Table, i: nat)
    requires WellFormed(t) && i < NR_VMA && FirstPair(t, 0, 0).0 == NR_VMA
    ensures Bottom(t, i) == i
  {
    var l := Lower(t, t[i], 0);
    if l < NR_VMA {
      assert Sane(t[l]) && Sane(t[i]);
      CanMergeIs(t[l], t[i]);
      NoPairLeft(t, 0, 0, l, i);
      assert false;
    }
  }

  /**
   Merging keeps the file offset of every address exactly when in every chain of file-backed
   areas that can merge the lowest area sits in the lowest slot.
   */
  lemma OffsetsKeptIffInOrder(t: Table)
    requires WellFormed(t)
    ensures (forall a: nat :: View(MergeAll(t), a) == View(t, a)) <==> InOrder(t)
  {
    OffsetsKeptIff(t);
    AllKeepIffInOrder(t);
  }
}
