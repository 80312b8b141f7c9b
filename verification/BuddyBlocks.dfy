/**
 Aligned power-of-two blocks of page frames, and the theorem behind the buddy allocator:
 a set of disjoint aligned blocks in which no two buddies are both free is determined by
 the set of free pages, and consists of exactly the maximal aligned free runs.
 */
module BuddyBlocks {

  const MAX_ORDER: nat := 9

  /** `1 << o`. */
  function Pow2(o: nat): (s: nat)
    ensures s >= 1
  {
    if o == 0 then 1 else 2 * Pow2(o - 1)
  }

  /** `(p & ((1 << o) - 1)) == 0`, bit by bit. */
  predicate Aligned(p: nat, o: nat) {
    o == 0 || (p % 2 == 0 && Aligned(p / 2, o - 1))
  }

  /** `p ^ (1 << o)`, bit by bit. */
  function Flip(p: nat, o: nat): nat {
    if o == 0 then (if p % 2 == 0 then p + 1 else p - 1)
    else 2 * Flip(p / 2, o - 1) + p % 2
  }

  predicate InBlock(x: nat, p: nat, o: nat) {
    p <= x < p + Pow2(o)
  }

  // ---- Alignment ----

  lemma {:induction false} AlignedBelow(p: nat, o: nat, k: nat)
    requires k <= o && Aligned(p, o)
    ensures Aligned(p, k)
  {
    if k > 0 {
      AlignedBelow(p / 2, o - 1, k - 1);
    }
  }

  /** An aligned block that meets a larger one lies inside it. */
  lemma {:induction false} Nested(p: nat, o: nat, q: nat, k: nat, x: nat)
    requires o <= k && Aligned(p, o) && Aligned(q, k)
    requires InBlock(x, p, o) && InBlock(x, q, k)
    ensures q <= p && p + Pow2(o) <= q + Pow2(k)
  {
    if o > 0 {
      Nested(p / 2, o - 1, q / 2, k - 1, x / 2);
    }
  }

  /** A block and its buddy are the two halves of their parent. */
  lemma {:induction false} FlipFacts(p: nat, o: nat)
    requires Aligned(p, o)
    ensures Aligned(Flip(p, o), o) && Flip(Flip(p, o), o) == p
    ensures var lo := if p < Flip(p, o) then p else Flip(p, o);
            && Aligned(lo, o + 1)
            && ((p == lo && Flip(p, o) == lo + Pow2(o)) || (Flip(p, o) == lo && p == lo + Pow2(o)))
  {
    if o > 0 {
      FlipFacts(p / 2, o - 1);
    }
  }

  /** The halves of a block aligned at `o + 1`. */
  lemma {:induction false} HalvesFacts(p: nat, o: nat)
    requires Aligned(p, o + 1)
    ensures Aligned(p, o) && Aligned(p + Pow2(o), o) && Flip(p, o) == p + Pow2(o)
  {
    if o > 0 {
      HalvesFacts(p / 2, o - 1);
      HalfOf(p, Pow2(o - 1));
    }
  }

  lemma HalfOf(p: nat, h: nat)
    requires p % 2 == 0
    ensures (p + 2 * h) % 2 == 0 && (p + 2 * h) / 2 == p / 2 + h && 2 * (p / 2 + h) == p + 2 * h
  {
  }

  lemma {:induction false} Pow2Mono(o: nat, k: nat)
    requires o <= k
    ensures Pow2(o) <= Pow2(k)
  {
    if o < k {
      Pow2Mono(o, k - 1);
    }
  }

  // ---- Sets of blocks ----

  /** Free blocks: start frame to order. */
  type BlockSet = map<nat, nat>

  /** In range, aligned, and of a legal order. */
  ghost predicate Legal(f: BlockSet, total: nat) {
    forall p {:trigger f[p]} :: p in f ==> f[p] <= MAX_ORDER && Aligned(p, f[p]) && p + Pow2(f[p]) <= total
  }

  ghost predicate DisjointBlocks(p: nat, o: nat, q: nat, k: nat) {
    p + Pow2(o) <= q || q + Pow2(k) <= p
  }

  ghost predicate Disjoint(f: BlockSet) {
    forall p, q {:trigger f[p], f[q]} :: p in f && q in f && p != q ==> DisjointBlocks(p, f[p], q, f[q])
  }

  /** No block and its buddy are both in the set: nothing is left to coalesce. */
  ghost predicate Coalesced(f: BlockSet) {
    forall p {:trigger f[p]} :: p in f && f[p] < MAX_ORDER ==> !BuddyFree(f, p, f[p])
  }

  ghost predicate BuddyFree(f: BlockSet, p: nat, o: nat) {
    Flip(p, o) in f && f[Flip(p, o)] == o
  }

  ghost predicate Canonical(f: BlockSet, total: nat) {
    Legal(f, total) && Disjoint(f) && Coalesced(f)
  }

  ghost predicate Covered(f: BlockSet, x: nat) {
    exists p :: p in f && InBlock(x, p, f[p])
  }

  /** Every frame of the block is free. */
  ghost predicate FreeRun(f: BlockSet, p: nat, o: nat) {
    forall x: nat :: InBlock(x, p, o) ==> Covered(f, x)
  }

  /** An aligned free run that cannot be doubled. */
  ghost predicate MaximalRun(f: BlockSet, p: nat, o: nat) {
    && o <= MAX_ORDER && Aligned(p, o) && FreeRun(f, p, o)
    && (o < MAX_ORDER ==> !FreeRun(f, Parent(p, o), o + 1))
  }

  /** The start of the block of the next order that holds `p`. */
  function Parent(p: nat, o: nat): nat {
    if p < Flip(p, o) then p else Flip(p, o)
  }

  // ---- Canonicity ----

  lemma SubRun(f: BlockSet, p: nat, o: nat, q: nat, k: nat)
    requires FreeRun(f, p, o) && p <= q && q + Pow2(k) <= p + Pow2(o)
    ensures FreeRun(f, q, k)
  {
    forall x: nat | InBlock(x, q, k) ensures Covered(f, x) {
      assert InBlock(x, p, o);
    }
  }

  lemma BlockIsRun(f: BlockSet, p: nat)
    requires p in f
    ensures FreeRun(f, p, f[p])
  {
  }

  /** Every aligned free run lies inside one free block. */
  lemma {:induction false} RunInBlock(f: BlockSet, total: nat, p: nat, o: nat) returns (q: nat)
    requires Canonical(f, total) && o <= MAX_ORDER && Aligned(p, o) && FreeRun(f, p, o)
    ensures q in f && f[q] >= o && q <= p && p + Pow2(o) <= q + Pow2(f[q])
    decreases o
  {
    if o == 0 {
      assert InBlock(p, p, 0);
      q :| q in f && InBlock(p, q, f[q]);
    } else {
      var h := p + Pow2(o - 1);
      HalvesFacts(p, o - 1);
      SubRun(f, p, o, p, o - 1);
      SubRun(f, p, o, h, o - 1);
      q := RunInBlock(f, total, p, o - 1);
      var r := RunInBlock(f, total, h, o - 1);
      q := JoinHalves(f, total, p, o, q, r);
    }
  }

  lemma JoinHalves(f: BlockSet, total: nat, p: nat, o: nat, q: nat, r: nat) returns (b: nat)
    requires Canonical(f, total) && 0 < o <= MAX_ORDER && Aligned(p, o)
    requires q in f && f[q] >= o - 1 && q <= p && p + Pow2(o - 1) <= q + Pow2(f[q])
    requires r in f && f[r] >= o - 1 && r <= p + Pow2(o - 1) && p + Pow2(o) <= r + Pow2(f[r])
    ensures b in f && f[b] >= o && b <= p && p + Pow2(o) <= b + Pow2(f[b])
  {
    assert Aligned(q, f[q]) && Aligned(r, f[r]);
    if f[q] >= o {
      b := q;
      Nested(p, o, q, f[q], p);
    } else if f[r] >= o {
      b := r;
      Nested(p, o, r, f[r], p + Pow2(o - 1));
    } else {
      NotBothHalves(f, total, p, o - 1);
      assert false;
    }
  }

  /** The two halves of an aligned block are never both free blocks of their own. */
  lemma NotBothHalves(f: BlockSet, total: nat, p: nat, o: nat)
    requires Canonical(f, total) && o < MAX_ORDER && Aligned(p, o + 1)
    ensures p in f && p + Pow2(o) in f ==> f[p] != o || f[p + Pow2(o)] != o
  {
    HalvesFacts(p, o);
    assert p in f && f[p] == o ==> !BuddyFree(f, p, o);
  }

  lemma BlockIsMaximal(f: BlockSet, total: nat, p: nat)
    requires Canonical(f, total) && p in f
    ensures MaximalRun(f, p, f[p])
  {
    var o := f[p];
    BlockIsRun(f, p);
    if o < MAX_ORDER && FreeRun(f, Parent(p, o), o + 1) {
      FlipFacts(p, o);
      var q := RunInBlock(f, total, Parent(p, o), o + 1);
      assert false;
    }
  }

  /** A run inside a larger free block can be doubled. */
  lemma Doubles(f: BlockSet, p: nat, o: nat, q: nat)
    requires q in f && o < f[q] && Aligned(p, o) && Aligned(q, f[q])
    requires q <= p && p + Pow2(o) <= q + Pow2(f[q])
    ensures FreeRun(f, Parent(p, o), o + 1)
  {
    FlipFacts(p, o);
    Nested(Parent(p, o), o + 1, q, f[q], p);
    BlockIsRun(f, q);
    SubRun(f, q, f[q], Parent(p, o), o + 1);
  }

  lemma MaximalIsBlock(f: BlockSet, total: nat, p: nat, o: nat)
    requires Canonical(f, total) && MaximalRun(f, p, o)
    ensures p in f && f[p] == o
  {
    var q := RunInBlock(f, total, p, o);
    assert Fits(q, f[q], total);
    if f[q] > o {
      Doubles(f, p, o, q);
      assert false;
    }
  }

  /** The free blocks are exactly the maximal aligned free runs. */
  lemma CanonicalIsMaximal(f: BlockSet, total: nat, p: nat, o: nat)
    requires Canonical(f, total)
    ensures p in f && f[p] == o <==> MaximalRun(f, p, o)
  {
    if p in f && f[p] == o {
      BlockIsMaximal(f, total, p);
    }
    if MaximalRun(f, p, o) {
      MaximalIsBlock(f, total, p, o);
    }
  }

  /** Two canonical sets with the same free pages are the same set. */
  lemma CanonicalUnique(f: BlockSet, g: BlockSet, total: nat)
    requires Canonical(f, total) && Canonical(g, total)
    requires forall x: nat :: Covered(f, x) <==> Covered(g, x)
    ensures f == g
  {
    forall p: nat, o: nat ensures MaximalRun(f, p, o) <==> MaximalRun(g, p, o) {
      assert FreeRun(f, p, o) <==> FreeRun(g, p, o);
      assert FreeRun(f, Parent(p, o), o + 1) <==> FreeRun(g, Parent(p, o), o + 1);
    }
    forall p | p in f ensures p in g && g[p] == f[p] {
      CanonicalIsMaximal(f, total, p, f[p]);
      CanonicalIsMaximal(g, total, p, f[p]);
    }
    forall p | p in g ensures p in f {
      CanonicalIsMaximal(f, total, p, g[p]);
      CanonicalIsMaximal(g, total, p, g[p]);
    }
  }

  /** A block of some order can be served exactly when an aligned free run of that order exists. */
  lemma ServableIffRun(f: BlockSet, total: nat, order: nat)
    requires Canonical(f, total) && order <= MAX_ORDER
    ensures (exists p :: p in f && f[p] >= order) <==> (exists p: nat :: Aligned(p, order) && FreeRun(f, p, order))
  {
    if p :| p in f && f[p] >= order {
      AlignedBelow(p, f[p], order);
      Pow2Mono(order, f[p]);
      assert FreeRun(f, p, order);
    }
    if p: nat :| Aligned(p, order) && FreeRun(f, p, order) {
      var q := RunInBlock(f, total, p, order);
    }
  }

  // ---- Steps ----

  /** No frame of the block is covered. */
  ghost predicate Clear(f: BlockSet, p: nat, o: nat) {
    forall q {:trigger f[q]} :: q in f ==> DisjointBlocks(p, o, q, f[q])
  }

  ghost predicate Fits(p: nat, o: nat, total: nat) {
    o <= MAX_ORDER && Aligned(p, o) && p + Pow2(o) <= total
  }

  /** Taking a block out uncovers exactly its frames. */
  lemma TakeOut(f: BlockSet, total: nat, p: nat)
    requires Canonical(f, total) && p in f
    ensures Canonical(f - {p}, total) && Clear(f - {p}, p, f[p]) && Fits(p, f[p], total)
    ensures forall x: nat :: Covered(f - {p}, x) <==> Covered(f, x) && !InBlock(x, p, f[p])
  {
    var g := f - {p};
    forall x: nat ensures Covered(g, x) <==> Covered(f, x) && !InBlock(x, p, f[p]) {
      if Covered(f, x) && !InBlock(x, p, f[p]) {
        var q :| q in f && InBlock(x, q, f[q]);
        assert q in g;
      }
    }
    forall q | q in g && g[q] < MAX_ORDER ensures !BuddyFree(g, q, g[q]) {
      assert !BuddyFree(f, q, f[q]);
    }
  }

  /** Putting in a block that is clear and has no free buddy covers exactly its frames. */
  lemma PutIn(f: BlockSet, total: nat, p: nat, o: nat)
    requires Canonical(f, total) && Fits(p, o, total) && Clear(f, p, o)
    requires o < MAX_ORDER ==> !BuddyFree(f, p, o)
    ensures p !in f && Canonical(f[p := o], total)
    ensures forall x: nat :: Covered(f[p := o], x) <==> Covered(f, x) || InBlock(x, p, o)
  {
    NotStarting(f, p, o);
    PutInCovers(f, p, o);
    PutInCoalesced(f, total, p, o);
  }

  lemma NotStarting(f: BlockSet, p: nat, o: nat)
    requires Clear(f, p, o)
    ensures p !in f
  {
  }

  lemma PutInCovers(f: BlockSet, p: nat, o: nat)
    requires p !in f
    ensures forall x: nat :: Covered(f[p := o], x) <==> Covered(f, x) || InBlock(x, p, o)
  {
    var g := f[p := o];
    forall x: nat ensures Covered(g, x) <==> Covered(f, x) || InBlock(x, p, o) {
      if Covered(f, x) {
        var q :| q in f && InBlock(x, q, f[q]);
        assert q in g && g[q] == f[q];
      }
      if InBlock(x, p, o) {
        assert p in g && g[p] == o;
      }
    }
  }

  lemma PutInCoalesced(f: BlockSet, total: nat, p: nat, o: nat)
    requires Legal(f, total) && Coalesced(f) && Aligned(p, o) && p !in f
    requires o < MAX_ORDER ==> !BuddyFree(f, p, o)
    ensures Coalesced(f[p := o])
  {
    var g := f[p := o];
    forall q | q in g && g[q] < MAX_ORDER ensures !BuddyFree(g, q, g[q]) {
      FlipFacts(q, g[q]);
      if q != p {
        assert !BuddyFree(f, q, f[q]);
      }
    }
  }

  /** Splitting: the upper half goes back, the lower half stays clear. */
  lemma SplitHalf(f: BlockSet, total: nat, p: nat, o: nat)
    requires Canonical(f, total) && Fits(p, o + 1, total) && Clear(f, p, o + 1)
    ensures Canonical(f[p + Pow2(o) := o], total) && p + Pow2(o) !in f
    ensures Fits(p, o, total) && Clear(f[p + Pow2(o) := o], p, o) && Fits(p + Pow2(o), o, total)
    ensures forall x: nat :: Covered(f[p + Pow2(o) := o], x) <==> Covered(f, x) || InBlock(x, p + Pow2(o), o)
  {
    HalvesFacts(p, o);
    var h := p + Pow2(o);
    FlipFacts(p, o);
    PutIn(f, total, h, o);
  }

  /** Coalescing: block and buddy become their parent, which is clear once the buddy is out. */
  lemma MergeHalves(f: BlockSet, total: nat, p: nat, o: nat)
    requires Canonical(f, total) && Fits(p, o, total) && Clear(f, p, o) && o < MAX_ORDER && BuddyFree(f, p, o)
    ensures var b := Flip(p, o);
            && Canonical(f - {b}, total) && Fits(Parent(p, o), o + 1, total) && Clear(f - {b}, Parent(p, o), o + 1)
            && forall x: nat :: Covered(f - {b}, x) || InBlock(x, Parent(p, o), o + 1) <==> Covered(f, x) || InBlock(x, p, o)
  {
    var b := Flip(p, o);
    FlipFacts(p, o);
    TakeOut(f, total, b);
    var g := f - {b};
    forall x: nat
      ensures Covered(g, x) || InBlock(x, Parent(p, o), o + 1) <==> Covered(f, x) || InBlock(x, p, o)
    {
      assert InBlock(x, b, o) ==> Covered(f, x);
    }
  }
}
