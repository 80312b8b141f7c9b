/**
 The buddy page-frame allocator: `mem_map`, the per-order free lists and the free-page
 counter, with splitting on allocation and coalescing on release.
 */
module Buddy {
  import opened Seqs
  import opened Wrappers
  import opened BuddyBlocks

  /** `struct page`: the three flag bits, the order and the reference count. */
  datatype Page = Page(buddy: bool, reserved: bool, slab: bool, order: nat, refcount: nat)

  // ---- Free lists and counters, as values ----

  /** List `o` holds exactly the free blocks of order `o`. */
  ghost predicate ListOk(list: seq<nat>, free: BlockSet, o: nat) {
    NoRepeats(list) && forall p: nat :: p in list <==> p in free && free[p] == o
  }

  ghost predicate ListsOk(lists: seq<seq<nat>>, nrFree: seq<nat>, free: BlockSet) {
    && |lists| == |nrFree| == MAX_ORDER + 1
    && forall o: nat {:trigger lists[o]} {:trigger nrFree[o]} :: o <= MAX_ORDER ==>
      ListOk(lists[o], free, o) && nrFree[o] == |lists[o]|
  }

  /** The head frame of every free block, and no other frame, carries the free flag and the order. */
  ghost predicate HeadsOk(pages: seq<Page>, free: BlockSet) {
    && (forall p: nat :: p in free ==> p < |pages| && free[p] <= MAX_ORDER)
    && (forall p: nat {:trigger pages[p]} :: p < |pages| ==> HeadOk(pages[p], free, p))
  }

  ghost predicate HeadOk(page: Page, free: BlockSet, p: nat) {
    && (page.buddy <==> p in free)
    && (page.buddy ==> page.order == free[p] && page.refcount == 0)
  }

  /** The frames with a reference are the heads of the live allocations. */
  ghost predicate LiveOk(pages: seq<Page>, live: BlockSet) {
    && (forall p: nat :: p in live ==> p < |pages|)
    && (forall p: nat {:trigger pages[p]} :: p < |pages| ==> LiveHeadOk(pages[p], live, p))
  }

  ghost predicate LiveHeadOk(page: Page, live: BlockSet, p: nat) {
    && (page.refcount > 0 <==> p in live)
    && (p in live ==> page.order == live[p] && !page.buddy && !page.reserved)
  }

  /** Live allocations are legal blocks, apart from each other and from every free block. */
  ghost predicate Separate(live: BlockSet, free: BlockSet, total: nat) {
    && Legal(live, total) && Disjoint(live)
    && forall p {:trigger live[p]} :: p in live ==> Clear(free, p, live[p])
  }

  /** Pages on the lists of order `o` and up, in units of `1 << o` pages. */
  ghost function Weight(nrFree: seq<nat>, o: nat): nat
    decreases |nrFree| - o
  {
    if o >= |nrFree| then 0 else nrFree[o] + 2 * Weight(nrFree, o + 1)
  }

  /** One block more on list `k` is `1 << k` pages more. */
  lemma {:induction false} WeightAdd(nrFree: seq<nat>, o: nat, k: nat)
    requires o <= k < |nrFree|
    ensures Weight(nrFree[k := nrFree[k] + 1], o) == Weight(nrFree, o) + Pow2(k - o)
    decreases k - o
  {
    if o < k {
      WeightAdd(nrFree, o + 1, k);
    } else {
      WeightAbove(nrFree, o + 1, k, nrFree[k] + 1);
    }
  }

  lemma {:induction false} WeightAbove(nrFree: seq<nat>, o: nat, k: nat, c: nat)
    requires k < o && k < |nrFree|
    ensures Weight(nrFree[k := c], o) == Weight(nrFree, o)
    decreases |nrFree| - o
  {
    if o < |nrFree| {
      WeightAbove(nrFree, o + 1, k, c);
    }
  }

  /** The sum of `nr_free[o] * 2^o` over the orders below `n`. */
  ghost function SumOfBlocks(nrFree: seq<nat>, n: nat): nat
    requires n <= |nrFree|
  {
    if n == 0 then 0 else SumOfBlocks(nrFree, n - 1) + nrFree[n - 1] * Pow2(n - 1)
  }

  lemma Distribute(s: nat, c: nat, w: nat)
    ensures s * (c + 2 * w) == c * s + (2 * s) * w
  {
  }

  lemma {:induction false} WeightIsSum(nrFree: seq<nat>, n: nat)
    requires n <= |nrFree|
    ensures Weight(nrFree, 0) == SumOfBlocks(nrFree, n) + Pow2(n) * Weight(nrFree, n)
  {
    if n > 0 {
      WeightIsSum(nrFree, n - 1);
      var w := Weight(nrFree, n);
      Distribute(Pow2(n - 1), nrFree[n - 1], w);
    }
  }

  /** The first order from `cur` on whose list is not empty, or `MAX_ORDER + 1`. */
  function FirstOrder(lists: seq<seq<nat>>, cur: nat): (o: nat)
    requires |lists| == MAX_ORDER + 1
    ensures cur <= MAX_ORDER + 1 ==> cur <= o <= MAX_ORDER + 1
    ensures o <= MAX_ORDER ==> lists[o] != []
    ensures forall k :: cur <= k < o && k <= MAX_ORDER ==> lists[k] == []
    decreases MAX_ORDER + 1 - cur
  {
    if cur > MAX_ORDER || lists[cur] != [] then cur else FirstOrder(lists, cur + 1)
  }

  lemma RemoveFromList(list: seq<nat>, free: BlockSet, o: nat, i: nat)
    requires ListOk(list, free, o) && i < |list|
    ensures ListOk(list[..i] + list[i + 1..], free - {list[i]}, o)
  {
    var p, g, rest := list[i], free - {list[i]}, list[..i] + list[i + 1..];
    forall q: nat ensures q in rest <==> q in g && g[q] == o {
      if q in g && g[q] == o {
        var j :| 0 <= j < |list| && list[j] == q;
        assert if j < i then rest[j] == q else rest[j - 1] == q;
      }
      if q in rest {
        var j :| 0 <= j < |rest| && rest[j] == q;
        assert q == if j < i then list[j] else list[j + 1];
      }
    }
  }

  lemma AddToList(list: seq<nat>, free: BlockSet, o: nat, p: nat, tail: bool)
    requires ListOk(list, free, o) && p !in free
    ensures ListOk(if tail then list + [p] else [p] + list, free[p := o], o)
  {
    var longer := if tail then list + [p] else [p] + list;
    assert p !in list;
    forall q: nat ensures q in longer <==> q in free[p := o] && free[p := o][q] == o {
      assert q in longer <==> q == p || q in list;
    }
  }

  lemma ListsRemove(lists: seq<seq<nat>>, nrFree: seq<nat>, free: BlockSet, o: nat, i: nat)
    requires ListsOk(lists, nrFree, free) && o <= MAX_ORDER && i < |lists[o]|
    ensures nrFree[o] > 0
    ensures ListsOk(lists[o := lists[o][..i] + lists[o][i + 1..]], nrFree[o := nrFree[o] - 1], free - {lists[o][i]})
  {
    var p := lists[o][i];
    assert ListOk(lists[o], free, o) && p in lists[o];
    RemoveFromList(lists[o], free, o, i);
    forall k: nat | k <= MAX_ORDER && k != o ensures ListOk(lists[k], free - {p}, k) {
      assert ListOk(lists[k], free, k);
    }
  }

  lemma ListsAdd(lists: seq<seq<nat>>, nrFree: seq<nat>, free: BlockSet, o: nat, p: nat, tail: bool)
    requires ListsOk(lists, nrFree, free) && o <= MAX_ORDER && p !in free
    ensures ListsOk(lists[o := if tail then lists[o] + [p] else [p] + lists[o]], nrFree[o := nrFree[o] + 1], free[p := o])
  {
    AddToList(lists[o], free, o, p, tail);
    forall k: nat | k <= MAX_ORDER && k != o ensures ListOk(lists[k], free[p := o], k) {
      assert ListOk(lists[k], free, k);
    }
  }

  lemma Listed(lists: seq<seq<nat>>, nrFree: seq<nat>, pages: seq<Page>, free: BlockSet, p: nat)
    requires ListsOk(lists, nrFree, free) && HeadsOk(pages, free) && p in free
    ensures p < |pages| && pages[p].order == free[p] <= MAX_ORDER && p in lists[free[p]]
  {
    assert HeadOk(pages[p], free, p);
    assert ListOk(lists[free[p]], free, free[p]);
  }

  lemma WeightRemove(nrFree: seq<nat>, k: nat)
    requires k < |nrFree| && nrFree[k] > 0
    ensures Weight(nrFree[k := nrFree[k] - 1], 0) + Pow2(k) == Weight(nrFree, 0)
  {
    var less := nrFree[k := nrFree[k] - 1];
    WeightAdd(less, 0, k);
    assert less[k := less[k] + 1] == nrFree;
  }

  lemma HeadsRemove(pages: seq<Page>, free: BlockSet, p: nat)
    requires HeadsOk(pages, free) && p in free
    ensures HeadsOk(pages[p := pages[p].(buddy := false)], free - {p})
  {
    var pages', g := pages[p := pages[p].(buddy := false)], free - {p};
    forall q: nat | q < |pages'| ensures HeadOk(pages'[q], g, q) {
      assert HeadOk(pages[q], free, q);
    }
  }

  // ---- The invariant on blocks ----

  /**
   A key for the invariants below.  They are stated under it so that the solver looks
   inside only where a proof mentions the key.
   */
  ghost predicate Open(k: int) {
    true
  }

  /** The tests in front of a release; whatever fails one of them panics. */
  predicate Guards(pages: seq<Page>, pfn: nat, order: nat) {
    && order <= MAX_ORDER && pfn < |pages| && pfn + Pow2(order) <= |pages| && Aligned(pfn, order)
    && !pages[pfn].buddy && !pages[pfn].reserved && !pages[pfn].slab
    && pages[pfn].refcount != 0 && pages[pfn].order == order
  }

  /** They let through exactly the live blocks, with their order, that the slab allocator does not own. */
  lemma GuardsDecide(pages: seq<Page>, free: BlockSet, live: BlockSet, total: nat, pfn: nat, order: nat)
    requires |pages| == total && LiveOk(pages, live) && Orderly(free, live, total)
    ensures Guards(pages, pfn, order) <==> pfn in live && live[pfn] == order && !pages[pfn].slab
  {
    if pfn < |pages| {
      assert LiveHeadOk(pages[pfn], live, pfn);
    }
    if pfn in live {
      assert Open(0);
      assert Fits(pfn, live[pfn], total);
    }
  }

  /** Free blocks are canonical; live allocations are apart from each other and from them. */
  ghost predicate Orderly(free: BlockSet, live: BlockSet, total: nat) {
    forall k {:trigger Open(k)} :: Open(k) ==> Canonical(free, total) && Separate(live, free, total)
  }

  /** Besides, the block at `p` is neither free nor live. */
  ghost predicate Held(free: BlockSet, live: BlockSet, total: nat, p: nat, o: nat) {
    forall k {:trigger Open(k)} :: Open(k) ==>
      && Canonical(free, total) && Separate(live, free, total)
      && Fits(p, o, total) && Clear(free, p, o) && Clear(live, p, o)
  }

  /** The free frames together with block `(p, o)` are those of the other set with `(q, k)`. */
  ghost predicate SameFrames(f: BlockSet, p: nat, o: nat, g: BlockSet, q: nat, k: nat) {
    forall x: nat :: Covered(f, x) || InBlock(x, p, o) <==> Covered(g, x) || InBlock(x, q, k)
  }

  lemma SameFramesTrans(f: BlockSet, p: nat, o: nat, g: BlockSet, q: nat, k: nat, h: BlockSet, r: nat, l: nat)
    requires SameFrames(f, p, o, g, q, k) && SameFrames(g, q, k, h, r, l)
    ensures SameFrames(f, p, o, h, r, l)
  {
  }

  /** The frames of one block, all free before, are no longer free; nothing else changed. */
  ghost predicate TookRun(f: BlockSet, g: BlockSet, p: nat, o: nat) {
    && FreeRun(f, p, o)
    && forall x: nat :: Covered(g, x) <==> Covered(f, x) && !InBlock(x, p, o)
  }

  lemma NotIn(f: BlockSet, p: nat, o: nat)
    requires Clear(f, p, o)
    ensures p !in f
  {
  }

  lemma SeparateAdd(live: BlockSet, free: BlockSet, total: nat, q: nat, k: nat)
    requires Separate(live, free, total) && Clear(live, q, k)
    ensures Separate(live, free[q := k], total)
  {
    forall p | p in live ensures Clear(free[q := k], p, live[p]) {
      assert Clear(free, p, live[p]) && DisjointBlocks(q, k, p, live[p]);
    }
  }

  lemma ClearHalves(f: BlockSet, p: nat, o: nat)
    requires Clear(f, p, o + 1)
    ensures Clear(f, p, o) && Clear(f, p + Pow2(o), o)
  {
    forall q | q in f ensures DisjointBlocks(p, o, q, f[q]) && DisjointBlocks(p + Pow2(o), o, q, f[q]) {
      assert DisjointBlocks(p, o + 1, q, f[q]);
    }
  }

  lemma UpperHalf(free: BlockSet, p: nat, o: nat)
    requires p + Pow2(o) !in free
    ensures SameFrames(free, p, o + 1, free[p + Pow2(o) := o], p, o)
  {
    PutInCovers(free, p + Pow2(o), o);
    var g := free[p + Pow2(o) := o];
    forall x: nat ensures Covered(free, x) || InBlock(x, p, o + 1) <==> Covered(g, x) || InBlock(x, p, o) {
      assert Covered(g, x) <==> Covered(free, x) || InBlock(x, p + Pow2(o), o);
    }
  }

  lemma HeldSplit(free: BlockSet, live: BlockSet, total: nat, p: nat, o: nat)
    requires Held(free, live, total, p, o + 1)
    ensures var h := p + Pow2(o);
            && h < total && h !in free && h !in live
            && Held(free[h := o], live, total, p, o)
            && SameFrames(free, p, o + 1, free[h := o], p, o)
  {
    var h := p + Pow2(o);
    HeldSplitFree(free, live, total, p, o);
    HeldSplitLive(free, live, total, p, o);
    UpperHalf(free, p, o);
  }

  lemma HeldSplitFree(free: BlockSet, live: BlockSet, total: nat, p: nat, o: nat)
    requires Held(free, live, total, p, o + 1)
    ensures var h := p + Pow2(o);
            && h < total && h !in free && Canonical(free[h := o], total)
            && Fits(p, o, total) && Clear(free[h := o], p, o)
  {
    assert Open(0);
    SplitHalf(free, total, p, o);
  }

  lemma HeldSplitLive(free: BlockSet, live: BlockSet, total: nat, p: nat, o: nat)
    requires Held(free, live, total, p, o + 1)
    ensures var h := p + Pow2(o);
            h !in live && Clear(live, p, o) && Separate(live, free[h := o], total)
  {
    assert Open(0);
    var h := p + Pow2(o);
    ClearHalves(live, p, o);
    SeparateAdd(live, free, total, h, o);
    NotIn(live, h, o);
  }

  lemma ClearOfLive(live: BlockSet, free: BlockSet, total: nat, p: nat)
    requires Separate(live, free, total) && p in free
    ensures Clear(live, p, free[p]) && Separate(live, free - {p}, total)
  {
    forall q | q in live ensures DisjointBlocks(p, free[p], q, live[q]) {
      assert Clear(free, q, live[q]);
    }
    forall q | q in live ensures Clear(free - {p}, q, live[q]) {
      assert Clear(free, q, live[q]);
    }
  }

  lemma HeldTake(free: BlockSet, live: BlockSet, total: nat, p: nat)
    requires Orderly(free, live, total) && p in free
    ensures Held(free - {p}, live, total, p, free[p])
    ensures TookRun(free, free - {p}, p, free[p])
  {
    assert Open(0);
    TakeOut(free, total, p);
    ClearOfLive(live, free, total, p);
    BlockIsRun(free, p);
  }

  lemma HeldTook(f: BlockSet, mid: BlockSet, g: BlockSet, live: BlockSet, total: nat, p: nat, cur: nat, order: nat)
    requires order <= cur && TookRun(f, mid, p, cur)
    requires SameFrames(mid, p, cur, g, p, order) && Held(g, live, total, p, order)
    ensures TookRun(f, g, p, order) && Fits(p, order, total)
    ensures p !in live && p !in g && Orderly(g, live[p := order], total)
  {
    assert Open(0);
    Pow2Mono(order, cur);
    SubRun(f, p, cur, p, order);
    forall x: nat ensures Covered(g, x) <==> Covered(f, x) && !InBlock(x, p, order) {
      if Covered(g, x) {
        var q :| q in g && InBlock(x, q, g[q]);
        assert DisjointBlocks(p, order, q, g[q]);
      }
    }
    NotIn(live, p, order);
    NotIn(g, p, order);
  }

  lemma Servable(lists: seq<seq<nat>>, nrFree: seq<nat>, free: BlockSet, live: BlockSet, total: nat, order: nat)
    requires ListsOk(lists, nrFree, free) && Orderly(free, live, total) && order <= MAX_ORDER
    ensures FirstOrder(lists, order) <= MAX_ORDER
            <==> exists p: nat :: Aligned(p, order) && FreeRun(free, p, order)
  {
    assert Open(0);
    ServableIffRun(free, total, order);
    var cur := FirstOrder(lists, order);
    if cur <= MAX_ORDER {
      HeadIsFree(lists, nrFree, free, cur);
    }
    if p :| p in free && free[p] >= order {
      assert ListOk(lists[free[p]], free, free[p]);
      assert p in lists[free[p]];
    }
  }

  lemma HeadIsFree(lists: seq<seq<nat>>, nrFree: seq<nat>, free: BlockSet, o: nat)
    requires ListsOk(lists, nrFree, free) && o <= MAX_ORDER && lists[o] != []
    ensures lists[o][0] in free && free[lists[o][0]] == o && nrFree[o] > 0
  {
    assert ListOk(lists[o], free, o);
    assert lists[o][0] in lists[o];
  }

  // ---- Filling the lists at boot ----

  /** Each block was as large as alignment and the end of memory allow. */
  ghost predicate Greedy(f: BlockSet, total: nat) {
    forall p {:trigger f[p]} :: p in f ==> NoLarger(p, f[p], total)
  }

  ghost predicate NoLarger(p: nat, o: nat, total: nat) {
    o < MAX_ORDER ==> !(Aligned(p, o + 1) && p + Pow2(o + 1) <= total)
  }

  ghost predicate CoversRange(f: BlockSet, lo: nat, hi: nat) {
    forall x: nat :: Covered(f, x) <==> lo <= x < hi
  }

  /** Frames `lo` to `idx` are free, in greedily chosen blocks. */
  ghost predicate Filled(f: BlockSet, total: nat, lo: nat, idx: nat) {
    forall k {:trigger Open(k)} :: Open(k) ==> Canonical(f, total) && CoversRange(f, lo, idx) && Greedy(f, total)
  }

  lemma BlocksEndBy(f: BlockSet, lo: nat, idx: nat, q: nat)
    requires CoversRange(f, lo, idx) && q in f
    ensures q + Pow2(f[q]) <= idx
  {
    var last := q + Pow2(f[q]) - 1;
    assert InBlock(last, q, f[q]);
    assert Covered(f, last);
  }

  lemma FilledNext(f: BlockSet, total: nat, lo: nat, idx: nat, o: nat)
    requires Filled(f, total, lo, idx) && lo <= idx && Fits(idx, o, total) && NoLarger(idx, o, total)
    ensures idx !in f && Filled(f[idx := o], total, lo, idx + Pow2(o))
  {
    assert Open(0);
    forall q | q in f ensures DisjointBlocks(idx, o, q, f[q]) {
      BlocksEndBy(f, lo, idx, q);
    }
    NoBuddyBelow(f, total, lo, idx, o);
    PutIn(f, total, idx, o);
    RangeGrows(f, lo, idx, o);
    GreedyAdd(f, total, idx, o);
  }

  lemma NoBuddyBelow(f: BlockSet, total: nat, lo: nat, idx: nat, o: nat)
    requires CoversRange(f, lo, idx) && Greedy(f, total) && Fits(idx, o, total)
    ensures o < MAX_ORDER ==> !BuddyFree(f, idx, o)
  {
    FlipFacts(idx, o);
    if BuddyFree(f, idx, o) {
      BlocksEndBy(f, lo, idx, Flip(idx, o));
      assert NoLarger(Flip(idx, o), o, total);
    }
  }

  lemma RangeGrows(f: BlockSet, lo: nat, idx: nat, o: nat)
    requires CoversRange(f, lo, idx) && lo <= idx
    requires forall x: nat :: Covered(f[idx := o], x) <==> Covered(f, x) || InBlock(x, idx, o)
    ensures CoversRange(f[idx := o], lo, idx + Pow2(o))
  {
    var g := f[idx := o];
    forall x: nat ensures Covered(g, x) <==> lo <= x < idx + Pow2(o) {
      assert Covered(g, x) <==> Covered(f, x) || InBlock(x, idx, o);
    }
  }

  lemma GreedyAdd(f: BlockSet, total: nat, idx: nat, o: nat)
    requires Greedy(f, total) && NoLarger(idx, o, total)
    ensures Greedy(f[idx := o], total)
  {
  }

  lemma FilledDone(f: BlockSet, total: nat, lo: nat)
    requires Filled(f, total, lo, total)
    ensures Orderly(f, map[], total) && CoversRange(f, lo, total)
  {
    assert Open(0);
  }

  lemma {:induction false} WeightZero(nrFree: seq<nat>, o: nat)
    requires forall i :: 0 <= i < |nrFree| ==> nrFree[i] == 0
    ensures Weight(nrFree, o) == 0
    decreases |nrFree| - o
  {
    if o < |nrFree| {
      WeightZero(nrFree, o + 1);
    }
  }

  class Allocator {
    const total: nat
    var pages: seq<Page>
    var lists: seq<seq<nat>>
    var nrFree: seq<nat>
    var nrFreePages: nat
    /** The free blocks and the live allocations. */
    ghost var free: BlockSet
    ghost var live: BlockSet

    ghost predicate Linked()
      reads this
    {
      |pages| == total && ListsOk(lists, nrFree, free) && HeadsOk(pages, free)
    }

    ghost predicate Valid()
      reads this
    {
      && Linked() && LiveOk(pages, live) && Orderly(free, live, total)
      && nrFreePages == Weight(nrFree, 0)
    }

    /** All frames reserved, all lists empty, then everything from `freeIdx` on is handed over. */
    constructor (total: nat, freeIdx: nat)
      requires freeIdx <= total
      ensures Valid() && this.total == total && live == map[]
      ensures CoversRange(free, freeIdx, total)
      ensures nrFreePages == total - freeIdx
    {
      this.total := total;
      pages := seq(total, _ => Page(false, true, false, 0, 0));
      lists := seq(MAX_ORDER + 1, _ => []);
      nrFree := seq(MAX_ORDER + 1, _ => 0);
      nrFreePages := 0;
      free, live := map[], map[];
      new;
      WeightZero(nrFree, 0);
      HandOver(freeIdx);
    }

    /** The largest order that fits at `idx`. */
    method PickOrder(idx: nat, remaining: nat) returns (order: nat)
      requires remaining > 0
      ensures order <= MAX_ORDER && Aligned(idx, order) && Pow2(order) <= remaining
      ensures NoLarger(idx, order, idx + remaining)
    {
      order := MAX_ORDER;
      while order > 0 && (!Aligned(idx, order) || remaining < Pow2(order))
        invariant order <= MAX_ORDER
        invariant NoLarger(idx, order, idx + remaining)
      {
        order := order - 1;
      }
    }

    method HandOver(freeIdx: nat)
      requires Linked() && LiveOk(pages, live) && free == live == map[] && freeIdx <= total
      requires nrFreePages == Weight(nrFree, 0) == 0
      modifies this`pages, this`lists, this`nrFree, this`free, this`nrFreePages
      ensures Valid() && nrFreePages == total - freeIdx
      ensures CoversRange(free, freeIdx, total)
    {
      var idx := freeIdx;
      while idx < total
        invariant Linked() && LiveOk(pages, live) && freeIdx <= idx <= total && Filled(free, total, freeIdx, idx)
        invariant nrFreePages == Weight(nrFree, 0) == idx - freeIdx
      {
        var order := PickOrder(idx, total - idx);
        FilledNext(free, total, freeIdx, idx, order);
        AddFreeBlock(idx, order, true);
        nrFreePages := nrFreePages + Pow2(order);
        idx := idx + Pow2(order);
      }
      FilledDone(free, total, freeIdx);
    }

    method AddFreeBlock(pfn: nat, order: nat, tail: bool)
      requires Linked() && pfn < total && order <= MAX_ORDER && pfn !in free
      modifies this`pages, this`lists, this`nrFree, this`free
      ensures Linked() && free == old(free)[pfn := order]
      ensures pages == old(pages)[pfn := Page(true, false, false, order, 0)]
      ensures Weight(nrFree, 0) == old(Weight(nrFree, 0)) + Pow2(order)
    {
      ListsAdd(lists, nrFree, free, order, pfn, tail);
      WeightAdd(nrFree, 0, order);
      pages := pages[pfn := Page(true, false, false, order, 0)];
      lists := lists[order := if tail then lists[order] + [pfn] else [pfn] + lists[order]];
      nrFree := nrFree[order := nrFree[order] + 1];
      free := free[pfn := order];
    }

    method RemoveFreeBlock(pfn: nat)
      requires Linked() && pfn in free
      modifies this`pages, this`lists, this`nrFree, this`free
      ensures Linked() && free == old(free) - {pfn}
      ensures pages == old(pages)[pfn := old(pages)[pfn].(buddy := false)]
      ensures Weight(nrFree, 0) + Pow2(old(free)[pfn]) == old(Weight(nrFree, 0))
    {
      var order := pages[pfn].order;
      Listed(lists, nrFree, pages, free, pfn);
      var i :| 0 <= i < |lists[order]| && lists[order][i] == pfn;
      ListsRemove(lists, nrFree, free, order, i);
      HeadsRemove(pages, free, pfn);
      WeightRemove(nrFree, order);
      lists := lists[order := lists[order][..i] + lists[order][i + 1..]];
      pages := pages[pfn := pages[pfn].(buddy := false)];
      nrFree := nrFree[order := nrFree[order] - 1];
      free := free - {pfn};
    }

    /** Hand the upper half of the held block back. */
    method SplitOnce(pfn: nat, o: nat)
      requires Linked() && LiveOk(pages, live) && o < MAX_ORDER && Held(free, live, total, pfn, o + 1)
      modifies this`pages, this`lists, this`nrFree, this`free
      ensures Linked() && LiveOk(pages, live) && Held(free, live, total, pfn, o)
      ensures SameFrames(old(free), pfn, o + 1, free, pfn, o)
      ensures Weight(nrFree, 0) == old(Weight(nrFree, 0)) + Pow2(o)
    {
      HeldSplit(free, live, total, pfn, o);
      AddFreeBlock(pfn + Pow2(o), o, false);
    }

    /** Hand the upper halves of the block at `pfn` back until it has order `order`. */
    method SplitDown(pfn: nat, from: nat, order: nat)
      requires Linked() && LiveOk(pages, live) && order <= from <= MAX_ORDER && Held(free, live, total, pfn, from)
      modifies this`pages, this`lists, this`nrFree, this`free
      ensures Linked() && LiveOk(pages, live) && Held(free, live, total, pfn, order)
      ensures SameFrames(old(free), pfn, from, free, pfn, order)
      ensures Weight(nrFree, 0) + Pow2(order) == old(Weight(nrFree, 0)) + Pow2(from)
    {
      var cur := from;
      while cur > order
        invariant Linked() && LiveOk(pages, live) && order <= cur <= from && Held(free, live, total, pfn, cur)
        invariant SameFrames(old(free), pfn, from, free, pfn, cur)
        invariant Weight(nrFree, 0) + Pow2(cur) == old(Weight(nrFree, 0)) + Pow2(from)
      {
        ghost var was := free;
        SplitOnce(pfn, cur - 1);
        SameFramesTrans(old(free), pfn, from, was, pfn, cur, free, pfn, cur - 1);
        cur := cur - 1;
      }
    }

    /** Take the block at `pfn` out of its list and keep its lowest `1 << order` frames. */
    method TakeBlock(pfn: nat, from: nat, order: nat)
      requires Linked() && LiveOk(pages, live) && Orderly(free, live, total)
      requires pfn in free && free[pfn] == from && order <= from <= MAX_ORDER
      modifies this`pages, this`lists, this`nrFree, this`free
      ensures Linked() && LiveOk(pages, live) && TookRun(old(free), free, pfn, order) && Fits(pfn, order, total)
      ensures pfn !in live && pfn !in free && Orderly(free, live[pfn := order], total)
      ensures Weight(nrFree, 0) + Pow2(order) == old(Weight(nrFree, 0))
    {
      HeldTake(free, live, total, pfn);
      RemoveFreeBlock(pfn);
      ghost var mid := free;
      SplitDown(pfn, from, order);
      HeldTook(old(free), mid, free, live, total, pfn, from, order);
    }

    /** Allocate an aligned block of `1 << order` frames. */
    method GetFreePage(order: nat) returns (r: Option<nat>)
      requires Valid()
      modifies this
      ensures Valid()
      ensures r.None? ==> unchanged(this)
      ensures r.None? <==> order > MAX_ORDER || !exists p: nat :: Aligned(p, order) && FreeRun(old(free), p, order)
      ensures r.Some? ==> FirstOrder(old(lists), order) <= MAX_ORDER
      ensures r.Some? ==> r.value == old(lists)[FirstOrder(old(lists), order)][0]
      ensures r.Some? ==> Fits(r.value, order, total) && r.value !in old(live)
      ensures r.Some? ==> live == old(live)[r.value := order]
      ensures r.Some? ==> TookRun(old(free), free, r.value, order)
      ensures r.Some? ==> MayFree(r.value, order)
      ensures r.Some? ==> nrFreePages == old(nrFreePages) - Pow2(order)
    {
      if order > MAX_ORDER {
        return None;
      }
      var cur := order;
      while cur <= MAX_ORDER && lists[cur] == []
        invariant order <= cur <= MAX_ORDER + 1
        invariant FirstOrder(lists, cur) == FirstOrder(lists, order)
      {
        cur := cur + 1;
      }
      Servable(lists, nrFree, free, live, total, order);
      if cur > MAX_ORDER {
        return None;
      }
      var pfn := lists[cur][0];
      HeadIsFree(lists, nrFree, free, cur);
      TakeBlock(pfn, cur, order);
      pages := pages[pfn := Page(false, false, false, order, 1)];
      live := live[pfn := order];
      nrFreePages := nrFreePages - Pow2(order);
      return Some(pfn);
    }

    /** The release of a live block that `free_page` accepts. */
    ghost predicate MayFree(pfn: nat, order: nat)
      reads this
    {
      pfn in live && live[pfn] == order && pfn < |pages| && !pages[pfn].slab
    }

    /** Release a block and coalesce it with its free buddies.  `ok == false` is a panic. */
    method FreePage(pfn: nat, order: nat) returns (ok: bool)
      requires Valid()
      modifies this
      ensures ok <==> old(MayFree(pfn, order))
      ensures !ok ==> unchanged(this)
      ensures ok ==> Valid() && live == old(live) - {pfn}
      ensures ok ==> GaveRun(old(free), free, pfn, order)
      ensures ok ==> nrFreePages == old(nrFreePages) + Pow2(order)
    {
      GuardsDecide(pages, free, live, total, pfn, order);
      if !Guards(pages, pfn, order) {
        return false;
      }
      HeldRelease(free, live, total, pfn);
      pages := pages[pfn := pages[pfn].(buddy := false, reserved := false, slab := false, refcount := 0)];
      live := live - {pfn};
      var p, o := Coalesce(pfn, order);
      HeldGive(old(free), free, live, total, pfn, order, p, o);
      AddFreeBlock(p, o, false);
      nrFreePages := nrFreePages + Pow2(order);
      return true;
    }

    /**
     An allocation released straight away: the release is accepted, and blocks, allocations
     and the counter are as they were.
     */
    method AllocateAndFree(order: nat) returns (served: bool)
      requires Valid()
      modifies this
      ensures Valid() && free == old(free) && live == old(live) && nrFreePages == old(nrFreePages)
      ensures served <==> order <= MAX_ORDER && exists p: nat :: Aligned(p, order) && FreeRun(old(free), p, order)
    {
      var r := GetFreePage(order);
      if r.None? {
        return false;
      }
      ghost var mid := free;
      var ok := FreePage(r.value, order);
      RoundTrip(old(free), mid, free, old(live), live, total, r.value, order);
      assert old(live)[r.value := order] - {r.value} == old(live);
      return ok;
    }

    /** If the held block's buddy is free, take it out of its list; `q` is where the pair starts. */
    method MergeOnce(p: nat, o: nat) returns (merged: bool, q: nat)
      requires Linked() && LiveOk(pages, live) && o < MAX_ORDER && Held(free, live, total, p, o)
      modifies this`pages, this`lists, this`nrFree, this`free
      ensures Linked() && LiveOk(pages, live)
      ensures merged <==> old(BuddyFree(free, p, o))
      ensures !merged ==> unchanged(this)
      ensures merged ==> Held(free, live, total, q, o + 1) && SameFrames(old(free), p, o, free, q, o + 1)
      ensures merged ==> Weight(nrFree, 0) + Pow2(o) == old(Weight(nrFree, 0))
    {
      var buddy := Flip(p, o);
      if buddy >= total || !pages[buddy].buddy || pages[buddy].order != o {
        return false, p;
      }
      HeldMerge(free, live, total, p, o);
      RemoveFreeBlock(buddy);
      return true, if p < buddy then p else buddy;
    }

    /** One round of the loop that coalesces; the release began with block `(pfn, order)` and free blocks `f0`. */
    method GrowOnce(p: nat, o: nat, ghost f0: BlockSet, ghost pfn: nat, ghost order: nat)
      returns (merged: bool, p': nat, o': nat)
      requires Linked() && LiveOk(pages, live) && o < MAX_ORDER && Held(free, live, total, p, o)
      requires SameFrames(f0, pfn, order, free, p, o)
      modifies this`pages, this`lists, this`nrFree, this`free
      ensures Linked() && LiveOk(pages, live) && o' <= MAX_ORDER && Held(free, live, total, p', o')
      ensures SameFrames(f0, pfn, order, free, p', o')
      ensures if merged then o' == o + 1 else o' == o && !BuddyFree(free, p', o')
      ensures Weight(nrFree, 0) + Pow2(o') == old(Weight(nrFree, 0)) + Pow2(o)
    {
      ghost var was := free;
      merged, p' := MergeOnce(p, o);
      o' := if merged then o + 1 else o;
      if merged {
        SameFramesTrans(f0, pfn, order, was, p, o, free, p', o');
      } else {
        p' := p;
      }
    }

    /** Take free buddies out of the lists for as long as there is one, growing the held block. */
    method Coalesce(pfn: nat, order: nat) returns (p: nat, o: nat)
      requires Linked() && LiveOk(pages, live) && order <= MAX_ORDER && Held(free, live, total, pfn, order)
      modifies this`pages, this`lists, this`nrFree, this`free
      ensures Linked() && LiveOk(pages, live) && o <= MAX_ORDER && Held(free, live, total, p, o)
      ensures o < MAX_ORDER ==> !BuddyFree(free, p, o)
      ensures SameFrames(old(free), pfn, order, free, p, o)
      ensures Weight(nrFree, 0) + Pow2(o) == old(Weight(nrFree, 0)) + Pow2(order)
    {
      p, o := pfn, order;
      while o < MAX_ORDER
        invariant Linked() && LiveOk(pages, live) && o <= MAX_ORDER && Held(free, live, total, p, o)
        invariant SameFrames(old(free), pfn, order, free, p, o)
        invariant Weight(nrFree, 0) + Pow2(o) == old(Weight(nrFree, 0)) + Pow2(order)
      {
        var merged;
        merged, p, o := GrowOnce(p, o, old(free), pfn, order);
        if !merged {
          break;
        }
      }
    }
  }

  /** The frames of one block, none free before, are now free; nothing else changed. */
  ghost predicate GaveRun(f: BlockSet, g: BlockSet, p: nat, o: nat) {
    forall x: nat :: Covered(g, x) <==> Covered(f, x) || InBlock(x, p, o)
  }

  lemma HeldRelease(free: BlockSet, live: BlockSet, total: nat, p: nat)
    requires Orderly(free, live, total) && p in live
    ensures Held(free, live - {p}, total, p, live[p])
  {
    assert Open(0);
    assert Clear(free, p, live[p]);
    forall q | q in live - {p} ensures DisjointBlocks(p, live[p], q, live[q]) && Clear(free, q, live[q]) {
    }
  }

  lemma HeldMerge(free: BlockSet, live: BlockSet, total: nat, p: nat, o: nat)
    requires Held(free, live, total, p, o) && o < MAX_ORDER && BuddyFree(free, p, o)
    ensures var b := Flip(p, o);
            && Held(free - {b}, live, total, Parent(p, o), o + 1)
            && SameFrames(free, p, o, free - {b}, Parent(p, o), o + 1)
  {
    assert Open(0);
    var b := Flip(p, o);
    FlipFacts(p, o);
    MergeHalves(free, total, p, o);
    ClearOfLive(live, free, total, b);
    forall q | q in live ensures DisjointBlocks(Parent(p, o), o + 1, q, live[q]) {
      assert DisjointBlocks(p, o, q, live[q]) && DisjointBlocks(b, o, q, live[q]);
    }
  }

  lemma HeldGive(f: BlockSet, g: BlockSet, live: BlockSet, total: nat, pfn: nat, order: nat, p: nat, o: nat)
    requires Held(g, live, total, p, o) && (o < MAX_ORDER ==> !BuddyFree(g, p, o))
    requires SameFrames(f, pfn, order, g, p, o)
    ensures p < total && p !in g && p !in live && Orderly(g[p := o], live, total) && GaveRun(f, g[p := o], pfn, order)
  {
    assert Open(0);
    PutIn(g, total, p, o);
    SeparateAdd(live, g, total, p, o);
    NotIn(live, p, o);
  }

  // ---- Consequences of canonicity ----

  /** Freeing an allocation straight away restores the same free blocks. */
  lemma RoundTrip(f: BlockSet, g: BlockSet, h: BlockSet, live: BlockSet, live': BlockSet, total: nat, p: nat, o: nat)
    requires Orderly(f, live, total) && Orderly(h, live', total)
    requires TookRun(f, g, p, o) && GaveRun(g, h, p, o)
    ensures h == f
  {
    assert Open(0);
    CanonicalUnique(f, h, total);
  }

  /** Blocks released one after the other; `chain` are the free sets in between. */
  ghost predicate GaveAll(chain: seq<BlockSet>, blocks: seq<(nat, nat)>) {
    && |chain| == |blocks| + 1
    && forall i :: 0 <= i < |blocks| ==> GaveRun(chain[i], chain[i + 1], blocks[i].0, blocks[i].1)
  }

  ghost predicate InSome(x: nat, blocks: seq<(nat, nat)>) {
    exists i :: 0 <= i < |blocks| && InBlock(x, blocks[i].0, blocks[i].1)
  }

  lemma {:induction false} GaveAllCovers(chain: seq<BlockSet>, blocks: seq<(nat, nat)>, x: nat)
    requires GaveAll(chain, blocks)
    ensures Covered(chain[|blocks|], x) <==> Covered(chain[0], x) || InSome(x, blocks)
  {
    if blocks != [] {
      var n := |blocks| - 1;
      var front := blocks[..n];
      GaveAllCovers(chain[..n + 1], front, x);
      assert GaveRun(chain[n], chain[n + 1], blocks[n].0, blocks[n].1);
      assert forall i :: 0 <= i < n ==> front[i] == blocks[i];
      assert InSome(x, blocks) <==> InSome(x, front) || InBlock(x, blocks[n].0, blocks[n].1);
    }
  }

  /** Releasing the same blocks in any order, however many, leaves the same free-block set. */
  lemma ReleaseOrder(chain: seq<BlockSet>, blocks: seq<(nat, nat)>, chain': seq<BlockSet>, blocks': seq<(nat, nat)>,
                     live: BlockSet, live': BlockSet, total: nat)
    requires GaveAll(chain, blocks) && GaveAll(chain', blocks') && chain[0] == chain'[0]
    requires forall b :: b in blocks <==> b in blocks'
    requires Orderly(chain[|blocks|], live, total) && Orderly(chain'[|blocks'|], live', total)
    ensures chain[|blocks|] == chain'[|blocks'|]
  {
    assert Open(0);
    forall x: nat ensures Covered(chain[|blocks|], x) <==> Covered(chain'[|blocks'|], x) {
      GaveAllCovers(chain, blocks, x);
      GaveAllCovers(chain', blocks', x);
      SameFramesInSome(x, blocks, blocks');
      SameFramesInSome(x, blocks', blocks);
    }
    CanonicalUnique(chain[|blocks|], chain'[|blocks'|], total);
  }

  lemma SameFramesInSome(x: nat, blocks: seq<(nat, nat)>, blocks': seq<(nat, nat)>)
    requires forall b :: b in blocks ==> b in blocks'
    ensures InSome(x, blocks) ==> InSome(x, blocks')
  {
    if InSome(x, blocks) {
      var i :| 0 <= i < |blocks| && InBlock(x, blocks[i].0, blocks[i].1);
      assert blocks[i] in blocks';
    }
  }

  /** In every valid state the free blocks are exactly the maximal aligned free runs. */
  lemma FreeBlocksAreMaximalRuns(a: Allocator, p: nat, o: nat)
    requires a.Valid()
    ensures p in a.free && a.free[p] == o <==> MaximalRun(a.free, p, o)
  {
    assert Open(0);
    CanonicalIsMaximal(a.free, a.total, p, o);
  }

  /** No frame belongs to two blocks, free or live. */
  lemma BlocksNeverOverlap(a: Allocator, p: nat, q: nat)
    requires a.Valid() && p in a.free + a.live && q in a.free + a.live && p != q
    ensures var all := a.free + a.live;
            Fits(p, all[p], a.total) && DisjointBlocks(p, all[p], q, all[q])
  {
    assert Open(0);
    forall r | r in a.live ensures Clear(a.free, r, a.live[r]) && r !in a.free {
      NotIn(a.free, r, a.live[r]);
    }
  }

  /** The page counter is the sum over the orders of list length times block size. */
  lemma PageCounter(a: Allocator)
    requires a.Valid()
    ensures a.nrFreePages == SumOfBlocks(a.nrFree, MAX_ORDER + 1)
  {
    WeightIsSum(a.nrFree, MAX_ORDER + 1);
    assert Weight(a.nrFree, MAX_ORDER + 1) == 0;
  }
}
