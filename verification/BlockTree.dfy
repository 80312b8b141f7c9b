/**
 The shape of an ext2 file's block tree, as a value.

 A slot of `i_block` or of an indirect block holds 0 (a hole), the number of a
 data block (depth 0), or the number of an indirect block of `PTRS` further slots
 (depth 1, 2 or 3).  `Load` reads the tree a slot denotes; the other functions say
 what lookup, truncation and counting mean on trees, independently of the disk.
 */
module BlockTree {
  import opened Arith

  /** Slots in one indirect block: `BLOCK_SIZE / sizeof(uint32_t)`. */
  const PTRS: nat := 1024

  type Block = w: seq<nat> | |w| == PTRS witness ZeroBlock()

  /** What the disk holds in each block that has been written. */
  type Disk = map<nat, Block>

  function ZeroBlock(): (w: seq<nat>)
    ensures |w| == PTRS && forall i :: 0 <= i < PTRS ==> w[i] == 0
  {
    seq(PTRS, _ => 0)
  }

  function WordsAt(disk: Disk, b: nat): Block {
    if b in disk then disk[b] else ZeroBlock()
  }

  datatype Tree = Hole | Data(blk: nat) | Node(blk: nat, kids: seq<Tree>)

  /** The tree below one slot. */
  ghost function Load(disk: Disk, slot: nat, depth: nat): (t: Tree)
    decreases depth, 0
  {
    if slot == 0 then Hole
    else if depth == 0 then Data(slot)
    else Node(slot, LoadAll(disk, WordsAt(disk, slot), depth - 1))
  }

  /** The trees below a run of slots of equal depth. */
  ghost function LoadAll(disk: Disk, slots: seq<nat>, depth: nat): (ts: seq<Tree>)
    ensures |ts| == |slots|
    decreases depth, 1
  {
    seq(|slots|, i requires 0 <= i < |slots| => Load(disk, slots[i], depth))
  }

  ghost predicate Shaped(t: Tree, depth: nat)
    decreases t
  {
    && (t.Data? ==> depth == 0 && t.blk != 0)
    && (t.Node? ==>
          && depth > 0 && t.blk != 0 && |t.kids| == PTRS
          && forall i :: 0 <= i < |t.kids| ==> Shaped(t.kids[i], depth - 1))
  }

  lemma KidIs(disk: Disk, slot: nat, depth: nat, e: nat)
    requires slot != 0 && e < PTRS
    ensures var t := Load(disk, slot, depth + 1);
            t.Node? && t.blk == slot && |t.kids| == PTRS && t.kids[e] == Load(disk, WordsAt(disk, slot)[e], depth)
  {
  }

  lemma KidBlocks(disk: Disk, slot: nat, depth: nat, e: nat)
    requires slot != 0 && e < PTRS
    ensures Blocks(Load(disk, WordsAt(disk, slot)[e], depth)) <= Blocks(Load(disk, slot, depth + 1))
  {
    KidIs(disk, slot, depth, e);
    var t := Load(disk, slot, depth + 1);
    assert t.kids[e] in t.kids;
  }

  lemma {:induction false} LoadShaped(disk: Disk, slot: nat, depth: nat)
    ensures Shaped(Load(disk, slot, depth), depth)
    decreases depth
  {
    if slot != 0 && depth > 0 {
      var w := WordsAt(disk, slot);
      var kids := LoadAll(disk, w, depth - 1);
      forall i | 0 <= i < |kids| ensures Shaped(kids[i], depth - 1) {
        LoadShaped(disk, w[i], depth - 1);
      }
    }
  }

  /** Every block of the tree: data blocks and indirect blocks. */
  ghost function Blocks(t: Tree): set<nat>
    decreases t
  {
    match t
    case Hole => {}
    case Data(b) => {b}
    case Node(b, kids) => {b} + AllBlocks(kids)
  }

  ghost function AllBlocks(ts: seq<Tree>): set<nat>
    decreases ts
  {
    set i, b | 0 <= i < |ts| && b in Blocks(ts[i]) :: b
  }

  /** No block is used twice in the tree. */
  ghost predicate Distinct(t: Tree)
    decreases t
  {
    match t
    case Hole => true
    case Data(_) => true
    case Node(b, kids) => b !in AllBlocks(kids) && AllDistinct(kids)
  }

  ghost predicate AllDistinct(ts: seq<Tree>)
    decreases ts
  {
    && (forall i {:trigger Distinct(ts[i])} :: 0 <= i < |ts| ==> Distinct(ts[i]))
    && (forall i, j {:trigger Apart(ts[i], ts[j])} :: 0 <= i < |ts| && 0 <= j < |ts| && i != j ==> Apart(ts[i], ts[j]))
  }

  ghost predicate Apart(t: Tree, u: Tree) {
    Blocks(t) !! Blocks(u)
  }

  /** How many blocks the tree has, counted slot by slot. */
  ghost function Size(t: Tree): nat
    decreases t
  {
    match t
    case Hole => 0
    case Data(_) => 1
    case Node(_, kids) => 1 + AllSize(kids)
  }

  ghost function AllSize(ts: seq<Tree>): nat
    decreases ts
  {
    if ts == [] then 0 else AllSize(ts[..|ts| - 1]) + Size(ts[|ts| - 1])
  }

  /** Logical blocks below a slot of this depth. */
  function Span(depth: nat): (s: nat)
    ensures s >= 1
  {
    if depth == 0 then 1 else PTRS * Span(depth - 1)
  }

  /** The data block at logical index `idx` below a slot, or 0. */
  ghost function Look(t: Tree, depth: nat, idx: nat): nat
    decreases t
  {
    match t
    case Hole => 0
    case Data(b) => b
    case Node(_, kids) =>
      if depth == 0 || idx / Span(depth - 1) >= |kids| then 0
      else Look(kids[idx / Span(depth - 1)], depth - 1, idx % Span(depth - 1))
  }

  /** What is left of a budget of `keep` blocks after `i` children of width `span`. */
  function Left(keep: nat, span: nat, i: nat): nat {
    if i == 0 then keep
    else if Left(keep, span, i - 1) > span then Left(keep, span, i - 1) - span
    else 0
  }

  /** How much of the budget reaches the `i`-th child. */
  function ChildKeep(keep: nat, span: nat, i: nat): nat {
    if Left(keep, span, i) > span then span else Left(keep, span, i)
  }

  ghost predicate AllHoles(ts: seq<Tree>) {
    HolesUpTo(ts, |ts|)
  }

  ghost predicate HolesUpTo(ts: seq<Tree>, n: nat) {
    forall i :: 0 <= i < n && i < |ts| ==> ts[i].Hole?
  }

  /** The tree that is left when only the first `keep` logical blocks stay. */
  ghost function Trunc(t: Tree, depth: nat, keep: nat): (r: Tree)
    decreases t
  {
    if t.Hole? || keep == 0 then Hole
    else if t.Data? || depth == 0 then t
    else if AllHoles(TruncKids(t.kids, depth - 1, keep)) then Hole
    else Node(t.blk, TruncKids(t.kids, depth - 1, keep))
  }

  ghost function TruncKids(ts: seq<Tree>, depth: nat, keep: nat): (rs: seq<Tree>)
    ensures |rs| == |ts|
    decreases ts
  {
    seq(|ts|, i requires 0 <= i < |ts| => Trunc(ts[i], depth, ChildKeep(keep, Span(depth), i)))
  }

  lemma IndexSplit(depth: nat, idx: nat)
    requires depth > 0 && idx < Span(depth)
    ensures idx / Span(depth - 1) < PTRS && idx % Span(depth - 1) < Span(depth - 1)
  {
  }

  // ---- Truncation keeps exactly the first `keep` logical blocks ----

  lemma LeftStep(keep: nat, span: nat, i: nat)
    ensures Left(keep, span, i + 1) == Left(keep, span, i) - ChildKeep(keep, span, i)
  {
  }

  lemma {:induction false} LeftIs(keep: nat, span: nat, i: nat)
    ensures Left(keep, span, i) == if keep <= i * span then 0 else keep - i * span
  {
    if i > 0 {
      LeftIs(keep, span, i - 1);
      assert i * span == (i - 1) * span + span;
    }
  }

  /** Index `c * span + r` is within budget exactly when `r` is within child `c`'s share. */
  lemma KeepSplit(keep: nat, span: nat, c: nat, r: nat)
    requires r < span
    ensures r < ChildKeep(keep, span, c) <==> c * span + r < keep
  {
    LeftIs(keep, span, c);
  }

  lemma {:induction false} LookAfterTrunc(t: Tree, depth: nat, keep: nat, idx: nat)
    requires Shaped(t, depth) && idx < Span(depth)
    ensures Look(Trunc(t, depth, keep), depth, idx) == if idx < keep then Look(t, depth, idx) else 0
    decreases t
  {
    if t.Node? && keep > 0 {
      var c, r := SplitIndex(depth - 1, idx);
      var kids := TruncKids(t.kids, depth - 1, keep);
      assert kids[c] == Trunc(t.kids[c], depth - 1, ChildKeep(keep, Span(depth - 1), c));
      LookAfterTrunc(t.kids[c], depth - 1, ChildKeep(keep, Span(depth - 1), c), r);
      KeepSplit(keep, Span(depth - 1), c, r);
      LookAt(t, depth - 1, c, r, idx);
      if !AllHoles(kids) {
        LookAt(Node(t.blk, kids), depth - 1, c, r, idx);
      }
    }
  }

  // ---- Truncation only drops blocks ----

  lemma {:induction false} TruncBlocks(t: Tree, depth: nat, keep: nat)
    ensures Blocks(Trunc(t, depth, keep)) <= Blocks(t)
    ensures Distinct(t) ==> Distinct(Trunc(t, depth, keep))
    decreases t
  {
    if t.Node? && keep > 0 && depth > 0 {
      var kids := TruncKids(t.kids, depth - 1, keep);
      TruncKidsBlocks(t.kids, depth - 1, keep);
      ShrinkAll(t.kids, kids);
    }
  }

  lemma {:induction false} TruncKidsBlocks(ts: seq<Tree>, depth: nat, keep: nat)
    ensures Within(TruncKids(ts, depth, keep), ts)
    decreases ts
  {
    var rs := TruncKids(ts, depth, keep);
    forall i | 0 <= i < |ts| ensures Smaller(rs[i], ts[i]) {
      TruncBlocks(ts[i], depth, ChildKeep(keep, Span(depth), i));
    }
  }

  /** Position by position, `us` holds smaller trees than `ts`. */
  ghost predicate Within(us: seq<Tree>, ts: seq<Tree>) {
    && |us| == |ts|
    && forall i {:trigger Smaller(us[i], ts[i])} :: 0 <= i < |ts| ==> Smaller(us[i], ts[i])
  }

  ghost predicate Smaller(u: Tree, t: Tree) {
    Blocks(u) <= Blocks(t) && (Distinct(t) ==> Distinct(u))
  }

  lemma ShrinkAll(ts: seq<Tree>, us: seq<Tree>)
    requires Within(us, ts)
    ensures AllBlocks(us) <= AllBlocks(ts)
    ensures AllDistinct(ts) ==> AllDistinct(us)
  {
    forall i | 0 <= i < |us| ensures Smaller(us[i], ts[i]) && Blocks(us[i]) <= AllBlocks(ts) {
    }
    forall i, j | AllDistinct(ts) && 0 <= i < |us| && 0 <= j < |us| && i != j ensures Apart(us[i], us[j]) {
      assert Apart(ts[i], ts[j]) && Smaller(us[i], ts[i]) && Smaller(us[j], ts[j]);
    }
    forall i | AllDistinct(ts) && 0 <= i < |us| ensures Distinct(us[i]) {
      assert Distinct(ts[i]) && Smaller(us[i], ts[i]);
    }
  }

  // ---- Reading a tree only depends on its own blocks ----

  lemma {:induction false} LoadFrame(d: Disk, d': Disk, slot: nat, depth: nat)
    requires forall b :: b in Blocks(Load(d, slot, depth)) ==> WordsAt(d, b) == WordsAt(d', b)
    ensures Load(d', slot, depth) == Load(d, slot, depth)
    decreases depth
  {
    if slot != 0 && depth > 0 {
      var t := Load(d, slot, depth);
      var w := WordsAt(d, slot);
      assert slot in Blocks(t);
      forall i: nat | i < PTRS ensures Load(d', w[i], depth - 1) == Load(d, w[i], depth - 1) {
        KidBlocks(d, slot, depth - 1, i);
        LoadFrame(d, d', w[i], depth - 1);
      }
      assert LoadAll(d', w, depth - 1) == LoadAll(d, w, depth - 1);
    }
  }

  lemma NodeBlocks(d: Disk, slot: nat, depth: nat)
    requires slot != 0 && depth > 0
    ensures Blocks(Load(d, slot, depth)) == {slot} + AllBlocks(LoadAll(d, WordsAt(d, slot), depth - 1))
  {
  }

  // ---- Counting ----

  lemma AllBlocksStep(ts: seq<Tree>, i: nat)
    requires i < |ts|
    ensures AllBlocks(ts[..i + 1]) == AllBlocks(ts[..i]) + Blocks(ts[i])
    ensures AllSize(ts[..i + 1]) == AllSize(ts[..i]) + Size(ts[i])
  {
    var a, b := ts[..i + 1], ts[..i];
    assert a[..i] == b;
    forall x | x in AllBlocks(a) ensures x in AllBlocks(b) + Blocks(ts[i]) {
      var j :| 0 <= j < |a| && x in Blocks(a[j]);
      if j < i { assert b[j] == a[j]; }
    }
    forall x | x in AllBlocks(b) + Blocks(ts[i]) ensures x in AllBlocks(a) {
      if x in AllBlocks(b) {
        var j :| 0 <= j < |b| && x in Blocks(b[j]);
        assert a[j] == b[j];
      } else {
        assert a[i] == ts[i];
      }
    }
  }

  /** In a tree without sharing, the count is the number of blocks. */
  lemma {:induction false} SizeIsCardinality(t: Tree)
    requires Distinct(t)
    ensures Size(t) == |Blocks(t)|
    decreases t, 0
  {
    if t.Node? {
      AllSizeIsCardinality(t.kids);
    }
  }

  lemma {:induction false} AllSizeIsCardinality(ts: seq<Tree>)
    requires AllDistinct(ts)
    ensures AllSize(ts) == |AllBlocks(ts)|
    decreases ts
  {
    if ts == [] {
      assert AllBlocks(ts) == {};
    } else {
      var n := |ts| - 1;
      AllSizeIsCardinality(ts[..n]);
      SizeIsCardinality(ts[n]);
      AllBlocksStep(ts, n);
      assert ts[..n + 1] == ts;
      PrefixDisjoint(ts, n);
    }
  }

  // ---- Growing a tree by one block ----

  /** A new block as it stands right after allocation: full of holes. */
  ghost function Fresh(r: nat, depth: nat): Tree {
    if depth == 0 then Data(r) else Node(r, seq(PTRS, _ => Hole))
  }

  lemma FreshLoads(d: Disk, r: nat, depth: nat)
    requires r != 0 && WordsAt(d, r) == ZeroBlock()
    ensures Load(d, r, depth) == Fresh(r, depth)
  {
    if depth > 0 {
      assert LoadAll(d, ZeroBlock(), depth - 1) == seq(PTRS, _ => Hole);
    }
  }

  /** `u'` is `u` with the one new block `r`. */
  ghost predicate Grows(u: Tree, u': Tree, r: nat) {
    && r !in Blocks(u) && Blocks(u') == Blocks(u) + {r}
    && Distinct(u') && Size(u') == Size(u) + 1
  }

  lemma {:induction false} HolesAreEmpty(ts: seq<Tree>)
    requires AllHoles(ts)
    ensures AllBlocks(ts) == {} && AllSize(ts) == 0 && AllDistinct(ts)
  {
    if ts != [] {
      HolesAreEmpty(ts[..|ts| - 1]);
      assert ts[|ts| - 1].Hole?;
    }
  }

  lemma GrowsFresh(r: nat, depth: nat)
    ensures Grows(Hole, Fresh(r, depth), r)
  {
    if depth > 0 {
      HolesAreEmpty(Fresh(r, depth).kids);
    }
  }

  /** Growing one tree of a run grows the run. */
  lemma GrowsRun(ts: seq<Tree>, e: nat, u: Tree, r: nat)
    requires e < |ts| && AllDistinct(ts) && Grows(ts[e], u, r) && r !in AllBlocks(ts)
    ensures AllBlocks(ts[e := u]) == AllBlocks(ts) + {r}
    ensures AllDistinct(ts[e := u]) && AllSize(ts[e := u]) == AllSize(ts) + 1
  {
    ReplaceTree(ts, e, u);
    forall j | 0 <= j < |ts| && j != e ensures Blocks(ts[j]) !! Blocks(ts[e]) && r !in Blocks(ts[j]) {
      assert Apart(ts[j], ts[e]);
    }
    ReplaceBlocks(ts, e, u);
    var us := ts[e := u];
    forall i, j | 0 <= i < |us| && 0 <= j < |us| && i != j ensures Apart(us[i], us[j]) {
      assert Apart(ts[i], ts[j]);
    }
    forall j | 0 <= j < |us| ensures Distinct(us[j]) {
      assert Distinct(ts[j]);
    }
  }

  lemma GrowsNode(t: Tree, e: nat, u: Tree, r: nat)
    requires t.Node? && Distinct(t) && e < |t.kids| && Grows(t.kids[e], u, r) && r !in Blocks(t)
    ensures Grows(t, Node(t.blk, t.kids[e := u]), r)
  {
    GrowsRun(t.kids, e, u, r);
  }

  lemma {:induction false} ReplaceTree(ts: seq<Tree>, i: nat, k: Tree)
    requires i < |ts|
    ensures AllSize(ts[i := k]) + Size(ts[i]) == AllSize(ts) + Size(k)
    decreases |ts|
  {
    var n := |ts| - 1;
    if i == n {
      assert ts[i := k][..n] == ts[..n];
    } else {
      ReplaceTree(ts[..n], i, k);
      assert ts[i := k][..n] == ts[..n][i := k];
    }
  }

  // ---- Rewriting one entry of an indirect block ----

  /** Two disks that differ at most in the blocks of `bs`. */
  ghost predicate SameOutside(d: Disk, d': Disk, bs: set<nat>) {
    forall b :: b !in bs ==> WordsAt(d', b) == WordsAt(d, b)
  }

  ghost predicate ClearOfOthers(ts: seq<Tree>, i: nat, bs: set<nat>) {
    forall j {:trigger Blocks(ts[j])} :: 0 <= j < |ts| && j != i ==> Blocks(ts[j]) !! bs
  }

  /**
   Storing `child` in entry `i` of block `slot`, after changes `touched` that stay clear
   of the block itself and of every other entry's tree, replaces tree `i` and no other.
   */
  lemma StoreEntry(d: Disk, d1: Disk, slot: nat, depth: nat, i: nat, child: nat, touched: set<nat>)
    requires i < PTRS && slot !in touched && SameOutside(d, d1, touched)
    requires ClearOfOthers(LoadAll(d, WordsAt(d, slot), depth), i, touched + {slot})
    requires slot !in Blocks(Load(d1, child, depth))
    ensures var d2 := d1[slot := WordsAt(d1, slot)[i := child]];
            && LoadAll(d2, WordsAt(d2, slot), depth)
               == LoadAll(d, WordsAt(d, slot), depth)[i := Load(d1, child, depth)]
            && SameOutside(d, d2, touched + {slot})
  {
    var w := WordsAt(d, slot);
    var ts := LoadAll(d, w, depth);
    var d2 := d1[slot := w[i := child]];
    var us := LoadAll(d2, w[i := child], depth);
    forall j | 0 <= j < PTRS
      ensures us[j] == ts[i := Load(d1, child, depth)][j]
    {
      if j == i {
        LoadFrame(d1, d2, child, depth);
      } else {
        assert ts[j] == Load(d, w[j], depth);
        assert Blocks(ts[j]) !! (touched + {slot});
        LoadFrame(d, d2, w[j], depth);
      }
    }
  }

  lemma PrefixDisjoint(ts: seq<Tree>, i: nat)
    requires AllDistinct(ts) && i < |ts|
    ensures AllBlocks(ts[..i]) !! Blocks(ts[i])
  {
    forall x | x in AllBlocks(ts[..i]) ensures x !in Blocks(ts[i]) {
      var j :| 0 <= j < i && x in Blocks(ts[..i][j]);
      assert Apart(ts[j], ts[i]);
    }
  }

  // ---- Cutting the entries of one block, one after the other ----

  /**
   The loop state while the entries of node `t` are being cut to `us`: the first `i`
   entries `es` are cut, the blocks dropped so far have left `inUse`, and no block
   outside the node has been written.
   */
  ghost predicate Cutting(
    t: Tree, us: seq<Tree>, i: nat, es: seq<Tree>,
    inUse0: set<nat>, inUse: set<nat>, d0: Disk, d: Disk)
  {
    && t.Node? && Distinct(t) && Within(us, t.kids) && i <= |us| == |es|
    && (forall j {:trigger es[j]} :: 0 <= j < |es| ==> es[j] == if j < i then us[j] else t.kids[j])
    && inUse == inUse0 - (AllBlocks(t.kids) - AllBlocks(es))
    && SameOutside(d0, d, Blocks(t))
  }

  lemma CuttingNext(
    t: Tree, us: seq<Tree>, i: nat, es: seq<Tree>,
    inUse0: set<nat>, inUse: set<nat>, d0: Disk, d: Disk)
    requires Cutting(t, us, i, es, inUse0, inUse, d0, d) && i < |us|
    ensures es[i] == t.kids[i] && Distinct(es[i]) && t.blk !in Blocks(es[i])
    ensures ClearOfOthers(es, i, Blocks(es[i]) + {t.blk})
    ensures AllBlocks(es) <= AllBlocks(t.kids)
  {
    var ts := t.kids;
    assert AllDistinct(ts) && Distinct(ts[i]);
    forall j | 0 <= j < |es| && j != i ensures Blocks(es[j]) !! Blocks(ts[i]) + {t.blk} {
      assert Apart(ts[j], ts[i]) && Smaller(us[j], ts[j]);
    }
    forall j | 0 <= j < |es| ensures Smaller(es[j], ts[j]) {
      assert Smaller(us[j], ts[j]);
    }
    ShrinkAll(ts, es);
  }

  /** Replacing a tree that overlaps no other replaces its blocks. */
  lemma ReplaceBlocks(es: seq<Tree>, i: nat, u: Tree)
    requires i < |es| && ClearOfOthers(es, i, Blocks(es[i]))
    ensures AllBlocks(es[i := u]) == AllBlocks(es) - Blocks(es[i]) + Blocks(u)
  {
    var fs := es[i := u];
    forall x | x in AllBlocks(fs) ensures x in AllBlocks(es) - Blocks(es[i]) + Blocks(u) {
      var j :| 0 <= j < |fs| && x in Blocks(fs[j]);
      if j != i { assert x in Blocks(es[j]); }
    }
    forall x | x in AllBlocks(es) - Blocks(es[i]) + Blocks(u) ensures x in AllBlocks(fs) {
      if x in Blocks(u) { assert x in Blocks(fs[i]); } else {
        var j :| 0 <= j < |es| && x in Blocks(es[j]);
        assert x in Blocks(fs[j]);
      }
    }
  }

  lemma FreedStep(u0: set<nat>, b0: set<nat>, be: set<nat>, bk: set<nat>, bc: set<nat>)
    requires bk <= be <= b0 && bc <= bk
    ensures u0 - (b0 - be) - (bk - bc) == u0 - (b0 - (be - bk + bc))
  {
  }

  lemma CuttingStep(
    t: Tree, us: seq<Tree>, i: nat, es: seq<Tree>,
    inUse0: set<nat>, inUse: set<nat>, d0: Disk, d: Disk, d1: Disk)
    requires Cutting(t, us, i, es, inUse0, inUse, d0, d) && i < |us|
    requires SameOutside(d, d1, Blocks(es[i]) + {t.blk})
    ensures Cutting(t, us, i + 1, es[i := us[i]], inUse0, inUse - (Blocks(es[i]) - Blocks(us[i])), d0, d1)
  {
    CuttingNext(t, us, i, es, inUse0, inUse, d0, d);
    ReplaceBlocks(es, i, us[i]);
    assert Smaller(us[i], t.kids[i]);
    FreedStep(inUse0, AllBlocks(t.kids), AllBlocks(es), Blocks(es[i]), Blocks(us[i]));
    assert Blocks(t.kids[i]) + {t.blk} <= Blocks(t);
  }

  lemma CuttingDone(
    t: Tree, us: seq<Tree>, es: seq<Tree>,
    inUse0: set<nat>, inUse: set<nat>, d0: Disk, d: Disk)
    requires Cutting(t, us, |us|, es, inUse0, inUse, d0, d)
    ensures es == us
    ensures inUse == inUse0 - (AllBlocks(t.kids) - AllBlocks(es))
    ensures SameOutside(d0, d, Blocks(t))
  {
  }

  // ---- Lookups in a tree one of whose children changed ----

  /** Lookups in `u'` are those in `u`, except that index `hit` (if not negative) finds `r`. */
  ghost predicate Looks(u: Tree, u': Tree, depth: nat, hit: int, r: nat) {
    forall k: nat :: k < Span(depth) ==> Look(u', depth, k) == if k == hit then r else Look(u, depth, k)
  }

  lemma SplitIndex(depth: nat, k: nat) returns (c: nat, m: nat)
    requires k < Span(depth + 1)
    ensures c < PTRS && m < Span(depth) && k == c * Span(depth) + m
  {
    IndexSplit(depth + 1, k);
    DivBounds(k, Span(depth));
    c, m := k / Span(depth), k % Span(depth);
  }

  lemma LookAt(t: Tree, depth: nat, c: nat, m: nat, k: nat)
    requires t.Node? && c < |t.kids| && m < Span(depth) && k == c * Span(depth) + m
    ensures Look(t, depth + 1, k) == Look(t.kids[c], depth, m)
  {
    DivUnique(k, Span(depth), c, m);
  }

  lemma SameSplit(span: nat, c: nat, m: nat, e: nat, hit: nat)
    requires m < span && hit < span
    ensures c * span + m == e * span + hit <==> c == e && m == hit
  {
    if c * span + m == e * span + hit {
      DivUnique(c * span + m, span, c, m);
      DivUnique(c * span + m, span, e, hit);
    }
  }

  lemma LooksKid(t: Tree, depth: nat, e: nat, u: Tree, hit: int, r: nat)
    requires t.Node? && |t.kids| == PTRS && e < PTRS
    requires hit < Span(depth) && Looks(t.kids[e], u, depth, hit, r)
    ensures Looks(t, Node(t.blk, t.kids[e := u]), depth + 1, if hit < 0 then -1 else e * Span(depth) + hit, r)
  {
    var t' := Node(t.blk, t.kids[e := u]);
    var h := if hit < 0 then -1 else e * Span(depth) + hit;
    var d1 := depth + 1;
    forall k: nat | k < Span(d1)
      ensures Look(t', d1, k) == if k == h then r else Look(t, d1, k)
    {
      var c, m := SplitIndex(depth, k);
      LookAt(t, depth, c, m, k);
      LookAt(t', depth, c, m, k);
      if hit >= 0 {
        SameSplit(Span(depth), c, m, e, hit);
      }
    }
  }

  /** A fresh block changes no lookup, unless it is a data block. */
  lemma LooksFresh(r: nat, depth: nat)
    ensures Looks(Hole, Fresh(r, depth), depth, if depth == 0 then 0 else -1, r)
  {
    var t := Fresh(r, depth);
    forall k: nat | k < Span(depth)
      ensures Look(t, depth, k) == if depth == 0 then r else 0
    {
      LookFresh(r, depth, k);
    }
  }

  lemma LookFresh(r: nat, depth: nat, k: nat)
    ensures Look(Fresh(r, depth), depth, k) == if depth == 0 then r else 0
  {
    if depth > 0 {
      var c := k / Span(depth - 1);
      if c < PTRS {
        assert Fresh(r, depth).kids[c] == Hole;
      }
    }
  }

  // ---- No block of a tree is block 0 ----

  lemma {:induction false} NoZero(d: Disk, slot: nat, depth: nat)
    ensures 0 !in Blocks(Load(d, slot, depth))
    decreases depth
  {
    if slot != 0 && depth > 0 {
      var w := WordsAt(d, slot);
      var kids := LoadAll(d, w, depth - 1);
      forall i | 0 <= i < |kids| ensures 0 !in Blocks(kids[i]) {
        NoZero(d, w[i], depth - 1);
      }
    }
  }

  /** A change below entry `e` of a block changes only that entry's tree. */
  lemma ChangeKid(d: Disk, d': Disk, slot: nat, depth: nat, e: nat, touched: set<nat>)
    requires slot != 0 && e < PTRS && slot !in touched && SameOutside(d, d', touched)
    requires ClearOfOthers(LoadAll(d, WordsAt(d, slot), depth), e, touched)
    ensures Load(d', slot, depth + 1)
            == Node(slot, Load(d, slot, depth + 1).kids[e := Load(d', WordsAt(d, slot)[e], depth)])
  {
    var w := WordsAt(d, slot);
    var ts, us := LoadAll(d, w, depth), LoadAll(d', w, depth);
    forall j | 0 <= j < PTRS && j != e ensures us[j] == ts[j] {
      assert Blocks(ts[j]) !! touched;
      assert ts[j] == Load(d, w[j], depth);
      LoadFrame(d, d', w[j], depth);
    }
    assert us == ts[e := Load(d', w[e], depth)];
  }
}
