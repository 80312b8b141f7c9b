/**
 Whether a search for a page succeeds, told from the state before it and from the answers
 of the memory allocator: each attempt asks for a descriptor and then for a page frame, and
 a dirty page is written out between two attempts.
 */
module CacheSupply {
  import opened Seqs
  import opened Pages
  import opened CacheState

  /** There is a slot for one more page, or a page that can be evicted. */
  ghost predicate Room(pages: map<Id, Page>) {
    |pages| < NR_PAGES || !NothingToEvict(pages)
  }

  function Cleaned(pages: map<Id, Page>, id: Id): map<Id, Page>
    requires id in pages
  {
    pages[id := pages[id].(dirty := false)]
  }

  /** How often a search asks for memory if it never gets any. */
  ghost function Tries(pages: map<Id, Page>, dirty: seq<Id>): nat
    decreases |dirty|
  {
    if Room(pages) then |dirty| + 1
    else if dirty == [] || dirty[0] !in pages then 0
    else Tries(Cleaned(pages, dirty[0]), Without(dirty, dirty[0]))
  }

  /** Both requests of the attempt that begins with request `n` are granted. */
  predicate Granted(supply: nat -> bool, n: nat) {
    supply(n) && supply(n + 1)
  }

  /** The requests it makes. */
  function Spent(supply: nat -> bool, n: nat): nat {
    if supply(n) then 2 else 1
  }

  /** No attempt out of `tries` gets memory. */
  predicate Denied(supply: nat -> bool, n: nat, tries: nat)
    decreases tries
  {
    tries == 0 || (!Granted(supply, n) && Denied(supply, n + Spent(supply, n), tries - 1))
  }

  /** A search for a page for `k` comes back without one. */
  ghost predicate Fails(s: State, k: Key, supply: nat -> bool, asked: nat) {
    Uncached(s.pages, k) && Denied(supply, asked, Tries(s.pages, s.dirty))
  }

  lemma WithoutHead(s: seq<Id>)
    requires NoRepeats(s) && s != []
    ensures Without(s, s[0]) == s[1..]
  {
    var x, rest := s[0], s[1..];
    assert x !in rest;
    WithoutAbsent(rest, x);
  }

  lemma {:induction false} WithoutAbsent(s: seq<Id>, x: Id)
    requires x !in s
    ensures Without(s, x) == s
  {
    if s != [] {
      WithoutAbsent(s[1..], x);
    }
  }

  /** An attempt that was refused, and the write-out after it. */
  lemma RefusedStep(s: State, s': State, last: Disk, maps: BlockMaps, k: Key, supply: nat -> bool, asked: nat)
    requires Sound(s', last, maps) && s'.dirty == s.dirty && Uncached(s.pages, k) && Uncached(s'.pages, k)
    requires Room(s.pages) && |s'.pages| < NR_PAGES && !Granted(supply, asked)
    ensures s.dirty == [] ==> Fails(s, k, supply, asked)
    ensures s.dirty != [] ==>
              && s.dirty[0] in s'.pages
              && (Fails(Sync(s', s.dirty[0]), k, supply, asked + Spent(supply, asked)) <==> Fails(s, k, supply, asked))
  {
    assert Open(s', 0);
    if s.dirty != [] {
      var d := s.dirty[0];
      assert d in s.dirty;
      WithoutHead(s.dirty);
      assert Sync(s', d).pages.Keys == s'.pages.Keys;
      assert Room(Sync(s', d).pages);
      assert Denied(supply, asked, |s.dirty| + 1) <==> Denied(supply, asked + Spent(supply, asked), |s.dirty|);
    }
  }

  /** A round without room asks nothing. */
  lemma CrampedStep(s: State, last: Disk, maps: BlockMaps, k: Key, supply: nat -> bool, asked: nat)
    requires Sound(s, last, maps) && Uncached(s.pages, k) && !Room(s.pages)
    ensures s.dirty == [] ==> Fails(s, k, supply, asked)
    ensures s.dirty != [] ==>
              && s.dirty[0] in s.pages
              && (Fails(Sync(s, s.dirty[0]), k, supply, asked) <==> Fails(s, k, supply, asked))
  {
    assert Open(s, 0);
    if s.dirty != [] {
      assert s.dirty[0] in s.dirty;
      assert Sync(s, s.dirty[0]).pages == Cleaned(s.pages, s.dirty[0]);
    }
  }

  lemma SpentRefused(supply: nat -> bool, from: nat, asked: nat)
    requires from <= asked && !Granted(supply, asked)
    ensures RefusedIn(supply, from, asked + Spent(supply, asked))
  {
    assert !supply(asked) || !supply(asked + 1);
  }

  lemma GrantedNow(s: State, k: Key, supply: nat -> bool, asked: nat)
    requires Room(s.pages) && Granted(supply, asked)
    ensures !Fails(s, k, supply, asked)
  {
  }

  /** What an attempt did to the pages and to the count of requests. */
  ghost predicate Attempted(s: State, s': State, k: Key, supply: nat -> bool, asked: nat, asked': nat, got: bool) {
    && s'.dirty == s.dirty && (got <==> Room(s.pages) && Granted(supply, asked))
    && asked' == asked + (if Room(s.pages) then Spent(supply, asked) else 0)
    && (!got ==> Uncached(s'.pages, k) && if Room(s.pages) then |s'.pages| < NR_PAGES else s'.pages == s.pages)
  }

  /** What an attempt tells about the whole search. */
  lemma AttemptTells(s: State, s': State, last: Disk, maps: BlockMaps, k: Key, supply: nat -> bool,
                     from: nat, asked: nat, asked': nat, got: bool)
    requires Sound(s', last, maps) && |s'.pages| <= NR_PAGES && Uncached(s.pages, k) && from <= asked
    requires Attempted(s, s', k, supply, asked, asked', got)
    ensures got ==> !Fails(s, k, supply, asked)
    ensures !got && s.dirty == [] ==> Fails(s, k, supply, asked) && Exhausted(s'.pages, [], k, RefusedIn(supply, from, asked'))
    ensures !got && s.dirty != [] ==>
              && s.dirty[0] in s'.pages
              && (Fails(Sync(s', s.dirty[0]), k, supply, asked') <==> Fails(s, k, supply, asked))
  {
    if got {
      GrantedNow(s, k, supply, asked);
    } else if Room(s.pages) {
      SpentRefused(supply, from, asked);
      RefusedStep(s, s', last, maps, k, supply, asked);
    } else {
      CrampedStep(s', last, maps, k, supply, asked);
      if s.dirty == [] {
        CleanAndBusy(s', last, maps);
      }
    }
  }

  /** A search never asks exactly when every page of a full cache is held. */
  lemma {:induction false} NeverAsksIff(pages: map<Id, Page>, dirty: seq<Id>)
    requires |pages| <= NR_PAGES && NoRepeats(dirty) && forall id :: id in dirty <==> id in pages && pages[id].dirty
    ensures Tries(pages, dirty) == 0 <==> |pages| == NR_PAGES && EveryPageHeld(pages)
    decreases |dirty|
  {
    if !Room(pages) {
      if dirty == [] {
        assert forall id :: id in pages ==> id !in dirty;
      } else {
        var d := dirty[0];
        assert d in dirty;
        var cleaned := Cleaned(pages, d);
        WithoutNoRepeats(dirty, d);
        assert cleaned.Keys == pages.Keys;
        NeverAsksIff(cleaned, Without(dirty, d));
        assert EveryPageHeld(pages) <==> EveryPageHeld(cleaned) by {
          assert forall id :: id in pages ==> cleaned[id].refs == pages[id].refs;
        }
      }
    }
  }

  /** Without a refusal, a search fails exactly when the block is not cached and every page is held. */
  lemma FailsIffCrowded(s: State, last: Disk, maps: BlockMaps, held: Refs, k: Key, supply: nat -> bool, asked: nat)
    requires Sound(s, last, maps) && Counts(s.pages, held) && |s.pages| <= NR_PAGES && Granted(supply, asked)
    ensures Fails(s, k, supply, asked) <==> Crowded(held, k)
  {
    assert Open(s, 0);
    NeverAsksIff(s.pages, s.dirty);
    CrowdedIs(s.pages, held, k);
  }
}
