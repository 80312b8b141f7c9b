/** The few facts about products, quotients and integer ranges that several parts use. */
module Arith {

  function Min(a: nat, b: nat): nat {
    if a < b then a else b
  }

  /** How many 4096-byte blocks `size` bytes take. */
  function KeepBlocks(size: nat): (r: nat)
    ensures r == if size % 4096 == 0 then size / 4096 else size / 4096 + 1
  {
    (size + 4095) / 4096
  }

  lemma MulMono(a: nat, b: nat, p: nat)
    requires a <= b
    ensures a * p <= b * p
  {
    assert (b - a) * p >= 0;
    assert b * p == a * p + (b - a) * p;
  }

  /** Quotient and remainder are determined by `x == q * p + r`. */
  lemma DivUnique(x: nat, p: nat, q: nat, r: nat)
    requires r < p && x == q * p + r
    ensures x / p == q && x % p == r
  {
    var y, s := x / p, x % p;
    assert x == y * p + s;
    if y < q {
      MulMono(y + 1, q, p);
    } else if q < y {
      MulMono(q + 1, y, p);
    }
  }

  lemma DivBounds(x: nat, p: nat)
    requires p > 0
    ensures x == (x / p) * p + x % p
    ensures (x / p) * p <= x < (x / p) * p + p
  {
  }

  predicate InRange(lo: nat, b: nat, hi: nat) {
    lo <= b < hi
  }

  /** The integers from `lo` up to but not including `hi`. */
  ghost function Range(lo: nat, hi: nat): set<nat> {
    set b: nat | b < hi && InRange(lo, b, hi)
  }

  lemma {:induction false} RangeCardinality(lo: nat, hi: nat)
    requires lo <= hi
    ensures |Range(lo, hi)| == hi - lo
    decreases hi
  {
    if lo == hi {
      assert Range(lo, hi) == {};
    } else {
      RangeCardinality(lo, hi - 1);
      assert Range(lo, hi) == Range(lo, hi - 1) + {hi - 1};
    }
  }

  lemma RangeMeet(lo: nat, hi: nat, lo': nat, hi': nat)
    requires lo' <= lo
    requires lo <= hi && lo <= hi'
    ensures |Range(lo, hi) * Range(lo', hi')| == if hi < hi' then hi - lo else hi' - lo
  {
    var m := if hi < hi' then hi else hi';
    assert Range(lo, hi) * Range(lo', hi') == Range(lo, m);
    RangeCardinality(lo, m);
  }

  lemma SubsetCardinality<T>(a: set<T>, b: set<T>)
    requires a <= b
    ensures |a| <= |b|
    ensures |a| == |b| ==> a == b
  {
    assert b == a + (b - a);
    assert |b| == |a| + |b - a|;
  }
}
