/** Sequences used as lists of distinct things. */
module Seqs {

  ghost predicate NoRepeats<T>(s: seq<T>) {
    forall i, j :: 0 <= i < j < |s| ==> s[i] != s[j]
  }

  /** The other elements, in order. */
  function Without<T(==, !new)>(s: seq<T>, x: T): (r: seq<T>)
    ensures forall y :: y in r <==> y in s && y != x
    ensures |r| <= |s| && (x in s ==> |r| < |s|)
  {
    if s == [] then [] else if s[0] == x then Without(s[1..], x) else [s[0]] + Without(s[1..], x)
  }

  lemma {:induction false} WithoutNoRepeats<T(!new)>(s: seq<T>, x: T)
    requires NoRepeats(s)
    ensures NoRepeats(Without(s, x))
  {
    if s != [] {
      var r := Without(s[1..], x);
      WithoutNoRepeats(s[1..], x);
      assert s[0] !in s[1..];
      forall j | 0 <= j < |r| ensures r[j] != s[0] {
        assert r[j] in r;
      }
    }
  }
}
