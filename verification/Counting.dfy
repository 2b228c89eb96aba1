/** Sizes of intervals and subsets. */
module Counting {
  ghost function Span(a: nat, b: nat): (r: set<nat>)
    requires a <= b
    ensures |r| == b - a && forall c: nat :: c in r <==> a <= c < b
    decreases b - a
  {
    if a == b then {} else {a} + Span(a + 1, b)
  }

  lemma SubsetCount(a: set<nat>, b: set<nat>)
    requires a <= b
    ensures |a| <= |b|
  {
    assert b == a + (b - a);
  }
}
