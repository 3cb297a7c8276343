/**
 * Scores compared by Python's `max`: a finite value or the INFINITY given
 * to an unvisited child, and the index `max` picks from a sequence of
 * them. `max` keeps the first maximal element it meets, replacing its
 * current best only by a strictly greater one.
 */
module Scores {
  datatype Score = Finite(value: real) | Infinite

  /**
   * The win rate `wins / visits` of a visited node, as a real: it lies in
   * [0, 1] when the wins do, and the two sides' rates add up to 1.
   */
  lemma RateBounds(wins: int, visits: nat)
    requires visits > 0
    ensures 0 <= wins ==> 0.0 <= wins as real / visits as real
    ensures wins <= visits ==> wins as real / visits as real <= 1.0
    ensures wins == 0 ==> wins as real / visits as real == 0.0
    ensures wins == visits ==> wins as real / visits as real == 1.0
    ensures wins as real / visits as real + (visits - wins) as real / visits as real == 1.0
  {
    var v := visits as real;
    var q := wins as real / v;
    var p := (visits - wins) as real / v;
    assert q * v == wins as real;
    assert (visits - wins) as real == v - wins as real;
    assert p == (v - wins as real) / v;
    assert p * v == v - wins as real by {
      assert ((v - wins as real) / v) * v == v - wins as real;
    }
    assert (q + p) * v == q * v + p * v;
    assert (q + p - 1.0) * v == 0.0;
  }

  /** Strictly below: every finite value is below INFINITY. */
  predicate Below(a: Score, b: Score) {
    a.Finite? && (b.Infinite? || a.value < b.value)
  }

  /** `s[best]` beats or ties `s[..k]`, and beats strictly everything before it. */
  ghost predicate LeadsUpTo(s: seq<Score>, best: int, k: int)
    requires 0 <= best < k <= |s|
  {
    && (forall j :: 0 <= j < k ==> !Below(s[best], s[j]))
    && (forall j :: 0 <= j < best ==> Below(s[j], s[best]))
  }

  /** The scan of `max`, from position `k` on, with the best so far at `best`. */
  function FirstMaxFrom(s: seq<Score>, best: nat, k: nat): (r: nat)
    requires best < k <= |s| && LeadsUpTo(s, best, k)
    ensures best <= r < |s| && LeadsUpTo(s, r, |s|)
    decreases |s| - k
  {
    if k == |s| then best
    else if Below(s[best], s[k]) then FirstMaxFrom(s, k, k + 1)
    else FirstMaxFrom(s, best, k + 1)
  }

  /**
   * The index `max` returns: no score is strictly above it, and every
   * score before it is strictly below it, so it is the first maximum.
   */
  function FirstMax(s: seq<Score>): (r: nat)
    requires |s| > 0
    ensures r < |s|
    ensures forall j :: 0 <= j < |s| ==> !Below(s[r], s[j])
    ensures forall j :: 0 <= j < r ==> Below(s[j], s[r])
  {
    FirstMaxFrom(s, 0, 1)
  }

  /** An INFINITY anywhere makes the maximum INFINITY. */
  lemma InfiniteWins(s: seq<Score>, k: int)
    requires 0 <= k < |s| && s[k].Infinite?
    ensures s[FirstMax(s)].Infinite?
  {
  }
}
