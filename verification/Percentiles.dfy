/** Percentiles by method R6 of Hyndman and Fan (NIST/SEMATECH e-Handbook, section 7.2.6.2). */
module Percentiles {
  import opened Sorting

  function LeReal(): (real, real) -> bool { (x, y) => x <= y }

  ghost predicate Ascending(s: seq<real>) { SortedBy(s, LeReal()) }

  /** The value a fraction `f` of the way from `lo` to `hi`. */
  function Lerp(lo: real, hi: real, f: real): real { lo + f * (hi - lo) }

  /** The value at a (fractional, one-based) rank: linear between neighbours, clamped at the ends. */
  function AtRank(s: seq<real>, rank: real): real
    requires s != []
  {
    if rank < 1.0 then s[0]
    else if rank.Floor >= |s| then s[|s| - 1]
    else
      var floor := rank.Floor;
      Lerp(s[floor - 1], s[floor], rank - floor as real)
  }

  function Rank(percent: real, size: nat): real { percent / 100.0 * (size as real + 1.0) }

  function R6(s: seq<real>, percent: real): real
    requires s != []
  {
    AtRank(s, Rank(percent, |s|))
  }

  lemma Scaled(a: real, b: real, d: real)
    requires a <= b && 0.0 <= d
    ensures a * d <= b * d
  {
    assert 0.0 <= (b - a) * d;
    assert (b - a) * d == b * d - a * d;
  }

  lemma LerpMonotone(lo: real, hi: real, f: real, g: real)
    requires lo <= hi && 0.0 <= f <= g <= 1.0
    ensures lo <= Lerp(lo, hi, f) <= Lerp(lo, hi, g) <= hi
  {
    Scaled(0.0, f, hi - lo);
    Scaled(f, g, hi - lo);
    Scaled(g, 1.0, hi - lo);
  }

  /** The value lies between the two neighbours of its rank. */
  lemma AtRankBetween(s: seq<real>, rank: real)
    requires s != [] && Ascending(s)
    requires 1.0 <= rank && rank.Floor < |s|
    ensures s[rank.Floor - 1] <= AtRank(s, rank) <= s[rank.Floor]
  {
    var floor := rank.Floor;
    var f := rank - floor as real;
    assert LeReal()(s[floor - 1], s[floor]);
    LerpMonotone(s[floor - 1], s[floor], f, f);
  }

  lemma AscendingAt(s: seq<real>, i: nat, j: nat)
    requires Ascending(s) && i <= j < |s|
    ensures s[i] <= s[j]
  {
    assert i < j ==> LeReal()(s[i], s[j]);
  }

  lemma AtRankBounds(s: seq<real>, rank: real)
    requires s != [] && Ascending(s)
    ensures s[0] <= AtRank(s, rank) <= s[|s| - 1]
  {
    AscendingAt(s, 0, |s| - 1);
    if 1.0 <= rank && rank.Floor < |s| {
      AtRankBetween(s, rank);
      AscendingAt(s, 0, rank.Floor - 1);
      AscendingAt(s, rank.Floor, |s| - 1);
    }
  }

  lemma AtRankMonotone(s: seq<real>, a: real, b: real)
    requires s != [] && Ascending(s) && a <= b
    ensures AtRank(s, a) <= AtRank(s, b)
  {
    AtRankBounds(s, a);
    AtRankBounds(s, b);
    hide Lerp;
    if 1.0 <= a && b.Floor < |s| {
      AtRankBetween(s, a);
      AtRankBetween(s, b);
      if a.Floor < b.Floor {
        AscendingAt(s, a.Floor, b.Floor - 1);
      } else {
        var floor := a.Floor;
        AscendingAt(s, floor - 1, floor);
        LerpMonotone(s[floor - 1], s[floor], a - floor as real, b - floor as real);
      }
    }
  }

  lemma Times(a: real, b: real)
    requires b != 0.0
    ensures a / b * b == a
  {
  }

  /** The k-th smallest of n values is the percentile at k / (n + 1). */
  lemma OrderStatistic(s: seq<real>, k: nat)
    requires 1 <= k <= |s|
    ensures R6(s, 100.0 * (k as real / (|s| as real + 1.0))) == s[k - 1]
  {
    var n := |s| as real + 1.0;
    var share := k as real / n;
    Times(k as real, n);
    assert 100.0 * share / 100.0 == share;
    var rank := Rank(100.0 * share, |s|);
    assert rank == k as real && rank.Floor == k;
    assert k < |s| ==> Lerp(s[k - 1], s[k], 0.0) == s[k - 1];
  }

  /** Between two neighbouring values the percentile runs in a straight line, and outside the data it
      is constant. Together with `OrderStatistic` this determines it. */
  lemma StraightBetween(s: seq<real>, k: nat, f: real)
    requires 1 <= k < |s| && 0.0 <= f < 1.0
    ensures AtRank(s, k as real + f) == Lerp(AtRank(s, k as real), s[k], f)
  {
    var rank := k as real + f;
    assert rank.Floor == k && (k as real).Floor == k;
    assert Lerp(s[k - 1], s[k], 0.0) == s[k - 1];
  }

  lemma ConstantOutside(s: seq<real>, rank: real)
    requires s != []
    ensures rank < 1.0 ==> AtRank(s, rank) == s[0]
    ensures |s| as real <= rank ==> AtRank(s, rank) == s[|s| - 1]
  {
  }

  /** Percentiles are ordered like their percentages and lie within the data. */
  lemma PercentilesOrdered(s: seq<real>, p: real, q: real)
    requires s != [] && Ascending(s) && 0.0 < p <= q < 100.0
    ensures s[0] <= R6(s, p) <= R6(s, q) <= s[|s| - 1]
  {
    var k := |s| as real + 1.0;
    assert p / 100.0 <= q / 100.0;
    assert p / 100.0 * k <= q / 100.0 * k;
    AtRankMonotone(s, Rank(p, |s|), Rank(q, |s|));
    AtRankBounds(s, Rank(p, |s|));
    AtRankBounds(s, Rank(q, |s|));
  }

  /** Arrival order does not matter: sorting any permutation gives the same list. */
  lemma OrderIrrelevant(a: seq<real>, b: seq<real>)
    requires multiset(a) == multiset(b)
    ensures Sorted(a, LeReal()) == Sorted(b, LeReal())
  {
    SortedIsSorted(a, LeReal());
    SortedIsSorted(b, LeReal());
    SortedUnique(Sorted(a, LeReal()), Sorted(b, LeReal()), LeReal());
  }
}
