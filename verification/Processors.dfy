/** The aggregation functions: incremental processors, and the batch functions they compute.
    Values are reals, so rounding is not modelled; the square root is a parameter. */
module Processors {
  import opened Sorting
  import opened Percentiles

  datatype Fun = Avg | Count | Delta | Derive | Last | Max | Min | Stdev | Sum | Percents

  datatype Point = Point(val: real, ts: nat)

  datatype Proc =
    | AvgP(sum: real, cnt: nat)
    | CountP(cnt: nat)
    | DeltaP(max: real, min: real)
    | DeriveP(oldestTs: nat, newestTs: nat, oldestVal: real, newestVal: real)
    | LastP(val: real)
    | MaxP(val: real)
    | MinP(val: real)
    | StdevP(sum: real, values: seq<real>)
    | SumP(sum: real)
    | PercentsP(values: seq<real>)

  /** Flushed values by function name; a processor without enough data has none. */
  type Results = map<string, real>

  const PERCENTS: map<string, real> :=
    map["p25" := 25.0, "p50" := 50.0, "p75" := 75.0, "p90" := 90.0, "p95" := 95.0, "p99" := 99.0]

  // ---------------------------------------------------------------- the processors

  function New(f: Fun, p: Point): Proc {
    match f
    case Avg => AvgP(p.val, 1)
    case Count => CountP(1)
    case Delta => DeltaP(p.val, p.val)
    case Derive => DeriveP(p.ts, p.ts, p.val, p.val)
    case Last => LastP(p.val)
    case Max => MaxP(p.val)
    case Min => MinP(p.val)
    case Stdev => StdevP(p.val, [p.val])
    case Sum => SumP(p.val)
    case Percents => PercentsP([p.val])
  }

  function Add(s: Proc, p: Point): Proc {
    match s
    case AvgP(sum, cnt) => AvgP(sum + p.val, cnt + 1)
    case CountP(cnt) => CountP(cnt + 1)
    case DeltaP(max, min) => DeltaP(if p.val > max then p.val else max, if p.val < min then p.val else min)
    case DeriveP(oldestTs, newestTs, oldestVal, newestVal) =>
      var s1 := if p.ts > newestTs then s.(newestTs := p.ts, newestVal := p.val) else s;
      if p.ts < oldestTs then s1.(oldestTs := p.ts, oldestVal := p.val) else s1
    case LastP(_) => LastP(p.val)
    case MaxP(val) => if p.val > val then MaxP(p.val) else s
    case MinP(val) => if p.val < val then MinP(p.val) else s
    case StdevP(sum, values) => StdevP(sum + p.val, values + [p.val])
    case SumP(sum) => SumP(sum + p.val)
    case PercentsP(values) => PercentsP(values + [p.val])
  }

  /** Change per second between two points. */
  function Slope(v: real, w: real, t: nat, u: nat): real
    requires t != u
  {
    (v - w) / (t - u) as real
  }

  function SumSquares(vals: seq<real>, mean: real): real {
    if vals == [] then 0.0
    else
      var last := |vals| - 1;
      SumSquares(vals[..last], mean) + (vals[last] - mean) * (vals[last] - mean)
  }

  function AllPercents(sorted: seq<real>): Results
    requires sorted != []
  {
    map name | name in PERCENTS :: R6(sorted, PERCENTS[name])
  }

  predicate Flushable(s: Proc) {
    match s
    case AvgP(_, cnt) => cnt > 0
    case StdevP(_, values) => values != []
    case PercentsP(values) => values != []
    case _ => true
  }

  function Flush(s: Proc, sqrt: real -> real): Results
    requires Flushable(s)
  {
    match s
    case AvgP(sum, cnt) => map["avg" := sum / cnt as real]
    case CountP(cnt) => map["count" := cnt as real]
    case DeltaP(max, min) => map["delta" := max - min]
    case DeriveP(oldestTs, newestTs, oldestVal, newestVal) =>
      if newestTs == oldestTs then map[]
      else map["derive" := Slope(newestVal, oldestVal, newestTs, oldestTs)]
    case LastP(val) => map["last" := val]
    case MaxP(val) => map["max" := val]
    case MinP(val) => map["min" := val]
    case StdevP(sum, values) =>
      var n := |values| as real;
      map["stdev" := sqrt(SumSquares(values, sum / n) / n)]
    case SumP(sum) => map["sum" := sum]
    case PercentsP(values) =>
      AllPercents(Sorted(values, LeReal()))
  }

  /** A processor created with the first point and fed the others in order. */
  function Fold(f: Fun, pts: seq<Point>): Proc
    requires pts != []
  {
    if |pts| == 1 then New(f, pts[0]) else Add(Fold(f, pts[..|pts| - 1]), pts[|pts| - 1])
  }

  // ---------------------------------------------------------------- the batch functions

  function Vals(pts: seq<Point>): seq<real> {
    seq(|pts|, i requires 0 <= i < |pts| => pts[i].val)
  }

  function Total(vals: seq<real>): real {
    if vals == [] then 0.0 else Total(vals[..|vals| - 1]) + vals[|vals| - 1]
  }

  ghost predicate IsMax(m: real, vals: seq<real>) { m in vals && forall v :: v in vals ==> v <= m }
  ghost predicate IsMin(m: real, vals: seq<real>) { m in vals && forall v :: v in vals ==> m <= v }

  function Square(x: real): real { x * x }

  function Squares(vals: seq<real>): seq<real> { seq(|vals|, i requires 0 <= i < |vals| => Square(vals[i])) }

  /** `v` is the mean of the squares less the square of the mean. */
  ghost predicate IsVariance(v: real, vals: seq<real>) {
    IsVarianceOf(v, |vals| as real, Total(vals), Total(Squares(vals)))
  }

  /** The variance of `n` values, from their sum and the sum of their squares. */
  ghost predicate IsVarianceOf(v: real, n: real, sum: real, squares: real) { v * n * n == n * squares - sum * sum }

  lemma SquaresInit(vals: seq<real>)
    requires vals != []
    ensures Total(Squares(vals)) == Total(Squares(vals[..|vals| - 1])) + vals[|vals| - 1] * vals[|vals| - 1]
  {
    var init := vals[..|vals| - 1];
    assert Squares(vals)[..|vals| - 1] == Squares(init) by {
      hide Square;
    }
  }

  function Expanded(n: real, t: real, q: real, mean: real): real { q - 2.0 * mean * t + n * (mean * mean) }

  lemma ExpandedMore(n: real, t: real, q: real, mean: real, x: real)
    ensures Expanded(n + 1.0, t + x, q + x * x, mean) == Expanded(n, t, q, mean) + (x - mean) * (x - mean)
  {
    var m := mean * mean;
    assert (n + 1.0) * m == n * m + m;
    assert 2.0 * mean * (t + x) == 2.0 * mean * t + 2.0 * mean * x;
    assert (x - mean) * (x - mean) == x * x - 2.0 * mean * x + m;
  }

  /** The squared deviations, expanded. */
  lemma {:induction false} SumSquaresExpanded(vals: seq<real>, mean: real)
    ensures SumSquares(vals, mean) == Expanded(|vals| as real, Total(vals), Total(Squares(vals)), mean)
  {
    if vals == [] {
      assert Squares(vals) == [];
    } else {
      var init, x := vals[..|vals| - 1], vals[|vals| - 1];
      SumSquaresExpanded(init, mean);
      SquaresInit(vals);
      ExpandedMore(|init| as real, Total(init), Total(Squares(init)), mean, x);
      hide Expanded, Squares;
      assert |vals| as real == |init| as real + 1.0;
    }
  }

  lemma MeanSquareIsVariance(vals: seq<real>)
    requires vals != []
    ensures IsVariance(SumSquares(vals, Total(vals) / |vals| as real) / |vals| as real, vals)
  {
    var n, t, q := |vals| as real, Total(vals), Total(Squares(vals));
    SumSquaresExpanded(vals, t / n);
    VarianceAlgebra(n, t, q, t / n, SumSquares(vals, t / n));
    hide Expanded, SumSquares, Total, Squares, IsVarianceOf;
  }

  lemma VarianceAlgebra(n: real, t: real, q: real, mean: real, s: real)
    requires n > 0.0 && mean == t / n && s == Expanded(n, t, q, mean)
    ensures IsVarianceOf(s / n, n, t, q)
  {
    assert mean * n == t;
    assert s / n * n == s;
    assert n * (2.0 * mean * t) == 2.0 * t * t;
    assert n * (n * (mean * mean)) == (mean * n) * (mean * n);
  }

  /** `d` is the change per second from point `q` to point `p`. */
  ghost predicate IsSlope(d: real, p: Point, q: Point) { d * (p.ts - q.ts) as real == p.val - q.val }

  /** Point `i` is the earliest arrival among those with the largest timestamp. */
  ghost predicate FirstNewest(pts: seq<Point>, i: int) {
    0 <= i < |pts| && forall j :: 0 <= j < |pts| ==>
      if j < i then pts[j].ts < pts[i].ts else pts[j].ts <= pts[i].ts
  }

  ghost predicate FirstOldest(pts: seq<Point>, i: int) {
    0 <= i < |pts| && forall j :: 0 <= j < |pts| ==>
      if j < i then pts[j].ts > pts[i].ts else pts[j].ts >= pts[i].ts
  }

  ghost predicate HasPercents(s: seq<real>, r: Results)
    requires s != []
  {
    r.Keys == {"p25", "p50", "p75", "p90", "p95", "p99"} &&
    r["p25"] == R6(s, 25.0) && r["p50"] == R6(s, 50.0) && r["p75"] == R6(s, 75.0) &&
    r["p90"] == R6(s, 90.0) && r["p95"] == R6(s, 95.0) && r["p99"] == R6(s, 99.0)
  }

  ghost predicate IsPercents(vals: seq<real>, r: Results) {
    forall s :: Ascending(s) && multiset(s) == multiset(vals) && s != [] ==> HasPercents(s, r)
  }

  /** What a function of all the points has to yield, said without any processor. */
  ghost predicate IsBatch(f: Fun, pts: seq<Point>, sqrt: real -> real, r: Results)
    requires pts != []
  {
    var vals := Vals(pts);
    var n := |pts| as real;
    match f
    case Avg => r == map["avg" := Total(vals) / n]
    case Count => r == map["count" := n]
    case Delta => exists hi, lo :: IsMax(hi, vals) && IsMin(lo, vals) && r == map["delta" := hi - lo]
    case Derive => exists i, j :: FirstNewest(pts, i) && FirstOldest(pts, j) &&
                     if pts[i].ts == pts[j].ts then r == map[]
                     else r.Keys == {"derive"} && IsSlope(r["derive"], pts[i], pts[j])
    case Last => r == map["last" := pts[|pts| - 1].val]
    case Max => exists hi :: IsMax(hi, vals) && r == map["max" := hi]
    case Min => exists lo :: IsMin(lo, vals) && r == map["min" := lo]
    case Stdev => exists v :: IsVariance(v, vals) && r == map["stdev" := sqrt(v)]
    case Sum => r == map["sum" := Total(vals)]
    case Percents => IsPercents(vals, r)
  }

  /** What a processor knows after the points `pts`. */
  ghost predicate Summarizes(f: Fun, pts: seq<Point>, s: Proc)
    requires pts != []
  {
    var vals := Vals(pts);
    match f
    case Avg => s == AvgP(Total(vals), |pts|)
    case Count => s == CountP(|pts|)
    case Delta => s.DeltaP? && IsMax(s.max, vals) && IsMin(s.min, vals)
    case Derive => s.DeriveP? &&
                   (exists i :: FirstNewest(pts, i) && s.newestTs == pts[i].ts && s.newestVal == pts[i].val) &&
                   (exists j :: FirstOldest(pts, j) && s.oldestTs == pts[j].ts && s.oldestVal == pts[j].val)
    case Last => s == LastP(pts[|pts| - 1].val)
    case Max => s.MaxP? && IsMax(s.val, vals)
    case Min => s.MinP? && IsMin(s.val, vals)
    case Stdev => s == StdevP(Total(vals), vals)
    case Sum => s == SumP(Total(vals))
    case Percents => s == PercentsP(vals)
  }

  lemma SummarizesNew(f: Fun, p: Point)
    ensures Summarizes(f, [p], New(f, p))
  {
    assert Vals([p]) == [p.val];
    assert Total([p.val]) == p.val by { assert [p.val][..0] == []; }
    if f == Derive {
      assert FirstNewest([p], 0) && FirstOldest([p], 0);
    }
  }

  lemma ValsSnoc(pts: seq<Point>, p: Point)
    ensures Vals(pts + [p]) == Vals(pts) + [p.val]
    ensures Total(Vals(pts + [p])) == Total(Vals(pts)) + p.val
  {
    assert Vals(pts + [p]) == Vals(pts) + [p.val];
    assert (Vals(pts) + [p.val])[..|pts|] == Vals(pts);
  }

  lemma ExtremesSnoc(vals: seq<real>, hi: real, lo: real, x: real)
    ensures IsMax(hi, vals) ==> IsMax(if x > hi then x else hi, vals + [x])
    ensures IsMin(lo, vals) ==> IsMin(if x < lo then x else lo, vals + [x])
  {
  }

  lemma DeriveAdd(pts: seq<Point>, s: Proc, p: Point)
    requires pts != [] && Summarizes(Derive, pts, s)
    ensures Summarizes(Derive, pts + [p], Add(s, p))
  {
    var more := pts + [p];
    var i :| FirstNewest(pts, i) && s.newestTs == pts[i].ts && s.newestVal == pts[i].val;
    var j :| FirstOldest(pts, j) && s.oldestTs == pts[j].ts && s.oldestVal == pts[j].val;
    assert FirstNewest(more, if p.ts > s.newestTs then |pts| else i);
    assert FirstOldest(more, if p.ts < s.oldestTs then |pts| else j);
  }

  lemma SummarizesAdd(f: Fun, pts: seq<Point>, s: Proc, p: Point)
    requires pts != [] && Summarizes(f, pts, s)
    ensures Summarizes(f, pts + [p], Add(s, p))
  {
    ValsSnoc(pts, p);
    hide Vals, Total;
    match f
    case Derive => DeriveAdd(pts, s, p);
    case Delta => ExtremesSnoc(Vals(pts), s.max, s.min, p.val);
    case Max => ExtremesSnoc(Vals(pts), s.val, s.val, p.val);
    case Min => ExtremesSnoc(Vals(pts), s.val, s.val, p.val);
    case _ =>
  }

  lemma {:induction false} FoldSummarizes(f: Fun, pts: seq<Point>)
    requires pts != []
    ensures Summarizes(f, pts, Fold(f, pts))
  {
    var last := |pts| - 1;
    if last == 0 {
      assert pts == [pts[0]];
      SummarizesNew(f, pts[0]);
    } else {
      FoldSummarizes(f, pts[..last]);
      SummarizesAdd(f, pts[..last], Fold(f, pts[..last]), pts[last]);
      assert pts == pts[..last] + [pts[last]];
    }
  }

  lemma SixPercents(s: seq<real>)
    requires s != []
    ensures HasPercents(s, AllPercents(s))
  {
    hide R6;
  }

  lemma SortedPercents(vals: seq<real>)
    requires vals != []
    ensures IsPercents(vals, AllPercents(Sorted(vals, LeReal())))
  {
    var sorted := Sorted(vals, LeReal());
    SixPercents(sorted);
    hide AllPercents, HasPercents;
    forall s | Ascending(s) && multiset(s) == multiset(vals) && s != []
      ensures s == sorted
    {
      OneAscending(s, vals);
    }
  }

  lemma PercentsFlushIsBatch(pts: seq<Point>, sqrt: real -> real)
    requires pts != []
    ensures IsBatch(Percents, pts, sqrt, Flush(PercentsP(Vals(pts)), sqrt))
  {
    SortedPercents(Vals(pts));
    hide IsPercents, AllPercents, Sorted;
  }

  lemma OneAscending(s: seq<real>, vals: seq<real>)
    requires Ascending(s) && multiset(s) == multiset(vals)
    ensures s == Sorted(vals, LeReal())
  {
    SortedIsSorted(vals, LeReal());
    SortedUnique(s, Sorted(vals, LeReal()), LeReal());
  }

  lemma DeriveFlushIsBatch(pts: seq<Point>, s: Proc, sqrt: real -> real)
    requires pts != [] && Summarizes(Derive, pts, s)
    ensures IsBatch(Derive, pts, sqrt, Flush(s, sqrt))
  {
    var i :| FirstNewest(pts, i) && s.newestTs == pts[i].ts && s.newestVal == pts[i].val;
    var j :| FirstOldest(pts, j) && s.oldestTs == pts[j].ts && s.oldestVal == pts[j].val;
    if s.newestTs != s.oldestTs {
      SlopeIs(pts[i], pts[j]);
    }
    hide Slope, IsSlope;
  }

  lemma SlopeIs(p: Point, q: Point)
    requires p.ts != q.ts
    ensures IsSlope(Slope(p.val, q.val, p.ts, q.ts), p, q)
  {
  }

  /** The derivative of points on a line is its slope. */
  lemma DeriveOfLine(pts: seq<Point>, a: real, b: real, sqrt: real -> real, r: Results, k: nat, l: nat)
    requires k < |pts| && l < |pts| && pts[k].ts != pts[l].ts
    requires forall i :: 0 <= i < |pts| ==> OnLine(pts[i], a, b)
    requires IsBatch(Derive, pts, sqrt, r)
    ensures r == map["derive" := b]
  {
    hide OnLine, IsSlope;
    var i, j :| FirstNewest(pts, i) && FirstOldest(pts, j) &&
                if pts[i].ts == pts[j].ts then r == map[]
                else r.Keys == {"derive"} && IsSlope(r["derive"], pts[i], pts[j]);
    assert pts[j].ts < pts[i].ts && OnLine(pts[i], a, b) && OnLine(pts[j], a, b);
    SlopeOfLine(pts[i], pts[j], a, b, r["derive"]);
  }

  ghost predicate OnLine(p: Point, a: real, b: real) { p.val == a + b * p.ts as real }

  lemma SlopeOfLine(p: Point, q: Point, a: real, b: real, d: real)
    requires q.ts < p.ts && OnLine(p, a, b) && OnLine(q, a, b) && IsSlope(d, p, q)
    ensures d == b
  {
    var t, u := p.ts as real, q.ts as real;
    assert (p.ts - q.ts) as real == t - u;
    assert b * t - b * u == b * (t - u);
    Cancel(d, b, t - u);
  }

  lemma Cancel(x: real, y: real, d: real)
    requires d != 0.0 && x * d == y * d
    ensures x == y
  {
    assert (x - y) * d == 0.0;
  }

  /** The median of an odd number of values is the middle one. */
  lemma MedianOfOdd(pts: seq<Point>, sqrt: real -> real, r: Results, s: seq<real>, k: nat)
    requires |pts| == 2 * k + 1 && IsBatch(Percents, pts, sqrt, r)
    requires Ascending(s) && multiset(s) == multiset(Vals(pts))
    ensures |s| == |pts| && r["p50"] == s[k]
  {
    assert |s| == |multiset(s)| == |Vals(pts)|;
    OrderStatistic(s, k + 1);
    Half(k);
    hide R6, Vals;
    assert HasPercents(s, r);
  }

  lemma Half(k: nat)
    ensures 100.0 * ((k + 1) as real / ((2 * k + 1) as real + 1.0)) == 50.0
  {
    assert (2 * k + 1) as real + 1.0 == 2.0 * (k + 1) as real;
  }

  lemma SimpleFlushIsBatch(f: Fun, pts: seq<Point>, s: Proc, sqrt: real -> real)
    requires pts != [] && f != Derive && f != Percents && Summarizes(f, pts, s)
    ensures Flushable(s) && IsBatch(f, pts, sqrt, Flush(s, sqrt))
  {
    assert |Vals(pts)| == |pts|;
    MeanSquareIsVariance(Vals(pts));
    hide Vals, Total, SumSquares, IsMax, IsMin, IsVariance;
    match f
    case Avg =>
    case Count =>
    case Delta => assert IsMax(s.max, Vals(pts)) && IsMin(s.min, Vals(pts));
    case Last =>
    case Max => assert IsMax(s.val, Vals(pts));
    case Min => assert IsMin(s.val, Vals(pts));
    case Stdev =>
    case Sum =>
  }

  /** Each incremental processor computes its batch function. */
  lemma FlushIsBatch(f: Fun, pts: seq<Point>, sqrt: real -> real)
    requires pts != []
    ensures Flushable(Fold(f, pts)) && IsBatch(f, pts, sqrt, Flush(Fold(f, pts), sqrt))
  {
    FoldSummarizes(f, pts);
    if f == Percents {
      PercentsFlushIsBatch(pts, sqrt);
    } else if f == Derive {
      DeriveFlushIsBatch(pts, Fold(f, pts), sqrt);
    } else {
      SimpleFlushIsBatch(f, pts, Fold(f, pts), sqrt);
    }
  }

  // ---------------------------------------------------------------- the loops

  /** Sorts whatever way the library does and visits the percentages in any order. */
  method FlushPercentiles(values: seq<real>, sqrt: real -> real) returns (sorted: seq<real>, results: Results)
    requires values != []
    ensures results == Flush(PercentsP(values), sqrt)
    ensures Ascending(sorted) && multiset(sorted) == multiset(values)
  {
    sorted := Sort(values, LeReal());
    OneAscending(sorted, values);
    results := VisitPercents(sorted);
  }

  method VisitPercents(sorted: seq<real>) returns (results: Results)
    requires sorted != []
    ensures results == AllPercents(sorted)
  {
    hide R6;
    var names := PERCENTS.Keys;
    results := map[];
    while names != {}
      invariant names <= PERCENTS.Keys
      invariant results.Keys == PERCENTS.Keys - names
      invariant forall name :: name in results ==> results[name] == AllPercents(sorted)[name]
      decreases |names|
    {
      var name :| name in names;
      names := names - {name};
      results := results[name := R6(sorted, PERCENTS[name])];
    }
  }

  method FlushStdev(sum: real, values: seq<real>, sqrt: real -> real) returns (results: Results)
    requires values != []
    ensures results == Flush(StdevP(sum, values), sqrt)
  {
    var mean := sum / |values| as real;
    var variance := 0.0;
    for i := 0 to |values|
      invariant variance == SumSquares(values[..i], mean)
    {
      assert values[..i + 1][..i] == values[..i];
      variance := variance + (values[i] - mean) * (values[i] - mean);
    }
    assert values[..|values|] == values;
    results := map["stdev" := sqrt(variance / |values| as real)];
  }
}
