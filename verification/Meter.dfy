/** The histogram meter in exact mode, and the single pass that reports its quantiles. */
module Meters {
  import opened Sorting

  const MAX_UINT32: nat := 0xFFFF_FFFF
  const TWO_32: nat := 0x1_0000_0000
  const TWO_64: nat := 0x1_0000_0000_0000_0000

  type uint32 = x: nat | x < TWO_32

  // ---------------------------------------------------------------- samples

  function CountEq(samples: seq<uint32>, k: int): nat {
    if samples == [] then 0
    else CountEq(samples[..|samples| - 1], k) + if samples[|samples| - 1] == k then 1 else 0
  }

  function CountLe(samples: seq<uint32>, k: int): (n: nat)
    ensures n <= |samples|
  {
    if samples == [] then 0
    else CountLe(samples[..|samples| - 1], k) + if samples[|samples| - 1] <= k then 1 else 0
  }

  function SumLe(samples: seq<uint32>, k: int): nat {
    if samples == [] then 0
    else SumLe(samples[..|samples| - 1], k) + if samples[|samples| - 1] <= k then samples[|samples| - 1] else 0
  }

  /** The mean, rounded down. */
  function Mean(samples: seq<uint32>): nat
    requires samples != []
  {
    SumLe(samples, MAX_UINT32) / |samples|
  }

  /** Addition on uint32, and the accumulation of a weighted value on uint64. */
  function Add32(a: nat, b: nat): nat { (a + b) % TWO_32 }
  function AddProduct64(sum: nat, n: nat, v: nat): nat { (sum + n * v) % TWO_64 }

  /** `n` more samples of the same value. */
  function Repeat(v: uint32, n: nat): seq<uint32> { seq(n, _ => v) }

  lemma {:induction false} CountRepeat(samples: seq<uint32>, v: uint32, n: nat, k: int)
    ensures CountEq(samples + Repeat(v, n), k) == CountEq(samples, k) + if v == k then n else 0
    decreases n
  {
    var all := samples + Repeat(v, n);
    if n > 0 {
      assert all[..|all| - 1] == samples + Repeat(v, n - 1);
      CountRepeat(samples, v, n - 1, k);
    } else {
      assert all == samples;
    }
  }

  lemma Distribute(n: nat, b: nat)
    ensures (n + 1) * b == n * b + b
  {
  }

  /** Between two neighbouring values, only the samples at the upper one are added. */
  lemma {:induction false} NextKey(samples: seq<uint32>, a: int, b: nat)
    requires a < b && forall i :: 0 <= i < |samples| ==> samples[i] <= a || samples[i] >= b
    ensures CountLe(samples, b) == CountLe(samples, a) + CountEq(samples, b)
    ensures SumLe(samples, b) == SumLe(samples, a) + CountEq(samples, b) * b
  {
    if samples != [] {
      var last := |samples| - 1;
      NextKey(samples[..last], a, b);
      Distribute(CountEq(samples[..last], b), b);
    }
  }

  lemma {:induction false} NoneBetween(samples: seq<uint32>, a: int, b: int)
    requires a <= b && forall i :: 0 <= i < |samples| ==> samples[i] <= a || samples[i] > b
    ensures CountLe(samples, b) == CountLe(samples, a)
  {
    if samples != [] {
      NoneBetween(samples[..|samples| - 1], a, b);
    }
  }

  lemma {:induction false} Below(samples: seq<uint32>, k: int)
    requires forall i :: 0 <= i < |samples| ==> samples[i] > k
    ensures CountLe(samples, k) == 0 && SumLe(samples, k) == 0
  {
    if samples != [] {
      Below(samples[..|samples| - 1], k);
    }
  }

  lemma {:induction false} AllLe(samples: seq<uint32>, k: int)
    requires forall i :: 0 <= i < |samples| ==> samples[i] <= k
    ensures CountLe(samples, k) == |samples|
  {
    if samples != [] {
      AllLe(samples[..|samples| - 1], k);
    }
  }

  lemma {:induction false} CountMonotone(samples: seq<uint32>, a: int, b: int)
    requires a <= b
    ensures CountLe(samples, a) <= CountLe(samples, b)
  {
    if samples != [] {
      CountMonotone(samples[..|samples| - 1], a, b);
    }
  }

  function Ratio(a: nat, n: nat): (r: real)
    requires n != 0
    ensures r * n as real == a as real
  {
    a as real / n as real
  }

  /** The share of the samples at or below `k`. */
  function Share(samples: seq<uint32>, k: int): real
    requires samples != []
  {
    Ratio(CountLe(samples, k), |samples|)
  }

  /** The smallest value at which the cumulative share reaches `p`. */
  ghost predicate IsQuantile(samples: seq<uint32>, p: real, k: int) {
    samples != [] && p <= Share(samples, k) && forall j :: j < k ==> Share(samples, j) < p
  }

  lemma ShareMonotone(samples: seq<uint32>, a: int, b: int)
    requires samples != [] && a <= b
    ensures Share(samples, a) <= Share(samples, b)
  {
    CountMonotone(samples, a, b);
    Quotient(CountLe(samples, a), CountLe(samples, b), |samples|);
  }

  lemma Quotient(a: nat, b: nat, n: nat)
    requires a <= b && 0 < n
    ensures Ratio(a, n) <= Ratio(b, n)
  {
  }

  /** Quantiles of growing shares do not decrease, and they are determined by the samples. */
  lemma QuantilesOrdered(samples: seq<uint32>, p: real, q: real, a: int, b: int)
    requires IsQuantile(samples, p, a) && IsQuantile(samples, q, b) && p <= q
    ensures a <= b
    ensures p == q ==> a == b
  {
  }

  // ---------------------------------------------------------------- the sorted keys

  /** The value before position `i` of the keys; -1 before the first. */
  function Prev(keys: seq<uint32>, i: nat): int
    requires i <= |keys|
  {
    if i == 0 then -1 else keys[i - 1]
  }

  /** The keys are in order, without repetition, and no sample is missing from them. */
  ghost predicate Covers(keys: seq<uint32>, samples: seq<uint32>) {
    (forall i, j :: 0 <= i < j < |keys| ==> keys[i] < keys[j]) &&
    (forall i :: 0 <= i < |samples| ==> samples[i] in keys)
  }

  lemma NoSampleBetween(keys: seq<uint32>, samples: seq<uint32>, i: nat)
    requires Covers(keys, samples) && i < |keys|
    ensures Prev(keys, i) < keys[i]
    ensures forall j :: 0 <= j < |samples| ==> samples[j] <= Prev(keys, i) || samples[j] >= keys[i]
  {
    forall j | 0 <= j < |samples|
      ensures samples[j] <= Prev(keys, i) || samples[j] >= keys[i]
    {
      var x :| 0 <= x < |keys| && keys[x] == samples[j];
    }
  }

  /** Below a key, the share is at most what it was at the key before. */
  lemma ShareBelowKey(keys: seq<uint32>, samples: seq<uint32>, i: nat, j: int)
    requires Covers(keys, samples) && i < |keys| && samples != [] && j < keys[i]
    ensures Share(samples, j) <= Share(samples, Prev(keys, i))
  {
    NoSampleBetween(keys, samples, i);
    if j <= Prev(keys, i) {
      ShareMonotone(samples, j, Prev(keys, i));
    } else {
      NoneBetween(samples, Prev(keys, i), j);
    }
  }

  lemma LastKeyCoversAll(keys: seq<uint32>, samples: seq<uint32>)
    requires Covers(keys, samples) && keys != []
    ensures CountLe(samples, Prev(keys, |keys|)) == |samples|
    ensures SumLe(samples, Prev(keys, |keys|)) == SumLe(samples, MAX_UINT32)
  {
    forall j | 0 <= j < |samples|
      ensures samples[j] <= Prev(keys, |keys|)
    {
      var x :| 0 <= x < |keys| && keys[x] == samples[j];
    }
    AllLe(samples, Prev(keys, |keys|));
    SumAll(samples, Prev(keys, |keys|), MAX_UINT32);
  }

  lemma {:induction false} SumAll(samples: seq<uint32>, a: int, b: int)
    requires a <= b && forall i :: 0 <= i < |samples| ==> samples[i] <= a
    ensures SumLe(samples, a) == SumLe(samples, b)
  {
    if samples != [] {
      SumAll(samples[..|samples| - 1], a, b);
    }
  }

  // ---------------------------------------------------------------- the report

  datatype Line = Line(name: string, val: nat)

  /** The rate line; a period of no length makes it infinite. */
  datatype Rate = NoRate | PerSecond(value: real) | Infinite

  function RateOf(count: nat, period: real): (r: Rate)
    ensures if period == 0.0 then r == Infinite else r.PerSecond? && r.value * period == count as real
  {
    if period == 0.0 then Infinite else PerSecond(count as real / period)
  }

  /** The reported quantiles, in the order in which they are written. */
  function ShareOf(q: nat): real
    requires q < 3
  {
    if q == 0 then 0.5 else if q == 1 then 0.75 else 0.9
  }

  function NameOf(q: nat): string
    requires q < 3
  {
    if q == 0 then "median.gauge32" else if q == 1 then "p75.gauge32" else "p90.gauge32"
  }

  /** Line `q` reports quantile `q`, and its value is one of the keys. */
  ghost predicate QuantileLine(samples: seq<uint32>, keys: seq<uint32>, q: nat, line: Line)
    requires q < 3
  {
    line.name == NameOf(q) && line.val in keys && IsQuantile(samples, ShareOf(q), line.val)
  }

  ghost predicate QuantileLines(samples: seq<uint32>, keys: seq<uint32>, lines: seq<Line>) {
    |lines| <= 3 && forall q :: 0 <= q < |lines| ==> QuantileLine(samples, keys, q, lines[q])
  }

  /** The inner loop: writes the quantiles that this key reaches. */
  method WriteReached(ghost samples: seq<uint32>, keys: seq<uint32>, i: nat, p: real, lines: seq<Line>)
    returns (more: seq<Line>)
    requires samples != [] && Covers(keys, samples) && i < |keys| && p == Share(samples, keys[i])
    requires QuantileLines(samples, keys, lines) && |lines| <= 3
    requires |lines| < 3 ==> Share(samples, Prev(keys, i)) < ShareOf(|lines|)
    ensures QuantileLines(samples, keys, more) && |more| <= 3
    ensures |more| < 3 ==> p < ShareOf(|more|)
  {
    hide Share, NameOf, Covers;
    more := lines;
    while |more| < 3 && ShareOf(|more|) <= p
      invariant QuantileLines(samples, keys, more)
      invariant |more| < 3 ==> Share(samples, Prev(keys, i)) < ShareOf(|more|)
      decreases 3 - |more|
    {
      ghost var q := |more|;
      forall j: int | j < keys[i]
        ensures Share(samples, j) < ShareOf(q)
      {
        ShareBelowKey(keys, samples, i, j);
      }
      assert IsQuantile(samples, ShareOf(q), keys[i]);
      assert QuantileLine(samples, keys, q, Line(NameOf(q), keys[i]));
      more := more + [Line(NameOf(|more|), keys[i])];
    }
  }

  ghost predicate HistOk(hist: map<uint32, uint32>, samples: seq<uint32>) {
    (forall k :: k in hist ==> hist[k] == CountEq(samples, k) % TWO_32) &&
    (forall i :: 0 <= i < |samples| ==> samples[i] in hist)
  }

  lemma ModAdd(a: nat, n: nat)
    ensures (a % TWO_32 + n) % TWO_32 == (a + n) % TWO_32
  {
  }

  lemma HistRecorded(hist: map<uint32, uint32>, samples: seq<uint32>, val: uint32, num: uint32)
    requires HistOk(hist, samples)
    ensures var before := if val in hist then hist[val] else 0;
            HistOk(hist[val := (before + num) % TWO_32], samples + Repeat(val, num))
  {
    var after := samples + Repeat(val, num);
    if val !in hist {
      CountAbsent(samples, val);
    }
    ModAdd(CountEq(samples, val), num);
    hide CountEq;
    forall k | k in hist || k == val
      ensures CountEq(after, k) == CountEq(samples, k) + if val == k then num else 0
    {
      CountRepeat(samples, val, num, k);
    }
  }

  class Meter32 {
    var hist: map<uint32, uint32>
    var min: uint32
    var max: uint32
    var count: uint32
    var since: real                    // when the measuring period began, in seconds
    ghost var samples: seq<uint32>     // every value since the last report, with repetition

    /** Counters wrap at 32 bits; a value may be recorded zero times. */
    ghost predicate Valid() reads this {
      count == |samples| % TWO_32 && HistOk(hist, samples) &&
      (hist == map[] ==> min == MAX_UINT32 && max == 0) &&
      (hist != map[] ==> min in hist && max in hist) &&
      (forall k :: k in hist ==> min <= k <= max)
    }

    constructor (now: real)
      ensures Valid() && samples == [] && since == now
    {
      hist, min, max, count, samples := map[], MAX_UINT32, 0, 0, [];
      since := now;
    }

    method Clear()
      modifies this`hist, this`min, this`max, this`count, this`samples
      ensures Valid() && samples == [] && hist == map[]
    {
      hist, min, max, count, samples := map[], MAX_UINT32, 0, 0, [];
    }

    method ValuesUint32(val: uint32, num: uint32)
      requires Valid()
      modifies this`hist, this`min, this`max, this`count, this`samples
      ensures Valid() && samples == old(samples) + Repeat(val, num)
      ensures hist.Keys == old(hist.Keys) + {val}
    {
      HistRecorded(hist, samples, val, num);
      ModAdd(|samples|, num);
      hide HistOk;
      if val < min {
        min := val;
      }
      if val > max {
        max := val;
      }
      var before := if val in hist then hist[val] else 0;
      hist := hist[val := (before + num) % TWO_32];
      count := (count + num) % TWO_32;
      samples := samples + Repeat(val, num);
    }

    method ValueUint32(val: uint32)
      requires Valid()
      modifies this`hist, this`min, this`max, this`count, this`samples
      ensures Valid() && samples == old(samples) + [val] && hist.Keys == old(hist.Keys) + {val}
    {
      ValuesUint32(val, 1);
      assert Repeat(val, 1) == [val];
    }

    /** Writes every statistic and starts over. A meter that counted nothing is left as it is: its
        measuring period goes on. */
    method ReportGraphite(now: real) returns (lines: seq<Line>, rate: Rate)
      requires Valid() && |samples| < TWO_32
      modifies this
      ensures Valid()
      ensures old(samples) == [] ==> lines == [] && rate == NoRate && samples == [] && hist == old(hist) && since == old(since)
      ensures old(samples) != [] ==> samples == [] && hist == map[] && since == now
      ensures old(samples) != [] ==> if now == old(since) then rate == Infinite
                                     else rate.PerSecond? && rate.value * (now - old(since)) == |old(samples)| as real
      ensures old(samples) != [] ==> IsReport(old(samples), old(min), old(max), lines)
    {
      SmallMod(|samples|, TWO_32);
      if count == 0 {
        return [], NoRate;
      }
      hide IsReport;
      lines := Statistics();
      rate := RateOf(count, now - since);
      since := now;
      Clear();
    }

    method Statistics() returns (lines: seq<Line>)
      requires Valid() && 0 < |samples| < TWO_32
      ensures IsReport(samples, min, max, lines)
    {
      SmallMod(|samples|, TWO_32);
      hide IsReport, QuantileLines, SumLe;
      var keys := SortedKeys();
      var sum;
      lines, sum := Quantiles(keys);
      MeanFits(samples);
      SmallMod(sum / count, TWO_32);
      lines := lines + [Line("min.gauge32", min), Line("mean.gauge32", sum / count % TWO_32),
                        Line("max.gauge32", max), Line("values.count32", count)];
      ReportComplete(samples, keys, min, max, lines[..3], lines);
    }

    method SortedKeys() returns (keys: seq<uint32>)
      requires Valid()
      ensures Covers(keys, samples)
      ensures forall k :: k in keys ==> k in hist && min <= k <= max
    {
      keys := Keys(hist);
      keys := Sort(keys, LeNat());
      KeysCover(hist, samples, keys);
    }

    /** The single pass over the sorted keys. */
    method Quantiles(keys: seq<uint32>) returns (lines: seq<Line>, runningsum: nat)
      requires Valid() && 0 < |samples| < TWO_32 && Covers(keys, samples)
      requires forall k :: k in keys ==> k in hist
      ensures |lines| == 3 && QuantileLines(samples, keys, lines)
      ensures runningsum == SumLe(samples, MAX_UINT32) < TWO_64
    {
      SmallMod(|samples|, TWO_32);
      Below(samples, -1);
      LastKeyCoversAll(keys, samples);
      SumBound(samples, MAX_UINT32);
      FullShare(samples, Prev(keys, |keys|));
      NoShare(samples, -1);
      hide CountLe, SumLe, QuantileLines, Ratio, CountEq, Add32, AddProduct64;
      lines := [];
      assert QuantileLines(samples, keys, lines) by { NoLines(samples, keys); }
      var runningcount := 0;
      runningsum := 0;
      for i := 0 to |keys|
        invariant runningcount == CountLe(samples, Prev(keys, i))
        invariant runningsum == SumLe(samples, Prev(keys, i))
        invariant QuantileLines(samples, keys, lines) && |lines| <= 3
        invariant |lines| < 3 ==> Share(samples, Prev(keys, i)) < ShareOf(|lines|)
      {
        var key := keys[i];
        StepKey(keys, samples, i, hist[key]);
        runningcount := Add32(runningcount, hist[key]);
        runningsum := AddProduct64(runningsum, hist[key], key);
        lines := WriteReached(samples, keys, i, Ratio(runningcount, count), lines);
      }
    }
  }

  lemma NoLines(samples: seq<uint32>, keys: seq<uint32>)
    ensures QuantileLines(samples, keys, [])
  {
  }

  lemma FullShare(samples: seq<uint32>, k: int)
    requires samples != [] && CountLe(samples, k) == |samples|
    ensures Share(samples, k) == 1.0
  {
    var n := |samples| as real;
    assert n > 0.0 && n / n == 1.0;
  }

  lemma NoShare(samples: seq<uint32>, k: int)
    requires samples != [] && CountLe(samples, k) == 0
    ensures Share(samples, k) == 0.0
  {
  }

  lemma ReportComplete(samples: seq<uint32>, keys: seq<uint32>, min: nat, max: nat, quantiles: seq<Line>, lines: seq<Line>)
    requires samples != [] && |quantiles| == 3 && QuantileLines(samples, keys, quantiles)
    requires forall k :: k in keys ==> min <= k <= max
    requires lines == quantiles + [Line("min.gauge32", min), Line("mean.gauge32", Mean(samples)),
                                   Line("max.gauge32", max), Line("values.count32", |samples|)]
    ensures IsReport(samples, min, max, lines)
  {
    hide Share, Mean, IsQuantile;
    assert forall q :: 0 <= q < 3 ==> QuantileLine(samples, keys, q, quantiles[q]) && lines[q] == quantiles[q];
    QuantilesOrdered(samples, ShareOf(0), ShareOf(1), lines[0].val, lines[1].val);
    QuantilesOrdered(samples, ShareOf(1), ShareOf(2), lines[1].val, lines[2].val);
  }

  /** The keys of a histogram in the map's own order. */
  method Keys(hist: map<uint32, uint32>) returns (keys: seq<uint32>)
    ensures multiset(keys) == multiset(hist.Keys)
  {
    keys := [];
    var left := hist.Keys;
    while left != {}
      invariant left <= hist.Keys && multiset(keys) == multiset(hist.Keys - left)
      decreases |left|
    {
      var k :| k in left;
      assert hist.Keys - (left - {k}) == (hist.Keys - left) + {k};
      left := left - {k};
      keys := keys + [k];
    }
  }

  lemma KeysCover(hist: map<uint32, uint32>, samples: seq<uint32>, keys: seq<uint32>)
    requires HistOk(hist, samples) && multiset(keys) == multiset(hist.Keys) && SortedBy(keys, LeNat())
    ensures Covers(keys, samples) && forall k :: k in keys <==> k in hist
  {
    forall k: uint32
      ensures k in keys <==> k in hist
    {
      assert k in keys <==> k in multiset(keys);
    }
    forall i, j | 0 <= i < j < |keys|
      ensures keys[i] < keys[j]
    {
      assert LeNat()(keys[i], keys[j]);
      NoDuplicates(keys, hist.Keys, i, j);
    }
  }

  /** One key further: the running totals are the cumulative ones and cannot overflow. */
  lemma StepKey(keys: seq<uint32>, samples: seq<uint32>, i: nat, n: nat)
    requires Covers(keys, samples) && i < |keys| && |samples| < TWO_32
    requires n == CountEq(samples, keys[i]) % TWO_32
    ensures Add32(CountLe(samples, Prev(keys, i)), n) == CountLe(samples, keys[i])
    ensures AddProduct64(SumLe(samples, Prev(keys, i)), n, keys[i]) == SumLe(samples, keys[i])
  {
    NoSampleBetween(keys, samples, i);
    var a, b := Prev(keys, i), keys[i];
    NextKey(samples, a, b);
    SumBound(samples, b);
    hide CountEq, CountLe, SumLe, Covers;
    SmallMod(CountEq(samples, b), TWO_32);
    SmallMod(CountLe(samples, b), TWO_32);
    SmallMod(SumLe(samples, b), TWO_64);
  }

  lemma SmallMod(x: nat, m: nat)
    requires x < m
    ensures x % m == x
  {
  }

  lemma SumBound(samples: seq<uint32>, k: int)
    requires |samples| < TWO_32
    ensures SumLe(samples, k) < TWO_64
  {
    SumAtMost(samples, k);
  }

  lemma {:induction false} SumAtMost(samples: seq<uint32>, k: int)
    ensures SumLe(samples, k) <= |samples| * 0xFFFF_FFFF
  {
    if samples != [] {
      SumAtMost(samples[..|samples| - 1], k);
    }
  }

  lemma StrictScale(n: nat, a: nat, b: nat)
    requires 0 < n && a < b
    ensures n * a < n * b
  {
  }

  /** The mean does not exceed a 32-bit value. */
  lemma MeanFits(samples: seq<uint32>)
    requires samples != []
    ensures Mean(samples) < TWO_32
  {
    SumAtMost(samples, MAX_UINT32);
    DivideBound(SumLe(samples, MAX_UINT32), |samples|, 0xFFFF_FFFF);
  }

  lemma DivideBound(a: nat, n: nat, m: nat)
    requires 0 < n && a <= n * m
    ensures a / n <= m
  {
    var x := a / n;
    assert n * x <= a;
    if m < x {
      StrictScale(n, m, x);
      assert false;
    }
  }

  /** The report of a period with samples: three quantiles, each exactly once, between the extremes
      and in order; the mean rounded down; the number of samples. */
  ghost predicate IsReport(samples: seq<uint32>, min: nat, max: nat, lines: seq<Line>)
    requires samples != []
  {
    |lines| == 7 &&
    lines[0].name == "median.gauge32" && IsQuantile(samples, 0.5, lines[0].val) &&
    lines[1].name == "p75.gauge32" && IsQuantile(samples, 0.75, lines[1].val) &&
    lines[2].name == "p90.gauge32" && IsQuantile(samples, 0.9, lines[2].val) &&
    min <= lines[0].val <= lines[1].val <= lines[2].val <= max &&
    lines[3] == Line("min.gauge32", min) && lines[4] == Line("mean.gauge32", Mean(samples)) &&
    lines[5] == Line("max.gauge32", max) && lines[6] == Line("values.count32", |samples|)
  }

  lemma {:induction false} CountAbsent(samples: seq<uint32>, k: nat)
    requires forall i :: 0 <= i < |samples| ==> samples[i] != k
    ensures CountEq(samples, k) == 0
  {
    if samples != [] {
      CountAbsent(samples[..|samples| - 1], k);
    }
  }
}
