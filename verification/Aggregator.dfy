/** The time-bucketed aggregator, and the group-by query that its output equals. */
module Aggregators {
  import opened Options
  import opened Sorting
  import opened Processors

  /** A matched point: its output key, the bucket it falls into, and the point itself. */
  datatype Input = Input(key: string, bucket: nat, point: Point)

  /** One emitted line. The function name is printed only when a processor yields several values. */
  datatype Emit = Emit(key: string, name: string, val: real, ts: nat)

  datatype Aggregation = Aggregation(count: nat, state: map<string, Proc>)

  /** What is known about a name: the output key it expands to, or that it does not match. */
  datatype CacheEntry = CacheEntry(match_: bool, key: string, seen: nat)

  type Cache = map<string, CacheEntry>

  type Buckets = map<nat, Aggregation>

  const TWO_32 := 0x1_0000_0000

  /** The interval-aligned timestamp at or before `ts`. */
  function Quantize(ts: nat, interval: nat): (q: nat)
    requires interval > 0
    ensures q <= ts < q + interval && exists k: nat :: q == k * interval
  {
    assert ts - ts % interval == (ts / interval) * interval;
    ts - ts % interval
  }

  // ---------------------------------------------------------------- the query

  /** The points of one group, in arrival order. */
  function PointsOf(ins: seq<Input>, key: string, bucket: nat): (pts: seq<Point>) {
    if ins == [] then []
    else
      var last := ins[|ins| - 1];
      PointsOf(ins[..|ins| - 1], key, bucket) +
      if last.key == key && last.bucket == bucket then [last.point] else []
  }

  function CountOf(ins: seq<Input>, bucket: nat): nat {
    if ins == [] then 0
    else CountOf(ins[..|ins| - 1], bucket) + if ins[|ins| - 1].bucket == bucket then 1 else 0
  }

  /** The batch result of one group. */
  function GroupResult(f: Fun, sqrt: real -> real, ins: seq<Input>, key: string, bucket: nat): Results {
    var pts := PointsOf(ins, key, bucket);
    if pts == [] then map[]
    else
      FlushIsBatch(f, pts, sqrt);
      Flush(Fold(f, pts), sqrt)
  }

  /** `e` is a result of a group whose bucket is at or before the horizon. */
  predicate IsDue(f: Fun, sqrt: real -> real, ins: seq<Input>, horizon: int, e: Emit) {
    var r := GroupResult(f, sqrt, ins, e.key, e.ts);
    e.ts <= horizon && e.name in r && r[e.name] == e.val
  }

  /** Every result of every group whose bucket is at or before the horizon. */
  ghost function Due(f: Fun, sqrt: real -> real, ins: seq<Input>, horizon: int): (due: set<Emit>)
    ensures forall e :: e in due <==> IsDue(f, sqrt, ins, horizon, e)
  {
    var due := set i, name | 0 <= i < |ins| && name in GroupResult(f, sqrt, ins, ins[i].key, ins[i].bucket) &&
                             ins[i].bucket <= horizon ::
      Emit(ins[i].key, name, GroupResult(f, sqrt, ins, ins[i].key, ins[i].bucket)[name], ins[i].bucket);
    assert forall e | IsDue(f, sqrt, ins, horizon, e) :: e in due by {
      forall e | IsDue(f, sqrt, ins, horizon, e)
        ensures e in due
      {
        var i := PointsOfSource(ins, e.key, e.ts);
      }
    }
    due
  }

  predicate IsFlushed(sqrt: real -> real, ts: nat, state: map<string, Proc>, e: Emit)
    requires forall key :: key in state ==> Flushable(state[key])
  {
    e.ts == ts && e.key in state &&
    e.name in Flush(state[e.key], sqrt) && Flush(state[e.key], sqrt)[e.name] == e.val
  }

  /** What flushing one bucket emits. */
  ghost function EmitSet(sqrt: real -> real, ts: nat, state: map<string, Proc>): (es: set<Emit>)
    requires forall key :: key in state ==> Flushable(state[key])
    ensures forall e :: e in es <==> IsFlushed(sqrt, ts, state, e)
  {
    set key, name | key in state && name in Flush(state[key], sqrt) ::
      Emit(key, name, Flush(state[key], sqrt)[name], ts)
  }

  lemma PointsOfSnoc(ins: seq<Input>, a: Input, key: string, bucket: nat)
    ensures PointsOf(ins + [a], key, bucket) ==
            PointsOf(ins, key, bucket) + (if a.key == key && a.bucket == bucket then [a.point] else [])
    ensures CountOf(ins + [a], bucket) == CountOf(ins, bucket) + (if a.bucket == bucket then 1 else 0)
  {
    assert (ins + [a])[..|ins|] == ins;
  }

  lemma {:induction false} PointsOfMember(ins: seq<Input>, i: nat)
    requires i < |ins|
    ensures PointsOf(ins, ins[i].key, ins[i].bucket) != []
    decreases |ins|
  {
    if i < |ins| - 1 {
      assert ins[..|ins| - 1][i] == ins[i];
      PointsOfMember(ins[..|ins| - 1], i);
    }
  }

  lemma {:induction false} PointsOfSource(ins: seq<Input>, key: string, bucket: nat) returns (i: nat)
    requires PointsOf(ins, key, bucket) != []
    ensures i < |ins| && ins[i].key == key && ins[i].bucket == bucket
    decreases |ins|
  {
    var last := |ins| - 1;
    if ins[last].key == key && ins[last].bucket == bucket {
      i := last;
    } else {
      i := PointsOfSource(ins[..last], key, bucket);
    }
  }

  // ---------------------------------------------------------------- invariants over buckets

  /** The index lists exactly the buckets, in increasing order. */
  ghost predicate Indexed(tsList: seq<nat>, buckets: Buckets) {
    (forall i, j :: 0 <= i < j < |tsList| ==> tsList[i] < tsList[j]) &&
    (forall ts :: ts in tsList <==> ts in buckets)
  }

  lemma IndexedUpdate(tsList: seq<nat>, buckets: Buckets, ts: nat, agg: Aggregation)
    requires Indexed(tsList, buckets) && ts in buckets
    ensures Indexed(tsList, buckets[ts := agg])
  {
  }

  /** A bucket's processors have seen exactly the points of their groups. Buckets at or before the
      horizon are empty: they were created by points that came too late. */
  ghost predicate BucketOk(f: Fun, ins: seq<Input>, horizon: int, ts: nat, state: map<string, Proc>) {
    (forall key :: key in state ==>
       PointsOf(ins, key, ts) != [] && state[key] == Fold(f, PointsOf(ins, key, ts))) &&
    (forall key :: PointsOf(ins, key, ts) != [] && ts > horizon ==> key in state) &&
    (ts <= horizon ==> state == map[])
  }

  ghost predicate BucketsOk(f: Fun, ins: seq<Input>, horizon: int, buckets: Buckets) {
    (forall ts :: ts in buckets ==> BucketOk(f, ins, horizon, ts, buckets[ts].state)) &&
    (forall i :: 0 <= i < |ins| && ins[i].bucket > horizon ==> ins[i].bucket in buckets)
  }

  /** Flushing a bucket emits exactly what becomes due when the horizon moves up to it. */
  lemma FlushIsDue(f: Fun, sqrt: real -> real, ins: seq<Input>, horizon: int, ts: nat,
                   state: map<string, Proc>)
    requires BucketOk(f, ins, horizon, ts, state) && ts > horizon
    requires forall i :: 0 <= i < |ins| && horizon < ins[i].bucket <= ts ==> ins[i].bucket == ts
    ensures forall key :: key in state ==> Flushable(state[key])
    ensures Due(f, sqrt, ins, ts) == Due(f, sqrt, ins, horizon) + EmitSet(sqrt, ts, state)
    ensures Due(f, sqrt, ins, horizon) !! EmitSet(sqrt, ts, state)
  {
    forall key | key in state
      ensures Flushable(state[key]) && GroupResult(f, sqrt, ins, key, ts) == Flush(state[key], sqrt)
    {
      FlushIsBatch(f, PointsOf(ins, key, ts), sqrt);
    }
    forall e | IsDue(f, sqrt, ins, ts, e)
      ensures e in Due(f, sqrt, ins, horizon) + EmitSet(sqrt, ts, state)
    {
      var i := PointsOfSource(ins, e.key, e.ts);
    }
  }

  /** When no group lies between two horizons, nothing becomes due between them. */
  lemma NothingDue(f: Fun, sqrt: real -> real, ins: seq<Input>, h: int, h': int)
    requires h <= h' && forall i :: 0 <= i < |ins| ==> !(h < ins[i].bucket <= h')
    ensures Due(f, sqrt, ins, h') == Due(f, sqrt, ins, h)
  {
    forall e | IsDue(f, sqrt, ins, h', e)
      ensures IsDue(f, sqrt, ins, h, e)
    {
      var i := PointsOfSource(ins, e.key, e.ts);
    }
  }

  lemma GroupUnchanged(f: Fun, sqrt: real -> real, ins: seq<Input>, a: Input, key: string, bucket: nat)
    requires a.bucket != bucket
    ensures GroupResult(f, sqrt, ins + [a], key, bucket) == GroupResult(f, sqrt, ins, key, bucket)
  {
    PointsOfSnoc(ins, a, key, bucket);
    assert PointsOf(ins + [a], key, bucket) == PointsOf(ins, key, bucket);
  }

  /** A point beyond the horizon changes nothing that is already due. */
  lemma DueUnchanged(f: Fun, sqrt: real -> real, ins: seq<Input>, a: Input, horizon: int)
    requires a.bucket > horizon
    ensures Due(f, sqrt, ins + [a], horizon) == Due(f, sqrt, ins, horizon)
  {
    forall e: Emit | e.ts <= horizon
      ensures IsDue(f, sqrt, ins + [a], horizon, e) <==> IsDue(f, sqrt, ins, horizon, e)
    {
      GroupUnchanged(f, sqrt, ins, a, e.key, e.ts);
    }
    hide GroupResult;
  }

  /** One more point in its group. */
  lemma FoldSnoc(f: Fun, pts: seq<Point>, p: Point)
    ensures Fold(f, pts + [p]) == if pts == [] then New(f, p) else Add(Fold(f, pts), p)
  {
    assert (pts + [p])[..|pts|] == pts;
  }

  /** The bucket that takes in a point, and any other bucket. */
  lemma RecordedBucketOk(f: Fun, ins: seq<Input>, horizon: int, ts: nat, state: map<string, Proc>, a: Input)
    requires BucketOk(f, ins, horizon, ts, state) && a.bucket > horizon
    ensures var s := if a.bucket != ts then state
                     else state[a.key := if a.key in state then Add(state[a.key], a.point) else New(f, a.point)];
            BucketOk(f, ins + [a], horizon, ts, s)
  {
    hide Add, New, Fold;
    forall key
      ensures PointsOf(ins + [a], key, ts) ==
              if a.bucket == ts && a.key == key then PointsOf(ins, key, ts) + [a.point] else PointsOf(ins, key, ts)
    {
      PointsOfSnoc(ins, a, key, ts);
    }
    FoldSnoc(f, PointsOf(ins, a.key, ts), a.point);
  }

  lemma RecordedBucketsOk(f: Fun, ins: seq<Input>, horizon: int, buckets: Buckets, a: Input, proc: Proc, n: nat)
    requires BucketsOk(f, ins, horizon, buckets) && a.bucket in buckets && a.bucket > horizon
    requires var state := buckets[a.bucket].state;
             proc == if a.key in state then Add(state[a.key], a.point) else New(f, a.point)
    ensures BucketsOk(f, ins + [a], horizon,
                      buckets[a.bucket := Aggregation(n, buckets[a.bucket].state[a.key := proc])])
  {
    forall ts | ts in buckets
      ensures var s := if a.bucket != ts then buckets[ts].state
                       else buckets[ts].state[a.key := proc];
              BucketOk(f, ins + [a], horizon, ts, s)
    {
      RecordedBucketOk(f, ins, horizon, ts, buckets[ts].state, a);
    }
    hide BucketOk;
  }

  /** A bucket created for a group that has no points yet. */
  lemma NewBucketOk(f: Fun, ins: seq<Input>, horizon: int, buckets: Buckets, ts: nat)
    requires BucketsOk(f, ins, horizon, buckets) && ts !in buckets
    ensures BucketsOk(f, ins, horizon, buckets[ts := Aggregation(0, map[])])
  {
    forall key | PointsOf(ins, key, ts) != []
      ensures ts <= horizon
    {
      var i := PointsOfSource(ins, key, ts);
    }
    assert BucketOk(f, ins, horizon, ts, map[]);
    hide BucketOk;
  }

  /** A group without a processor has no points, unless its bucket is closed. */
  lemma NoProcessorNoPoints(f: Fun, ins: seq<Input>, horizon: int, buckets: Buckets, key: string, ts: nat)
    requires BucketsOk(f, ins, horizon, buckets)
    ensures ts in buckets && key in buckets[ts].state ==> ts > horizon && PointsOf(ins, key, ts) != []
    ensures !(ts in buckets && key in buckets[ts].state) ==> ts <= horizon || PointsOf(ins, key, ts) == []
  {
    if PointsOf(ins, key, ts) != [] {
      var i := PointsOfSource(ins, key, ts);
    }
    if ts in buckets {
      assert BucketOk(f, ins, horizon, ts, buckets[ts].state);
    }
  }

  // ---------------------------------------------------------------- emitting

  ghost function KeySet(key: string, ts: nat, results: Results): (es: set<Emit>)
    ensures forall e :: e in es <==> e.ts == ts && e.key == key && e.name in results && results[e.name] == e.val
  {
    set name | name in results :: Emit(key, name, results[name], ts)
  }

  /** The results of one processor, in any order. */
  method EmitResults(key: string, ts: nat, results: Results) returns (es: seq<Emit>)
    ensures multiset(es) == multiset(KeySet(key, ts, results))
  {
    es := [];
    var names := results.Keys;
    while names != {}
      invariant names <= results.Keys
      invariant multiset(es) == multiset(set n | n in results.Keys - names :: Emit(key, n, results[n], ts))
      decreases |names|
    {
      var name :| name in names;
      ghost var before := set n | n in results.Keys - names :: Emit(key, n, results[n], ts);
      names := names - {name};
      ghost var after := set n | n in results.Keys - names :: Emit(key, n, results[n], ts);
      var e := Emit(key, name, results[name], ts);
      assert e !in before && after == before + {e};
      es := es + [e];
    }
  }

  lemma EmitSetAdd(sqrt: real -> real, ts: nat, seen: map<string, Proc>, key: string, p: Proc)
    requires key !in seen && Flushable(p) && forall k :: k in seen ==> Flushable(seen[k])
    ensures multiset(EmitSet(sqrt, ts, seen[key := p])) ==
            multiset(EmitSet(sqrt, ts, seen)) + multiset(KeySet(key, ts, Flush(p, sqrt)))
  {
    hide EmitSet, KeySet, Flush, Flushable;
    var a, b := EmitSet(sqrt, ts, seen), KeySet(key, ts, Flush(p, sqrt));
    assert EmitSet(sqrt, ts, seen[key := p]) == a + b;
    assert a !! b;
  }

  /** The processors of one bucket, in any order. */
  method EmitBucket(sqrt: real -> real, ts: nat, state: map<string, Proc>) returns (es: seq<Emit>)
    requires forall key :: key in state ==> Flushable(state[key])
    ensures multiset(es) == multiset(EmitSet(sqrt, ts, state))
  {
    assert EmitSet(sqrt, ts, map[]) == {};
    hide EmitSet, KeySet, Flush, Flushable, IsFlushed;
    es := [];
    var keys := state.Keys;
    ghost var seen: map<string, Proc> := map[];
    while keys != {}
      invariant keys <= state.Keys
      invariant seen == map key | key in state.Keys - keys :: state[key]
      invariant multiset(es) == multiset(EmitSet(sqrt, ts, seen))
      decreases |keys|
    {
      var key :| key in keys;
      var more := EmitResults(key, ts, Flush(state[key], sqrt));
      EmitSetAdd(sqrt, ts, seen, key, state[key]);
      es := es + more;
      keys := keys - {key};
      seen := seen[key := state[key]];
    }
    assert seen == state;
  }

  // ---------------------------------------------------------------- the index

  lemma {:induction false} StrictDistinct(ts: seq<nat>, x: nat)
    requires forall i, j :: 0 <= i < j < |ts| ==> ts[i] < ts[j]
    ensures multiset(ts)[x] <= 1
  {
    if ts != [] {
      var init := ts[..|ts| - 1];
      assert ts == init + [ts[|ts| - 1]];
      StrictDistinct(init, x);
      if x == ts[|ts| - 1] {
        assert x !in init;
      }
    }
  }

  /** Appending a new timestamp and sorting, by whatever algorithm, restores the index. */
  lemma SortedIndex(ts: seq<nat>, q: nat, sorted: seq<nat>)
    requires forall i, j :: 0 <= i < j < |ts| ==> ts[i] < ts[j]
    requires q !in ts && multiset(sorted) == multiset(ts + [q]) && SortedBy(sorted, LeNat())
    ensures forall i, j :: 0 <= i < j < |sorted| ==> sorted[i] < sorted[j]
    ensures forall x :: x in sorted <==> x in ts || x == q
  {
    forall x: nat
      ensures x in sorted <==> x in ts || x == q
    {
      assert x in sorted <==> x in multiset(sorted);
      assert x in ts + [q] <==> x in multiset(ts + [q]);
    }
    forall i, j | 0 <= i < j < |sorted|
      ensures sorted[i] < sorted[j]
    {
      assert LeNat()(sorted[i], sorted[j]);
      if sorted[i] == sorted[j] {
        var x := sorted[i];
        assert sorted == sorted[..j] + sorted[j..];
        assert x in sorted[..j] && x in sorted[j..];
        assert multiset(sorted)[x] >= 2;
        StrictDistinct(ts, x);
      }
    }
  }

  // ---------------------------------------------------------------- the aggregator

  datatype Report = Report(ts: nat, count: nat)

  function Reported(rs: seq<Report>, ts: nat): nat {
    if rs == [] then 0
    else Reported(rs[..|rs| - 1], ts) + if rs[|rs| - 1].ts == ts then rs[|rs| - 1].count else 0
  }

  function LiveCount(buckets: Buckets, ts: nat): nat { if ts in buckets then buckets[ts].count else 0 }

  /** Points in equal points out, bucket by bucket: what has been accepted for a timestamp is what
      its live bucket counts plus what has been reported for it. Counters are 32 bits wide. */
  ghost predicate Counted(ins: seq<Input>, horizon: int, buckets: Buckets, rs: seq<Report>) {
    forall ts: nat :: CountOf(ins, ts) % TWO_32 == Reported(rs, ts) + LiveCount(buckets, ts) &&
                      if ts > horizon then Reported(rs, ts) == 0 else LiveCount(buckets, ts) == 0
  }

  lemma CreatedCounted(ins: seq<Input>, horizon: int, buckets: Buckets, rs: seq<Report>, ts: nat)
    requires Counted(ins, horizon, buckets, rs) && ts !in buckets
    ensures Counted(ins, horizon, buckets[ts := Aggregation(0, map[])], rs)
  {
    var after := buckets[ts := Aggregation(0, map[])];
    hide CountOf, Reported;
    forall t: nat
      ensures LiveCount(after, t) == LiveCount(buckets, t)
    {
    }
  }

  lemma SuccMod(x: nat, c: nat)
    requires x % TWO_32 == c
    ensures (x + 1) % TWO_32 == (c + 1) % TWO_32
  {
  }

  lemma RecordedCounted(ins: seq<Input>, horizon: int, buckets: Buckets, rs: seq<Report>, a: Input, s: map<string, Proc>)
    requires Counted(ins, horizon, buckets, rs) && a.bucket in buckets && a.bucket > horizon
    ensures Counted(ins + [a], horizon,
                    buckets[a.bucket := Aggregation((buckets[a.bucket].count + 1) % TWO_32, s)], rs)
  {
    var after := buckets[a.bucket := Aggregation((buckets[a.bucket].count + 1) % TWO_32, s)];
    hide Reported;
    forall ts: nat
      ensures CountOf(ins + [a], ts) % TWO_32 == Reported(rs, ts) + LiveCount(after, ts)
      ensures if ts > horizon then Reported(rs, ts) == 0 else LiveCount(after, ts) == 0
    {
      PointsOfSnoc(ins, a, a.key, ts);
      assert CountOf(ins, ts) % TWO_32 == Reported(rs, ts) + LiveCount(buckets, ts);
      if ts == a.bucket {
        SuccMod(CountOf(ins, ts), buckets[ts].count);
      }
    }
  }

  // ---------------------------------------------------------------- totals

  function Sum(ts: seq<nat>, f: nat -> nat): nat {
    if ts == [] then 0 else Sum(ts[..|ts| - 1], f) + f(ts[|ts| - 1])
  }

  predicate Distinct(ts: seq<nat>) { forall i, j :: 0 <= i < j < |ts| ==> ts[i] != ts[j] }

  lemma {:induction false} SumPlus(ts: seq<nat>, f: nat -> nat, g: nat -> nat, h: nat -> nat)
    requires forall t :: t in ts ==> f(t) == g(t) + h(t)
    ensures Sum(ts, f) == Sum(ts, g) + Sum(ts, h)
  {
    if ts != [] {
      SumPlus(ts[..|ts| - 1], f, g, h);
    }
  }

  lemma {:induction false} SumPoint(ts: seq<nat>, f: nat -> nat, x: nat, c: nat)
    requires Distinct(ts) && forall t :: t in ts ==> f(t) == if t == x then c else 0
    ensures Sum(ts, f) == if x in ts then c else 0
  {
    if ts != [] {
      var init, last := ts[..|ts| - 1], ts[|ts| - 1];
      SumPoint(init, f, x, c);
      assert ts == init + [last];
    }
  }

  lemma {:induction false} SumAppend(a: seq<nat>, b: seq<nat>, f: nat -> nat)
    ensures Sum(a + b, f) == Sum(a, f) + Sum(b, f)
    decreases |b|
  {
    if b == [] {
      assert a + b == a;
    } else {
      SumAppend(a, b[..|b| - 1], f);
      assert (a + b)[..|a + b| - 1] == a + b[..|b| - 1];
    }
  }

  lemma {:induction false} SumZero(ts: seq<nat>, f: nat -> nat)
    requires forall t :: t in ts ==> f(t) == 0
    ensures Sum(ts, f) == 0
  {
    if ts != [] {
      SumZero(ts[..|ts| - 1], f);
    }
  }

  function ReportedTotal(rs: seq<Report>): nat {
    if rs == [] then 0 else ReportedTotal(rs[..|rs| - 1]) + rs[|rs| - 1].count
  }

  /** What the live buckets count, over the index. */
  function LiveTotal(index: seq<nat>, buckets: Buckets): nat { Sum(index, t => LiveCount(buckets, t)) }

  /** Counting by timestamp counts every point once. */
  lemma {:induction false} SumCount(ts: seq<nat>, ins: seq<Input>)
    requires Distinct(ts) && forall a :: a in ins ==> a.bucket in ts
    ensures Sum(ts, t => CountOf(ins, t)) == |ins|
  {
    if ins == [] {
      SumZero(ts, t => CountOf(ins, t));
    } else {
      var init, a := ins[..|ins| - 1], ins[|ins| - 1];
      SumCount(ts, init);
      SumPoint(ts, t => if t == a.bucket then 1 else 0, a.bucket, 1);
      SumPlus(ts, t => CountOf(ins, t), t => CountOf(init, t), t => if t == a.bucket then 1 else 0);
    }
  }

  lemma {:induction false} SumReported(ts: seq<nat>, rs: seq<Report>)
    requires Distinct(ts) && forall r :: r in rs ==> r.ts in ts
    ensures Sum(ts, t => Reported(rs, t)) == ReportedTotal(rs)
  {
    if rs == [] {
      SumZero(ts, t => Reported(rs, t));
    } else {
      var init, r := rs[..|rs| - 1], rs[|rs| - 1];
      SumReported(ts, init);
      SumPoint(ts, t => if t == r.ts then r.count else 0, r.ts, r.count);
      SumPlus(ts, t => Reported(rs, t), t => Reported(init, t), t => if t == r.ts then r.count else 0);
    }
  }

  /** A list of timestamps, extended by those it lacks. */
  lemma {:induction false} Complete(ts: seq<nat>, more: seq<nat>) returns (rest: seq<nat>)
    requires Distinct(ts)
    ensures Distinct(ts + rest) && forall t :: t in more ==> t in ts + rest
    decreases |more|
  {
    rest := [];
    if more != [] {
      var init, last := more[..|more| - 1], more[|more| - 1];
      rest := Complete(ts, init);
      assert more == init + [last];
      if last !in ts + rest {
        assert ts + (rest + [last]) == ts + rest + [last];
        rest := rest + [last];
      }
    }
  }

  lemma {:induction false} CountAtMost(ins: seq<Input>, t: nat)
    ensures CountOf(ins, t) <= |ins|
  {
    if ins != [] {
      CountAtMost(ins[..|ins| - 1], t);
    }
  }

  /** Conservation in total: as long as no counter can wrap, the accepted points are those that live
      buckets count and those that have been reported. */
  lemma CountedInTotal(ins: seq<Input>, horizon: int, index: seq<nat>, buckets: Buckets, rs: seq<Report>)
    requires Counted(ins, horizon, buckets, rs) && Indexed(index, buckets) && |ins| < TWO_32
    ensures |ins| == LiveTotal(index, buckets) + ReportedTotal(rs)
  {
    var stamps := seq(|ins|, i requires 0 <= i < |ins| => ins[i].bucket) + seq(|rs|, i requires 0 <= i < |rs| => rs[i].ts);
    var rest := Complete(index, stamps);
    var ts := index + rest;
    forall a | a in ins
      ensures a.bucket in ts
    {
      var i :| 0 <= i < |ins| && ins[i] == a;
      assert stamps[i] == a.bucket;
    }
    forall r | r in rs
      ensures r.ts in ts
    {
      var i :| 0 <= i < |rs| && rs[i] == r;
      assert stamps[|ins| + i] == r.ts;
    }
    SumCount(ts, ins);
    SumReported(ts, rs);
    LiveOnIndex(index, rest, buckets);
    forall t | t in ts
      ensures CountOf(ins, t) == Reported(rs, t) + LiveCount(buckets, t)
    {
      CountAtMost(ins, t);
    }
    SumPlus(ts, t => CountOf(ins, t), t => Reported(rs, t), t => LiveCount(buckets, t));
  }

  lemma LiveOnIndex(index: seq<nat>, rest: seq<nat>, buckets: Buckets)
    requires Indexed(index, buckets) && Distinct(index + rest)
    ensures Sum(index + rest, t => LiveCount(buckets, t)) == LiveTotal(index, buckets)
  {
    SumAppend(index, rest, t => LiveCount(buckets, t));
    forall t | t in rest
      ensures t !in buckets
    {
      var j :| 0 <= j < |rest| && rest[j] == t;
      assert (index + rest)[|index| + j] == t;
      assert forall i :: 0 <= i < |index| ==> (index + rest)[i] == index[i];
      assert t !in index;
    }
    SumZero(rest, t => LiveCount(buckets, t));
  }

  function Later(h: int, ts: int): int { if h < ts then ts else h }

  lemma IndexTail(index: seq<nat>, buckets: Buckets)
    requires index != [] && Indexed(index, buckets)
    ensures index[0] in buckets && Indexed(index[1..], buckets - {index[0]})
    ensures forall ts :: ts in buckets && ts != index[0] ==> ts > index[0]
  {
    assert index[0] in index;
    forall ts: nat
      ensures ts in index[1..] <==> ts in buckets && ts != index[0]
      ensures ts in buckets && ts != index[0] ==> ts > index[0]
    {
      assert ts in index <==> ts in buckets;
      if ts in index {
        var i :| 0 <= i < |index| && index[i] == ts;
        assert i > 0 ==> index[1..][i - 1] == ts;
      }
    }
  }

  lemma IndexBeyond(index: seq<nat>, buckets: Buckets, cutoff: int)
    requires Indexed(index, buckets) && (index == [] || index[0] > cutoff)
    ensures forall ts :: ts in buckets ==> ts > cutoff
  {
    if index != [] {
      IndexTail(index, buckets);
    }
  }

  lemma RemainingBucketsOk(f: Fun, ins: seq<Input>, h: int, ts: nat, buckets: Buckets)
    requires BucketsOk(f, ins, h, buckets) && forall q :: q in buckets && q != ts ==> q > ts
    ensures BucketsOk(f, ins, Later(h, ts), buckets - {ts})
  {
    forall q | q in buckets && q != ts
      ensures BucketOk(f, ins, Later(h, ts), q, buckets[q].state)
    {
      assert BucketOk(f, ins, h, q, buckets[q].state);
    }
    hide BucketOk;
  }

  /** Closing the earliest bucket: what it emits is what becomes due. */
  lemma ClosedIsDue(f: Fun, sqrt: real -> real, ins: seq<Input>, h: int, ts: nat, buckets: Buckets)
    requires BucketsOk(f, ins, h, buckets) && ts in buckets
    requires forall q :: q in buckets && q != ts ==> q > ts
    ensures forall key :: key in buckets[ts].state ==> Flushable(buckets[ts].state[key])
    ensures multiset(Due(f, sqrt, ins, Later(h, ts))) ==
            multiset(Due(f, sqrt, ins, h)) + multiset(EmitSet(sqrt, ts, buckets[ts].state))
    ensures ts <= h ==> EmitSet(sqrt, ts, buckets[ts].state) == {}
  {
    assert BucketOk(f, ins, h, ts, buckets[ts].state);
    if ts > h {
      FlushIsDue(f, sqrt, ins, h, ts, buckets[ts].state);
    } else {
      assert EmitSet(sqrt, ts, buckets[ts].state) == {};
    }
    hide BucketOk, Due, EmitSet, IsDue, IsFlushed;
  }

  lemma ReportedSnoc(rs: seq<Report>, r: Report, ts: nat)
    ensures Reported(rs + [r], ts) == Reported(rs, ts) + if r.ts == ts then r.count else 0
  {
    assert (rs + [r])[..|rs|] == rs;
  }

  lemma ClosedCounted(ins: seq<Input>, h: int, index: seq<nat>, buckets: Buckets, rs: seq<Report>)
    requires index != [] && Indexed(index, buckets) && Counted(ins, h, buckets, rs)
    ensures index[0] in buckets
    ensures var ts := index[0];
            Counted(ins, Later(h, ts), buckets - {ts}, rs + [Report(ts, buckets[ts].count)])
  {
    var ts := index[0];
    assert ts in index;
    var rs' := rs + [Report(ts, buckets[ts].count)];
    forall q: nat
      ensures CountOf(ins, q) % TWO_32 == Reported(rs', q) + LiveCount(buckets - {ts}, q)
      ensures if q > Later(h, ts) then Reported(rs', q) == 0 else LiveCount(buckets - {ts}, q) == 0
    {
      ReportedSnoc(rs, Report(ts, buckets[ts].count), q);
      assert CountOf(ins, q) % TWO_32 == Reported(rs, q) + LiveCount(buckets, q);
    }
  }

  /** A horizon may move up over timestamps that have no bucket. */
  lemma RaisedHorizon(f: Fun, sqrt: real -> real, ins: seq<Input>, h: int, h': int, buckets: Buckets, rs: seq<Report>,
                      out: seq<Emit>)
    requires BucketsOk(f, ins, h, buckets) && Counted(ins, h, buckets, rs) && OutputIs(f, sqrt, ins, h, out)
    requires h <= h' && forall ts :: ts in buckets ==> !(h < ts <= h')
    ensures BucketsOk(f, ins, h', buckets) && Counted(ins, h', buckets, rs) && OutputIs(f, sqrt, ins, h', out)
  {
    NothingDue(f, sqrt, ins, h, h');
    hide PointsOf, Due, CountOf, Reported;
  }

  ghost predicate InTimeOrder(out: seq<Emit>) {
    forall i, j :: 0 <= i < j < |out| ==> out[i].ts <= out[j].ts
  }

  /** The output is the group-by query over the closed buckets, in time order. */
  ghost predicate OutputIs(f: Fun, sqrt: real -> real, ins: seq<Input>, h: int, out: seq<Emit>) {
    multiset(out) == multiset(Due(f, sqrt, ins, h)) && InTimeOrder(out)
  }

  /** What a bucket emits goes after everything emitted before. */
  lemma OutputExtends(f: Fun, sqrt: real -> real, ins: seq<Input>, h: int, out: seq<Emit>, ts: nat,
                      state: map<string, Proc>, es: seq<Emit>)
    requires InTimeOrder(out) && multiset(out) == multiset(Due(f, sqrt, ins, h))
    requires forall key :: key in state ==> Flushable(state[key])
    requires multiset(es) == multiset(EmitSet(sqrt, ts, state))
    requires ts <= h ==> EmitSet(sqrt, ts, state) == {}
    ensures InTimeOrder(out + es)
  {
    forall i | 0 <= i < |out|
      ensures out[i].ts <= h
    {
      assert out[i] in multiset(out);
      assert IsDue(f, sqrt, ins, h, out[i]);
    }
    forall i | 0 <= i < |es|
      ensures es[i].ts == ts && ts > h
    {
      assert es[i] in multiset(es);
      assert es[i] in EmitSet(sqrt, ts, state);
      assert IsFlushed(sqrt, ts, state, es[i]);
    }
    hide Due, EmitSet, IsDue, IsFlushed, Flushable;
  }

  /** A point is accepted if its bucket is recent enough, or if its group is still being filled. */
  predicate Accepts(ins: seq<Input>, horizon: int, oldest: int, a: Input) {
    a.bucket > oldest || (a.bucket > horizon && PointsOf(ins, a.key, a.bucket) != [])
  }

  /** Stale entries have been removed, and nothing else, until a fresh one was met. */
  ghost predicate Evicted(was: Cache, cache: Cache, cutoff: nat) {
    cache.Keys <= was.Keys && (forall name :: name in cache ==> cache[name] == was[name]) &&
    (forall name :: name in was && name !in cache ==> was[name].seen < cutoff) &&
    (cache == map[] || exists name :: name in cache && cache[name].seen >= cutoff)
  }

  class Aggregator {
    const fun: Fun
    const sqrt: real -> real
    const interval: nat
    const wait: nat
    const expand: string -> Option<string>   // the regex condition and the output template

    var reCache: Option<Cache>
    var numIn: nat                // matched points
    var tsList: seq<nat>
    var buckets: Buckets
    var now: nat                  // the clock
    var out: seq<Emit>            // the output channel
    var tooOld: nat               // points that came too late
    var reported: seq<Report>     // what the bucket reporter was told
    ghost var accepted: seq<Input>
    ghost var horizon: int        // the latest cutoff flushed so far

    /** The output so far is exactly the group-by query over the closed buckets, in time order. */
    ghost predicate OutputOk() reads this { OutputIs(fun, sqrt, accepted, horizon, out) }

    /** Cached answers are the answers. */
    ghost predicate CacheOk() reads this {
      reCache.Some? ==> forall name :: name in reCache.value ==>
        expand(name) == if reCache.value[name].match_ then Some(reCache.value[name].key) else None
    }

    ghost predicate Valid() reads this {
      0 < interval && wait <= now && horizon <= now - wait &&
      Indexed(tsList, buckets) && BucketsOk(fun, accepted, horizon, buckets) &&
      OutputOk() && Counted(accepted, horizon, buckets, reported)
    }

    constructor (fun: Fun, sqrt: real -> real, interval: nat, wait: nat, expand: string -> Option<string>,
                 cache: bool, now: nat)
      requires 0 < interval && wait <= now
      ensures Valid() && this.fun == fun && this.sqrt == sqrt && this.interval == interval && this.wait == wait
      ensures this.expand == expand && CacheOk() && numIn == 0
      ensures this.now == now && accepted == [] && out == [] && horizon == -1 && tooOld == 0
    {
      this.fun, this.sqrt, this.interval, this.wait, this.now := fun, sqrt, interval, wait, now;
      this.expand, numIn := expand, 0;
      reCache := if cache then Some(map[]) else None;
      tsList, buckets, out, tooOld, reported := [], map[], [], 0, [];
      accepted, horizon := [], -1;
      new;
      assert Due(fun, sqrt, accepted, horizon) == {};
    }

    // ------------------------------------------------------------ adding

    method AddOrCreate(key: string, ts: nat, quantized: nat, value: real)
      requires Valid()
      modifies this`tsList, this`buckets, this`accepted, this`tooOld
      ensures Valid()
      ensures var a := Input(key, quantized, Point(value, ts));
              if Accepts(old(accepted), horizon, now - wait, a)
              then accepted == old(accepted) + [a] && tooOld == old(tooOld)
              else accepted == old(accepted) && tooOld == old(tooOld) + 1
    {
      hide Indexed, BucketsOk, Counted, PointsOf, OutputIs;
      NoProcessorNoPoints(fun, accepted, horizon, buckets, key, quantized);
      var a := Input(key, quantized, Point(value, ts));
      if quantized in buckets {
        if key in buckets[quantized].state {
          Record(a, Add(buckets[quantized].state[key], a.point));
          return;
        }
      } else {
        CreateBucket(quantized);
      }
      if quantized > now - wait {
        Record(a, New(fun, a.point));
        return;
      }
      tooOld := tooOld + 1;
    }

    method CreateBucket(quantized: nat)
      requires Valid() && quantized !in buckets
      modifies this`tsList, this`buckets
      ensures Valid() && buckets == old(buckets)[quantized := Aggregation(0, map[])]
    {
      hide BucketsOk, Counted, OutputIs;
      NewBucketOk(fun, accepted, horizon, buckets, quantized);
      assert Counted(accepted, horizon, buckets[quantized := Aggregation(0, map[])], reported) by {
        CreatedCounted(accepted, horizon, buckets, reported, quantized);
      }
      InsertIndex(quantized);
      buckets := buckets[quantized := Aggregation(0, map[])];
    }

    /** Adds a timestamp to the index and sorts it if it came out of order. */
    method InsertIndex(quantized: nat)
      requires Indexed(tsList, buckets) && quantized !in buckets
      modifies this`tsList
      ensures Indexed(tsList, buckets[quantized := Aggregation(0, map[])])
    {
      var was := tsList;
      tsList := tsList + [quantized];
      if |tsList| > 1 && tsList[|tsList| - 2] > quantized {
        tsList := Sort(tsList, LeNat());
        SortedIndex(was, quantized, tsList);
      }
    }

    /** Puts a point into a bucket that exists. */
    method Record(a: Input, proc: Proc)
      requires Valid() && a.bucket in buckets && a.bucket > horizon
      requires var state := buckets[a.bucket].state;
               proc == if a.key in state then Add(state[a.key], a.point) else New(fun, a.point)
      modifies this`buckets, this`accepted
      ensures Valid() && accepted == old(accepted) + [a]
    {
      hide Indexed, BucketsOk, Counted, Due, IsDue, Add, New;
      var agg := buckets[a.bucket];
      var count := (agg.count + 1) % TWO_32;
      RecordedBucketsOk(fun, accepted, horizon, buckets, a, proc, count);
      RecordedCounted(accepted, horizon, buckets, reported, a, agg.state[a.key := proc]);
      DueUnchanged(fun, sqrt, accepted, a, horizon);
      IndexedUpdate(tsList, buckets, a.bucket, Aggregation(count, agg.state[a.key := proc]));
      buckets := buckets[a.bucket := Aggregation(count, agg.state[a.key := proc])];
      accepted := accepted + [a];
    }

    // ------------------------------------------------------------ flushing

    /** Finalizes the earliest bucket of what is left of the index. */
    method FlushBucket(ts: nat, ghost index: seq<nat>)
      requires index != [] && index[0] == ts && Indexed(index, buckets)
      requires BucketsOk(fun, accepted, horizon, buckets) && OutputOk() && Counted(accepted, horizon, buckets, reported)
      modifies this`buckets, this`out, this`reported, this`horizon
      ensures Indexed(index[1..], buckets)
      ensures BucketsOk(fun, accepted, horizon, buckets) && OutputOk() && Counted(accepted, horizon, buckets, reported)
      ensures horizon == Later(old(horizon), ts)
    {
      IndexTail(index, buckets);
      RemainingBucketsOk(fun, accepted, horizon, ts, buckets);
      ClosedIsDue(fun, sqrt, accepted, horizon, ts, buckets);
      ClosedCounted(accepted, horizon, index, buckets, reported);
      hide Indexed, BucketsOk, Counted, Due, EmitSet, IsDue, IsFlushed, Flushable;
      var agg := buckets[ts];
      var es := EmitBucket(sqrt, ts, agg.state);
      OutputExtends(fun, sqrt, accepted, horizon, out, ts, agg.state, es);
      out := out + es;
      reported := reported + [Report(ts, agg.count)];
      buckets := buckets - {ts};
      horizon := Later(horizon, ts);
    }

    /** The ghost part of the invariant that does not involve the index. */
    ghost predicate Books() reads this {
      BucketsOk(fun, accepted, horizon, buckets) && OutputOk() && Counted(accepted, horizon, buckets, reported)
    }

    /** Finalizes every bucket that is due. The index still lists them, up to position `pos`. */
    method FlushBuckets(cutoff: nat) returns (pos: int)
      requires Indexed(tsList, buckets) && Books()
      modifies this`buckets, this`out, this`reported, this`horizon
      ensures -1 <= pos < |tsList| && Indexed(tsList[pos + 1..], buckets) && Books()
      ensures pos + 1 < |tsList| ==> tsList[pos + 1] > cutoff
      ensures old(horizon) <= horizon <= Later(old(horizon), cutoff)
    {
      hide Indexed, BucketsOk, Counted, OutputIs;
      pos := -1;
      assert tsList[0..] == tsList;
      var i := 0;
      while i < |tsList| && tsList[i] <= cutoff
        invariant 0 <= i <= |tsList| && pos == i - 1 && Indexed(tsList[i..], buckets) && Books()
        invariant old(horizon) <= horizon <= Later(old(horizon), cutoff)
      {
        assert tsList[i..][1..] == tsList[i + 1..];
        FlushBucket(tsList[i], tsList[i..]);
        pos := i;
        i := i + 1;
      }
    }

    /** No bucket up to `t` is left, and none will be emitted again. */
    ghost predicate ClosedAt(t: int) reads this { t <= horizon && forall ts :: ts in buckets ==> ts > t }

    /** Finalizes and removes every bucket that is due. */
    method Flush(cutoff: nat)
      requires Valid() && cutoff <= now - wait
      modifies this`tsList, this`buckets, this`out, this`reported, this`horizon
      ensures Valid() && horizon == Later(old(horizon), cutoff)
      ensures forall ts :: ts in buckets ==> ts > cutoff
    {
      hide Indexed, BucketsOk, Counted, OutputIs;
      var pos := FlushBuckets(cutoff);
      IndexBeyond(tsList[pos + 1..], buckets, cutoff);
      RaisedHorizon(fun, sqrt, accepted, horizon, Later(old(horizon), cutoff), buckets, reported, out);
      horizon := Later(old(horizon), cutoff);
      if pos == -1 {
        assert tsList[0..] == tsList;
        return;
      }
      if pos == |tsList| - 1 {
        assert tsList[pos + 1..] == [];
        tsList := [];
        return;
      }
      Compact(pos);
    }

    /** Moves what is still needed to the front of the slice, then shortens it. */
    method Compact(pos: nat)
      requires pos < |tsList|
      modifies this`tsList
      ensures tsList == old(tsList)[pos + 1..]
    {
      tsList := tsList[pos + 1..] + tsList[|tsList| - pos - 1..];
      tsList := tsList[..|tsList| - pos - 1];
    }

    // ------------------------------------------------------------ the match cache

    method MatchWithCache(name: string) returns (m: Option<string>)
      requires CacheOk()
      modifies this`reCache
      ensures CacheOk() && m == expand(name) && reCache.None? == old(reCache.None?)
      ensures reCache.Some? ==> name in reCache.value && reCache.value[name].seen == now % TWO_32 &&
                                reCache.value - {name} == old(reCache).value - {name}
    {
      if reCache.None? {
        return expand(name);
      }
      var cache := reCache.value;
      if name in cache {
        var entry := cache[name].(seen := now % TWO_32);
        reCache := Some(cache[name := entry]);
        return if entry.match_ then Some(entry.key) else None;
      }
      m := expand(name);
      reCache := Some(cache[name := CacheEntry(m.Some?, if m.Some? then m.value else "", now % TWO_32)]);
    }

    /** Removes stale entries in the map's own order until it meets a fresh one. */
    method EvictStale(cutoff: nat)
      requires CacheOk()
      modifies this`reCache
      ensures CacheOk() && reCache.None? == old(reCache.None?)
      ensures reCache.Some? ==> Evicted(old(reCache).value, reCache.value, cutoff)
    {
      if reCache.Some? {
        var cache := reCache.value;
        var names := cache.Keys;
        while names != {}
          invariant names == cache.Keys <= old(reCache).value.Keys
          invariant forall name :: name in cache ==> cache[name] == old(reCache).value[name]
          invariant forall name :: name in old(reCache).value && name !in cache ==> old(reCache).value[name].seen < cutoff
          decreases |names|
        {
          var name :| name in names;
          names := names - {name};
          if cache[name].seen < cutoff {
            cache := cache - {name};
          } else {
            break;
          }
        }
        reCache := Some(cache);
      }
    }

    // ------------------------------------------------------------ the loop

    ghost function View(): Spec reads this { Spec(accepted, horizon, tooOld) }

    ghost function Config(): Settings reads this { Settings(interval, wait, expand) }

    method HandleMessage(name: string, val: real, ts: nat)
      requires Valid() && CacheOk()
      modifies this`reCache, this`numIn, this`tsList, this`buckets, this`accepted, this`tooOld
      ensures Valid() && CacheOk()
      ensures View() == SpecStep(Config(), old(View()), Message(name, val, ts, now))
      ensures numIn - |accepted| - tooOld == old(numIn - |accepted| - tooOld)
    {
      hide Indexed, BucketsOk, Counted, OutputIs, Accepts;
      var m := MatchWithCache(name);
      if m.Some? {
        numIn := numIn + 1;
        AddOrCreate(m.value, ts, Quantize(ts, interval), val);
      }
    }

    method HandleTick(t: nat)
      requires Valid() && CacheOk() && wait <= t <= now
      modifies this`reCache, this`tsList, this`buckets, this`out, this`reported, this`horizon
      ensures Valid() && CacheOk() && horizon == Later(old(horizon), t - wait)
      ensures forall ts :: ts in buckets ==> ts > t - wait
      ensures reCache.None? == old(reCache.None?)
      ensures reCache.Some? ==> Evicted(old(reCache).value, reCache.value, (t - 100 * wait) % TWO_32)
    {
      hide Indexed, BucketsOk, Counted, OutputIs;
      Flush(t - wait);
      EvictStale((t - 100 * wait) % TWO_32);
    }

    /** One select of the worker, at a clock that has not gone back. */
    method Handle(e: Event)
      requires Valid() && CacheOk() && now <= e.now
      requires e.Tick? ==> wait <= e.t <= e.now
      modifies this
      ensures Valid() && CacheOk() && now == e.now
      ensures View() == SpecStep(Config(), old(View()), e)
      ensures numIn - |accepted| - tooOld == old(numIn - |accepted| - tooOld)
      ensures !e.Message? ==> ClosedAt(Closing(e, wait))
    {
      hide Indexed, BucketsOk, Counted, OutputIs, Accepts, Quantize;
      now := e.now;
      match e
      case Message(name, val, ts, _) => HandleMessage(name, val, ts);
      case Tick(t, _) => HandleTick(t);
      case Shutdown(_) => Flush(now - wait);
    }
  }

  // ---------------------------------------------------------------- whole runs

  datatype Event =
    | Message(name: string, val: real, ts: nat, now: nat)  // a point arrives
    | Tick(t: nat, now: nat)                               // the flush ticker fired at t
    | Shutdown(now: nat)

  /** Up to where a tick or a shutdown closes buckets: the wait period before it. */
  function Closing(e: Event, wait: nat): int
    requires !e.Message?
  {
    (if e.Tick? then e.t else e.now) - wait
  }

  datatype Settings = Settings(interval: nat, wait: nat, expand: string -> Option<string>)

  /** All that the specification remembers: no buckets, no index, no processors. */
  datatype Spec = Spec(accepted: seq<Input>, horizon: int, tooOld: nat)

  function SpecStep(c: Settings, s: Spec, e: Event): Spec
    requires 0 < c.interval
  {
    match e
    case Message(name, val, ts, now) =>
      var m := c.expand(name);
      if m.None? then s
      else
        var a := Input(m.value, Quantize(ts, c.interval), Point(val, ts));
        if Accepts(s.accepted, s.horizon, now - c.wait, a) then s.(accepted := s.accepted + [a])
        else s.(tooOld := s.tooOld + 1)
    case Tick(t, _) => s.(horizon := Later(s.horizon, t - c.wait))
    case Shutdown(now) => s.(horizon := Later(s.horizon, now - c.wait))
  }

  function SpecRun(c: Settings, s: Spec, script: seq<Event>): Spec
    requires 0 < c.interval
  {
    if script == [] then s
    else SpecStep(c, SpecRun(c, s, script[..|script| - 1]), script[|script| - 1])
  }

  /** The clock never goes back, and ticks are not from the future. */
  predicate ClockOk(start: nat, wait: nat, script: seq<Event>) {
    forall i :: 0 <= i < |script| ==> Advances(start, wait, script, i)
  }

  predicate Advances(start: nat, wait: nat, script: seq<Event>, i: nat)
    requires i < |script|
  {
    (if i == 0 then start else script[i - 1].now) <= script[i].now &&
    (script[i].Tick? ==> wait <= script[i].t <= script[i].now)
  }

  /** Any run of the worker computes the group-by query: its output is, in time order, exactly the
      results of the groups whose buckets have closed. Every matched point is accepted or counted
      as too old, and while no counter can wrap, every accepted one is counted by a live bucket or has
      been reported. */
  method Run(agg: Aggregator, script: seq<Event>)
    requires agg.Valid() && agg.CacheOk() && ClockOk(agg.now, agg.wait, script)
    modifies agg
    ensures agg.Valid()
    ensures var s := SpecRun(agg.Config(), old(agg.View()), script);
            s == agg.View() && InTimeOrder(agg.out) &&
            multiset(agg.out) == multiset(Due(agg.fun, agg.sqrt, s.accepted, s.horizon))
    ensures agg.numIn - |agg.accepted| - agg.tooOld == old(agg.numIn - |agg.accepted| - agg.tooOld)
    ensures old(agg.numIn == |agg.accepted| + agg.tooOld) && |agg.accepted| < TWO_32 ==>
              agg.numIn == agg.tooOld + LiveTotal(agg.tsList, agg.buckets) + ReportedTotal(agg.reported)
    ensures script != [] && !script[|script| - 1].Message? ==> agg.ClosedAt(Closing(script[|script| - 1], agg.wait))
  {
    hide Indexed, BucketsOk, Counted, OutputIs, Accepts, SpecStep, Closing;
    for i := 0 to |script|
      invariant agg.Valid() && agg.CacheOk()
      invariant agg.now == if i == 0 then old(agg.now) else script[i - 1].now
      invariant agg.View() == SpecRun(agg.Config(), old(agg.View()), script[..i])
      invariant agg.numIn - |agg.accepted| - agg.tooOld == old(agg.numIn - |agg.accepted| - agg.tooOld)
      invariant i > 0 && !script[i - 1].Message? ==> agg.ClosedAt(Closing(script[i - 1], agg.wait))
    {
      assert script[..i + 1][..i] == script[..i];
      assert Advances(old(agg.now), agg.wait, script, i);
      agg.Handle(script[i]);
    }
    assert script[..|script|] == script;
    OutputMeans(agg.fun, agg.sqrt, agg.accepted, agg.horizon, agg.out);
    if |agg.accepted| < TWO_32 {
      CountedInTotal(agg.accepted, agg.horizon, agg.tsList, agg.buckets, agg.reported);
    }
  }

  lemma OutputMeans(f: Fun, sqrt: real -> real, ins: seq<Input>, h: int, out: seq<Emit>)
    requires OutputIs(f, sqrt, ins, h, out)
    ensures InTimeOrder(out) && multiset(out) == multiset(Due(f, sqrt, ins, h))
  {
  }

  /** No result is emitted twice. */
  lemma EmittedOnce(f: Fun, sqrt: real -> real, ins: seq<Input>, horizon: int, out: seq<Emit>, i: nat, j: nat)
    requires multiset(out) == multiset(Due(f, sqrt, ins, horizon)) && i < j < |out|
    ensures !(out[i].key == out[j].key && out[i].name == out[j].name && out[i].ts == out[j].ts)
  {
    NoDuplicates(out, Due(f, sqrt, ins, horizon), i, j);
    assert out[i] in multiset(out) && out[j] in multiset(out);
    assert IsDue(f, sqrt, ins, horizon, out[i]) && IsDue(f, sqrt, ins, horizon, out[j]);
  }

  /** Every emitted value is the batch function of exactly its group's accepted points. */
  lemma EmittedIsBatch(f: Fun, sqrt: real -> real, ins: seq<Input>, horizon: int, out: seq<Emit>, i: nat)
    requires multiset(out) == multiset(Due(f, sqrt, ins, horizon)) && i < |out|
    ensures var pts := PointsOf(ins, out[i].key, out[i].ts);
            pts != [] && exists r :: IsBatch(f, pts, sqrt, r) && out[i].name in r && r[out[i].name] == out[i].val
  {
    assert out[i] in multiset(out);
    assert IsDue(f, sqrt, ins, horizon, out[i]);
    var pts := PointsOf(ins, out[i].key, out[i].ts);
    FlushIsBatch(f, pts, sqrt);
    assert IsBatch(f, pts, sqrt, GroupResult(f, sqrt, ins, out[i].key, out[i].ts));
  }

  /** For points on a line, every derivative emitted is its slope. */
  lemma EmittedSlope(sqrt: real -> real, ins: seq<Input>, horizon: int, out: seq<Emit>, i: nat, a: real, b: real,
                     k: nat, l: nat)
    requires multiset(out) == multiset(Due(Derive, sqrt, ins, horizon)) && i < |out|
    requires var pts := PointsOf(ins, out[i].key, out[i].ts);
             k < |pts| && l < |pts| && pts[k].ts != pts[l].ts &&
             forall x :: 0 <= x < |pts| ==> OnLine(pts[x], a, b)
    ensures out[i].name == "derive" && out[i].val == b
  {
    EmittedIsBatch(Derive, sqrt, ins, horizon, out, i);
    var pts := PointsOf(ins, out[i].key, out[i].ts);
    var r :| IsBatch(Derive, pts, sqrt, r) && out[i].name in r && r[out[i].name] == out[i].val;
    DeriveOfLine(pts, a, b, sqrt, r, k, l);
    hide PointsOf, OnLine, IsBatch;
  }

  /** A run that ends in a shutdown has emitted everything up to the wait period before it, and no bucket
      up to then is left; one that ends in a tick, up to the wait period before the tick. */
  method RunToClose(agg: Aggregator, script: seq<Event>)
    requires agg.Valid() && agg.CacheOk() && ClockOk(agg.now, agg.wait, script)
    requires script != [] && !script[|script| - 1].Message?
    modifies agg
    ensures agg.Valid()
    ensures var last := script[|script| - 1];
            var t := (if last.Tick? then last.t else last.now) - agg.wait;
            (forall e :: IsDue(agg.fun, agg.sqrt, agg.accepted, t, e) ==> e in agg.out) &&
            forall ts :: ts in agg.buckets ==> ts > t
  {
    Run(agg, script);
    DueIsEmitted(agg.fun, agg.sqrt, agg.accepted, agg.horizon, agg.out, Closing(script[|script| - 1], agg.wait));
    hide IsDue, BucketsOk, OutputIs, Counted, Indexed, Due;
  }

  lemma DueIsEmitted(f: Fun, sqrt: real -> real, ins: seq<Input>, h: int, out: seq<Emit>, t: int)
    requires OutputIs(f, sqrt, ins, h, out) && t <= h
    ensures forall e :: IsDue(f, sqrt, ins, t, e) ==> e in out
  {
    OutputMeans(f, sqrt, ins, h, out);
    forall e | IsDue(f, sqrt, ins, t, e)
      ensures e in out
    {
      DueLater(f, sqrt, ins, t, h, e);
      assert e in multiset(Due(f, sqrt, ins, h));
      assert e in multiset(out);
    }
  }

  lemma DueLater(f: Fun, sqrt: real -> real, ins: seq<Input>, t: int, h: int, e: Emit)
    requires IsDue(f, sqrt, ins, t, e) && t <= h
    ensures IsDue(f, sqrt, ins, h, e)
  {
    hide GroupResult;
  }
}
