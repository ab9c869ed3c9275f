/** Interval aggregation of metric snapshots, from extension/metrics/memory_storage.go. */
module MetricAggregation {
  import opened Common
  import opened MetricStorage
  import opened Sorting

  const SECOND: int := 1_000_000_000

  datatype Point = Point(timestamp: Time, value: int)

  const WORD: int := 0x1_0000_0000_0000_0000
  const HALF: int := 0x8000_0000_0000_0000

  /** Sums wrap around at 64 bits. */
  function Wrap(n: int): (r: int)
    ensures -HALF <= r < HALF && (-HALF <= n < HALF ==> r == n)
  {
    (n + HALF) % WORD - HALF
  }

  /** Wrapping in between makes no difference to the wrapped sum. */
  lemma WrapAdds(a: int, b: int)
    ensures Wrap(Wrap(a) + b) == Wrap(a + b)
  {
  }

  /** Go's integer division truncates toward zero. */
  function TruncDiv(a: int, b: int): int
    requires b > 0
  {
    if a >= 0 then a / b else -((-a) / b)
  }

  /** Truncation toward zero. */
  lemma TruncDivIs(a: int, b: int)
    requires b > 0
    ensures a >= 0 ==> 0 <= TruncDiv(a, b) && TruncDiv(a, b) * b <= a < TruncDiv(a, b) * b + b
    ensures a <= 0 ==> TruncDiv(a, b) <= 0 && TruncDiv(a, b) * b - b < a <= TruncDiv(a, b) * b
  {
  }

  /** Timestamp.Unix() / intervalSeconds. */
  function Bucket(seconds: int, s: Snapshot): int
    requires seconds > 0
  {
    TruncDiv(s.timestamp / SECOND, seconds)
  }

  function InBuckets(seconds: int, keys: set<int>): Snapshot -> bool
    requires seconds > 0
  {
    (s: Snapshot) => Bucket(seconds, s) in keys
  }

  function BucketOf(snapshots: seq<Snapshot>, seconds: int, key: int): seq<Snapshot>
    requires seconds > 0
  {
    Filter(snapshots, InBuckets(seconds, {key}))
  }

  function Keys(snapshots: seq<Snapshot>, seconds: int): set<int>
    requires seconds > 0
  {
    set s | s in snapshots :: Bucket(seconds, s)
  }

  /**
   * What a point stands for. The second of a snapshot is the whole number of seconds up to it.
   * From 1970 on the point at `T` stands for the snapshots from `T` on and before the next
   * interval; before 1970 for those up to `T` and behind the interval before.
   */
  lemma PointCovers(snapshots: seq<Snapshot>, seconds: int, key: int, s: Snapshot)
    requires seconds > 0 && s in snapshots
    ensures var second, T := s.timestamp / 1_000_000_000, key * seconds;
      && (s.timestamp >= 0 && key >= 0 ==>
            (s in BucketOf(snapshots, seconds, key) <==> T <= second < T + seconds))
      && (s.timestamp < 0 && key <= 0 ==>
            (s in BucketOf(snapshots, seconds, key) <==> T - seconds < second <= T))
  {
    BucketIs(s.timestamp / SECOND, seconds, key);
  }

  lemma BucketIs(second: int, seconds: int, key: int)
    requires seconds > 0
    ensures second >= 0 && key >= 0 ==>
      (TruncDiv(second, seconds) == key <==> key * seconds <= second < key * seconds + seconds)
    ensures second < 0 && key <= 0 ==>
      (TruncDiv(second, seconds) == key <==> key * seconds - seconds < second <= key * seconds)
  {
    var q := TruncDiv(second, seconds);
    TruncDivIs(second, seconds);
    if q < key {
      Widen(q, key, seconds);
    } else if key < q {
      Widen(key, q, seconds);
    }
  }

  lemma Widen(a: int, b: int, n: int)
    requires a < b && n > 0
    ensures a * n + n <= b * n
  {
    var d: nat, m: nat := b - a, n;
    MultipleIsLarge(d, m);
    assert b * n == a * n + d * m;
  }

  // ----- Aggregates -----

  function Sum(snapshots: seq<Snapshot>): int {
    if snapshots == [] then 0 else snapshots[0].value + Sum(snapshots[1..])
  }

  lemma {:induction false} SumSnoc(snapshots: seq<Snapshot>, s: Snapshot)
    ensures Sum(snapshots + [s]) == Sum(snapshots) + s.value
  {
    if snapshots != [] {
      assert (snapshots + [s])[1..] == snapshots[1..] + [s];
      SumSnoc(snapshots[1..], s);
    }
  }

  ghost predicate IsMax(snapshots: seq<Snapshot>, v: int) {
    && (exists s :: s in snapshots && s.value == v)
    && (forall s :: s in snapshots ==> s.value <= v)
  }

  ghost predicate IsMin(snapshots: seq<Snapshot>, v: int) {
    && (exists s :: s in snapshots && s.value == v)
    && (forall s :: s in snapshots ==> s.value >= v)
  }

  /** The value of a snapshot that none is later than. */
  ghost predicate IsLatest(snapshots: seq<Snapshot>, v: int) {
    exists s :: s in snapshots && s.value == v && forall t :: t in snapshots ==> t.timestamp <= s.timestamp
  }

  /** What calculateAggregation may return; only "latest" leaves a choice, among equal times. */
  ghost predicate IsAggregate(snapshots: seq<Snapshot>, aggregation: string, v: int) {
    if snapshots == [] then v == 0
    else if aggregation == "sum" || aggregation == "" then v == Wrap(Sum(snapshots))
    else if aggregation == "avg" then v == TruncDiv(Wrap(Sum(snapshots)), |snapshots|)
    else if aggregation == "max" then IsMax(snapshots, v)
    else if aggregation == "min" then IsMin(snapshots, v)
    else if aggregation == "count" then v == |snapshots|
    else IsLatest(snapshots, v)
  }

  method SumLoop(snapshots: seq<Snapshot>) returns (sum: int)
    ensures sum == Wrap(Sum(snapshots))
  {
    sum := 0;
    for i := 0 to |snapshots|
      invariant sum == Wrap(Sum(snapshots[..i]))
    {
      SumSnoc(snapshots[..i], snapshots[i]);
      assert snapshots[..i + 1] == snapshots[..i] + [snapshots[i]];
      WrapAdds(Sum(snapshots[..i]), snapshots[i].value);
      sum := Wrap(sum + snapshots[i].value);
    }
    assert snapshots[..|snapshots|] == snapshots;
  }

  method MaxLoop(snapshots: seq<Snapshot>) returns (v: int)
    requires snapshots != []
    ensures IsMax(snapshots, v)
  {
    v := snapshots[0].value;
    for i := 0 to |snapshots|
      invariant exists s :: s in snapshots && s.value == v
      invariant forall k :: 0 <= k < i ==> snapshots[k].value <= v
    {
      if snapshots[i].value > v {
        v := snapshots[i].value;
        assert snapshots[i] in snapshots;
      }
    }
  }

  method MinLoop(snapshots: seq<Snapshot>) returns (v: int)
    requires snapshots != []
    ensures IsMin(snapshots, v)
  {
    v := snapshots[0].value;
    for i := 0 to |snapshots|
      invariant exists s :: s in snapshots && s.value == v
      invariant forall k :: 0 <= k < i ==> snapshots[k].value >= v
    {
      if snapshots[i].value < v {
        v := snapshots[i].value;
        assert snapshots[i] in snapshots;
      }
    }
  }

  predicate NotLater(a: Snapshot, b: Snapshot) {
    a.timestamp <= b.timestamp
  }

  /** calculateAggregation. Sums wrap around at 64 bits. */
  method CalculateAggregation(snapshots: seq<Snapshot>, aggregation: string) returns (v: int)
    ensures IsAggregate(snapshots, aggregation, v)
  {
    if |snapshots| == 0 {
      return 0;
    }
    if aggregation == "sum" || aggregation == "" {
      v := SumLoop(snapshots);
    } else if aggregation == "avg" {
      var sum := SumLoop(snapshots);
      v := TruncDiv(sum, |snapshots|);
    } else if aggregation == "max" {
      v := MaxLoop(snapshots);
    } else if aggregation == "min" {
      v := MinLoop(snapshots);
    } else if aggregation == "count" {
      v := |snapshots|;
    } else {
      var sorted := Sort(NotLater, snapshots);
      SortSorted(NotLater, snapshots);
      var last := sorted[|sorted| - 1];
      assert last in sorted;
      forall t | t in snapshots ensures t.timestamp <= last.timestamp {
        assert t in sorted;
        var k :| 0 <= k < |sorted| && sorted[k] == t;
        assert k < |sorted| - 1 ==> NotLater(sorted[k], last);
      }
      v := last.value;
    }
  }

  // ----- Buckets partition the snapshots -----

  lemma {:induction false} SplitBuckets(snapshots: seq<Snapshot>, seconds: int, a: set<int>, b: set<int>)
    requires seconds > 0 && a !! b
    ensures var f, g, h := Filter(snapshots, InBuckets(seconds, a + b)), Filter(snapshots, InBuckets(seconds, a)),
                           Filter(snapshots, InBuckets(seconds, b));
      Sum(f) == Sum(g) + Sum(h) && |f| == |g| + |h|
  {
    if snapshots != [] {
      SplitBuckets(snapshots[1..], seconds, a, b);
      var s := snapshots[0];
      SumCons(s, Filter(snapshots[1..], InBuckets(seconds, a + b)));
      SumCons(s, Filter(snapshots[1..], InBuckets(seconds, a)));
      SumCons(s, Filter(snapshots[1..], InBuckets(seconds, b)));
    }
  }

  lemma SumCons(s: Snapshot, snapshots: seq<Snapshot>)
    ensures Sum([s] + snapshots) == s.value + Sum(snapshots)
  {
    assert ([s] + snapshots)[1..] == snapshots;
  }

  lemma {:induction false} AllBuckets(snapshots: seq<Snapshot>, seconds: int, keys: set<int>)
    requires seconds > 0 && forall s :: s in snapshots ==> Bucket(seconds, s) in keys
    ensures Filter(snapshots, InBuckets(seconds, keys)) == snapshots
  {
    if snapshots != [] {
      AllBuckets(snapshots[1..], seconds, keys);
    }
  }

  lemma {:induction false} NoBuckets(snapshots: seq<Snapshot>, seconds: int)
    requires seconds > 0
    ensures Filter(snapshots, InBuckets(seconds, {})) == []
  {
    if snapshots != [] {
      NoBuckets(snapshots[1..], seconds);
    }
  }

  function SumOfPoints(points: seq<Point>): int {
    if points == [] then 0 else points[0].value + SumOfPoints(points[1..])
  }

  /** One point per key: the start of the interval, and the aggregate of its bucket. */
  ghost predicate IsPointFor(snapshots: seq<Snapshot>, seconds: int, aggregation: string, key: int, p: Point)
    requires seconds > 0
  {
    p.timestamp == key * seconds * SECOND && IsAggregate(BucketOf(snapshots, seconds, key), aggregation, p.value)
  }

  ghost predicate IsSeries(snapshots: seq<Snapshot>, seconds: int, aggregation: string, keys: seq<int>,
                           points: seq<Point>)
    requires seconds > 0
  {
    && |points| == |keys|
    && (forall k :: k in keys <==> k in Keys(snapshots, seconds))
    && (forall i :: 0 <= i < |points| ==> IsPointFor(snapshots, seconds, aggregation, keys[i], points[i]))
    && (forall i, j :: 0 <= i < j < |points| ==> keys[i] < keys[j] && points[i].timestamp < points[j].timestamp)
  }

  /** A total of values that stands for a sum, modulo 2^64, or for a count. */
  ghost predicate Measures(aggregation: string, total: int, sum: int, count: int) {
    && (aggregation == "sum" || aggregation == "" ==> Wrap(total) == Wrap(sum))
    && (aggregation == "count" ==> total == count)
  }

  lemma MeasuresAdd(aggregation: string, total: int, sum: int, count: int, total': int, sum': int, count': int)
    requires Measures(aggregation, total, sum, count) && Measures(aggregation, total', sum', count')
    ensures Measures(aggregation, total + total', sum + sum', count + count')
  {
    WrappedSums(total, sum, total', sum');
  }

  lemma WrappedSums(a: int, a': int, b: int, b': int)
    ensures Wrap(a) == Wrap(a') && Wrap(b) == Wrap(b') ==> Wrap(a + b) == Wrap(a' + b')
  {
    WrapAdds(a, b);
    WrapAdds(a', b);
    WrapAdds(b, a');
    WrapAdds(b', a');
  }

  lemma PointMeasures(snapshots: seq<Snapshot>, seconds: int, aggregation: string, key: int, p: Point)
    requires seconds > 0 && IsPointFor(snapshots, seconds, aggregation, key, p)
    ensures var bucket := BucketOf(snapshots, seconds, key); Measures(aggregation, p.value, Sum(bucket), |bucket|)
  {
  }

  /** The sums of the buckets in `keys` add up to the sum of what is in these buckets. */
  lemma {:induction false} BucketsAddUp(snapshots: seq<Snapshot>, seconds: int, aggregation: string,
                                        keys: seq<int>, points: seq<Point>)
    requires seconds > 0 && |points| == |keys| && NoDup(keys)
    requires forall i :: 0 <= i < |points| ==> IsPointFor(snapshots, seconds, aggregation, keys[i], points[i])
    ensures var inside := Filter(snapshots, InBuckets(seconds, set k | k in keys));
      Measures(aggregation, SumOfPoints(points), Sum(inside), |inside|)
    decreases |keys|
  {
    if keys == [] {
      assert (set k | k in keys) == {};
      NoBuckets(snapshots, seconds);
    } else {
      var key, others := keys[0], set k | k in keys[1..];
      assert (set k | k in keys) == {key} + others && key !in others;
      BucketsAddUp(snapshots, seconds, aggregation, keys[1..], points[1..]);
      FirstBucketAddsUp(snapshots, seconds, aggregation, key, others, points);
    }
  }

  lemma FirstBucketAddsUp(snapshots: seq<Snapshot>, seconds: int, aggregation: string,
                          key: int, others: set<int>, points: seq<Point>)
    requires seconds > 0 && key !in others && points != []
    requires IsPointFor(snapshots, seconds, aggregation, key, points[0])
    requires var rest := Filter(snapshots, InBuckets(seconds, others));
      Measures(aggregation, SumOfPoints(points[1..]), Sum(rest), |rest|)
    ensures var all := Filter(snapshots, InBuckets(seconds, {key} + others));
      Measures(aggregation, SumOfPoints(points), Sum(all), |all|)
  {
    var bucket, rest := BucketOf(snapshots, seconds, key), Filter(snapshots, InBuckets(seconds, others));
    SplitBuckets(snapshots, seconds, {key}, others);
    PointMeasures(snapshots, seconds, aggregation, key, points[0]);
    MeasuresAdd(aggregation, points[0].value, Sum(bucket), |bucket|, SumOfPoints(points[1..]), Sum(rest), |rest|);
  }

  /**
   * Nothing is lost or counted twice: the points' counts add up to the total count, and the
   * points' sums to the total sum, modulo 2^64; so they are equal if both fit into 64 bits.
   */
  lemma SeriesAddsUp(snapshots: seq<Snapshot>, seconds: int, aggregation: string, keys: seq<int>, points: seq<Point>)
    requires seconds > 0 && IsSeries(snapshots, seconds, aggregation, keys, points)
    ensures aggregation == "sum" || aggregation == "" ==> Wrap(SumOfPoints(points)) == Wrap(Sum(snapshots))
    ensures aggregation == "count" ==> SumOfPoints(points) == |snapshots|
  {
    assert (set k | k in keys) == Keys(snapshots, seconds);
    BucketsAddUp(snapshots, seconds, aggregation, keys, points);
    AllBuckets(snapshots, seconds, Keys(snapshots, seconds));
  }

  ghost predicate IsHighest(points: seq<Point>, v: int) {
    && (exists p :: p in points && p.value == v)
    && (forall p :: p in points ==> p.value <= v)
  }

  ghost predicate IsLowest(points: seq<Point>, v: int) {
    && (exists p :: p in points && p.value == v)
    && (forall p :: p in points ==> p.value >= v)
  }

  /** Every point stands for a bucket of snapshots that is not empty. */
  lemma PointHasBucket(snapshots: seq<Snapshot>, seconds: int, aggregation: string, keys: seq<int>,
                       points: seq<Point>, p: Point)
    returns (bucket: seq<Snapshot>)
    requires seconds > 0 && IsSeries(snapshots, seconds, aggregation, keys, points) && p in points
    ensures bucket != [] && (forall s :: s in bucket ==> s in snapshots) && IsAggregate(bucket, aggregation, p.value)
  {
    var i :| 0 <= i < |points| && points[i] == p;
    assert IsPointFor(snapshots, seconds, aggregation, keys[i], p);
    assert keys[i] in keys;
    bucket := BucketOf(snapshots, seconds, keys[i]);
    BucketIsNotEmpty(snapshots, seconds, keys[i]);
  }

  /** Every snapshot is in the bucket of some point. */
  lemma SnapshotHasPoint(snapshots: seq<Snapshot>, seconds: int, aggregation: string, keys: seq<int>,
                         points: seq<Point>, s: Snapshot)
    returns (p: Point, bucket: seq<Snapshot>)
    requires seconds > 0 && IsSeries(snapshots, seconds, aggregation, keys, points) && s in snapshots
    ensures p in points && s in bucket && IsAggregate(bucket, aggregation, p.value)
  {
    var key := Bucket(seconds, s);
    assert key in keys;
    var i :| 0 <= i < |keys| && keys[i] == key;
    assert IsPointFor(snapshots, seconds, aggregation, key, points[i]);
    p, bucket := points[i], BucketOf(snapshots, seconds, key);
  }

  /** The largest of the points' maxima is the maximum over all snapshots. */
  lemma SeriesMaximum(snapshots: seq<Snapshot>, seconds: int, keys: seq<int>, points: seq<Point>, v: int)
    requires seconds > 0 && IsSeries(snapshots, seconds, "max", keys, points)
    ensures IsMax(snapshots, v) <==> IsHighest(points, v)
  {
    if IsMax(snapshots, v) {
      MaxIsHighest(snapshots, seconds, keys, points, v);
    }
    if IsHighest(points, v) {
      HighestIsMax(snapshots, seconds, keys, points, v);
    }
  }

  lemma MaxIsHighest(snapshots: seq<Snapshot>, seconds: int, keys: seq<int>, points: seq<Point>, v: int)
    requires seconds > 0 && IsSeries(snapshots, seconds, "max", keys, points) && IsMax(snapshots, v)
    ensures IsHighest(points, v)
  {
    forall p | p in points ensures p.value <= v {
      var s := SeriesMaximumIsAttained(snapshots, seconds, keys, points, p);
    }
    var s :| s in snapshots && s.value == v;
    var p, _ := SnapshotHasPoint(snapshots, seconds, "max", keys, points, s);
    assert p in points && p.value == v;
  }

  lemma HighestIsMax(snapshots: seq<Snapshot>, seconds: int, keys: seq<int>, points: seq<Point>, v: int)
    requires seconds > 0 && IsSeries(snapshots, seconds, "max", keys, points) && IsHighest(points, v)
    ensures IsMax(snapshots, v)
  {
    forall s | s in snapshots ensures s.value <= v {
      var p, _ := SnapshotHasPoint(snapshots, seconds, "max", keys, points, s);
    }
    var p :| p in points && p.value == v;
    var s := SeriesMaximumIsAttained(snapshots, seconds, keys, points, p);
  }

  lemma SeriesMaximumIsAttained(snapshots: seq<Snapshot>, seconds: int, keys: seq<int>, points: seq<Point>, p: Point)
    returns (s: Snapshot)
    requires seconds > 0 && IsSeries(snapshots, seconds, "max", keys, points) && p in points
    ensures s in snapshots && s.value == p.value
  {
    var bucket := PointHasBucket(snapshots, seconds, "max", keys, points, p);
    assert IsMax(bucket, p.value);
    s :| s in bucket && s.value == p.value;
  }

  /** The smallest of the points' minima is the minimum over all snapshots. */
  lemma SeriesMinimum(snapshots: seq<Snapshot>, seconds: int, keys: seq<int>, points: seq<Point>, v: int)
    requires seconds > 0 && IsSeries(snapshots, seconds, "min", keys, points)
    ensures IsMin(snapshots, v) <==> IsLowest(points, v)
  {
    if IsMin(snapshots, v) {
      MinIsLowest(snapshots, seconds, keys, points, v);
    }
    if IsLowest(points, v) {
      LowestIsMin(snapshots, seconds, keys, points, v);
    }
  }

  lemma MinIsLowest(snapshots: seq<Snapshot>, seconds: int, keys: seq<int>, points: seq<Point>, v: int)
    requires seconds > 0 && IsSeries(snapshots, seconds, "min", keys, points) && IsMin(snapshots, v)
    ensures IsLowest(points, v)
  {
    forall p | p in points ensures p.value >= v {
      var s := SeriesMinimumIsAttained(snapshots, seconds, keys, points, p);
    }
    var s :| s in snapshots && s.value == v;
    var p, _ := SnapshotHasPoint(snapshots, seconds, "min", keys, points, s);
    assert p in points && p.value == v;
  }

  lemma LowestIsMin(snapshots: seq<Snapshot>, seconds: int, keys: seq<int>, points: seq<Point>, v: int)
    requires seconds > 0 && IsSeries(snapshots, seconds, "min", keys, points) && IsLowest(points, v)
    ensures IsMin(snapshots, v)
  {
    forall s | s in snapshots ensures s.value >= v {
      var p, _ := SnapshotHasPoint(snapshots, seconds, "min", keys, points, s);
    }
    var p :| p in points && p.value == v;
    var s := SeriesMinimumIsAttained(snapshots, seconds, keys, points, p);
  }

  lemma SeriesMinimumIsAttained(snapshots: seq<Snapshot>, seconds: int, keys: seq<int>, points: seq<Point>, p: Point)
    returns (s: Snapshot)
    requires seconds > 0 && IsSeries(snapshots, seconds, "min", keys, points) && p in points
    ensures s in snapshots && s.value == p.value
  {
    var bucket := PointHasBucket(snapshots, seconds, "min", keys, points, p);
    assert IsMin(bucket, p.value);
    s :| s in bucket && s.value == p.value;
  }

  lemma {:induction false} SumBounds(snapshots: seq<Snapshot>, lo: int, hi: int)
    requires forall s :: s in snapshots ==> lo <= s.value <= hi
    ensures |snapshots| * lo <= Sum(snapshots) <= |snapshots| * hi
  {
    if snapshots != [] {
      var n := |snapshots| - 1;
      SumBounds(snapshots[1..], lo, hi);
      assert |snapshots| * lo == n * lo + lo && |snapshots| * hi == n * hi + hi;
    }
  }

  /** Unless the sum wraps around, an average lies between the minimum and the maximum. */
  lemma AverageIsBetween(snapshots: seq<Snapshot>, v: int, lo: int, hi: int)
    requires snapshots != [] && IsAggregate(snapshots, "avg", v) && IsMin(snapshots, lo) && IsMax(snapshots, hi)
    requires -HALF <= Sum(snapshots) < HALF
    ensures lo <= v <= hi
  {
    SumBounds(snapshots, lo, hi);
    QuotientBetween(Sum(snapshots), |snapshots|, lo, hi);
  }

  lemma QuotientBetween(a: int, n: int, lo: int, hi: int)
    requires n > 0 && n * lo <= a <= n * hi
    ensures lo <= TruncDiv(a, n) <= hi
  {
    var q := TruncDiv(a, n);
    TruncDivIs(a, n);
    if q < lo {
      Widen(q, lo, n);
    }
    if hi < q {
      Widen(hi, q, n);
    }
  }

  lemma TruncDivGrows(a: int, b: int, n: int)
    requires n > 0 && a <= b
    ensures TruncDiv(a, n) <= TruncDiv(b, n)
  {
    TruncDivIs(a, n);
    TruncDivIs(b, n);
    if TruncDiv(b, n) < TruncDiv(a, n) {
      Widen(TruncDiv(b, n), TruncDiv(a, n), n);
    }
  }

  /** The last point of a series of latest values has a latest value of all snapshots. */
  lemma SeriesLatest(snapshots: seq<Snapshot>, seconds: int, keys: seq<int>, points: seq<Point>)
    requires seconds > 0 && snapshots != [] && IsSeries(snapshots, seconds, "raw", keys, points)
    ensures points != [] && IsLatest(snapshots, points[|points| - 1].value)
  {
    var _, _ := SnapshotHasPoint(snapshots, seconds, "raw", keys, points, snapshots[0]);
    var p := points[|points| - 1];
    var last := keys[|keys| - 1];
    assert IsPointFor(snapshots, seconds, "raw", last, p) && last in keys;
    BucketIsNotEmpty(snapshots, seconds, last);
    var bucket := BucketOf(snapshots, seconds, last);
    var s :| s in bucket && s.value == p.value && forall t :: t in bucket ==> t.timestamp <= s.timestamp;
    forall t | t in snapshots ensures t.timestamp <= s.timestamp {
      LatestBucket(snapshots, seconds, keys, points, s, t);
    }
  }

  lemma LatestBucket(snapshots: seq<Snapshot>, seconds: int, keys: seq<int>, points: seq<Point>, s: Snapshot,
                     t: Snapshot)
    requires seconds > 0 && IsSeries(snapshots, seconds, "raw", keys, points) && keys != [] && t in snapshots
    requires s in BucketOf(snapshots, seconds, keys[|keys| - 1])
    requires forall u :: u in BucketOf(snapshots, seconds, keys[|keys| - 1]) ==> u.timestamp <= s.timestamp
    ensures t.timestamp <= s.timestamp
  {
    var last := keys[|keys| - 1];
    var k := Bucket(seconds, t);
    assert k in keys;
    var i := Index(keys, k);
    if k == last {
      assert t in BucketOf(snapshots, seconds, last);
    } else if s.timestamp < t.timestamp {
      TruncDivGrows(s.timestamp / SECOND, t.timestamp / SECOND, seconds);
    }
  }

  lemma BucketIsNotEmpty(snapshots: seq<Snapshot>, seconds: int, key: int)
    requires seconds > 0 && key in Keys(snapshots, seconds)
    ensures BucketOf(snapshots, seconds, key) != []
  {
    var s :| s in snapshots && Bucket(seconds, s) == key;
    assert s in BucketOf(snapshots, seconds, key);
  }

  // ----- The code -----

  lemma GroupStep(snapshots: seq<Snapshot>, seconds: int, i: nat, key: int)
    requires seconds > 0 && i < |snapshots|
    ensures BucketOf(snapshots[..i + 1], seconds, key)
         == BucketOf(snapshots[..i], seconds, key) + if Bucket(seconds, snapshots[i]) == key then [snapshots[i]] else []
  {
    assert snapshots[..i + 1] == snapshots[..i] + [snapshots[i]];
    FilterSnoc(snapshots[..i], snapshots[i], InBuckets(seconds, {key}));
  }

  ghost predicate IsGrouping(snapshots: seq<Snapshot>, seconds: int, intervals: map<int, seq<Snapshot>>)
    requires seconds > 0
  {
    && intervals.Keys == Keys(snapshots, seconds)
    && forall key :: key in intervals ==> intervals[key] == BucketOf(snapshots, seconds, key)
  }

  lemma KeysSnoc(snapshots: seq<Snapshot>, seconds: int, i: nat)
    requires seconds > 0 && i < |snapshots|
    ensures Keys(snapshots[..i + 1], seconds) == Keys(snapshots[..i], seconds) + {Bucket(seconds, snapshots[i])}
  {
    assert snapshots[..i + 1] == snapshots[..i] + [snapshots[i]];
  }

  lemma GroupOneMoreAt(snapshots: seq<Snapshot>, seconds: int, i: nat, intervals: map<int, seq<Snapshot>>, k: int)
    requires seconds > 0 && i < |snapshots| && IsGrouping(snapshots[..i], seconds, intervals)
    ensures BucketOf(snapshots[..i + 1], seconds, k)
         == (if k in intervals then intervals[k] else [])
            + if Bucket(seconds, snapshots[i]) == k then [snapshots[i]] else []
  {
    GroupStep(snapshots, seconds, i, k);
    if k !in intervals {
      EmptyBucket(snapshots[..i], seconds, k);
    }
  }

  lemma GroupOneMore(snapshots: seq<Snapshot>, seconds: int, i: nat, intervals: map<int, seq<Snapshot>>)
    requires seconds > 0 && i < |snapshots| && IsGrouping(snapshots[..i], seconds, intervals)
    ensures var key := Bucket(seconds, snapshots[i]);
      var list := if key in intervals then intervals[key] else [];
      IsGrouping(snapshots[..i + 1], seconds, intervals[key := list + [snapshots[i]]])
  {
    var key := Bucket(seconds, snapshots[i]);
    var list := if key in intervals then intervals[key] else [];
    var more := intervals[key := list + [snapshots[i]]];
    KeysSnoc(snapshots, seconds, i);
    forall k | k in more ensures more[k] == BucketOf(snapshots[..i + 1], seconds, k) {
      GroupOneMoreAt(snapshots, seconds, i, intervals, k);
    }
  }

  lemma NonEmptyBucketHasKey(snapshots: seq<Snapshot>, seconds: int, key: int)
    requires seconds > 0 && BucketOf(snapshots, seconds, key) != []
    ensures key in Keys(snapshots, seconds)
  {
    assert BucketOf(snapshots, seconds, key)[0] in BucketOf(snapshots, seconds, key);
  }

  lemma EmptyBucket(snapshots: seq<Snapshot>, seconds: int, key: int)
    requires seconds > 0 && key !in Keys(snapshots, seconds)
    ensures BucketOf(snapshots, seconds, key) == []
  {
    if BucketOf(snapshots, seconds, key) != [] {
      NonEmptyBucketHasKey(snapshots, seconds, key);
    }
  }

  /** Lines 305-311. */
  method GroupByInterval(snapshots: seq<Snapshot>, seconds: int) returns (intervals: map<int, seq<Snapshot>>)
    requires seconds > 0
    ensures IsGrouping(snapshots, seconds, intervals)
  {
    intervals := map[];
    for i := 0 to |snapshots|
      invariant IsGrouping(snapshots[..i], seconds, intervals)
    {
      GroupOneMore(snapshots, seconds, i, intervals);
      var key := Bucket(seconds, snapshots[i]);
      var list := if key in intervals then intervals[key] else [];
      intervals := intervals[key := list + [snapshots[i]]];
    }
    assert snapshots[..|snapshots|] == snapshots;
  }

  lemma ProductGrows(a: int, b: int, m: int)
    requires a < b && m > 0
    ensures a * m < b * m
  {
    assert (b - a) * m == b * m - a * m;
    assert (b - a) * m > 0;
  }

  lemma TimesOrdered(a: int, b: int, seconds: int)
    requires seconds > 0
    ensures a < b <==> a * seconds * SECOND < b * seconds * SECOND
    ensures a == b <==> a * seconds * SECOND == b * seconds * SECOND
  {
    if a < b {
      ProductGrows(a, b, seconds);
    } else if b < a {
      ProductGrows(b, a, seconds);
    }
  }

  predicate Earlier(a: Point, b: Point) {
    a.timestamp <= b.timestamp
  }

  /** `points[i]` is the point of `keys[i]`. */
  ghost predicate ArePointsOf(snapshots: seq<Snapshot>, seconds: int, aggregation: string, keys: seq<int>,
                              points: seq<Point>)
    requires seconds > 0
  {
    && |keys| == |points| && NoDup(keys)
    && forall i :: 0 <= i < |points| ==> IsPointFor(snapshots, seconds, aggregation, keys[i], points[i])
  }

  /** Lines 313-322, over the intervals in arbitrary order. */
  method CollectPoints(snapshots: seq<Snapshot>, seconds: int, intervals: map<int, seq<Snapshot>>, aggregation: string)
    returns (points: seq<Point>, ghost keys: seq<int>)
    requires seconds > 0 && IsGrouping(snapshots, seconds, intervals)
    ensures ArePointsOf(snapshots, seconds, aggregation, keys, points)
    ensures forall k :: k in keys <==> k in Keys(snapshots, seconds)
  {
    points, keys := [], [];
    var todo := intervals.Keys;
    while todo != {}
      invariant todo <= intervals.Keys
      invariant ArePointsOf(snapshots, seconds, aggregation, keys, points)
      invariant forall k :: k in keys <==> k in intervals.Keys && k !in todo
    {
      var key :| key in todo;
      var value := CalculateAggregation(intervals[key], aggregation);
      var point := Point(key * seconds * SECOND, value);
      OnePointMore(snapshots, seconds, aggregation, keys, points, key, point);
      points := points + [point];
      keys := keys + [key];
      todo := todo - {key};
    }
  }

  lemma OnePointMore(snapshots: seq<Snapshot>, seconds: int, aggregation: string, keys: seq<int>, points: seq<Point>,
                     key: int, point: Point)
    requires seconds > 0 && ArePointsOf(snapshots, seconds, aggregation, keys, points)
    requires key !in keys && IsPointFor(snapshots, seconds, aggregation, key, point)
    ensures ArePointsOf(snapshots, seconds, aggregation, keys + [key], points + [point])
  {
  }

  /** The keys in the order in which sorting puts their points. */
  ghost function SortedKeys(keys: seq<int>, points: seq<Point>): (r: seq<int>)
    requires |keys| == |points|
    ensures |r| == |points|
  {
    var sorted := Sort(Earlier, points);
    seq(|sorted|, i requires 0 <= i < |sorted| => assert sorted[i] in sorted; keys[Index(points, sorted[i])])
  }

  lemma SortedKeyAt(snapshots: seq<Snapshot>, seconds: int, aggregation: string, keys: seq<int>, points: seq<Point>,
                    i: nat)
    requires seconds > 0 && ArePointsOf(snapshots, seconds, aggregation, keys, points) && i < |points|
    ensures IsPointFor(snapshots, seconds, aggregation, SortedKeys(keys, points)[i], Sort(Earlier, points)[i])
    ensures SortedKeys(keys, points)[i] in keys
  {
    var sorted := Sort(Earlier, points);
    assert sorted[i] in sorted;
    var a := Index(points, sorted[i]);
    assert IsPointFor(snapshots, seconds, aggregation, keys[a], points[a]);
  }

  lemma SortedAscends(snapshots: seq<Snapshot>, seconds: int, aggregation: string, keys: seq<int>,
                      points: seq<Point>, i: nat, j: nat)
    requires seconds > 0 && ArePointsOf(snapshots, seconds, aggregation, keys, points) && i < j < |points|
    ensures SortedKeys(keys, points)[i] < SortedKeys(keys, points)[j]
    ensures Sort(Earlier, points)[i].timestamp < Sort(Earlier, points)[j].timestamp
  {
    var sorted := Sort(Earlier, points);
    SortSorted(Earlier, points);
    assert Earlier(sorted[i], sorted[j]);
    TimesDiffer(snapshots, seconds, aggregation, keys, points);
    DistinctTimes(points, i, j);
    SortedKeyAt(snapshots, seconds, aggregation, keys, points, i);
    SortedKeyAt(snapshots, seconds, aggregation, keys, points, j);
    TimesOrdered(SortedKeys(keys, points)[i], SortedKeys(keys, points)[j], seconds);
  }

  lemma KeyIsSorted(snapshots: seq<Snapshot>, seconds: int, aggregation: string, keys: seq<int>, points: seq<Point>,
                    a: nat)
    requires seconds > 0 && ArePointsOf(snapshots, seconds, aggregation, keys, points) && a < |points|
    ensures keys[a] in SortedKeys(keys, points)
  {
    var sorted := Sort(Earlier, points);
    assert points[a] in points && points[a] in sorted;
    var i :| 0 <= i < |sorted| && sorted[i] == points[a];
    SortedKeyAt(snapshots, seconds, aggregation, keys, points, i);
    assert IsPointFor(snapshots, seconds, aggregation, keys[a], points[a]);
    TimesOrdered(SortedKeys(keys, points)[i], keys[a], seconds);
  }

  /** Sorted by time, the points are a series: one per key, strictly ascending. */
  lemma SortedPointsAreSeries(snapshots: seq<Snapshot>, seconds: int, aggregation: string, keys: seq<int>,
                              points: seq<Point>)
    requires seconds > 0 && ArePointsOf(snapshots, seconds, aggregation, keys, points)
    requires forall k :: k in keys <==> k in Keys(snapshots, seconds)
    ensures IsSeries(snapshots, seconds, aggregation, SortedKeys(keys, points), Sort(Earlier, points))
  {
    var sorted, keys' := Sort(Earlier, points), SortedKeys(keys, points);
    forall i | 0 <= i < |sorted|
      ensures IsPointFor(snapshots, seconds, aggregation, keys'[i], sorted[i]) && keys'[i] in keys
    {
      SortedKeyAt(snapshots, seconds, aggregation, keys, points, i);
    }
    forall i, j | 0 <= i < j < |sorted| ensures keys'[i] < keys'[j] && sorted[i].timestamp < sorted[j].timestamp {
      SortedAscends(snapshots, seconds, aggregation, keys, points, i, j);
    }
    forall k | k in keys ensures k in keys' {
      var a :| 0 <= a < |keys| && keys[a] == k;
      KeyIsSorted(snapshots, seconds, aggregation, keys, points, a);
    }
  }

  lemma TimesDiffer(snapshots: seq<Snapshot>, seconds: int, aggregation: string, keys: seq<int>, points: seq<Point>)
    requires seconds > 0 && ArePointsOf(snapshots, seconds, aggregation, keys, points)
    ensures forall a, b :: 0 <= a < b < |points| ==> points[a].timestamp != points[b].timestamp
  {
    forall a, b | 0 <= a < b < |points| ensures points[a].timestamp != points[b].timestamp {
      assert IsPointFor(snapshots, seconds, aggregation, keys[a], points[a]);
      assert IsPointFor(snapshots, seconds, aggregation, keys[b], points[b]);
      TimesOrdered(keys[a], keys[b], seconds);
    }
  }

  lemma DistinctTimes(points: seq<Point>, i: nat, j: nat)
    requires forall a, b :: 0 <= a < b < |points| ==> points[a].timestamp != points[b].timestamp
    requires i < j < |points|
    ensures var sorted := Sort(Earlier, points); sorted[i].timestamp != sorted[j].timestamp
  {
    var sorted := Sort(Earlier, points);
    PermutationKeepsNoDup(points, sorted);
    assert sorted[i] in sorted && sorted[j] in sorted;
    var a :| 0 <= a < |points| && points[a] == sorted[i];
    var b :| 0 <= b < |points| && points[b] == sorted[j];
    assert a != b;
  }

  datatype Aggregation = Series(points: seq<Point>, aggregation: string) | NoData | DivisionByZero

  /**
   * What int64(interval.Seconds()) may yield: the whole seconds. The floating-point number in
   * between rounds up to the next second only from 2^24 seconds on.
   */
  predicate IsWholeSeconds(interval: int, seconds: int) {
    seconds == interval / SECOND || (interval / SECOND >= 0x100_0000 && seconds == interval / SECOND + 1)
  }

  /**
   * aggregateByInterval for a positive interval in nanoseconds. An interval below one
   * second, which QueryOptions.Validate accepts, divides by zero as soon as there is a
   * snapshot. An empty aggregation is summed but labelled as an average.
   */
  method AggregateByInterval(snapshots: seq<Snapshot>, interval: int, seconds: int, aggregation: string, limit: int)
    returns (r: Aggregation, ghost keys: seq<int>, ghost all: seq<Point>)
    requires interval > 0 && IsWholeSeconds(interval, seconds)
    ensures snapshots == [] <==> r == NoData
    ensures snapshots != [] && interval < SECOND <==> r == DivisionByZero
    ensures r.Series? ==>
      && seconds > 0
      && IsSeries(snapshots, seconds, aggregation, keys, all)
      && r.points == (if 0 < limit < |all| then all[..limit] else all)
      && r.aggregation == if aggregation == "" then "avg" else aggregation
  {
    keys, all := [], [];
    if |snapshots| == 0 {
      return NoData, keys, all;
    }
    if seconds == 0 {
      return DivisionByZero, keys, all;
    }
    var intervals := GroupByInterval(snapshots, seconds);
    var points;
    points, keys := CollectPoints(snapshots, seconds, intervals, aggregation);
    SortedPointsAreSeries(snapshots, seconds, aggregation, keys, points);
    keys := SortedKeys(keys, points);
    points := Sort(Earlier, points);
    all := points;
    if limit > 0 && |points| > limit {
      points := points[..limit];
    }
    return Series(points, if aggregation == "" then "avg" else aggregation), keys, all;
  }
}
