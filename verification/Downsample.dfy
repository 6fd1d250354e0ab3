/** Averaging a series down to the width of the chart: downsample of web/app.js, with exact
    fractions in place of floating point. */
module Downsample {
  import opened Bucketing

  /** The instant, the value, and the snapshot the value came from. */
  datatype Point = Point(ts: int, value: real, snapshot: int)

  /** Where bucket `i` of `m` begins in a series of `n` points. */
  function Edge(i: nat, n: nat, m: nat): int
    requires m > 0
  {
    i * n / m
  }

  /** The whole part of the share of the points that comes before bucket `i`. */
  lemma EdgeIsFloor(i: nat, n: nat, m: nat)
    requires m > 0
    ensures Edge(i, n, m) * m <= i * n < (Edge(i, n, m) + 1) * m
  {
    DivisionBounds(i * n, m);
  }

  function Sum(points: seq<Point>): real {
    if points == [] then 0.0 else Sum(points[..|points| - 1]) + points[|points| - 1].value
  }

  lemma {:induction false} SumAppend(a: seq<Point>, b: seq<Point>)
    ensures Sum(a + b) == Sum(a) + Sum(b)
  {
    if b == [] {
      assert a + b == a;
    } else {
      SumAppend(a, b[..|b| - 1]);
      assert (a + b)[..|a + b| - 1] == a + b[..|b| - 1];
    }
  }

  /** With more points than buckets, each bucket takes in at least one. */
  lemma EdgesIncrease(i: nat, n: nat, m: nat)
    requires 0 < m < n
    ensures Edge(i, n, m) < Edge(i + 1, n, m)
  {
    assert (i + 1) * n == i * n + n;
    DivisionBounds(i * n, m);
    DivisionBounds(i * n + n, m);
    MulMonotone(m, Edge(i + 1, n, m), Edge(i, n, m));
  }

  /** Buckets hold the whole part of `n / m` points or one more, so no two differ by more than one. */
  lemma BucketsAreEven(i: nat, n: nat, m: nat)
    requires 0 < m < n
    ensures n / m <= Edge(i + 1, n, m) - Edge(i, n, m) <= n / m + 1
  {
    assert (i + 1) * n == i * n + n;
    DivisionBounds(i * n, m);
    DivisionBounds(i * n + n, m);
    DivisionBounds(n, m);
    var a, b, q := Edge(i, n, m), Edge(i + 1, n, m), n / m;
    assert m * (b - a - q) == m * b - m * a - m * q;
    if b - a - q >= 2 {
      MulMonotone(m, 2, b - a - q);
    } else if b - a - q <= -1 {
      MulMonotone(m, b - a - q, -1);
    }
  }

  lemma {:induction false} EdgesAreOrdered(i: nat, j: nat, n: nat, m: nat)
    requires 0 < m < n && i <= j
    ensures Edge(i, n, m) <= Edge(j, n, m)
    decreases j - i
  {
    if i < j {
      EdgesIncrease(i, n, m);
      EdgesAreOrdered(i + 1, j, n, m);
    }
  }

  lemma EdgesSpan(n: nat, m: nat)
    requires m > 0
    ensures Edge(0, n, m) == 0 && Edge(m, n, m) == n
  {
    QuotientIs(0, m, 0);
    QuotientIs(m * n, m, n);
  }

  /** The points of bucket `i`. */
  function BucketAt(points: seq<Point>, i: nat, m: nat): seq<Point>
    requires 0 < m < |points| && i < m
  {
    EdgesSpan(|points|, m);
    EdgesAreOrdered(0, i, |points|, m);
    EdgesIncrease(i, |points|, m);
    EdgesAreOrdered(i + 1, m, |points|, m);
    points[Edge(i, |points|, m)..Edge(i + 1, |points|, m)]
  }

  lemma BucketBounds(points: seq<Point>, i: nat, m: nat)
    requires 0 < m < |points| && i < m
    ensures 0 <= Edge(i, |points|, m) < Edge(i + 1, |points|, m) <= |points|
    ensures BucketAt(points, i, m) == points[Edge(i, |points|, m)..Edge(i + 1, |points|, m)]
  {
    EdgesSpan(|points|, m);
    EdgesAreOrdered(0, i, |points|, m);
    EdgesIncrease(i, |points|, m);
    EdgesAreOrdered(i + 1, m, |points|, m);
  }

  lemma BucketIsNotEmpty(points: seq<Point>, i: nat, m: nat)
    requires 0 < m < |points| && i < m
    ensures BucketAt(points, i, m) != []
  {
    BucketBounds(points, i, m);
  }

  /** What stands for a bucket: the instant and snapshot of its first point, and a value whose
      total over the bucket is the bucket's own. */
  ghost predicate StandsFor(p: Point, bucket: seq<Point>) {
    && bucket != []
    && p.ts == bucket[0].ts && p.snapshot == bucket[0].snapshot
    && p.value * |bucket| as real == Sum(bucket)
  }

  /** The inner loop: the total and the number of the points from `start` up to `end`. */
  method SumRange(points: seq<Point>, start: int, end: int) returns (sum: real, n: int)
    requires 0 <= start <= end <= |points|
    ensures sum == Sum(points[start..end]) && n == end - start
  {
    sum, n := 0.0, 0;
    for j := start to end
      invariant n == j - start && sum == Sum(points[start..j])
    {
      assert points[start..j + 1][..n] == points[start..j] && points[start..j + 1][n] == points[j];
      sum := sum + points[j].value;
      n := n + 1;
    }
  }

  lemma AverageStandsFor(bucket: seq<Point>, sum: real)
    requires bucket != [] && sum == Sum(bucket)
    ensures StandsFor(Point(bucket[0].ts, sum / |bucket| as real, bucket[0].snapshot), bucket)
  {
  }

  method DownsampleTo(points: seq<Point>, maxPoints: nat) returns (out: seq<Point>)
    ensures |points| <= maxPoints ==> out == points
    ensures 0 < maxPoints < |points| ==>
              |out| == maxPoints && forall i :: 0 <= i < maxPoints ==> StandsFor(out[i], BucketAt(points, i, maxPoints))
    ensures maxPoints == 0 ==> out == []
  {
    if |points| <= maxPoints {
      return points;
    }
    out := [];
    var length := |points|;
    for i := 0 to maxPoints
      invariant |out| == i
      invariant forall k :: 0 <= k < i ==> StandsFor(out[k], BucketAt(points, k, maxPoints))
    {
      ghost var bucket := BucketAt(points, i, maxPoints);
      BucketIsNotEmpty(points, i, maxPoints);
      BucketBounds(points, i, maxPoints);
      var start := i * length / maxPoints;
      var next := (i + 1) * length / maxPoints;
      var end := if next < length then next else length;
      var sum, n := SumRange(points, start, end);
      AverageStandsFor(bucket, sum);
      out := out + [Point(points[start].ts, sum / n as real, points[start].snapshot)];
    }
  }

  function AllBuckets(points: seq<Point>, m: nat): seq<seq<Point>>
    requires 0 < m < |points|
  {
    seq(m, i requires 0 <= i < m => BucketAt(points, i, m))
  }

  function Concat(buckets: seq<seq<Point>>): seq<Point> {
    if buckets == [] then [] else Concat(buckets[..|buckets| - 1]) + buckets[|buckets| - 1]
  }

  lemma {:induction false} FirstBucketsCover(points: seq<Point>, k: nat, m: nat)
    requires 0 < m < |points| && k <= m
    ensures 0 <= Edge(k, |points|, m) <= |points|
    ensures Concat(AllBuckets(points, m)[..k]) == points[..Edge(k, |points|, m)]
  {
    EdgesSpan(|points|, m);
    EdgesAreOrdered(0, k, |points|, m);
    EdgesAreOrdered(k, m, |points|, m);
    if k > 0 {
      FirstBucketsCover(points, k - 1, m);
      EdgesIncrease(k - 1, |points|, m);
      var firsts := AllBuckets(points, m)[..k];
      assert firsts[..k - 1] == AllBuckets(points, m)[..k - 1];
      assert firsts[k - 1] == BucketAt(points, k - 1, m);
    }
  }

  /** The buckets, one after the other, are the series: every point is averaged exactly once; and
      they are even. */
  lemma BucketsPartition(points: seq<Point>, m: nat)
    requires 0 < m < |points|
    ensures Concat(AllBuckets(points, m)) == points
    ensures forall i :: 0 <= i < m ==>
              AllBuckets(points, m)[i] != [] && |points| / m <= |AllBuckets(points, m)[i]| <= |points| / m + 1
  {
    FirstBucketsCover(points, m, m);
    assert AllBuckets(points, m)[..m] == AllBuckets(points, m);
    assert points[..Edge(m, |points|, m)] == points by {
      EdgesSpan(|points|, m);
    }
    forall i | 0 <= i < m
      ensures AllBuckets(points, m)[i] != [] && |points| / m <= |AllBuckets(points, m)[i]| <= |points| / m + 1
    {
      BucketIsNotEmpty(points, i, m);
      BucketBounds(points, i, m);
      BucketsAreEven(i, |points|, m);
    }
  }

  /** Total of the averages, each counted as often as its bucket has points. */
  function WeightedSum(out: seq<Point>, buckets: seq<seq<Point>>): real
    requires |out| == |buckets|
  {
    if out == [] then 0.0 else
    var k := |out| - 1;
    WeightedSum(out[..k], buckets[..k]) + out[k].value * |buckets[k]| as real
  }

  lemma {:induction false} WeightedSumOfBuckets(out: seq<Point>, buckets: seq<seq<Point>>)
    requires |out| == |buckets| && forall i :: 0 <= i < |out| ==> StandsFor(out[i], buckets[i])
    ensures WeightedSum(out, buckets) == Sum(Concat(buckets))
  {
    if out != [] {
      var k := |out| - 1;
      WeightedSumOfBuckets(out[..k], buckets[..k]);
      SumAppend(Concat(buckets[..k]), buckets[k]);
      assert StandsFor(out[k], buckets[k]);
    }
  }

  /** Averaging loses nothing: weighted by bucket size the averages add up to the series. */
  lemma WeightedSumIsSum(points: seq<Point>, out: seq<Point>, m: nat)
    requires 0 < m < |points| && |out| == m
    requires forall i :: 0 <= i < m ==> StandsFor(out[i], BucketAt(points, i, m))
    ensures WeightedSum(out, AllBuckets(points, m)) == Sum(points)
  {
    WeightedSumOfBuckets(out, AllBuckets(points, m));
    BucketsPartition(points, m);
  }

  lemma {:induction false} SumBounds(bucket: seq<Point>, low: real, high: real)
    requires forall i :: 0 <= i < |bucket| ==> low <= bucket[i].value <= high
    ensures low * |bucket| as real <= Sum(bucket) <= high * |bucket| as real
  {
    if bucket != [] {
      SumBounds(bucket[..|bucket| - 1], low, high);
      assert low * |bucket| as real == low * (|bucket| - 1) as real + low;
      assert high * |bucket| as real == high * (|bucket| - 1) as real + high;
    }
  }

  /** An average never leaves the range of its bucket. */
  lemma AverageIsWithinBucket(p: Point, bucket: seq<Point>, low: real, high: real)
    requires StandsFor(p, bucket) && forall i :: 0 <= i < |bucket| ==> low <= bucket[i].value <= high
    ensures low <= p.value <= high
  {
    SumBounds(bucket, low, high);
    var n := |bucket| as real;
    assert (p.value - low) * n >= 0.0 && (high - p.value) * n >= 0.0;
  }

  /** The points of a downsampled series are points of the series, in its order. */
  lemma OutputKeepsOrder(points: seq<Point>, out: seq<Point>, m: nat, i: nat, j: nat)
    requires 0 < m < |points| && |out| == m && i < j < m
    requires forall k :: 0 <= k < m ==> StandsFor(out[k], BucketAt(points, k, m))
    ensures exists a, b :: 0 <= a < b < |points| && out[i].ts == points[a].ts && out[j].ts == points[b].ts
                           && out[i].snapshot == points[a].snapshot && out[j].snapshot == points[b].snapshot
  {
    var n := |points|;
    EdgesSpan(n, m);
    EdgesAreOrdered(0, i, n, m);
    EdgesIncrease(i, n, m);
    EdgesAreOrdered(i + 1, j, n, m);
    EdgesIncrease(j, n, m);
    EdgesAreOrdered(j + 1, m, n, m);
    var a, b := Edge(i, n, m), Edge(j, n, m);
    assert StandsFor(out[i], BucketAt(points, i, m)) && StandsFor(out[j], BucketAt(points, j, m));
    assert BucketAt(points, i, m)[0] == points[a] && BucketAt(points, j, m)[0] == points[b];
  }
}
