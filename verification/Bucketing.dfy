/** Cutting an inclusive window of Unix seconds into equal buckets and keeping one
    row a bucket: internal/store/telemetry.go. */
module Bucketing {
  datatype Row<+T> = Row(ts: int, val: T)

  lemma MulMonotone(d: int, x: int, y: int)
    ensures d >= 0 && x <= y ==> d * x <= d * y
  {
    if d >= 0 && x <= y {
      assert d * y - d * x == d * (y - x);
    }
  }

  lemma DivisionBounds(a: int, d: int)
    requires d > 0
    ensures d * (a / d) <= a < d * (a / d) + d
  {
  }

  lemma QuotientIs(a: int, d: int, q: int)
    requires d > 0 && d * q <= a < d * q + d
    ensures a / d == q
  {
    DivisionBounds(a, d);
    MulMonotone(d, q + 1, a / d);
    MulMonotone(d, a / d + 1, q);
  }

  lemma QuotientMonotone(a: int, b: int, d: int)
    requires d > 0 && a <= b
    ensures a / d <= b / d
  {
    DivisionBounds(a, d);
    DivisionBounds(b, d);
    MulMonotone(d, b / d + 1, a / d);
  }

  /** The width in seconds of each of at most `maxPoints` buckets. Both callers
      have already raised `maxPoints` to at least 1. */
  function BucketWidth(fromUnix: int, toUnix: int, maxPoints: int): (width: int)
    requires maxPoints >= 1
    ensures width >= 1
    ensures fromUnix <= toUnix ==> toUnix - fromUnix + 1 <= maxPoints * width
    ensures fromUnix <= toUnix && width > 1 ==> maxPoints * (width - 1) <= toUnix - fromUnix
  {
    var span := toUnix - fromUnix;
    if span < 0 then 1 else
    var b := (span + maxPoints) / maxPoints;
    assert maxPoints * b <= span + maxPoints < maxPoints * b + maxPoints by {
      DivisionBounds(span + maxPoints, maxPoints);
    }
    assert maxPoints * (b - 1) == maxPoints * b - maxPoints;
    assert b <= 1 ==> maxPoints * b <= maxPoints * 1 by { MulMonotone(maxPoints, b, 1); }
    if b > 1 then b else 1
  }

  predicate InWindow<T>(r: Row<T>, from: int, to: int) {
    from <= r.ts <= to
  }

  /** The group a row falls into: `(ts - from) / width`. */
  function BucketOf<T>(r: Row<T>, from: int, width: int): int
    requires width >= 1
  {
    (r.ts - from) / width
  }

  lemma BucketOfMonotone<T>(r: Row<T>, s: Row<T>, from: int, width: int)
    requires width >= 1
    ensures BucketOf(r, from, width) < BucketOf(s, from, width) ==> r.ts < s.ts
  {
    if s.ts <= r.ts {
      QuotientMonotone(s.ts - from, r.ts - from, width);
    }
  }

  /** Two rows of one bucket lie less than a bucket apart. */
  lemma SameBucketIsClose<T>(r: Row<T>, s: Row<T>, from: int, width: int)
    requires width >= 1
    requires BucketOf(r, from, width) == BucketOf(s, from, width)
    ensures s.ts - r.ts < width
  {
    DivisionBounds(r.ts - from, width);
    DivisionBounds(s.ts - from, width);
  }

  /** The rows of one group, in table order. */
  function InBucket<T>(rows: seq<Row<T>>, from: int, to: int, width: int, b: int): seq<Row<T>>
    requires width >= 1
  {
    if rows == [] then [] else
    var rest := InBucket(rows[1..], from, to, width, b);
    if InWindow(rows[0], from, to) && BucketOf(rows[0], from, width) == b then [rows[0]] + rest else rest
  }

  lemma {:induction false} InBucketMembers<T>(rows: seq<Row<T>>, from: int, to: int, width: int, b: int, r: Row<T>)
    requires width >= 1
    ensures r in InBucket(rows, from, to, width, b)
       <==> r in rows && InWindow(r, from, to) && BucketOf(r, from, width) == b
  {
    if rows != [] {
      InBucketMembers(rows[1..], from, to, width, b, r);
    }
  }

  /** The numbers below `n` of the groups that hold a row, in order. */
  function Occupied<T>(rows: seq<Row<T>>, from: int, to: int, width: int, n: nat): (bs: seq<int>)
    requires width >= 1
    ensures |bs| <= n
    ensures forall i :: 0 <= i < |bs| ==> 0 <= bs[i] < n && InBucket(rows, from, to, width, bs[i]) != []
    ensures forall i, j :: 0 <= i < j < |bs| ==> bs[i] < bs[j]
    ensures forall b :: 0 <= b < n && InBucket(rows, from, to, width, b) != [] ==> b in bs
  {
    if n == 0 then [] else
    var bs := Occupied(rows, from, to, width, n - 1);
    if InBucket(rows, from, to, width, n - 1) == [] then bs else bs + [n - 1]
  }

  /** The row `MAX(ts)` picks out of a group; the first of several equally new. */
  function Newest<T>(rows: seq<Row<T>>): (r: Row<T>)
    requires rows != []
    ensures r in rows
    ensures forall other :: other in rows ==> other.ts <= r.ts
  {
    if |rows| == 1 then rows[0] else
    var rest := Newest(rows[1..]);
    assert forall other :: other in rows ==> other == rows[0] || other in rows[1..];
    if rows[0].ts >= rest.ts then rows[0] else rest
  }

  function AtLeastOne(maxPoints: int): int {
    if maxPoints < 1 then 1 else maxPoints
  }

  /** How many bucket numbers a nonempty window can produce. */
  function BucketCount(from: int, to: int, width: int): nat
    requires width >= 1 && from <= to
  {
    (to - from) / width + 1
  }

  function WindowWidth(from: int, to: int, maxPoints: int): (width: int)
    ensures width >= 1
  {
    BucketWidth(from, to, AtLeastOne(maxPoints))
  }

  /** The numbers of the nonempty groups of the window, in time order. */
  function GroupNumbers<T>(rows: seq<Row<T>>, from: int, to: int, maxPoints: int): seq<int>
    requires from <= to
  {
    var width := WindowWidth(from, to, maxPoints);
    Occupied(rows, from, to, width, BucketCount(from, to, width))
  }

  /** Every nonempty group of the window, in time order. A window that ends before it
      starts is an empty one. */
  function Groups<T>(rows: seq<Row<T>>, from: int, to: int, maxPoints: int): (gs: seq<seq<Row<T>>>)
    ensures forall i :: 0 <= i < |gs| ==> gs[i] != []
  {
    if from > to then [] else
    var width := WindowWidth(from, to, maxPoints);
    var bs := GroupNumbers(rows, from, to, maxPoints);
    seq(|bs|, i requires 0 <= i < |bs| => InBucket(rows, from, to, width, bs[i]))
  }

  function NewestPerBucket<T>(rows: seq<Row<T>>, from: int, to: int, maxPoints: int): seq<Row<T>> {
    var gs := Groups(rows, from, to, maxPoints);
    seq(|gs|, i requires 0 <= i < |gs| => Newest(gs[i]))
  }

  /** The bucket cap is a hard ceiling: no offset of the window reaches number `maxPoints`. */
  lemma BucketCountIsCapped(from: int, to: int, maxPoints: int)
    requires from <= to && maxPoints >= 1
    ensures BucketCount(from, to, BucketWidth(from, to, maxPoints)) <= maxPoints
  {
    var width := BucketWidth(from, to, maxPoints);
    DivisionBounds(to - from, width);
    MulMonotone(width, maxPoints, (to - from) / width);
  }

  lemma WindowRowHasAGroup<T>(rows: seq<Row<T>>, from: int, to: int, maxPoints: int, r: Row<T>)
    requires r in rows && InWindow(r, from, to)
    ensures BucketOf(r, from, WindowWidth(from, to, maxPoints)) in GroupNumbers(rows, from, to, maxPoints)
  {
    var width := WindowWidth(from, to, maxPoints);
    InBucketMembers(rows, from, to, width, BucketOf(r, from, width), r);
    QuotientMonotone(r.ts - from, to - from, width);
    QuotientMonotone(0, r.ts - from, width);
    assert 0 / width == 0 by { QuotientIs(0, width, 0); }
  }

  /** The rows of a group and the bucket number they share. */
  lemma GroupMember<T>(rows: seq<Row<T>>, from: int, to: int, maxPoints: int, i: int, r: Row<T>)
    requires from <= to && 0 <= i < |GroupNumbers(rows, from, to, maxPoints)|
    requires r in Groups(rows, from, to, maxPoints)[i]
    ensures r in rows && InWindow(r, from, to)
    ensures BucketOf(r, from, WindowWidth(from, to, maxPoints)) == GroupNumbers(rows, from, to, maxPoints)[i]
  {
    var b := GroupNumbers(rows, from, to, maxPoints)[i];
    InBucketMembers(rows, from, to, WindowWidth(from, to, maxPoints), b, r);
  }

  /** A group holds exactly the rows of the window that share the bucket of its newest. */
  lemma GroupHolds<T>(rows: seq<Row<T>>, from: int, to: int, maxPoints: int, i: int, r: Row<T>)
    requires from <= to && 0 <= i < |GroupNumbers(rows, from, to, maxPoints)|
    ensures var width, newest := WindowWidth(from, to, maxPoints), NewestPerBucket(rows, from, to, maxPoints)[i];
            (r in Groups(rows, from, to, maxPoints)[i]
             <==> r in rows && InWindow(r, from, to) && BucketOf(r, from, width) == BucketOf(newest, from, width))
  {
    var b, width := GroupNumbers(rows, from, to, maxPoints)[i], WindowWidth(from, to, maxPoints);
    InBucketMembers(rows, from, to, width, b, r);
    GroupMember(rows, from, to, maxPoints, i, NewestPerBucket(rows, from, to, maxPoints)[i]);
    assert Groups(rows, from, to, maxPoints)[i] == InBucket(rows, from, to, width, b);
  }

  lemma NewestOfGroup<T>(rows: seq<Row<T>>, from: int, to: int, maxPoints: int, i: int)
    requires from <= to && 0 <= i < |GroupNumbers(rows, from, to, maxPoints)|
    ensures var r := NewestPerBucket(rows, from, to, maxPoints)[i];
            && r in rows && InWindow(r, from, to)
            && BucketOf(r, from, WindowWidth(from, to, maxPoints)) == GroupNumbers(rows, from, to, maxPoints)[i]
  {
    var width := WindowWidth(from, to, maxPoints);
    var b := GroupNumbers(rows, from, to, maxPoints)[i];
    var g := InBucket(rows, from, to, width, b);
    assert Groups(rows, from, to, maxPoints)[i] == g;
    InBucketMembers(rows, from, to, width, b, Newest(g));
  }

  /** A bucketed range holds at most `maxPoints` rows, all of them rows of the window,
      strictly increasing in time. */
  lemma RangeIsBoundedAndOrdered<T>(rows: seq<Row<T>>, from: int, to: int, maxPoints: int)
    ensures |NewestPerBucket(rows, from, to, maxPoints)| <= AtLeastOne(maxPoints)
    ensures var out := NewestPerBucket(rows, from, to, maxPoints);
            forall i :: 0 <= i < |out| ==> out[i] in rows && InWindow(out[i], from, to)
    ensures var out := NewestPerBucket(rows, from, to, maxPoints);
            forall i, j :: 0 <= i < j < |out| ==> out[i].ts < out[j].ts
  {
    if from <= to {
      var out := NewestPerBucket(rows, from, to, maxPoints);
      BucketCountIsCapped(from, to, AtLeastOne(maxPoints));
      forall i | 0 <= i < |out| ensures out[i] in rows && InWindow(out[i], from, to) {
        NewestOfGroup(rows, from, to, maxPoints, i);
      }
      forall i, j | 0 <= i < j < |out| ensures out[i].ts < out[j].ts {
        NewestOfGroup(rows, from, to, maxPoints, i);
        NewestOfGroup(rows, from, to, maxPoints, j);
        BucketOfMonotone(out[i], out[j], from, WindowWidth(from, to, maxPoints));
      }
    }
  }

  /** Returned row `i` stands for `r`: they share a bucket and it is at least as new. */
  ghost predicate Represents<T>(out: seq<Row<T>>, i: int, r: Row<T>, from: int, width: int)
    requires width >= 1
  {
    0 <= i < |out| && BucketOf(out[i], from, width) == BucketOf(r, from, width) && r.ts <= out[i].ts
  }

  /** Every row of the window is represented by exactly one returned row. */
  lemma EveryRowIsRepresentedOnce<T>(rows: seq<Row<T>>, from: int, to: int, maxPoints: int, r: Row<T>)
      returns (k: int)
    requires r in rows && InWindow(r, from, to)
    ensures var out := NewestPerBucket(rows, from, to, maxPoints);
            var width := WindowWidth(from, to, maxPoints);
            Represents(out, k, r, from, width) && forall i :: Represents(out, i, r, from, width) ==> i == k
  {
    var out := NewestPerBucket(rows, from, to, maxPoints);
    var width := WindowWidth(from, to, maxPoints);
    var bs := GroupNumbers(rows, from, to, maxPoints);
    WindowRowHasAGroup(rows, from, to, maxPoints, r);
    k :| 0 <= k < |bs| && bs[k] == BucketOf(r, from, width);
    InBucketMembers(rows, from, to, width, bs[k], r);
    assert Groups(rows, from, to, maxPoints)[k] == InBucket(rows, from, to, width, bs[k]);
    NewestOfGroup(rows, from, to, maxPoints, k);
    forall i | Represents(out, i, r, from, width) ensures i == k {
      NewestOfGroup(rows, from, to, maxPoints, i);
    }
  }

  /** The newest row of the window is never bucketed away: the answer ends on its instant. */
  lemma NewestOfWindowIsReturned<T>(rows: seq<Row<T>>, from: int, to: int, maxPoints: int, r: Row<T>)
    requires r in rows && InWindow(r, from, to)
    requires forall o :: o in rows && InWindow(o, from, to) ==> o.ts <= r.ts
    ensures var out := NewestPerBucket(rows, from, to, maxPoints);
            out != [] && out[|out| - 1].ts == r.ts
  {
    var out := NewestPerBucket(rows, from, to, maxPoints);
    var k := EveryRowIsRepresentedOnce(rows, from, to, maxPoints, r);
    RangeIsBoundedAndOrdered(rows, from, to, maxPoints);
    assert k < |out| - 1 ==> out[k].ts < out[|out| - 1].ts;
  }
}
