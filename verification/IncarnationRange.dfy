/** The range query over the log of tunnel lifetimes: RangeTunnelIncarnations of
    internal/store/history.go. Rows are named by their place in the table; the query says nothing
    of the order of rows that start in one second, so an answer is any that its two `ORDER BY`s allow. */
module IncarnationRange {
  import opened Wrappers
  import opened IncarnationLog

  /** `started_at <= to AND (ended_at IS NULL OR ended_at >= from)` */
  predicate Overlaps(inc: Incarnation, from: int, to: int) {
    inc.startedAt <= to && (inc.endedAt.None? || inc.endedAt.value >= from)
  }

  /** The tunnel was up at `t`, the seconds it started and ended in included. */
  predicate AliveAt(inc: Incarnation, t: int) {
    inc.startedAt <= t && (inc.endedAt.Some? ==> t <= inc.endedAt.value)
  }

  /** The rows a window asks for are those of the tunnels that were up at some instant of it. */
  lemma OverlapsIff(inc: Incarnation, from: int, to: int, now: int)
    requires Plausible(inc, now) && from <= to
    ensures Overlaps(inc, from, to) <==> exists t :: from <= t <= to && AliveAt(inc, t)
  {
    if Overlaps(inc, from, to) {
      assert AliveAt(inc, if inc.startedAt <= from then from else inc.startedAt);
    }
  }

  predicate InTable(log: Log, rows: seq<int>) {
    forall i :: 0 <= i < |rows| ==> 0 <= rows[i] < |log|
  }

  ghost predicate Once(rows: seq<int>) {
    forall i, j :: 0 <= i < j < |rows| ==> rows[i] != rows[j]
  }

  ghost predicate ByStart(log: Log, rows: seq<int>)
    requires InTable(log, rows)
  {
    forall i, j :: 0 <= i < j < |rows| ==> log[rows[i]].startedAt <= log[rows[j]].startedAt
  }

  /** Every overlapping row once, in an order `ORDER BY started_at` may give. */
  ghost predicate Listing(log: Log, from: int, to: int, order: seq<int>) {
    && InTable(log, order) && Once(order) && ByStart(log, order)
    && forall k :: k in order <==> 0 <= k < |log| && Overlaps(log[k], from, to)
  }

  function LastOf<T>(s: seq<T>, n: int): seq<T>
    requires n >= 0
  {
    if |s| <= n then s else s[|s| - n..]
  }

  function RowsAt(log: Log, rows: seq<int>): (out: Log)
    requires InTable(log, rows)
    ensures |out| == |rows| && forall i :: 0 <= i < |out| ==> out[i] == log[rows[i]]
  {
    seq(|rows|, i requires 0 <= i < |rows| => log[rows[i]])
  }

  function Limit(maxPoints: int): (n: int)
    ensures n >= 1
  {
    if maxPoints < 1 then 1 else maxPoints
  }

  /** `ORDER BY started_at DESC LIMIT n`, turned back to oldest first. */
  ghost predicate IsAnswer(log: Log, from: int, to: int, maxPoints: int, out: Log) {
    if from > to then out == []
    else exists order ::
      Listing(log, from, to, order) && out == RowsAt(log, LastOf(order, Limit(maxPoints)))
  }

  function OverlappingRows(log: Log, from: int, to: int): (rows: seq<int>)
    ensures InTable(log, rows) && Once(rows)
    ensures forall k :: k in rows <==> 0 <= k < |log| && Overlaps(log[k], from, to)
  {
    if log == [] then [] else
    var last := |log| - 1;
    var rows := OverlappingRows(log[..last], from, to);
    if Overlaps(log[last], from, to) then rows + [last] else rows
  }

  function InsertByStart(log: Log, k: int, order: seq<int>): (r: seq<int>)
    requires 0 <= k < |log| && InTable(log, order)
    ensures InTable(log, r) && forall x :: x in r <==> x == k || x in order
  {
    if order == [] || log[k].startedAt <= log[order[0]].startedAt then [k] + order
    else
      var rest := InsertByStart(log, k, order[1..]);
      assert forall x :: x in order <==> x == order[0] || x in order[1..];
      [order[0]] + rest
  }

  lemma PutInFront(log: Log, k: int, rest: seq<int>)
    requires 0 <= k < |log| && InTable(log, rest) && Once(rest) && ByStart(log, rest) && k !in rest
    requires forall x :: x in rest ==> 0 <= x < |log| && log[k].startedAt <= log[x].startedAt
    ensures InTable(log, [k] + rest) && Once([k] + rest) && ByStart(log, [k] + rest)
  {
    assert forall i :: 0 <= i < |rest| ==> rest[i] in rest;
  }

  lemma {:induction false} InsertKeepsOrder(log: Log, k: int, order: seq<int>)
    requires 0 <= k < |log| && InTable(log, order) && Once(order) && ByStart(log, order) && k !in order
    ensures Once(InsertByStart(log, k, order)) && ByStart(log, InsertByStart(log, k, order))
  {
    if order == [] || log[k].startedAt <= log[order[0]].startedAt {
      PutInFront(log, k, order);
    } else {
      InsertKeepsOrder(log, k, order[1..]);
      assert order[0] !in order[1..];
      PutInFront(log, order[0], InsertByStart(log, k, order[1..]));
    }
  }

  function SortByStart(log: Log, rows: seq<int>): (order: seq<int>)
    requires InTable(log, rows)
    ensures InTable(log, order) && forall x :: x in order <==> x in rows
  {
    if rows == [] then [] else
    assert forall x :: x in rows <==> x == rows[0] || x in rows[1..];
    InsertByStart(log, rows[0], SortByStart(log, rows[1..]))
  }

  lemma {:induction false} SortIsOrdered(log: Log, rows: seq<int>)
    requires InTable(log, rows) && Once(rows)
    ensures Once(SortByStart(log, rows)) && ByStart(log, SortByStart(log, rows))
  {
    if rows != [] {
      SortIsOrdered(log, rows[1..]);
      InsertKeepsOrder(log, rows[0], SortByStart(log, rows[1..]));
    }
  }

  /** The answer that keeps rows of one second in table order. */
  function RangeQuery(log: Log, from: int, to: int, maxPoints: int): Log {
    if from > to then []
    else RowsAt(log, LastOf(SortByStart(log, OverlappingRows(log, from, to)), Limit(maxPoints)))
  }

  lemma RangeQueryIsAnAnswer(log: Log, from: int, to: int, maxPoints: int)
    ensures IsAnswer(log, from, to, maxPoints, RangeQuery(log, from, to, maxPoints))
  {
    var rows := OverlappingRows(log, from, to);
    SortIsOrdered(log, rows);
    assert Listing(log, from, to, SortByStart(log, rows));
  }

  /** Where the run of rows overlapping the window begins and ends. */
  ghost predicate OverlapRun(log: Log, from: int, to: int, a: int, b: int) {
    0 <= a <= b <= |log| && forall i :: 0 <= i < |log| ==> (Overlaps(log[i], from, to) <==> a <= i < b)
  }

  /** A lifetime that falls between one overlapping the window and a newest one that does too. */
  lemma BetweenOverlaps(log: Log, from: int, to: int, a: int, i: int, now: int)
    requires WellOrdered(log, now) && 0 <= a < i < |log| - 1
    requires Overlaps(log[a], from, to) && Overlaps(log[|log| - 1], from, to)
    ensures Overlaps(log[i], from, to)
  {
    StartsAreOrdered(log, now, i, |log| - 1);
    assert EndsBefore(log[a], log[i]) && Plausible(log[i], now);
  }

  /** In an ordered log the rows overlapping a window are consecutive. */
  lemma {:induction false} OverlapIsARun(log: Log, from: int, to: int, now: int) returns (a: int, b: int)
    requires WellOrdered(log, now) && from <= to
    ensures OverlapRun(log, from, to, a, b)
  {
    if log == [] {
      a, b := 0, 0;
    } else {
      var front := log[..|log| - 1];
      var last := log[|log| - 1];
      a, b := OverlapIsARun(front, from, to, now);
      if Overlaps(last, from, to) {
        if a == b {
          a := |front|;
        } else {
          forall i | a < i < |front| ensures Overlaps(front[i], from, to) {
            BetweenOverlaps(log, from, to, a, i, now);
          }
        }
        b := |log|;
      }
    }
  }

  function Without(rows: seq<int>, i: int): (others: seq<int>)
    requires 0 <= i < |rows|
    ensures |others| == |rows| - 1
    ensures forall x :: x in rows && x != rows[i] ==> x in others
  {
    assert rows == rows[..i] + [rows[i]] + rows[i + 1..];
    rows[..i] + rows[i + 1..]
  }

  lemma {:induction false} OnceWithin(rows: seq<int>, lo: int, hi: int)
    requires Once(rows) && lo <= hi && forall i :: 0 <= i < |rows| ==> lo <= rows[i] < hi
    ensures |rows| <= hi - lo
    decreases hi - lo
  {
    if rows != [] {
      assert lo <= rows[0] < hi;
      if i :| 0 <= i < |rows| && rows[i] == hi - 1 {
        OnceWithin(Without(rows, i), lo, hi - 1);
      } else {
        OnceWithin(rows, lo, hi - 1);
      }
    }
  }

  lemma {:induction false} CoversAll(rows: seq<int>, lo: int, hi: int)
    requires lo <= hi && forall k :: lo <= k < hi ==> k in rows
    ensures |rows| >= hi - lo
    decreases hi - lo
  {
    if lo < hi {
      var last := hi - 1;
      assert last in rows;
      var i :| 0 <= i < |rows| && rows[i] == last;
      CoversAll(Without(rows, i), lo, last);
    }
  }

  /** A listing of a run, and the table it lists. */
  ghost predicate ListsRun(log: Log, from: int, to: int, now: int, order: seq<int>, a: int, b: int) {
    WellOrdered(log, now) && Listing(log, from, to, order) && OverlapRun(log, from, to, a, b)
  }

  lemma ListingLength(log: Log, from: int, to: int, now: int, order: seq<int>, a: int, b: int)
    requires ListsRun(log, from, to, now, order, a, b)
    ensures |order| == b - a && forall i :: 0 <= i < |order| ==> a <= order[i] < b
  {
    forall i | 0 <= i < |order| ensures a <= order[i] < b {
      assert order[i] in order;
    }
    OnceWithin(order, a, b);
    CoversAll(order, a, b);
  }

  lemma LaterStartIsLaterRow(log: Log, now: int, i: int, j: int)
    requires WellOrdered(log, now) && 0 <= i < |log| && 0 <= j < |log|
    requires log[i].startedAt < log[j].startedAt
    ensures i < j
  {
    if j <= i {
      StartsAreOrdered(log, now, j, i);
    }
  }

  lemma StartsNoEarlier(log: Log, from: int, to: int, now: int, order: seq<int>, a: int, b: int, i: int)
    requires ListsRun(log, from, to, now, order, a, b) && |order| == b - a && 0 <= i < |order|
    requires forall j :: 0 <= j < |order| ==> a <= order[j] < b
    ensures log[order[i]].startedAt >= log[a + i].startedAt
  {
    if log[order[i]].startedAt < log[a + i].startedAt {
      var upTo := order[..i + 1];
      forall j | 0 <= j < |upTo| ensures a <= upTo[j] < a + i {
        assert log[upTo[j]].startedAt <= log[order[i]].startedAt;
        LaterStartIsLaterRow(log, now, upTo[j], a + i);
      }
      OnceWithin(upTo, a, a + i);
    }
  }

  lemma StartsNoLater(log: Log, from: int, to: int, now: int, order: seq<int>, a: int, b: int, i: int)
    requires ListsRun(log, from, to, now, order, a, b) && |order| == b - a && 0 <= i < |order|
    requires forall j :: 0 <= j < |order| ==> a <= order[j] < b
    ensures log[order[i]].startedAt <= log[a + i].startedAt
  {
    if log[order[i]].startedAt > log[a + i].startedAt {
      var onwards := order[i..];
      forall j | 0 <= j < |onwards| ensures a + i + 1 <= onwards[j] < b {
        assert onwards[j] == order[i + j] && log[order[i + j]].startedAt >= log[order[i]].startedAt;
        LaterStartIsLaterRow(log, now, a + i, onwards[j]);
      }
      OnceWithin(onwards, a + i + 1, b);
    }
  }

  /** Rows of the table from `a` to `b`, each once, at the instants of the rows from `first` on. */
  ghost predicate Shows(log: Log, a: int, first: int, b: int, shown: seq<int>)
    requires 0 <= a <= first <= b <= |log|
  {
    && |shown| == b - first && Once(shown)
    && (forall i :: 0 <= i < |shown| ==> a <= shown[i] < b)
    && (forall i :: 0 <= i < |shown| ==> log[shown[i]].startedAt == log[first + i].startedAt)
  }

  /** Every listing of the run starts at the instants of the table, one after the other. */
  lemma ListingStarts(log: Log, from: int, to: int, now: int, order: seq<int>, a: int, b: int)
    requires ListsRun(log, from, to, now, order, a, b)
    ensures Shows(log, a, a, b, order)
  {
    ListingLength(log, from, to, now, order, a, b);
    forall i | 0 <= i < |order| ensures log[order[i]].startedAt == log[a + i].startedAt {
      StartsNoEarlier(log, from, to, now, order, a, b, i);
      StartsNoLater(log, from, to, now, order, a, b, i);
    }
  }

  /** Where the newest `maxPoints` of the run begin. */
  function FirstShown(a: int, b: int, maxPoints: int): (first: int)
    requires a <= b
    ensures a <= first <= b
  {
    if b - a <= Limit(maxPoints) then a else b - Limit(maxPoints)
  }

  lemma LastOfShows(log: Log, a: int, b: int, maxPoints: int, order: seq<int>)
    requires 0 <= a <= b <= |log| && Shows(log, a, a, b, order)
    ensures Shows(log, a, FirstShown(a, b, maxPoints), b, LastOf(order, Limit(maxPoints)))
  {
    var first, shown := FirstShown(a, b, maxPoints), LastOf(order, Limit(maxPoints));
    forall i | 0 <= i < |shown| ensures a <= shown[i] < b && log[shown[i]].startedAt == log[first + i].startedAt {
      assert shown[i] == order[first - a + i];
    }
  }

  lemma AnswerOfRun(log: Log, from: int, to: int, maxPoints: int, now: int, out: Log, a: int, b: int)
      returns (shown: seq<int>)
    requires WellOrdered(log, now) && from <= to && IsAnswer(log, from, to, maxPoints, out)
    requires OverlapRun(log, from, to, a, b)
    ensures InTable(log, shown) && out == RowsAt(log, shown)
    ensures Shows(log, a, FirstShown(a, b, maxPoints), b, shown)
  {
    var order :| Listing(log, from, to, order) && out == RowsAt(log, LastOf(order, Limit(maxPoints)));
    ListingStarts(log, from, to, now, order, a, b);
    LastOfShows(log, a, b, maxPoints, order);
    shown := LastOf(order, Limit(maxPoints));
  }

  /** Any answer over any well-ordered log shows rows of the one consecutive run of lifetimes that
      overlap the window, unaltered, none twice, `maxPoints` of them or all; oldest first; and at
      the very instants of the newest of the run. */
  lemma AnswerIsNewestOfRun(log: Log, from: int, to: int, maxPoints: int, now: int, out: Log)
      returns (a: int, b: int, shown: seq<int>)
    requires WellOrdered(log, now) && from <= to && IsAnswer(log, from, to, maxPoints, out)
    ensures OverlapRun(log, from, to, a, b) && InTable(log, shown) && out == RowsAt(log, shown)
    ensures Shows(log, a, FirstShown(a, b, maxPoints), b, shown)
  {
    a, b := OverlapIsARun(log, from, to, now);
    shown := AnswerOfRun(log, from, to, maxPoints, now, out, a, b);
  }

  /** No two rows of the table from `a` to `b` start in one second. */
  ghost predicate StartsIncrease(log: Log, a: int, b: int)
    requires 0 <= a <= b <= |log|
  {
    forall i, j :: a <= i < j < b ==> log[i].startedAt < log[j].startedAt
  }

  lemma SameStartIsSameRow(log: Log, a: int, b: int, i: int, j: int)
    requires 0 <= a <= b <= |log| && StartsIncrease(log, a, b) && a <= i < b && a <= j < b
    requires log[i].startedAt == log[j].startedAt
    ensures i == j
  {
  }

  lemma ShownInPlace(log: Log, a: int, first: int, b: int, shown: seq<int>)
    requires 0 <= a <= first <= b <= |log| && StartsIncrease(log, a, b) && Shows(log, a, first, b, shown)
    ensures InTable(log, shown) && RowsAt(log, shown) == log[first..b]
  {
    forall i | 0 <= i < |shown| ensures shown[i] == first + i {
      SameStartIsSameRow(log, a, b, shown[i], first + i);
    }
  }

  /** The answer is as many rows as the newest `maxPoints` of the run, at their instants, and is
      those rows when no two of the run start in one second. */
  ghost predicate NewestOfRun(log: Log, a: int, b: int, maxPoints: int, out: Log)
    requires 0 <= a <= b <= |log|
  {
    var first := FirstShown(a, b, maxPoints);
    && |out| == b - first
    && (forall i :: 0 <= i < |out| ==> out[i] in log[a..b] && out[i].startedAt == log[first + i].startedAt)
    && (StartsIncrease(log, a, b) ==> out == log[first..b])
  }

  lemma AnswerIsNewest(log: Log, from: int, to: int, maxPoints: int, now: int, out: Log) returns (a: int, b: int)
    requires WellOrdered(log, now) && from <= to && IsAnswer(log, from, to, maxPoints, out)
    ensures OverlapRun(log, from, to, a, b) && NewestOfRun(log, a, b, maxPoints, out)
  {
    var shown;
    a, b, shown := AnswerIsNewestOfRun(log, from, to, maxPoints, now, out);
    if StartsIncrease(log, a, b) {
      ShownInPlace(log, a, FirstShown(a, b, maxPoints), b, shown);
    }
    forall i | 0 <= i < |out| ensures out[i] in log[a..b] {
      assert log[a..b][shown[i] - a] == out[i];
    }
  }

  /** `inc` is in the answer, or the answer is full of rows that start no earlier. */
  ghost predicate ShownOrCrowdedOut(out: Log, inc: Incarnation, maxPoints: int) {
    inc in out || (|out| == Limit(maxPoints) && forall i :: 0 <= i < |out| ==> inc.startedAt <= out[i].startedAt)
  }

  lemma ListedIsShown(log: Log, order: seq<int>, n: int, k: int)
    requires n >= 0 && InTable(log, order) && ByStart(log, order) && k in order
    ensures var shown := LastOf(order, n);
            || k in shown
            || (|shown| == n && forall i :: 0 <= i < n ==> log[k].startedAt <= log[shown[i]].startedAt)
  {
    var shown := LastOf(order, n);
    var i :| 0 <= i < |order| && order[i] == k;
    var first := |order| - |shown|;
    if i >= first {
      assert shown[i - first] == k;
    } else {
      forall j | 0 <= j < n ensures log[k].startedAt <= log[shown[j]].startedAt {
        assert shown[j] == order[first + j];
      }
    }
  }

  /** What the query is for: of any table, every tunnel up at any instant of the window is in the
      answer, unless that already holds `maxPoints` that started no earlier; and every row of the
      answer is a row of the table. */
  lemma AliveIsShown(log: Log, from: int, to: int, maxPoints: int, out: Log, k: int, t: int)
    requires from <= t <= to && IsAnswer(log, from, to, maxPoints, out)
    requires 0 <= k < |log| && AliveAt(log[k], t)
    ensures ShownOrCrowdedOut(out, log[k], maxPoints)
  {
    var order :| Listing(log, from, to, order) && out == RowsAt(log, LastOf(order, Limit(maxPoints)));
    var shown := LastOf(order, Limit(maxPoints));
    ListedIsShown(log, order, Limit(maxPoints), k);
    if k in shown {
      var i :| 0 <= i < |shown| && shown[i] == k;
      assert out[i] == log[k];
    }
  }

  /** And nothing else is: a row of the answer is a row of the table whose tunnel was up at some
      instant of the window. */
  lemma ShownWasAlive(log: Log, from: int, to: int, maxPoints: int, now: int, out: Log, i: int) returns (t: int)
    requires from <= to && IsAnswer(log, from, to, maxPoints, out) && 0 <= i < |out|
    requires forall k :: 0 <= k < |log| ==> Plausible(log[k], now)
    ensures out[i] in log && from <= t <= to && AliveAt(out[i], t)
  {
    var order :| Listing(log, from, to, order) && out == RowsAt(log, LastOf(order, Limit(maxPoints)));
    var k := LastOf(order, Limit(maxPoints))[i];
    assert k in order;
    OverlapsIff(log[k], from, to, now);
    t :| from <= t <= to && AliveAt(log[k], t);
  }
}
