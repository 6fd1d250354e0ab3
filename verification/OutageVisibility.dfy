/** From a recorded probe to the drawn strip, across the two layers of bucketing: the query of
    internal/store/history.go and the cells of web/js/host_history.js. An outage is never
    averaged away, and nothing but an outage is drawn as one. */
module OutageVisibility {
  import opened Bucketing
  import opened ServiceHealth
  import opened HostHistory

  /** How many cells later than its own an instant's bucket can be drawn. */
  function MaxShift(maxPoints: int, slots: int): (d: int)
    requires slots >= 1
    ensures d >= 1 && slots <= d * AtLeastOne(maxPoints)
    ensures maxPoints == slots ==> d == 1
  {
    var m := AtLeastOne(maxPoints);
    var d := (slots + m - 1) / m;
    DivisionBounds(slots + m - 1, m);
    MulMonotone(m, d, 0);
    assert m * (d + 1) == m * d + m;
    if maxPoints == slots then QuotientIs(slots + m - 1, m, 1); d else d
  }

  lemma QuotientShift(a: int, b: int, d: int, shift: int)
    requires d > 0 && a <= b <= a + d * shift
    ensures a / d <= b / d <= a / d + shift
  {
    QuotientMonotone(a, b, d);
    QuotientMonotone(b, a + d * shift, d);
    DivisionBounds(a, d);
    assert d * (a / d + shift) == d * (a / d) + d * shift;
    QuotientIs(a + d * shift, d, a / d + shift);
  }

  lemma BucketIsAShareOfWindow(gap: int, from: int, to: int, maxPoints: int)
    requires from < to && gap < WindowWidth(from, to, maxPoints)
    ensures AtLeastOne(maxPoints) * gap <= to - from
  {
    var m, width := AtLeastOne(maxPoints), WindowWidth(from, to, maxPoints);
    MulMonotone(m, gap, width - 1);
    assert width == 1 ==> m * (width - 1) == 0;
  }

  lemma ScaleGap(gap: int, slots: int, m: int, d: int, span: int)
    requires 0 <= gap && slots <= d * m && m * gap <= span && d >= 0
    ensures gap * slots <= span * d
  {
    MulMonotone(gap, slots, d * m);
    assert gap * (d * m) == d * (m * gap);
    MulMonotone(d, m * gap, span);
  }

  lemma ScaledShift(a: int, b: int, slots: int, span: int, d: int)
    requires 0 <= a <= b && span > 0 && slots >= 1 && (b - a) * slots <= span * d
    ensures a * slots / span <= b * slots / span <= a * slots / span + d
  {
    assert b * slots == a * slots + (b - a) * slots;
    MulMonotone(slots, 0, b - a);
    QuotientShift(a * slots, b * slots, span, d);
  }

  /** The arithmetic between the layers: inside one bucket an instant and the newest reading
      are at most `MaxShift` cells apart. */
  lemma BucketSpansFewCells(t: int, ts: int, from: int, to: int, maxPoints: int, slots: int)
    requires from <= t <= ts <= to && from < to && slots >= 1
    requires ts - t < WindowWidth(from, to, maxPoints)
    ensures CellOf(t, from, to, slots) <= CellOf(ts, from, to, slots)
         <= CellOf(t, from, to, slots) + MaxShift(maxPoints, slots)
  {
    var d := MaxShift(maxPoints, slots);
    BucketIsAShareOfWindow(ts - t, from, to, maxPoints);
    ScaleGap(ts - t, slots, AtLeastOne(maxPoints), d, to - from);
    ScaledShift(t - from, ts - from, slots, to - from, d);
  }

  ghost predicate DrawnFrom(table: seq<HealthRow>, id: string, from: int, to: int, maxPoints: int, slots: int,
                            strip: seq<string>)
  {
    IsStrip(Series(table, id, from, to, maxPoints), from, to, slots, strip)
  }

  /** The instant lies in cell `k` or in one of the `shift` cells before it. */
  ghost predicate InOrBefore(t: int, k: int, shift: int, from: int, to: int, slots: int) {
    exists j :: k - shift <= j <= k && InCell(t, j, from, to, slots)
  }

  /** With as many points as cells, that is cell `k` or the one before it. */
  lemma OwnCellOrNext(t: int, k: int, maxPoints: int, from: int, to: int, slots: int)
    requires slots >= 1 && maxPoints == slots && InOrBefore(t, k, MaxShift(maxPoints, slots), from, to, slots)
    ensures InCell(t, k, from, to, slots) || InCell(t, k - 1, from, to, slots)
  {
  }

  /** A reading falls in the cell of an instant of its bucket or at most `MaxShift` cells later. */
  lemma ReadingIsNear(t: int, ts: int, k: int, from: int, to: int, maxPoints: int, slots: int)
    requires from <= t <= ts <= to && from < to && slots >= 1 && InCell(ts, k, from, to, slots)
    requires ts - t < WindowWidth(from, to, maxPoints)
    ensures InOrBefore(t, k, MaxShift(maxPoints, slots), from, to, slots)
  {
    CellOfIff(ts, k, from, to, slots);
    CellOfIsInCell(t, from, to, slots);
    BucketSpansFewCells(t, ts, from, to, maxPoints, slots);
  }

  /** A recorded outage makes a down cell, its own or at most `MaxShift` cells later: with as many
      points as cells, the cell whose part of the window holds it or the next one. */
  lemma OutageIsVisible(table: seq<HealthRow>, id: string, t: int, from: int, to: int, maxPoints: int, slots: int,
                        strip: seq<string>) returns (k: int)
    requires from < to && slots >= 1
    requires DrawnFrom(table, id, from, to, maxPoints, slots, strip)
    requires IsOutage(table, id, t, from, to)
    ensures 0 <= k < |strip| && strip[k] == SEG_DOWN
    ensures InOrBefore(t, k, MaxShift(maxPoints, slots), from, to, slots)
    ensures maxPoints == slots ==> InCell(t, k, from, to, slots) || InCell(t, k - 1, from, to, slots)
  {
    var series := Series(table, id, from, to, maxPoints);
    var i := OutageMakesADownPoint(table, id, t, from, to, maxPoints);
    k := CellOf(series[i].ts, from, to, slots);
    CellOfIsInCell(series[i].ts, from, to, slots);
    assert Lands(series, i, from, to, slots, k);
    CellMeaning(series, from, to, slots, strip, k);
    ReadingIsNear(t, series[i].ts, k, from, to, maxPoints, slots);
    if maxPoints == slots {
      OwnCellOrNext(t, k, maxPoints, from, to, slots);
    }
  }

  /** Every down cell is the trace of a recorded outage of that very service, from the same
      cell or at most `MaxShift` cells earlier. */
  lemma DownCellIsAnOutage(table: seq<HealthRow>, id: string, from: int, to: int, maxPoints: int, slots: int,
                           strip: seq<string>, k: int) returns (t: int)
    requires from < to && slots >= 1 && 0 <= k < slots
    requires DrawnFrom(table, id, from, to, maxPoints, slots, strip)
    requires strip[k] == SEG_DOWN
    ensures IsOutage(table, id, t, from, to)
    ensures InOrBefore(t, k, MaxShift(maxPoints, slots), from, to, slots)
    ensures maxPoints == slots ==> InCell(t, k, from, to, slots) || InCell(t, k - 1, from, to, slots)
  {
    var series := Series(table, id, from, to, maxPoints);
    CellMeaning(series, from, to, slots, strip, k);
    var i :| Lands(series, i, from, to, slots, k) && series[i].status == SEG_DOWN;
    t := DownPointHasAnOutage(table, id, from, to, maxPoints, i);
    SeriesIsBoundedAndOrdered(table, id, from, to, maxPoints);
    ReadingIsNear(t, series[i].ts, k, from, to, maxPoints, slots);
    if maxPoints == slots {
      OwnCellOrNext(t, k, maxPoints, from, to, slots);
    }
  }

  /** A strip is free of down cells exactly when no outage was recorded in its window, so the
      percentage of a strip is 100 only when that service was never down. */
  lemma NoDownCellIffNoOutage(table: seq<HealthRow>, id: string, from: int, to: int, maxPoints: int, slots: int,
                              strip: seq<string>)
    requires from < to && slots >= 1
    requires DrawnFrom(table, id, from, to, maxPoints, slots, strip)
    ensures SEG_DOWN in strip <==> exists t :: IsOutage(table, id, t, from, to)
  {
    if t :| IsOutage(table, id, t, from, to) {
      var k := OutageIsVisible(table, id, t, from, to, maxPoints, slots, strip);
    }
    if k :| 0 <= k < |strip| && strip[k] == SEG_DOWN {
      var t := DownCellIsAnOutage(table, id, from, to, maxPoints, slots, strip, k);
    }
  }

  /** Silence is never drawn as health: an up cell holds a recorded probe of the service. */
  lemma UpCellHasAProbe(table: seq<HealthRow>, id: string, from: int, to: int, maxPoints: int, slots: int,
                        strip: seq<string>, k: int) returns (t: int)
    requires from < to && slots >= 1 && 0 <= k < slots
    requires DrawnFrom(table, id, from, to, maxPoints, slots, strip)
    requires strip[k] == SEG_UP
    ensures InCell(t, k, from, to, slots)
    ensures exists status :: Row(t, Probe(id, status)) in table
  {
    var series := Series(table, id, from, to, maxPoints);
    CellMeaning(series, from, to, slots, strip, k);
    var i :| Lands(series, i, from, to, slots, k) && series[i].status == SEG_UP;
    SeriesIsBoundedAndOrdered(table, id, from, to, maxPoints);
    t := series[i].ts;
  }

  /** The status line of one service: load its series, lay it out, sum it up. A 100% figure
      is a promise about every recorded row of the window, whatever the two bucket sizes. */
  method AvailabilityPercent(table: seq<HealthRow>, id: string, from: int, to: int, maxPoints: int, slots: int)
      returns (summary: Summary)
    requires from < to && slots >= 1
    ensures summary.percent.Some? && summary.percent.value == 100.0 ==>
              forall t :: !IsOutage(table, id, t, from, to)
    ensures (exists t :: IsOutage(table, id, t, from, to)) ==>
              summary.down >= 1 && summary.percent.Some? && summary.percent.value < 100.0
  {
    var strip := AvailabilityStrip(Series(table, id, from, to, maxPoints), from, to, slots);
    summary := AvailabilitySummary(strip);
    NoDownCellIffNoOutage(table, id, from, to, maxPoints, slots, strip);
  }
}
