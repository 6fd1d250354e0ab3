/** web/js/host_history.js: laying recorded probes over a strip of cells, summing the strip
    up, and clipping a tunnel lifetime to a window. The JavaScript fractions are exact here. */
module HostHistory {
  import opened Wrappers
  import opened Bucketing
  import opened ServiceHealth
  import opened IncarnationLog
  import opened IncarnationRange

  const SEG_UP := STATUS_UP
  const SEG_DOWN := STATUS_DOWN
  const SEG_UNKNOWN := STATUS_UNKNOWN

  function Min(a: int, b: int): int {
    if a <= b then a else b
  }

  /** The cell an instant of the window belongs to; the last instant is in the last cell. */
  function CellOf(ts: int, from: int, to: int, slots: int): (cell: int)
    requires from <= ts <= to && from < to && slots >= 1
    ensures 0 <= cell < slots
  {
    assert (ts - from) * slots >= 0;
    Min(slots - 1, (ts - from) * slots / (to - from))
  }

  /** Cell `k` is the `k`th of `slots` equal parts of the window and holds its left edge; the last
      part holds the right edge of the window too. */
  predicate InCell(ts: int, k: int, from: int, to: int, slots: int) {
    && from <= ts <= to && 0 <= k < slots
    && k * (to - from) <= (ts - from) * slots
    && if ts == to then k == slots - 1 else (ts - from) * slots < (k + 1) * (to - from)
  }

  lemma CellsAreDisjoint(ts: int, j: int, k: int, from: int, to: int, slots: int)
    requires InCell(ts, j, from, to, slots) && InCell(ts, k, from, to, slots) && from < to
    ensures j == k
  {
    if j < k {
      MulMonotone(to - from, j + 1, k);
    } else if k < j {
      MulMonotone(to - from, k + 1, j);
    }
  }

  lemma CellOfIsInCell(ts: int, from: int, to: int, slots: int)
    requires from <= ts <= to && from < to && slots >= 1
    ensures InCell(ts, CellOf(ts, from, to, slots), from, to, slots)
  {
    var span, scaled := to - from, (ts - from) * slots;
    DivisionBounds(scaled, span);
    assert span * (scaled / span) == scaled / span * span;
    assert span * (scaled / span + 1) == (scaled / span + 1) * span;
    MulMonotone(slots, ts - from, span);
    assert ts < to ==> scaled < slots * span by {
      if ts < to {
        MulMonotone(slots, ts - from, span - 1);
        assert slots * (span - 1) == slots * span - slots;
      }
    }
    if slots <= scaled / span {
      MulMonotone(span, slots, scaled / span);
    }
    if ts == to {
      QuotientIs(scaled, span, slots);
    }
    assert (slots - 1) * span == slots * span - span;
  }

  /** The number computed is that of the one cell that holds the instant. */
  lemma CellOfIff(ts: int, k: int, from: int, to: int, slots: int)
    requires from <= ts <= to && from < to && slots >= 1
    ensures CellOf(ts, from, to, slots) == k <==> InCell(ts, k, from, to, slots)
  {
    CellOfIsInCell(ts, from, to, slots);
    if InCell(ts, k, from, to, slots) {
      CellsAreDisjoint(ts, CellOf(ts, from, to, slots), k, from, to, slots);
    }
  }

  /** Point `i` of the series falls in cell `k`. */
  predicate Lands(series: seq<ServiceHealthPoint>, i: int, from: int, to: int, slots: int, k: int) {
    0 <= i < |series| && InCell(series[i].ts, k, from, to, slots)
  }

  /** `state` is the most severe status that landed in cell `k`, the earliest such in the
      series, or None when nothing landed there. */
  ghost predicate WorstOfCell(series: seq<ServiceHealthPoint>, from: int, to: int, slots: int, k: int,
                              state: Option<string>)
    requires from < to && slots >= 1
  {
    match state
    case None => forall i :: !Lands(series, i, from, to, slots, k)
    case Some(status) =>
      exists i :: Lands(series, i, from, to, slots, k) && series[i].status == status
        && forall j :: Lands(series, j, from, to, slots, k) ==>
             Rank(series[j].status) <= Rank(status) && (j < i ==> Rank(series[j].status) < Rank(status))
  }

  function Shown(state: Option<string>): string {
    match state
    case None => SEG_UNKNOWN
    case Some(status) => status
  }

  /** Cell `k` shows the worst of what landed in it. */
  ghost predicate ShowsWorst(series: seq<ServiceHealthPoint>, from: int, to: int, slots: int, k: int, shown: string)
    requires from < to && slots >= 1
  {
    exists state :: WorstOfCell(series, from, to, slots, k, state) && shown == Shown(state)
  }

  /** The strip a series must be drawn as. */
  ghost predicate IsStrip(series: seq<ServiceHealthPoint>, from: int, to: int, slots: int, strip: seq<string>) {
    && |strip| == (if slots < 0 then 0 else slots)
    && forall k :: 0 <= k < |strip| ==>
         if series == [] || to <= from then strip[k] == SEG_UNKNOWN
         else ShowsWorst(series, from, to, slots, k, strip[k])
  }

  lemma WorstUnchanged(series: seq<ServiceHealthPoint>, n: int, from: int, to: int, slots: int, k: int,
                       state: Option<string>)
    requires from < to && slots >= 1 && 0 <= n < |series|
    requires WorstOfCell(series[..n], from, to, slots, k, state)
    requires !Lands(series, n, from, to, slots, k)
             || (state.Some? && Rank(series[n].status) <= Rank(state.value))
    ensures WorstOfCell(series[..n + 1], from, to, slots, k, state)
  {
    var before, after := series[..n], series[..n + 1];
    assert forall i :: Lands(after, i, from, to, slots, k)
                   <==> Lands(before, i, from, to, slots, k) || (i == n && Lands(series, n, from, to, slots, k));
    if state.Some? {
      var i :| Lands(before, i, from, to, slots, k) && before[i].status == state.value
        && forall j :: Lands(before, j, from, to, slots, k) ==>
             Rank(before[j].status) <= Rank(state.value) && (j < i ==> Rank(before[j].status) < Rank(state.value));
      assert Lands(after, i, from, to, slots, k) && after[i].status == state.value;
      forall j | Lands(after, j, from, to, slots, k)
        ensures Rank(after[j].status) <= Rank(state.value) && (j < i ==> Rank(after[j].status) < Rank(state.value))
      {
        if j < n {
          assert after[j] == before[j];
        }
      }
    }
  }

  lemma WorstReplaced(series: seq<ServiceHealthPoint>, n: int, from: int, to: int, slots: int, k: int,
                      state: Option<string>)
    requires from < to && slots >= 1 && 0 <= n < |series|
    requires WorstOfCell(series[..n], from, to, slots, k, state)
    requires Lands(series, n, from, to, slots, k)
    requires state.None? || Rank(series[n].status) > Rank(state.value)
    ensures WorstOfCell(series[..n + 1], from, to, slots, k, Some(series[n].status))
  {
    var before, after := series[..n], series[..n + 1];
    var status := series[n].status;
    assert Lands(after, n, from, to, slots, k) && after[n].status == status;
    forall j | Lands(after, j, from, to, slots, k)
      ensures Rank(after[j].status) <= Rank(status) && (j < n ==> Rank(after[j].status) < Rank(status))
    {
      if j < n {
        assert Lands(before, j, from, to, slots, k) && after[j] == before[j];
      }
    }
  }

  /** The cells after the first `n` points of the series. */
  ghost predicate CellsAfter(series: seq<ServiceHealthPoint>, n: int, from: int, to: int, slots: int,
                             cells: seq<Option<string>>)
    requires from < to && slots >= 1 && 0 <= n <= |series|
  {
    |cells| == slots && forall k :: 0 <= k < slots ==> WorstOfCell(series[..n], from, to, slots, k, cells[k])
  }

  lemma SkipPoint(series: seq<ServiceHealthPoint>, n: int, from: int, to: int, slots: int, cells: seq<Option<string>>)
    requires from < to && slots >= 1 && 0 <= n < |series| && CellsAfter(series, n, from, to, slots, cells)
    requires series[n].ts < from || series[n].ts > to
    ensures CellsAfter(series, n + 1, from, to, slots, cells)
  {
    forall k | 0 <= k < slots ensures WorstOfCell(series[..n + 1], from, to, slots, k, cells[k]) {
      WorstUnchanged(series, n, from, to, slots, k, cells[k]);
    }
  }

  function Worse(status: string, cell: Option<string>): Option<string> {
    if cell.None? || Rank(status) > Rank(cell.value) then Some(status) else cell
  }

  lemma PlacePoint(series: seq<ServiceHealthPoint>, n: int, from: int, to: int, slots: int, cells: seq<Option<string>>,
                   idx: int)
    requires from < to && slots >= 1 && 0 <= n < |series| && CellsAfter(series, n, from, to, slots, cells)
    requires InCell(series[n].ts, idx, from, to, slots)
    ensures CellsAfter(series, n + 1, from, to, slots, cells[idx := Worse(series[n].status, cells[idx])])
  {
    forall k | 0 <= k < slots && k != idx ensures WorstOfCell(series[..n + 1], from, to, slots, k, cells[k]) {
      if Lands(series, n, from, to, slots, k) {
        CellsAreDisjoint(series[n].ts, idx, k, from, to, slots);
      }
      WorstUnchanged(series, n, from, to, slots, k, cells[k]);
    }
    if Worse(series[n].status, cells[idx]) == cells[idx] && cells[idx].Some? {
      WorstUnchanged(series, n, from, to, slots, idx, cells[idx]);
    } else {
      WorstReplaced(series, n, from, to, slots, idx, cells[idx]);
    }
  }

  lemma CellsMakeTheStrip(series: seq<ServiceHealthPoint>, from: int, to: int, slots: int,
                          cells: seq<Option<string>>, strip: seq<string>)
    requires from < to && slots >= 1 && series != [] && CellsAfter(series, |series|, from, to, slots, cells)
    requires |strip| == slots && forall k :: 0 <= k < slots ==> strip[k] == Shown(cells[k])
    ensures IsStrip(series, from, to, slots, strip)
  {
    assert series[..|series|] == series;
    forall k | 0 <= k < slots ensures ShowsWorst(series, from, to, slots, k, strip[k]) {
      assert WorstOfCell(series, from, to, slots, k, cells[k]);
    }
  }

  /** The worse of what a cell shows and a status that lands in it stays. */
  method Place(cells: array<Option<string>>, idx: int, status: string)
    requires 0 <= idx < cells.Length
    modifies cells
    ensures cells[..] == old(cells[..])[idx := Worse(status, old(cells[idx]))]
  {
    if cells[idx].None? || Rank(status) > Rank(cells[idx].value) {
      cells[idx] := Some(status);
    }
  }

  method ShowAll(cells: array<Option<string>>) returns (strip: seq<string>)
    ensures |strip| == cells.Length && forall k :: 0 <= k < |strip| ==> strip[k] == Shown(cells[k])
  {
    strip := [];
    for k := 0 to cells.Length
      invariant |strip| == k && forall c :: 0 <= c < k ==> strip[c] == Shown(cells[c])
    {
      strip := strip + [Shown(cells[k])];
    }
  }

  method AvailabilityStrip(series: seq<ServiceHealthPoint>, fromUnix: int, toUnix: int, slots: int)
      returns (strip: seq<string>)
    ensures IsStrip(series, fromUnix, toUnix, slots, strip)
  {
    if series == [] || slots <= 0 {
      return seq(if slots < 0 then 0 else slots, _ => SEG_UNKNOWN);
    }
    var span := toUnix - fromUnix;
    if span <= 0 {
      return seq(slots, _ => SEG_UNKNOWN);
    }

    var cells := new Option<string>[slots](_ => None);
    for n := 0 to |series|
      invariant CellsAfter(series, n, fromUnix, toUnix, slots, cells[..])
    {
      var point := series[n];
      if point.ts < fromUnix || point.ts > toUnix {
        SkipPoint(series, n, fromUnix, toUnix, slots, cells[..]);
      } else {
        var idx := Min(slots - 1, (point.ts - fromUnix) * slots / span);
        CellOfIsInCell(point.ts, fromUnix, toUnix, slots);
        PlacePoint(series, n, fromUnix, toUnix, slots, cells[..], idx);
        Place(cells, idx, point.status);
      }
    }
    strip := ShowAll(cells);
    CellsMakeTheStrip(series, fromUnix, toUnix, slots, cells[..], strip);
  }

  /** A cell is drawn down exactly when a down point falls in it, and up only when every point
      in it is healthy and there is one. */
  lemma CellMeaning(series: seq<ServiceHealthPoint>, from: int, to: int, slots: int, strip: seq<string>, k: int)
    requires IsStrip(series, from, to, slots, strip) && from < to && 0 <= k < slots
    ensures strip[k] == SEG_DOWN
       <==> exists i :: Lands(series, i, from, to, slots, k) && series[i].status == SEG_DOWN
    ensures strip[k] == SEG_UP ==>
              && (exists i :: Lands(series, i, from, to, slots, k) && series[i].status == SEG_UP)
              && (forall i :: Lands(series, i, from, to, slots, k) ==> Rank(series[i].status) == RANK_UP)
    ensures strip[k] == SEG_UNKNOWN || exists i :: Lands(series, i, from, to, slots, k) && series[i].status == strip[k]
  {
    if series != [] {
      assert ShowsWorst(series, from, to, slots, k, strip[k]);
      var state :| WorstOfCell(series, from, to, slots, k, state) && strip[k] == Shown(state);
    }
  }

  datatype Summary = Summary(up: int, down: int, unknown: int, known: int, percent: Option<real>)

  function Count(strip: seq<string>, state: string): (n: nat)
    ensures n > 0 <==> state in strip
    ensures n <= |strip|
  {
    if strip == [] then 0
    else Count(strip[..|strip| - 1], state) + (if strip[|strip| - 1] == state then 1 else 0)
  }

  /** The percentage shown for `up` of `known` cells; none when nothing is known. */
  ghost predicate IsShare(percent: Option<real>, up: nat, known: nat) {
    match percent
    case None => known == 0
    case Some(share) =>
      && known > 0 && share * known as real == 100.0 * up as real && 0.0 <= share <= 100.0
      && (share == 100.0 <==> up == known) && (share == 0.0 <==> up == 0)
  }

  lemma ShareOfKnown(up: nat, known: nat)
    requires up <= known && known > 0
    ensures IsShare(Some(up as real / known as real * 100.0), up, known)
  {
    var share := up as real / known as real;
    assert share * known as real == up as real;
    assert up < known ==> share < 1.0;
  }

  method AvailabilitySummary(strip: seq<string>) returns (out: Summary)
    ensures out.up == Count(strip, SEG_UP) && out.down == Count(strip, SEG_DOWN)
    ensures out.known == out.up + out.down && out.known + out.unknown == |strip|
    ensures out.up >= 0 && out.down >= 0 && IsShare(out.percent, out.up, out.known)
    ensures out.percent.None? <==> SEG_UP !in strip && SEG_DOWN !in strip
    ensures out.percent == Some(100.0) <==> SEG_UP in strip && SEG_DOWN !in strip
    ensures out.percent == Some(0.0) <==> SEG_UP !in strip && SEG_DOWN in strip
  {
    var up, down, unknown, known := 0, 0, 0, 0;
    for i := 0 to |strip|
      invariant up == Count(strip[..i], SEG_UP) && down == Count(strip[..i], SEG_DOWN)
      invariant known == up + down && known + unknown == i
    {
      var s := strip[i];
      assert strip[..i + 1][..i] == strip[..i];
      if s == SEG_UP {
        up, known := up + 1, known + 1;
      } else if s == SEG_DOWN {
        down, known := down + 1, known + 1;
      } else {
        unknown := unknown + 1;
      }
    }
    assert strip[..|strip|] == strip;
    var percent := None;
    if known > 0 {
      ShareOfKnown(up, known);
      percent := Some(up as real / known as real * 100.0);
    }
    out := Summary(up, down, unknown, known, percent);
  }

  datatype Span = Span(start: real, end: real, current: bool)

  lemma AtLeastWhole(a: real, d: real)
    requires d > 0.0 && a >= d
    ensures a / d >= 1.0
  {
    var x := a / d;
    assert x * d == a;
    assert (x - 1.0) * d >= 0.0;
  }

  /** How far into the window an instant lies, kept within the drawing. */
  function Fraction(v: int, from: int, to: int): (f: real)
    requires from < to
    ensures 0.0 <= f <= 1.0
    ensures from <= v <= to ==> f * (to - from) as real == (v - from) as real
    ensures (v <= from ==> f == 0.0) && (v >= to ==> f == 1.0)
  {
    var f := (v - from) as real / (to - from) as real;
    assert v >= to ==> f >= 1.0 by {
      if v >= to {
        AtLeastWhole((v - from) as real, (to - from) as real);
      }
    }
    if f > 1.0 then 1.0 else if f < 0.0 then 0.0 else f
  }

  lemma QuotientIsMonotone(a: real, b: real, d: real)
    requires d > 0.0 && a <= b
    ensures a / d <= b / d
  {
    var x, y := a / d, b / d;
    assert x * d == a && y * d == b;
    assert (y - x) * d >= 0.0;
  }

  lemma FractionMonotone(v: int, w: int, from: int, to: int)
    requires from < to && v <= w
    ensures Fraction(v, from, to) <= Fraction(w, from, to)
  {
    QuotientIsMonotone((v - from) as real, (w - from) as real, (to - from) as real);
  }

  function EndOf(inc: Incarnation, to: int): int {
    if inc.endedAt.Some? then inc.endedAt.value else to
  }

  function IncarnationSpan(inc: Incarnation, from: int, to: int): Option<Span> {
    if to <= from then None else
    var start := inc.startedAt;
    var end := EndOf(inc, to);
    if end < from || start > to then None
    else Some(Span(Fraction(start, from, to), Fraction(end, from, to), inc.endedAt.None?))
  }

  lemma FactorMonotone(x: real, y: real, d: real)
    requires d > 0.0 && x <= y
    ensures x * d <= y * d
  {
    assert (y - x) * d >= 0.0;
  }

  lemma FactorIsStrict(x: real, y: real, d: real, a: real, b: real)
    requires d > 0.0 && x * d == a && y * d == b && a < b
    ensures x < y
  {
    if y <= x {
      FactorMonotone(y, x, d);
    }
  }

  lemma FractionIsStrict(v: int, w: int, from: int, to: int)
    requires from <= v < w <= to
    ensures Fraction(v, from, to) < Fraction(w, from, to)
  {
    var d, x, y := (to - from) as real, Fraction(v, from, to), Fraction(w, from, to);
    assert x * d == (v - from) as real;
    assert y * d == (w - from) as real;
    FactorIsStrict(x, y, d, (v - from) as real, (w - from) as real);
  }

  /** A lifetime has a bar exactly when the tunnel was up at some instant of the window, and its bar
      covers exactly the instants of the window at which it was. */
  lemma BarCoversLifetime(inc: Incarnation, now: int, from: int, to: int, t: int)
    requires Plausible(inc, now) && from < to && from <= t <= to
    ensures IncarnationSpan(inc, from, to).Some? <==> exists u :: from <= u <= to && AliveAt(inc, u)
    ensures var bar := IncarnationSpan(inc, from, to);
            AliveAt(inc, t) <==> bar.Some? && bar.value.start <= Fraction(t, from, to) <= bar.value.end
  {
    OverlapsIff(inc, from, to, now);
    assert IncarnationSpan(inc, from, to).Some? <==> Overlaps(inc, from, to);
    if Overlaps(inc, from, to) {
      if inc.startedAt <= t {
        FractionMonotone(inc.startedAt, t, from, to);
      } else {
        FractionIsStrict(t, inc.startedAt, from, to);
      }
      if t <= EndOf(inc, to) {
        FractionMonotone(t, EndOf(inc, to), from, to);
      } else {
        FractionIsStrict(EndOf(inc, to), t, from, to);
      }
    }
  }

  /** Row `i` of the answer has a bar, drawn left to right; a current one reaches the right edge,
      and no row starts after it. */
  ghost predicate IsDrawn(shown: Log, i: int, from: int, to: int)
    requires 0 <= i < |shown|
  {
    var s := IncarnationSpan(shown[i], from, to);
    && s.Some? && s.value.start <= s.value.end
    && (s.value.current ==>
          s.value.end == 1.0 && forall j :: 0 <= j < |shown| ==> shown[j].startedAt <= shown[i].startedAt)
  }

  /** The bar of `a` is over before the bar of `b` begins. */
  predicate LeftOf(a: Option<Span>, b: Option<Span>) {
    a.Some? && b.Some? && a.value.end <= b.value.start
  }

  ghost predicate NonCrossing(shown: Log, from: int, to: int) {
    forall i, j :: 0 <= i < j < |shown| ==>
      LeftOf(IncarnationSpan(shown[i], from, to), IncarnationSpan(shown[j], from, to))
  }

  predicate HasWidth(inc: Incarnation, from: int, to: int) {
    var s := IncarnationSpan(inc, from, to);
    s.Some? && s.value.start < s.value.end
  }

  /** Rows of a well-ordered log overlapping the window. */
  ghost predicate InWindow(log: Log, now: int, from: int, to: int, p: int, q: int) {
    && WellOrdered(log, now) && from < to && 0 <= p < |log| && 0 <= q < |log|
    && Overlaps(log[p], from, to) && Overlaps(log[q], from, to)
  }

  lemma BarOfRow(log: Log, now: int, from: int, to: int, p: int)
    requires InWindow(log, now, from, to, p, p)
    ensures var s := IncarnationSpan(log[p], from, to);
            && s.Some? && s.value.start <= s.value.end
            && (s.value.current <==> log[p].endedAt.None?) && (s.value.current ==> s.value.end == 1.0)
  {
    assert Plausible(log[p], now);
    FractionMonotone(log[p].startedAt, EndOf(log[p], to), from, to);
    assert Fraction(to, from, to) == 1.0;
  }

  /** A row has no width when a newer one starts in the same second, and is left of any newer one. */
  lemma OlderRowIsLeft(log: Log, now: int, from: int, to: int, p: int, q: int)
    requires InWindow(log, now, from, to, p, q) && p < q
    ensures LeftOf(IncarnationSpan(log[p], from, to), IncarnationSpan(log[q], from, to))
    ensures log[p].startedAt == log[q].startedAt ==> !HasWidth(log[p], from, to)
  {
    assert EndsBefore(log[p], log[q]);
    BarOfRow(log, now, from, to, p);
    BarOfRow(log, now, from, to, q);
    FractionMonotone(log[p].endedAt.value, log[q].startedAt, from, to);
  }

  lemma OpenRowIsLast(log: Log, now: int, p: int)
    requires WellOrdered(log, now) && 0 <= p < |log|
    ensures log[p].endedAt.None? ==>
              p == |log| - 1 && forall q :: 0 <= q < |log| ==> log[q].startedAt <= log[p].startedAt
  {
    if log[p].endedAt.None? {
      assert p < |log| - 1 ==> EndsBefore(log[p], log[|log| - 1]);
      forall q | 0 <= q < |log| ensures log[q].startedAt <= log[p].startedAt {
        StartsAreOrdered(log, now, q, p);
      }
    }
  }

  /** Row `a` starts no later than row `b`, in the table and on the drawing, and one of them has ended. */
  ghost predicate DrawnBefore(a: Incarnation, b: Incarnation, from: int, to: int)
    requires from < to
  {
    && a.startedAt <= b.startedAt && Fraction(a.startedAt, from, to) <= Fraction(b.startedAt, from, to)
    && (a.endedAt.Some? || b.endedAt.Some?)
  }

  lemma ShownPair(log: Log, now: int, from: int, to: int, a: int, first: int, b: int, shown: seq<int>, i: int, j: int)
    requires WellOrdered(log, now) && from < to && 0 <= a <= first <= b <= |log| && Shows(log, a, first, b, shown)
    requires 0 <= i < j < |shown|
    ensures DrawnBefore(log[shown[i]], log[shown[j]], from, to)
  {
    StartsAreOrdered(log, now, first + i, first + j);
    OpenRowIsLast(log, now, shown[i]);
    OpenRowIsLast(log, now, shown[j]);
    FractionMonotone(log[shown[i]].startedAt, log[shown[j]].startedAt, from, to);
  }

  lemma ShownRow(log: Log, now: int, from: int, to: int, shown: seq<int>, i: int)
    requires InTable(log, shown) && 0 <= i < |shown| && InWindow(log, now, from, to, shown[i], shown[i])
    ensures IsDrawn(RowsAt(log, shown), i, from, to)
  {
    BarOfRow(log, now, from, to, shown[i]);
    OpenRowIsLast(log, now, shown[i]);
  }

  /** Every lifetime any answer returns is drawn; their left edges are ordered; and at most one is
      current, of those that start last. */
  lemma AnswerIsDrawn(log: Log, from: int, to: int, maxPoints: int, now: int, out: Log)
    requires WellOrdered(log, now) && from < to && IsAnswer(log, from, to, maxPoints, out)
    ensures forall i :: 0 <= i < |out| ==> IsDrawn(out, i, from, to)
    ensures forall i, j :: 0 <= i < j < |out| ==> DrawnBefore(out[i], out[j], from, to)
  {
    var a, b, shown := AnswerIsNewestOfRun(log, from, to, maxPoints, now, out);
    forall i, j | 0 <= i < j < |out| ensures DrawnBefore(out[i], out[j], from, to) {
      ShownPair(log, now, from, to, a, FirstShown(a, b, maxPoints), b, shown, i, j);
    }
    forall i | 0 <= i < |out| ensures IsDrawn(out, i, from, to) {
      ShownRow(log, now, from, to, shown, i);
    }
  }

  /** Row `p` starts in the second of the row before it. */
  predicate SharesSecond(log: Log, p: int) {
    0 < p < |log| && log[p - 1].startedAt == log[p].startedAt
  }

  /** A row that is drawn and shares its second with the row before it, both among those shown. */
  ghost predicate WideTie(log: Log, from: int, to: int, first: int, b: int, p: int) {
    first < p < b && SharesSecond(log, p) && HasWidth(log[p], from, to)
  }

  /** In any answer two bars can only cross where the wider row of such a tie is listed first. */
  lemma CrossingNeedsWideTie(log: Log, now: int, from: int, to: int, a: int, first: int, b: int, shown: seq<int>,
                             i: int, j: int)
    requires WellOrdered(log, now) && from < to && OverlapRun(log, from, to, a, b) && a <= first <= b
    requires InTable(log, shown) && Shows(log, a, first, b, shown) && 0 <= i < j < |shown|
    ensures LeftOf(IncarnationSpan(log[shown[i]], from, to), IncarnationSpan(log[shown[j]], from, to))
         || WideTie(log, from, to, first, b, shown[i])
  {
    var p, q := shown[i], shown[j];
    if p < q {
      OlderRowIsLeft(log, now, from, to, p, q);
    } else {
      StartsAreOrdered(log, now, q, p);
      StartsAreOrdered(log, now, first + i, first + j);
      StartsAreOrdered(log, now, q, p - 1);
      StartsAreOrdered(log, now, p - 1, p);
      BarOfRow(log, now, from, to, p);
      BarOfRow(log, now, from, to, q);
      if p <= first {
        OlderRowIsLeft(log, now, from, to, p, first + j);
      }
    }
  }

  /** Row `p` and the one before it change places. */
  function Swapped(p: int, k: int): int {
    if k == p - 1 then p else if k == p then p - 1 else k
  }

  function SwappedRun(a: int, b: int, p: int): (order: seq<int>)
    requires a < p < b
    ensures |order| == b - a && forall i :: 0 <= i < |order| ==> order[i] == Swapped(p, a + i)
  {
    seq(b - a, i requires 0 <= i < b - a => Swapped(p, a + i))
  }

  lemma SwappedIsAListing(log: Log, now: int, from: int, to: int, a: int, b: int, p: int)
    requires WellOrdered(log, now) && OverlapRun(log, from, to, a, b) && a < p < b && SharesSecond(log, p)
    ensures Listing(log, from, to, SwappedRun(a, b, p))
  {
    var order := SwappedRun(a, b, p);
    forall k ensures k in order <==> a <= k < b {
      if a <= k < b {
        assert order[Swapped(p, k) - a] == k;
      }
    }
    forall i, j | 0 <= i < j < |order| ensures log[order[i]].startedAt <= log[order[j]].startedAt {
      StartsAreOrdered(log, now, a + i, a + j);
    }
  }

  lemma WideFirstCrosses(log: Log, from: int, to: int, p: int)
    requires SharesSecond(log, p) && HasWidth(log[p], from, to)
    ensures !LeftOf(IncarnationSpan(log[p], from, to), IncarnationSpan(log[p - 1], from, to))
  {
  }

  lemma SwappedShown(a: int, b: int, p: int, maxPoints: int) returns (i: int)
    requires 0 <= a < p < b && FirstShown(a, b, maxPoints) < p
    ensures var shown := LastOf(SwappedRun(a, b, p), Limit(maxPoints));
            0 <= i < |shown| - 1 && shown[i] == p && shown[i + 1] == p - 1
  {
    var order := SwappedRun(a, b, p);
    assert order[p - 1 - a] == p && order[p - a] == p - 1;
    i := p - 1 - FirstShown(a, b, maxPoints);
  }

  lemma WideTieCanCross(log: Log, from: int, to: int, maxPoints: int, now: int, a: int, b: int, p: int)
      returns (out: Log)
    requires WellOrdered(log, now) && from < to && OverlapRun(log, from, to, a, b)
    requires WideTie(log, from, to, FirstShown(a, b, maxPoints), b, p)
    ensures IsAnswer(log, from, to, maxPoints, out) && !NonCrossing(out, from, to)
  {
    SwappedIsAListing(log, now, from, to, a, b, p);
    out := RowsAt(log, LastOf(SwappedRun(a, b, p), Limit(maxPoints)));
    var i := SwappedShown(a, b, p, maxPoints);
    WideFirstCrosses(log, from, to, p);
    assert out[i] == log[p] && out[i + 1] == log[p - 1];
  }

  /** The bars are one left of the other in every answer the query may give exactly when no drawn
      row among the newest of the run shares its start second with the row before it. */
  lemma BarsNeverCrossIff(log: Log, from: int, to: int, maxPoints: int, now: int) returns (a: int, b: int)
    requires WellOrdered(log, now) && from < to
    ensures OverlapRun(log, from, to, a, b)
    ensures (forall out :: IsAnswer(log, from, to, maxPoints, out) ==> NonCrossing(out, from, to))
       <==> !exists p :: WideTie(log, from, to, FirstShown(a, b, maxPoints), b, p)
  {
    a, b := OverlapIsARun(log, from, to, now);
    var first := FirstShown(a, b, maxPoints);
    if p :| WideTie(log, from, to, first, b, p) {
      var out := WideTieCanCross(log, from, to, maxPoints, now, a, b, p);
    } else {
      forall out | IsAnswer(log, from, to, maxPoints, out) ensures NonCrossing(out, from, to) {
        AnswerWithoutWideTie(log, from, to, maxPoints, now, out, a, b);
      }
    }
  }

  lemma AnswerWithoutWideTie(log: Log, from: int, to: int, maxPoints: int, now: int, out: Log, a: int, b: int)
    requires WellOrdered(log, now) && from < to && IsAnswer(log, from, to, maxPoints, out)
    requires OverlapRun(log, from, to, a, b)
    requires !exists p :: WideTie(log, from, to, FirstShown(a, b, maxPoints), b, p)
    ensures NonCrossing(out, from, to)
  {
    var shown := AnswerOfRun(log, from, to, maxPoints, now, out, a, b);
    var first := FirstShown(a, b, maxPoints);
    forall i, j | 0 <= i < j < |out|
      ensures LeftOf(IncarnationSpan(out[i], from, to), IncarnationSpan(out[j], from, to))
    {
      CrossingNeedsWideTie(log, now, from, to, a, first, b, shown, i, j);
    }
  }

  /** Two rotations within one second, as the table may hold them, can be answered and drawn in
      the wrong order. */
  lemma SameSecondCanCross() returns (log: Log, out: Log)
    ensures WellOrdered(log, 20) && IsAnswer(log, 0, 20, 10, out)
    ensures log == [Incarnation(10, Some(10), "a"), Incarnation(10, None, "b")]
    ensures !NonCrossing(out, 0, 20)
  {
    log := [Incarnation(10, Some(10), "a"), Incarnation(10, None, "b")];
    assert Fraction(10, 0, 20) == 0.5 && Fraction(20, 0, 20) == 1.0;
    assert WideTie(log, 0, 20, 0, 2, 1);
    out := WideTieCanCross(log, 0, 20, 10, 20, 0, 2, 1);
  }
}
