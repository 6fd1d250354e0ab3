/** The log of tunnel lifetimes kept by internal/store/history.go, as a value. */
module IncarnationLog {
  import opened Wrappers

  datatype Incarnation = Incarnation(startedAt: int, endedAt: Option<int>, url: string)

  type Log = seq<Incarnation>

  /** `UPDATE tunnel_incarnations SET ended_at = t WHERE ended_at IS NULL` */
  function CloseOpen(log: Log, t: int): (closed: Log)
    ensures |closed| == |log|
  {
    seq(|log|, i requires 0 <= i < |log| =>
      if log[i].endedAt.None? then log[i].(endedAt := Some(t)) else log[i])
  }

  /** Closing first, then opening: a row left open by a killed daemon is repaired here. */
  function Record(log: Log, t: int, url: string): Log {
    CloseOpen(log, t) + [Incarnation(t, None, url)]
  }

  predicate Prunable(inc: Incarnation, cutoff: int) {
    inc.startedAt < cutoff && inc.endedAt.Some?
  }

  /** `DELETE FROM tunnel_incarnations WHERE started_at < cutoff AND ended_at IS NOT NULL` */
  function Prune(log: Log, cutoff: int): (kept: Log)
    ensures |kept| <= |log|
  {
    if log == [] then []
    else (if Prunable(log[0], cutoff) then [] else [log[0]]) + Prune(log[1..], cutoff)
  }

  /** Of any table, exactly the ended rows that started before the cutoff go. */
  lemma {:induction false} PruneKeeps(log: Log, cutoff: int, row: Incarnation)
    ensures row in Prune(log, cutoff) <==> row in log && (row.startedAt >= cutoff || row.endedAt.None?)
  {
    if log != [] {
      PruneKeeps(log[1..], cutoff, row);
      assert row in log <==> row == log[0] || row in log[1..];
    }
  }

  datatype Event =
    | Recorded(at: int, url: string)
    | Closed(at: int)
    | Pruned(at: int, retention: int)

  function Step(log: Log, e: Event): Log {
    match e
    case Recorded(at, url) => Record(log, at, url)
    case Closed(at) => CloseOpen(log, at)
    case Pruned(at, retention) => Prune(log, at - retention)
  }

  function Run(events: seq<Event>): Log {
    if events == [] then [] else Step(Run(events[..|events| - 1]), events[|events| - 1])
  }

  ghost predicate Chronological(events: seq<Event>) {
    forall i, j :: 0 <= i < j < |events| ==> events[i].at <= events[j].at
  }

  predicate Plausible(inc: Incarnation, now: int) {
    inc.startedAt <= now && (inc.endedAt.Some? ==> inc.startedAt <= inc.endedAt.value <= now)
  }

  /** `a` is over by the time `b` starts. */
  predicate EndsBefore(a: Incarnation, b: Incarnation) {
    a.endedAt.Some? && a.endedAt.value <= b.startedAt
  }

  /** Only the newest row may be open; every lifetime ends no later than any newer one
      starts; and nothing lies after `now`. */
  ghost predicate WellOrdered(log: Log, now: int) {
    && (forall i :: 0 <= i < |log| ==> Plausible(log[i], now))
    && (forall i, j :: 0 <= i < j < |log| ==> EndsBefore(log[i], log[j]))
  }

  lemma StartsAreOrdered(log: Log, now: int, i: int, j: int)
    requires WellOrdered(log, now) && 0 <= i <= j < |log|
    ensures log[i].startedAt <= log[j].startedAt
  {
    assert Plausible(log[i], now);
    assert i < j ==> EndsBefore(log[i], log[j]);
  }

  lemma SuffixKeepsOrder(log: Log, k: int, now: int, later: int)
    requires WellOrdered(log, now) && now <= later && 0 <= k <= |log|
    ensures WellOrdered(log[k..], later)
  {
    forall i | 0 <= i < |log[k..]| ensures Plausible(log[k..][i], later) {
      assert Plausible(log[k + i], now);
    }
    forall i, j | 0 <= i < j < |log[k..]| ensures EndsBefore(log[k..][i], log[k..][j]) {
      assert EndsBefore(log[k + i], log[k + j]);
    }
  }

  lemma {:induction false} PruneOfPrefix(log: Log, cutoff: int, k: int)
    requires 0 <= k <= |log| && forall i :: 0 <= i < |log| ==> (i < k <==> Prunable(log[i], cutoff))
    ensures Prune(log, cutoff) == log[k..]
  {
    if log != [] {
      assert forall i :: 0 <= i < |log[1..]| ==> log[1..][i] == log[i + 1];
      PruneOfPrefix(log[1..], cutoff, if k == 0 then 0 else k - 1);
    }
  }

  lemma {:induction false} PrunableIsPrefix(log: Log, cutoff: int, now: int) returns (k: int)
    requires WellOrdered(log, now)
    ensures 0 <= k <= |log| && forall i :: 0 <= i < |log| ==> (i < k <==> Prunable(log[i], cutoff))
  {
    if log == [] {
      k := 0;
    } else {
      var last := |log| - 1;
      k := PrunableIsPrefix(log[..last], cutoff, now);
      if Prunable(log[last], cutoff) {
        forall i | 0 <= i < last ensures Prunable(log[i], cutoff) {
          StartsAreOrdered(log, now, i, last);
          assert EndsBefore(log[i], log[last]);
        }
        k := |log|;
      }
    }
  }

  /** Pruning drops a front part of the log made of old, ended rows and nothing else: what
      remains is a suffix, and the open row is never dropped. */
  lemma PruneIsSuffix(log: Log, cutoff: int, now: int) returns (k: int)
    requires WellOrdered(log, now)
    ensures 0 <= k <= |log| && Prune(log, cutoff) == log[k..]
    ensures forall i :: 0 <= i < |log| ==> (i < k <==> log[i].startedAt < cutoff && log[i].endedAt.Some?)
  {
    k := PrunableIsPrefix(log, cutoff, now);
    PruneOfPrefix(log, cutoff, k);
  }

  lemma PruneKeepsOrder(log: Log, cutoff: int, now: int, later: int)
    requires WellOrdered(log, now) && now <= later
    ensures WellOrdered(Prune(log, cutoff), later)
  {
    var k := PruneIsSuffix(log, cutoff, now);
    SuffixKeepsOrder(log, k, now, later);
  }

  ghost predicate AllClosedBy(log: Log, t: int) {
    forall i :: 0 <= i < |log| ==> log[i].endedAt.Some? && log[i].endedAt.value <= t
  }

  lemma CloseOpenKeepsOrder(log: Log, t: int, now: int)
    requires WellOrdered(log, now) && now <= t
    ensures WellOrdered(CloseOpen(log, t), t) && AllClosedBy(CloseOpen(log, t), t)
  {
    var closed := CloseOpen(log, t);
    forall i | 0 <= i < |closed| ensures Plausible(closed[i], t) {
      assert Plausible(log[i], now);
    }
    forall i, j | 0 <= i < j < |closed| ensures EndsBefore(closed[i], closed[j]) {
      assert EndsBefore(log[i], log[j]);
    }
  }

  lemma AppendKeepsOrder(closed: Log, t: int, url: string)
    requires WellOrdered(closed, t) && AllClosedBy(closed, t)
    ensures WellOrdered(closed + [Incarnation(t, None, url)], t)
  {
  }

  lemma StepKeepsOrder(log: Log, e: Event, now: int)
    requires WellOrdered(log, now) && now <= e.at
    ensures WellOrdered(Step(log, e), e.at)
  {
    match e
    case Pruned(at, retention) =>
      PruneKeepsOrder(log, at - retention, now, at);
    case Closed(at) =>
      CloseOpenKeepsOrder(log, at, now);
    case Recorded(at, url) =>
      CloseOpenKeepsOrder(log, at, now);
      AppendKeepsOrder(CloseOpen(log, at), at, url);
  }

  /** Over every run on a nondecreasing clock, with any prunes and restarts in between. */
  lemma {:induction false} RunIsWellOrdered(events: seq<Event>, now: int)
    requires Chronological(events) && forall i :: 0 <= i < |events| ==> events[i].at <= now
    ensures WellOrdered(Run(events), now)
  {
    if events != [] {
      var before := events[..|events| - 1];
      var e := events[|events| - 1];
      RunIsWellOrdered(before, e.at);
      StepKeepsOrder(Run(before), e, e.at);
    }
  }

  function WithoutPrunes(events: seq<Event>): seq<Event> {
    if events == [] then [] else
    var before := WithoutPrunes(events[..|events| - 1]);
    if events[|events| - 1].Pruned? then before else before + [events[|events| - 1]]
  }

  lemma RunWithoutLastPrune(events: seq<Event>)
    requires events != []
    ensures var e := events[|events| - 1];
            var before := Run(WithoutPrunes(events[..|events| - 1]));
            Run(WithoutPrunes(events)) == if e.Pruned? then before else Step(before, e)
  {
    var before := WithoutPrunes(events[..|events| - 1]);
    assert (before + [events[|events| - 1]])[..|before|] == before;
  }

  /** When a lifetime ends that these events follow: with the first start or stop among them. */
  function EndIn(events: seq<Event>): Option<int> {
    if events == [] then None
    else if events[0].Pruned? then EndIn(events[1..])
    else Some(events[0].at)
  }

  /** What happened, told from the events alone: one lifetime for every recorded start, under its
      own URL, until the next start or stop. */
  function History(events: seq<Event>): Log {
    if events == [] then []
    else if events[0].Recorded?
    then [Incarnation(events[0].at, EndIn(events[1..]), events[0].url)] + History(events[1..])
    else History(events[1..])
  }

  lemma {:induction false} EndInAppend(events: seq<Event>, e: Event)
    ensures EndIn(events + [e]) == if EndIn(events).Some? || e.Pruned? then EndIn(events) else Some(e.at)
  {
    if events != [] {
      assert (events + [e])[1..] == events[1..] + [e];
      EndInAppend(events[1..], e);
    }
  }

  lemma {:induction false} HistoryAppend(events: seq<Event>, e: Event)
    ensures History(events + [e]) == if e.Pruned? then History(events) else Step(History(events), e)
  {
    if events != [] {
      assert (events + [e])[1..] == events[1..] + [e];
      HistoryAppend(events[1..], e);
      EndInAppend(events[1..], e);
      if !e.Pruned? && events[0].Recorded? {
        StepAfterFirst(Incarnation(events[0].at, EndIn(events[1..]), events[0].url), History(events[1..]), e);
      }
    }
  }

  lemma StepAfterFirst(first: Incarnation, rest: Log, e: Event)
    requires !e.Pruned?
    ensures Step([first] + rest, e)
         == [if first.endedAt.None? then first.(endedAt := Some(e.at)) else first] + Step(rest, e)
  {
  }

  /** Over every run the log without pruning is what happened, row by row. */
  lemma {:induction false} FullRunIsHistory(events: seq<Event>)
    ensures Run(WithoutPrunes(events)) == History(events)
  {
    if events != [] {
      var before, e := events[..|events| - 1], events[|events| - 1];
      FullRunIsHistory(before);
      RunWithoutLastPrune(events);
      HistoryAppend(before, e);
      assert before + [e] == events;
    }
  }

  ghost predicate IsSuffix(kept: Log, full: Log) {
    |kept| <= |full| && kept == full[|full| - |kept|..]
  }

  lemma CloseOpenOfSuffix(kept: Log, full: Log, t: int)
    requires IsSuffix(kept, full)
    ensures IsSuffix(CloseOpen(kept, t), CloseOpen(full, t))
  {
  }

  lemma SuffixIsTransitive(a: Log, b: Log, c: Log)
    requires IsSuffix(a, b) && IsSuffix(b, c)
    ensures IsSuffix(a, c)
  {
  }

  lemma SuffixAppend(kept: Log, full: Log, inc: Incarnation)
    requires IsSuffix(kept, full)
    ensures IsSuffix(kept + [inc], full + [inc])
  {
  }

  lemma PruneOfSuffix(kept: Log, full: Log, cutoff: int, now: int)
    requires IsSuffix(kept, full) && WellOrdered(kept, now)
    ensures IsSuffix(Prune(kept, cutoff), full)
  {
    var k := PruneIsSuffix(kept, cutoff, now);
    SuffixIsTransitive(Prune(kept, cutoff), kept, full);
  }

  lemma StepOfSuffix(kept: Log, full: Log, e: Event)
    requires IsSuffix(kept, full) && WellOrdered(kept, e.at)
    ensures IsSuffix(Step(kept, e), if e.Pruned? then full else Step(full, e))
  {
    match e
    case Pruned(at, retention) =>
      PruneOfSuffix(kept, full, at - retention, at);
    case Closed(at) =>
      CloseOpenOfSuffix(kept, full, at);
    case Recorded(at, url) =>
      CloseOpenOfSuffix(kept, full, at);
      SuffixAppend(CloseOpen(kept, at), CloseOpen(full, at), Incarnation(at, None, url));
  }

  /** Retention only ever forgets the oldest lifetimes: the pruned log is a suffix of the log
      the same run would have kept for ever, so every row kept is exact. */
  lemma {:induction false} PrunedRunIsSuffixOfFullRun(events: seq<Event>)
    requires Chronological(events)
    ensures IsSuffix(Run(events), Run(WithoutPrunes(events)))
  {
    if events != [] {
      var before := events[..|events| - 1];
      var e := events[|events| - 1];
      PrunedRunIsSuffixOfFullRun(before);
      RunIsWellOrdered(before, e.at);
      RunWithoutLastPrune(events);
      StepOfSuffix(Run(before), Run(WithoutPrunes(before)), e);
    }
  }
}
