/** The telemetry database of internal/store: its three tables and the operations that change
    or read them. Each SQL statement is the function of the table it stands for. */
module HistoryStore {
  import opened Wrappers
  import opened Bucketing
  import opened ServiceHealth
  import opened IncarnationLog
  import opened IncarnationRange

  /** A stored snapshot, kept as the JSON text of its row. */
  type Snapshot = string

  /** `DELETE FROM ... WHERE ts < cutoff` */
  function Since<T(!new)>(table: seq<Row<T>>, cutoff: int): (kept: seq<Row<T>>)
    ensures forall r :: r in kept <==> r in table && r.ts >= cutoff
  {
    if table == [] then [] else
    var rest := Since(table[1..], cutoff);
    assert forall r :: r in table <==> r == table[0] || r in table[1..];
    if table[0].ts < cutoff then rest else [table[0]] + rest
  }

  /** The map holds, for every service with a row so far, its points in order. */
  ghost predicate Filed(out: map<string, seq<ServiceHealthPoint>>, rows: seq<QueryRow>) {
    && (forall id :: id in out <==> PointsFor(rows, id) != [])
    && (forall id :: id in out ==> out[id] == PointsFor(rows, id))
  }

  lemma FileOne(out: map<string, seq<ServiceHealthPoint>>, rows: seq<QueryRow>, row: QueryRow)
    requires Filed(out, rows)
    ensures var sofar := if row.serviceId in out then out[row.serviceId] else [];
            Filed(out[row.serviceId := sofar + [ToPoint(row)]], rows + [row])
  {
    assert (rows + [row])[..|rows|] == rows;
  }

  /** The scan over the query's rows. */
  method FileRows(rows: seq<QueryRow>) returns (out: map<string, seq<ServiceHealthPoint>>)
    ensures Filed(out, rows)
  {
    out := map[];
    for i := 0 to |rows|
      invariant Filed(out, rows[..i])
    {
      var row := rows[i];
      var sofar := if row.serviceId in out then out[row.serviceId] else [];
      FileOne(out, rows[..i], row);
      assert rows[..i] + [row] == rows[..i + 1];
      out := out[row.serviceId := sofar + [ServiceHealthPoint(row.newest, StatusFromRank(row.worst))]];
    }
    assert rows[..|rows|] == rows;
  }

  /** The scan over the snapshots' rows. */
  method ScanSnapshots(rows: seq<Row<Snapshot>>) returns (snaps: seq<Snapshot>)
    ensures |snaps| == |rows| && forall i :: 0 <= i < |snaps| ==> snaps[i] == rows[i].val
  {
    snaps := [];
    for i := 0 to |rows|
      invariant |snaps| == i && forall k :: 0 <= k < i ==> snaps[k] == rows[k].val
    {
      snaps := snaps + [rows[i].val];
    }
  }

  lemma QueryHoldsEverySeries(table: seq<HealthRow>, ids: seq<string>, id: string, from: int, to: int, maxPoints: int)
    requires ids == ServiceIds(table)
    ensures PointsFor(HealthQuery(table, ids, from, to, maxPoints), id) == Series(table, id, from, to, maxPoints)
  {
    ScanSeparatesServices(table, ids, id, from, to, maxPoints);
    if id !in ids {
      UnknownServiceHasNoSeries(table, id, from, to, maxPoints);
    }
  }

  class Store {
    var samples: seq<Row<Snapshot>>
    var health: seq<HealthRow>
    var incarnations: Log

    constructor ()
      ensures samples == [] && health == [] && incarnations == []
    {
      samples, health, incarnations := [], [], [];
    }

    method Insert(sampledAt: int, data: Snapshot)
      modifies this`samples
      ensures samples == old(samples) + [Row(sampledAt, data)]
    {
      samples := samples + [Row(sampledAt, data)];
    }

    /** One row for every service of the round, all at one instant; the map is walked in any order. */
    method RecordServiceHealth(ts: int, statuses: map<string, string>)
      modifies this`health
      ensures old(health) <= health && |health| == |old(health)| + |statuses|
      ensures forall r :: r in health[|old(health)|..]
                <==> r.ts == ts && r.val.serviceId in statuses && r.val.status == statuses[r.val.serviceId]
    {
      ghost var added := [];
      var ids := statuses.Keys;
      while ids != {}
        invariant ids <= statuses.Keys
        invariant health == old(health) + added && |added| == |statuses| - |ids|
        invariant forall r :: r in added
                    <==> && r.ts == ts && r.val.serviceId in statuses.Keys - ids
                         && r.val.status == statuses[r.val.serviceId]
      {
        var id :| id in ids;
        health := health + [Row(ts, Probe(id, statuses[id]))];
        added := added + [Row(ts, Probe(id, statuses[id]))];
        assert forall r: HealthRow :: r == Row(r.ts, Probe(r.val.serviceId, r.val.status));
        ids := ids - {id};
      }
      assert health[|old(health)|..] == added;
    }

    /** Files the query's rows by service: every service with a probe in the window gets its own
        series, and a service without one is absent rather than empty. */
    method RangeServiceHealth(from: int, to: int, maxPoints: int) returns (out: map<string, seq<ServiceHealthPoint>>)
      ensures forall id :: id in out <==> exists r :: IsProbe(health, id, r, from, to)
      ensures forall id :: id in out ==> out[id] == Series(health, id, from, to, maxPoints)
    {
      var ids := ServiceIds(health);
      out := FileRows(HealthQuery(health, ids, from, to, maxPoints));
      forall id
        ensures PointsFor(HealthQuery(health, ids, from, to, maxPoints), id) == Series(health, id, from, to, maxPoints)
        ensures Series(health, id, from, to, maxPoints) != [] <==> exists r :: IsProbe(health, id, r, from, to)
      {
        QueryHoldsEverySeries(health, ids, id, from, to, maxPoints);
        HasSeriesIff(health, id, from, to, maxPoints);
      }
    }

    method RangeBucketed(from: int, to: int, maxPoints: int) returns (snaps: seq<Snapshot>)
      ensures var rows := NewestPerBucket(samples, from, to, maxPoints);
              |snaps| == |rows| && forall i :: 0 <= i < |snaps| ==> snaps[i] == rows[i].val
      ensures |snaps| <= AtLeastOne(maxPoints)
    {
      var rows := NewestPerBucket(samples, from, to, maxPoints);
      RangeIsBoundedAndOrdered(samples, from, to, maxPoints);
      snaps := ScanSnapshots(rows);
    }

    /** Lifetimes are in order, at most the newest is open, and nothing lies after `now`. */
    ghost predicate Valid(now: int)
      reads this`incarnations
    {
      WellOrdered(incarnations, now)
    }

    method RecordTunnelIncarnation(startedAt: int, url: string)
      modifies this`incarnations
      ensures incarnations == Record(old(incarnations), startedAt, url)
      ensures forall now :: old(Valid(now)) && now <= startedAt ==> Valid(startedAt)
    {
      incarnations := CloseOpen(incarnations, startedAt);
      incarnations := incarnations + [Incarnation(startedAt, None, url)];
      forall now | old(Valid(now)) && now <= startedAt ensures Valid(startedAt) {
        StepKeepsOrder(old(incarnations), Recorded(startedAt, url), now);
      }
    }

    /** Open rows end at `ts`; in an orderly log that is the newest row alone, if any. */
    method CloseOpenTunnelIncarnation(ts: int)
      modifies this`incarnations
      ensures |incarnations| == |old(incarnations)|
      ensures forall i :: 0 <= i < |incarnations| ==>
                var was := old(incarnations)[i];
                && incarnations[i].startedAt == was.startedAt && incarnations[i].url == was.url
                && incarnations[i].endedAt == if was.endedAt.None? then Some(ts) else was.endedAt
      ensures forall now :: old(Valid(now)) && now <= ts ==>
                Valid(ts) && forall i :: 0 <= i < |incarnations| - 1 ==> incarnations[i] == old(incarnations)[i]
    {
      incarnations := CloseOpen(incarnations, ts);
      forall now | old(Valid(now)) && now <= ts
        ensures Valid(ts) && forall i :: 0 <= i < |incarnations| - 1 ==> incarnations[i] == old(incarnations)[i]
      {
        CloseOpenKeepsOrder(old(incarnations), ts, now);
        assert forall i :: 0 <= i < |incarnations| - 1 ==>
          EndsBefore(old(incarnations)[i], old(incarnations)[|incarnations| - 1]);
      }
    }

    /** An answer the query may give: in an orderly log, rows of the one run that overlaps the
        window, at the instants of its newest `maxPoints`; those very rows when no two of the run
        start in one second. */
    method RangeTunnelIncarnations(from: int, to: int, maxPoints: int) returns (out: Log)
      ensures IsAnswer(incarnations, from, to, maxPoints, out)
      ensures forall now :: Valid(now) && from <= to ==>
                exists a, b :: OverlapRun(incarnations, from, to, a, b)
                               && NewestOfRun(incarnations, a, b, maxPoints, out)
      ensures forall k, t :: 0 <= k < |incarnations| && from <= t <= to && AliveAt(incarnations[k], t) ==>
                ShownOrCrowdedOut(out, incarnations[k], maxPoints)
    {
      out := RangeQuery(incarnations, from, to, maxPoints);
      RangeQueryIsAnAnswer(incarnations, from, to, maxPoints);
      forall now | Valid(now) && from <= to
        ensures exists a, b :: OverlapRun(incarnations, from, to, a, b)
                               && NewestOfRun(incarnations, a, b, maxPoints, out)
      {
        var a, b := AnswerIsNewest(incarnations, from, to, maxPoints, now, out);
      }
      forall k, t | 0 <= k < |incarnations| && from <= t <= to && AliveAt(incarnations[k], t)
        ensures ShownOrCrowdedOut(out, incarnations[k], maxPoints)
      {
        AliveIsShown(incarnations, from, to, maxPoints, out, k, t);
      }
    }

    method PruneHistory(now: int, olderThan: int)
      modifies this`health, this`incarnations
      ensures health == Since(old(health), now - olderThan)
      ensures incarnations == IncarnationLog.Prune(old(incarnations), now - olderThan)
      ensures forall row :: row in incarnations
                <==> row in old(incarnations) && (row.startedAt >= now - olderThan || row.endedAt.None?)
      ensures forall earlier :: old(Valid(earlier)) && earlier <= now ==> Valid(now)
    {
      var cutoff := now - olderThan;
      health := Since(health, cutoff);
      incarnations := IncarnationLog.Prune(incarnations, cutoff);
      forall row ensures row in incarnations
                    <==> row in old(incarnations) && (row.startedAt >= cutoff || row.endedAt.None?)
      {
        PruneKeeps(old(incarnations), cutoff, row);
      }
      forall earlier | old(Valid(earlier)) && earlier <= now ensures Valid(now) {
        PruneKeepsOrder(old(incarnations), cutoff, earlier, now);
      }
    }

    /** One retention for all three tables. The clock is read once for the snapshots and once
        more for the two histories. */
    method Prune(now: int, historyNow: int, olderThan: int)
      modifies this
      ensures samples == Since(old(samples), now - olderThan)
      ensures health == Since(old(health), historyNow - olderThan)
      ensures incarnations == IncarnationLog.Prune(old(incarnations), historyNow - olderThan)
      ensures forall row :: row in incarnations
                <==> row in old(incarnations) && (row.startedAt >= historyNow - olderThan || row.endedAt.None?)
      ensures forall earlier :: old(Valid(earlier)) && earlier <= historyNow ==> Valid(historyNow)
    {
      samples := Since(samples, now - olderThan);
      assert forall earlier :: old(Valid(earlier)) ==> Valid(earlier);
      PruneHistory(historyNow, olderThan);
    }
  }
}
