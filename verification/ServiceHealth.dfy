/** The service probe history: what the worst-wins bucket query of
    internal/store/history.go computes from the recorded rows. */
module ServiceHealth {
  import opened Bucketing

  const STATUS_UP := "up"
  const STATUS_DOWN := "down"
  const STATUS_UNKNOWN := "unknown"

  const RANK_UP := 0
  const RANK_UNKNOWN := 1
  const RANK_DOWN := 2

  datatype Probe = Probe(serviceId: string, status: string)
  type HealthRow = Row<Probe>

  datatype ServiceHealthPoint = ServiceHealthPoint(ts: int, status: string)

  /** One row the bucket query returns. */
  datatype QueryRow = QueryRow(serviceId: string, worst: int, newest: int)

  /** The severity the query gives a stored status; anything unrecognised counts as up. */
  function Rank(status: string): int {
    if status == STATUS_DOWN then RANK_DOWN else if status == STATUS_UNKNOWN then RANK_UNKNOWN else RANK_UP
  }

  function StatusFromRank(rank: int): (status: string)
    ensures rank in {RANK_UP, RANK_UNKNOWN, RANK_DOWN} ==> Rank(status) == rank
  {
    if rank == RANK_DOWN then STATUS_DOWN else if rank == RANK_UNKNOWN then STATUS_UNKNOWN else STATUS_UP
  }

  /** `MAX(CASE status ...)` over one group. */
  function Worst(group: seq<Row<string>>): (rank: int)
    requires group != []
    ensures exists r :: r in group && Rank(r.val) == rank
    ensures forall r :: r in group ==> Rank(r.val) <= rank
  {
    var first := Rank(group[0].val);
    if |group| == 1 then
      assert group[0] in group;
      first
    else
      var rest := Worst(group[1..]);
      assert forall r :: r in group ==> r == group[0] || r in group[1..];
      assert group[0] in group;
      if first >= rest then first else
      var r :| r in group[1..] && Rank(r.val) == rest;
      assert r in group;
      rest
  }

  /** The probes of one service. */
  function ProbesOf(table: seq<HealthRow>, id: string): seq<Row<string>> {
    if table == [] then [] else
    var rest := ProbesOf(table[1..], id);
    if table[0].val.serviceId == id then [Row(table[0].ts, table[0].val.status)] + rest else rest
  }

  lemma {:induction false} ProbesOfMembers(table: seq<HealthRow>, id: string, r: Row<string>)
    ensures r in ProbesOf(table, id) <==> Row(r.ts, Probe(id, r.val)) in table
  {
    if table != [] {
      ProbesOfMembers(table[1..], id, r);
      assert table[0] == Row(table[0].ts, Probe(table[0].val.serviceId, table[0].val.status));
    }
  }

  /** The services with a row, each once. The query also orders its rows by service, which
      cannot be told from the answer: every row is filed under its own service. */
  function ServiceIds(table: seq<HealthRow>): (ids: seq<string>)
    ensures forall i, j :: 0 <= i < j < |ids| ==> ids[i] != ids[j]
  {
    if table == [] then [] else
    var ids := ServiceIds(table[..|table| - 1]);
    var id := table[|table| - 1].val.serviceId;
    if id in ids then ids else ids + [id]
  }

  lemma {:induction false} ServiceIdsComplete(table: seq<HealthRow>, r: HealthRow)
    requires r in table
    ensures r.val.serviceId in ServiceIds(table)
  {
    if r in table[..|table| - 1] {
      ServiceIdsComplete(table[..|table| - 1], r);
    }
  }

  /** The query's rows for one service, `ORDER BY newest`. */
  function ServiceQuery(table: seq<HealthRow>, id: string, from: int, to: int, maxPoints: int): seq<QueryRow> {
    var gs := Groups(ProbesOf(table, id), from, to, maxPoints);
    seq(|gs|, i requires 0 <= i < |gs| => QueryRow(id, Worst(gs[i]), Newest(gs[i]).ts))
  }

  function HealthQuery(table: seq<HealthRow>, ids: seq<string>, from: int, to: int, maxPoints: int): seq<QueryRow> {
    if ids == [] then []
    else ServiceQuery(table, ids[0], from, to, maxPoints) + HealthQuery(table, ids[1..], from, to, maxPoints)
  }

  function ToPoint(row: QueryRow): ServiceHealthPoint {
    ServiceHealthPoint(row.newest, StatusFromRank(row.worst))
  }

  /** The series of one service over a window, oldest first. */
  function Series(table: seq<HealthRow>, id: string, from: int, to: int, maxPoints: int): seq<ServiceHealthPoint> {
    var rows := ServiceQuery(table, id, from, to, maxPoints);
    seq(|rows|, i requires 0 <= i < |rows| => ToPoint(rows[i]))
  }

  /** The points a scan of query rows files under `id`. */
  function PointsFor(rows: seq<QueryRow>, id: string): seq<ServiceHealthPoint> {
    if rows == [] then [] else
    var before := PointsFor(rows[..|rows| - 1], id);
    var last := rows[|rows| - 1];
    if last.serviceId == id then before + [ToPoint(last)] else before
  }

  lemma {:induction false} PointsForAppend(a: seq<QueryRow>, b: seq<QueryRow>, id: string)
    ensures PointsFor(a + b, id) == PointsFor(a, id) + PointsFor(b, id)
  {
    if b == [] {
      assert a + b == a;
    } else {
      PointsForAppend(a, b[..|b| - 1], id);
      assert (a + b)[..|a + b| - 1] == a + b[..|b| - 1];
    }
  }

  lemma {:induction false} PointsForOneService(rows: seq<QueryRow>, owner: string, id: string)
    requires forall r :: r in rows ==> r.serviceId == owner
    ensures owner != id ==> PointsFor(rows, id) == []
    ensures owner == id ==> PointsFor(rows, id) == seq(|rows|, i requires 0 <= i < |rows| => ToPoint(rows[i]))
  {
    if rows != [] {
      PointsForOneService(rows[..|rows| - 1], owner, id);
      assert rows[|rows| - 1] in rows;
    }
  }

  /** Filing the query's rows by service gives every service exactly its own series. */
  lemma {:induction false} ScanSeparatesServices(table: seq<HealthRow>, ids: seq<string>, id: string,
                                                 from: int, to: int, maxPoints: int)
    requires forall i, j :: 0 <= i < j < |ids| ==> ids[i] != ids[j]
    ensures PointsFor(HealthQuery(table, ids, from, to, maxPoints), id)
         == if id in ids then Series(table, id, from, to, maxPoints) else []
  {
    if ids != [] {
      var rows := ServiceQuery(table, ids[0], from, to, maxPoints);
      PointsForAppend(rows, HealthQuery(table, ids[1..], from, to, maxPoints), id);
      PointsForOneService(rows, ids[0], id);
      ScanSeparatesServices(table, ids[1..], id, from, to, maxPoints);
      assert id in ids <==> id == ids[0] || id in ids[1..];
    }
  }

  ghost predicate IsOutage(table: seq<HealthRow>, id: string, t: int, from: int, to: int) {
    Row(t, Probe(id, STATUS_DOWN)) in table && from <= t <= to
  }

  lemma SeriesOfBuckets(table: seq<HealthRow>, id: string, from: int, to: int, maxPoints: int)
    ensures var series := Series(table, id, from, to, maxPoints);
            var newest := NewestPerBucket(ProbesOf(table, id), from, to, maxPoints);
            |series| == |newest| && forall i :: 0 <= i < |series| ==> series[i].ts == newest[i].ts
  {
  }

  /** A probe of the service inside the window. */
  ghost predicate IsProbe(table: seq<HealthRow>, id: string, r: HealthRow, from: int, to: int) {
    r in table && r.val.serviceId == id && from <= r.ts <= to
  }

  /** A service has a series exactly when it has a probe in the window. */
  lemma HasSeriesIff(table: seq<HealthRow>, id: string, from: int, to: int, maxPoints: int)
    ensures Series(table, id, from, to, maxPoints) != [] <==> exists r :: IsProbe(table, id, r, from, to)
  {
    var probes := ProbesOf(table, id);
    var newest := NewestPerBucket(probes, from, to, maxPoints);
    SeriesOfBuckets(table, id, from, to, maxPoints);
    if newest != [] {
      RangeIsBoundedAndOrdered(probes, from, to, maxPoints);
      ProbesOfMembers(table, id, newest[0]);
      assert IsProbe(table, id, Row(newest[0].ts, Probe(id, newest[0].val)), from, to);
    }
    if r :| IsProbe(table, id, r, from, to) {
      var probe := Row(r.ts, r.val.status);
      ProbesOfMembers(table, id, probe);
      assert r == Row(r.ts, Probe(id, r.val.status));
      var k := EveryRowIsRepresentedOnce(probes, from, to, maxPoints, probe);
    }
  }

  lemma UnknownServiceHasNoSeries(table: seq<HealthRow>, id: string, from: int, to: int, maxPoints: int)
    requires id !in ServiceIds(table)
    ensures Series(table, id, from, to, maxPoints) == []
  {
    HasSeriesIff(table, id, from, to, maxPoints);
    if r :| IsProbe(table, id, r, from, to) {
      ServiceIdsComplete(table, r);
    }
  }

  /** At most `maxPoints` points a service, strictly increasing in time, each stamped with
      the instant of a recorded probe of that service inside the window. */
  lemma SeriesIsBoundedAndOrdered(table: seq<HealthRow>, id: string, from: int, to: int, maxPoints: int)
    ensures var series := Series(table, id, from, to, maxPoints);
            && |series| <= AtLeastOne(maxPoints)
            && (forall i, j :: 0 <= i < j < |series| ==> series[i].ts < series[j].ts)
            && (forall i :: 0 <= i < |series| ==>
                  from <= series[i].ts <= to
                  && exists status :: Row(series[i].ts, Probe(id, status)) in table)
  {
    SeriesOfBuckets(table, id, from, to, maxPoints);
    RangeIsBoundedAndOrdered(ProbesOf(table, id), from, to, maxPoints);
    var series := Series(table, id, from, to, maxPoints);
    var newest := NewestPerBucket(ProbesOf(table, id), from, to, maxPoints);
    forall i | 0 <= i < |series| ensures exists status :: Row(series[i].ts, Probe(id, status)) in table {
      ProbesOfMembers(table, id, newest[i]);
      assert Row(series[i].ts, Probe(id, newest[i].val)) in table;
    }
  }

  /** The bucket an instant of the window falls into. */
  function BucketAt(t: int, from: int, to: int, maxPoints: int): int {
    (t - from) / WindowWidth(from, to, maxPoints)
  }

  lemma PointRank(table: seq<HealthRow>, id: string, from: int, to: int, maxPoints: int, i: int)
    requires from <= to && 0 <= i < |Series(table, id, from, to, maxPoints)|
    ensures var g := Groups(ProbesOf(table, id), from, to, maxPoints)[i];
            Rank(Series(table, id, from, to, maxPoints)[i].status) == Worst(g)
    ensures Series(table, id, from, to, maxPoints)[i].status in {STATUS_UP, STATUS_DOWN, STATUS_UNKNOWN}
  {
  }

  lemma SameBucketInstants(r: Row<string>, s: Row<string>, from: int, to: int, maxPoints: int)
    requires var width := WindowWidth(from, to, maxPoints); BucketOf(r, from, width) == BucketOf(s, from, width)
    ensures BucketAt(r.ts, from, to, maxPoints) == BucketAt(s.ts, from, to, maxPoints)
    ensures s.ts - r.ts < WindowWidth(from, to, maxPoints)
  {
    SameBucketIsClose(r, s, from, WindowWidth(from, to, maxPoints));
  }

  /** A point and a row of its group: one bucket, and the point is no older. */
  lemma PointOfGroup(table: seq<HealthRow>, id: string, from: int, to: int, maxPoints: int, i: int, r: Row<string>)
    requires from <= to && 0 <= i < |Series(table, id, from, to, maxPoints)|
    requires r in Groups(ProbesOf(table, id), from, to, maxPoints)[i]
    ensures r in ProbesOf(table, id) && from <= r.ts
    ensures var ts := Series(table, id, from, to, maxPoints)[i].ts;
            && r.ts <= ts <= to && ts - r.ts < WindowWidth(from, to, maxPoints)
            && BucketAt(r.ts, from, to, maxPoints) == BucketAt(ts, from, to, maxPoints)
  {
    var newest := Newest(Groups(ProbesOf(table, id), from, to, maxPoints)[i]);
    GroupMember(ProbesOf(table, id), from, to, maxPoints, i, r);
    GroupMember(ProbesOf(table, id), from, to, maxPoints, i, newest);
    SameBucketInstants(r, newest, from, to, maxPoints);
  }

  lemma OutageIsInAGroup(table: seq<HealthRow>, id: string, t: int, from: int, to: int, maxPoints: int)
      returns (i: int)
    requires IsOutage(table, id, t, from, to)
    ensures 0 <= i < |Series(table, id, from, to, maxPoints)|
    ensures Row(t, STATUS_DOWN) in Groups(ProbesOf(table, id), from, to, maxPoints)[i]
  {
    var probes := ProbesOf(table, id);
    var outage := Row(t, STATUS_DOWN);
    ProbesOfMembers(table, id, outage);
    i := EveryRowIsRepresentedOnce(probes, from, to, maxPoints, outage);
    NewestOfGroup(probes, from, to, maxPoints, i);
    var b := GroupNumbers(probes, from, to, maxPoints)[i];
    InBucketMembers(probes, from, to, WindowWidth(from, to, maxPoints), b, outage);
  }

  /** Worst wins: a recorded outage makes the point of its bucket, no older than it, down. */
  lemma OutageMakesADownPoint(table: seq<HealthRow>, id: string, t: int, from: int, to: int, maxPoints: int)
      returns (i: int)
    requires IsOutage(table, id, t, from, to)
    ensures 0 <= i < |Series(table, id, from, to, maxPoints)|
    ensures var p := Series(table, id, from, to, maxPoints)[i];
            && p.status == STATUS_DOWN
            && t <= p.ts <= to
            && BucketAt(t, from, to, maxPoints) == BucketAt(p.ts, from, to, maxPoints)
            && p.ts - t < WindowWidth(from, to, maxPoints)
  {
    i := OutageIsInAGroup(table, id, t, from, to, maxPoints);
    PointRank(table, id, from, to, maxPoints, i);
    PointOfGroup(table, id, from, to, maxPoints, i, Row(t, STATUS_DOWN));
  }

  /** And only an outage does: a down point has a recorded outage in its bucket, no newer than it. */
  lemma DownPointHasAnOutage(table: seq<HealthRow>, id: string, from: int, to: int, maxPoints: int, i: int)
      returns (t: int)
    requires 0 <= i < |Series(table, id, from, to, maxPoints)|
    requires Series(table, id, from, to, maxPoints)[i].status == STATUS_DOWN
    ensures IsOutage(table, id, t, from, to)
    ensures var p := Series(table, id, from, to, maxPoints)[i];
            && t <= p.ts && BucketAt(t, from, to, maxPoints) == BucketAt(p.ts, from, to, maxPoints)
            && p.ts - t < WindowWidth(from, to, maxPoints)
  {
    var g := Groups(ProbesOf(table, id), from, to, maxPoints)[i];
    PointRank(table, id, from, to, maxPoints, i);
    var r :| r in g && Rank(r.val) == Worst(g);
    PointOfGroup(table, id, from, to, maxPoints, i, r);
    ProbesOfMembers(table, id, r);
    t := r.ts;
  }

  /** A probe of the service in the window and in the bucket of the instant `ts`. */
  ghost predicate IsProbeOfBucket(table: seq<HealthRow>, id: string, r: HealthRow, ts: int, from: int, to: int,
                                  maxPoints: int)
  {
    IsProbe(table, id, r, from, to) && BucketAt(r.ts, from, to, maxPoints) == BucketAt(ts, from, to, maxPoints)
  }

  lemma BucketAtIs(r: Row<string>, from: int, to: int, maxPoints: int)
    ensures BucketAt(r.ts, from, to, maxPoints) == BucketOf(r, from, WindowWidth(from, to, maxPoints))
  {
  }

  lemma GroupHasProbes(table: seq<HealthRow>, id: string, from: int, to: int, maxPoints: int, i: int, r: HealthRow)
    requires from <= to && 0 <= i < |Series(table, id, from, to, maxPoints)|
    ensures IsProbeOfBucket(table, id, r, Series(table, id, from, to, maxPoints)[i].ts, from, to, maxPoints)
       <==> && r.val.serviceId == id
            && Row(r.ts, r.val.status) in Groups(ProbesOf(table, id), from, to, maxPoints)[i]
  {
    var probe := Row(r.ts, r.val.status);
    assert r.val.serviceId == id ==> r == Row(r.ts, Probe(id, r.val.status));
    ProbesOfMembers(table, id, probe);
    GroupHolds(ProbesOf(table, id), from, to, maxPoints, i, probe);
    BucketAtIs(probe, from, to, maxPoints);
    BucketAtIs(NewestPerBucket(ProbesOf(table, id), from, to, maxPoints)[i], from, to, maxPoints);
  }

  /** What a point says of its bucket: down when some probe there was down; unknown when none was
      but some was unknown; up when all were neither. */
  lemma PointStatusIff(table: seq<HealthRow>, id: string, from: int, to: int, maxPoints: int, i: int)
    requires from <= to && 0 <= i < |Series(table, id, from, to, maxPoints)|
    ensures var p := Series(table, id, from, to, maxPoints)[i];
            var down := exists r ::
              IsProbeOfBucket(table, id, r, p.ts, from, to, maxPoints) && r.val.status == STATUS_DOWN;
            var unknown := exists r ::
              IsProbeOfBucket(table, id, r, p.ts, from, to, maxPoints) && r.val.status == STATUS_UNKNOWN;
            p.status == if down then STATUS_DOWN else if unknown then STATUS_UNKNOWN else STATUS_UP
  {
    var g := Groups(ProbesOf(table, id), from, to, maxPoints)[i];
    PointRank(table, id, from, to, maxPoints, i);
    forall r ensures IsProbeOfBucket(table, id, r, Series(table, id, from, to, maxPoints)[i].ts, from, to, maxPoints)
                <==> r.val.serviceId == id && Row(r.ts, r.val.status) in g
    {
      GroupHasProbes(table, id, from, to, maxPoints, i, r);
    }
    var worst :| worst in g && Rank(worst.val) == Worst(g);
    var row := Row(worst.ts, Probe(id, worst.val));
    assert row.val.serviceId == id && Row(row.ts, row.val.status) == worst;
  }
}
