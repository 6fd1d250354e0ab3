/** The per-key token buckets of internal/auth/ratelimit.go and the janitor that evicts idle
    ones. Times are nanoseconds on a clock that never steps back; token counts are exact. */
module RateLimiter {
  const SECOND := 1_000_000_000

  datatype Config = Config(perSec: real, burst: int, idleTTL: int) {
    ghost predicate Valid() {
      perSec > 0.0 && burst > 0 && idleTTL > 0
    }

    /** Tokens earned in `dt` nanoseconds. */
    function Gain(dt: int): real {
      perSec * (dt as real / SECOND as real)
    }
  }

  /** `NewRateLimiter`'s defaults for values a caller left out. */
  function WithDefaults(perSec: real, burst: int, idleTTL: int): (c: Config)
    ensures c.Valid()
    ensures Config(perSec, burst, idleTTL).Valid() ==> c == Config(perSec, burst, idleTTL)
    ensures perSec > 0.0 || c.perSec == 10.0
    ensures burst > 0 || c.burst == 20
    ensures idleTTL > 0 || c.idleTTL == 300 * SECOND
  {
    Config(if perSec <= 0.0 then 10.0 else perSec,
           if burst <= 0 then 20 else burst,
           if idleTTL <= 0 then 5 * 60 * SECOND else idleTTL)
  }

  /** A limiter holding `tokens` as of instant `last`, last asked at `seenAt`. */
  datatype Bucket = Bucket(tokens: real, last: int, seenAt: int)

  type Buckets = map<string, Bucket>

  /** The tokens available at `t`: what was left plus what was earned, never above the burst. */
  function Level(c: Config, b: Bucket, t: int): real {
    var earned := b.tokens + c.Gain(t - b.last);
    if earned > c.burst as real then c.burst as real else earned
  }

  datatype Event = Allow(at: int, key: string) | Cleanup(at: int)
  datatype Answer = Admitted | Refused | Swept

  /** The bucket a key is charged against: its own, or a fresh full one. */
  function BucketFor(c: Config, m: Buckets, key: string, t: int): Bucket {
    if key in m then m[key] else Bucket(c.burst as real, t, t)
  }

  /** The tokens a request of `key` would find at `t`. */
  function LevelOf(c: Config, m: Buckets, key: string, t: int): real {
    Level(c, BucketFor(c, m, key, t), t)
  }

  function Charged(c: Config, b: Bucket, t: int): Bucket {
    if Level(c, b, t) >= 1.0 then Bucket(Level(c, b, t) - 1.0, t, t) else b.(seenAt := t)
  }

  function Sweep(c: Config, m: Buckets, t: int): Buckets {
    map k | k in m && m[k].seenAt >= t - c.idleTTL :: m[k]
  }

  function StateAfter(c: Config, m: Buckets, e: Event): Buckets {
    match e
    case Allow(t, key) => m[key := Charged(c, BucketFor(c, m, key, t), t)]
    case Cleanup(t) => Sweep(c, m, t)
  }

  function AnswerTo(c: Config, m: Buckets, e: Event): Answer {
    match e
    case Allow(t, key) => if LevelOf(c, m, key, t) >= 1.0 then Admitted else Refused
    case Cleanup(_) => Swept
  }

  /** The answers to a run of events. */
  function Answers(c: Config, m: Buckets, events: seq<Event>): (answers: seq<Answer>)
    ensures |answers| == |events|
    decreases events
  {
    if events == [] then []
    else [AnswerTo(c, m, events[0])] + Answers(c, StateAfter(c, m, events[0]), events[1..])
  }

  /** The answers of the same limiter had it never evicted anything. */
  function IdealAnswers(c: Config, m: Buckets, events: seq<Event>): (answers: seq<Answer>)
    ensures |answers| == |events|
    decreases events
  {
    if events == [] then [] else
    var next := if events[0].Cleanup? then m else StateAfter(c, m, events[0]);
    [AnswerTo(c, m, events[0])] + IdealAnswers(c, next, events[1..])
  }

  ghost predicate Chronological(events: seq<Event>, start: int) {
    && (events != [] ==> start <= events[0].at)
    && (forall i, j :: 0 <= i < j < |events| ==> events[i].at <= events[j].at)
  }

  /** Buckets as they are at instant `now`: never overdrawn, never over-full, never from the future. */
  ghost predicate Sane(c: Config, m: Buckets, now: int) {
    forall k :: k in m ==> 0.0 <= m[k].tokens <= c.burst as real && m[k].last <= m[k].seenAt <= now
  }

  lemma GainIsAdditive(c: Config, a: int, b: int)
    ensures c.Gain(a) + c.Gain(b) == c.Gain(a + b)
  {
    assert (a + b) as real / SECOND as real == a as real / SECOND as real + b as real / SECOND as real;
  }

  lemma GainIsMonotone(c: Config, a: int, b: int)
    requires c.Valid() && a <= b
    ensures c.Gain(a) <= c.Gain(b) && c.Gain(0) == 0.0
  {
    assert a as real / SECOND as real <= b as real / SECOND as real;
  }

  lemma LevelGrows(c: Config, b: Bucket, t: int, t': int)
    requires c.Valid() && t <= t'
    ensures Level(c, b, t) <= Level(c, b, t') <= Level(c, b, t) + c.Gain(t' - t)
  {
    GainIsAdditive(c, t - b.last, t' - t);
    GainIsMonotone(c, 0, t' - t);
  }

  lemma StepKeepsSane(c: Config, m: Buckets, e: Event, now: int)
    requires c.Valid() && Sane(c, m, now) && now <= e.at
    ensures Sane(c, StateAfter(c, m, e), e.at)
  {
  }

  /** The janitor's one promise: an evicted bucket has refilled by then. */
  ghost predicate RefillsBeforeEviction(c: Config) {
    c.Gain(c.idleTTL + 1) >= c.burst as real
  }

  lemma EvictedIsFull(c: Config, b: Bucket, t: int)
    requires c.Valid() && RefillsBeforeEviction(c)
    requires 0.0 <= b.tokens && b.last <= b.seenAt < t - c.idleTTL
    ensures Level(c, b, t) == c.burst as real
  {
    GainIsMonotone(c, c.idleTTL + 1, t - b.last);
  }

  /** The evicting map and the one that never forgets: equal where both have a key, and a key
      only the second remembers is full there. */
  ghost predicate Forgets(c: Config, m: Buckets, ideal: Buckets, now: int) {
    && (forall k :: k in m ==> k in ideal && m[k] == ideal[k])
    && (forall k :: k in ideal && k !in m ==> Level(c, ideal[k], now) == c.burst as real)
  }

  lemma LaterForgets(c: Config, m: Buckets, ideal: Buckets, now: int, t: int)
    requires c.Valid() && now <= t && Forgets(c, m, ideal, now)
    ensures Forgets(c, m, ideal, t)
  {
    forall k | k in ideal && k !in m ensures Level(c, ideal[k], t) == c.burst as real {
      LevelGrows(c, ideal[k], now, t);
    }
  }

  lemma StepKeepsForgets(c: Config, m: Buckets, ideal: Buckets, e: Event, now: int)
    requires c.Valid() && RefillsBeforeEviction(c) && now <= e.at
    requires Sane(c, ideal, now) && Forgets(c, m, ideal, now)
    ensures AnswerTo(c, m, e) == AnswerTo(c, ideal, e)
    ensures Forgets(c, StateAfter(c, m, e), if e.Cleanup? then ideal else StateAfter(c, ideal, e), e.at)
  {
    LaterForgets(c, m, ideal, now, e.at);
    match e
    case Allow(t, key) =>
      GainIsMonotone(c, 0, 0);
    case Cleanup(t) =>
      forall k | k in ideal && k !in Sweep(c, m, t) ensures Level(c, ideal[k], t) == c.burst as real {
        if k in m {
          EvictedIsFull(c, ideal[k], t);
        }
      }
  }

  lemma {:induction false} EvictionIsInvisibleFrom(c: Config, m: Buckets, ideal: Buckets, events: seq<Event>, now: int)
    requires c.Valid() && RefillsBeforeEviction(c) && Chronological(events, now)
    requires Sane(c, ideal, now) && Forgets(c, m, ideal, now)
    ensures Answers(c, m, events) == IdealAnswers(c, ideal, events)
    decreases events
  {
    if events != [] {
      var e := events[0];
      StepKeepsForgets(c, m, ideal, e, now);
      StepKeepsSane(c, ideal, e, now);
      var ideal' := if e.Cleanup? then ideal else StateAfter(c, ideal, e);
      EvictionIsInvisibleFrom(c, StateAfter(c, m, e), ideal', events[1..], e.at);
    }
  }

  /** `n` requests for one key, all at instant `t`. */
  function Volley(key: string, t: int, n: nat): (events: seq<Event>)
    ensures |events| == n
  {
    seq(n, _ => Allow(t, key))
  }

  function RunState(c: Config, m: Buckets, events: seq<Event>): Buckets
    decreases events
  {
    if events == [] then m else RunState(c, StateAfter(c, m, events[0]), events[1..])
  }

  lemma {:induction false} AnswersAppend(c: Config, m: Buckets, a: seq<Event>, b: seq<Event>)
    ensures Answers(c, m, a + b) == Answers(c, m, a) + Answers(c, RunState(c, m, a), b)
    decreases a
  {
    if a == [] {
      assert a + b == b;
    } else {
      AnswersAppend(c, StateAfter(c, m, a[0]), a[1..], b);
      assert (a + b)[1..] == a[1..] + b;
    }
  }

  lemma {:induction false} IdealAppend(c: Config, m: Buckets, a: seq<Event>, b: seq<Event>)
    requires forall i :: 0 <= i < |a| ==> a[i].Allow?
    ensures IdealAnswers(c, m, a + b) == Answers(c, m, a) + IdealAnswers(c, RunState(c, m, a), b)
    decreases a
  {
    if a == [] {
      assert a + b == b;
    } else {
      var m' := StateAfter(c, m, a[0]);
      IdealAppend(c, m', a[1..], b);
      assert (a + b)[1..] == a[1..] + b;
      var first, middle := [AnswerTo(c, m, a[0])], Answers(c, m', a[1..]);
      var rest := IdealAnswers(c, RunState(c, m', a[1..]), b);
      assert first + (middle + rest) == (first + middle) + rest;
    }
  }

  ghost predicate AllAdmitted(answers: seq<Answer>) {
    forall i :: 0 <= i < |answers| ==> answers[i] == Admitted
  }

  /** A volley takes one token a request: it is admitted whole exactly when the bucket holds
      that many, and then leaves the rest. */
  lemma {:induction false} VolleyDrains(c: Config, m: Buckets, key: string, t: int, n: nat)
    requires c.Valid() && LevelOf(c, m, key, t) >= 0.0
    ensures var level := LevelOf(c, m, key, t);
            && (AllAdmitted(Answers(c, m, Volley(key, t, n))) <==> n as real <= level)
            && (0 < n && n as real <= level ==>
                  RunState(c, m, Volley(key, t, n)) == m[key := Bucket(level - n as real, t, t)])
    decreases n
  {
    if n > 0 {
      var volley := Volley(key, t, n);
      var m' := StateAfter(c, m, volley[0]);
      var answers := Answers(c, m, volley);
      assert volley[1..] == Volley(key, t, n - 1);
      assert answers == [AnswerTo(c, m, volley[0])] + Answers(c, m', volley[1..]);
      if LevelOf(c, m, key, t) >= 1.0 {
        GainIsMonotone(c, 0, 0);
        VolleyDrains(c, m', key, t, n - 1);
        assert AllAdmitted(answers) <==> AllAdmitted(answers[1..]);
      } else {
        assert answers[0] == Refused;
      }
    }
  }

  /** A run the janitor changes whenever a bucket can be evicted before it has refilled: spend
      the burst, wait out the idle time, sweep, and spend it again. */
  function SpendSweepSpend(c: Config): seq<Event>
    requires c.burst > 0
  {
    var later := c.idleTTL + 1;
    Volley("client", 0, c.burst) + ([Cleanup(later)] + Volley("client", later, c.burst))
  }

  lemma SpentBucket(c: Config) returns (spent: Buckets)
    requires c.Valid()
    ensures spent == map["client" := Bucket(0.0, 0, 0)]
    ensures RunState(c, map[], Volley("client", 0, c.burst)) == spent
    ensures c.Gain(c.idleTTL + 1) >= 0.0
    ensures LevelOf(c, spent, "client", c.idleTTL + 1)
         == if RefillsBeforeEviction(c) then c.burst as real else c.Gain(c.idleTTL + 1)
  {
    GainIsMonotone(c, 0, c.idleTTL + 1);
    VolleyDrains(c, map[], "client", 0, c.burst);
    spent := map["client" := Bucket(0.0, 0, 0)];
  }

  lemma SecondVolley(c: Config, spent: Buckets)
    requires c.Valid() && spent == map["client" := Bucket(0.0, 0, 0)]
    requires LevelOf(c, spent, "client", c.idleTTL + 1) >= 0.0
    ensures var later := c.idleTTL + 1;
            var tail := [Cleanup(later)] + Volley("client", later, c.burst);
            && AllAdmitted(Answers(c, spent, tail)[1..])
            && (AllAdmitted(IdealAnswers(c, spent, tail)[1..])
                <==> c.burst as real <= LevelOf(c, spent, "client", later))
  {
    var later := c.idleTTL + 1;
    var second := Volley("client", later, c.burst);
    var tail := [Cleanup(later)] + second;
    assert tail[1..] == second;
    assert Sweep(c, spent, later) == map[];
    GainIsMonotone(c, 0, 0);
    VolleyDrains(c, map[], "client", later, c.burst);
    VolleyDrains(c, spent, "client", later, c.burst);
    IdealAppend(c, spent, second, []);
    assert second + [] == second;
    assert Answers(c, spent, second) + [] == Answers(c, spent, second);
  }

  lemma EarlyEvictionShows(c: Config)
    requires c.Valid() && !RefillsBeforeEviction(c)
    ensures Answers(c, map[], SpendSweepSpend(c)) != IdealAnswers(c, map[], SpendSweepSpend(c))
  {
    var first := Volley("client", 0, c.burst);
    var tail := [Cleanup(c.idleTTL + 1)] + Volley("client", c.idleTTL + 1, c.burst);
    var spent := SpentBucket(c);
    SecondVolley(c, spent);
    AnswersAppend(c, map[], first, tail);
    IdealAppend(c, map[], first, tail);
    assert Answers(c, spent, tail) == (Answers(c, map[], first) + Answers(c, spent, tail))[|first|..];
    assert IdealAnswers(c, spent, tail) == (Answers(c, map[], first) + IdealAnswers(c, spent, tail))[|first|..];
  }

  lemma SpendSweepSpendInstants(c: Config)
    requires c.Valid()
    ensures Chronological(SpendSweepSpend(c), 0)
    ensures forall e :: e in SpendSweepSpend(c) ==> e.at == 0 || e.at == c.idleTTL + 1
  {
    var run := SpendSweepSpend(c);
    assert forall i :: 0 <= i < |run| ==> run[i].at == if i < c.burst then 0 else c.idleTTL + 1;
  }

  /** Eviction is invisible, on every schedule of requests and sweeps over any keys, exactly
      when an idle bucket refills before it may be evicted. */
  lemma EvictionIsInvisibleIff(c: Config)
    requires c.Valid()
    ensures (forall events :: Chronological(events, 0) ==>
               Answers(c, map[], events) == IdealAnswers(c, map[], events))
       <==> RefillsBeforeEviction(c)
  {
    if RefillsBeforeEviction(c) {
      forall events | Chronological(events, 0)
        ensures Answers(c, map[], events) == IdealAnswers(c, map[], events)
      {
        EvictionIsInvisibleFrom(c, map[], map[], events, 0);
      }
    } else {
      EarlyEvictionShows(c);
      SpendSweepSpendInstants(c);
    }
  }

  /** How often `key` was admitted in a run. */
  function Admissions(c: Config, m: Buckets, events: seq<Event>, key: string): nat
    decreases events
  {
    if events == [] then 0 else
    (if events[0].Allow? && events[0].key == key && AnswerTo(c, m, events[0]) == Admitted then 1 else 0)
    + Admissions(c, StateAfter(c, m, events[0]), events[1..], key)
  }

  lemma StepSpends(c: Config, m: Buckets, e: Event, key: string, now: int)
    requires c.Valid() && RefillsBeforeEviction(c) && now <= e.at && Sane(c, m, now)
    ensures LevelOf(c, StateAfter(c, m, e), key, e.at)
              + (if e.Allow? && e.key == key && AnswerTo(c, m, e) == Admitted then 1.0 else 0.0)
         <= LevelOf(c, m, key, now) + c.Gain(e.at - now)
  {
    GainIsMonotone(c, 0, e.at - now);
    if key in m {
      LevelGrows(c, m[key], now, e.at);
      if e.Cleanup? && key !in Sweep(c, m, e.at) {
        EvictedIsFull(c, m[key], e.at);
      }
    }
  }

  lemma LevelIsWithinBurst(c: Config, m: Buckets, key: string, now: int)
    requires c.Valid() && Sane(c, m, now)
    ensures 0.0 <= LevelOf(c, m, key, now) <= c.burst as real
  {
    if key in m {
      GainIsMonotone(c, 0, now - m[key].last);
    }
  }

  /** Over any stretch of a run up to instant `until`, a key is admitted at most as often as
      its tokens at the start plus those earned meanwhile. */
  lemma {:induction false} AdmissionsAreBounded(c: Config, m: Buckets, events: seq<Event>, key: string,
                                                now: int, until: int)
    requires c.Valid() && RefillsBeforeEviction(c) && Sane(c, m, now)
    requires Chronological(events, now) && now <= until && forall e :: e in events ==> e.at <= until
    ensures Admissions(c, m, events, key) as real <= LevelOf(c, m, key, now) + c.Gain(until - now)
    decreases events
  {
    if events == [] {
      GainIsMonotone(c, 0, until - now);
      LevelIsWithinBurst(c, m, key, now);
    } else {
      var e := events[0];
      assert e in events;
      StepSpends(c, m, e, key, now);
      StepKeepsSane(c, m, e, now);
      GainIsAdditive(c, e.at - now, until - e.at);
      AdmissionsAreBounded(c, StateAfter(c, m, e), events[1..], key, e.at, until);
    }
  }

  lemma {:induction false} RunStaysSane(c: Config, m: Buckets, events: seq<Event>, start: int, now: int)
    requires c.Valid() && Sane(c, m, start) && Chronological(events, start)
    requires start <= now && forall e :: e in events ==> e.at <= now
    ensures Sane(c, RunState(c, m, events), now)
    decreases events
  {
    if events != [] {
      assert events[0] in events;
      StepKeepsSane(c, m, events[0], start);
      RunStaysSane(c, StateAfter(c, m, events[0]), events[1..], events[0].at, now);
    }
  }

  /** A stretch `during` of a run that began with `before`, from `start` to `end`. */
  ghost predicate Interval(before: seq<Event>, during: seq<Event>, start: int, end: int) {
    && Chronological(before + during, 0) && 0 <= start <= end
    && (forall e :: e in before ==> e.at <= start)
    && (forall e :: e in during ==> start <= e.at <= end)
  }

  ghost predicate WithinBound(c: Config, before: seq<Event>, during: seq<Event>, key: string, start: int, end: int) {
    Admissions(c, RunState(c, map[], before), during, key) as real <= c.burst as real + c.Gain(end - start)
  }

  /** So in any interval of length T of any run that started with no buckets at all, a key is
      admitted at most `burst + perSec * T` times, given that idle buckets refill in time. */
  lemma IntervalAdmissionsAreBounded(c: Config, before: seq<Event>, during: seq<Event>, key: string,
                                     start: int, end: int)
    requires c.Valid() && RefillsBeforeEviction(c) && Interval(before, during, start, end)
    ensures WithinBound(c, before, during, key, start, end)
  {
    assert forall i :: 0 <= i < |before| ==> before[i] == (before + during)[i];
    assert forall i :: 0 <= i < |during| ==> during[i] == (before + during)[|before| + i];
    assert during != [] ==> during[0] in during;
    RunStaysSane(c, map[], before, 0, start);
    AdmissionsAreBounded(c, RunState(c, map[], before), during, key, start, end);
    LevelIsWithinBurst(c, RunState(c, map[], before), key, start);
  }

  lemma {:induction false} AdmissionsAppend(c: Config, m: Buckets, a: seq<Event>, b: seq<Event>, key: string)
    ensures Admissions(c, m, a + b, key) == Admissions(c, m, a, key) + Admissions(c, RunState(c, m, a), b, key)
    decreases a
  {
    if a == [] {
      assert a + b == b;
    } else {
      assert (a + b)[1..] == a[1..] + b;
      AdmissionsAppend(c, StateAfter(c, m, a[0]), a[1..], b, key);
    }
  }

  /** A volley that is admitted whole is admitted as often as it asks. */
  lemma {:induction false} VolleyAdmissions(c: Config, m: Buckets, key: string, t: int, n: nat)
    requires AllAdmitted(Answers(c, m, Volley(key, t, n)))
    ensures Admissions(c, m, Volley(key, t, n), key) == n
    decreases n
  {
    if n > 0 {
      var volley := Volley(key, t, n);
      var m' := StateAfter(c, m, volley[0]);
      assert volley[1..] == Volley(key, t, n - 1);
      assert Answers(c, m, volley)[0] == Admitted;
      assert Answers(c, m', volley[1..]) == Answers(c, m, volley)[1..];
      VolleyAdmissions(c, m', key, t, n - 1);
    }
  }

  lemma SweptVolleyAdmissions(c: Config, spent: Buckets)
    requires c.Valid() && spent == map["client" := Bucket(0.0, 0, 0)]
    ensures var later := c.idleTTL + 1;
            Admissions(c, spent, [Cleanup(later)] + Volley("client", later, c.burst), "client") == c.burst
  {
    var later := c.idleTTL + 1;
    var second := Volley("client", later, c.burst);
    GainIsMonotone(c, 0, 0);
    VolleyDrains(c, map[], "client", later, c.burst);
    VolleyAdmissions(c, map[], "client", later, c.burst);
    assert ([Cleanup(later)] + second)[1..] == second;
    assert Sweep(c, spent, later) == map[];
  }

  /** With eviction before refill the same run admits twice the burst in a stretch that earns
      less than one. */
  lemma EarlyEvictionExceedsBound(c: Config)
    requires c.Valid() && !RefillsBeforeEviction(c)
    ensures !WithinBound(c, [], SpendSweepSpend(c), "client", 0, c.idleTTL + 1)
  {
    var later := c.idleTTL + 1;
    var first := Volley("client", 0, c.burst);
    var spent := SpentBucket(c);
    VolleyDrains(c, map[], "client", 0, c.burst);
    VolleyAdmissions(c, map[], "client", 0, c.burst);
    AdmissionsAppend(c, map[], first, [Cleanup(later)] + Volley("client", later, c.burst), "client");
    SweptVolleyAdmissions(c, spent);
    assert RunState(c, map[], []) == map[];
  }

  lemma SpendSweepSpendIsAnInterval(c: Config)
    requires c.Valid()
    ensures Interval([], SpendSweepSpend(c), 0, c.idleTTL + 1)
  {
    SpendSweepSpendInstants(c);
    assert [] + SpendSweepSpend(c) == SpendSweepSpend(c);
  }

  ghost predicate AlwaysWithinBound(c: Config) {
    forall before, during, key, start, end ::
      Interval(before, during, start, end) ==> WithinBound(c, before, during, key, start, end)
  }

  /** In every interval of length T of every run each key is admitted at most
      `burst + perSec * T` times, if and only if an idle bucket refills before it may be evicted. */
  lemma AdmissionsAreBoundedIff(c: Config)
    requires c.Valid()
    ensures AlwaysWithinBound(c) <==> RefillsBeforeEviction(c)
  {
    if RefillsBeforeEviction(c) {
      forall before, during, key, start, end | Interval(before, during, start, end)
        ensures WithinBound(c, before, during, key, start, end)
      {
        IntervalAdmissionsAreBounded(c, before, during, key, start, end);
      }
    } else {
      EarlyEvictionExceedsBound(c);
      SpendSweepSpendIsAnInterval(c);
      assert !AlwaysWithinBound(c);
    }
  }

  class RateLimiter {
    var buckets: Buckets
    const config: Config

    constructor (perSec: real, burst: int, idleTTL: int)
      ensures buckets == map[] && config == WithDefaults(perSec, burst, idleTTL)
    {
      buckets := map[];
      config := WithDefaults(perSec, burst, idleTTL);
    }

    method Allow(key: string, now: int) returns (ok: bool)
      modifies this`buckets
      ensures buckets == StateAfter(config, old(buckets), Event.Allow(now, key))
      ensures ok <==> AnswerTo(config, old(buckets), Event.Allow(now, key)) == Admitted
    {
      if key !in buckets {
        buckets := buckets[key := Bucket(config.burst as real, now, now)];
      }
      buckets := buckets[key := buckets[key].(seenAt := now)];
      var tokens := Level(config, buckets[key], now);
      ok := tokens >= 1.0;
      if ok {
        buckets := buckets[key := Bucket(tokens - 1.0, now, now)];
      }
    }

    method Cleanup(now: int)
      modifies this`buckets
      ensures buckets == Sweep(config, old(buckets), now)
      ensures buckets == StateAfter(config, old(buckets), Event.Cleanup(now))
    {
      var cutoff := now - config.idleTTL;
      var left := buckets.Keys;
      while left != {}
        invariant left <= old(buckets).Keys
        invariant buckets
               == map k | k in old(buckets) && (k in left || old(buckets)[k].seenAt >= cutoff) :: old(buckets)[k]
      {
        var k :| k in left;
        if buckets[k].seenAt < cutoff {
          buckets := buckets - {k};
        }
        left := left - {k};
      }
    }
  }
}
