/** The limiter of internal/auth/ratelimit.go against a record of its answers: whether a request
    is admitted, told from the admissions before it alone, without buckets or evictions. */
module RateRecord {
  import opened RateLimiter

  ghost predicate ChronologicalRun(events: seq<Event>) {
    forall i, j :: 0 <= i < j < |events| ==> events[i].at <= events[j].at
  }

  /** Event `i` is a request of `key` the record admits. */
  ghost predicate Admits(c: Config, events: seq<Event>, i: nat, key: string)
    requires i < |events|
    decreases i, 3
  {
    events[i].Allow? && events[i].key == key && ShouldAdmit(c, events, i)
  }

  /** How many requests of `key` the record admits from event `j` on and before event `i`. */
  ghost function Spent(c: Config, events: seq<Event>, j: nat, i: nat, key: string): nat
    requires i <= |events|
    decreases i, 0
  {
    if i <= j then 0 else Spent(c, events, j, i - 1, key) + (if Admits(c, events, i - 1, key) then 1 else 0)
  }

  /** What a stretch of the run that began with the admission `j` leaves at `t`: the burst and what
      was earned since, less what was spent. */
  ghost function Left(c: Config, events: seq<Event>, j: nat, i: nat, key: string, t: int): real
    requires j < i <= |events|
    decreases i, 1
  {
    c.burst as real + c.Gain(t - events[j].at) - Spent(c, events, j, i, key) as real
  }

  /** A request is admitted when every stretch that ends with it leaves a whole token: no stretch
      holds admissions of the key that, plus one, exceed burst plus rate times its length. */
  ghost predicate ShouldAdmit(c: Config, events: seq<Event>, i: nat)
    requires i < |events|
    decreases i, 2
  {
    events[i].Allow? ==>
      forall j: nat :: j < i && Admits(c, events, j, events[i].key) ==>
        Left(c, events, j, i, events[i].key, events[i].at) >= 1.0
  }

  /** The buckets after the first `n` events of a run that starts with none. */
  function StateAt(c: Config, events: seq<Event>, n: nat): Buckets
    requires n <= |events|
  {
    if n == 0 then map[] else StateAfter(c, StateAt(c, events, n - 1), events[n - 1])
  }

  function AnswerAt(c: Config, events: seq<Event>, i: nat): Answer
    requires i < |events|
  {
    AnswerTo(c, StateAt(c, events, i), events[i])
  }

  /** `level` is what the tightest stretch leaves, or the burst when none is tighter. */
  ghost predicate IsTightest(c: Config, events: seq<Event>, n: nat, key: string, t: int, level: real)
    requires n <= |events|
  {
    && level <= c.burst as real
    && (forall j: nat :: j < n && Admits(c, events, j, key) ==> level <= Left(c, events, j, n, key, t))
    && (level == c.burst as real
        || exists j: nat :: j < n && Admits(c, events, j, key) && level == Left(c, events, j, n, key, t))
  }

  function LastAt(events: seq<Event>, n: nat): int
    requires 0 < n <= |events|
  {
    events[n - 1].at
  }

  lemma {:induction false} StaysSane(c: Config, events: seq<Event>, n: nat, now: int)
    requires c.Valid() && ChronologicalRun(events) && n <= |events| && (n > 0 ==> LastAt(events, n) <= now)
    ensures Sane(c, StateAt(c, events, n), now)
  {
    if n > 0 {
      StaysSane(c, events, n - 1, events[n - 1].at);
      StepKeepsSane(c, StateAt(c, events, n - 1), events[n - 1], events[n - 1].at);
    }
  }

  /** A step that admits no request of the key leaves its level as it would have been. */
  lemma OtherStepKeepsLevel(c: Config, m: Buckets, e: Event, key: string, t: int)
    requires c.Valid() && RefillsBeforeEviction(c) && Sane(c, m, e.at) && e.at <= t
    requires !(e.Allow? && e.key == key && AnswerTo(c, m, e) == Admitted)
    ensures LevelOf(c, StateAfter(c, m, e), key, t) == LevelOf(c, m, key, t)
  {
    GainIsMonotone(c, 0, 0);
    if e.Cleanup? && key in m && key !in Sweep(c, m, e.at) {
      EvictedIsFull(c, m[key], e.at);
      LevelGrows(c, m[key], e.at, t);
    }
  }

  lemma AdmissionSpendsOne(c: Config, m: Buckets, e: Event, t: int)
    requires c.Valid() && e.Allow? && AnswerTo(c, m, e) == Admitted && e.at <= t
    ensures var earned := LevelOf(c, m, e.key, e.at) - 1.0 + c.Gain(t - e.at);
            LevelOf(c, StateAfter(c, m, e), e.key, t)
              == if earned > c.burst as real then c.burst as real else earned
  {
  }

  lemma LeftLater(c: Config, events: seq<Event>, j: nat, n: nat, next: nat, key: string, t: int)
    requires j < n < |events| && next == n + 1 && events[n].at <= t
    ensures Left(c, events, j, next, key, t)
         == Left(c, events, j, n, key, events[n].at) + c.Gain(t - events[n].at)
              - (if Admits(c, events, n, key) then 1.0 else 0.0)
  {
    GainIsAdditive(c, events[n].at - events[j].at, t - events[n].at);
  }

  lemma LeftByOwn(c: Config, events: seq<Event>, n: nat, next: nat, key: string, t: int)
    requires n < |events| && next == n + 1 && Admits(c, events, n, key)
    ensures Left(c, events, n, next, key, t) == c.burst as real + c.Gain(t - events[n].at) - 1.0
  {
    assert Spent(c, events, n, n, key) == 0;
  }

  /** After an admission: one less and what has been earned since, within the burst. */
  lemma TightestAfterAdmission(c: Config, events: seq<Event>, n: nat, next: nat, key: string, t: int,
                               before: real, after: real)
    requires c.Valid() && n < |events| && next == n + 1 && events[n].at <= t && Admits(c, events, n, key)
    requires IsTightest(c, events, n, key, events[n].at, before)
    requires var earned := before - 1.0 + c.Gain(t - events[n].at);
             after == if earned > c.burst as real then c.burst as real else earned
    ensures IsTightest(c, events, next, key, t, after)
  {
    LeftByOwn(c, events, n, next, key, t);
    forall j: nat | j < next && Admits(c, events, j, key) ensures after <= Left(c, events, j, next, key, t) {
      if j < n {
        LeftLater(c, events, j, n, next, key, t);
      }
    }
    if after != c.burst as real {
      if before == c.burst as real {
        assert after == Left(c, events, n, next, key, t);
      } else {
        var j: nat :| j < n && Admits(c, events, j, key) && before == Left(c, events, j, n, key, events[n].at);
        LeftLater(c, events, j, n, next, key, t);
        assert after == Left(c, events, j, next, key, t);
      }
    }
  }

  lemma TightestUnchanged(c: Config, events: seq<Event>, n: nat, next: nat, key: string, t: int, level: real)
    requires n < |events| && next == n + 1 && !Admits(c, events, n, key)
    requires IsTightest(c, events, n, key, t, level)
    ensures IsTightest(c, events, next, key, t, level)
  {
    forall j: nat | j < n ensures Left(c, events, j, next, key, t) == Left(c, events, j, n, key, t) {
    }
  }

  lemma TightestDecides(c: Config, events: seq<Event>, i: nat, level: real)
    requires c.Valid() && i < |events| && events[i].Allow?
    requires IsTightest(c, events, i, events[i].key, events[i].at, level)
    ensures level >= 1.0 <==> ShouldAdmit(c, events, i)
  {
  }

  /** In every run the level of a key is what the tightest stretch of its admissions leaves. */
  lemma {:induction false} LevelIsTightest(c: Config, events: seq<Event>, n: nat, key: string, t: int)
    requires c.Valid() && RefillsBeforeEviction(c) && ChronologicalRun(events)
    requires n <= |events| && (n > 0 ==> LastAt(events, n) <= t)
    ensures IsTightest(c, events, n, key, t, LevelOf(c, StateAt(c, events, n), key, t))
  {
    GainIsMonotone(c, 0, 0);
    if n > 0 {
      var e, m := events[n - 1], StateAt(c, events, n - 1);
      LevelIsTightest(c, events, n - 1, key, e.at);
      StaysSane(c, events, n - 1, e.at);
      if e.Allow? && e.key == key {
        TightestDecides(c, events, n - 1, LevelOf(c, m, key, e.at));
      }
      if Admits(c, events, n - 1, key) {
        AdmissionSpendsOne(c, m, e, t);
        TightestAfterAdmission(c, events, n - 1, n, key, t, LevelOf(c, m, key, e.at),
                               LevelOf(c, StateAt(c, events, n), key, t));
      } else {
        LevelIsTightest(c, events, n - 1, key, t);
        OtherStepKeepsLevel(c, m, e, key, t);
        TightestUnchanged(c, events, n - 1, n, key, t, LevelOf(c, m, key, t));
      }
    }
  }

  /** In every run a request is admitted exactly when the record says so: it is refused if and only
      if some stretch ending with it holds admissions of the key that, plus one, exceed burst plus
      rate times its length. */
  lemma AnswersMatchRecord(c: Config, events: seq<Event>, i: nat)
    requires c.Valid() && RefillsBeforeEviction(c) && ChronologicalRun(events)
    requires i < |events| && events[i].Allow?
    ensures AnswerAt(c, events, i) == Admitted <==> ShouldAdmit(c, events, i)
  {
    assert i > 0 ==> events[i - 1].at <= events[i].at;
    LevelIsTightest(c, events, i, events[i].key, events[i].at);
    TightestDecides(c, events, i, LevelOf(c, StateAt(c, events, i), events[i].key, events[i].at));
  }

  /** A key that has been left alone for as long as one token takes is admitted, from any state. */
  lemma PatienceIsAdmitted(c: Config, m: Buckets, key: string, now: int, t: int)
    requires c.Valid() && Sane(c, m, now) && now <= t && c.Gain(t - now) >= 1.0
    ensures AnswerTo(c, m, Allow(t, key)) == Admitted
  {
    if key in m {
      GainIsMonotone(c, t - now, t - m[key].last);
    } else {
      GainIsMonotone(c, 0, 0);
    }
  }

  lemma RunStateAppend(c: Config, m: Buckets, a: seq<Event>, e: Event)
    ensures RunState(c, m, a + [e]) == StateAfter(c, RunState(c, m, a), e)
    decreases a
  {
    if a == [] {
      assert [] + [e] == [e];
    } else {
      assert (a + [e])[1..] == a[1..] + [e];
      RunStateAppend(c, StateAfter(c, m, a[0]), a[1..], e);
    }
  }

  lemma {:induction false} StateAtIsRunState(c: Config, events: seq<Event>, n: nat)
    requires n <= |events|
    ensures StateAt(c, events, n) == RunState(c, map[], events[..n])
  {
    if n > 0 {
      StateAtIsRunState(c, events, n - 1);
      RunStateAppend(c, map[], events[..n - 1], events[n - 1]);
      assert events[..n - 1] + [events[n - 1]] == events[..n];
    }
  }

  lemma AnswerAtIsAnswer(c: Config, events: seq<Event>, i: nat)
    requires i < |events|
    ensures AnswerAt(c, events, i) == Answers(c, map[], events)[i]
  {
    StateAtIsRunState(c, events, i);
    AnswersAppend(c, map[], events[..i], events[i..]);
    assert events[..i] + events[i..] == events;
  }

  ghost predicate MatchesRecord(c: Config, events: seq<Event>) {
    forall i: nat :: i < |events| && events[i].Allow? ==>
      (AnswerAt(c, events, i) == Admitted <==> ShouldAdmit(c, events, i))
  }

  function SweepSpend(c: Config): seq<Event>
    requires c.burst > 0
  {
    [Cleanup(c.idleTTL + 1)] + Volley("client", c.idleTTL + 1, c.burst)
  }

  lemma SpendSweepSpendAnswers(c: Config) returns (spent: Buckets)
    requires c.Valid()
    ensures AllAdmitted(Answers(c, map[], Volley("client", 0, c.burst)))
    ensures AllAdmitted(Answers(c, spent, SweepSpend(c))[1..])
    ensures Answers(c, map[], SpendSweepSpend(c))
         == Answers(c, map[], Volley("client", 0, c.burst)) + Answers(c, spent, SweepSpend(c))
  {
    spent := SpentBucket(c);
    VolleyDrains(c, map[], "client", 0, c.burst);
    SecondVolley(c, spent);
    AnswersAppend(c, map[], Volley("client", 0, c.burst), SweepSpend(c));
  }

  lemma SpendSweepSpendIsAdmitted(c: Config, i: nat)
    requires c.Valid() && i < |SpendSweepSpend(c)| && SpendSweepSpend(c)[i].Allow?
    ensures AnswerAt(c, SpendSweepSpend(c), i) == Admitted
  {
    AnswerAtIsAnswer(c, SpendSweepSpend(c), i);
    var spent := SpendSweepSpendAnswers(c);
    var rest := Answers(c, spent, SweepSpend(c));
    if i > c.burst {
      assert rest[1..][i - c.burst - 1] == rest[i - c.burst];
    }
  }

  /** If the record agrees, the first `n` of the two volleys are all on it. */
  lemma {:induction false} VolleysSpend(c: Config, n: nat)
    requires c.Valid() && MatchesRecord(c, SpendSweepSpend(c)) && n <= |SpendSweepSpend(c)|
    ensures Spent(c, SpendSweepSpend(c), 0, n, "client") == if n <= c.burst then n else n - 1
  {
    if n > 0 {
      VolleysSpend(c, n - 1);
      if SpendSweepSpend(c)[n - 1].Allow? {
        SpendSweepSpendIsAdmitted(c, n - 1);
      }
    }
  }

  lemma AgreementMeansRefill(c: Config)
    requires c.Valid() && MatchesRecord(c, SpendSweepSpend(c))
    ensures RefillsBeforeEviction(c)
  {
    var run := SpendSweepSpend(c);
    var last := |run| - 1;
    SpendSweepSpendIsAdmitted(c, 0);
    SpendSweepSpendIsAdmitted(c, last);
    VolleysSpend(c, last);
    assert Admits(c, run, 0, "client") && ShouldAdmit(c, run, last);
    assert Left(c, run, 0, last, "client", run[last].at) >= 1.0;
  }

  /** The record is right about every run exactly when idle buckets refill before eviction. */
  lemma AnswersMatchRecordIff(c: Config)
    requires c.Valid()
    ensures (forall events :: ChronologicalRun(events) ==> MatchesRecord(c, events)) <==> RefillsBeforeEviction(c)
  {
    if RefillsBeforeEviction(c) {
      forall events: seq<Event>, i: nat | ChronologicalRun(events) && i < |events| && events[i].Allow?
        ensures AnswerAt(c, events, i) == Admitted <==> ShouldAdmit(c, events, i)
      {
        AnswersMatchRecord(c, events, i);
      }
    } else {
      SpendSweepSpendInstants(c);
      assert ChronologicalRun(SpendSweepSpend(c));
      if MatchesRecord(c, SpendSweepSpend(c)) {
        AgreementMeansRefill(c);
      }
    }
  }
}
