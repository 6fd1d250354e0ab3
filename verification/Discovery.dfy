/** The discovery protocol of web/app.js: numbered requests, publish confirmations and replies
    that arrive in any order, and the timeout that reports a silent host. */
module Discovery {
  import opened Wrappers

  datatype Publish = Accepted | TimedOut | Rejected

  /** A "host did not respond" message: the request whose confirmation started the clock, whether
      that request was sent over an earlier connection, and whether it had been answered. */
  datatype Complaint = Complaint(generation: int, stale: bool, answered: bool)

  /** The variables of the code, then history: the request the clock runs for, the newest request
      ever answered, the newest sent before the last reconnect, the requests whose publish has not
      resolved, the dates of the replies applied since the reconnect, and the messages shown. */
  datatype Client = Client(discoveryGeneration: int, answeredGeneration: int, lastResponseAt: int,
                           awaitingDiscovery: bool, timerArmed: bool,
                           clockFor: int, answeredUpTo: int, sentBefore: int, publishing: set<int>,
                           applied: seq<int>, complaints: seq<Complaint>)

  const INITIAL := Client(0, -1, 0, false, false, 0, 0, 0, {}, [], [])

  /** A reply's `createdAt` is 0 when it carries none. `ClearTimers` is what leaving the live view does. */
  datatype Event =
    | Send
    | PublishResolves(generation: int, result: Publish)
    | Reply(createdAt: nat)
    | TimerFires
    | Reconnect
    | ClearTimers

  predicate Enabled(c: Client, e: Event) {
    match e
    case PublishResolves(generation, _) => generation in c.publishing
    case TimerFires => c.timerArmed
    case _ => true
  }

  function OnSend(c: Client): Client {
    var generation := c.discoveryGeneration + 1;
    c.(discoveryGeneration := generation, publishing := c.publishing + {generation})
  }

  function OnPublish(c: Client, generation: int, result: Publish): Client {
    var resolved := c.(publishing := c.publishing - {generation});
    if c.answeredGeneration >= generation || result != Accepted then resolved
    else resolved.(awaitingDiscovery := true, timerArmed := true, clockFor := generation)
  }

  function OnReply(c: Client, createdAt: nat): Client {
    if createdAt != 0 && createdAt < c.lastResponseAt then c
    else c.(lastResponseAt := if createdAt != 0 then createdAt else c.lastResponseAt,
            awaitingDiscovery := false, answeredGeneration := c.discoveryGeneration, timerArmed := false,
            answeredUpTo := c.discoveryGeneration,
            applied := if createdAt != 0 then c.applied + [createdAt] else c.applied)
  }

  function OnTimer(c: Client): Client {
    var fired := c.(timerArmed := false);
    if !c.awaitingDiscovery then fired
    else fired.(awaitingDiscovery := false,
                complaints := c.complaints
                  + [Complaint(c.clockFor, c.clockFor <= c.sentBefore, c.clockFor <= c.answeredUpTo)])
  }

  function Step(c: Client, e: Event): Client {
    match e
    case Send => OnSend(c)
    case PublishResolves(generation, result) => OnPublish(c, generation, result)
    case Reply(createdAt) => OnReply(c, createdAt)
    case TimerFires => OnTimer(c)
    case Reconnect =>
      c.(answeredGeneration := -1, lastResponseAt := 0, awaitingDiscovery := false, timerArmed := false,
         sentBefore := c.discoveryGeneration, applied := [])
    case ClearTimers => c.(timerArmed := false)
  }

  function Run(events: seq<Event>): Client {
    if events == [] then INITIAL else Step(Run(events[..|events| - 1]), events[|events| - 1])
  }

  predicate ValidRun(events: seq<Event>) {
    events == [] ||
    (ValidRun(events[..|events| - 1]) && Enabled(Run(events[..|events| - 1]), events[|events| - 1]))
  }

  /** The record of a run, told from its events alone. How many requests were sent: */
  function Sends(events: seq<Event>): nat {
    if events == [] then 0 else Sends(events[..|events| - 1]) + (if events[|events| - 1].Send? then 1 else 0)
  }

  /** The newest date a reply of this connection carried, 0 for none. */
  function NewestDate(events: seq<Event>): nat {
    if events == [] then 0 else
    var before := NewestDate(events[..|events| - 1]);
    match events[|events| - 1]
    case Reconnect => 0
    case Reply(createdAt) => if createdAt > before then createdAt else before
    case _ => before
  }

  /** A reply counts when it is undated or no older than any dated one of this connection. */
  predicate Counts(before: seq<Event>, e: Event) {
    e.Reply? && (e.createdAt == 0 || e.createdAt >= NewestDate(before))
  }

  /** The dates of the replies of this connection that counted. */
  function CountedDates(events: seq<Event>): seq<int> {
    if events == [] then [] else
    var before, e := events[..|events| - 1], events[|events| - 1];
    if e.Reconnect? then []
    else if Counts(before, e) && e.createdAt != 0 then CountedDates(before) + [e.createdAt]
    else CountedDates(before)
  }

  /** The newest request sent before the last reply that counted: all up to it are answered. */
  function AnsweredEver(events: seq<Event>): nat {
    if events == [] then 0 else
    var before := events[..|events| - 1];
    if Counts(before, events[|events| - 1]) then Sends(before) else AnsweredEver(before)
  }

  /** The same as far as the client still knows, which is back to the last reconnect; -1 for none. */
  function AnsweredHere(events: seq<Event>): int {
    if events == [] then -1 else
    var before := events[..|events| - 1];
    if events[|events| - 1].Reconnect? then -1
    else if Counts(before, events[|events| - 1]) then Sends(before)
    else AnsweredHere(before)
  }

  function SentBeforeReconnect(events: seq<Event>): nat {
    if events == [] then 0 else
    var before := events[..|events| - 1];
    if events[|events| - 1].Reconnect? then Sends(before) else SentBeforeReconnect(before)
  }

  /** A confirmation that comes before any reply the client knows of has answered its request. */
  predicate StartsClock(before: seq<Event>, e: Event) {
    e.PublishResolves? && e.result == Accepted && e.generation > AnsweredHere(before)
  }

  /** A request, a reply that does not count, or a publish that starts no clock. */
  predicate LeavesClock(before: seq<Event>, e: Event) {
    match e
    case Send => true
    case Reply(_) => !Counts(before, e)
    case PublishResolves(_, _) => !StartsClock(before, e)
    case _ => false
  }

  /** The request the clock runs for: the last confirmed one whose clock nothing has stopped. */
  function Clock(events: seq<Event>): Option<int> {
    if events == [] then None else
    var before, e := events[..|events| - 1], events[|events| - 1];
    if StartsClock(before, e) then Some(e.generation)
    else if LeavesClock(before, e) then Clock(before)
    else None
  }

  /** The messages: one for every timer that goes off on a running clock. */
  function Messages(events: seq<Event>): seq<Complaint> {
    if events == [] then [] else
    var before := events[..|events| - 1];
    var clock := Clock(before);
    if events[|events| - 1].TimerFires? && clock.Some?
    then Messages(before)
      + [Complaint(clock.value, clock.value <= SentBeforeReconnect(before), clock.value <= AnsweredEver(before))]
    else Messages(before)
  }

  ghost predicate CountsAgree(c: Client, events: seq<Event>) {
    && c.discoveryGeneration == Sends(events) && c.lastResponseAt == NewestDate(events)
    && c.answeredGeneration == AnsweredHere(events) && c.answeredUpTo == AnsweredEver(events)
    && c.sentBefore == SentBeforeReconnect(events) && c.applied == CountedDates(events)
  }

  ghost predicate ClockAgrees(c: Client, events: seq<Event>) {
    && c.complaints == Messages(events)
    && (c.timerArmed <==> Clock(events).Some?) && (c.timerArmed ==> c.awaitingDiscovery)
    && (c.timerArmed ==> c.clockFor == Clock(events).value)
  }

  lemma {:induction false} RunCountsAgree(events: seq<Event>)
    requires ValidRun(events)
    ensures CountsAgree(Run(events), events)
  {
    if events != [] {
      RunCountsAgree(events[..|events| - 1]);
    }
  }

  /** Over every run the client's variables and messages are those of the record. */
  lemma {:induction false} RunAgreesWithRecord(events: seq<Event>)
    requires ValidRun(events)
    ensures CountsAgree(Run(events), events) && ClockAgrees(Run(events), events)
  {
    RunCountsAgree(events);
    if events != [] {
      RunCountsAgree(events[..|events| - 1]);
      RunAgreesWithRecord(events[..|events| - 1]);
    }
  }

  /** Replies are applied in the order of their dates. */
  ghost predicate InDateOrder(c: Client) {
    && (forall i, j :: 0 <= i < j < |c.applied| ==> c.applied[i] <= c.applied[j])
    && c.lastResponseAt == (if c.applied == [] then 0 else c.applied[|c.applied| - 1])
  }

  /** The clock only runs while an answer is awaited, and an answer is only awaited while the
      newest request is unanswered; the clock of a request of this connection stands for a
      request not answered. */
  ghost predicate ClockIsHonest(c: Client) {
    && (c.timerArmed ==> c.awaitingDiscovery)
    && (c.awaitingDiscovery ==> c.answeredGeneration < c.discoveryGeneration)
    && (c.timerArmed && c.clockFor > c.sentBefore ==> c.clockFor > c.answeredUpTo)
    && (c.answeredUpTo <= c.answeredGeneration || c.answeredUpTo <= c.sentBefore)
    && 0 <= c.discoveryGeneration && c.answeredGeneration <= c.discoveryGeneration
    && c.sentBefore <= c.discoveryGeneration && c.answeredUpTo <= c.discoveryGeneration
    && (forall g :: g in c.publishing ==> g <= c.discoveryGeneration)
  }

  ghost predicate ComplaintsAreTrue(c: Client) {
    forall i :: 0 <= i < |c.complaints| && !c.complaints[i].stale ==> !c.complaints[i].answered
  }

  ghost predicate Sound(c: Client) {
    InDateOrder(c) && ClockIsHonest(c) && ComplaintsAreTrue(c)
  }

  lemma StepKeepsSound(c: Client, e: Event)
    requires Sound(c) && Enabled(c, e)
    ensures Sound(Step(c, e))
  {
  }

  /** In every run, whatever the order of confirmations, replies and reconnects: replies are
      applied in date order between two reconnects, and the host is never called silent about a
      request of the current connection that it has answered. */
  lemma {:induction false} RunIsSound(events: seq<Event>)
    requires ValidRun(events)
    ensures Sound(Run(events))
  {
    if events != [] {
      RunIsSound(events[..|events| - 1]);
      StepKeepsSound(Run(events[..|events| - 1]), events[|events| - 1]);
    }
  }

  /** The clock stands for a request the host has already answered. */
  predicate ClockIsFalse(events: seq<Event>) {
    Clock(events).Some? && Clock(events).value <= AnsweredEver(events)
  }

  /** A publish confirmed so late that its answer has been forgotten: it comes after the reconnect
      that forgot the answers known, for a request answered before. */
  predicate ConfirmsForgotten(before: seq<Event>, e: Event) {
    e.PublishResolves? && e.result == Accepted && AnsweredHere(before) < e.generation <= AnsweredEver(before)
  }

  /** When the clock comes to stand for an answered request, and when it goes on doing so. Such a
      request was sent over an earlier connection. */
  lemma ClockIsFalseIff(before: seq<Event>, e: Event)
    requires ValidRun(before) && Enabled(Run(before), e)
    ensures ClockIsFalse(before + [e])
       <==> ConfirmsForgotten(before, e) || (ClockIsFalse(before) && LeavesClock(before, e))
    ensures ConfirmsForgotten(before, e) ==> e.generation <= SentBeforeReconnect(before)
  {
    var events := before + [e];
    assert events[..|events| - 1] == before;
    RunAgreesWithRecord(before);
    RunIsSound(before);
  }

  /** Step `i` of the run confirms a forgotten request and nothing touches its clock before step `n`. */
  ghost predicate ForgottenClockRuns(events: seq<Event>, i: int, n: int)
    requires 0 <= n <= |events|
  {
    && 0 <= i < n && ConfirmsForgotten(events[..i], events[i])
    && forall k :: i < k < n ==> LeavesClock(events[..k], events[k])
  }

  lemma RunUpTo(events: seq<Event>, n: nat)
    requires ValidRun(events) && n < |events|
    ensures ValidRun(events[..n]) && Enabled(Run(events[..n]), events[n])
    ensures Run(events[..n + 1]) == Step(Run(events[..n]), events[n])
    decreases |events|
  {
    var front := events[..|events| - 1];
    assert events[..n + 1][..n] == events[..n];
    if n < |front| {
      RunUpTo(front, n);
      assert front[..n] == events[..n];
    }
  }

  /** Such a clock is running before step `n`. */
  ghost predicate ForgottenClockRunning(events: seq<Event>, n: int)
    requires 0 <= n <= |events|
  {
    exists i :: ForgottenClockRuns(events, i, n)
  }

  lemma ForgottenClockGoesOn(events: seq<Event>, n: nat, next: nat)
    requires n < |events| && next == n + 1
    ensures ForgottenClockRunning(events, next)
       <==> || ConfirmsForgotten(events[..n], events[n])
            || (ForgottenClockRunning(events, n) && LeavesClock(events[..n], events[n]))
  {
    if ConfirmsForgotten(events[..n], events[n]) {
      assert ForgottenClockRuns(events, n, next);
    }
    if i :| ForgottenClockRuns(events, i, n) && LeavesClock(events[..n], events[n]) {
      assert ForgottenClockRuns(events, i, next);
    }
    if i :| ForgottenClockRuns(events, i, next) && i != n {
      assert ForgottenClockRuns(events, i, n);
    }
  }

  lemma {:induction false} ClockIsFalseInRunIff(events: seq<Event>, n: nat)
    requires ValidRun(events) && n <= |events|
    ensures ClockIsFalse(events[..n]) <==> ForgottenClockRunning(events, n)
  {
    if n > 0 {
      ClockIsFalseInRunIff(events, n - 1);
      RunUpTo(events, n - 1);
      ClockIsFalseIff(events[..n - 1], events[n - 1]);
      assert events[..n - 1] + [events[n - 1]] == events[..n];
      ForgottenClockGoesOn(events, n - 1, n);
    }
  }

  /** The timer goes off on the clock of a request that had been answered. */
  ghost predicate FalseAlarmAt(events: seq<Event>, n: int) {
    0 <= n < |events| && events[n].TimerFires? && ForgottenClockRunning(events, n)
  }

  /** One of the messages is about a request that had been answered. */
  ghost predicate FalseAlarmShown(events: seq<Event>) {
    exists i :: 0 <= i < |Messages(events)| && Messages(events)[i].answered
  }

  lemma FalseAlarmShownNext(events: seq<Event>, n: nat, next: nat)
    requires ValidRun(events) && n < |events| && next == n + 1
    ensures FalseAlarmShown(events[..next]) <==> FalseAlarmShown(events[..n]) || FalseAlarmAt(events, n)
  {
    ClockIsFalseInRunIff(events, n);
    assert events[..next][..n] == events[..n];
    var old_, new_ := Messages(events[..n]), Messages(events[..next]);
    if i :| 0 <= i < |old_| && old_[i].answered {
      assert new_[i].answered;
    }
    if FalseAlarmAt(events, n) {
      assert new_[|old_|].answered;
    }
  }

  ghost predicate FalseAlarmBefore(events: seq<Event>, n: int) {
    exists m :: m < n && FalseAlarmAt(events, m)
  }

  lemma FalseAlarmBeforeNext(events: seq<Event>, n: nat, next: nat)
    requires next == n + 1
    ensures FalseAlarmBefore(events, next) <==> FalseAlarmBefore(events, n) || FalseAlarmAt(events, n)
  {
    if m :| m < next && FalseAlarmAt(events, m) && m != n {
      assert m < n;
    }
  }

  lemma {:induction false} FalseAlarmsUpTo(events: seq<Event>, n: nat)
    requires ValidRun(events) && n <= |events|
    ensures FalseAlarmShown(events[..n]) <==> FalseAlarmBefore(events, n)
  {
    if n > 0 {
      FalseAlarmsUpTo(events, n - 1);
      FalseAlarmBeforeNext(events, n - 1, n);
      FalseAlarmShownNext(events, n - 1, n);
    }
  }

  /** Over every run, reconnects included, the messages shown are those of the record, and one is
      about a request the host has answered if and only if a publish is confirmed after a reconnect
      has forgotten the answer to its request, and the timer fires before anything stops or
      restarts that clock. */
  lemma FalseAlarmIff(events: seq<Event>)
    requires ValidRun(events)
    ensures Run(events).complaints == Messages(events)
    ensures (exists i :: 0 <= i < |Messages(events)| && Messages(events)[i].answered)
       <==> exists n :: FalseAlarmAt(events, n)
  {
    RunAgreesWithRecord(events);
    FalseAlarmsUpTo(events, |events|);
    assert events[..|events|] == events;
    if n :| FalseAlarmAt(events, n) {
      assert n < |events|;
    }
  }

  predicate NoReconnect(events: seq<Event>) {
    forall i :: 0 <= i < |events| ==> !events[i].Reconnect?
  }

  lemma {:induction false} NothingForgottenWithoutReconnect(events: seq<Event>)
    requires ValidRun(events) && NoReconnect(events)
    ensures AnsweredEver(events) <= (if AnsweredHere(events) < 0 then 0 else AnsweredHere(events))
    ensures forall g :: g in Run(events).publishing ==> g > 0
  {
    if events != [] {
      var before := events[..|events| - 1];
      NothingForgottenWithoutReconnect(before);
      RunCountsAgree(before);
    }
  }

  /** The special case without a reconnect: no answer is forgotten, so no alarm is false. */
  lemma NoFalseAlarmWithoutReconnect(events: seq<Event>)
    requires ValidRun(events) && NoReconnect(events)
    ensures forall i :: 0 <= i < |Run(events).complaints| ==> !Run(events).complaints[i].answered
  {
    FalseAlarmIff(events);
    if n :| FalseAlarmAt(events, n) {
      var i :| ForgottenClockRuns(events, i, n);
      RunUpTo(events, i);
      NothingForgottenWithoutReconnect(events[..i]);
    }
  }

  lemma RunOneMore(events: seq<Event>, e: Event)
    requires ValidRun(events) && Enabled(Run(events), e)
    ensures ValidRun(events + [e]) && Run(events + [e]) == Step(Run(events), e)
  {
    assert (events + [e])[..|events + [e]| - 1] == events;
  }

  /** Across a reconnect it can be: a publish of the old connection that resolves late starts the
      clock for a request answered before, because the reconnect forgot the answer. */
  lemma LatePublishAcrossReconnectIsAFalseAlarm()
    ensures var events := [Send, Reply(1), Reconnect, PublishResolves(1, Accepted), TimerFires];
            ValidRun(events) && Run(events).complaints == [Complaint(1, true, true)]
  {
    assert [] + [Send] == [Send] && [Send] + [Reply(1)] == [Send, Reply(1)];
    assert [Send, Reply(1)] + [Reconnect] == [Send, Reply(1), Reconnect];
    assert [Send, Reply(1), Reconnect] + [PublishResolves(1, Accepted)]
        == [Send, Reply(1), Reconnect, PublishResolves(1, Accepted)];
    assert [Send, Reply(1), Reconnect, PublishResolves(1, Accepted)] + [TimerFires]
        == [Send, Reply(1), Reconnect, PublishResolves(1, Accepted), TimerFires];
    RunOneMore([], Send);
    RunOneMore([Send], Reply(1));
    RunOneMore([Send, Reply(1)], Reconnect);
    RunOneMore([Send, Reply(1), Reconnect], PublishResolves(1, Accepted));
    RunOneMore([Send, Reply(1), Reconnect, PublishResolves(1, Accepted)], TimerFires);
  }

  class DiscoveryClient {
    var discoveryGeneration: int
    var answeredGeneration: int
    var lastResponseAt: int
    var awaitingDiscovery: bool
    var timerArmed: bool
    ghost var clockFor: int
    ghost var answeredUpTo: int
    ghost var sentBefore: int
    ghost var publishing: set<int>
    ghost var applied: seq<int>
    ghost var complaints: seq<Complaint>

    ghost function View(): Client
      reads this
    {
      Client(discoveryGeneration, answeredGeneration, lastResponseAt, awaitingDiscovery, timerArmed,
             clockFor, answeredUpTo, sentBefore, publishing, applied, complaints)
    }

    constructor ()
      ensures View() == INITIAL
    {
      discoveryGeneration, answeredGeneration, lastResponseAt := 0, -1, 0;
      awaitingDiscovery, timerArmed := false, false;
      clockFor, answeredUpTo, sentBefore, publishing, applied, complaints := 0, 0, 0, {}, [], [];
    }

    /** A request up to the await of its publish. */
    method BeginRequest() returns (generation: int)
      modifies this
      ensures View() == Step(old(View()), Send) && generation == discoveryGeneration
    {
      discoveryGeneration := discoveryGeneration + 1;
      generation := discoveryGeneration;
      publishing := publishing + {generation};
    }

    /** The rest of the request, once its publish has resolved. */
    method FinishRequest(generation: int, result: Publish)
      modifies this
      ensures View() == Step(old(View()), PublishResolves(generation, result))
    {
      publishing := publishing - {generation};
      if answeredGeneration >= generation {
        return;
      }
      if result == TimedOut {
        return;
      }
      if result == Rejected {
        return;
      }
      awaitingDiscovery := true;
      timerArmed := true;
      clockFor := generation;
    }

    method OnDiscoveryResponse(createdAt: nat)
      modifies this
      ensures View() == Step(old(View()), Reply(createdAt))
    {
      if createdAt != 0 && createdAt < lastResponseAt {
        return;
      }
      if createdAt != 0 {
        lastResponseAt := createdAt;
        applied := applied + [createdAt];
      }
      awaitingDiscovery := false;
      answeredGeneration := discoveryGeneration;
      answeredUpTo := discoveryGeneration;
      timerArmed := false;
    }

    /** The timeout callback; true when it tells the user that the host did not respond. */
    method OnTimeout() returns (told: bool)
      modifies this
      ensures View() == Step(old(View()), TimerFires)
      ensures told <==> old(awaitingDiscovery)
    {
      timerArmed := false;
      if !awaitingDiscovery {
        return false;
      }
      awaitingDiscovery := false;
      complaints := complaints + [Complaint(clockFor, clockFor <= sentBefore, clockFor <= answeredUpTo)];
      return true;
    }

    /** What `reconnectNostr` resets before it starts over. */
    method ResetForReconnect()
      modifies this
      ensures View() == Step(old(View()), Reconnect)
    {
      answeredGeneration := -1;
      lastResponseAt := 0;
      awaitingDiscovery := false;
      timerArmed := false;
      sentBefore, applied := discoveryGeneration, [];
    }
  }
}
