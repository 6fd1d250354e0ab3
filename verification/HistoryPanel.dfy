/** The request coordinator behind the history chart and the availability strip: fetchHistory
    and fetchHostHistory of web/app.js, one machine with two sets of constants. A step is what
    runs between two awaits; answers come back whenever the network likes. */
module HistoryPanel {
  import opened Wrappers

  datatype Config = Config(defaultWindow: int, retryMs: int, refreshMs: int)

  const TELEMETRY_CHART := Config(604800, 30000, 5 * 60 * 1000)
  const AVAILABILITY := Config(86400, 30000, 2 * 60 * 1000)

  /** A request on the wire: the window it answers and the span it asked for, in Unix seconds. */
  datatype Request = Request(windowSec: int, from: int, to: int)

  datatype Series = Series(from: int, to: int)

  /** `wire` holds the requests not yet answered; the code itself keeps only `inFlight`. */
  datatype Panel = Panel(windowSec: int, series: Option<Series>, inFlight: bool, pendingReload: bool,
                         lastAttempt: int, lastSuccess: int, failed: bool, wire: seq<Request>)

  /** `canPoll` is what `canPollTelemetry()` says at that step. `Reload` is the forced fetch a
      discovery reply makes, `Poll` the unforced one of the live tick. */
  datatype Event =
    | Click(value: int, now: int, canPoll: bool)
    | Reload(now: int, canPoll: bool)
    | Poll(now: int, canPoll: bool)
    | Answer(i: nat, ok: bool, now: int, canPoll: bool)

  function Initial(c: Config): Panel {
    Panel(c.defaultWindow, None, false, false, 0, 0, false, [])
  }

  function Open(p: Panel, now: int): Panel {
    var to := now / 1000;
    p.(inFlight := true, lastAttempt := now, wire := p.wire + [Request(p.windowSec, to - p.windowSec, to)])
  }

  function Fetch(c: Config, p: Panel, force: bool, now: int, canPoll: bool): Panel {
    if !canPoll then p
    else if p.inFlight then (if force then p.(pendingReload := true) else p)
    else if !force && now - p.lastAttempt < c.retryMs then p
    else if !force && p.lastSuccess != 0 && now - p.lastSuccess < c.refreshMs then p
    else Open(p, now)
  }

  /** The body of the request after its await: the series or the error, unless the window has moved on. */
  function Settle(p: Panel, r: Request, ok: bool, now: int): Panel {
    if r.windowSec != p.windowSec then p
    else if ok then p.(series := Some(Series(r.from, r.to)), lastSuccess := now, failed := false)
    else p.(failed := true)
  }

  function Finish(c: Config, p: Panel, now: int, canPoll: bool): Panel {
    var done := p.(inFlight := false);
    if p.pendingReload then Fetch(c, done.(pendingReload := false), true, now, canPoll) else done
  }

  /** The window a button names; a button without a number names the default. */
  function Chosen(c: Config, value: int): int {
    if value == 0 then c.defaultWindow else value
  }

  function Step(c: Config, p: Panel, e: Event): Panel {
    match e
    case Click(value, now, canPoll) =>
      Fetch(c, p.(windowSec := Chosen(c, value)), true, now, canPoll)
    case Reload(now, canPoll) => Fetch(c, p, true, now, canPoll)
    case Poll(now, canPoll) => Fetch(c, p, false, now, canPoll)
    case Answer(i, ok, now, canPoll) =>
      if i >= |p.wire| then p else
      var answered := p.(wire := p.wire[..i] + p.wire[i + 1..]);
      Finish(c, Settle(answered, p.wire[i], ok, now), now, canPoll)
  }

  /** An answer can only come to a request on the wire. */
  predicate Enabled(p: Panel, e: Event) {
    e.Answer? ==> e.i < |p.wire|
  }

  function Run(c: Config, p: Panel, events: seq<Event>): Panel {
    if events == [] then p else Step(c, Run(c, p, events[..|events| - 1]), events[|events| - 1])
  }

  predicate ValidRun(c: Config, p: Panel, events: seq<Event>) {
    events == [] ||
    (ValidRun(c, p, events[..|events| - 1]) && Enabled(Run(c, p, events[..|events| - 1]), events[|events| - 1]))
  }

  predicate Spans(s: Series, windowSec: int) {
    s.to - s.from == windowSec
  }

  /** What the panel promises while polling is allowed: one request at a time; a request for a
      window the user has left has its replacement parked; nothing is parked when idle; and an
      idle panel without an error shows a series of exactly the selected window. */
  ghost predicate Honest(p: Panel) {
    && |p.wire| == (if p.inFlight then 1 else 0)
    && (p.inFlight ==> p.wire[0].to - p.wire[0].from == p.wire[0].windowSec)
    && (p.inFlight && p.wire[0].windowSec != p.windowSec ==> p.pendingReload)
    && (!p.inFlight ==> !p.pendingReload)
    && (!p.inFlight && !p.failed && p.series.Some? ==> Spans(p.series.value, p.windowSec))
  }

  /** An error-free series on the panel has another span than the window about to be selected. */
  predicate ShowsAnother(p: Panel, windowSec: int) {
    !p.failed && p.series.Some? && !Spans(p.series.value, windowSec)
  }

  /** The steps that leave the panel promising what it will not load. Each takes place while
      polling is off: leaving the window of a request that has no replacement parked, or of an
      idle panel that shows it; and an answer to an abandoned window, whose replacement is then
      dropped, while another window is shown. */
  predicate Strands(c: Config, p: Panel, e: Event) {
    !e.canPoll &&
    match e
    case Click(value, _, _) =>
      var windowSec := Chosen(c, value);
      if p.inFlight then windowSec != p.windowSec && !p.pendingReload else ShowsAnother(p, windowSec)
    case Answer(i, _, _, _) => i < |p.wire| && p.wire[i].windowSec != p.windowSec && ShowsAnother(p, p.windowSec)
    case _ => false
  }

  /** A step keeps the promise exactly when it does not strand the panel. */
  lemma StepKeepsHonestIff(c: Config, p: Panel, e: Event)
    requires Honest(p)
    ensures Honest(Step(c, p, e)) <==> !Strands(c, p, e)
  {
  }

  /** The promise held from the start of the run to its end. */
  ghost predicate HonestThroughout(c: Config, p: Panel, events: seq<Event>) {
    forall n :: 0 <= n <= |events| ==> Honest(Run(c, p, events[..n]))
  }

  ghost predicate NothingStrands(c: Config, p: Panel, events: seq<Event>) {
    forall n :: 0 <= n < |events| ==> !Strands(c, Run(c, p, events[..n]), events[n])
  }

  lemma RunUpTo(c: Config, p: Panel, events: seq<Event>, n: nat)
    requires n < |events|
    ensures Run(c, p, events[..n + 1]) == Step(c, Run(c, p, events[..n]), events[n])
  {
    assert events[..n + 1][..n] == events[..n];
  }

  lemma {:induction false} HonestUpTo(c: Config, p: Panel, events: seq<Event>, n: nat)
    requires Honest(p) && NothingStrands(c, p, events) && n <= |events|
    ensures Honest(Run(c, p, events[..n]))
  {
    if n > 0 {
      HonestUpTo(c, p, events, n - 1);
      RunUpTo(c, p, events, n - 1);
      StepKeepsHonestIff(c, Run(c, p, events[..n - 1]), events[n - 1]);
    }
  }

  /** Over every run, polling allowed or not at any step: the promise holds throughout exactly
      when no step strands the panel. */
  lemma RunIsHonestIff(c: Config, p: Panel, events: seq<Event>)
    requires Honest(p)
    ensures HonestThroughout(c, p, events) <==> NothingStrands(c, p, events)
  {
    if NothingStrands(c, p, events) {
      forall n | 0 <= n <= |events| ensures Honest(Run(c, p, events[..n])) {
        HonestUpTo(c, p, events, n);
      }
    }
    if HonestThroughout(c, p, events) {
      forall n | 0 <= n < |events| ensures !Strands(c, Run(c, p, events[..n]), events[n]) {
        RunUpTo(c, p, events, n);
        assert Honest(Run(c, p, events[..n + 1]));
        StepKeepsHonestIff(c, Run(c, p, events[..n]), events[n]);
      }
    }
  }

  /** The request asks for the selected window up to the second of `now`. */
  predicate AsksUpToNow(r: Request, windowSec: int, now: int) {
    r.windowSec == windowSec && r.to - r.from == windowSec && r.to * 1000 <= now < r.to * 1000 + 1000
  }

  /** When a step sends a request: a click or a forced fetch on an idle panel; a poll on one that
      last tried `retryMs` ago and last succeeded, if ever, `refreshMs` ago; the answer for which a
      reload was parked. Polling must be allowed. */
  predicate Asks(c: Config, p: Panel, e: Event) {
    e.canPoll &&
    match e
    case Click(_, _, _) => !p.inFlight
    case Reload(_, _) => !p.inFlight
    case Poll(now, _) =>
      !p.inFlight && now >= p.lastAttempt + c.retryMs && (p.lastSuccess == 0 || now >= p.lastSuccess + c.refreshMs)
    case Answer(i, _, _, _) => i < |p.wire| && p.pendingReload
  }

  /** It sends one exactly then, for the window selected by then, up to its own second; otherwise
      the wire only loses what is answered. */
  lemma StepAsksIff(c: Config, p: Panel, e: Event)
    requires Honest(p) && Enabled(p, e)
    ensures var q := Step(c, p, e);
            var rest := if e.Answer? then [] else p.wire;
            if Asks(c, p, e)
            then |q.wire| == |rest| + 1 && q.wire[..|rest|] == rest && AsksUpToNow(q.wire[|rest|], q.windowSec, e.now)
                 && q.lastAttempt == e.now
            else q.wire == rest && q.lastAttempt == p.lastAttempt
  {
  }

  /** What an answer shows: that of the selected window its series or its error, that of an
      abandoned window nothing. Nothing else changes what is shown. */
  lemma ShownByAnswer(c: Config, p: Panel, e: Event)
    requires Honest(p) && Enabled(p, e)
    ensures var q := Step(c, p, e);
            var current := e.Answer? && p.wire[e.i].windowSec == p.windowSec;
            && q.series == (if current && e.ok then Some(Series(p.wire[e.i].from, p.wire[e.i].to)) else p.series)
            && q.failed == (if current then !e.ok else p.failed)
            && q.lastSuccess == (if current && e.ok then e.now else p.lastSuccess)
  {
  }

  /** Before polling was ever allowed nothing has been asked for and nothing is shown. */
  ghost predicate Dormant(p: Panel) {
    !p.inFlight && !p.pendingReload && p.wire == [] && p.series.None? && !p.failed
  }

  /** Polling, once allowed, stays allowed. */
  ghost predicate PollingLasts(events: seq<Event>) {
    forall i, j :: 0 <= i < j < |events| && events[i].canPoll ==> events[j].canPoll
  }

  lemma {:induction false} DormantUntilPolling(c: Config, events: seq<Event>, n: nat)
    requires n <= |events| && forall i :: 0 <= i < n ==> !events[i].canPoll
    ensures Dormant(Run(c, Initial(c), events[..n]))
  {
    if n > 0 {
      DormantUntilPolling(c, events, n - 1);
      RunUpTo(c, Initial(c), events, n - 1);
    }
  }

  /** Polling that lasts strands nothing, so such a run is honest throughout. */
  lemma LastingPollingIsHonest(c: Config, events: seq<Event>)
    requires PollingLasts(events)
    ensures HonestThroughout(c, Initial(c), events)
  {
    forall n | 0 <= n < |events| ensures !Strands(c, Run(c, Initial(c), events[..n]), events[n]) {
      if !events[n].canPoll {
        DormantUntilPolling(c, events, n);
      }
    }
    RunIsHonestIff(c, Initial(c), events);
  }

  lemma RunAppend(c: Config, p: Panel, events: seq<Event>, e: Event)
    ensures Run(c, p, events + [e]) == Step(c, Run(c, p, events), e)
    ensures ValidRun(c, p, events + [e]) <==> ValidRun(c, p, events) && Enabled(Run(c, p, events), e)
  {
    assert (events + [e])[..|events + [e]| - 1] == events;
  }

  /** In either panel, a window button pressed after polling has stopped changes the label and
      neither asks nor parks anything. */
  lemma StoppedPollingIsNotHonest(c: Config)
    requires c == TELEMETRY_CHART || c == AVAILABILITY
    ensures var events := [Reload(1000000, true), Answer(0, true, 1000500, true), Click(3600, 1001000, false)];
            && ValidRun(c, Initial(c), events)
            && !Honest(Run(c, Initial(c), events))
  {
    var e0, e1, e2 := Reload(1000000, true), Answer(0, true, 1000500, true), Click(3600, 1001000, false);
    assert [] + [e0] == [e0] && [e0] + [e1] == [e0, e1] && [e0, e1] + [e2] == [e0, e1, e2];
    RunAppend(c, Initial(c), [], e0);
    RunAppend(c, Initial(c), [e0], e1);
    RunAppend(c, Initial(c), [e0, e1], e2);
  }

  /** Idle, and either showing the selected window or saying that it could not be loaded. */
  ghost predicate Settled(p: Panel) {
    !p.inFlight && !p.pendingReload && (p.failed || (p.series.Some? && Spans(p.series.value, p.windowSec)))
  }

  /** How many answers stand between the panel and being idle. */
  function AnswersDue(p: Panel): int {
    if !p.inFlight then 0 else if p.pendingReload then 2 else 1
  }

  lemma StepPaysOneAnswer(c: Config, p: Panel, e: Event)
    requires Honest(p) && e.canPoll && Enabled(p, e) && p.inFlight && (e.Poll? || e.Answer?)
    ensures Step(c, p, e).windowSec == p.windowSec
    ensures e.Poll? ==> Step(c, p, e) == p
    ensures e.Answer? ==> AnswersDue(Step(c, p, e)) == AnswersDue(p) - 1
    ensures e.Answer? && AnswersDue(p) == 1 ==>
              Settled(Step(c, p, e)) && (Step(c, p, e).failed <==> !e.ok)
  {
  }

  /** How many of the first `n` events are answers. */
  function AnswersIn(events: seq<Event>, n: nat): nat
    requires n <= |events|
  {
    if n == 0 then 0 else AnswersIn(events, n - 1) + (if events[n - 1].Answer? then 1 else 0)
  }

  /** `q` is `p` with some answers paid and some still due. */
  ghost predicate Paying(p: Panel, q: Panel, answers: nat) {
    Honest(q) && q.inFlight && q.windowSec == p.windowSec && AnswersDue(q) == AnswersDue(p) - answers
  }

  /** `q` has settled on the window of `p` with the answer `last`: its series, or its error
      exactly when it brought none. */
  ghost predicate SettledBy(p: Panel, q: Panel, last: Event) {
    Settled(q) && q.windowSec == p.windowSec && last.Answer? && (q.failed <==> !last.ok)
  }

  lemma PayStep(c: Config, p: Panel, q: Panel, answers: nat, e: Event)
    requires Paying(p, q, answers) && Enabled(q, e) && e.canPoll && (e.Poll? || e.Answer?)
    ensures var paid := answers + if e.Answer? then 1 else 0;
            if paid < AnswersDue(p) then Paying(p, Step(c, q, e), paid) else SettledBy(p, Step(c, q, e), e)
  {
    StepPaysOneAnswer(c, q, e);
    StepKeepsHonestIff(c, q, e);
  }

  lemma EnabledInRun(c: Config, p: Panel, events: seq<Event>, n: nat)
    requires ValidRun(c, p, events) && n < |events|
    ensures Enabled(Run(c, p, events[..n]), events[n])
    decreases |events|
  {
    var front := events[..|events| - 1];
    if n < |front| {
      EnabledInRun(c, p, front, n);
      assert front[..n] == events[..n];
    }
  }

  /** The panels of a run of polls and answers, one after the other. */
  ghost predicate IsTrace(c: Config, events: seq<Event>, panels: seq<Panel>) {
    |panels| == |events| + 1 && forall i :: 0 <= i < |events| ==> IsPayment(c, panels[i], events[i], panels[i + 1])
  }

  ghost predicate IsPayment(c: Config, p: Panel, e: Event, q: Panel) {
    Enabled(p, e) && e.canPoll && (e.Poll? || e.Answer?) && q == Step(c, p, e)
  }

  /** By event `k` the panel is still paying, or it had settled with event `n - 1`. */
  ghost predicate SettlesBy(events: seq<Event>, panels: seq<Panel>, k: nat, n: nat)
    requires n <= k <= |events| && |panels| == |events| + 1
  {
    var due := AnswersDue(panels[0]);
    if AnswersIn(events, k) < due then n == k && Paying(panels[0], panels[k], AnswersIn(events, k))
    else n > 0 && AnswersIn(events, n) == due && SettledBy(panels[0], panels[n], events[n - 1])
  }

  lemma {:induction false} SettleUpTo(c: Config, events: seq<Event>, panels: seq<Panel>, k: nat) returns (n: nat)
    requires IsTrace(c, events, panels) && Honest(panels[0]) && panels[0].inFlight && k <= |events|
    ensures n <= k && SettlesBy(events, panels, k, n)
  {
    if k == 0 {
      n := 0;
    } else {
      n := SettleUpTo(c, events, panels, k - 1);
      if AnswersIn(events, k - 1) < AnswersDue(panels[0]) {
        assert IsPayment(c, panels[k - 1], events[k - 1], panels[k]);
        PayStep(c, panels[0], panels[k - 1], AnswersIn(events, k - 1), events[k - 1]);
        n := k;
      }
    }
  }

  function Panels(c: Config, p: Panel, events: seq<Event>): (panels: seq<Panel>)
    ensures |panels| == |events| + 1 && forall i :: 0 <= i < |panels| ==> panels[i] == Run(c, p, events[..i])
  {
    seq(|events| + 1, i requires 0 <= i <= |events| => Run(c, p, events[..i]))
  }

  /** From any honest state with a request open, the due answers settle the panel, whatever polls
      come in between; until then it keeps loading. */
  lemma AnswersSettle(c: Config, p: Panel, events: seq<Event>) returns (n: nat)
    requires Honest(p) && ValidRun(c, p, events) && p.inFlight
    requires forall e :: e in events ==> e.canPoll && (e.Poll? || e.Answer?)
    ensures n <= |events| && SettlesBy(events, Panels(c, p, events), |events|, n)
  {
    var panels := Panels(c, p, events);
    forall i | 0 <= i < |events| ensures IsPayment(c, panels[i], events[i], panels[i + 1]) {
      EnabledInRun(c, p, events, i);
      RunUpTo(c, p, events, i);
    }
    n := SettleUpTo(c, events, panels, |events|);
  }

  /** After the last click, whatever polls and answers follow in whatever order, the panel
      settles on the clicked window with the second answer at the latest: its series when that
      answer brought one, its error exactly when it did not. */
  lemma LastClickSettlesWithinTwoAnswers(c: Config, p: Panel, click: Event, events: seq<Event>) returns (n: nat)
    requires Honest(p) && click.Click? && click.canPoll
    requires ValidRun(c, Step(c, p, click), events) && AnswersIn(events, |events|) >= 2
    requires forall e :: e in events ==> e.canPoll && (e.Poll? || e.Answer?)
    ensures n <= |events| && AnswersIn(events, n) <= 2
    ensures var q := Run(c, Step(c, p, click), events[..n]);
            && q.windowSec == Chosen(c, click.value)
            && n > 0 && events[n - 1].Answer? && Settled(q) && (q.failed <==> !events[n - 1].ok)
            && (events[n - 1].ok ==> q.series.Some? && Spans(q.series.value, Chosen(c, click.value)))
  {
    StepKeepsHonestIff(c, p, click);
    n := AnswersSettle(c, Step(c, p, click), events);
  }

  class Coordinator {
    const config: Config
    var windowSec: int
    var series: Option<Series>
    var inFlight: bool
    var pendingReload: bool
    var lastAttempt: int
    var lastSuccess: int
    var failed: bool
    var wire: seq<Request>

    function View(): Panel
      reads this
    {
      Panel(windowSec, series, inFlight, pendingReload, lastAttempt, lastSuccess, failed, wire)
    }

    constructor (config: Config)
      ensures this.config == config && View() == Initial(config)
    {
      this.config := config;
      windowSec, series := config.defaultWindow, None;
      inFlight, pendingReload, lastAttempt, lastSuccess, failed, wire := false, false, 0, 0, false, [];
    }

    /** Up to the first await. */
    method FetchHistory(force: bool, now: int, canPoll: bool)
      modifies this
      ensures View() == Step(config, old(View()), if force then Reload(now, canPoll) else Poll(now, canPoll))
    {
      if !canPoll {
        return;
      }
      if inFlight {
        if force {
          pendingReload := true;
        }
        return;
      }
      if !force {
        if now - lastAttempt < config.retryMs {
          return;
        }
        if lastSuccess != 0 && now - lastSuccess < config.refreshMs {
          return;
        }
      }
      inFlight := true;
      lastAttempt := now;
      var to := now / 1000;
      var from := to - windowSec;
      wire := wire + [Request(windowSec, from, to)];
    }

    /** From the await to the end, `finally` included; `ok` is false for any thrown error. */
    method OnAnswer(i: nat, ok: bool, now: int, canPoll: bool)
      requires i < |wire|
      modifies this
      ensures View() == Step(config, old(View()), Answer(i, ok, now, canPoll))
    {
      var request := wire[i];
      wire := wire[..i] + wire[i + 1..];
      if ok {
        if request.windowSec == windowSec {
          series := Some(Series(request.from, request.to));
          lastSuccess := now;
          failed := false;
        }
      } else if request.windowSec == windowSec {
        failed := true;
      }
      inFlight := false;
      if pendingReload {
        pendingReload := false;
        FetchHistory(true, now, canPoll);
      }
    }

    method OnWindowClick(value: int, now: int, canPoll: bool)
      modifies this
      ensures View() == Step(config, old(View()), Click(value, now, canPoll))
    {
      windowSec := if value == 0 then config.defaultWindow else value;
      FetchHistory(true, now, canPoll);
    }
  }
}
