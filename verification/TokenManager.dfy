/** One-time tokens: internal/auth/tokens.go. The manager's map, its janitor and the deletions
    made while answering are proved against a record of events that never forgets. */
module TokenManager {
  datatype Entry = Entry(createdAt: int, used: bool)

  type Tokens = map<string, Entry>

  datatype ConsumeResult = ConsumeOK | ConsumeUnknown | ConsumeAlreadyUsed | ConsumeExpired

  /** `Idle` is an instant at which nothing happens: a run with `Idle` in place of `Cleanup`
      is that run without the janitor. */
  datatype Event =
    | Issue(at: int, token: string)
    | Consume(at: int, token: string)
    | Validate(at: int, token: string)
    | Cleanup(at: int)
    | Idle(at: int)

  function Expired(ttl: int, entry: Entry, now: int): bool {
    now - entry.createdAt > ttl
  }

  function ConsumeReason(ttl: int, m: Tokens, token: string, now: int): ConsumeResult {
    if token !in m then ConsumeUnknown
    else if m[token].used then ConsumeAlreadyUsed
    else if Expired(ttl, m[token], now) then ConsumeExpired
    else ConsumeOK
  }

  predicate Validates(ttl: int, m: Tokens, token: string, now: int) {
    token != "" && token in m && !Expired(ttl, m[token], now)
  }

  function Next(ttl: int, m: Tokens, e: Event): Tokens {
    match e
    case Issue(at, token) => m[token := Entry(at, false)]
    case Consume(at, token) =>
      match ConsumeReason(ttl, m, token, at) {
        case ConsumeOK => m[token := m[token].(used := true)]
        case ConsumeExpired => m - {token}
        case _ => m
      }
    case Validate(at, token) =>
      if token != "" && token in m && Expired(ttl, m[token], at) then m - {token} else m
    case Cleanup(at) => map k | k in m && !Expired(ttl, m[k], at) :: m[k]
    case Idle(_) => m
  }

  /** Whether the manager says yes; `Issue` and the janitor have nothing to refuse. */
  predicate Accepts(ttl: int, m: Tokens, e: Event) {
    match e
    case Consume(at, token) => ConsumeReason(ttl, m, token, at) == ConsumeOK
    case Validate(at, token) => Validates(ttl, m, token, at)
    case _ => true
  }

  /** The map after the first `i` events of a run that starts empty. */
  function StateAt(ttl: int, events: seq<Event>, i: nat): Tokens
    requires i <= |events|
  {
    if i == 0 then map[] else Next(ttl, StateAt(ttl, events, i - 1), events[i - 1])
  }

  predicate AcceptsAt(ttl: int, events: seq<Event>, i: nat)
    requires i < |events|
  {
    Accepts(ttl, StateAt(ttl, events, i), events[i])
  }

  ghost predicate Chronological(events: seq<Event>) {
    forall i, j :: 0 <= i < j < |events| ==> events[i].at <= events[j].at
  }

  /** Issued tokens are 256 random bits, so no two are equal and none is empty. */
  ghost predicate FreshTokens(events: seq<Event>) {
    && (forall i :: 0 <= i < |events| && events[i].Issue? ==> events[i].token != "")
    && (forall i, j :: 0 <= i < j < |events| && events[i].Issue? && events[j].Issue? ==>
          events[i].token != events[j].token)
  }

  ghost predicate IssuedBefore(events: seq<Event>, i: nat, token: string, issuedAt: int)
    requires i <= |events|
  {
    exists k :: 0 <= k < i && events[k] == Issue(issuedAt, token)
  }

  /** Issued at most `ttl` ago. */
  ghost predicate Live(ttl: int, events: seq<Event>, i: nat, token: string, now: int)
    requires i <= |events|
  {
    exists issuedAt :: IssuedBefore(events, i, token, issuedAt) && now - issuedAt <= ttl
  }

  ghost predicate UsedBefore(ttl: int, events: seq<Event>, i: nat, token: string)
    requires i <= |events|
    decreases i, 0
  {
    exists j: nat :: j < i && events[j].Consume? && events[j].token == token && ShouldAccept(ttl, events, j)
  }

  /** What the record says of event `i`: a token can be redeemed once while it is live, and
      read with for as long as it is live, redeemed or not. The janitor is not consulted. */
  ghost predicate ShouldAccept(ttl: int, events: seq<Event>, i: nat)
    requires i < |events|
    decreases i, 1
  {
    match events[i]
    case Consume(at, token) => Live(ttl, events, i, token, at) && !UsedBefore(ttl, events, i, token)
    case Validate(at, token) => Live(ttl, events, i, token, at)
    case _ => true
  }

  /** The instant of the last of the first `i` events. */
  function LastAt(events: seq<Event>, i: nat): int
    requires i <= |events|
  {
    if i == 0 then 0 else events[i - 1].at
  }

  /** What the map knows of one token is true; what it has forgotten is past its time. */
  ghost predicate Faithful(ttl: int, events: seq<Event>, i: nat, token: string)
    requires i <= |events|
  {
    var m := StateAt(ttl, events, i);
    if token in m then
      IssuedBefore(events, i, token, m[token].createdAt) && (m[token].used <==> UsedBefore(ttl, events, i, token))
    else
      forall issuedAt :: IssuedBefore(events, i, token, issuedAt) ==> LastAt(events, i) - issuedAt > ttl
  }

  lemma IssuedOnce(events: seq<Event>, i: nat, token: string, a: int, b: int)
    requires i <= |events| && FreshTokens(events)
    requires IssuedBefore(events, i, token, a) && IssuedBefore(events, i, token, b)
    ensures a == b && token != ""
  {
  }

  /** Whether a held token is live is whether it has not expired. */
  lemma HeldTokenIsLive(ttl: int, events: seq<Event>, i: nat, token: string, issuedAt: int, now: int)
    requires i <= |events| && FreshTokens(events) && IssuedBefore(events, i, token, issuedAt)
    ensures Live(ttl, events, i, token, now) <==> now - issuedAt <= ttl
  {
    if t :| IssuedBefore(events, i, token, t) && now - t <= ttl {
      IssuedOnce(events, i, token, t, issuedAt);
    }
  }

  lemma FaithfulAnswers(ttl: int, events: seq<Event>, i: nat)
    requires i < |events| && Chronological(events) && FreshTokens(events)
    requires events[i].Consume? || events[i].Validate? ==> Faithful(ttl, events, i, events[i].token)
    ensures AcceptsAt(ttl, events, i) <==> ShouldAccept(ttl, events, i)
  {
    var e := events[i];
    var m := StateAt(ttl, events, i);
    if e.Consume? || e.Validate? {
      assert i > 0 ==> events[i - 1].at <= e.at;
      if e.token in m {
        HeldTokenIsLive(ttl, events, i, e.token, m[e.token].createdAt, e.at);
        IssuedOnce(events, i, e.token, m[e.token].createdAt, m[e.token].createdAt);
      }
    }
  }

  lemma NeverUsedBeforeIssue(ttl: int, events: seq<Event>, i: nat)
    requires i < |events| && events[i].Issue? && FreshTokens(events)
    ensures !UsedBefore(ttl, events, i, events[i].token)
  {
    forall j: nat, t | j <= i ensures !IssuedBefore(events, j, events[i].token, t) {
    }
  }

  lemma UsedStep(ttl: int, events: seq<Event>, i: nat, token: string)
    requires i < |events|
    ensures UsedBefore(ttl, events, i + 1, token)
       <==> UsedBefore(ttl, events, i, token)
            || (events[i].Consume? && events[i].token == token && ShouldAccept(ttl, events, i))
  {
  }

  lemma IssuedStep(events: seq<Event>, i: nat, token: string, t: int)
    requires i < |events|
    ensures IssuedBefore(events, i + 1, token, t) <==> IssuedBefore(events, i, token, t) || events[i] == Issue(t, token)
  {
  }

  lemma FaithfulStep(ttl: int, events: seq<Event>, i: nat, token: string)
    requires i < |events| && Chronological(events) && FreshTokens(events) && Faithful(ttl, events, i, token)
    ensures Faithful(ttl, events, i + 1, token)
  {
    var e := events[i];
    var m, m' := StateAt(ttl, events, i), StateAt(ttl, events, i + 1);
    assert i > 0 ==> events[i - 1].at <= e.at;
    if (e.Consume? || e.Validate?) && e.token == token {
      FaithfulAnswers(ttl, events, i);
    }
    UsedStep(ttl, events, i, token);
    if token in m' {
      IssuedStep(events, i, token, m'[token].createdAt);
      if e.Issue? && e.token == token {
        NeverUsedBeforeIssue(ttl, events, i);
      }
    } else {
      var n := i + 1;
      forall t | IssuedBefore(events, n, token, t) ensures e.at - t > ttl {
        IssuedStep(events, i, token, t);
        if token in m {
          IssuedOnce(events, i, token, t, m[token].createdAt);
        }
      }
    }
  }

  lemma {:induction false} AlwaysFaithful(ttl: int, events: seq<Event>, i: nat, token: string)
    requires i <= |events| && Chronological(events) && FreshTokens(events)
    ensures Faithful(ttl, events, i, token)
  {
    if i > 0 {
      AlwaysFaithful(ttl, events, i - 1, token);
      FaithfulStep(ttl, events, i - 1, token);
    }
  }

  /** In every run the manager answers every request exactly as the record does. */
  lemma AnswersMatchRecord(ttl: int, events: seq<Event>, i: nat)
    requires i < |events| && Chronological(events) && FreshTokens(events)
    ensures AcceptsAt(ttl, events, i) <==> ShouldAccept(ttl, events, i)
  {
    if events[i].Consume? || events[i].Validate? {
      AlwaysFaithful(ttl, events, i, events[i].token);
    }
    FaithfulAnswers(ttl, events, i);
  }

  /** A token is redeemed at most once, and only within `ttl` of being issued. */
  lemma RedeemedAtMostOnce(ttl: int, events: seq<Event>, i: nat, j: nat)
    requires i <= j < |events| && Chronological(events) && FreshTokens(events)
    requires events[i].Consume? && events[j].Consume? && events[i].token == events[j].token
    requires AcceptsAt(ttl, events, i) && AcceptsAt(ttl, events, j)
    ensures i == j && Live(ttl, events, i, events[i].token, events[i].at)
  {
    AnswersMatchRecord(ttl, events, i);
    AnswersMatchRecord(ttl, events, j);
  }

  /** Two runs that differ only in when, and whether, the janitor runs. */
  ghost predicate SameButForJanitor(a: seq<Event>, b: seq<Event>) {
    |a| == |b| && forall i :: 0 <= i < |a| ==>
      a[i] == b[i] || (a[i].at == b[i].at && (a[i].Cleanup? || a[i].Idle?) && (b[i].Cleanup? || b[i].Idle?))
  }

  lemma {:induction false} RecordIgnoresJanitor(ttl: int, a: seq<Event>, b: seq<Event>, i: nat)
    requires i < |a| && SameButForJanitor(a, b)
    ensures ShouldAccept(ttl, a, i) <==> ShouldAccept(ttl, b, i)
  {
    forall j: nat | j < i ensures ShouldAccept(ttl, a, j) <==> ShouldAccept(ttl, b, j) {
      RecordIgnoresJanitor(ttl, a, b, j);
    }
    if a[i].Consume? || a[i].Validate? {
      var token := a[i].token;
      assert forall t, k :: 0 <= k < i ==> (a[k] == Issue(t, token) <==> b[k] == Issue(t, token));
      assert forall t :: IssuedBefore(a, i, token, t) <==> IssuedBefore(b, i, token, t);
      assert Live(ttl, a, i, token, a[i].at) <==> Live(ttl, b, i, token, a[i].at);
      assert UsedBefore(ttl, a, i, token) <==> UsedBefore(ttl, b, i, token) by {
        assert forall j: nat :: j < i && a[j].Consume? ==> a[j] == b[j];
        assert forall j: nat :: j < i && b[j].Consume? ==> a[j] == b[j];
      }
    }
  }

  /** Adding, removing or moving sweeps changes no answer of any run. */
  lemma JanitorIsUnobservable(ttl: int, a: seq<Event>, b: seq<Event>, i: nat)
    requires i < |a| && SameButForJanitor(a, b) && Chronological(a) && FreshTokens(a)
    ensures AcceptsAt(ttl, a, i) <==> AcceptsAt(ttl, b, i)
  {
    AnswersMatchRecord(ttl, a, i);
    AnswersMatchRecord(ttl, b, i);
    RecordIgnoresJanitor(ttl, a, b, i);
  }

  /** Event `j` comes after the issue of `token`, more than `ttl` later. */
  ghost predicate Late(ttl: int, events: seq<Event>, j: nat, token: string)
    requires j < |events|
  {
    exists t :: IssuedBefore(events, j, token, t) && events[j].at - t > ttl
  }

  /** A sweep that is late for `token`. */
  ghost predicate SweptBefore(ttl: int, events: seq<Event>, i: nat, token: string)
    requires i <= |events|
  {
    exists j: nat :: j < i && events[j].Cleanup? && Late(ttl, events, j, token)
  }

  /** A request for `token` that finds it expired: a read, or a redemption not made before. */
  ghost predicate AsksLate(ttl: int, events: seq<Event>, j: nat, token: string)
    requires j < |events|
  {
    && (events[j].Validate? || (events[j].Consume? && !UsedBefore(ttl, events, j, token)))
    && events[j].token == token && Late(ttl, events, j, token)
  }

  ghost predicate AskedBefore(ttl: int, events: seq<Event>, i: nat, token: string)
    requires i <= |events|
  {
    exists j: nat :: j < i && AsksLate(ttl, events, j, token)
  }

  ghost predicate Forgotten(ttl: int, events: seq<Event>, i: nat, token: string)
    requires i <= |events|
  {
    SweptBefore(ttl, events, i, token) || AskedBefore(ttl, events, i, token)
  }

  ghost predicate EverIssued(events: seq<Event>, i: nat, token: string)
    requires i <= |events|
  {
    exists t :: IssuedBefore(events, i, token, t)
  }

  /** Event `i` makes the manager forget `token`. */
  ghost predicate Forgets(ttl: int, events: seq<Event>, i: nat, token: string)
    requires i < |events|
  {
    (events[i].Cleanup? && Late(ttl, events, i, token)) || AsksLate(ttl, events, i, token)
  }

  lemma ForgottenStep(ttl: int, events: seq<Event>, i: nat, next: nat, token: string)
    requires i < |events| && next == i + 1
    ensures Forgotten(ttl, events, next, token)
       <==> Forgotten(ttl, events, i, token) || Forgets(ttl, events, i, token)
  {
  }

  lemma EverIssuedStep(events: seq<Event>, i: nat, next: nat, token: string)
    requires i < |events| && next == i + 1
    ensures EverIssued(events, next, token)
       <==> EverIssued(events, i, token) || (events[i].Issue? && events[i].token == token)
  {
    if t :| IssuedBefore(events, i, token, t) {
      IssuedStep(events, i, token, t);
    }
    if t :| IssuedBefore(events, next, token, t) {
      IssuedStep(events, i, token, t);
    }
    if events[i].Issue? && events[i].token == token {
      assert events[i] == Issue(events[i].at, token);
      IssuedStep(events, i, token, events[i].at);
    }
  }

  /** Before a token is issued nothing can be late for it. */
  lemma FreshIsNotForgotten(ttl: int, events: seq<Event>, i: nat, token: string)
    requires i <= |events| && !EverIssued(events, i, token)
    ensures !Forgotten(ttl, events, i, token)
  {
    forall j: nat, t | j < i ensures !IssuedBefore(events, j, token, t) {
      assert IssuedBefore(events, j, token, t) ==> IssuedBefore(events, i, token, t);
    }
  }

  lemma FreshTokenIsNew(events: seq<Event>, i: nat)
    requires i < |events| && events[i].Issue? && FreshTokens(events)
    ensures !EverIssued(events, i, events[i].token)
  {
  }

  /** Whether a held token has expired is whether the event at hand is late for it. */
  lemma HeldTokenIsLate(ttl: int, events: seq<Event>, i: nat, token: string, issuedAt: int)
    requires i < |events| && FreshTokens(events) && IssuedBefore(events, i, token, issuedAt)
    ensures Late(ttl, events, i, token) <==> events[i].at - issuedAt > ttl
  {
    if t :| IssuedBefore(events, i, token, t) && events[i].at - t > ttl {
      IssuedOnce(events, i, token, t, issuedAt);
    }
  }

  lemma HeldStep(ttl: int, events: seq<Event>, i: nat, token: string)
    requires i < |events| && FreshTokens(events) && Faithful(ttl, events, i, token)
    requires token in StateAt(ttl, events, i)
    ensures token !in StateAt(ttl, events, i + 1) <==> Forgets(ttl, events, i, token)
  {
    var m := StateAt(ttl, events, i);
    HeldTokenIsLate(ttl, events, i, token, m[token].createdAt);
    IssuedOnce(events, i, token, m[token].createdAt, m[token].createdAt);
  }

  /** In every run a token is in the map exactly when it was issued and since then, more than `ttl`
      after its issue, there was neither a sweep nor a read nor an attempt to redeem it unredeemed. */
  lemma {:induction false} HeldIff(ttl: int, events: seq<Event>, i: nat, token: string)
    requires i <= |events| && Chronological(events) && FreshTokens(events)
    ensures token in StateAt(ttl, events, i) <==> EverIssued(events, i, token) && !Forgotten(ttl, events, i, token)
  {
    if i > 0 {
      var e := events[i - 1];
      HeldIff(ttl, events, i - 1, token);
      AlwaysFaithful(ttl, events, i - 1, token);
      ForgottenStep(ttl, events, i - 1, i, token);
      EverIssuedStep(events, i - 1, i, token);
      if token in StateAt(ttl, events, i - 1) {
        HeldStep(ttl, events, i - 1, token);
      } else if e.Issue? && e.token == token {
        FreshTokenIsNew(events, i - 1);
        FreshIsNotForgotten(ttl, events, i - 1, token);
      } else if !EverIssued(events, i - 1, token) {
        FreshIsNotForgotten(ttl, events, i, token);
      }
    }
  }

  /** When each reason is given. "Unknown" is said of tokens never issued and of tokens forgotten,
      never of a live one; of a token still held the other reasons are exact. */
  lemma ReasonIff(ttl: int, events: seq<Event>, i: nat)
    requires i < |events| && Chronological(events) && FreshTokens(events) && events[i].Consume?
    ensures var token, now := events[i].token, events[i].at;
            var reason := ConsumeReason(ttl, StateAt(ttl, events, i), token, now);
            var held := EverIssued(events, i, token) && !Forgotten(ttl, events, i, token);
            && (reason == ConsumeUnknown <==> !held)
            && (reason == ConsumeUnknown ==> !Live(ttl, events, i, token, now))
            && (reason == ConsumeAlreadyUsed <==> held && UsedBefore(ttl, events, i, token))
            && (reason == ConsumeExpired
                <==> held && !UsedBefore(ttl, events, i, token) && !Live(ttl, events, i, token, now))
            && (reason == ConsumeOK <==> ShouldAccept(ttl, events, i))
  {
    HeldIff(ttl, events, i, events[i].token);
    AlwaysFaithful(ttl, events, i, events[i].token);
    FaithfulAnswers(ttl, events, i);
    var m := StateAt(ttl, events, i);
    if events[i].token in m {
      HeldTokenIsLive(ttl, events, i, events[i].token, m[events[i].token].createdAt, events[i].at);
    }
  }

  lemma IssuesIgnoreJanitor(a: seq<Event>, b: seq<Event>, i: nat, token: string)
    requires i <= |a| && SameButForJanitor(a, b)
    ensures forall t :: IssuedBefore(a, i, token, t) <==> IssuedBefore(b, i, token, t)
  {
    assert forall t, k :: 0 <= k < i ==> (a[k] == Issue(t, token) <==> b[k] == Issue(t, token));
  }

  lemma UsesIgnoreJanitor(ttl: int, a: seq<Event>, b: seq<Event>, i: nat, token: string)
    requires i <= |a| && SameButForJanitor(a, b)
    ensures UsedBefore(ttl, a, i, token) <==> UsedBefore(ttl, b, i, token)
  {
    forall j: nat | j < i ensures ShouldAccept(ttl, a, j) <==> ShouldAccept(ttl, b, j) {
      RecordIgnoresJanitor(ttl, a, b, j);
    }
    assert forall j: nat :: j < i && a[j].Consume? ==> a[j] == b[j];
    assert forall j: nat :: j < i && b[j].Consume? ==> a[j] == b[j];
  }

  lemma AsksIgnoreJanitor(ttl: int, a: seq<Event>, b: seq<Event>, i: nat, token: string)
    requires i <= |a| && SameButForJanitor(a, b)
    ensures AskedBefore(ttl, a, i, token) <==> AskedBefore(ttl, b, i, token)
  {
    forall j: nat | j < i ensures AsksLate(ttl, a, j, token) <==> AsksLate(ttl, b, j, token) {
      IssuesIgnoreJanitor(a, b, j, token);
      UsesIgnoreJanitor(ttl, a, b, j, token);
    }
  }

  /** Two runs that differ only in their sweeps give the same reason for a request exactly when the
      token was never issued, was asked for after its time, or was swept in both or in neither. */
  lemma SameReasonIff(ttl: int, a: seq<Event>, b: seq<Event>, i: nat)
    requires i < |a| && SameButForJanitor(a, b) && Chronological(a) && FreshTokens(a) && a[i].Consume?
    ensures var token, now := a[i].token, a[i].at;
            (ConsumeReason(ttl, StateAt(ttl, a, i), token, now) == ConsumeReason(ttl, StateAt(ttl, b, i), token, now)
             <==> || !EverIssued(a, i, token)
                  || AskedBefore(ttl, a, i, token)
                  || (SweptBefore(ttl, a, i, token) <==> SweptBefore(ttl, b, i, token)))
  {
    var token := a[i].token;
    ReasonIff(ttl, a, i);
    ReasonIff(ttl, b, i);
    IssuesIgnoreJanitor(a, b, i, token);
    UsesIgnoreJanitor(ttl, a, b, i, token);
    AsksIgnoreJanitor(ttl, a, b, i, token);
    RecordIgnoresJanitor(ttl, a, b, i);
  }

  /** The janitor shows in a reason exactly when it has swept the token after its time and nobody
      had asked for it in between: then, and only then, "unknown" stands for the precise reason. */
  lemma JanitorShowsIff(ttl: int, swept: seq<Event>, idle: seq<Event>, i: nat)
    requires i < |swept| && SameButForJanitor(swept, idle) && Chronological(swept) && FreshTokens(swept)
    requires swept[i].Consume? && forall j :: 0 <= j < |idle| ==> !idle[j].Cleanup?
    ensures var token, now := swept[i].token, swept[i].at;
            var reason := ConsumeReason(ttl, StateAt(ttl, swept, i), token, now);
            && (reason != ConsumeReason(ttl, StateAt(ttl, idle, i), token, now)
                <==> SweptBefore(ttl, swept, i, token) && !AskedBefore(ttl, swept, i, token))
            && (reason != ConsumeReason(ttl, StateAt(ttl, idle, i), token, now) ==> reason == ConsumeUnknown)
  {
    var token := swept[i].token;
    SameReasonIff(ttl, swept, idle, i);
    ReasonIff(ttl, swept, i);
    if !EverIssued(swept, i, token) {
      FreshIsNotForgotten(ttl, swept, i, token);
    }
  }

  /** The reason, unlike the answer, does show the janitor: the same late request is
      "expired" without a sweep and "unknown" after one. */
  lemma ReasonShowsJanitor(ttl: int)
    requires ttl >= 0
    ensures var swept := [Issue(0, "t"), Cleanup(ttl + 1), Consume(ttl + 1, "t")];
            var idle := [Issue(0, "t"), Idle(ttl + 1), Consume(ttl + 1, "t")];
            && SameButForJanitor(swept, idle)
            && ConsumeReason(ttl, StateAt(ttl, swept, 2), "t", ttl + 1) == ConsumeUnknown
            && ConsumeReason(ttl, StateAt(ttl, idle, 2), "t", ttl + 1) == ConsumeExpired
  {
    var swept := [Issue(0, "t"), Cleanup(ttl + 1), Consume(ttl + 1, "t")];
    var idle := [Issue(0, "t"), Idle(ttl + 1), Consume(ttl + 1, "t")];
    assert StateAt(ttl, swept, 1) == StateAt(ttl, idle, 1) == map["t" := Entry(0, false)];
  }

  class TokenManager {
    var tokens: Tokens
    const ttl: int

    constructor (ttl: int)
      ensures tokens == map[] && this.ttl == ttl
    {
      tokens := map[];
      this.ttl := ttl;
    }

    /** `token` is the freshly drawn random value. */
    method Issue(token: string, now: int) returns (ttl: int)
      modifies this`tokens
      ensures tokens == Next(this.ttl, old(tokens), Event.Issue(now, token)) && ttl == this.ttl
    {
      tokens := tokens[token := Entry(now, false)];
      ttl := this.ttl;
    }

    method ConsumeWithReason(token: string, now: int) returns (ok: bool, reason: ConsumeResult)
      modifies this`tokens
      ensures tokens == Next(ttl, old(tokens), Event.Consume(now, token))
      ensures ok <==> Accepts(ttl, old(tokens), Event.Consume(now, token))
      ensures reason == ConsumeReason(ttl, old(tokens), token, now) && (ok <==> reason == ConsumeOK)
    {
      if token !in tokens {
        return false, ConsumeUnknown;
      }
      var entry := tokens[token];
      if entry.used {
        return false, ConsumeAlreadyUsed;
      }
      if now - entry.createdAt > ttl {
        tokens := tokens - {token};
        return false, ConsumeExpired;
      }
      tokens := tokens[token := Entry(entry.createdAt, true)];
      return true, ConsumeOK;
    }

    method Validate(token: string, now: int) returns (ok: bool)
      modifies this`tokens
      ensures tokens == Next(ttl, old(tokens), Event.Validate(now, token))
      ensures ok <==> Accepts(ttl, old(tokens), Event.Validate(now, token))
    {
      if token == "" || token !in tokens {
        return false;
      }
      if now - tokens[token].createdAt > ttl {
        tokens := tokens - {token};
        return false;
      }
      return true;
    }

    method Cleanup(now: int)
      modifies this`tokens
      ensures tokens == Next(ttl, old(tokens), Event.Cleanup(now))
    {
      var left := tokens.Keys;
      while left != {}
        invariant left <= old(tokens).Keys
        invariant tokens
               == map k | k in old(tokens) && (k in left || !Expired(ttl, old(tokens)[k], now)) :: old(tokens)[k]
      {
        var k :| k in left;
        if now - tokens[k].createdAt > ttl {
          tokens := tokens - {k};
        }
        left := left - {k};
      }
    }
  }
}
