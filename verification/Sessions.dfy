/** Session cookies with sliding expiry, bound to the client that opened them:
    internal/auth/session.go, proved against a log of events that never forgets. */
module Sessions {
  import opened Wrappers

  /** A parsed address, always in its 16-byte form. */
  type Address = a: seq<bv8> | |a| == 16 witness seq(16, _ => 0)

  /** `net.ParseIP`, a parameter of the model: None for text that is no address. */
  type Parser = string -> Option<Address>

  /** `To4`: the four bytes behind the prefix that marks an IPv4 address. */
  function To4(a: Address): Option<seq<bv8>> {
    if a[..12] == [0, 0, 0, 0, 0, 0, 0, 0, 0, 0, 0xFF, 0xFF] then Some(a[12..]) else None
  }

  /** `net.CIDRMask(64, 128)` */
  function RoutingMask(): Address {
    seq(16, i => if i < 8 then 0xFF else 0x00)
  }

  function Masked(a: Address, mask: Address): Address {
    seq(16, i requires 0 <= i < 16 => a[i] & mask[i])
  }

  /** IPv6 is compared by its /64 prefix, anything else by its text. */
  predicate SameClient(parse: Parser, a: string, b: string) {
    if a == b then true else
    var ipA, ipB := parse(a), parse(b);
    if ipA.None? || ipB.None? then false
    else if To4(ipA.value).Some? || To4(ipB.value).Some? then false
    else Masked(ipA.value, RoutingMask()) == Masked(ipB.value, RoutingMask())
  }

  /** Ten zero bytes and two of all ones in front. */
  predicate IsIPv4(a: Address) {
    (forall i :: 0 <= i < 10 ==> a[i] == 0) && a[10] == 0xFF && a[11] == 0xFF
  }

  /** Two IPv6 addresses of one /64 network: the first 64 bits agree. */
  predicate SameNetwork(a: Address, b: Address) {
    !IsIPv4(a) && !IsIPv4(b) && forall i :: 0 <= i < 8 ==> a[i] == b[i]
  }

  /** One text, or two that stand for IPv6 addresses of one /64 network. */
  predicate OneClient(parse: Parser, a: string, b: string) {
    a == b || (parse(a).Some? && parse(b).Some? && SameNetwork(parse(a).value, parse(b).value))
  }

  lemma To4Iff(a: Address)
    ensures To4(a).Some? <==> IsIPv4(a)
  {
    var front := a[..12];
    assert forall i :: 0 <= i < 12 ==> front[i] == a[i];
    if IsIPv4(a) {
      assert front == [0, 0, 0, 0, 0, 0, 0, 0, 0, 0, 0xFF, 0xFF];
    }
  }

  lemma MaskedAt(a: Address, i: int)
    requires 0 <= i < 16
    ensures Masked(a, RoutingMask())[i] == if i < 8 then a[i] else 0
  {
    assert a[i] & 0xFF == a[i] && a[i] & 0 == 0;
  }

  lemma MaskedEqualIff(a: Address, b: Address)
    ensures Masked(a, RoutingMask()) == Masked(b, RoutingMask()) <==> forall i :: 0 <= i < 8 ==> a[i] == b[i]
  {
    var x, y := Masked(a, RoutingMask()), Masked(b, RoutingMask());
    forall i | 0 <= i < 16 ensures x[i] == y[i] <==> (i < 8 ==> a[i] == b[i]) {
      MaskedAt(a, i);
      MaskedAt(b, i);
    }
  }

  /** Who counts as the same client. */
  lemma SameClientIff(parse: Parser, a: string, b: string)
    ensures SameClient(parse, a, b) <==> OneClient(parse, a, b)
  {
    if parse(a).Some? && parse(b).Some? {
      To4Iff(parse(a).value);
      To4Iff(parse(b).value);
      MaskedEqualIff(parse(a).value, parse(b).value);
    }
  }

  lemma SameClientIsAnEquivalence(parse: Parser, a: string, b: string, c: string)
    ensures SameClient(parse, a, a)
    ensures SameClient(parse, a, b) <==> SameClient(parse, b, a)
    ensures SameClient(parse, a, b) && SameClient(parse, b, c) ==> SameClient(parse, a, c)
  {
    SameClientIff(parse, a, a);
    SameClientIff(parse, a, b);
    SameClientIff(parse, b, a);
    SameClientIff(parse, b, c);
    SameClientIff(parse, a, c);
  }

  datatype Session = Session(createdAt: int, lastSeen: int, ip: string)

  type SessionMap = map<string, Session>

  /** `Check` is a request carrying a session id, "" when it carries none; `Idle` stands
      where the janitor does not run. */
  datatype Event =
    | Create(at: int, id: string, ip: string)
    | Check(at: int, id: string, ip: string)
    | Invalidate(at: int, id: string)
    | Cleanup(at: int)
    | Idle(at: int)

  datatype Config = Config(ttl: int, parse: Parser)

  predicate Expired(c: Config, s: Session, now: int) {
    now - s.lastSeen > c.ttl
  }

  predicate Validates(c: Config, m: SessionMap, id: string, ip: string, now: int) {
    id != "" && id in m && !Expired(c, m[id], now) && SameClient(c.parse, m[id].ip, ip)
  }

  function Next(c: Config, m: SessionMap, e: Event): SessionMap {
    match e
    case Create(at, id, ip) => m[id := Session(at, at, ip)]
    case Check(at, id, ip) =>
      if Validates(c, m, id, ip, at) then m[id := m[id].(lastSeen := at)]
      else if id != "" && id in m && Expired(c, m[id], at) then m - {id}
      else m
    case Invalidate(_, id) => if id == "" then m else m - {id}
    case Cleanup(at) => map k | k in m && !Expired(c, m[k], at) :: m[k]
    case Idle(_) => m
  }

  predicate Accepts(c: Config, m: SessionMap, e: Event) {
    e.Check? ==> Validates(c, m, e.id, e.ip, e.at)
  }

  /** The map after the first `i` events of a run that starts empty. */
  function StateAt(c: Config, events: seq<Event>, i: nat): SessionMap
    requires i <= |events|
  {
    if i == 0 then map[] else Next(c, StateAt(c, events, i - 1), events[i - 1])
  }

  predicate AcceptsAt(c: Config, events: seq<Event>, i: nat)
    requires i < |events|
  {
    Accepts(c, StateAt(c, events, i), events[i])
  }

  ghost predicate Chronological(events: seq<Event>) {
    forall i, j :: 0 <= i < j < |events| ==> events[i].at <= events[j].at
  }

  /** Session ids are 256 random bits, so no two are equal and none is empty. */
  ghost predicate FreshIds(events: seq<Event>) {
    && (forall i :: 0 <= i < |events| && events[i].Create? ==> events[i].id != "")
    && (forall i, j :: 0 <= i < j < |events| && events[i].Create? && events[j].Create? ==> events[i].id != events[j].id)
  }

  /** Event `k` created session `id` for `ip`, and no later one before `i` invalidated it. */
  ghost predicate Standing(events: seq<Event>, i: nat, id: string, ip: string, k: nat)
    requires i <= |events|
  {
    && k < i && events[k].Create? && events[k].id == id && events[k].ip == ip
    && forall j :: k < j < i ==> !(events[j].Invalidate? && events[j].id == id)
  }

  /** Event `j` created session `id` or was a request it was accepted for. */
  ghost predicate Touches(c: Config, events: seq<Event>, j: nat, id: string)
    requires j < |events|
    decreases j, 1
  {
    || (events[j].Create? && events[j].id == id)
    || (events[j].Check? && events[j].id == id && ShouldAccept(c, events, j))
  }

  /** What the log says of event `i`: the session was created, never invalidated, the caller is
      the client it was created for, and the last success or creation is at most `ttl` ago. */
  ghost predicate ShouldAccept(c: Config, events: seq<Event>, i: nat)
    requires i < |events|
    decreases i, 0
  {
    events[i].Check? ==>
      && (exists k, ip :: Standing(events, i, events[i].id, ip, k) && OneClient(c.parse, ip, events[i].ip))
      && (exists j: nat :: j < i && Touches(c, events, j, events[i].id) && events[i].at - events[j].at <= c.ttl)
  }

  function LastAt(events: seq<Event>, i: nat): int
    requires i <= |events|
  {
    if i == 0 then 0 else events[i - 1].at
  }

  /** The newest touch of `id` among the first `i` events happened at `t`. */
  ghost predicate LastTouch(c: Config, events: seq<Event>, i: nat, id: string, t: int)
    requires i <= |events|
  {
    && (exists j: nat :: j < i && Touches(c, events, j, id) && events[j].at == t)
    && (forall j: nat :: j < i && Touches(c, events, j, id) ==> events[j].at <= t)
  }

  /** A session the map holds is standing, with its client and newest touch; a standing one it
      does not hold was last touched longer than `ttl` ago. */
  ghost predicate Faithful(c: Config, events: seq<Event>, i: nat, id: string)
    requires i <= |events|
  {
    var m := StateAt(c, events, i);
    if id in m then
      (exists k :: Standing(events, i, id, m[id].ip, k)) && LastTouch(c, events, i, id, m[id].lastSeen)
    else
      (exists ip, k :: Standing(events, i, id, ip, k)) ==>
        forall j: nat :: j < i && Touches(c, events, j, id) ==> LastAt(events, i) - events[j].at > c.ttl
  }

  lemma CreatedOnce(events: seq<Event>, i: nat, id: string, ip: string, k: nat, ip': string, k': nat)
    requires i <= |events| && FreshIds(events)
    requires Standing(events, i, id, ip, k) && Standing(events, i, id, ip', k')
    ensures k == k' && ip == ip' && id != ""
  {
  }

  lemma HeldSessionHasItsClient(parse: Parser, events: seq<Event>, i: nat, id: string, bound: string, k: nat,
                                ip: string)
    requires i <= |events| && FreshIds(events) && Standing(events, i, id, bound, k)
    ensures SameClient(parse, bound, ip) <==> exists k', b :: Standing(events, i, id, b, k') && OneClient(parse, b, ip)
  {
    SameClientIff(parse, bound, ip);
    if k', b :| Standing(events, i, id, b, k') && OneClient(parse, b, ip) {
      CreatedOnce(events, i, id, bound, k, b, k');
    }
  }

  lemma FaithfulAnswers(c: Config, events: seq<Event>, i: nat)
    requires i < |events| && Chronological(events) && FreshIds(events)
    requires events[i].Check? ==> Faithful(c, events, i, events[i].id)
    ensures AcceptsAt(c, events, i) <==> ShouldAccept(c, events, i)
  {
    var e := events[i];
    var m := StateAt(c, events, i);
    if e.Check? {
      assert i > 0 ==> events[i - 1].at <= e.at;
      if e.id in m {
        var k :| Standing(events, i, e.id, m[e.id].ip, k);
        CreatedOnce(events, i, e.id, m[e.id].ip, k, m[e.id].ip, k);
        HeldSessionHasItsClient(c.parse, events, i, e.id, m[e.id].ip, k, e.ip);
      }
    }
  }

  lemma StandingStep(events: seq<Event>, i: nat, id: string, ip: string, k: nat)
    requires i < |events|
    ensures Standing(events, i + 1, id, ip, k)
       <==> (Standing(events, i, id, ip, k) && !(events[i].Invalidate? && events[i].id == id))
            || (k == i && events[i].Create? && events[i].id == id && events[i].ip == ip)
  {
  }

  lemma TouchStep(c: Config, events: seq<Event>, i: nat, id: string, t: int)
    requires i < |events| && Chronological(events)
    ensures Touches(c, events, i, id) ==> LastTouch(c, events, i + 1, id, events[i].at)
    ensures !Touches(c, events, i, id) && LastTouch(c, events, i, id, t) ==> LastTouch(c, events, i + 1, id, t)
  {
  }

  lemma HeldStep(c: Config, events: seq<Event>, i: nat, id: string)
    requires i < |events| && Chronological(events) && FreshIds(events) && Faithful(c, events, i, id)
    requires id in StateAt(c, events, i + 1)
    ensures Faithful(c, events, i + 1, id)
  {
    var e := events[i];
    var m, m' := StateAt(c, events, i), StateAt(c, events, i + 1);
    if e.Create? && e.id == id {
      StandingStep(events, i, id, e.ip, i);
      TouchStep(c, events, i, id, 0);
    } else {
      if e.Check? && e.id == id {
        FaithfulAnswers(c, events, i);
      }
      var k :| Standing(events, i, id, m[id].ip, k);
      StandingStep(events, i, id, m[id].ip, k);
      TouchStep(c, events, i, id, m[id].lastSeen);
    }
  }

  lemma ForgottenStep(c: Config, events: seq<Event>, i: nat, id: string)
    requires i < |events| && Chronological(events) && FreshIds(events) && Faithful(c, events, i, id)
    requires id !in StateAt(c, events, i + 1)
    ensures Faithful(c, events, i + 1, id)
  {
    var e, n := events[i], i + 1;
    var m := StateAt(c, events, i);
    assert i > 0 ==> events[i - 1].at <= e.at;
    if e.Check? && e.id == id {
      FaithfulAnswers(c, events, i);
    }
    if ip, k :| Standing(events, n, id, ip, k) {
      StandingStep(events, i, id, ip, k);
      assert Standing(events, i, id, ip, k);
      forall j: nat | j < n && Touches(c, events, j, id) ensures e.at - events[j].at > c.ttl {
        assert j < i;
        assert id in m ==> LastTouch(c, events, i, id, m[id].lastSeen);
      }
    }
  }

  lemma {:induction false} AlwaysFaithful(c: Config, events: seq<Event>, i: nat, id: string)
    requires i <= |events| && Chronological(events) && FreshIds(events)
    ensures Faithful(c, events, i, id)
  {
    if i > 0 {
      AlwaysFaithful(c, events, i - 1, id);
      if id in StateAt(c, events, i - 1 + 1) {
        HeldStep(c, events, i - 1, id);
      } else {
        ForgottenStep(c, events, i - 1, id);
      }
    }
  }

  /** In every run every request is answered exactly as the log says. A refused request is no
      touch, so it never extends a session. */
  lemma AnswersMatchLog(c: Config, events: seq<Event>, i: nat)
    requires i < |events| && Chronological(events) && FreshIds(events)
    ensures AcceptsAt(c, events, i) <==> ShouldAccept(c, events, i)
  {
    if events[i].Check? {
      AlwaysFaithful(c, events, i, events[i].id);
    }
    FaithfulAnswers(c, events, i);
  }

  /** An accepted request comes from the very address the session was created for, or from another
      IPv6 address of its /64 network. */
  lemma AcceptedComesFromClient(c: Config, events: seq<Event>, i: nat) returns (k: nat)
    requires i < |events| && Chronological(events) && FreshIds(events)
    requires events[i].Check? && AcceptsAt(c, events, i)
    ensures k < i && events[k].Create? && events[k].id == events[i].id
    ensures OneClient(c.parse, events[k].ip, events[i].ip)
  {
    AnswersMatchLog(c, events, i);
    var j, ip :| Standing(events, i, events[i].id, ip, j) && OneClient(c.parse, ip, events[i].ip);
    k := j;
  }

  /** Once invalidated, or once left alone for longer than `ttl`, a session is never accepted again. */
  lemma EndedSessionStaysEnded(c: Config, events: seq<Event>, i: nat, j: nat)
    requires i < j < |events| && Chronological(events) && FreshIds(events)
    requires events[j].Check?
    requires forall k :: i <= k < j ==> !(events[k].Create? && events[k].id == events[j].id)
    requires || (events[i].Invalidate? && events[i].id == events[j].id)
             || (forall k: nat :: k < i && Touches(c, events, k, events[j].id) ==> events[i].at - events[k].at > c.ttl)
    ensures !AcceptsAt(c, events, j)
    decreases j
  {
    AnswersMatchLog(c, events, j);
    if !events[i].Invalidate? || events[i].id != events[j].id {
      forall k: nat | i <= k < j && events[k].Check? && events[k].id == events[j].id
        ensures !ShouldAccept(c, events, k)
      {
        if k == i {
          AnswersMatchLog(c, events, i);
        } else {
          EndedSessionStaysEnded(c, events, i, k);
          AnswersMatchLog(c, events, k);
        }
      }
      assert forall k: nat :: k < j && Touches(c, events, k, events[j].id) ==> k < i;
    }
  }

  ghost predicate SameButForJanitor(a: seq<Event>, b: seq<Event>) {
    |a| == |b| && forall i :: 0 <= i < |a| ==>
      a[i] == b[i] || (a[i].at == b[i].at && (a[i].Cleanup? || a[i].Idle?) && (b[i].Cleanup? || b[i].Idle?))
  }

  lemma {:induction false} LogIgnoresJanitor(c: Config, a: seq<Event>, b: seq<Event>, i: nat)
    requires i < |a| && SameButForJanitor(a, b)
    ensures ShouldAccept(c, a, i) <==> ShouldAccept(c, b, i)
  {
    forall j: nat | j < i ensures ShouldAccept(c, a, j) <==> ShouldAccept(c, b, j) {
      LogIgnoresJanitor(c, a, b, j);
    }
    if a[i].Check? {
      forall k, ip ensures Standing(a, i, a[i].id, ip, k) <==> Standing(b, i, a[i].id, ip, k) {
      }
      forall j: nat | j < i ensures Touches(c, a, j, a[i].id) <==> Touches(c, b, j, a[i].id) {
      }
    }
  }

  /** Adding, removing or moving sweeps changes no answer of any run. */
  lemma JanitorIsUnobservable(c: Config, a: seq<Event>, b: seq<Event>, i: nat)
    requires i < |a| && SameButForJanitor(a, b) && Chronological(a) && FreshIds(a)
    ensures AcceptsAt(c, a, i) <==> AcceptsAt(c, b, i)
  {
    AnswersMatchLog(c, a, i);
    AnswersMatchLog(c, b, i);
    LogIgnoresJanitor(c, a, b, i);
  }

  class SessionManager {
    var sessions: SessionMap
    const config: Config

    constructor (config: Config)
      ensures sessions == map[] && this.config == config
    {
      sessions := map[];
      this.config := config;
    }

    /** `id` is the freshly drawn random value. */
    method CreateSession(id: string, ip: string, now: int)
      modifies this`sessions
      ensures sessions == Next(config, old(sessions), Create(now, id, ip))
    {
      sessions := sessions[id := Session(now, now, ip)];
    }

    method ValidateSession(sessionId: string, ip: string, now: int) returns (ok: bool)
      modifies this`sessions
      ensures sessions == Next(config, old(sessions), Check(now, sessionId, ip))
      ensures ok <==> Accepts(config, old(sessions), Check(now, sessionId, ip))
    {
      if sessionId == "" || sessionId !in sessions {
        return false;
      }
      var s := sessions[sessionId];
      if now - s.lastSeen > config.ttl {
        sessions := sessions - {sessionId};
        return false;
      }
      if !SameClient(config.parse, s.ip, ip) {
        return false;
      }
      sessions := sessions[sessionId := s.(lastSeen := now)];
      return true;
    }

    method Invalidate(sessionId: string, now: int)
      modifies this`sessions
      ensures sessions == Next(config, old(sessions), Event.Invalidate(now, sessionId))
    {
      if sessionId != "" {
        sessions := sessions - {sessionId};
      }
    }

    method Cleanup(now: int)
      modifies this`sessions
      ensures sessions == Next(config, old(sessions), Event.Cleanup(now))
    {
      var left := sessions.Keys;
      while left != {}
        invariant left <= old(sessions).Keys
        invariant sessions
               == map k | k in old(sessions) && (k in left || !Expired(config, old(sessions)[k], now)) ::
                    old(sessions)[k]
      {
        var k :| k in left;
        if now - sessions[k].lastSeen > config.ttl {
          sessions := sessions - {k};
        }
        left := left - {k};
      }
    }
  }
}
