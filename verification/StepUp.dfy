/** Step-up proofs: internal/auth/stepup.go on the server and the cache of
    web/js/api_client.js in the browser. The keyed hash is a parameter; where it matters it is
    taken to be injective, which is what section 2 of RFC 2104 relies on. */
module StepUp {
  import opened Wrappers
  import opened FreeNames
  import opened Bucketing

  const MILLISECOND := 1_000_000

  /** `mac` is the hex of the keyed hash under the server's secret; `ttl` is in nanoseconds. */
  datatype Server = Server(mac: string -> string, ttl: nat)

  const STEP_UP_WINDOW: nat := 300_000 * MILLISECOND

  function Slot(server: Server, now: nat): int
    requires server.ttl > 0
  {
    now / server.ttl
  }

  /** Slots follow one another from the epoch on, one window each. */
  lemma SlotHolds(server: Server, now: nat)
    requires server.ttl > 0
    ensures Slot(server, now) * server.ttl <= now < (Slot(server, now) + 1) * server.ttl
  {
    DivisionBounds(now, server.ttl);
  }

  function Printed(n: int): string {
    if n < 0 then "-" + Decimal(-n) else Decimal(n)
  }

  /** `"%d|%s"` */
  function Message(slot: int, sessionId: string): string {
    Printed(slot) + ['|'] + sessionId
  }

  function Proof(server: Server, sessionId: string, slot: int): string {
    server.mac(Message(slot, sessionId))
  }

  function Issue(server: Server, sessionId: string, now: nat): string
    requires server.ttl > 0
  {
    Proof(server, sessionId, Slot(server, now))
  }

  predicate Verifies(server: Server, sessionId: string, proof: string, now: nat)
    requires server.ttl > 0
  {
    && sessionId != "" && proof != ""
    && (proof == Proof(server, sessionId, Slot(server, now))
        || proof == Proof(server, sessionId, Slot(server, now) - 1))
  }

  method Verify(server: Server, sessionId: string, proof: string, now: nat) returns (ok: bool)
    requires server.ttl > 0
    ensures ok <==> Verifies(server, sessionId, proof, now)
  {
    if sessionId == "" || proof == "" {
      return false;
    }
    var b := Slot(server, now);
    var candidates := [b, b - 1];
    for i := 0 to |candidates|
      invariant forall j :: 0 <= j < i ==> Proof(server, sessionId, candidates[j]) != proof
    {
      if Proof(server, sessionId, candidates[i]) == proof {
        return true;
      }
    }
    assert Proof(server, sessionId, candidates[0]) != proof && Proof(server, sessionId, candidates[1]) != proof;
    return false;
  }

  lemma PrintedIsReadable(n: int)
    ensures forall i :: 0 <= i < |Printed(n)| ==> Printed(n)[i] != '|'
  {
  }

  lemma PrintedIsInjective(m: int, n: int)
    requires Printed(m) == Printed(n)
    ensures m == n
  {
    assert m >= 0 ==> IsDigit(Printed(m)[0]);
    assert n >= 0 ==> IsDigit(Printed(n)[0]);
    if m < 0 {
      assert Printed(m)[1..] == Decimal(-m) && Printed(n)[1..] == Decimal(-n);
      DecimalIsInjective(-m, -n);
    } else {
      DecimalIsInjective(m, n);
    }
  }

  /** No two pairs of slot and session share a message, whatever characters a session id holds. */
  lemma MessageIsInjective(m: int, s: string, n: int, t: string)
    requires Message(m, s) == Message(n, t)
    ensures m == n && s == t
  {
    var text := Message(m, s);
    var a, b := |Printed(m)|, |Printed(n)|;
    PrintedIsReadable(m);
    PrintedIsReadable(n);
    assert text[a] == '|' && text[b] == '|';
    assert forall i :: 0 <= i < a ==> text[i] == Printed(m)[i];
    assert forall i :: 0 <= i < b ==> text[i] == Printed(n)[i];
    assert a == b;
    assert text[..a] == Printed(m) && text[..b] == Printed(n);
    assert text[a + 1..] == s && text[b + 1..] == t;
    PrintedIsInjective(m, n);
  }

  ghost predicate Unforgeable(server: Server) {
    && (forall x, y :: server.mac(x) == server.mac(y) ==> x == y)
    && (forall x :: server.mac(x) != "")
  }

  /** A proof is accepted for the session it was issued to, in the slot it was issued in or the
      next one, and for no other session and at no other time. */
  lemma ProofIsAcceptedIff(server: Server, owner: string, issuedAt: nat, sessionId: string, now: nat)
    requires server.ttl > 0 && Unforgeable(server)
    ensures Verifies(server, sessionId, Issue(server, owner, issuedAt), now)
       <==> sessionId != "" && sessionId == owner
            && 0 <= Slot(server, now) - Slot(server, issuedAt) <= 1
  {
    var slot, current := Slot(server, issuedAt), Slot(server, now);
    if Proof(server, sessionId, current) == Proof(server, owner, slot) {
      MessageIsInjective(current, sessionId, slot, owner);
    }
    if Proof(server, sessionId, current - 1) == Proof(server, owner, slot) {
      MessageIsInjective(current - 1, sessionId, slot, owner);
    }
  }

  /** Always within one window of issue, never from two windows on. */
  lemma ProofWindow(server: Server, sessionId: string, issuedAt: nat, now: nat)
    requires server.ttl > 0 && Unforgeable(server) && sessionId != "" && issuedAt <= now
    ensures now - issuedAt <= server.ttl ==> Verifies(server, sessionId, Issue(server, sessionId, issuedAt), now)
    ensures now - issuedAt >= 2 * server.ttl ==> !Verifies(server, sessionId, Issue(server, sessionId, issuedAt), now)
  {
    var ttl := server.ttl;
    ProofIsAcceptedIff(server, sessionId, issuedAt, sessionId, now);
    SlotsApart(issuedAt, now, ttl);
  }

  lemma SlotsApart(a: nat, b: nat, ttl: nat)
    requires ttl > 0 && a <= b
    ensures a / ttl <= b / ttl
    ensures b - a <= ttl ==> b / ttl <= a / ttl + 1
    ensures b - a >= 2 * ttl ==> b / ttl >= a / ttl + 2
  {
    QuotientMonotone(a, b, ttl);
    DivisionBounds(a, ttl);
    assert ttl * (a / ttl + 1) == ttl * (a / ttl) + ttl;
    assert ttl * (a / ttl + 2) == ttl * (a / ttl) + 2 * ttl;
    QuotientIs(a + ttl, ttl, a / ttl + 1);
    QuotientIs(a + 2 * ttl, ttl, a / ttl + 2);
    if b - a <= ttl {
      QuotientMonotone(b, a + ttl, ttl);
    }
    if b - a >= 2 * ttl {
      QuotientMonotone(a + 2 * ttl, b, ttl);
    }
  }

  const STEP_UP_TTL_MS := 4 * 60 * 1000
  const STEP_UP_MARGIN_MS := 30 * 1000

  /** How long after receipt the browser hands a proof out, in milliseconds. */
  function CacheTime(ttlSec: int): int {
    (if ttlSec > 0 then ttlSec * 1000 else STEP_UP_TTL_MS) - STEP_UP_MARGIN_MS
  }

  /** Four and a half minutes of the server's five; three and a half when it names no window. */
  lemma CacheTimes(ttlSec: int)
    ensures ttlSec == 300 ==> CacheTime(ttlSec) == 270_000
    ensures ttlSec <= 0 ==> CacheTime(ttlSec) == 210_000
    ensures ttlSec > 0 ==> CacheTime(ttlSec + 1) == CacheTime(ttlSec) + 1000
  {
  }

  /** The module variables of the browser. */
  class ProofCache {
    var stepUpValue: Option<string>
    var stepUpExpiresAt: int

    constructor ()
      ensures stepUpValue == None && stepUpExpiresAt == 0
    {
      stepUpValue, stepUpExpiresAt := None, 0;
    }

    method GetStepUpHeader(now: int) returns (header: Option<string>)
      modifies this
      ensures header == if old(stepUpValue).Some? && now < old(stepUpExpiresAt) then old(stepUpValue) else None
      ensures stepUpValue == header && stepUpExpiresAt == old(stepUpExpiresAt)
    {
      if stepUpValue.None? {
        return None;
      }
      if now >= stepUpExpiresAt {
        stepUpValue := None;
        return None;
      }
      return stepUpValue;
    }

    method ClearStepUp()
      modifies this
      ensures stepUpValue == None && stepUpExpiresAt == 0
    {
      stepUpValue := None;
      stepUpExpiresAt := 0;
    }

    /** A usable answer of the endpoint, received at `now`; an empty proof is no answer. */
    method Remember(value: string, ttlSec: int, now: int) returns (kept: Option<string>)
      modifies this
      ensures value == "" ==> kept == None && stepUpValue == old(stepUpValue) && stepUpExpiresAt == old(stepUpExpiresAt)
      ensures value != "" ==>
                kept == Some(value) && stepUpValue == Some(value) && stepUpExpiresAt == now + CacheTime(ttlSec)
    {
      if value == "" {
        return None;
      }
      stepUpValue := Some(value);
      stepUpExpiresAt := now + CacheTime(ttlSec);
      return stepUpValue;
    }
  }

  /** A proof the browser still hands out is accepted, provided the two journeys, from issue to
      receipt and from sending to arrival, take no more than the margin together. All instants
      are milliseconds of one clock. */
  lemma CachedProofIsAccepted(server: Server, sessionId: string, issued: nat, received: nat, sent: nat, arrived: nat,
                              ttlSec: int)
    requires server.ttl == STEP_UP_WINDOW && Unforgeable(server) && sessionId != ""
    requires issued <= received <= sent <= arrived
    requires ttlSec == 300 || ttlSec <= 0
    requires sent < received + CacheTime(ttlSec)
    requires (received - issued) + (arrived - sent) <= STEP_UP_MARGIN_MS
    ensures Verifies(server, sessionId, Issue(server, sessionId, issued * MILLISECOND), arrived * MILLISECOND)
  {
    ProofWindow(server, sessionId, issued * MILLISECOND, arrived * MILLISECOND);
  }
}
