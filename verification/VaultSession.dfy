/** The in-memory session and the brute-force lock of web/js/session_manager.js. Decryption is
    an outcome of the attempt; times are milliseconds on a clock that never steps back. */
module VaultSession {
  import opened Wrappers

  const MAX_ATTEMPTS := 10
  const LOCKOUT_THRESHOLD := 3
  const MAX_DELAY := 30000
  const DEFAULT_TIMEOUT := 15 * 60 * 1000

  datatype Identity = Identity(npub: string, sk: string, relays: seq<string>)

  datatype Signal = Unlocked | Pending | Active | Locked | AutoLocked | Wiped

  /** `vault` is the identity the stored envelope holds; `attempts` and `lockoutUntil` are the
      stored failure record; `emitted` is the history of signals sent to the app. */
  datatype Session = Session(sk: Option<string>, npub: Option<string>, relays: Option<seq<string>>, locked: bool,
                             pendingBackend: bool, timerArmed: bool, timeoutMs: int, vault: Option<Identity>,
                             attempts: nat, lockoutUntil: Option<int>, emitted: seq<Signal>)

  /** An attempt reads the clock when it starts and once more at its end: to say how long to wait
      when it is refused, to record the failure when decryption fails. `Biometric` is an unlock by
      the platform authenticator; `Reload` a new page, to which only what was stored survives,
      the saved timeout in minutes among it. */
  datatype Event =
    | StartSession(identity: Identity)
    | PinAttempt(correct: bool, start: int, end: int)
    | Biometric(identity: Identity)
    | SaveVault(identity: Identity)
    | BackendAnswered
    | Lock
    | Wipe
    | TimerFires
    | Activity
    | SetTimeout(minutes: int)
    | Reload(savedMinutes: Option<int>)

  datatype Outcome = Opened | NoVault | LockedOut(seconds: int) | WrongPin | VaultWiped

  function Initial(timeoutMs: int, vault: Option<Identity>): Session {
    Session(None, None, None, true, false, false, timeoutMs, vault, 0, None, [])
  }

  /** The timeout a page starts with; an unusable or missing setting means the default, 0 none. */
  function LoadedTimeout(savedMinutes: Option<int>): (ms: int)
    ensures ms >= 0 && (ms == 0 <==> savedMinutes == Some(0))
  {
    if savedMinutes.Some? && savedMinutes.value >= 0 then savedMinutes.value * 60 * 1000 else DEFAULT_TIMEOUT
  }

  function ResetTimer(s: Session): Session {
    s.(timerArmed := !s.locked && s.timeoutMs != 0)
  }

  function Emit(s: Session, signals: seq<Signal>): Session {
    s.(emitted := s.emitted + signals)
  }

  /** The key goes in, the app is told, and the backend has yet to answer. */
  function Opening(s: Session, npub: string, id: Identity): Session {
    Emit(ResetTimer(s.(sk := Some(id.sk), npub := Some(npub), relays := Some(id.relays),
                       locked := false, pendingBackend := true)), [Unlocked, Pending])
  }

  function ForgetFailures(s: Session): Session {
    s.(attempts := 0, lockoutUntil := None)
  }

  function Locking(s: Session): Session {
    Emit(s.(sk := None, npub := None, relays := None, locked := true, pendingBackend := false, timerArmed := false),
         [Locked])
  }

  function Wiping(s: Session): Session {
    Emit(ForgetFailures(Locking(s).(vault := None)), [Wiped])
  }

  function Power(n: nat): nat {
    if n == 0 then 1 else 2 * Power(n - 1)
  }

  /** How long the `n`th consecutive failure shuts the door. */
  function Delay(n: nat): (ms: int)
    requires n >= LOCKOUT_THRESHOLD
    ensures 0 < ms <= MAX_DELAY
  {
    var delay := Power(n - LOCKOUT_THRESHOLD) * 1000;
    PowerIsPositive(n - LOCKOUT_THRESHOLD);
    if delay < MAX_DELAY then delay else MAX_DELAY
  }

  lemma PowerIsPositive(n: nat)
    ensures Power(n) >= 1
  {
  }

  /** One second at first, then twice as long each time, but never more than thirty. */
  lemma DelayDoubles(n: nat)
    requires n >= LOCKOUT_THRESHOLD
    ensures Delay(LOCKOUT_THRESHOLD) == 1000
    ensures Delay(n + 1) == if 2 * Delay(n) < 30000 then 2 * Delay(n) else 30000
  {
    assert Power(0) == 1;
    PowerIsPositive(n - LOCKOUT_THRESHOLD);
  }

  function RecordFailure(s: Session, now: int): Session {
    var attempts := s.attempts + 1;
    if attempts >= MAX_ATTEMPTS then Wiping(s)
    else s.(attempts := attempts,
            lockoutUntil := if attempts >= LOCKOUT_THRESHOLD then Some(now + Delay(attempts)) else None)
  }

  predicate ShutOut(s: Session, now: int) {
    s.lockoutUntil.Some? && now < s.lockoutUntil.value
  }

  function Attempt(s: Session, normalize: string -> string, correct: bool, start: int, end: int): Session {
    if s.vault.None? || ShutOut(s, start) then s
    else if correct then Opening(ForgetFailures(s), normalize(s.vault.value.npub), s.vault.value)
    else RecordFailure(s, end)
  }

  function AttemptOutcome(s: Session, correct: bool, start: int, end: int): Outcome {
    if s.vault.None? then NoVault
    else if ShutOut(s, start) then LockedOut((s.lockoutUntil.value - end + 999) / 1000)
    else if correct then Opened
    else if s.attempts + 1 >= MAX_ATTEMPTS then VaultWiped
    else WrongPin
  }

  function Step(normalize: string -> string, s: Session, e: Event): Session {
    match e
    case StartSession(id) => if id.sk == "" || id.npub == "" then s else Opening(s, id.npub, id)
    case PinAttempt(correct, start, end) => Attempt(s, normalize, correct, start, end)
    case Biometric(id) => Opening(ForgetFailures(s), normalize(id.npub), id)
    case SaveVault(id) => s.(vault := Some(id))
    case BackendAnswered => if s.pendingBackend then Emit(s.(pendingBackend := false), [Active]) else s
    case Lock => Locking(s)
    case Wipe => Wiping(s)
    case TimerFires => if s.timerArmed then Emit(Locking(s), [AutoLocked]) else s
    case Activity => if s.locked then s else ResetTimer(s)
    case SetTimeout(minutes) =>
      ResetTimer(if minutes >= 0 then s.(timeoutMs := minutes * 60 * 1000) else s)
    case Reload(savedMinutes) =>
      Initial(LoadedTimeout(savedMinutes), s.vault).(attempts := s.attempts, lockoutUntil := s.lockoutUntil)
  }

  function Run(normalize: string -> string, start: Session, events: seq<Event>): Session {
    if events == [] then start
    else Step(normalize, Run(normalize, start, events[..|events| - 1]), events[|events| - 1])
  }

  function Count(signals: seq<Signal>, kind: Signal): nat {
    if signals == [] then 0
    else Count(signals[..|signals| - 1], kind) + (if signals[|signals| - 1] == kind then 1 else 0)
  }

  /** The last thing said about the lock was that it opened. */
  predicate ToldOpen(signals: seq<Signal>) {
    signals != [] &&
    match signals[|signals| - 1]
    case Unlocked => true
    case Locked => false
    case _ => ToldOpen(signals[..|signals| - 1])
  }

  lemma EmitOne(signals: seq<Signal>, x: Signal, kind: Signal)
    ensures Count(signals + [x], kind) == Count(signals, kind) + (if x == kind then 1 else 0)
    ensures ToldOpen(signals + [x])
         == match x { case Unlocked => true case Locked => false case _ => ToldOpen(signals) }
  {
    assert (signals + [x])[..|signals + [x]| - 1] == signals;
  }

  /** A locked session holds nothing and waits for nothing. An open one holds its key and has
      its timer armed unless auto-lock is off. The app has been told which it is. */
  ghost predicate Consistent(s: Session) {
    && (s.locked ==> s.sk.None? && s.npub.None? && s.relays.None? && !s.pendingBackend && !s.timerArmed)
    && (!s.locked ==> s.sk.Some? && s.npub.Some? && (s.timerArmed <==> s.timeoutMs != 0))
    && (ToldOpen(s.emitted) <==> !s.locked)
  }

  /** Every "active" was preceded by its own "unlocked". */
  ghost predicate ActiveOncePerUnlock(s: Session) {
    Count(s.emitted, Active) + (if s.pendingBackend then 1 else 0) <= Count(s.emitted, Unlocked)
  }

  lemma OpeningIsSound(s: Session, npub: string, id: Identity)
    ensures Consistent(Opening(s, npub, id))
    ensures ActiveOncePerUnlock(s) ==> ActiveOncePerUnlock(Opening(s, npub, id))
  {
    assert s.emitted + [Unlocked, Pending] == s.emitted + [Unlocked] + [Pending];
    EmitOne(s.emitted, Unlocked, Active);
    EmitOne(s.emitted, Unlocked, Unlocked);
    EmitOne(s.emitted + [Unlocked], Pending, Active);
    EmitOne(s.emitted + [Unlocked], Pending, Unlocked);
  }

  lemma LockingIsSound(s: Session)
    ensures Consistent(Locking(s))
    ensures ActiveOncePerUnlock(s) ==> ActiveOncePerUnlock(Locking(s))
  {
    EmitOne(s.emitted, Locked, Active);
    EmitOne(s.emitted, Locked, Unlocked);
  }

  lemma WipingIsSound(s: Session)
    ensures Consistent(Wiping(s))
    ensures ActiveOncePerUnlock(s) ==> ActiveOncePerUnlock(Wiping(s))
  {
    LockingIsSound(s);
    EmitOne(s.emitted + [Locked], Wiped, Active);
    EmitOne(s.emitted + [Locked], Wiped, Unlocked);
  }

  lemma AutoLockIsSound(s: Session)
    ensures Consistent(Emit(Locking(s), [AutoLocked]))
    ensures ActiveOncePerUnlock(s) ==> ActiveOncePerUnlock(Emit(Locking(s), [AutoLocked]))
  {
    LockingIsSound(s);
    EmitOne(s.emitted + [Locked], AutoLocked, Active);
    EmitOne(s.emitted + [Locked], AutoLocked, Unlocked);
  }

  lemma AttemptIsSound(normalize: string -> string, s: Session, correct: bool, start: int, end: int)
    requires Consistent(s) && ActiveOncePerUnlock(s)
    ensures var s' := Attempt(s, normalize, correct, start, end); Consistent(s') && ActiveOncePerUnlock(s')
  {
    WipingIsSound(s);
    if s.vault.Some? {
      OpeningIsSound(ForgetFailures(s), normalize(s.vault.value.npub), s.vault.value);
    }
  }

  lemma AnswerIsSound(normalize: string -> string, s: Session)
    requires Consistent(s) && ActiveOncePerUnlock(s)
    ensures var s' := Step(normalize, s, BackendAnswered); Consistent(s') && ActiveOncePerUnlock(s')
  {
    EmitOne(s.emitted, Active, Active);
    EmitOne(s.emitted, Active, Unlocked);
  }

  /** The steps that say nothing to the app. */
  lemma SilentStepIsSound(normalize: string -> string, s: Session, e: Event)
    requires Consistent(s) && ActiveOncePerUnlock(s)
    requires e.SaveVault? || e.Activity? || e.SetTimeout? || e.Reload?
    ensures var s' := Step(normalize, s, e); Consistent(s') && ActiveOncePerUnlock(s')
  {
  }

  lemma StepKeepsConsistent(normalize: string -> string, s: Session, e: Event)
    requires Consistent(s) && ActiveOncePerUnlock(s)
    ensures Consistent(Step(normalize, s, e)) && ActiveOncePerUnlock(Step(normalize, s, e))
  {
    match e
    case StartSession(id) => OpeningIsSound(s, id.npub, id);
    case PinAttempt(correct, start, end) => AttemptIsSound(normalize, s, correct, start, end);
    case Biometric(id) => OpeningIsSound(ForgetFailures(s), normalize(id.npub), id);
    case BackendAnswered => AnswerIsSound(normalize, s);
    case Lock => LockingIsSound(s);
    case Wipe => WipingIsSound(s);
    case TimerFires => AutoLockIsSound(s);
    case _ => SilentStepIsSound(normalize, s, e);
  }

  /** In every run of any operations. */
  lemma {:induction false} RunIsConsistent(normalize: string -> string, timeoutMs: int, vault: Option<Identity>,
                                           events: seq<Event>)
    ensures Consistent(Run(normalize, Initial(timeoutMs, vault), events))
    ensures ActiveOncePerUnlock(Run(normalize, Initial(timeoutMs, vault), events))
  {
    if events != [] {
      var before := events[..|events| - 1];
      RunIsConsistent(normalize, timeoutMs, vault, before);
      StepKeepsConsistent(normalize, Run(normalize, Initial(timeoutMs, vault), before), events[|events| - 1]);
    }
  }

  /** What a step makes of the stored identity: the one saved, none after a wipe. */
  function StoredAfter(s: Session, stored: Option<Identity>, e: Event): Option<Identity> {
    match e
    case SaveVault(id) => Some(id)
    case Wipe => None
    case PinAttempt(correct, start, end) => if AttemptOutcome(s, correct, start, end).VaultWiped? then None else stored
    case _ => stored
  }

  /** What a step makes of the identity, as shown, that has the session open. */
  function OpenedAfter(normalize: string -> string, s: Session, stored: Option<Identity>, holder: Option<Identity>,
                       e: Event): Option<Identity> {
    match e
    case StartSession(id) => if id.sk == "" || id.npub == "" then holder else Some(id)
    case Biometric(id) => Some(id.(npub := normalize(id.npub)))
    case PinAttempt(correct, start, end) =>
      var outcome := AttemptOutcome(s, correct, start, end);
      if outcome.Opened? && stored.Some? then Some(stored.value.(npub := normalize(stored.value.npub)))
      else if outcome.VaultWiped? then None
      else holder
    case Lock => None
    case Wipe => None
    case Reload(_) => None
    case TimerFires => if s.timerArmed then None else holder
    case _ => holder
  }

  function Stored(normalize: string -> string, start: Session, events: seq<Event>): Option<Identity> {
    if events == [] then start.vault else
    var before := events[..|events| - 1];
    StoredAfter(Run(normalize, start, before), Stored(normalize, start, before), events[|events| - 1])
  }

  function OpenedAs(normalize: string -> string, start: Session, events: seq<Event>): Option<Identity> {
    if events == [] then None else
    var before := events[..|events| - 1];
    OpenedAfter(normalize, Run(normalize, start, before), Stored(normalize, start, before),
                OpenedAs(normalize, start, before), events[|events| - 1])
  }

  /** An open session holds the key, the name and the relays of the identity that opened it. */
  ghost predicate Holds(s: Session, id: Option<Identity>) {
    match id
    case None => s.locked
    case Some(who) => !s.locked && s.sk == Some(who.sk) && s.npub == Some(who.npub) && s.relays == Some(who.relays)
  }

  lemma AttemptHolds(normalize: string -> string, s: Session, holder: Option<Identity>, e: Event)
    requires Holds(s, holder) && e.PinAttempt?
    ensures Step(normalize, s, e).vault == StoredAfter(s, s.vault, e)
    ensures Holds(Step(normalize, s, e), OpenedAfter(normalize, s, s.vault, holder, e))
  {
  }

  lemma StepHolds(normalize: string -> string, s: Session, holder: Option<Identity>, e: Event)
    requires Holds(s, holder)
    ensures Step(normalize, s, e).vault == StoredAfter(s, s.vault, e)
    ensures Holds(Step(normalize, s, e), OpenedAfter(normalize, s, s.vault, holder, e))
  {
    if e.PinAttempt? {
      AttemptHolds(normalize, s, holder, e);
    }
  }

  /** Over every run a session is open exactly while an identity has opened it, and it is that one's;
      the identity a PIN opens is the one last saved. */
  lemma {:induction false} RunHoldsWhoOpened(normalize: string -> string, timeoutMs: int, vault: Option<Identity>,
                                             events: seq<Event>)
    ensures var start := Initial(timeoutMs, vault);
            && Run(normalize, start, events).vault == Stored(normalize, start, events)
            && Holds(Run(normalize, start, events), OpenedAs(normalize, start, events))
  {
    if events != [] {
      var start, before := Initial(timeoutMs, vault), events[..|events| - 1];
      RunHoldsWhoOpened(normalize, timeoutMs, vault, before);
      StepHolds(normalize, Run(normalize, start, before), OpenedAs(normalize, start, before), events[|events| - 1]);
    }
  }

  /** Setting a timeout and loading the page again gives the same timeout. */
  lemma TimeoutSurvivesReload(normalize: string -> string, s: Session, minutes: int)
    requires minutes >= 0
    ensures Step(normalize, Step(normalize, s, SetTimeout(minutes)), Reload(Some(minutes))).timeoutMs
         == Step(normalize, s, SetTimeout(minutes)).timeoutMs == minutes * 60000
  {
  }

  /** Attempts follow one another: each starts after the one before has ended. */
  ghost predicate Sequential(events: seq<Event>) {
    && (forall i :: 0 <= i < |events| && events[i].PinAttempt? ==> events[i].start <= events[i].end)
    && (forall i, j :: 0 <= i < j < |events| && events[i].PinAttempt? && events[j].PinAttempt? ==>
          events[i].end <= events[j].start)
  }

  /** The instants of the failures counted since the last success, wipe or reset. */
  function Streak(normalize: string -> string, start: Session, events: seq<Event>): seq<int> {
    if events == [] then [] else
    var before := events[..|events| - 1];
    var s := Run(normalize, start, before);
    var e := events[|events| - 1];
    match e
    case PinAttempt(correct, begin, end) =>
      if s.vault.None? || ShutOut(s, begin) then Streak(normalize, start, before)
      else if correct || s.attempts + 1 >= MAX_ATTEMPTS then []
      else Streak(normalize, start, before) + [end]
    case Biometric(_) => []
    case Wipe => []
    case _ => Streak(normalize, start, before)
  }

  /** The stored record against the streak: it counts it, stays below ten, and from the third
      failure on every failure came after the door had been shut for its delay. */
  ghost predicate RecordMatches(s: Session, fails: seq<int>) {
    && s.attempts == |fails| < MAX_ATTEMPTS
    && (s.lockoutUntil == if |fails| < LOCKOUT_THRESHOLD then None else Some(fails[|fails| - 1] + Delay(|fails|)))
    && (forall k :: LOCKOUT_THRESHOLD <= k < |fails| ==> fails[k] >= fails[k - 1] + Delay(k))
  }

  lemma StepKeepsRecord(normalize: string -> string, s: Session, fails: seq<int>, e: Event)
    requires RecordMatches(s, fails) && (e.PinAttempt? ==> e.start <= e.end)
    ensures var s' := Step(normalize, s, e);
            if e.PinAttempt? && s.vault.Some? && !ShutOut(s, e.start) && !e.correct && s.attempts + 1 < MAX_ATTEMPTS
            then RecordMatches(s', fails + [e.end])
            else if (e.PinAttempt? && s.vault.Some? && !ShutOut(s, e.start)) || e.Biometric? || e.Wipe?
            then RecordMatches(s', [])
            else RecordMatches(s', fails)
  {
  }

  lemma {:induction false} RunMatchesRecord(normalize: string -> string, timeoutMs: int, vault: Option<Identity>,
                                            events: seq<Event>)
    requires Sequential(events)
    ensures var start := Initial(timeoutMs, vault);
            RecordMatches(Run(normalize, start, events), Streak(normalize, start, events))
  {
    if events != [] {
      var start := Initial(timeoutMs, vault);
      var before := events[..|events| - 1];
      RunMatchesRecord(normalize, timeoutMs, vault, before);
      StepKeepsRecord(normalize, Run(normalize, start, before), Streak(normalize, start, before), events[|events| - 1]);
    }
  }

  /** 1 + 2 + 4 + 8 + 16 + 30 + 30 seconds of waiting lie between the third failure and the tenth. */
  lemma WaitBeforeTenth(fails: seq<int>, tenth: int)
    requires |fails| == MAX_ATTEMPTS - 1 && tenth >= fails[MAX_ATTEMPTS - 2] + Delay(MAX_ATTEMPTS - 1)
    requires forall k :: LOCKOUT_THRESHOLD <= k < |fails| ==> fails[k] >= fails[k - 1] + Delay(k)
    ensures tenth >= fails[2] + 91000
  {
    assert Delay(3) == 1000 && Delay(4) == 2000 && Delay(5) == 4000;
    assert Power(3) == 8 && Power(4) == 16 && Power(5) == 32 && Power(6) == 64;
    assert Delay(6) == 8000 && Delay(7) == 16000 && Delay(8) == 30000 && Delay(9) == 30000;
    assert fails[3] >= fails[2] + Delay(3) && fails[4] >= fails[3] + Delay(4) && fails[5] >= fails[4] + Delay(5);
    assert fails[6] >= fails[5] + Delay(6) && fails[7] >= fails[6] + Delay(7) && fails[8] >= fails[7] + Delay(8);
  }

  /** In every run, a wrong PIN wipes the vault exactly when it is the tenth failure in a row,
      and that is never less than 91 seconds after the third. */
  lemma TenthFailureWipes(normalize: string -> string, timeoutMs: int, vault: Option<Identity>,
                          events: seq<Event>, attempt: Event)
    requires Sequential(events + [attempt]) && attempt.PinAttempt? && !attempt.correct
    ensures var start := Initial(timeoutMs, vault);
            var s, fails := Run(normalize, start, events), Streak(normalize, start, events);
            var s' := Step(normalize, s, attempt);
            && (AttemptOutcome(s, false, attempt.start, attempt.end).VaultWiped?
                <==> s.vault.Some? && !ShutOut(s, attempt.start) && |fails| == MAX_ATTEMPTS - 1)
            && (AttemptOutcome(s, false, attempt.start, attempt.end).VaultWiped? ==>
                  s'.vault.None? && s'.locked && s'.sk.None? && s'.attempts == 0 && attempt.end >= fails[2] + 91000)
            && (s.vault.Some? && s'.vault.None? ==> AttemptOutcome(s, false, attempt.start, attempt.end).VaultWiped?)
  {
    assert (events + [attempt])[|events|] == attempt;
    assert Sequential(events) by {
      assert forall i :: 0 <= i < |events| ==> (events + [attempt])[i] == events[i];
    }
    RunMatchesRecord(normalize, timeoutMs, vault, events);
    var start := Initial(timeoutMs, vault);
    var fails := Streak(normalize, start, events);
    if AttemptOutcome(Run(normalize, start, events), false, attempt.start, attempt.end).VaultWiped? {
      WaitBeforeTenth(fails, attempt.end);
    }
  }

  lemma {:induction false} StreakIsPast(normalize: string -> string, start: Session, events: seq<Event>, now: int)
    requires Sequential(events)
    requires forall i :: 0 <= i < |events| && events[i].PinAttempt? ==> events[i].end <= now
    ensures forall k :: 0 <= k < |Streak(normalize, start, events)| ==> Streak(normalize, start, events)[k] <= now
  {
    if events != [] {
      StreakIsPast(normalize, start, events[..|events| - 1], now);
    }
  }

  /** A refused attempt changes nothing and is told the rest of the wait in whole seconds, rounded
      up and never more than thirty; it is told less than one exactly when the door has opened
      between the two readings of the clock. */
  lemma ImposedWaitIsShort(normalize: string -> string, timeoutMs: int, vault: Option<Identity>,
                           events: seq<Event>, attempt: Event)
    requires Sequential(events + [attempt]) && attempt.PinAttempt?
    ensures var s := Run(normalize, Initial(timeoutMs, vault), events);
            var outcome := AttemptOutcome(s, attempt.correct, attempt.start, attempt.end);
            outcome.LockedOut? ==>
              && Step(normalize, s, attempt) == s && s.lockoutUntil.Some?
              && var left := s.lockoutUntil.value - attempt.end;
              && outcome.seconds * 1000 - 1000 < left <= outcome.seconds * 1000
              && outcome.seconds <= 30 && (outcome.seconds < 1 <==> left <= 0)
  {
    assert (events + [attempt])[|events|] == attempt;
    assert forall i :: 0 <= i < |events| ==> (events + [attempt])[i] == events[i];
    RunMatchesRecord(normalize, timeoutMs, vault, events);
    StreakIsPast(normalize, Initial(timeoutMs, vault), events, attempt.start);
  }

  class SessionManager {
    const normalize: string -> string
    var sk: Option<string>
    var npub: Option<string>
    var relays: Option<seq<string>>
    var locked: bool
    var pendingBackend: bool
    var timerArmed: bool
    var timeoutMs: int
    var vault: Option<Identity>
    var attempts: nat
    var lockoutUntil: Option<int>
    ghost var emitted: seq<Signal>

    ghost function View(): Session
      reads this
    {
      Session(sk, npub, relays, locked, pendingBackend, timerArmed, timeoutMs, vault, attempts, lockoutUntil, emitted)
    }

    /** A page load: the stored timeout, vault and failure record are found as they were left. */
    constructor (normalize: string -> string, savedMinutes: Option<int>, vault: Option<Identity>)
      ensures this.normalize == normalize && View() == Initial(LoadedTimeout(savedMinutes), vault)
    {
      this.normalize := normalize;
      sk, npub, relays, locked, pendingBackend, timerArmed := None, None, None, true, false, false;
      timeoutMs, this.vault, attempts, lockoutUntil := LoadedTimeout(savedMinutes), vault, 0, None;
      emitted := [];
    }

    method RestartTimer()
      modifies this`timerArmed
      ensures View() == ResetTimer(old(View()))
    {
      timerArmed := false;
      if locked || timeoutMs == 0 {
        return;
      }
      timerArmed := true;
    }

    method OpenWith(identity: Identity, shownAs: string)
      modifies this
      ensures View() == Opening(old(View()), shownAs, identity)
    {
      sk, npub, relays := Some(identity.sk), Some(shownAs), Some(identity.relays);
      locked := false;
      pendingBackend := true;
      RestartTimer();
      emitted := emitted + [Unlocked, Pending];
    }

    method Start(identity: Identity) returns (ok: bool)
      modifies this
      ensures View() == Step(normalize, old(View()), StartSession(identity))
      ensures ok <==> identity.sk != "" && identity.npub != ""
    {
      if identity.sk == "" || identity.npub == "" {
        return false;
      }
      OpenWith(identity, identity.npub);
      return true;
    }

    /** `correct` is whether the PIN decrypts the vault; `start` and `end` are the two readings of the clock. */
    method UnlockWithPin(correct: bool, start: int, end: int) returns (outcome: Outcome)
      modifies this
      ensures View() == Step(normalize, old(View()), PinAttempt(correct, start, end))
      ensures outcome == AttemptOutcome(old(View()), correct, start, end)
    {
      if vault.None? {
        return NoVault;
      }
      if lockoutUntil.Some? && start < lockoutUntil.value {
        return LockedOut((lockoutUntil.value - end + 999) / 1000);
      }
      if correct {
        attempts, lockoutUntil := 0, None;
        OpenWith(vault.value, normalize(vault.value.npub));
        return Opened;
      }
      outcome := RecordFailedAttempt(end);
    }

    method RecordFailedAttempt(now: int) returns (outcome: Outcome)
      modifies this
      ensures View() == RecordFailure(old(View()), now)
      ensures outcome == if old(attempts) + 1 >= MAX_ATTEMPTS then VaultWiped else WrongPin
    {
      var failures := attempts + 1;
      if failures >= MAX_ATTEMPTS {
        WipeAll();
        return VaultWiped;
      }
      attempts := failures;
      lockoutUntil := None;
      if failures >= LOCKOUT_THRESHOLD {
        lockoutUntil := Some(now + Delay(failures));
      }
      return WrongPin;
    }

    method SetBackendActive()
      modifies this
      ensures View() == Step(normalize, old(View()), BackendAnswered)
    {
      if pendingBackend {
        pendingBackend := false;
        emitted := emitted + [Active];
      }
    }

    method LockNow()
      modifies this
      ensures View() == Step(normalize, old(View()), Lock)
    {
      sk, npub, relays := None, None, None;
      locked := true;
      pendingBackend := false;
      timerArmed := false;
      emitted := emitted + [Locked];
    }

    method WipeAll()
      modifies this
      ensures View() == Step(normalize, old(View()), Wipe)
    {
      LockNow();
      vault := None;
      attempts, lockoutUntil := 0, None;
      emitted := emitted + [Wiped];
    }

    method OnTimer()
      modifies this
      ensures View() == Step(normalize, old(View()), TimerFires)
    {
      if timerArmed {
        LockNow();
        emitted := emitted + [AutoLocked];
      }
    }

    method OnActivity()
      modifies this
      ensures View() == Step(normalize, old(View()), Activity)
    {
      if !locked {
        RestartTimer();
      }
    }

    method SetInactivityTimeout(minutes: int)
      modifies this
      ensures View() == Step(normalize, old(View()), SetTimeout(minutes))
    {
      if minutes == 0 {
        timeoutMs := 0;
      } else if minutes > 0 {
        timeoutMs := minutes * 60 * 1000;
      }
      RestartTimer();
    }
  }
}
