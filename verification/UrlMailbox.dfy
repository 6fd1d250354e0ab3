/** The one-slot channel that carries tunnel URLs from the scanners of internal/tunnel/manager.go
    to the rotation loop of cmd/dl_conn/main.go. Scanners and consumer interleave step by step;
    a step is one locked section or one non-blocking channel operation. */
module UrlMailbox {
  const CAPACITY := 1

  /** Where a scanner is in `publishURL`: not in it, before the send, or before the drain after a
      send that found the slot full. `failures` counts the sends that did. */
  datatype Publisher = Idle | Sending(url: string, failures: nat) | Draining(url: string, failures: nat)

  datatype Consumer = Waiting | Verifying(url: string)

  /** `sends` and `received` are history: every URL put in the slot, in order, and the numbers of
      those the consumer took. The channel holds numbers of sends. */
  datatype World = World(latestURL: string, channel: seq<nat>, publishers: seq<Publisher>, consumer: Consumer,
                         advertised: string, sends: seq<string>, received: seq<nat>)

  function Initial(scanners: nat): World {
    World("", [], seq(scanners, _ => Idle), Waiting, "", [], [])
  }

  datatype Event =
    | Scan(p: nat, url: string)
    | TrySend(p: nat)
    | TryDrain(p: nat)
    | Receive
    | Advertise

  predicate Enabled(w: World, e: Event) {
    match e
    case Scan(p, url) => p < |w.publishers| && w.publishers[p].Idle? && url != ""
    case TrySend(p) => p < |w.publishers| && w.publishers[p].Sending?
    case TryDrain(p) => p < |w.publishers| && w.publishers[p].Draining?
    case Receive => w.consumer == Waiting && w.channel != [] && w.channel[0] < |w.sends|
    case Advertise => w.consumer.Verifying?
  }

  /** A scanned line names the URL; a repeated one is not published. */
  function OnScan(w: World, p: nat, url: string): World
    requires p < |w.publishers|
  {
    if url == w.latestURL then w
    else w.(latestURL := url, publishers := w.publishers[p := Sending(url, 0)])
  }

  function OnTrySend(w: World, p: nat): World
    requires p < |w.publishers| && w.publishers[p].Sending?
  {
    var Sending(url, failures) := w.publishers[p];
    if |w.channel| < CAPACITY
    then w.(channel := w.channel + [|w.sends|], sends := w.sends + [url], publishers := w.publishers[p := Idle])
    else w.(publishers := w.publishers[p := Draining(url, failures + 1)])
  }

  function OnTryDrain(w: World, p: nat): World
    requires p < |w.publishers| && w.publishers[p].Draining?
  {
    var Draining(url, failures) := w.publishers[p];
    w.(channel := if w.channel == [] then [] else w.channel[1..],
       publishers := w.publishers[p := Sending(url, failures)])
  }

  function OnReceive(w: World): World
    requires w.channel != [] && w.channel[0] < |w.sends|
  {
    var url := w.sends[w.channel[0]];
    w.(channel := w.channel[1..], received := w.received + [w.channel[0]],
       consumer := if url == "" || url == w.advertised then Waiting else Verifying(url))
  }

  function Step(w: World, e: Event): World {
    if !Enabled(w, e) then w else
    match e
    case Scan(p, url) => OnScan(w, p, url)
    case TrySend(p) => OnTrySend(w, p)
    case TryDrain(p) => OnTryDrain(w, p)
    case Receive => OnReceive(w)
    case Advertise => w.(advertised := w.consumer.url, consumer := Waiting)
  }

  /** What a run makes of `scanners` idle scanners. */
  function Run(scanners: nat, events: seq<Event>): World {
    if events == [] then Initial(scanners)
    else Step(Run(scanners, events[..|events| - 1]), events[|events| - 1])
  }

  predicate ValidRun(scanners: nat, events: seq<Event>) {
    events == [] ||
    (ValidRun(scanners, events[..|events| - 1]) && Enabled(Run(scanners, events[..|events| - 1]), events[|events| - 1]))
  }

  predicate Idles(w: World) {
    forall p :: 0 <= p < |w.publishers| ==> w.publishers[p].Idle?
  }

  /** Everything is at rest: no scanner mid-publish, nothing pending, no URL being verified. */
  predicate Quiescent(w: World) {
    Idles(w) && w.channel == [] && w.consumer == Waiting
  }

  /** The last send has not been lost: it is pending, was the last one received, or a scanner
      is mid-loop and will send again. */
  ghost predicate LastSendSurvives(w: World) {
    w.sends != [] ==>
      || w.channel == [|w.sends| - 1]
      || (w.received != [] && w.received[|w.received| - 1] == |w.sends| - 1)
      || !Idles(w)
  }

  ghost predicate ConsumerFollows(w: World) {
    if w.received == [] then w.consumer == Waiting && w.advertised == "" else
    var r := w.received[|w.received| - 1];
    r < |w.sends| && w.sends[r] == if w.consumer.Verifying? then w.consumer.url else w.advertised
  }

  /** The channel holds the number of a send, newer than all those received, which only grow. */
  ghost predicate InOrder(w: World) {
    && |w.channel| <= CAPACITY
    && (forall i :: 0 <= i < |w.channel| ==> w.channel[i] < |w.sends|)
    && (forall i :: 0 <= i < |w.received| ==> w.received[i] < |w.sends|)
    && (forall i, j :: 0 <= i < j < |w.received| ==> w.received[i] < w.received[j])
    && (forall i :: 0 <= i < |w.received| && w.channel != [] ==> w.received[i] < w.channel[0])
  }

  ghost predicate NoEmptyURLs(w: World) {
    && (forall i :: 0 <= i < |w.sends| ==> w.sends[i] != "")
    && (forall p :: 0 <= p < |w.publishers| && !w.publishers[p].Idle? ==> w.publishers[p].url != "")
  }

  ghost predicate Sound(w: World) {
    InOrder(w) && LastSendSurvives(w) && ConsumerFollows(w) && NoEmptyURLs(w)
  }

  lemma StepKeepsInOrder(w: World, e: Event)
    requires InOrder(w) && Enabled(w, e)
    ensures InOrder(Step(w, e))
  {
  }

  lemma StepKeepsLastSend(w: World, e: Event)
    requires LastSendSurvives(w) && InOrder(w) && Enabled(w, e)
    ensures LastSendSurvives(Step(w, e))
  {
    var w' := Step(w, e);
    match e
    case Scan(p, url) => assert w' == w || !w'.publishers[p].Idle?;
    case TrySend(p) => assert w'.channel == [|w'.sends| - 1] || !w'.publishers[p].Idle?;
    case TryDrain(p) => assert !w'.publishers[p].Idle?;
    case Receive => assert w'.received[|w'.received| - 1] == w.channel[0] && w'.publishers == w.publishers;
    case Advertise => assert w'.publishers == w.publishers;
  }

  lemma StepKeepsConsumer(w: World, e: Event)
    requires ConsumerFollows(w) && NoEmptyURLs(w) && Enabled(w, e)
    ensures ConsumerFollows(Step(w, e)) && NoEmptyURLs(Step(w, e))
  {
  }

  /** Any number of scanners, any interleaving: the slot never holds two URLs, the consumer sees
      a subsequence of the sends, and no send is lost but to a later one. */
  lemma {:induction false} RunIsSound(scanners: nat, events: seq<Event>)
    requires ValidRun(scanners, events)
    ensures Sound(Run(scanners, events)) && |Run(scanners, events).publishers| == scanners
  {
    if events != [] {
      var before := events[..|events| - 1];
      var e := events[|events| - 1];
      RunIsSound(scanners, before);
      StepKeepsInOrder(Run(scanners, before), e);
      StepKeepsLastSend(Run(scanners, before), e);
      StepKeepsConsumer(Run(scanners, before), e);
    }
  }

  /** The last URL sent is pending or was the last received; at rest it is the one advertised. */
  ghost predicate LastSendArrives(w: World) {
    w.sends != [] ==>
      && (Idles(w) ==> w.channel == [|w.sends| - 1]
                       || (w.received != [] && w.received[|w.received| - 1] == |w.sends| - 1))
      && (Quiescent(w) ==> w.advertised == w.sends[|w.sends| - 1])
  }

  lemma SoundLastSendArrives(w: World)
    requires Sound(w)
    ensures LastSendArrives(w)
  {
  }

  /** In every run, whenever no scanner is mid-loop, the last URL sent is on its way or arrived. */
  lemma LastSendIsAdvertised(scanners: nat, events: seq<Event>)
    requires ValidRun(scanners, events)
    ensures LastSendArrives(Run(scanners, events))
  {
    RunIsSound(scanners, events);
    SoundLastSendArrives(Run(scanners, events));
  }

  /** Scanning is serial when a new URL only ever turns up while no scanner is mid-publish. */
  predicate Serial(scanners: nat, events: seq<Event>) {
    events == [] ||
    var before := Run(scanners, events[..|events| - 1]);
    var e := events[|events| - 1];
    Serial(scanners, events[..|events| - 1]) && (e.Scan? && e.url != before.latestURL ==> Idles(before))
  }

  /** The scanner mid-publish, if any, is the only one, and it carries the latest URL; with none
      the latest URL is the last one sent. */
  ghost predicate LatestIsNext(w: World) {
    && (forall p, q :: 0 <= p < q < |w.publishers| ==> w.publishers[p].Idle? || w.publishers[q].Idle?)
    && (forall p :: 0 <= p < |w.publishers| && !w.publishers[p].Idle? ==> w.publishers[p].url == w.latestURL)
    && (Idles(w) ==> w.latestURL == if w.sends == [] then "" else w.sends[|w.sends| - 1])
  }

  /** A serial scanner needs at most two rounds of the publish loop: its second send cannot fail. */
  ghost predicate SecondSendSucceeds(w: World) {
    forall p :: 0 <= p < |w.publishers| ==>
      match w.publishers[p]
      case Idle => true
      case Sending(_, failures) => failures == 0 || (failures == 1 && w.channel == [])
      case Draining(_, failures) => failures == 1
  }

  lemma SerialStep(w: World, e: Event)
    requires Enabled(w, e) && LatestIsNext(w) && SecondSendSucceeds(w) && |w.channel| <= CAPACITY
    requires e.Scan? && e.url != w.latestURL ==> Idles(w)
    ensures LatestIsNext(Step(w, e)) && SecondSendSucceeds(Step(w, e))
  {
    var w' := Step(w, e);
    match e
    case Scan(p, url) => assert w' == w || !w'.publishers[p].Idle?;
    case TrySend(p) =>
      assert |w.channel| < CAPACITY || !w'.publishers[p].Idle?;
    case TryDrain(p) => assert !w'.publishers[p].Idle?;
    case Receive => assert w'.publishers == w.publishers;
    case Advertise => assert w'.publishers == w.publishers;
  }

  /** The URL of the newest scanned line; "" before any. */
  function LastScanned(events: seq<Event>): string {
    if events == [] then ""
    else if events[|events| - 1].Scan? then events[|events| - 1].url
    else LastScanned(events[..|events| - 1])
  }

  /** The URL a `TrySend` puts in the slot; a send that finds the slot full puts none. */
  predicate Fills(w: World, e: Event) {
    e.TrySend? && Enabled(w, e) && |w.channel| < CAPACITY
  }

  /** The URL of the newest step of the run that filled the slot; "" before any. */
  function LastFilling(scanners: nat, events: seq<Event>): string {
    if events == [] then "" else
    var before := Run(scanners, events[..|events| - 1]);
    var e := events[|events| - 1];
    if Fills(before, e) then before.publishers[e.p].url else LastFilling(scanners, events[..|events| - 1])
  }

  lemma {:induction false} LatestIsLastScanned(scanners: nat, events: seq<Event>)
    requires ValidRun(scanners, events)
    ensures Run(scanners, events).latestURL == LastScanned(events)
  {
    if events != [] {
      LatestIsLastScanned(scanners, events[..|events| - 1]);
    }
  }

  lemma FillingIsSent(w: World, e: Event)
    requires Enabled(w, e)
    ensures Step(w, e).sends == if Fills(w, e) then w.sends + [w.publishers[e.p].url] else w.sends
  {
  }

  lemma {:induction false} LastSendIsLastFilling(scanners: nat, events: seq<Event>)
    requires ValidRun(scanners, events)
    ensures var sends := Run(scanners, events).sends;
            LastFilling(scanners, events) == if sends == [] then "" else sends[|sends| - 1]
  {
    if events != [] {
      LastSendIsLastFilling(scanners, events[..|events| - 1]);
      FillingIsSent(Run(scanners, events[..|events| - 1]), events[|events| - 1]);
    }
  }

  lemma HistoryOfScansAndSends(scanners: nat, events: seq<Event>)
    requires ValidRun(scanners, events)
    ensures var w := Run(scanners, events);
            && w.latestURL == LastScanned(events)
            && LastFilling(scanners, events) == if w.sends == [] then "" else w.sends[|w.sends| - 1]
  {
    LatestIsLastScanned(scanners, events);
    LastSendIsLastFilling(scanners, events);
  }

  /** The scanned URLs that were new when they turned up. */
  function NewScans(events: seq<Event>): seq<string> {
    if events == [] then [] else
    var before, e := events[..|events| - 1], events[|events| - 1];
    if e.Scan? && e.url != LastScanned(before) then NewScans(before) + [e.url] else NewScans(before)
  }

  function IsCarried(p: Publisher, url: string): nat {
    if !p.Idle? && p.url == url then 1 else 0
  }

  /** How many scanners are about to send the URL. */
  function Carriers(publishers: seq<Publisher>, url: string): nat {
    if publishers == [] then 0 else IsCarried(publishers[0], url) + Carriers(publishers[1..], url)
  }

  lemma {:induction false} CarriersUpdate(publishers: seq<Publisher>, p: nat, now: Publisher, url: string)
    requires p < |publishers|
    ensures Carriers(publishers[p := now], url)
         == Carriers(publishers, url) - IsCarried(publishers[p], url) + IsCarried(now, url)
  {
    var after := publishers[p := now];
    if p == 0 {
      assert after[1..] == publishers[1..];
    } else {
      CarriersUpdate(publishers[1..], p - 1, now, url);
      assert after[1..] == publishers[1..][p - 1 := now];
    }
  }

  lemma {:induction false} IdleCarriesNothing(publishers: seq<Publisher>, url: string)
    requires forall p :: 0 <= p < |publishers| ==> publishers[p].Idle?
    ensures Carriers(publishers, url) == 0
  {
    if publishers != [] {
      IdleCarriesNothing(publishers[1..], url);
    }
  }

  lemma StepConserves(w: World, e: Event, url: string)
    requires Enabled(w, e)
    ensures multiset(Step(w, e).sends)[url] + Carriers(Step(w, e).publishers, url)
         == multiset(w.sends)[url] + Carriers(w.publishers, url)
              + (if e.Scan? && e.url != w.latestURL && e.url == url then 1 else 0)
  {
    if e.Scan? || e.TrySend? || e.TryDrain? {
      var w' := Step(w, e);
      if w'.publishers != w.publishers {
        CarriersUpdate(w.publishers, e.p, w'.publishers[e.p], url);
      }
    }
  }

  /** Nothing is dropped before it was sent: in every run each URL was sent as often, with those
      still carried by a scanner, as it turned up new. */
  lemma {:induction false} EveryNewURLIsSentOrCarried(scanners: nat, events: seq<Event>, url: string)
    requires ValidRun(scanners, events)
    ensures var w := Run(scanners, events);
            multiset(w.sends)[url] + Carriers(w.publishers, url) == multiset(NewScans(events))[url]
  {
    if events == [] {
      IdleCarriesNothing(Initial(scanners).publishers, url);
    } else {
      var before := events[..|events| - 1];
      EveryNewURLIsSentOrCarried(scanners, before, url);
      HistoryOfScansAndSends(scanners, before);
      StepConserves(Run(scanners, before), events[|events| - 1], url);
    }
  }

  /** With no scanner mid-publish, the URLs sent are the new ones scanned, in some order. */
  lemma SendsAreTheNewScans(scanners: nat, events: seq<Event>)
    requires ValidRun(scanners, events) && Idles(Run(scanners, events))
    ensures multiset(Run(scanners, events).sends) == multiset(NewScans(events))
  {
    var w := Run(scanners, events);
    forall url ensures multiset(w.sends)[url] == multiset(NewScans(events))[url] {
      EveryNewURLIsSentOrCarried(scanners, events, url);
      IdleCarriesNothing(w.publishers, url);
    }
  }

  /** In every run of any number of scanners: what rests advertised is what filled the slot last,
      so it is the newest URL scanned exactly when the last step to fill the slot carried that. */
  lemma RestingAdvertisesLatestIff(scanners: nat, events: seq<Event>)
    requires ValidRun(scanners, events) && Quiescent(Run(scanners, events))
    ensures Run(scanners, events).advertised == LastFilling(scanners, events)
    ensures Run(scanners, events).advertised == Run(scanners, events).latestURL
       <==> LastFilling(scanners, events) == LastScanned(events)
  {
    RunIsSound(scanners, events);
    SoundLastSendArrives(Run(scanners, events));
    HistoryOfScansAndSends(scanners, events);
  }

  lemma {:induction false} SerialRun(scanners: nat, events: seq<Event>)
    requires ValidRun(scanners, events) && Serial(scanners, events)
    ensures LatestIsNext(Run(scanners, events)) && SecondSendSucceeds(Run(scanners, events))
  {
    if events != [] {
      var before := events[..|events| - 1];
      RunIsSound(scanners, before);
      SerialRun(scanners, before);
      SerialStep(Run(scanners, before), events[|events| - 1]);
    }
  }

  /** Serial scanning meets that condition whenever no scanner is mid-publish: publishing takes at
      most two rounds, and at rest the advertised URL is the latest one scanned. */
  lemma SerialScanningAdvertisesLatest(scanners: nat, events: seq<Event>)
    requires ValidRun(scanners, events) && Serial(scanners, events)
    ensures var w := Run(scanners, events);
            && LatestIsNext(w) && SecondSendSucceeds(w)
            && (Idles(w) ==> LastFilling(scanners, events) == LastScanned(events))
            && (Quiescent(w) ==> w.advertised == w.latestURL)
  {
    SerialRun(scanners, events);
    HistoryOfScansAndSends(scanners, events);
    if Quiescent(Run(scanners, events)) {
      RestingAdvertisesLatestIff(scanners, events);
    }
  }

  /** One scanner is always serial: it cannot read the next line while it is publishing. */
  lemma {:induction false} SingleScannerIsSerial(events: seq<Event>)
    requires ValidRun(1, events)
    ensures Serial(1, events)
  {
    if events != [] {
      SingleScannerIsSerial(events[..|events| - 1]);
      RunIsSound(1, events[..|events| - 1]);
    }
  }

  lemma RunOneMore(scanners: nat, events: seq<Event>, e: Event)
    requires ValidRun(scanners, events) && Enabled(Run(scanners, events), e)
    ensures ValidRun(scanners, events + [e]) && Run(scanners, events + [e]) == Step(Run(scanners, events), e)
  {
    assert (events + [e])[..|events + [e]| - 1] == events;
  }

  /** Two scanners, as the manager runs for stdout and stderr, can publish out of scanning order:
      everything comes to rest with a URL advertised that is not the latest. */
  lemma OverlappingScansCanAdvertiseStale() returns (events: seq<Event>)
    ensures ValidRun(2, events) && Quiescent(Run(2, events))
    ensures Run(2, events).advertised == "a" && Run(2, events).latestURL == "b"
  {
    var scanned := World("b", [], [Sending("a", 0), Sending("b", 0)], Waiting, "", [], []);
    events := TwoScans(scanned);
    events := Overtake(events, scanned);
    RunOneMore(2, events, Receive);
    events := events + [Receive];
    RunOneMore(2, events, Advertise);
    events := events + [Advertise];
  }

  lemma TwoScans(w: World) returns (events: seq<Event>)
    requires w == World("b", [], [Sending("a", 0), Sending("b", 0)], Waiting, "", [], [])
    ensures ValidRun(2, events) && Run(2, events) == w
  {
    var w0 := World("", [], [Idle, Idle], Waiting, "", [], []);
    var w1 := World("a", [], [Sending("a", 0), Idle], Waiting, "", [], []);
    assert Run(2, []) == w0 by {
      assert Initial(2).publishers == [Idle, Idle];
    }
    assert Step(w0, Scan(0, "a")) == w1 by {
      assert w0.publishers[0 := Sending("a", 0)] == w1.publishers;
    }
    assert Step(w1, Scan(1, "b")) == w by {
      assert w1.publishers[1 := Sending("b", 0)] == w.publishers;
    }
    RunOneMore(2, [], Scan(0, "a"));
    RunOneMore(2, [] + [Scan(0, "a")], Scan(1, "b"));
    events := [] + [Scan(0, "a")] + [Scan(1, "b")];
  }

  lemma Overtake(start: seq<Event>, w: World) returns (events: seq<Event>)
    requires w == World("b", [], [Sending("a", 0), Sending("b", 0)], Waiting, "", [], [])
    requires ValidRun(2, start) && Run(2, start) == w
    ensures ValidRun(2, events)
    ensures Run(2, events) == World("b", [1], [Idle, Idle], Waiting, "", ["b", "a"], [])
  {
    var w1 := World("b", [0], [Sending("a", 0), Idle], Waiting, "", ["b"], []);
    var w2 := World("b", [0], [Draining("a", 1), Idle], Waiting, "", ["b"], []);
    var w3 := World("b", [], [Sending("a", 1), Idle], Waiting, "", ["b"], []);
    var w4 := World("b", [1], [Idle, Idle], Waiting, "", ["b", "a"], []);
    OvertakeSteps(w, w1, w2, w3, w4);
    RunOneMore(2, start, TrySend(1));
    events := start + [TrySend(1)];
    RunOneMore(2, events, TrySend(0));
    events := events + [TrySend(0)];
    RunOneMore(2, events, TryDrain(0));
    events := events + [TryDrain(0)];
    RunOneMore(2, events, TrySend(0));
    events := events + [TrySend(0)];
  }

  lemma OvertakeSteps(w: World, w1: World, w2: World, w3: World, w4: World)
    requires w == World("b", [], [Sending("a", 0), Sending("b", 0)], Waiting, "", [], [])
    requires w1 == World("b", [0], [Sending("a", 0), Idle], Waiting, "", ["b"], [])
    requires w2 == World("b", [0], [Draining("a", 1), Idle], Waiting, "", ["b"], [])
    requires w3 == World("b", [], [Sending("a", 1), Idle], Waiting, "", ["b"], [])
    requires w4 == World("b", [1], [Idle, Idle], Waiting, "", ["b", "a"], [])
    ensures Step(w, TrySend(1)) == w1 && Step(w1, TrySend(0)) == w2
    ensures Step(w2, TryDrain(0)) == w3 && Step(w3, TrySend(0)) == w4
  {
    assert w.publishers[1 := Idle] == w1.publishers;
    assert w1.publishers[0 := Draining("a", 1)] == w2.publishers;
    assert w2.publishers[0 := Sending("a", 1)] == w3.publishers;
    assert w3.publishers[0 := Idle] == w4.publishers;
  }

  /** The manager with a single scanner. `sent` and `taken` record what went through the slot. */
  class Manager {
    var latestURL: string
    var notifyURL: seq<string>
    ghost var sent: seq<string>
    ghost var taken: seq<string>

    /** Nothing sent is in two places, and the last send is pending or the last one taken. */
    ghost predicate Valid()
      reads this
    {
      && |notifyURL| <= CAPACITY
      && (sent == [] ==> notifyURL == [] && taken == [])
      && (sent != [] ==> latestURL == sent[|sent| - 1])
      && (sent != [] ==> if notifyURL == [] then taken != [] && taken[|taken| - 1] == latestURL
                         else notifyURL == [latestURL])
    }

    constructor ()
      ensures Valid() && latestURL == "" && notifyURL == [] && sent == [] && taken == []
    {
      latestURL, notifyURL := "", [];
      sent, taken := [], [];
    }

    /** The consumer, which may run at any moment: it empties the slot or it does not. */
    method ConsumerMayRun()
      modifies this`notifyURL, this`taken
      ensures (notifyURL == old(notifyURL) && taken == old(taken))
           || (old(notifyURL) != [] && notifyURL == old(notifyURL)[1..] && taken == old(taken) + [old(notifyURL)[0]])
    {
      if * {
        if notifyURL != [] {
          taken := taken + [notifyURL[0]];
          notifyURL := notifyURL[1..];
        }
      }
    }

    /** Never blocks, and returns within two rounds whatever the consumer does. */
    method PublishURL(url: string) returns (rounds: nat)
      requires |notifyURL| <= CAPACITY
      modifies this`notifyURL, this`sent, this`taken
      ensures rounds <= 2
      ensures notifyURL == [url] && sent == old(sent) + [url]
      ensures taken == old(taken) || (old(notifyURL) != [] && taken == old(taken) + [old(notifyURL)[0]])
    {
      rounds := 0;
      while true
        invariant rounds <= 1 && |notifyURL| <= CAPACITY && (rounds == 1 ==> notifyURL == [])
        invariant sent == old(sent)
        invariant (notifyURL == old(notifyURL) && taken == old(taken))
                  || (old(notifyURL) != [] && notifyURL == []
                      && (taken == old(taken) || taken == old(taken) + [old(notifyURL)[0]]))
        decreases 2 - rounds
      {
        rounds := rounds + 1;
        if |notifyURL| < CAPACITY {
          notifyURL := notifyURL + [url];
          sent := sent + [url];
          return;
        }
        ConsumerMayRun();
        if notifyURL != [] {
          notifyURL := notifyURL[1..];
        }
        ConsumerMayRun();
      }
    }

    /** One matched line of cloudflared's output. */
    method OnMatch(url: string)
      requires Valid() && url != ""
      modifies this
      ensures Valid() && latestURL == url
      ensures sent == if url == old(latestURL) then old(sent) else old(sent) + [url]
    {
      var previous := latestURL;
      latestURL := url;
      if url == previous {
        return;
      }
      var rounds := PublishURL(url);
    }
  }
}
