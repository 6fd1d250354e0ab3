# dl_conn: a verified model of its histories, credentials and small protocols

dl_conn exposes services of a host through an ephemeral tunnel. A daemon (Go) keeps telemetry
and event histories, issues tokens, sessions and step-up proofs, limits request rates, follows
the rotating tunnel URL and rewrites proxied pages. A single-page app (JavaScript) discovers the
host, draws the histories, keeps an encrypted identity behind a PIN and manages custom services.
This project models the parts of both whose promises span many calls or both programs, and
proves those promises for all inputs and all runs.

`dafny verify dfyconfig.toml` checks everything.

| file | what it models |
|---|---|
| `Bucketing.dfy`, `HistoryStore.dfy` | the bucketed queries and the three tables of `internal/store` |
| `ServiceHealth.dfy`, `HostHistory.dfy`, `OutageVisibility.dfy` | an outage from the recorded row to the drawn cell |
| `IncarnationLog.dfy`, `IncarnationRange.dfy` | the log of tunnel lifetimes, its pruning and its range query |
| `RateLimiter.dfy`, `RateRecord.dfy`, `TokenManager.dfy`, `Sessions.dfy`, `StepUp.dfy` | credential state machines and their janitors |
| `HistoryPanel.dfy`, `Discovery.dfy`, `Downsample.dfy` | the app's request coordinators and chart reduction |
| `UrlMailbox.dfy` | the one-slot channel between tunnel scanners and the rotation loop |
| `VaultSession.dfy` | the vault session and its brute-force lock |
| `FreeNames.dfy`, `CustomServices.dfy`, `SlugWords.dfy`, `NixString.dfy` | identifiers of custom services and Nix quoting |
| `AssetPaths.dfy` | rewriting asset references under a mount prefix |
| `Text.dfy`, `Wrappers.dfy` | shared string operations and the option type |

Where the source changes state, a class has the source's fields and its methods are proved
against a function of the old state; the lemmas about runs are about that function. A run is a
sequence of events, so "over every run" is a statement about every such sequence.

Assumptions: clocks do not step back; random tokens and session ids do not repeat; the keyed hash
of step-up proofs is injective; fractions that JavaScript computes in floating point are exact,
as are token counts of the rate limiter.

## What turned out to have a condition

- Eviction by the rate limiter's janitor is invisible, and admissions stay within burst plus rate
  times length, exactly when an idle bucket refills before it may be evicted
  (`RateLimiter.EvictionIsInvisibleIff`, `RateLimiter.AdmissionsAreBoundedIff`); then every answer
  follows from the admissions before it (`RateRecord.AnswersMatchRecordIff`). Otherwise one run
  shows each failure.
- The text of `internal/auth/tokens.go` promises a precise reason for a refused token. The yes or
  no never depends on the janitor, the reason does: exactly when the token was swept after its time
  and nobody had asked for it in between (`TokenManager.JanitorShowsIff`). When each reason is given
  is `TokenManager.ReasonIff`.
- The history panel keeps its promise over a run exactly when no step strands it
  (`HistoryPanel.RunIsHonestIff`). All stranding steps happen while polling is off: leaving the
  window of an unparked request or of the series shown, and an answer to an abandoned window while
  another is shown.
- The advertised URL is the last one sent, always; at rest it is the last one scanned exactly when
  the last step to fill the slot carried that (`UrlMailbox.RestingAdvertisesLatestIff`), as serial
  scanning does. The manager runs two scanners (stdout and stderr), and overlapping scans can leave
  an older URL advertised (`UrlMailbox.OverlappingScansCanAdvertiseStale`).
- "The host did not respond" is said about an answered request exactly when a publish is confirmed
  after a reconnect has forgotten its answer and the timer fires on that clock
  (`Discovery.FalseAlarmIff`); never about a request of the current connection.
- The query for tunnel lifetimes leaves the order of rows of one second open. Drawn bars never
  cross exactly when no row with a width shares its second with the row before it
  (`HostHistory.BarsNeverCrossIff`), for instance when starts increase strictly.
- The eight replacements of asset paths are one pass exactly when the prefix does not lead into
  the locales (`AssetPaths.PassesAreOneSwapIff`), are idempotent exactly when it leads into neither
  family (`AssetPaths.IdempotentIffMountable`), and can be undone exactly for bodies that did not
  already hold a rewritten reference (`AssetPaths.UnmountRestoresIff`).

## Model

| member | source | states |
|---|---|---|
| Bucketing.BucketWidth | internal/store/telemetry.go:77-85 | the width is at least a second, `maxPoints` of them cover every offset of the window, and no smaller width would |
| Bucketing.BucketCountIsCapped | internal/store/telemetry.go:63-76 | the point cap is a hard ceiling on the number of bucket numbers, for every window and cap |
| Bucketing.InBucketMembers | internal/store/telemetry.go:162-168 | a group of the query holds exactly the window's rows of its bucket number |
| Bucketing.Newest | internal/store/telemetry.go:148-150 | the row standing for a group is one of its rows and none of them is newer |
| Bucketing.RangeIsBoundedAndOrdered | internal/store/telemetry.go:133-169 | a bucketed range has at most `maxPoints` rows, all from the window, strictly increasing in time |
| Bucketing.EveryRowIsRepresentedOnce | internal/store/telemetry.go:144-150 | every row of the window shares its bucket with exactly one returned row, which is no older |
| Bucketing.NewestOfWindowIsReturned | internal/store/telemetry.go:135-136 | the answer always ends on the newest instant of the window |
| HistoryStore.Since | internal/store/history.go:245-250 | retention keeps exactly the rows from the cutoff on |
| HistoryStore.Store.Insert | internal/store/telemetry.go:88-95 | a snapshot is appended and nothing else changes |
| HistoryStore.Store.RecordServiceHealth | internal/store/history.go:61-84 | a round adds exactly one row for each service, all at one instant, whatever order the map is walked in |
| HistoryStore.Store.RangeServiceHealth | internal/store/history.go:95-137 | a service is in the answer exactly when it has a probe in the window, and then with exactly its own series |
| HistoryStore.Store.RangeBucketed | internal/store/telemetry.go:153-169 | the snapshots returned are the newest of each nonempty bucket, in order, at most `maxPoints` |
| HistoryStore.Store.RecordTunnelIncarnation | internal/store/history.go:161-182 | open rows are closed at the new start and one open row is added; an orderly log stays orderly |
| HistoryStore.Store.CloseOpenTunnelIncarnation | internal/store/history.go:187-190 | every open row ends at the given instant with its start and URL kept, every ended row is untouched; in an orderly log only the newest row can change and the log stays orderly |
| HistoryStore.Store.RangeTunnelIncarnations | internal/store/history.go:201-239 | an answer the query's two orderings allow: every tunnel up at an instant of the window is in it or it is full of later ones; over an orderly log, as many rows of the one overlapping run as its newest `maxPoints`, at their instants, and those very rows when no two start in one second |
| HistoryStore.Store.Prune | internal/store/telemetry.go:206-212 | each table keeps exactly its rows from its cutoff on (the clock is read twice), an open lifetime always, and an orderly log stays orderly |
| ServiceHealth.StatusFromRank | internal/store/history.go:140-149 | inverts the severity rank of the query |
| ServiceHealth.Worst | internal/store/history.go:107 | the worst status of a bucket is one of its statuses and none is worse |
| ServiceHealth.ScanSeparatesServices | internal/store/history.go:119-132 | filing the query's rows by service gives each service exactly its own series |
| ServiceHealth.HasSeriesIff | internal/store/history.go:90-94 | a service has a series exactly when it has a probe in the window |
| ServiceHealth.SeriesIsBoundedAndOrdered | internal/store/history.go:86-89 | at most `maxPoints` points a service, strictly increasing, each at a recorded probe of that service in the window |
| ServiceHealth.OutageMakesADownPoint | internal/store/history.go:26-31 | an outage anywhere in a bucket makes that bucket's point down, no earlier and less than a bucket later |
| ServiceHealth.DownPointHasAnOutage | internal/store/history.go:37-39 | a down point has a recorded outage in its own bucket, no newer than the point |
| ServiceHealth.PointStatusIff | internal/store/history.go:26-31 | a point is down when some probe of its bucket was, unknown when none was down but some unknown, up when all were neither |
| HostHistory.CellOfIff | web/js/host_history.js:57-58 | an instant of the window is given the number of the one cell whose equal part of the window holds it, the last cell holding the right edge too |
| HostHistory.AvailabilityStrip | web/js/host_history.js:39-65 | each cell shows the worst status of the points in its part of the window, unknown when there is none, for every series, window and slot count |
| HostHistory.CellMeaning | web/js/host_history.js:25-27 | a cell is down exactly when a down point falls in it, up only when only healthy points do and one does |
| HostHistory.AvailabilitySummary | web/js/host_history.js:81-91 | counts per state; the percentage is the share of up among known cells, none without a known cell, 100 exactly without a down cell, 0 exactly without an up one |
| HostHistory.ShareOfKnown | web/js/host_history.js:67-79 | up over known times a hundred is that share, within 0 and 100, 100 only if all known cells are up |
| HostHistory.Fraction | web/js/host_history.js:120 | a fraction of the window, exact inside it, 0 before it and 1 after it |
| HostHistory.AnswerIsDrawn | web/js/host_history.js:110-126 | in every answer the query may give, each lifetime is drawn, left edges are ordered, and at most one is current, of those that start last, reaching the right edge |
| HostHistory.BarCoversLifetime | web/js/host_history.js:110-126 | a lifetime has a bar exactly when the tunnel was up at some instant of the window, and the bar covers exactly those instants |
| HostHistory.BarsNeverCrossIff | web/js/host_history.js:110-126 | the bars are one left of the other in every answer the query may give, if and only if no row with a width among the newest of the run shares its start second with the row before it |
| HostHistory.SameSecondCanCross | internal/store/history.go:215-221 | a log of two rotations in one second and an answer of it whose bars are not in order |
| OutageVisibility.MaxShift | web/app.js:1830 | with as many points as cells the two layers of buckets shift an instant by at most one cell |
| OutageVisibility.BucketSpansFewCells | web/js/host_history.js:58 | an instant and the newest reading of its bucket lie at most `MaxShift` cells apart |
| OutageVisibility.OutageIsVisible | internal/store/history.go:26-31 | a recorded outage makes a down cell, the one whose part of the window holds it or at most `MaxShift` later (the next one when there are as many points as cells), for any window, cap and slot count |
| OutageVisibility.DownCellIsAnOutage | web/js/host_history.js:13-16 | every down cell comes from a recorded outage of that service in its own part of the window or at most `MaxShift` cells earlier |
| OutageVisibility.NoDownCellIffNoOutage | web/js/host_history.js:18-38 | the strip has a down cell exactly when an outage was recorded in the window |
| OutageVisibility.UpCellHasAProbe | web/js/host_history.js:29-31 | silence is never drawn as health: an up cell's part of the window holds a recorded probe |
| OutageVisibility.AvailabilityPercent | web/app.js:1932-1964 | 100% means no outage row in the window, and any outage row keeps the figure below 100 |
| IncarnationLog.StepKeepsOrder | internal/store/history.go:151-190 | recording, closing and pruning keep lifetimes ordered with at most the newest open |
| IncarnationLog.RunIsWellOrdered | internal/store/history.go:157-160 | over every run, restarts included, at most one row is open, it is the newest, and each row ends by the next start |
| IncarnationLog.PruneIsSuffix | internal/store/history.go:241-255 | in an ordered log pruning removes exactly the ended rows that started before the cutoff, they are the front of the log, and the open row stays |
| IncarnationLog.PruneKeeps | internal/store/history.go:245-250 | of any table exactly the ended rows that started before the cutoff go |
| IncarnationLog.FullRunIsHistory | internal/store/history.go:151-190 | over every run the unpruned log is one row for every start, with its URL, ended by the next start or stop |
| IncarnationLog.PrunedRunIsSuffixOfFullRun | internal/store/history.go:241-244 | the pruned log of any run is a suffix of the log that run would keep without pruning |
| IncarnationRange.OverlapsIff | internal/store/history.go:192-196 | the rows a window asks for are those of tunnels up at some instant of it |
| IncarnationRange.AliveIsShown | internal/store/history.go:198-215 | every tunnel up at an instant of the window is in the answer, unless that already holds `maxPoints` that started no earlier |
| IncarnationRange.ShownWasAlive | internal/store/history.go:215-221 | every row of an answer is a row of the table whose tunnel was up at some instant of the window |
| IncarnationRange.OverlapIsARun | internal/store/history.go:192-196 | in an ordered log the rows overlapping a window are consecutive |
| IncarnationRange.AnswerIsNewestOfRun | internal/store/history.go:198-215 | whatever order rows of one second come in, an answer shows rows of that run, unaltered, none twice, `maxPoints` of them or all, oldest first, at the instants of the newest of the run |
| IncarnationRange.AnswerIsNewest | internal/store/history.go:198-221 | the same seen from the answer, which is exactly the newest rows of the run in table order when no two of the run start in one second |
| IncarnationRange.RangeQueryIsAnAnswer | internal/store/history.go:215-221 | keeping rows of one second in table order is one of the answers allowed, for any table |
| RateLimiter.WithDefaults | internal/auth/ratelimit.go:33-49 | usable values are kept; a missing rate, burst or idle time becomes 10, 20 or five minutes |
| RateLimiter.EvictedIsFull | internal/auth/ratelimit.go:66-78 | a bucket idle long enough to be evicted has refilled |
| RateLimiter.EvictionIsInvisibleFrom | internal/auth/ratelimit.go:52-78 | from related states the evicting limiter and the one that never forgets answer every run alike |
| RateLimiter.VolleyDrains | internal/auth/ratelimit.go:51-64 | requests at one instant are all admitted exactly when the bucket holds that many tokens |
| RateLimiter.EarlyEvictionShows | internal/auth/ratelimit.go:66-78 | a concrete run the janitor changes when buckets are evicted before they refill |
| RateLimiter.EvictionIsInvisibleIff | internal/auth/ratelimit.go:21-25 | for all runs over all keys and any sweeps the answers equal the ideal ones, if and only if idle buckets refill in time |
| RateLimiter.AdmissionsAreBounded | internal/auth/ratelimit.go:12-16 | when idle buckets refill before eviction: from any sane state a key is admitted at most as often as it has tokens plus those it earns |
| RateLimiter.IntervalAdmissionsAreBounded | internal/auth/ratelimit.go:12-16 | when idle buckets refill before eviction: in any interval of any run a key is admitted at most burst plus rate times length |
| RateLimiter.EarlyEvictionExceedsBound | internal/auth/ratelimit.go:66-78 | when they do not, a concrete run admits more than that |
| RateLimiter.AdmissionsAreBoundedIff | internal/auth/ratelimit.go:12-25 | the bound holds for every interval of every run and every key, if and only if idle buckets refill before eviction |
| RateRecord.PatienceIsAdmitted | internal/auth/ratelimit.go:12-16 | from any sane state a key left alone for as long as one token takes is admitted |
| RateRecord.LevelIsTightest | internal/auth/ratelimit.go:52-64 | over every run the tokens of a key are what the tightest stretch of its admissions leaves, at most the burst |
| RateRecord.AnswersMatchRecord | internal/auth/ratelimit.go:52-78 | over every run with any sweeps a request is refused if and only if some stretch ending with it holds admissions of the key that, plus one, exceed burst plus rate times its length |
| RateRecord.AnswersMatchRecordIff | internal/auth/ratelimit.go:21-25 | that holds for every run if and only if idle buckets refill before eviction |
| RateLimiter.RateLimiter.constructor | internal/auth/ratelimit.go:33-49 | starts with no buckets and the defaults applied |
| RateLimiter.RateLimiter.Allow | internal/auth/ratelimit.go:52-64 | one step of the modelled limiter, state and answer; which answer that is over a run is `RateRecord.AnswersMatchRecord` |
| RateLimiter.RateLimiter.Cleanup | internal/auth/ratelimit.go:69-78 | keeps exactly the buckets seen since the cutoff |
| TokenManager.AnswersMatchRecord | internal/auth/tokens.go:63-107 | in every run every Consume and Validate answers as a record that never forgets: once, and while live |
| TokenManager.RedeemedAtMostOnce | internal/auth/tokens.go:56-61 | two accepted redemptions of a token are the same one, within the TTL of its issue |
| TokenManager.JanitorIsUnobservable | internal/auth/tokens.go:109-119 | adding, removing or moving sweeps changes no answer of any run |
| TokenManager.HeldIff | internal/auth/tokens.go:63-119 | over every run a token is in the map exactly when it was issued and nothing has found it past its time since: no sweep, no read, no redemption attempt while unredeemed |
| TokenManager.ReasonIff | internal/auth/tokens.go:45-54 | for every redemption attempt of every run, exactly when each of the four outcomes is given; a live token is never called unknown |
| TokenManager.SameReasonIff | internal/auth/tokens.go:63-66 | two runs that differ in their sweeps give the same reason exactly when the token was never issued, was asked for after its time, or was swept late in both or neither |
| TokenManager.JanitorShowsIff | internal/auth/tokens.go:63-66 | against the run without sweeps a reason differs exactly when the token was swept after its time with no request for it in between, and is then "unknown" |
| TokenManager.ReasonShowsJanitor | internal/auth/tokens.go:63-66 | a run in which a sweep turns "expired" into "unknown" |
| TokenManager.TokenManager.Issue | internal/auth/tokens.go:31-43 | a fresh token is stored unused with its instant |
| TokenManager.TokenManager.ConsumeWithReason | internal/auth/tokens.go:66-86 | one Consume step: new map, answer and reason |
| TokenManager.TokenManager.Validate | internal/auth/tokens.go:91-107 | one Validate step: new map and answer |
| TokenManager.TokenManager.Cleanup | internal/auth/tokens.go:110-119 | keeps exactly the unexpired tokens |
| Sessions.SameClientIsAnEquivalence | internal/auth/session.go:131-154 | client identity is reflexive, symmetric and transitive, whatever the address parser |
| Sessions.SameClientIff | internal/auth/session.go:131-154 | two texts are one client exactly when they are equal or both stand for addresses that are not IPv4 and agree in their first 64 bits |
| Sessions.AcceptedComesFromClient | internal/auth/session.go:84-117 | an accepted request comes from the text the session was created for or from its /64 network |
| Sessions.AnswersMatchLog | internal/auth/session.go:84-117 | a request is accepted exactly when its session was created, not invalidated, the client is the same and the last success or creation is within the TTL |
| Sessions.EndedSessionStaysEnded | internal/auth/session.go:119-129 | an invalidated or timed-out session is never accepted again |
| Sessions.JanitorIsUnobservable | internal/auth/session.go:235-253 | adding, removing or moving sweeps changes no answer of any run |
| Sessions.SessionManager.CreateSession | internal/auth/session.go:67-82 | one Create step |
| Sessions.SessionManager.ValidateSession | internal/auth/session.go:88-117 | one Check step: new map and answer |
| Sessions.SessionManager.Invalidate | internal/auth/session.go:122-129 | one Invalidate step; an empty id changes nothing |
| Sessions.SessionManager.Cleanup | internal/auth/session.go:244-253 | keeps exactly the sessions within the TTL |
| StepUp.MessageIsInjective | internal/auth/stepup.go:69-77 | no two pairs of slot and session id give the same hashed text, for any session id |
| StepUp.Verify | internal/auth/stepup.go:85-96 | accepts exactly the proofs of the current and the previous slot for a nonempty session |
| StepUp.ProofIsAcceptedIff | internal/auth/stepup.go:61-96 | a proof is accepted exactly for its own session, in its slot or the next one |
| StepUp.ProofWindow | internal/auth/stepup.go:14-19 | a proof always works for one window and never from two windows on |
| StepUp.SlotHolds | internal/auth/stepup.go:65-68 | slots are the successive windows since the epoch |
| StepUp.CacheTimes | web/js/api_client.js:265-268 | a proof is handed out for the server's window less thirty seconds, or less than the default when it names none |
| StepUp.CachedProofIsAccepted | web/js/api_client.js:254-274 | a proof still handed out by the browser is accepted when both journeys together take at most the margin |
| StepUp.ProofCache.GetStepUpHeader | web/js/api_client.js:229-236 | hands the proof out before its expiry and drops it from then on |
| StepUp.ProofCache.ClearStepUp | web/js/api_client.js:239-242 | forgets value and expiry |
| StepUp.ProofCache.Remember | web/js/api_client.js:263-268 | keeps a nonempty proof until the margin before its TTL |
| HistoryPanel.StepKeepsHonestIff | web/app.js:1640-1700 | every click, reload, poll and answer, polling allowed or not, keeps one request at a time, a parked reload for an abandoned window, nothing parked when idle, and the shown series on the selected window, exactly when it is not one of three stranding steps |
| HistoryPanel.RunIsHonestIff | web/app.js:1625-1700 | over every run the promise holds throughout, if and only if no step strands the panel |
| HistoryPanel.LastingPollingIsHonest | web/app.js:1640-1643 | the case of polling that, once allowed, stays allowed: nothing strands and the promise holds throughout |
| HistoryPanel.StoppedPollingIsNotHonest | web/app.js:1641-1643 | in both panels, a run in which a click without polling leaves the wrong window shown |
| HistoryPanel.StepAsksIff | web/app.js:1640-1660 | exactly when a click, reload, poll or answer sends a request, and that it asks for the selected window up to its own second |
| HistoryPanel.ShownByAnswer | web/app.js:1661-1700 | the answer for the selected window shows its series or its error, one for an abandoned window changes nothing shown |
| HistoryPanel.AnswersSettle | web/app.js:1690-1699 | from any honest state the due answers settle the panel, whatever polls come in between, with an error exactly when the last of them failed |
| HistoryPanel.LastClickSettlesWithinTwoAnswers | web/app.js:1757-1776 | after the last click the second answer at the latest settles the clicked window: its series when that answer brought one, its error exactly when it did not |
| HistoryPanel.Coordinator.FetchHistory | web/app.js:1640-1660 | one forced or unforced fetch up to its await |
| HistoryPanel.Coordinator.OnAnswer | web/app.js:1661-1700 | one answer or failure, `finally` and the parked reload included |
| HistoryPanel.Coordinator.OnWindowClick | web/app.js:1762-1767 | one click on a window button |
| Discovery.StepKeepsSound | web/app.js:2996-3064 | every step keeps replies in date order, the clock running only while awaiting, and every complaint about the current connection true |
| Discovery.RunIsSound | web/app.js:347-366 | the same over every run with reconnects and any order of confirmations and replies |
| Discovery.RunAgreesWithRecord | web/app.js:2996-3064 | over every run the request numbers, the answered request, the newest date, the clock and the messages are those told from the events alone |
| Discovery.ClockIsFalseIff | web/app.js:3589-3611 | the clock comes to stand for an answered request exactly when a publish is confirmed whose answer a reconnect has forgotten, or it already did and the step leaves it alone |
| Discovery.FalseAlarmIff | web/app.js:3024-3044 | over every run, reconnects included: the messages are those of the record, and one is about a request answered on it if and only if a forgotten request is confirmed and the timer fires before anything touches its clock |
| Discovery.NoFalseAlarmWithoutReconnect | web/app.js:3024-3044 | the case without a reconnect, in which no answer is forgotten: no such message |
| Discovery.LatePublishAcrossReconnectIsAFalseAlarm | web/app.js:3503-3513 | a run across a reconnect in which it is |
| Discovery.DiscoveryClient.BeginRequest | web/app.js:3589-3598 | numbers a request |
| Discovery.DiscoveryClient.FinishRequest | web/app.js:3599-3611 | an answered, timed-out or rejected publish starts no clock, any other does |
| Discovery.DiscoveryClient.OnDiscoveryResponse | web/app.js:3050-3064 | a reply older than the newest applied is dropped, any other answers every request sent |
| Discovery.DiscoveryClient.OnTimeout | web/app.js:3032-3043 | tells the user exactly when an answer was still awaited |
| Discovery.DiscoveryClient.ResetForReconnect | web/app.js:3503-3513 | forgets the answers of the old connection |
| Downsample.EdgesIncrease | web/app.js:1326-1327 | with more points than buckets no bucket is empty |
| Downsample.EdgeIsFloor | web/app.js:1326-1327 | a bucket begins at the whole part of the share of points before it |
| Downsample.BucketsPartition | web/app.js:1321-1335 | the buckets one after the other are the series, so every point is averaged exactly once, and no two bucket sizes differ by more than one |
| Downsample.DownsampleTo | web/app.js:1321-1335 | exactly `maxPoints` points, each with the first instant and snapshot of its bucket and the bucket's mean |
| Downsample.WeightedSumIsSum | web/app.js:1330-1332 | the averages weighted by bucket size add up to the series |
| Downsample.AverageIsWithinBucket | web/app.js:1328-1332 | an average lies between any bounds of its bucket |
| Downsample.OutputKeepsOrder | web/app.js:1316-1320 | output points are instants and snapshots of the series, in its order |
| UrlMailbox.StepKeepsInOrder | internal/tunnel/manager.go:291-307 | the slot never holds two URLs and what is received is a growing subsequence of the sends |
| UrlMailbox.StepKeepsLastSend | internal/tunnel/manager.go:293-294 | the last send is never lost except to a scanner that will send again |
| UrlMailbox.RunIsSound | internal/tunnel/manager.go:232-307 | both over every interleaving of any number of scanners with the consumer |
| UrlMailbox.LastSendIsAdvertised | cmd/dl_conn/main.go:295-313 | whenever no scanner is mid-loop the last URL sent is pending or received, and at rest it is advertised |
| UrlMailbox.SendsAreTheNewScans | internal/tunnel/manager.go:232-307 | over every run, with no scanner mid-publish the URLs sent are the new ones scanned, each as often |
| UrlMailbox.RestingAdvertisesLatestIff | internal/tunnel/manager.go:227-258 | over every run of any scanners, overlapping or not: what rests advertised is what filled the slot last, so it is the latest URL scanned if and only if the last step to fill the slot carried that |
| UrlMailbox.SerialScanningAdvertisesLatest | internal/tunnel/manager.go:227-258 | the case of serial scanning, which meets that condition: two publish rounds suffice and at rest the advertised URL is the latest scanned |
| UrlMailbox.SingleScannerIsSerial | internal/tunnel/manager.go:232-259 | one scanner is always serial |
| UrlMailbox.OverlappingScansCanAdvertiseStale | internal/tunnel/manager.go:219-220 | a run of two scanners that rests with an older URL advertised |
| UrlMailbox.Manager.PublishURL | internal/tunnel/manager.go:295-307 | leaves the URL pending within two rounds, whatever the consumer does |
| UrlMailbox.Manager.OnMatch | internal/tunnel/manager.go:240-258 | a new URL becomes the latest and is sent once, a repeated one is not sent |
| VaultSession.StepKeepsConsistent | web/js/session_manager.js:180-415 | every operation keeps a locked session empty and timerless, an open one keyed with its timer armed unless disabled, and every "active" backed by an "unlocked" |
| VaultSession.RunIsConsistent | web/js/session_manager.js:33-48 | the same over every run, page reloads included |
| VaultSession.RunHoldsWhoOpened | web/js/session_manager.js:180-230 | over every run a session is open exactly while an identity has opened it, with that identity's key, name and relays; a PIN opens the identity last saved |
| VaultSession.TimeoutSurvivesReload | web/js/session_manager.js:51-79 | a timeout that was set is the one the next page loads |
| VaultSession.DelayDoubles | web/js/session_manager.js:470-473 | the delay is one second at the third failure and doubles up to thirty |
| VaultSession.Delay | web/js/session_manager.js:470-473 | an imposed delay is positive and at most 30 seconds |
| VaultSession.RunMatchesRecord | web/js/session_manager.js:458-480 | over every run the stored count is the current streak, below ten, and the lock runs from its last failure |
| VaultSession.WaitBeforeTenth | web/js/session_manager.js:469-473 | the delays between the third failure and the tenth attempt add up to 91 seconds |
| VaultSession.TenthFailureWipes | web/js/session_manager.js:462-467 | a wrong PIN wipes exactly as the tenth failure in a row, at least 91 seconds after the third, and leaves nothing |
| VaultSession.ImposedWaitIsShort | web/js/session_manager.js:200-204 | a refused attempt changes nothing and is told the rest of the wait rounded up, at most 30 seconds, less than one exactly when the door opened between the two clock readings |
| VaultSession.LoadedTimeout | web/js/session_manager.js:51-63 | a page never starts with a negative timeout, and with none exactly when the setting is 0 |
| VaultSession.SessionManager.Start | web/js/session_manager.js:180-192 | opens a session exactly for a complete identity |
| VaultSession.SessionManager.UnlockWithPin | web/js/session_manager.js:196-230 | one PIN attempt: new state and outcome |
| VaultSession.SessionManager.RecordFailedAttempt | web/js/session_manager.js:458-476 | counts the failure, locks or wipes |
| VaultSession.SessionManager.SetBackendActive | web/js/session_manager.js:373-378 | a pending session becomes active once |
| VaultSession.SessionManager.LockNow | web/js/session_manager.js:382-390 | drops the key and everything waiting |
| VaultSession.SessionManager.WipeAll | web/js/session_manager.js:392-399 | locks, forgets the vault and the failures |
| VaultSession.SessionManager.RestartTimer | web/js/session_manager.js:403-415 | arms the timer of an open session unless auto-lock is off |
| VaultSession.SessionManager.OnTimer | web/js/session_manager.js:411-414 | an armed timer locks |
| VaultSession.SessionManager.OnActivity | web/js/session_manager.js:435-437 | activity restarts the timer of an open session |
| VaultSession.SessionManager.SetInactivityTimeout | web/js/session_manager.js:71-79 | stores a usable timeout and restarts the timer |
| FreeNames.DecimalIsInjective | web/js/custom_services.js:84-85 | different suffix numbers are written differently |
| FreeNames.DecimalReadsBack | web/js/custom_services.js:84-85 | a written suffix number reads back as itself |
| FreeNames.SuffixIsReadable | web/js/custom_services.js:80-88 | behind a separator a suffix can be read back, whatever stands in front |
| FreeNames.FreeSuffix | web/js/custom_services.js:80-88 | the counting loop ends on the first suffix whose name is free |
| FreeNames.FreeSuffixIsNear | web/js/custom_services.js:83-86 | it ends within one try more than there are taken names |
| FreeNames.AllocateAt | web/js/custom_services.js:177-182 | each name is picked against all names taken or given before it |
| FreeNames.AllocatedAreDistinct | web/js/custom_services.js:175-183 | names given one after the other are pairwise distinct and none was taken |
| FreeNames.FreeWishesAreGranted | web/js/custom_services.js:175-183 | wishes that collide with nothing are granted unchanged |
| CustomServices.SlugIsCanonical | web/js/custom_services.js:52-62 | every text becomes alphanumeric runs joined by single dashes, at most 48 characters |
| CustomServices.SlugKeepsCanonical | web/js/custom_services.js:52-62 | an id of that form is left alone |
| CustomServices.SanitizerSanitizes | web/js/custom_services.js:52-62 | both, through trimming, normalising and lower-casing |
| SlugWords.SlugIsWords | web/js/custom_services.js:52-62 | a slug is the letter and digit runs of the text, in order, joined by single dashes, cut to 48 characters or 47 where a dash would be left; without any run a fixed name |
| SlugWords.CleanTextIs | web/js/custom_services.js:48-50 | cleaned text is what stands between the spaces at both ends, up to the length |
| SlugWords.SuffixedIdIs | web/js/custom_services.js:84-85 | the id tried for a suffix is the base, cut no more than needed, a dash and the number |
| SlugWords.HostPrefixIs | web/js/custom_services.js:64-78 | a host prefix reserves what stands between the slashes at its ends |
| SlugWords.NewIdAvoidsRoutes | web/js/custom_services.js:64-78 | a new service takes neither a host's id nor the name behind its prefix's slash |
| CustomServices.SuffixedIdIsCanonical | web/js/custom_services.js:84-85 | cutting the base and adding a suffix keeps the form and the length |
| CustomServices.SuffixedIdsDiffer | web/js/custom_services.js:80-88 | distinct suffixes give distinct candidates, even when the base is cut |
| CustomServices.UniqueServiceId | web/js/custom_services.js:80-88 | the loop returns the first free candidate within one round more than there are reserved names |
| CustomServices.UniqueIdIsCanonical | web/js/custom_services.js:80-88 | a unique id made from a canonical base is canonical |
| CustomServices.NewIdIsUnused | web/js/custom_services.js:64-78 | a new service takes no internal route, no host id or prefix and no custom id in use |
| CustomServices.CreateCustomService | web/js/custom_services.js:90-118 | exactly which inputs are refused for name, port and icon, in that order, and every field of the service made of any other |
| CustomServices.ReconcileCustomServices | web/js/custom_services.js:175-183 | the loop gives every service the modelled id and touches nothing else |
| CustomServices.ReconciledIdsAreDistinct | web/js/custom_services.js:175-183 | reconciled ids are pairwise distinct and outside the reserved names |
| CustomServices.ReconciledIdsAreCanonical | web/js/custom_services.js:175-183 | reconciled ids are canonical, whatever was stored |
| CustomServices.ReconcileKeepsFreeIds | web/js/custom_services.js:175-183 | an id changes only when it is malformed, reserved or given before |
| CustomServices.ReconcileIsIdempotent | web/js/custom_services.js:175-183 | reconciling again against the same host changes nothing |
| CustomServices.FindRuntimeId | web/js/custom_services.js:190-193 | the loop ends on the first free runtime id |
| CustomServices.MergeHostAndCustomServices | web/js/custom_services.js:185-210 | runtime ids of custom services differ from each other and from every host id; each is `custom:` and the configured id, with a number where that is taken |
| NixString.NextPattern | web/js/custom_services.js:216-224 | no replacement touches what an earlier one has put in |
| NixString.ReplacementsAreOnePass | web/js/custom_services.js:216-224 | the six replacements are one character-by-character escaping of the value |
| NixString.QuotedReadsBack | web/js/custom_services.js:216-224 | a quoted value read by the rules of Nix string literals is the value, for every string |
| AssetPaths.RewriteAssetPaths | internal/proxy/router.go:624-633 | the nested loops make the eight passes, and exactly one left-to-right pass when the prefix does not lead into the locales |
| AssetPaths.PassesAreOneSwapIff | internal/proxy/router.go:618-633 | for delimiter-free prefixes the eight sequential replacements equal one pass over delimiter and family on every body, if and only if the prefix does not lead into the locales |
| AssetPaths.PassRendered | internal/proxy/router.go:631 | a replacement changes exactly the parts behind its own delimiter that start with the family |
| AssetPaths.PrefixShields | internal/proxy/router.go:618-623 | behind a mountable prefix a reference is not rewritten again |
| AssetPaths.IdempotentIffMountable | internal/proxy/router.go:624-633 | for delimiter-free prefixes rewriting twice equals once on every body, if and only if the prefix does not lead into a family |
| AssetPaths.UnmountRestoresIff | internal/proxy/router.go:624-633 | mapping the rewritten references back restores a body, if and only if it held none to begin with |

## Left out

- RateLimiter: Allow and Cleanup are one instant each; the source reads the clock just before it takes the lock, and the library it calls reads it again.
- RateLimiter: the token bucket of `golang.org/x/time/rate` is modelled by its documented behaviour with exact reals, not by its floating-point and nanosecond rounding.
- HistoryStore.Store.RangeTunnelIncarnations: the method itself keeps table order for rows of one second; its contract and the lemmas cover every order the query allows.
- HistoryStore.Store.RangeBucketed: does not model which of several equally new rows of a bucket is returned, which the query leaves to the engine; the model takes the first.
- HistoryStore: SQLite itself, its errors and transactions, JSON encoding of snapshots, `Latest` and the unbucketed `Range`; window bounds are whole seconds, as the handler parses them.
- HostHistory.AvailabilityStrip: series entries that are not objects with a numeric time, which the source skips, cannot occur in the model; tooltip durations are left out.
- HistoryPanel: HTTP, endpoints, the wording of errors and rendering; an answer is a success or a failure. Both panels are one machine with different constants.
- Discovery: relays, connecting, message texts and what a reply carries besides its date.
- UrlMailbox: the subprocess, its restarts and the readiness wait of the consumer, which is a step of its own here; the class with the publish loop has one scanner, several scanners are modelled on values.
- VaultSession.SessionManager.WipeAll: does not model the stored platform credential and the PIN held for biometric unlocking, which the source also removes; a biometric unlock is an outcome here.
- VaultSession: encryption, the authenticator and storage are outcomes; concurrent PIN attempts, listeners that throw and corrupt stored records are not modelled.
- Sessions: address parsing and request headers are parameters of the model; cookies are left out.
- StepUp: HMAC is a parameter, injective where that is needed; the HTTP handler and the fetch are left out.
- CustomServices: Unicode decomposition and lower-casing are parameters that leave canonical ids alone; lengths count characters rather than UTF-16 units; parsing, serialising and YAML export are left out.
- CustomServices.UniqueIdIsCanonical: assumes fewer than ten to the 46th reserved names, beyond which a suffix would not fit in an id.
- AssetPaths.IdempotentIffMountable: does not cover prefixes that contain a quote, a backtick or a parenthesis.
- Downsample: rounding of the bucket size in floating point.
- MergeServices of `internal/config/dropins.go`, request routing and redirects of the proxy, sensors, health probing and key handling: they would add easier members, or rest on the kernel and on libraries.
