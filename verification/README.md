# A verified model of Relay's control plane

Relay connects executors to a control plane. This project models, in Dafny, the parts of it that are state
machines or algorithms with something to get wrong, and proves what they keep:

- the virtual clock and its heap of timers (`TimerHeap`, `ClockModel`, `VirtualClock`);
- the request/response multiplexer of a connection, under every interleaving (`MultiplexerModel`, `Multiplexer`);
- the registry of connections with its round-robin selection (`RoundRobin`, `RegistryModel`, `Registry`), and
  dispatch with one retry (`Hub`), lease renewal (`Lease`);
- the recovery of a dead executor (`Recovery`);
- the retention engine (`RetentionModel`, `Retention`);
- the autoscaler (`Backlog`, `AutoscaleModel`, `Autoscale`);
- the declarative reconciler (`DeclarativeModel`, `Declarative`);
- the cache of token keys (`KeyCacheModel`, `KeyCache`);
- the event broadcaster (`BroadcasterModel`, `Broadcaster`).

Code that changes state in place is modelled by classes and loops. Each method is proved to take the state to
the value that a specification function gives, or to meet a contract that names the outcome outright; the
theorems, mostly over whole runs or all interleavings, are then lemmas about those specifications. `Sorting`
holds what a library sort returns.

Outside parties are models of their own or oracles. The workflow table client lists rows in any order and may
fail at any call, having done part of the work. Peers, prober, deleter and recorder answer as they like, and
every call to them is kept in a trace. The database of the reconciler may fail at any call. What other callers
do at the same time is a script of arbitrary steps.

Four properties one might expect do not hold as they stand. Each is proved with its exact condition, for all
inputs, and with a witness:

- advancing the clock by a and then by a negative b is not always advancing by a + b
  (`ClockModel.AdvanceAddsExactlyWhen`, `ClockModel.GoingBackIsNotStaying`);
- a whole retention request, unlike its collection half, is not always idempotent; the condition covers every
  mix of thresholds (`RetentionModel.EnforcingIsIdempotentExactlyWhen`,
  `RetentionModel.SecondRunMayDeleteMore`);
- a plan does not predict what applying it reports when a rule is given twice, which validation allows
  (`DeclarativeModel.DiffPredictsExactlyWhen`, `DeclarativeModel.RepeatIsValid`);
- key fetches are not kept apart after an `Init` that sent its request and failed within five seconds, which
  leaves no attempt on record, at internal/auth/oidc.go:112-115 (`KeyCacheModel.AlwaysSpacedExactlyWhen`,
  `KeyCacheModel.FailedInitIsNotCounted`). Relay itself gives up when `Init` fails, at
  internal/cli/serve.go:186-188, so it does not get there.

Two more exact conditions, with a witness each: selection stays fair when its counter wraps only if the number
of candidates divides the counter's range, or it wraps once and on a round
(`RegistryModel.RoundsAreFairExactlyWhen`, `RegistryModel.ThreeExecutorsAcrossAWrap`); and the two autoscaling
endpoints differ for a version called "latest" that is not the latest
(`AutoscaleModel.EndpointsAgreeExactlyWhen`, `AutoscaleModel.VersionCalledLatest`).

## Model

| member | source | states |
|---|---|---|
| TimerHeap.RemoveKeepsOrder | internal/liveness/clock.go:163-165 | removing any slot of the heap keeps heap order and takes out exactly that slot |
| TimerHeap.PushKeepsOrder | internal/liveness/clock.go:106 | pushing keeps heap order and adds exactly the new slot |
| TimerHeap.PopKeepsOrder | internal/liveness/clock.go:126 | popping keeps heap order and takes out exactly the root |
| TimerHeap.RootIsLeast | internal/liveness/clock.go:122-125 | no pending timer triggers before the root |
| TimerHeap.FiredExactly | internal/liveness/clock.go:121-131 | popping while the root is due takes exactly the due slots, each as often as it was there, in trigger order |
| TimerHeap.FiredInTwoStages | internal/liveness/clock.go:121-131 | popping up to t and then up to a later u is popping up to u at once: same slots, same order, same array |
| ClockModel.StopTakesOne | internal/liveness/clock.go:155-167 | stopping takes exactly the stopped timer out, from wherever in the heap it sits, and touches no channel |
| ClockModel.ResetSetsTheTimer | internal/liveness/clock.go:169-196 | after Reset(d) the timer, whether it was pending, fired or stopped, is the one pending entry of its ID, due at now + d, with an empty channel, or has fired at once when d is not positive; every other timer and the clock are as before |
| ClockModel.NewTimerIsSet | internal/liveness/clock.go:86-108 | the same of a new timer, which gets the next ID |
| ClockModel.SetTimerFires | internal/liveness/clock.go:115-140 | a timer so set fires with its trigger time exactly when the clock gets there |
| ClockModel.ResetThenAdvanceFires | internal/liveness/clock.go:115-196 | a Reset by d and then an Advance by at least d fire the timer at the time set |
| ClockModel.StopAndReceiveTouchOne | internal/liveness/clock.go:151-167 | stopping a timer and receiving from its channel touch that timer only |
| ClockModel.AdvanceFiresExactlyTheDue | internal/liveness/clock.go:115-140 | Advance fires exactly the pending timers due by the new time, each once, in trigger order, and leaves the rest pending |
| ClockModel.AdvanceLosesNoFire | internal/liveness/clock.go:134-139 | every fired timer's channel receives its trigger time, and every other channel is left alone: no fire is dropped |
| ClockModel.AdvanceAdds | internal/liveness/clock.go:115-140 | Advance(a) then Advance(b) with b not negative fires the same sequence and reaches the same clock, heap array and channels as Advance(a+b) |
| ClockModel.AdvanceAddsExactlyWhen | internal/liveness/clock.go:115-140 | for any a and b the two agree if and only if b is not negative or no pending timer lies in the stretch gone back over |
| ClockModel.GoingBackIsNotStaying | internal/liveness/clock.go:115-140 | a reachable state where they differ: one timer set to 5, a = 10, b = -10 |
| ClockModel.EveryRunKeepsInv | internal/liveness/clock.go:86-196 | every run of operations keeps heap order, one slot per timer, every pending trigger time strictly after now, and pending timers' channels empty |
| ClockModel.ReachableIsWellFormed | internal/liveness/clock.go:68-196 | every state reached from a new clock is well formed in that sense |
| VirtualClocks.VirtualTimer.Stop | internal/liveness/clock.go:155-167 | on the objects: the state becomes that of a stopped timer, and the result says whether it was active |
| VirtualClocks.VirtualTimer.Reset | internal/liveness/clock.go:169-196 | on the objects: the old slot is removed from wherever it was, the channel drained, and the timer armed anew |
| VirtualClocks.VirtualTimer.Receive | internal/liveness/clock.go:151-153 | on the objects: taking a value out of a timer's channel empties that channel and changes nothing else |
| VirtualClocks.VirtualClock.ActiveHoldsItsSlot | internal/liveness/clock.go:142-149 | a timer is active exactly when it is in the heap, and its stored index is then its position |
| VirtualClocks.VirtualClock.Swap | internal/liveness/clock.go:202-206 | swapping two slots updates both stored positions |
| VirtualClocks.VirtualClock.Remove | internal/liveness/clock.go:163-165 | removal from the middle, as a library heap does it with Swap, leaves every stored index right |
| VirtualClocks.VirtualClock.NewTimer | internal/liveness/clock.go:86-108 | a new timer fires at once when its delay is not positive, and otherwise takes a slot |
| VirtualClocks.VirtualClock.Advance | internal/liveness/clock.go:115-140 | the pop loop and the sends reach exactly the state that the model of Advance gives |
| VirtualClocks.VirtualClock.ExpireRoot | internal/liveness/clock.go:126-130 | every timer popped was active, so none that is due goes uncollected |
| MultiplexerModel.EveryInterleavingIsSafe | internal/hub/multiplex.go:27-104 | over every interleaving of Register, unregister, the three parts of RouteResponse and CancelAll: no send on a closed channel, no second close, no blocking send; each registration gets at most one message, carrying its own ID |
| MultiplexerModel.EveryChannelHasOneOwner | internal/hub/multiplex.go:27-104 | in every reachable state each channel is pending, held by exactly one routing call, or closed, and only one of these |
| MultiplexerModel.RegisteringAwaits | internal/hub/multiplex.go:27-54 | a registration on an open multiplexer gets a channel that awaits its answer, one for a waiting ID gets none, one on a closed multiplexer gets a closed channel |
| MultiplexerModel.TakingHoldsTheMessage | internal/hub/multiplex.go:67-72 | a response for an awaited ID is taken by its routing call, for the channel that awaits it |
| MultiplexerModel.RoutedAnswerIsReceived | internal/hub/multiplex.go:58-81 | once taken and sent it is what the waiting caller receives, whatever happens in between and afterwards until that caller receives |
| MultiplexerModel.UnawaitedIsDropped | internal/hub/multiplex.go:59-65 | a response without an ID, or for an ID that nobody awaits, changes nothing |
| MultiplexerModel.ClosingEndsTheCall | internal/hub/multiplex.go:76-77 | the last part of routing closes the channel, ends the call and changes nothing else |
| MultiplexerModel.UnregisteringTouchesItsOwn | internal/hub/multiplex.go:44-51 | unregistering closes and removes a channel that waits, and otherwise does nothing, even if another waits for the same ID |
| MultiplexerModel.CancellingClosesTheWaiting | internal/hub/multiplex.go:95-104 | CancelAll closes exactly the waiting channels and leaves buffers, routing calls and other channels alone |
| MultiplexerModel.FaultsAreRecorded | internal/hub/multiplex.go:44-104 | in any state, a send on a closed or full channel and a second close are recorded as faults, and nothing else is |
| MultiplexerModel.ClosedAndQuietClosesEverything | internal/hub/multiplex.go:94-104 | once the multiplexer is closed and no routing call is under way, every channel ever handed out is closed |
| MultiplexerModel.RoutedMessageArrives | internal/hub/multiplex.go:67-78 | a response taken out of the table is not lost, whatever steps fall between taking, sending and closing |
| MultiplexerModel.UnregisteredStaysOut | internal/hub/multiplex.go:44-51 | a channel that has left the table never returns to it, even when its request ID is used again |
| MultiplexerModel.ChannelKeepsItsID | internal/hub/multiplex.go:41-42 | a channel keeps the request ID it was made for |
| Multiplexers.Multiplexer.Register | internal/hub/multiplex.go:27-54 | one step of the machine: a closed multiplexer gives a closed channel, a pending ID gives none |
| Multiplexers.Multiplexer.Unregister | internal/hub/multiplex.go:44-51 | removes and closes only its own channel, not one registered since for the same ID |
| Multiplexers.Multiplexer.Take | internal/hub/multiplex.go:58-72 | the part of RouteResponse under the lock: it takes the entry out, or finds none |
| Multiplexers.Multiplexer.Send | internal/hub/multiplex.go:75 | the send after the unlock finds the channel open and empty |
| Multiplexers.Multiplexer.Close | internal/hub/multiplex.go:76 | the close after the send finds the channel still open |
| MultiplexerModel.PendingAwaits | internal/hub/multiplex.go:90-91 | an ID is in the table exactly when some open channel, with nothing sent on it, awaits its answer, and there is then only one |
| Multiplexers.Multiplexer.IsPending | internal/hub/multiplex.go:84-92 | true exactly when the ID is not empty and such a channel awaits its answer |
| Multiplexers.Multiplexer.CancelAll | internal/hub/multiplex.go:95-104 | whatever the order of the loop, every pending channel is closed once and nothing stays pending |
| RegistryModel.HoldsTheLastLiveConnection | internal/hub/registry.go:42-120 | after any history the registry holds under each key exactly the last connection registered for it that has not closed since |
| RegistryModel.SupersededNeverEvicts | internal/hub/registry.go:90-94 | the close of a replaced connection leaves the registry as it is and reports no disconnect |
| RegistryModel.ReportedExactlyWhenLive | internal/hub/hub.go:315-327 | a close is reported exactly when it is that of the last connection registered for its key and not closed since |
| RegistryModel.CounterAfter | internal/hub/registry.go:96-152 | an application's counter goes up by one with each selection that has a candidate, is dropped with the last of its connections, and is otherwise left alone |
| RegistryModel.ReportedAtMostOncePerRegistration | internal/hub/hub.go:315-327 | a connection is reported disconnected at most as often as it was registered, once less while it is current |
| RegistryModel.EveryHistoryKeepsShape | internal/hub/registry.go:96-100 | no application has an empty map, and selection counters exist only for applications with connections |
| RegistryModel.SortOfListing | internal/hub/registry.go:138-149 | whatever the order of the map range, sorting gives the one listing of the eligible IDs |
| Sorting.SortIgnoresOrder | internal/hub/registry.go:138-149 | a sort by a strict total order gives the same list for every order in which the map range yields the IDs |
| RegistryModel.ChoiceIsEligible | internal/hub/registry.go:138-155 | no selection picks the excluded executor or one that is not connected |
| RegistryModel.RoundsAreFairExactlyWhen | internal/hub/registry.go:151-155 | k rounds over n eligible executors, for any k, pick each exactly k times, if and only if the 64-bit counter does not wrap on the way, or n divides its range, or it wraps once and on a round |
| RegistryModel.ThreeExecutorsAcrossAWrap | internal/hub/registry.go:151-155 | a witness that it can fail: three executors and the counter at its largest value |
| RoundRobin.FairExactlyWhen | internal/hub/registry.go:151-153 | the arithmetic of that, over any number of wraps |
| Registries.Registry.Register | internal/hub/registry.go:42-62 | registers the connection under its key and returns the one it replaces |
| Registries.Registry.Unregister | internal/hub/registry.go:80-101 | removes the connection only while it is the current one, and says whether it did |
| Registries.Registry.SelectExecutorWithExclusion | internal/hub/registry.go:129-156 | picks by counter from the sorted eligible IDs, with both error cases, whatever the order of the map range |
| Hubs.ExecutorConn.Close | internal/hub/conn.go:299-310 | the first close cancels everything pending and unregisters, reporting only a current connection; later closes change nothing |
| Hubs.DispatchToConn | internal/hub/hub.go:487-513 | one attempt under any steps of other callers, with the state it leaves: an answer carries the request's own ID and comes only if it was written, and nothing stays registered afterwards |
| Hubs.RoutedAnswerIsReturned | internal/hub/hub.go:487-513 | an attempt whose answer is routed while it waits, in steps of any routing call among any others, returns exactly that answer |
| Hubs.AttemptGoes | internal/hub/hub.go:488-513 | when an attempt registers, is written, and is answered: each exactly |
| Hubs.MayRetryExactlyWhen | internal/hub/hub.go:544-547 | when a second attempt is allowed |
| Hubs.OtherKindsAreNotSafe | internal/hub/hub.go:457-485 | no other message type of the protocol is safe to retry |
| Hubs.ReplyIs | internal/hub/hub.go:539-559 | the caller is given exactly the response of the last attempt, or the error that says why not |
| Hubs.Hub.Dispatch | internal/hub/hub.go:515-560 | at most two attempts on different executors, each with the write, outcome, channel and final multiplexer state that its script makes of it; the second exactly when the first failed, may be tried again and there is another executor; a request not safe to retry is written at most once; the reply is the last attempt's; nothing registered stays pending |
| Lease.ClosedOnlyWhenExpired | internal/hub/conn.go:250-296 | over every run there is at most one lease renewal under way, and a connection closed for its lease has had no successful renewal for longer than the lease lasts |
| Lease.RenewalsDecide | internal/hub/conn.go:250-296 | over every run: when a beat starts a renewal, and that a renewal that ends closes the connection exactly when it failed and every success lies further back than the lease lasts |
| Lease.LeaseKeeper.TriggerLeaseTouch | internal/hub/conn.go:250-262 | a beat starts a renewal exactly when none is under way |
| Lease.LeaseKeeper.TouchAnswered | internal/hub/conn.go:263-295 | a failed renewal closes the connection exactly when the last success is further back than the lease lasts |
| Recovery.SelectCandidates | internal/liveness/dispatch.go:105-141 | a peer of another application refuses the recovery; otherwise the candidates are all the others, the dead executor's version first, other versions only when allowed, in order; and which error is given when there is none |
| Recovery.ChosenAre | internal/liveness/dispatch.go:109-124 | the lists of exact and alternate versions hold exactly the peers they should |
| Recovery.ChosenFromEach | internal/liveness/dispatch.go:109-124 | the lists keep the order and number of the peers |
| Recovery.OwnVersionComesFirst | internal/liveness/dispatch.go:126-131 | no candidate at another version comes before one at the dead executor's |
| Recovery.ConfirmsExactlyWhen | internal/liveness/dispatch.go:242-323 | a candidate settles the matter exactly when it acknowledges and either is at the dead executor's version, or nobody can probe, or the probe finds nothing pending; and what it fails with otherwise |
| Recovery.DbLeftIs | internal/liveness/dispatch.go:156-180 | which of its answers about pending work the database path goes by |
| Recovery.RecoverFromDatabase | internal/liveness/dispatch.go:150-208 | the database path: deletion only after it says that nothing is pending at any version, and the one record it then makes |
| Recovery.AskOne | internal/liveness/dispatch.go:242-323 | one candidate: its verdict, and one recorded failure unless it confirms |
| Recovery.AskCandidates | internal/liveness/dispatch.go:234-365 | exactly the candidates up to the first that confirms are asked, in order; the log is one failure for each before it and then one success, unless the deletion failed |
| Recovery.Conclude | internal/liveness/dispatch.go:325-358 | deletion first, and a success is recorded only if it did not fail |
| Recovery.RecoverDeadExecutor | internal/liveness/dispatch.go:143-365 | in every run the record is deleted at most once and only on evidence: the database's, or a peer's acknowledgement with a clean probe where one is due; an error never records a success; peers are asked only when the database did not recover; and exactly which error is returned when there is nobody to ask |
| RetentionModel.NthNewestExists | internal/dataplane/client.go:874-884 | with at least N terminal rows there is an Nth newest, whichever way ties fall |
| RetentionModel.NthNewestIsUnique | internal/dataplane/client.go:874-884 | its creation time is the same whichever way ties fall |
| RetentionModel.EachRowsFate | internal/dataplane/client.go:813-956 | what becomes of each row by its status: delayed rows stay; pending and enqueued rows stay, cancelled exactly when created at or before the timeout cutoff; finished rows are deleted exactly when older than a cutoff |
| RetentionModel.RowsThresholdKeepsTheNewest | internal/dataplane/client.go:860-891 | with only a rows threshold N, exactly the terminal rows no older than the Nth newest are kept, at least min(N, count); with fewer than N nothing is deleted; other rows are never deleted |
| RetentionModel.CollectingIsIdempotent | internal/dataplane/client.go:843-851 | collecting twice is collecting once, for every mix of the two thresholds |
| RetentionModel.EnforcingIsIdempotentExactlyWhen | internal/dataplane/client.go:827-858 | for every mix of thresholds the whole request is idempotent if and only if every row that is terminal after one run is no older than the time cutoff and has fewer than N newer ones among them |
| RetentionModel.IdempotentWithTimeOnlyExactlyWhen | internal/dataplane/client.go:827-858 | with a time threshold only, that is when no row times out that is older than the cutoff |
| RetentionModel.OlderThanNthNewest | internal/dataplane/client.go:874-884 | a time is before the Nth newest terminal row exactly when N terminal rows are newer |
| RetentionModel.SecondRunMayDeleteMore | internal/dataplane/client.go:827-858 | a witness: a table and a rows threshold for which the second run deletes a row that the first one kept |
| Retention.RetentionCutoff | internal/dataplane/client.go:863-891 | the later of the two cutoffs, or none, or the refusal of a threshold that is not positive |
| Retention.DeleteTerminalWorkflowsBefore | internal/dataplane/client.go:893-927 | for every batch size from 1 and every listing order the loop ends, having deleted exactly the terminal rows created strictly before the cutoff; a failed call leaves all other rows alone |
| Retention.CancelActiveWorkflowsBefore | internal/dataplane/client.go:929-956 | likewise, having cancelled exactly the pending and enqueued rows created at or before the cutoff |
| Retention.EnforceRetention | internal/dataplane/client.go:832-858 | the table becomes what the one-step specification says; an unacceptable request changes nothing; a failure on the way touches no row out of reach |
| Backlog.FirstWithIs | internal/api/autoscale.go:152-165 | the workflows counted under a version are exactly those whose first occurrence carries it |
| Backlog.SingleWorkflow | internal/api/autoscale.go:160-164 | a workflow without a version counts under the empty one |
| Backlog.ListQueuedBacklog | internal/api/autoscale.go:118-173 | for any two fixed listings, of whatever length, paging ends and each depth is the number of distinct workflows whose first occurrence carries that version; the depths add up to the number of distinct workflows; it fails exactly when one of its calls does |
| AutoscaleModel.LatestIgnoresOrder | internal/api/autoscale.go:175-212 | the latest version is the same for every order of the executors and of the backlog's keys |
| AutoscaleModel.LatestIs | internal/api/autoscale.go:181-212 | which version is the latest, for each of the three sources; executors without a version or a connection time do not count |
| AutoscaleModel.DesiredIsTheLeastCover | internal/api/autoscale.go:219-241 | without caps, the fewest executors whose workers cover the depth, at least one for the latest version |
| AutoscaleModel.DesiredIsWithinCaps | internal/api/autoscale.go:225-241 | never above the global cap, nor above the old-version cap for old versions; at least one for the latest; monotone in depth |
| AutoscaleModel.DesiredIsCappedCover | internal/api/autoscale.go:219-241 | whatever the caps: never more than covers the depth or than a cap that applies, and when it does not cover the depth it is a cap that applies |
| AutoscaleModel.CapExists | internal/api/autoscale.go:225-228 | there is a cap exactly when the queue has a positive concurrency, and it is the fewest whose workers cover that |
| AutoscaleModel.HasRowExactlyWhen | internal/api/autoscale.go:243-276 | exactly the versions with work left have a row, and the latest if it has a name or any entry |
| AutoscaleModel.RowsSay | internal/api/autoscale.go:257-283 | each row says its version's depth and what is desired for it; the latest comes first, then the greater versions |
| AutoscaleModel.VersionsAreUnique | internal/api/autoscale.go:243-284 | no version has two rows |
| AutoscaleModel.DepthsAddUp | internal/api/autoscale.go:243-284 | without a version filter the rows' depths add up to the whole backlog |
| AutoscaleModel.MoreRecentIsTotal | internal/api/autoscale.go:482-492 | the order of old versions is strict and total on versions |
| AutoscaleModel.OldRowsAreTheMostRecent | internal/api/autoscale.go:462-499 | the old rows are in order of their executors' connection times, the greater version first at equal times, and none that was cut off was connected more recently than one kept |
| AutoscaleModel.EndpointsAgreeExactlyWhen | internal/api/autoscale.go:457-608 | for two calls over the same backlog and executors, in any order: what the single-version endpoint answers for a row that the all-versions endpoint gave is that row, if and only if the version is not empty and not called "latest" without being the latest |
| AutoscaleModel.VersionCalledLatest | internal/api/autoscale.go:457-608 | a witness that they can differ: work left for a version called "latest" beside another recorded latest |
| AutoscaleModel.ZeroRowExactlyWhen | internal/api/autoscale.go:591-607 | the zero row is given exactly to a known version that is not the latest and has no work left |
| AutoscaleModel.VersionAnswerIs | internal/api/autoscale.go:558-608 | exactly which requests find no version known, which a version never registered, and what the row says otherwise |
| Autoscale.LatestAutoscaleVersion | internal/api/autoscale.go:181-212 | the recorded version, or else the one connected last, the greater name at equal times, or else the greatest in the backlog |
| Autoscale.ComputeAutoscale | internal/api/autoscale.go:218-285 | exactly one row for each version in scope, with its depth and desired executors, the latest first, then by version downwards, whatever the order of the keys |
| Autoscale.FirstOfSorted | internal/api/autoscale.go:482-504 | cutting the sorted old rows keeps the most recent ones, and every one cut off comes after every one kept |
| Autoscale.GetAutoscale | internal/api/autoscale.go:457-505 | the latest version's row and the first maxOld old ones in order of recency, the cut always in range |
| Autoscale.GetAutoscaleVersion | internal/api/autoscale.go:556-608 | the row, the zero row or the right error for any requested name; a row is synthesized only for a known, drained, non-latest version |
| Declarative.Validate | internal/declarative/declarative.go:232-279 | exactly the valid configurations pass |
| Declarative.Diff | internal/declarative/declarative.go:282-405 | reports for each thing whether the store as it is has it, without changing anything |
| Declarative.Apply | internal/declarative/declarative.go:408-612 | the store becomes what the configuration asks for, with a report to match, or stays as it was, also when the transaction fails to begin or to commit; for a valid configuration the missing-application errors are unreachable |
| Declarative.ApplyRule | internal/declarative/declarative.go:482-545 | one rule: found by application, type and receiver, or made |
| Declarative.ApplyApp | internal/declarative/declarative.go:438-480 | one application: its settings put over those stored, everything else left |
| DeclarativeModel.AppsSettle | internal/declarative/declarative.go:438-480 | afterwards every application's settings absorb what the configuration gives |
| DeclarativeModel.ApplyKeepsTheRest | internal/declarative/declarative.go:438-480 | Apply keeps what it is not told to change: other settings of a configured application, the three configurable ones when none is given, its ID, and the record of every other application |
| DeclarativeModel.ApplyAddsRulesAskedFor | internal/declarative/declarative.go:482-546 | stored rules stay; every rule added is asked for, with its applications, type and interval, and is the first of its kind |
| DeclarativeModel.DiffSays | internal/declarative/declarative.go:285-385 | what Diff names and when it says that a thing is unchanged |
| DeclarativeModel.RefusedAndAccepted | internal/declarative/declarative.go:232-279 | names and data planes that are refused, and some at the edge that are not |
| DeclarativeModel.RulesAfter | internal/declarative/declarative.go:482-546 | afterwards exactly the rules stored before and those of the configuration are stored |
| DeclarativeModel.StoredThroughApps | internal/declarative/declarative.go:438-480 | making applications gives no rule to them and takes none away |
| DeclarativeModel.DiffAfterApplyCreatesNothing | internal/declarative/declarative.go:281-405 | after a successful Apply, Diff of the same configuration finds nothing to create |
| DeclarativeModel.SecondApplyExactlyWhen | internal/declarative/declarative.go:408-612 | a second Apply changes and creates nothing if and only if there is an API key by then or the keys cannot be listed; always, if the first one could list them |
| DeclarativeModel.DiffPredictsExactlyWhen | internal/declarative/declarative.go:281-612 | Diff predicts the multiset of what Apply reports, apart from the API key, if and only if no rule that is not stored yet is given twice |
| DeclarativeModel.RepeatIsValid | internal/declarative/declarative.go:248-264 | a valid configuration may give such a rule twice |
| KeyCacheModel.FetchesAreSpaced | internal/auth/oidc.go:232-296 | over every interleaving of calls, two requests to the key endpoint are at least five seconds apart |
| KeyCacheModel.FetchRateIsBounded | internal/auth/oidc.go:264-267 | so a span of T seconds holds at most 1 + T/5 requests, whatever the calls and key IDs |
| KeyCacheModel.AnswersComeFromTheLastFetch | internal/auth/oidc.go:276-296 | the positive and negative caches are disjoint, and a returned key is the one the most recent successful fetch gave for the ID asked for |
| KeyCacheModel.MissingKeyIsFetched | internal/auth/oidc.go:235-274 | a key that the caches have no answer for is fetched as soon as nobody else is fetching and the last attempt is five seconds back |
| KeyCacheModel.FetchedAgainAfterFiveSeconds | internal/auth/oidc.go:232-296 | whatever a fetch came to, five seconds after it a caller for a key in neither cache fetches |
| KeyCacheModel.HeldBackExactlyWhen | internal/auth/oidc.go:254-269 | in every run a caller with the lock is held back exactly when the caches have no answer and some attempt was concluded less than five seconds before |
| KeyCacheModel.FetchLeaves | internal/auth/oidc.go:276-296 | what a fetch leaves in the caches, successful or not, and the answer it gives |
| KeyCacheModel.AnswersLast | internal/auth/oidc.go:235-248 | a key found missing is refused for exactly thirty seconds, a key found is handed out for exactly the TTL |
| KeyCacheModel.InitIsRemembered | internal/auth/oidc.go:112-123 | what a successful Init fetched is handed out for exactly the TTL |
| KeyCacheModel.FailedInitIsNotCounted | internal/auth/oidc.go:112-115 | after an Init that sent its request and failed in less than five seconds the next caller sends at once |
| KeyCacheModel.AlwaysSpacedExactlyWhen | internal/auth/oidc.go:107-124 | the spacing holds in every run if and only if Init succeeded, was not called, failed before it sent its request, or took five seconds to fail |
| KeyCache.OIDCValidator.Init | internal/auth/oidc.go:107-124 | the state after the first fetch: successful, failed, or failed before its request was sent |
| KeyCache.OIDCValidator.FastPath | internal/auth/oidc.go:235-248 | answers from the caches, or lets the caller go on |
| KeyCache.OIDCValidator.Admit | internal/auth/oidc.go:250-269 | the second look and the throttle, under the fetch lock |
| KeyCache.OIDCValidator.Conclude | internal/auth/oidc.go:276-295 | the update after a fetch, and the answer it gives |
| KeyCache.OIDCValidator.GetKey | internal/auth/oidc.go:232-296 | a whole call, whether or not its fetch comes to send the request, with any steps of others in between: it is a run of the machine and gives the answer of its last step; a returned key is the last fetched one for that ID; without an answer another caller holds the fetch lock |
| BroadcasterModel.HistoryIsALossyCopy | internal/api/events.go:37-93 | each channel's history is a subsequence of the matching events published while it was subscribed, none more often than published, and all of them if and only if its buffer was never full |
| BroadcasterModel.BreaksExactlyWhenCancelledTwice | internal/api/events.go:47-93 | nothing is sent to a closed channel, and a channel is closed twice if and only if its cancel was called twice; no empty subscriber map remains |
| BroadcasterModel.ReachesTheRightOnes | internal/api/events.go:71-92 | Publish reaches exactly the open channels of the event's application and of the whole fleet |
| BroadcasterModel.SubscribingReaches | internal/api/events.go:37-45 | a new channel is open, empty and reached by exactly the events of its application, or by all; nobody else's channel changes |
| BroadcasterModel.CancellingStopsOnlyIts | internal/api/events.go:47-57 | a cancelled channel is reached by nothing, and every other channel as before |
| BroadcasterModel.ReceivedInOrder | internal/api/events.go:41-93 | a subscriber receives exactly its channel's history, in order, up to what is still buffered |
| Broadcaster.EventBroadcaster.Subscribe | internal/api/events.go:37-45 | a new channel under its application |
| Broadcaster.EventBroadcaster.Cancel | internal/api/events.go:47-57 | removes the channel, and the map when it was the last; the first cancel never closes a closed channel |
| Broadcaster.EventBroadcaster.Publish | internal/api/events.go:63-93 | whatever the order of the loops, each matching channel is offered the event once, and none of them is closed |

## Left out

- NewVirtualClock's default for the zero time, `After`, `Now` and real timers: they add nothing to the heap.
- Races inside `Advance` after its unlock (internal/liveness/clock.go:134-139): each clock operation is one step.
- Widths of time values and of timer IDs: both are unbounded integers.
- Channels are values named in the order of their making, not objects; sending, receiving and closing are updates of them.
- `RouteResponse` is three steps, taking, sending and closing; closing a connection and its unregistering are one.
- The database update in `Registry.Unregister` after the lock is released, and so agreement between database and registry.
- WebSocket reading and writing, pings and TLS: a write is a flag of the attempt's script, a deadline another.
- `SendRecovery` and `CheckPendingWorkflows` of the hub, which register, write, wait and clean up as a dispatch attempt does.
- `DrainAll`, `ListConnected` and `GetExecutorConn`: they only read the registry.
- Hubs.Hub.Dispatch: the body of a request is not modelled, only its ID and type; the remaining deadline is a flag.
- The renewal's write to the store and its time limit: the answer is an argument of `TouchAnswered`.
- Log lines, times of dispatch and the contents of errors in the recovery; a record that could not be written counts as written, as the code goes on all the same.
- Writers beside retention, such as a resume between list and delete (internal/dataplane/client.go:899-902).
- The rest of internal/dataplane/client.go and the life cycle in internal/dataplane/manager.go.
- `int64` overflow in `ceilDiv` and in the depths: both are unbounded.
- Resolving application, policy and queue before an autoscaling answer, and the queue name and time copied into each row.
- The details column of plan items, metadata of rules, API key contents and where secrets come from; whether they can be resolved is an oracle.
- A store listing that changes within the transaction of `Apply`: the transaction sees only its own writes.
- A second `Init` after calls have begun, which does not clear the negative cache (internal/auth/oidc.go:117-121).
- Validation of tokens, signatures and claims, and the discovery request before a key fetch.
- Filling in an event's missing timestamp, and two `Publish` calls that overlap under their shared lock: each is one step.
- The lifecycle table in internal/liveness/machine.go, the liveness manager, handlers, SQL, command line, configuration and console.
