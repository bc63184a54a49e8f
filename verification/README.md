# A verified model of the Open Match 2 example matchmaker

This project models, in Dafny, the decision logic of the Open Match ecosystem's example matchmaker and
proves what it promises:

* **Default evaluator** (`Evaluator*.dfy`, `Sorting.dfy`): scores are decoded, proposals sorted in place by an
  unstable sort, and kept greedily while they share no ticket. Any order the sort may leave is allowed for.
* **FIFO matchmaking function** (`Fifo*.dfy`) and the **reassembly of chunked requests** that feeds it
  (`ChunkedRequest.dfy`).
* **Game server director** (`Director*.dfy`, `AssignmentTracking.dfy`) and the **mock Agones registry**
  (`AgonesRegistry.dfy`, `RegistryTheorems.dfy`, `EmittedRequests.dfy`), with what cycles mean in
  `CycleMeaning.dfy`: one cycle is a method over nondeterministic proposals, random
  rolls, results of sends and a clock that never goes back; a run is any sequence of cycles.
* **Concurrent protocols**: the lossy broadcast (`ByteSub.dfy`), the coalescing updater (`Updater.dfy`) and
  whole trees of updaters that feed the broadcast (`Pipeline.dfy`, `PipelineProgress.dfy`), the activation batcher
  (`ActivationBatcher.dfy`) and the receipt of assignments (`AssignmentReceiver.dfy`). Their results are about
  every interleaving of atomic steps.

Objects that the program updates in place are classes whose methods are proved against specification
functions; the theorems are lemmas about those functions, about runs of step systems, or about logged histories.

How some parts of the outside world appear:

* JSON and protobuf serialisation are free datatype constructors, hence injective; the xxh3 hash and the
  rendering of a map as bytes are arbitrary functions.
* Scores are exact reals with a bottom element for minus infinity.
* `rand.Intn`, the clock, the result of each `Send`, the order in which a Go map is walked, the schedule of
  goroutines, and what a select finds ready are chosen arbitrarily or are parameters.
* A nil dereference or a panic that the program can reach is a result of its own (`crashed`, `Crash`), or a
  precondition where the program leaves it to the caller.

## Where the code and its documentation differ

The model follows the code.

* `v2/examples/README.md:85` says that a backfill request makes its server the source of a new request in the
  next cycle. Allocating by the returned spec removes it in the same cycle:
  `RegistryTheorems.BackfillRequestIsGoneAfterTheCycle`. That holds in every cycle, also one short of servers, so
  that no run ever registers a new spec: `Director.MockDirector.Run`.
* `v2/examples/README.md:95-98` says that a player, once assigned, cannot be placed in another match. Collisions
  within a cycle are not detected: `DirectorTheorems.SentOnceIffProposedOnce`, and the proposals of
  `DirectorTheorems.OneTicketInTwoMatches`.
* `v2/internal/gsdirector/gsdirector.go:1232` speaks of one match in a hundred rejected at random; the
  condition holds for two rolls in a hundred: `CycleMeaning.VerdictMeans`.
* `v2/internal/gsdirector/gsdirector.go:1387` makes a bucket for an expiry stamp when there already is one, which
  empties it: `AssignmentTracking.IndexAgreesIffStampsNeverCollided`. A ticket stays assigned for good exactly when
  another ticket, of any roster, is tracked at its stamp before the stamp expires:
  `AssignmentTracking.TicketLeaksIffItsStampIsUsedAgain`.
* `v2/examples/mmf/functions/fifo/fifo.go:349` says that all rosters are shorter; the function tests whether some
  roster is. Line 149 speaks of enough tickets for rosters of the minimum length; the test is strict. Line 282 says
  that a backfill asks for as many tickets as there are empty slots; it asks for more by a remainder.

## Model

| member | source | states |
|---|---|---|
| Sorting.Sort | defaultevaluator/cmd/default_evaluator.go:67 | sorting by swaps leaves a permutation in which no element should come before an earlier one; equal elements may end in any order |
| Evaluator.Decode | defaultevaluator/cmd/default_evaluator.go:36-59 | the result holds every proposal whose criterion is missing or can be decoded, in order and as often as it is proposed, and no other; a missing criterion scores minus infinity |
| Evaluator.Decollider.MaybeAdd | defaultevaluator/cmd/default_evaluator.go:90-112 | the used tickets are always exactly those of the results, each with its owner's id and score; a match is added exactly when it shares none |
| Evaluator.Evaluate | defaultevaluator/cmd/default_evaluator.go:32-78 | the results are the greedy selection over some sorted order of the decoded proposals |
| EvaluatorOrder.GreedyIsChosen | defaultevaluator/cmd/default_evaluator.go:73-75 | the walk with a table of used tickets accepts exactly the positions that no earlier accepted position collides with |
| EvaluatorOrder.AcceptedSetIsMaximal | defaultevaluator/cmd/default_evaluator.go:67-111 | accepted matches are pairwise disjoint and best first, and each rejected proposal collides with an accepted one of at least its score |
| EvaluatorOrder.EveryRejectedProposalLoses | defaultevaluator/cmd/default_evaluator.go:32-78 | stated on proposals and results: results are decodable proposals, best first and pairwise without a common ticket, and each decodable proposal left out shares a ticket with a result that scores at least as high |
| EvaluatorOrder.ResultsGoByNumber | defaultevaluator/cmd/default_evaluator.go:36-67 | by the numbers that the proposals provide: results never grow, those without a number come after all that have one, and a proposal with a number that is left out shares a ticket with a result whose number is at least its own |
| EvaluatorOrder.ResultsAreProposedThatOften | defaultevaluator/cmd/default_evaluator.go:32-78 | how often a proposal is among the results: as often as proposed if it has no tickets, at most once if it has, never if its criterion cannot be decoded |
| EvaluatorOrder.OutcomeIsOrderIndependentIffTieFree | defaultevaluator/cmd/default_evaluator.go:67 | all orders the sort may leave give the same accepted matches exactly when no two different proposals of one score, neither losing to a better winner, share a ticket; the condition is on the proposals alone |
| EvaluatorOrder.TiesLeaveTheOutcomeToTheSort | defaultevaluator/cmd/default_evaluator.go:67 | a concrete pair of tied proposals whose outcome depends on the sort |
| EvaluatorOrder.AcceptedSetIsTheStableSet | defaultevaluator/cmd/default_evaluator.go:67-111 | without colliding ties the accepted set is the only stable set of the proposals |
| EvaluatorOrder.AcceptedSetDominates | defaultevaluator/cmd/default_evaluator.go:73-111 | where another disjoint choice first differs from the evaluator's, the evaluator has the better match and the other has not |
| EvaluatorOrder.Multiplicity | defaultevaluator/cmd/default_evaluator.go:90-112 | a match with tickets is accepted at most once however often it is proposed, one without tickets always |
| EvaluatorBound.GreedyIsWithinFactorK | defaultevaluator/cmd/default_evaluator.go:67-111 | with at most k tickets a proposal, no disjoint set of proposals is worth more than k times what is accepted |
| EvaluatorBound.AcceptedWorth | defaultevaluator/cmd/default_evaluator.go:111 | the worth that the bound speaks of is the sum of the non-negative scores of the results |
| Fifo.LowestRosterLen | v2/examples/mmf/functions/fifo/fifo.go:339-347 | a lower bound of all roster lengths that is attained unless it is the largest int32 |
| Fifo.RosterLengthsLessThan | v2/examples/mmf/functions/fifo/fifo.go:351-356 | true exactly when some roster is shorter |
| Fifo.CollectTickets | v2/examples/mmf/functions/fifo/fifo.go:120-126 | the tickets are the concatenation of the pools |
| Fifo.FillRosters | v2/examples/mmf/functions/fifo/fifo.go:210-241 | the inner loop ends and deals the first tickets in turn, as many as fit or are left |
| Fifo.BuildMatch | v2/examples/mmf/functions/fifo/fifo.go:153-315 | one match: its score, its backfill request, or its loss when no backfill request can be made |
| Fifo.Run | v2/examples/mmf/functions/fifo/fifo.go:105-336 | the matches sent are the offered ones, up to the first failing send; both loops end |
| FifoTheorems.NumberOfMatches | v2/examples/mmf/functions/fifo/fifo.go:151-331 | closed form of the number of matches: none up to min*n tickets, else the excess over min*n divided by len*n, rounded up |
| FifoTheorems.DealIsSlice | v2/examples/mmf/functions/fifo/fifo.go:151-241 | match k takes a slice of the tickets starting at k*len*n; only the last can be short, and then it takes all |
| FifoTheorems.SlotHolds | v2/examples/mmf/functions/fifo/fifo.go:211-241 | slot j of roster r of match k holds input ticket k*len*n + j*n + r |
| FifoTheorems.EveryDealtTicketHasASlot | v2/examples/mmf/functions/fifo/fifo.go:211-241 | every dealt input position is in a slot |
| FifoTheorems.SlotsDoNotOverlap | v2/examples/mmf/functions/fifo/fifo.go:211-241 | two slots never hold the same input position |
| FifoTheorems.DealsAreAPrefix | v2/examples/mmf/functions/fifo/fifo.go:151-241 | what is sent is a prefix of the collected tickets |
| FifoTheorems.LeftOver | v2/examples/mmf/functions/fifo/fifo.go:151 | at most min*n tickets are left over |
| FifoTheorems.CollectedInOrder | v2/examples/mmf/functions/fifo/fifo.go:120-126 | the tickets collected are those of all pools: ticket i of pool p comes right after all earlier pools and i tickets of its own |
| FifoTheorems.PoolTicketHasASlot | v2/examples/mmf/functions/fifo/fifo.go:120-241 | ticket i of pool p, unless left over, sits in the slot of the match that its position among all pools gives |
| FifoTheorems.EveryTicketIsMatchedOrLeftOver | v2/examples/mmf/functions/fifo/fifo.go:120-331 | every ticket of every pool is in some offered match as often as the pools hold it, but for the last min*n or fewer of those collected |
| FifoTheorems.NoTicketIsSentMoreOften | v2/examples/mmf/functions/fifo/fifo.go:120-331 | whatever is sent, with or without backfill and up to any failing send, holds no ticket more often than the pools do |
| FifoTheorems.RosterShape | v2/examples/mmf/functions/fifo/fifo.go:184-247 | roster sizes differ by at most one, lie between the smaller of min and len, and len; only the last match is short, which its score and its backfill request show |
| FifoTheorems.BackfillOverAsks | v2/examples/mmf/functions/fifo/fifo.go:282-285 | a backfill asks for more tickets than there are empty slots by exactly the tickets seated modulo the number of rosters |
| FifoTheorems.BackfillShrinks | v2/examples/mmf/functions/fifo/fifo.go:284-285 | each requested length is at least one and at least min smaller than the one before |
| FifoTheorems.ChainIsBounded | v2/examples/mmf/functions/fifo/fifo.go:134-151 | fed back into the function, backfill requests end after at most (len-1)/min of them |
| FifoTheorems.WithoutBackfillTheShortMatchIsLost | v2/examples/mmf/functions/fifo/fifo.go:294-298 | a run without the backfill extension offers what one with it does, less the last match exactly when the matches have room for more tickets than there are |
| ChunkedRequest.MergeChunk | v2/examples/mmf/server/server.go:97-114 | in whatever order the pools are walked, a chunk extends known pools and adds new ones, or crashes exactly when it extends a pool without participants |
| ChunkedRequest.GetChunkedRequest | v2/examples/mmf/server/server.go:79-136 | the loop returns what the specification says, including the nil profile when the int32 counter wraps |
| ChunkedRequest.RequestIffComplete | v2/examples/mmf/server/server.go:84-135 | a request comes back exactly when, up to the first chunk that announces its own position, all chunks arrive and none crashes |
| ChunkedRequest.CrashIffABarePoolIsReceivedAgain | v2/examples/mmf/server/server.go:84-121 | the loop ends in the nil dereference exactly when a chunk arrives, before any chunk has announced its own position, with a pool whose first chunk gave it no participants |
| ChunkedRequest.ErrorIffReceivedFirst | v2/examples/mmf/server/server.go:84-135 | an error comes back exactly when it is what a receive returns before the request is complete, or the stream has ended; the nil profile exactly when the counter wraps first |
| ChunkedRequest.PoolsAreConcatenations | v2/examples/mmf/server/server.go:97-114 | a pool is what its first chunk says, with the tickets of all its pieces in the order of arrival |
| ChunkedRequest.ChunksMayComeInAnyOrder | v2/examples/mmf/server/server.go:87-89 | any permutation of the chunks gives the same pool names and the same tickets in each |
| ChunkedRequest.ReassemblyUndoesSplitting | v2/examples/mmf/server/server.go:74-78 | splitting a profile anywhere into any number of chunks and reassembling them gives the profile back |
| AgonesRegistry.MockAgonesIntegration.ProcessGameServerUpdate | v2/internal/gsdirector/gsdirector.go:472-565 | an event removes one server of its spec, if it is registered, and adds one of the new spec, if it has parameters |
| AgonesRegistry.MockAgonesIntegration.UpdateMMFRequest | v2/internal/gsdirector/gsdirector.go:352-407 | moves one server from the old spec to the spec of the new request, whose key is returned |
| AgonesRegistry.MockAgonesIntegration.Allocate | v2/internal/gsdirector/gsdirector.go:765-814 | takes one server of a registered spec; for an absent one returns the empty string and changes nothing |
| AgonesRegistry.MockAgonesIntegration.SpecsByCount | v2/internal/gsdirector/gsdirector.go:839-849 | every registered spec once, server counts never decreasing |
| AgonesRegistry.MockAgonesIntegration.GetMMFParams | v2/internal/gsdirector/gsdirector.go:821-930 | emits every stored request once in that order, and what it writes into the stored extension maps |
| EmittedRequests.EachStoredRequestIsEmitted | v2/internal/gsdirector/gsdirector.go:865-924 | the j-th request stored with the p-th set is emitted once, after those of all earlier sets, with the same functions, profile and pools, the same extensions but for three keys, and there the ready count as an int32, the spec and the label |
| EmittedRequests.EmittingAgainEmitsTheSame | v2/internal/gsdirector/gsdirector.go:869-924 | emitting again emits the very same requests; stored requests with an extension map are left in the form in which they were emitted, others as they were |
| EmittedRequests.LabelsAreHashes | v2/internal/gsdirector/gsdirector.go:434-465 | a match with a next request is allocated by the spec that names this request alone and has its hash for a label; cycles keep every label the hash of the requests its spec names |
| EmittedRequests.NamedRequestsLeadBack | v2/internal/gsdirector/gsdirector.go:442-465 | unless two sets of named requests have one hash, every emitted request leads back to its own servers |
| RegistryTheorems.StoringKeepsCounts | v2/internal/gsdirector/gsdirector.go:869-914 | emitting keeps every key and every count |
| RegistryTheorems.UpdateThenAllocateIsAllocate | v2/internal/gsdirector/gsdirector.go:1302-1347 | an update followed by allocating by the new spec changes counts as allocating by the old spec does; the registries are equal exactly when the new spec is otherwise absent or carries the same request |
| RegistryTheorems.UpdatesSucceedIffServersAreLeft | v2/internal/gsdirector/gsdirector.go:366 | no update of a cycle dereferences nil exactly when each updates a spec whose servers before the cycle, with the earlier draws that end at it, outnumber the earlier draws from it |
| RegistryTheorems.EveryAcceptedMatchGetsAServer | v2/internal/gsdirector/gsdirector.go:1309-1347 | when no update crashes, every allocation succeeds, in any order of the walk, exactly when each spec has a server for each match drawn from it; enough servers rule out the crash |
| RegistryTheorems.CycleTakesOneServerPerMatch | v2/internal/gsdirector/gsdirector.go:1309-1347 | a cycle without a crash takes one server per accepted match from the spec it was drawn from, until that spec has none left; the registry, stored requests included, is the one left by allocating by those specs exactly when every surviving spec that a next request ends at already held the requests it names |
| RegistryTheorems.CycleAddsNoServer | v2/internal/gsdirector/gsdirector.go:1309-1347 | no cycle, however short of servers, leaves a spec with more servers than before |
| RegistryTheorems.BackfillRequestIsGoneAfterTheCycle | v2/internal/gsdirector/gsdirector.go:1309-1347 | a backfill's spec that was not registered before the cycle is not registered after it, in every cycle; when no update crashes it is registered exactly when it had more servers than draws, also in a cycle short of servers |
| RegistryTheorems.RequestLeadsBackIffLabelIsNotReused | v2/internal/gsdirector/gsdirector.go:1153-1158 | an emitted request's hash leads back to its own set exactly when no later set emits a request with that hash |
| RegistryTheorems.DistinctLabelsLeadBack | v2/internal/gsdirector/gsdirector.go:1247-1274 | with distinct labels every emitted request's hash leads to the spec its servers are allocated by |
| AssignmentTracking.SendsAreExclusive | v2/internal/gsdirector/gsdirector.go:1280-1419 | in every history in which no cycle sends a ticket twice, two sends of one ticket are more than the time to live apart, even when expiry stamps collide |
| AssignmentTracking.TrackKeepsAgreementIffStampIsFresh | v2/internal/gsdirector/gsdirector.go:1384-1391 | tracking keeps the map and its index in agreement exactly when the expiry stamp is not in use |
| AssignmentTracking.IndexAgreesIffStampsNeverCollided | v2/internal/gsdirector/gsdirector.go:1384-1419 | over whole histories the assigned ids are exactly the indexed ones, each in one bucket, iff no stamp collided |
| AssignmentTracking.LeakIsForever | v2/internal/gsdirector/gsdirector.go:1384-1419 | an id that has lost its bucket at some moment of a history is assigned, and in no bucket, at every later moment |
| AssignmentTracking.TicketLeaksIffItsStampIsUsedAgain | v2/internal/gsdirector/gsdirector.go:1384-1419 | over whole histories: a tracked ticket loses its bucket, and so stays assigned for good, exactly when another ticket of whatever roster or cycle is tracked at the same stamp before that stamp expires; otherwise it is assigned exactly until its stamp expires |
| AssignmentTracking.RosterTicketLeaksIffReadAgain | v2/internal/gsdirector/gsdirector.go:1384-1391 | the moment a roster has been tracked, a ticket of it has lost its bucket exactly when a later ticket of the roster was tracked while the clock still read the same |
| DirectorModel.AcceptedHasNoAssignedTicket | v2/internal/gsdirector/gsdirector.go:1280-1300 | a ticket assigned when the cycle began is in no accepted match |
| CycleMeaning.VerdictMeans | v2/internal/gsdirector/gsdirector.go:1235-1311 | a proposal is accepted exactly when the roll is two or more, its hash is that of a pending request that names an allocator, and none of its tickets is assigned; from which spec it is drawn, with which next request, and how many assigned tickets are counted otherwise |
| CycleMeaning.AcceptedExactlyWhenEligible | v2/internal/gsdirector/gsdirector.go:1235-1300 | the same for all proposals of a cycle, and what being eligible means |
| CycleMeaning.IdsInOrder | v2/internal/gsdirector/gsdirector.go:1202-1216 | the tickets of a match are those of its rosters, all of them and in order |
| Director.MockDirector.RejectMatch | v2/internal/gsdirector/gsdirector.go:1202-1216 | all tickets of the match are sent for re-activation, assigned ones too, and counted |
| Director.MockDirector.JudgeOne | v2/internal/gsdirector/gsdirector.go:1235-1300 | the verdict on one proposal, in the order of the tests, with its effect on the counters and the re-activated tickets |
| Director.MockDirector.AcceptOne | v2/internal/gsdirector/gsdirector.go:1302-1315 | hands a named next request to the registry; crashes exactly when there is one and the spec is gone |
| Director.MockDirector.EvaluateProposals | v2/internal/gsdirector/gsdirector.go:1218-1321 | the proposals loop refines the verdicts taken with the assignments at its start, and stops exactly at a crash |
| Director.MockDirector.TrackTicket | v2/internal/gsdirector/gsdirector.go:1385-1390 | the maps stay what the logged history leaves, and the event is a valid one |
| Director.MockDirector.TrackRoster | v2/internal/gsdirector/gsdirector.go:1384-1391 | the tickets of a roster are tracked in order, each at its reading of the clock, and nothing else changes |
| Director.MockDirector.AssignMatch | v2/internal/gsdirector/gsdirector.go:1360-1403 | each roster is sent once; exactly the tickets of the rosters whose send succeeds are tracked and counted |
| Director.MockDirector.AllocateMatches | v2/internal/gsdirector/gsdirector.go:1340-1405 | in whatever order the accepted matches are walked, each takes its server and has each roster sent once, or gives its tickets back; exactly the successful sends are in the history |
| Director.MockDirector.ExpireAssignments | v2/internal/gsdirector/gsdirector.go:1409-1419 | drops overdue buckets and their ids only; afterwards no bucket is older than the start of the pass |
| Director.MockDirector.ReclaimMemory | v2/internal/gsdirector/gsdirector.go:1425-1440 | copying the maps while clearing them leaves both unchanged |
| Director.MockDirector.RunCycle | v2/internal/gsdirector/gsdirector.go:1019-1444 | one whole cycle: requests registered, verdicts, registry, re-activated tickets, counters, sends and history; at its end no overdue bucket is left from before, and map and index agree iff no stamp collided; without a crash each spec has lost a server for each match drawn from it, while it had any, and none has gained one |
| Director.MockDirector.Run | v2/internal/gsdirector/gsdirector.go:1019-1444 | over every run: cycles whose proposals share no ticket send none twice; and then two sends of one ticket are more than the time to live apart, and map and index agree iff no stamp collided; a run without a crash ends with no more servers of any spec, and no new spec |
| DirectorTheorems.TicketsAreConserved | v2/internal/gsdirector/gsdirector.go:1202-1355 | the tickets of all proposals are, as multisets, those re-activated and those of matches that got a server; only the latter are sent |
| DirectorTheorems.WithoutFailuresAllServedAreSent | v2/internal/gsdirector/gsdirector.go:1340-1391 | when every send succeeds, the tickets sent are exactly those of the matches that got a server |
| CycleMeaning.SentExactlyWhenTheSendSucceeds | v2/internal/gsdirector/gsdirector.go:1360-1391 | each roster of each served match is sent once, in the order of the walk, and a ticket counts as sent exactly when it is on a roster whose send succeeds |
| CycleMeaning.ServedIffServersAreLeft | v2/internal/gsdirector/gsdirector.go:1340-1355 | a match gets a server exactly when its spec has more servers than matches of that spec come before it in the walk |
| DirectorTheorems.CountersAgree | v2/internal/gsdirector/gsdirector.go:1027-1034 | the three ticket counters agree with the tickets re-activated, and rejected plus served matches are the proposals |
| CycleMeaning.OtherCountersAgree | v2/internal/gsdirector/gsdirector.go:1280-1315 | the counters of matches rejected for assigned tickets, of their tickets, of the assigned ones among them and of next requests are what the verdicts say |
| DirectorTheorems.JudgingCrashesIffNoServerIsLeft | v2/internal/gsdirector/gsdirector.go:366 | judging dereferences nil exactly when some match with a next request is drawn from a spec with no server left by then, counted from the registry before the cycle and the earlier draws |
| DirectorTheorems.CycleServesEveryAcceptedMatch | v2/internal/gsdirector/gsdirector.go:1340-1355 | a cycle that does not crash serves every accepted match exactly when each spec had a server for each match drawn from it; in any case each spec keeps the servers left when every match takes one of the spec it was drawn from, while there are any, with the exact condition for the registry to be the same as after allocating by those specs |
| DirectorTheorems.AcceptedOnceIffProposedOnce | v2/internal/gsdirector/gsdirector.go:1280-1300 | no rolls make a cycle accept a ticket twice exactly when the ticket occurs at most once among the eligible proposals |
| DirectorTheorems.SentOnceIffProposedOnce | v2/internal/gsdirector/gsdirector.go:1280-1391 | with no failing send: a ticket that occurs at most once among the eligible proposals is never sent twice, whatever the rolls, the walk and the servers; any rolls that accept it twice and have servers for what they accept send it twice; with servers for all eligible proposals it is never sent twice exactly when it occurs at most once |
| DirectorTheorems.OneTicketInTwoMatches | v2/internal/gsdirector/gsdirector.go:1285 | two concrete proposals with one ticket, and two servers: a cycle sends the ticket with both |
| DirectorTheorems.TwoBackfillsFromOneServer | v2/internal/gsdirector/gsdirector.go:366 | two concrete proposals with backfill requests, and one server for them: accepting the second dereferences nil |
| ByteSub.ByteSub.AnnounceLatest | demoui/bytesub.go:39-45 | replaces the value and the channel and closes the old channel, which is never closed before |
| ByteSub.ByteSub.Subscribe | demoui/bytesub.go:57-79 | under any schedule the loop does what its turns say, down to the last write, and that is a possible run of the step system |
| ByteSub.StepKeepsInv | demoui/bytesub.go:39-79 | every step of every process keeps the invariant, and no channel is closed twice |
| ByteSub.EveryInterleaving | demoui/bytesub.go:53-56 | a channel is closed iff its generation is over; each subscriber writes announced values of growing generations; one parked on an open channel has written the latest value unless that is nil |
| ByteSub.ReturnsExactlyWhenEnded | demoui/bytesub.go:61-78 | in every interleaving a subscriber has returned with an outcome exactly when it was cancelled, a write failed, or a write was partial; from then on it takes no step and makes no call |
| ByteSub.TurnWritesTheLatestAndReturnsOnFailure | demoui/bytesub.go:61-78 | a turn of the loop writes exactly when it is not cancelled and finds a value newer than the last it read, and then the latest; it ends the loop exactly on cancellation, a failed or a partial write |
| ByteSub.EveryWriteIsACall | demoui/bytesub.go:69 | a subscriber has made as many calls as it took write steps, whatever their results |
| ByteSub.HistoryIsAnnounced | demoui/bytesub.go:39-45 | the history is all that was announced, in order |
| ByteSub.AtMostOneStaleWrite | demoui/bytesub.go:53-56 | once announcing stops a subscriber makes at most two more writes, the second of the latest value |
| ByteSub.RunningIsParkedOrCanMove | demoui/bytesub.go:61-78 | a running subscriber not parked on the current channel always has a step of its own |
| Updater.FoldIsLastWrite | demoui/updater.go:88-92 | the map holds for each field exactly what the last update of it set |
| Updater.Updater.ApplyAllWaitingUpdates | demoui/updater.go:95-107 | takes the waiting updates in order and passes nothing on |
| Updater.Updater.Start | demoui/updater.go:79-109 | the maps given to set are the folds of strictly growing prefixes of the updates: the first empty, one more for each run of updates that wait together, the last complete; nil follows cancellation |
| Updater.AllSentAreReceived | demoui/updater.go:82-107 | the updates received are all those sent before the context is done, in order |
| Updater.SetIsCalledOnceForEachRun | demoui/updater.go:80-107 | after the first call set is called exactly once for each run of waiting updates, when none waits any more, with all updates up to there |
| Pipeline.StepKeepsInv | demoui/updater.go:65-109 | every step of a tree of updaters and subscribers keeps each parent in step with its nested updaters and the broadcast in step with the root |
| Pipeline.WritesAreGrowingStates | demoui/updater.go:40-45 | all a subscriber writes are renderings of the root's folds of strictly growing prefixes, or null after cancellation |
| Pipeline.LastWriteIsTheWholeTree | demoui/updater.go:22-24 | once all is at rest a parked subscriber's last write renders the whole tree, each field as last set, through any depth of nesting and without the fields of cancelled nested updaters; or null, if the root was cancelled |
| PipelineProgress.QuietTreesComeToRest | demoui/updater.go:58-109 | while nothing is sent, nested or cancelled, the updaters of a tree take only a bounded number of steps, and one that is not at rest can always take another: trees neither block nor run for ever |
| PipelineProgress.TreeHoldsWhatWasSent | demoui/updater.go:49-70 | a tree consists of the updaters nested, and stands for all that was sent directly to each of them |
| ActivationBatcher.CreateBatches | v2/internal/omclient/omclient.go:181-223 | the nested loops refine the step function on every schedule |
| ActivationBatcher.IdsInOrder | v2/internal/omclient/omclient.go:190-218 | dispatched and open batches hold the received ids in order, followed only by the empty ids a closed channel yields |
| ActivationBatcher.NothingIsLostIffNoIdIsEmpty | v2/internal/omclient/omclient.go:198-216 | stripped of empty ids the batches are the received ids exactly when no received id is empty; at the end none is undispatched |
| ActivationBatcher.BatchesFitIffLimitIsPositive | v2/internal/omclient/omclient.go:198-216 | all batches of all schedules hold between one and limit ids exactly when the limit is positive |
| ActivationBatcher.BatchesFit | v2/internal/omclient/omclient.go:203-207 | an open batch is below the limit, and without a deadline every dispatched batch is full |
| ActivationBatcher.OpenSinceDeadline | v2/internal/omclient/omclient.go:190-216 | the open batch has the ids received since the last deadline less full batches: nothing waits after a deadline |
| ActivationBatcher.StopsWithTheFirstBatchAfterClosing | v2/internal/omclient/omclient.go:190-218 | the goroutine ends exactly with the first batch that ends once the channel is closed |
| ActivationBatcher.CreatedTicketsAreActivated | v2/internal/mmqueue/mmqueue.go:134-143 | the ids sent on are all those of created tickets, and at every moment those that the channel has passed on are in the batches, once each and in order, and fewer than the limit of them wait |
| AssignmentReceiver.StepKeepsInv | v2/internal/mmqueue/mmqueue.go:142-241 | every step keeps each stored ticket in one place: tracked, held by one handler, or counted once |
| AssignmentReceiver.AssignmentsAreCountedOnce | v2/internal/mmqueue/mmqueue.go:205-241 | in every interleaving no ticket is counted twice and assigned and tracked tickets are disjoint; at rest the stores are tracked plus counted and the delivered tickets counted plus failures |
| AssignmentReceiver.BalanceIsOfAllSteps | v2/internal/mmqueue/mmqueue.go:142-215 | the stored and delivered tickets of that balance are all that were created and delivered |
| AssignmentReceiver.CountedIffLookedForAfterStored | v2/internal/mmqueue/mmqueue.go:143-144 | a created ticket's assignment is counted exactly when a handler looks for it after it was stored; one that comes earlier is lost |
| AssignmentReceiver.AssignmentBeforeStoreIsLost | v2/internal/mmqueue/mmqueue.go:143-144 | a concrete interleaving in which the handler looks for the ticket before it is stored: nothing is counted, and the ticket stays tracked with no handler left |
| AssignmentReceiver.MatchmakerQueue.HandlerStep | v2/internal/mmqueue/mmqueue.go:220-232 | each access of a handler to the maps and counters is one step of the system |
| AssignmentReceiver.MatchmakerQueue.AssignmentHandler | v2/internal/mmqueue/mmqueue.go:205-241 | with other goroutines acting between its accesses, the loop is a possible run that works off the roster |

## Left out

- Fifo.Run: does not model numbers of rosters or roster lengths below one (division by zero at fifo.go:221, or a loop that never fills), nor a negative minimum length, with which the outer loop never ends, nor the package-level defaults that keep the last request's parameters (fifo.go:70-72); the three numbers are parameters.
- Fifo.BuildMatch: rosters are a sequence indexed by roster number instead of a map by generated names, and the ids of matches are left out; a request without any extensions map, whose write at fifo.go:172 panics, is not modelled; nor is the extensions map that all matches of a run share with the request (fifo.go:170): every match also carries the request's template for backfills, whose profile has no name.
- Evaluator.Evaluate: NaN and plus infinity are no scores here.
- AssignmentTracking.TwoTicketsAtOneInstant: a history of the tracking maps alone; which tickets it happens to is `AssignmentTracking.TicketLeaksIffItsStampIsUsedAgain`.
- AgonesRegistry.MockAgonesIntegration.UpdateMMFRequest: requires the old spec to be registered, as the program dereferences nil otherwise; the director's crash on that path is modelled in `Director.MockDirector.AcceptOne`.
- Pipeline.LastWriteIsTheWholeTree: a field set by a nested updater belongs to it for good, also after it has stopped; two writers of one field are not modelled.
- AgonesRegistry.MockAgonesIntegration.GetMMFParams: extension maps are values, so maps shared between requests (gsdirector.go:698) and the aliasing of stored and emitted maps are not captured.
- DirectorModel.AcceptedHasNoAssignedTicket: `assignments` maps to booleans that are all true, and is modelled as its key set.
- Failures of JSON or protobuf marshalling, whose `continue` at gsdirector.go:495 and 538 leaves the updater waiting.
- `Init` of the registry, where a struct without exported fields is hashed; cycles start from any well-formed registry.
- The fan-in goroutines of the director's cycle: its proposals are an arbitrary sequence of matches.
- The sleep between cycles and the backoff factor computed from a division that may be by zero; retries of calls.
- HTTP, gRPC, Pub/Sub, Kubernetes clients, telemetry, logging and configuration.
- Readers of the registry's mutex: each registry operation is atomic, as the director calls them one after the other.
- Limits on concurrent ticket creation: the slot at mmqueue.go:123-154 is released at once and bounds nothing.
- The other example matchmaking functions, `firstmatch`, the mock game clients and the extension helpers.
