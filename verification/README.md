# Verified model of the game server's protocol and account state

This project models the stateful core of the game server in Dafny and proves what that
state keeps over whole runs. It covers the reliable delivery of the rebroadcaster, the
FESL framing and fragment reassembly, the arbitration of race results, the skill rating,
the social graph and session memberships, recent players, account session leases, failed
logins, player ids and session tokens, downloadable-content selectors, the signed line
channel between the processes, the policy-event follower and the session-object scanner.
`dafny verify dfyconfig.toml` checks everything.

Each component has the same three layers. Functions over values say what every operation
does. Classes with the fields of the source, and methods with the loops of the source, are
proved to do exactly that. Lemmas prove what the source promises about those functions,
for every input, every run and every interleaving.

| component | modules |
|---|---|
| text, options, sequences, big-endian words | `Options`, `Collections`, `LatinText`, `Words` |
| FESL framing, fragments, reassembly | `Base64`, `FeslFields`, `FeslStream`, `FeslReassembly`, `FeslInterleaving`, `FeslWire` |
| confirmation windows and their retries | `Retry`, `Confirmations`, `ConfirmationRuns`, `ConfirmationDeadlines`, `ConfirmationReplies`, `ConfirmationEffects`, `ConfirmationManager` |
| AI car registration | `AiWindows`, `AiRuns`, `AiRegistration`, `AiEffects` |
| race results | `RaceResults`, `RaceRuns`, `RaceFinal`, `RaceNinth`, `RaceEvidence`, `RaceConsensus`, `RacePublished`, `RaceTracker` |
| skill rating | `SkillLevels`, `SkillGains` |
| friends and blocks, two implementations | `SocialGraph`, `SocialEffects`, `SocialAgreement`, `SocialService` |
| session memberships and player lists | `SessionMembership` |
| recent players | `RecentPlayers`, `RecentRuns`, `RecentHistory`, `RecentStore` |
| session leases | `SessionLeases`, `LeaseRuns`, `LeaseEffects`, `SessionRegistry` |
| failed logins | `LoginLockouts`, `LockoutCounts` |
| player and profile ids, session tokens | `WireIds`, `ForcedLogoffs` |
| downloadable-content selectors | `DlcCatalog`, `DlcAdmin`, `DlcLocks`, `DlcEffects` |
| signed line channel | `IpcLines`, `IpcCuttings`, `IpcReplay`, `IpcAuthentic` |
| session objects | `SessionObject`, `SessionRewrite`, `SessionWire` |
| policy events and the close gate | `PolicyEvents` |

## Where the code does less than its surroundings say

The model follows the code. In these places the proofs show that the expected law needs a
condition, which is then stated exactly.

- Social backends (`SocialAgreement.StepAgreesIff`): the dictionaries accept personas that
  the table does not know, so answers agree exactly for comparable operations.
- Rating (`SkillLevels.LawIff`, `SkillLevels.ThreePlayersCanLose`): the sequential
  redistribution can push an entry out of the range again after it was cut, and the final
  clamp then loses or adds points. `SkillLevels.FinalTotal` says how many.
- Race results (`RaceFinal.NativeRace`, `RaceNinth.NineFinishers`): more than eight finish
  signals can put a participant behind the eighth place, and then a complete race never
  finalizes.
- FESL messages (`FeslReassembly.LookalikeIsHeld`): a message small enough to be sent whole
  that has both a "data" and a "size" field is taken for a fragment and held back;
  `FeslInterleaving.InterleavedRoundTrip` covers all others.
- FESL streams (`FeslStream.ReturnedAlikeIff`): the call that meets an invalid frame raises
  and loses the frames it had decoded, so what a caller receives of such a stream depends
  on the cutting.
- Session leases (`LeaseRuns.AlwaysClearIff`): an account with a lease can fill in a blocked
  address, or be replaced with one, and keeps the lease until its next heartbeat.
- Catalog loading (`DlcCatalog.NoCyclesAfterLoading`): a preset key that starts with a
  hyphen is checked under the key without it, so its cycle can stay hidden.
- Locking (`DlcLocks.LocksHoldIff`, `DlcAdmin.RawTokenLock`): in a catalog with hyphen keys
  a removal written with its hyphen can be accepted and undo the lock before it; without
  such keys it is refused. And the command folds case while raw tokens keep theirs.
- Signed lines (`IpcCuttings.CuttingsAgreeIff`): a blank line is accepted before its
  length is looked at, but the unfinished buffer is not, so a long one gets through or not
  depending on how the bytes arrive.
- Session memberships (`SessionMembership.CarbonRowStays`): the comment in
  server/common/social.py:750-751 expects peers to receive a removal; for the game
  "carbon" none is published. And a member who is not online is announced to the peers, but
  is not among the rows taken from a peer who leaves (`SessionMembership.RowsInStepIff`).
- Player ids (`WireIds.ProbeEndsIff`): the in-memory probe has no bound and never ends
  once every id has an owner; the SQL allocators raise instead.
- Lockouts (`LoginLockouts.WaitIsEnoughIff`): the advised waiting time is rounded so that
  it can end up to a millisecond before the lock does.

## Model

| member | source | states |
|---|---|---|
| `FeslFields.ReadFields` | server/carbon/fesl/frame.py:41-51 | the loop over cut pieces builds the dictionary of `DecodeFields` |
| `FeslFields.DecodeEncodeFields` | server/carbon/fesl/frame.py:32-51 | round trip: reading an encoded list of clean fields gives exactly the dictionary the assignments make, later keys winning |
| `FeslFields.DecodeIgnoresFinalNul` | server/carbon/fesl/frame.py:41-51 | one terminating NUL more or less does not change what a body says |
| `Base64.DecodeEncode` | server/carbon/fesl/frame.py:86-123 | the Base64 of RFC 4648 section 4 is inverted by validating decoding, for every byte string |
| `Base64.EncodeLength` | server/carbon/fesl/frame.py:86-123 | an encoding is 4/3 of its input rounded up to whole groups, so the announced sizes are right |
| `Base64.EncodeText` | server/carbon/fesl/frame.py:86-123 | an encoding holds only symbols and padding, so it survives the field syntax once `=` is escaped |
| `FeslStream.FESLStreamDecoder.Feed` | server/carbon/fesl/frame.py:157-167 | the buffer loop does what `Drain` does to the buffered and new bytes, or reports the frame error |
| `FeslStream.DecodeOneExtends` | server/carbon/fesl/frame.py:126-147 | more bytes never change a decision already made on a prefix |
| `FeslStream.ChunkingIsIrrelevant` | server/carbon/fesl/frame.py:150-167 | however TCP cuts a stream, the pieces succeed exactly when the whole does, with the same frames and the same bytes left over |
| `FeslStream.StreamRoundTrip` | server/carbon/fesl/frame.py:64-72 | encoded valid frames within the limit come back, all of them, in order, with nothing left over, however the stream was cut |
| `FeslStream.ReturnedIsBeginning` | server/carbon/fesl/frame.py:157-167 | a caller receives a beginning of the decoded frames, all of them when the stream is valid |
| `FeslStream.ReturnedAlikeIff` | server/carbon/fesl/frame.py:157-167 | what a caller receives does not depend on the cutting if and only if the stream is valid or its very first frame is invalid |
| `FeslReassembly.FESLConnection.Complete` | server/carbon/fesl/service.py:346-447 | the method with its early returns changes the buffers and answers as `CompleteFields` |
| `FeslReassembly.FragmentFields` | server/carbon/fesl/frame.py:86-123 | what the receiver reads from any fragment is exactly what the sender put into it |
| `FeslReassembly.UnescapeEscaped` | server/carbon/fesl/service.py:394-394 | undoing the escaped padding gives the Base64 text back |
| `FeslReassembly.AnyTrafficIsBounded` | server/carbon/fesl/service.py:368-420 | whatever frames arrive, at most eight buffers are open, each ASCII, short of its announced size and within the 2 MiB limit |
| `FeslReassembly.StoreKeepsBounds` | server/carbon/fesl/service.py:382-393 | with eight buffers open a fragment of a ninth message is refused and changes nothing |
| `FeslInterleaving.InterleavedRoundTrip` | server/carbon/fesl/service.py:346-447 | any interleaving of messages of every size that keeps each message's own frame order, never more than eight split ones open: only the last or only frame of a message answers, with exactly the fields of the original payload, and the buffers hold the received prefixes of the open messages and nothing else; a message that is not split is one that cannot be taken for a fragment |
| `FeslReassembly.PlainFrameAnswered` | server/carbon/fesl/service.py:351-353 | a frame that lacks "data" or "size" is answered at once with its own fields and changes no buffer |
| `FeslReassembly.RequestArrives` | server/carbon/fesl/service.py:351-353 | a request of clean fields without "data" or without "size" arrives as exactly those fields, whatever is open |
| `FeslReassembly.LookalikeIsHeld` | server/carbon/fesl/service.py:351-353 | a small request that has both keys is taken for a fragment and held back on a fresh connection |
| `FeslReassembly.OtherTransfersUntouched` | server/carbon/fesl/service.py:354-447 | a frame touches no transfer but that of its own command and transaction |
| `FeslReassembly.FragmentKeptIff` | server/carbon/fesl/service.py:354-447 | exactly which fragments are refused and end their transfer, which are kept behind what was there, and which complete it |
| `FeslReassembly.FinishedIff` | server/carbon/fesl/service.py:421-447 | a complete transfer is answered with the fields of its bytes unless another length was announced |
| `FeslWire.FrameLayout` | server/carbon/fesl/frame.py:25-72 | command, transaction and total length as big-endian words, and payload at their places in the bytes of a frame, and which frames have bytes at all |
| `FeslWire.HeaderSays` | server/carbon/fesl/frame.py:126-147 | when the first bytes of a buffer are a frame, an error, or not enough yet, by the numbers they hold |
| `FeslWire.PacketsIff` | server/carbon/fesl/frame.py:86-123 | a frame goes out as it is up to the limit, and otherwise in marked fragments whose slices are all full but the last; a limit that is not positive is refused |
| `Retry.RetrySchedule.DeferFrom` | server/carbon/rebroadcaster/retry.py:69-74 | a deferral moves only the next send, never past the deadline |
| `Retry.RetrySchedule.RecordRetry` | server/carbon/rebroadcaster/retry.py:76-85 | a retry counts and backs off, and is refused without a change when the schedule is exhausted |
| `Retry.ScheduleBudget` | server/carbon/rebroadcaster/retry.py:43-85 | over any visits and deferrals a schedule sends no more than the attempts it has left, only before its deadline, and the deadline never moves |
| `Retry.SendsAreSpaced` | server/carbon/rebroadcaster/retry.py:69-85 | two sends of one schedule are at least the initial delay apart |
| `Retry.DelayDoubles` | server/carbon/rebroadcaster/retry.py:76-85 | the wait starts at the initial delay and doubles with every retry up to the maximum |
| `Retry.DueIff` | server/carbon/rebroadcaster/retry.py:32-85 | at which moments a new, a retried and a deferred schedule are due |
| `Confirmations.WrappedOrder` | server/carbon/rebroadcaster/confirmations.py:60-68 | for true counters less than 2^27 apart both 28-bit tests are integer order |
| `ConfirmationManager.Manager.ObserveInbound` | server/carbon/rebroadcaster/confirmations.py:70-112 | acknowledgement, duplicate test and the 256 most recent fingerprints |
| `ConfirmationManager.Manager.RegisterWindow` | server/carbon/rebroadcaster/confirmations.py:114-159 | a window is retained once; registering an equal open one returns that one |
| `ConfirmationManager.Manager.AcknowledgeWindows` | server/carbon/rebroadcaster/confirmations.py:173-216 | retires covered windows, keeps application windows as acknowledged, and only a newer ACK raises the high water |
| `ConfirmationManager.Manager.ConfirmApplicationStage` | server/carbon/rebroadcaster/confirmations.py:218-246 | drops the application windows of one label |
| `ConfirmationManager.Manager.PollWindows` | server/carbon/rebroadcaster/confirmations.py:262-309 | the timer loop over one endpoint's windows: the replies are the complete records, window by window in registration order, of exactly those not acknowledged, with a retry left, before the deadline and no longer waiting, and each of these counts one retry more |
| `ConfirmationManager.Manager.PollEverything` | server/carbon/rebroadcaster/confirmations.py:248-312 | every wired endpoint is polled that way, and the windows of the others are forgotten |
| `ConfirmationManager.Manager.Replay` | server/carbon/rebroadcaster/confirmations.py:314-354 | a client-triggered replay sends the complete records of exactly the windows not acknowledged, in registration order; live ones wait again and those that ran out start afresh |
| `ConfirmationReplies.PollSends` | server/carbon/rebroadcaster/confirmations.py:262-309 | the specification of a poll sends those records, by the windows' fields |
| `ConfirmationReplies.ReplaySends` | server/carbon/rebroadcaster/confirmations.py:327-344 | the specification of a replay sends those records, by the windows' fields |
| `ConfirmationReplies.PollLeaves` | server/carbon/rebroadcaster/confirmations.py:262-309 | what a poll does to each window in its place |
| `ConfirmationReplies.ReplayLeaves` | server/carbon/rebroadcaster/confirmations.py:337-344 | what a replay does to each window in its place |
| `ConfirmationEffects.RegisterIff` | server/carbon/rebroadcaster/confirmations.py:114-159 | a window is opened exactly when some record is not empty and the same one is not open: behind the others, with what it was registered with and a fresh schedule |
| `ConfirmationEffects.InboundEffect` | server/carbon/rebroadcaster/confirmations.py:70-112 | the wire state after a packet, which otherwise acknowledges |
| `ConfirmationEffects.HighWaterIs` | server/carbon/rebroadcaster/confirmations.py:161-171 | for true counters less than 2^27 apart the high water is the greatest acknowledgement |
| `ConfirmationEffects.AcknowledgedIs` | server/carbon/rebroadcaster/confirmations.py:173-216 | what an acknowledgement makes of every open window |
| `ConfirmationEffects.ClearEffect` | server/carbon/rebroadcaster/confirmations.py:359-362 | clearing forgets windows, high water and fingerprints of one endpoint only |
| `ConfirmationManager.Manager.Clear` | server/carbon/rebroadcaster/confirmations.py:359-362 | forgets everything about an endpoint and nothing about others |
| `ConfirmationRuns.ValidAfter` | server/carbon/rebroadcaster/confirmations.py:35-362 | every step keeps the invariant: distinct windows, sound schedules, acknowledged windows marked |
| `ConfirmationRuns.DisappearsOnlyIf` | server/carbon/rebroadcaster/confirmations.py:173-246 | a window disappears if and only if an ACK covers it and it waits for no application stage, its label is confirmed, its endpoint is cleared, or a poll finds the endpoint unwired |
| `ConfirmationRuns.CoveredIsNeverSentAgain` | server/carbon/rebroadcaster/confirmations.py:248-354 | once an ACK covered a window, no poll or replay of any later run sends it |
| `ConfirmationRuns.RetryBudget` | server/carbon/rebroadcaster/confirmations.py:279-344 | over any run a window's poll sends are at most maximum_retries times one plus its replays |
| `ConfirmationDeadlines.PollsEndAtDeadline` | server/carbon/rebroadcaster/confirmations.py:248-354 | over any run of the manager every poll that sends a window comes before the last deadline that its opening, or a replay after exhaustion, gave it |
| `AiWindows.PacketAt` | server/carbon/rebroadcaster/ai_registration.py:190-230 | packet q of a window has the q-th number modulo 2^28, the right history count and its messages newest first: 0, 1, 1, …, 2 |
| `AiWindows.RecordIsInTwoPackets` | server/carbon/rebroadcaster/ai_registration.py:190-230 | every record is among the records of its own packet and of the next one |
| `AiWindows.RecoveredIff` | server/carbon/rebroadcaster/ai_registration.py:190-230 | from any set of received packets of a window, the message with a number can be read by number and history count exactly when its own packet, the next one, or for the last record but one the last one, is among them |
| `AiWindows.HoldsOnly` | server/carbon/rebroadcaster/ai_registration.py:190-230 | a packet never holds another message under a number of the window |
| `AiWindows.AnyOneLossIsCovered` | server/carbon/rebroadcaster/ai_registration.py:190-230 | losing any one packet of a window loses no record |
| `AiRegistration.CurrentBodyIgnoresHistory` | server/carbon/rebroadcaster/ai_registration.py:45-57 | the body cut out is complete, a prefix, of bounded length, and the same whatever follows it |
| `AiEffects.BodyIff` | server/carbon/rebroadcaster/ai_registration.py:45-57 | a body is cut out exactly when the message begins with well-formed bytes, and it is those bytes |
| `AiEffects.SanitizedBytes` | server/carbon/rebroadcaster/ai_registration.py:78-80 | only the four bytes of the controller are cleared |
| `AiRegistration.SanitizedIsBody` | server/carbon/rebroadcaster/ai_registration.py:78-80 | clearing the controller leaves a valid body of the same car, and clearing twice is clearing once |
| `AiRegistration.AdmissionOnce` | server/carbon/rebroadcaster/ai_registration.py:70-82 | each positive car id is admitted once, with the body of the first message that asked for it |
| `AiRegistration.RelaysAdmitOnce` | server/carbon/rebroadcaster/ai_registration.py:70-82 | over any run of relays the registry only grows, keeps each car's first body, and knows every car asked for |
| `AiEffects.AdmittedAppends` | server/carbon/rebroadcaster/ai_registration.py:70-82 | cars are admitted in the order in which messages ask for them |
| `AiRegistration.Bodies` | server/carbon/rebroadcaster/ai_registration.py:84-92 | the records of a window are the bodies of the cars, all of them and in order |
| `AiRegistration.Endpoint.AppendWindow` | server/carbon/rebroadcaster/ai_registration.py:169-238 | new numbers move the counter just past the window's last; a retry takes the given ones and moves nothing |
| `AiRegistration.Race.Relay` | server/carbon/rebroadcaster/ai_registration.py:59-103 | one window with exactly the newly admitted cars at every destination, none when nothing is new |
| `AiRegistration.Race.RefreshReadyGuests` | server/carbon/rebroadcaster/ai_registration.py:118-167 | the whole registry once, to guests without an open window |
| `AiRegistration.Endpoint.UpdateDelivery` | server/carbon/rebroadcaster/ai_registration.py:240-340 | the three loops of the source do what the one-pass specification says |
| `AiRegistration.StagesAgree` | server/carbon/rebroadcaster/ai_registration.py:258-311 | filtering by ACK and then by exhaustion leaves the survivors and reports failure exactly when an unconfirmed window was exhausted |
| `AiRuns.SentIff` | server/carbon/rebroadcaster/ai_registration.py:313-324 | a retry walk sends a window exactly when forced, or when it is the first and due |
| `AiEffects.UpdateOf` | server/carbon/rebroadcaster/ai_registration.py:253-340 | what an update makes of each open window and sends of it, by the window's fields: gone, kept, or sent once with all its packets and one retry more |
| `AiEffects.OpenOf` | server/carbon/rebroadcaster/ai_registration.py:87-103 | a new window takes the next numbers and all records, with a fresh schedule and its first datagram |
| `AiEffects.RefreshOf` | server/carbon/rebroadcaster/ai_registration.py:118-167 | a guest is refreshed once, when it has nothing open |
| `AiRuns.StepKeepsValid` | server/carbon/rebroadcaster/ai_registration.py:169-238 | windows of an endpoint never overlap in number, and the wire counter stays the true counter modulo 2^28 |
| `AiRuns.LeavesOnlyWhenDone` | server/carbon/rebroadcaster/ai_registration.py:253-311 | a pending window leaves if and only if it is acknowledged, its race is over (or reset), or it is exhausted, and exhaustion is reported |
| `AiRuns.AcknowledgedMeans` | server/carbon/rebroadcaster/ai_registration.py:342-345 | while the counters are less than 2^27 apart, acknowledged means acknowledged up to the window's last number |
| `AiRuns.GoneStaysGone` | server/carbon/rebroadcaster/ai_registration.py:253-340 | a window that left is never sent again |
| `AiRuns.OpenWindowFuture` | server/carbon/rebroadcaster/ai_registration.py:288-324 | an open window is sent again no more often than its schedule allows, under the same numbers with the same records, and before its deadline |
| `AiRuns.NewWindowFuture` | server/carbon/rebroadcaster/ai_registration.py:87-103 | whatever is sent under one number over a whole run is one window, at most nine times, within thirty seconds of the first |
| `SocialService.DictionaryService.RequestFriend` | server/common/social.py:1048-1076 | the dictionary request as a step of the graph |
| `SocialService.DictionaryService.RespondFriend` | server/common/social.py:1078-1097 | the dictionary response as a step of the graph |
| `SocialService.DictionaryService.RemoveFriend` | server/common/social.py:1099-1120 | the dictionary removal as a step of the graph |
| `SocialService.DictionaryService.SetBlocked` | server/common/social.py:1122-1155 | the dictionary block as a step of the graph |
| `SocialService.TableService.RequestFriend` | server/common/social.py:268-337 | the SQL request as a step of the relation table |
| `SocialService.TableService.RespondFriend` | server/common/social.py:339-371 | the SQL response as a step of the relation table |
| `SocialService.TableService.RemoveFriend` | server/common/social.py:373-397 | the SQL removal as a step of the relation table |
| `SocialService.TableService.SetBlocked` | server/common/social.py:399-438 | the SQL block as a step of the relation table |
| `SocialGraph.PairAfter` | server/common/social.py:1048-1155 | the three relations of every pair after a step, in terms of those before |
| `SocialGraph.StaysConsistent` | server/common/social.py:1048-1155 | friendship stays symmetric, no pair is pending both ways, and the relations of a pair exclude each other |
| `SocialEffects.EffectOf` | server/common/social.py:1048-1155 | the relations of every pair after an operation from the relations before it: who befriends, asks, declines, ends and blocks, without a look at the answer |
| `SocialEffects.AcceptedIff` | server/common/social.py:1048-1155 | when an operation is accepted |
| `SocialEffects.ChangedIff` | server/common/social.py:1048-1155 | an operation reports a change exactly when some relation changed |
| `SocialEffects.ReasonIff` | server/common/social.py:1048-1155 | the exact condition of every reason |
| `SocialAgreement.RowsAfter` | server/common/social.py:268-438 | the rows of every pair after a step are the relations the graph has after it, and the answer is the same |
| `SocialAgreement.StepAgreesIff` | server/common/social.py:268-438 | both implementations answer a step alike if and only if it is comparable: removals, missing or equal names, or two registered personas |
| `SocialAgreement.RunsAgree` | server/common/social.py:1048-1182 | from empty relations a run is answered alike if and only if all its steps are comparable, and then both hold the same relations |
| `SocialAgreement.BlocksAgree` | server/common/social.py:1157-1182 | the delivery filter reads the same from both |
| `SessionMembership.SessionTable.SetGameSession` | server/common/social.py:610-689 | the membership change with its early returns and what it announces |
| `SessionMembership.SessionTable.ClearGameSession` | server/common/social.py:691-699 | clearing is asking for no session |
| `SessionMembership.RequestLeaves` | server/common/social.py:610-689 | a request leaves its connection with what it asked for and every other one as it was |
| `SessionMembership.RequestAnnounces` | server/common/social.py:633-679 | the departure and the entry a request announces, exactly when no other connection has the membership, each to the other personas of the session |
| `SessionMembership.EventsBalance` | server/common/social.py:633-679 | over any run enter events minus leave events of a membership are 1 if some connection holds it and 0 otherwise |
| `SessionMembership.EventsAlternate` | server/common/social.py:633-679 | at every moment of a run, within one request too, a membership is entered or not: no double entry, no departure without entry |
| `SessionMembership.RowsBalance` | server/common/social.py:478-509 | outside the game "carbon", when the rows of comers and goers and the rows of a player's own list show the same, rows added minus removed say exactly who is in the session |
| `SessionMembership.RowsInStepIff` | server/common/social.py:553-575 | for two personas the rows are in step over every run if and only if both kinds of rows show the same; an offline member is told but not listed |
| `SessionMembership.CarbonRowStays` | server/common/social.py:681-686 | in the game "carbon" leaving is not published: a row stays behind |
| `RaceTracker.RaceResultTracker.Bind` | server/carbon/gamemanager/results.py:291-302 | binding a car keeps the car/profile bijection or is refused |
| `RaceTracker.RaceResultTracker.Finish` | server/carbon/gamemanager/results.py:304-311 | the first finish of a bound car enters the finish order |
| `RaceTracker.RaceResultTracker.ReportResults` | server/carbon/gamemanager/results.py:313-321 | a report is normalised and stored; None stands for the codec error |
| `RaceTracker.RaceResultTracker.FindReportOrder` | server/carbon/gamemanager/results.py:323-371 | the loops that look for a unanimous order find that of the specification |
| `RaceTracker.RaceResultTracker.Finalize` | server/carbon/gamemanager/results.py:392-515 | finalizing once, failing without a change, and all placements |
| `RaceEvidence.EvidenceAdds` | server/carbon/gamemanager/results.py:291-321 | each binding, finish and report is refused without a change or recorded exactly, by what was known before |
| `RaceEvidence.NormalizedIff` | server/carbon/gamemanager/results.py:90-141 | which reports are accepted, and what is stored of them row by row |
| `RaceConsensus.UnanimousIff` | server/carbon/gamemanager/results.py:323-371 | an order is found exactly when it holds all cars of the participants, ranked alike by every one of their reports, with the observed finishers first and in their order |
| `RacePublished.CompleteIff` | server/carbon/gamemanager/results.py:373-390 | when a ranked and when an unranked race is complete |
| `RacePublished.PlaceIs` | server/carbon/gamemanager/results.py:435-477 | rank, reason, finished and lost of a placement by what the signals and all reports say about the car |
| `RacePublished.FinalizedByEvidence` | server/carbon/gamemanager/results.py:392-556 | every race, ranked or not: exactly when it finalizes, and that placements, winners, rows, metrics, header and course are those of the evidence |
| `RaceRuns.RunStaysValid` | server/carbon/gamemanager/results.py:291-321 | every run of evidence keeps the bijection and a finish order of distinct bound cars |
| `RaceFinal.ReportOrderIndependence` | server/carbon/gamemanager/results.py:323-371 | the unanimous order depends on which profiles take part, not on how they are listed |
| `RaceFinal.FinalizeSucceedsIff` | server/carbon/gamemanager/results.py:392-515 | finalizing a ranked race succeeds exactly when all ranks fit the eight slots, and fails without a change otherwise |
| `RaceFinal.NativeRace` | server/carbon/gamemanager/results.py:392-470 | native completion finalizes if and only if every participant is among the first eight finishers; ranks are the places in the finish order, all different, at most one winner |
| `RaceFinal.ReportedRace` | server/carbon/gamemanager/results.py:323-371 | completion by unanimous reports always finalizes: ranks 1 to n, exactly one winner, observed finishers first and in their order |
| `RaceFinal.CompleteMeansFinal` | server/carbon/gamemanager/results.py:373-515 | with at most eight finish signals `is_complete` means `finalize` succeeds once, with everybody finished, different non-zero ranks and at most one winner |
| `RaceNinth.BehindTheEighth` | server/carbon/gamemanager/results.py:392-470 | a complete race with a participant behind the eighth place never finalizes, whatever evidence follows |
| `RaceNinth.NineFinishers` | server/carbon/gamemanager/results.py:392-470 | nine players who signal their finish: a reachable complete race that never finalizes |
| `SkillLevels.CalculateSkillLevels` | server/carbon/progression.py:106-153 | the nested loops compute the specification, or report the length error |
| `SkillGains.WorthLaws` | server/carbon/progression.py:127-133 | a win never costs and a defeat or tie never gains; a win is worth the less the greater the lead was, from everything 500 below to nothing 500 above, and half among equals |
| `SkillGains.RatingChange` | server/carbon/progression.py:116-134 | before anything is cut every player has gained exactly what its races against the others are worth |
| `SkillGains.RatingInRange` | server/carbon/progression.py:136-153 | which is the final rating of everybody when it leaves nobody outside the range |
| `SkillGains.SpillShares` | server/carbon/progression.py:136-152 | a cut entry keeps the total and the others keep their distances |
| `SkillGains.WinOfTwo` | server/carbon/progression.py:116-153 | the exact ratings after a race of two that one of them wins |
| `SkillGains.TieOfTwo` | server/carbon/progression.py:116-153 | the exact ratings after a tie of two |
| `SkillGains.FavouriteAndOutsider` | server/carbon/progression.py:116-153 | 2000 beats 1000 and nothing changes; the other way round 24 points change hands |
| `SkillLevels.TotalBeforeClamping` | server/carbon/progression.py:116-134 | before clamping the total changes by exactly minus factor times the tied pairs |
| `SkillLevels.RedistributionKeepsTotal` | server/carbon/progression.py:135-152 | the overflow and underflow redistribution keeps the total |
| `SkillLevels.FinalTotal` | server/carbon/progression.py:116-153 | the total of every race: minus factor times the tied pairs, minus what the redistribution leaves above 3000, plus what it leaves below 0 |
| `SkillLevels.LawIff` | server/carbon/progression.py:135-153 | the total changes by the ties alone if and only if the redistribution leaves as much above the range as below; with nothing on one side, if and only if nothing on the other |
| `SkillLevels.ThreePlayerTotal` | server/carbon/progression.py:106-153 | three players in range: the law holds if and only if the redistribution leaves every entry in range |
| `SkillLevels.RoomyRaceTotal` | server/carbon/progression.py:106-153 | a margin of (n - 1) times factor to both ends is enough for the law |
| `SkillLevels.FinalRange` | server/carbon/progression.py:153-153 | final ratings lie in the pool's range |
| `SkillLevels.TwoPlayerTotal` | server/carbon/progression.py:106-153 | two players: different ranks conserve the total to the end; a tie costs 24, or everything when there is less |
| `SkillLevels.ThreePlayersCanLose` | server/carbon/progression.py:135-153 | with three players the final clamp can lose points although nobody is tied |
| `DlcCatalog.FewerEntered` | server/carbon/dlc.py:175-201 | a success with more presets on the stack is the same success with fewer |
| `DlcCatalog.PresetMeansItsChildren` | server/carbon/dlc.py:175-201 | an expanded preset means its children expanded apart, whatever path led to it |
| `DlcCatalog.ExpansionIs` | server/carbon/dlc.py:159-173 | a result repeats nothing and is every token of a positive selector that no negative one names |
| `DlcCatalog.NoCyclesAfterLoading` | server/carbon/dlc.py:63-150 | a loaded catalog can never raise a cycle error later if and only if no selectable preset with a hyphen key is cyclic |
| `DlcCatalog.LoadedCatalogIsSound` | server/carbon/dlc.py:145-201 | without hyphen keys every loaded preset means its children and no selection is cyclic |
| `DlcEffects.PlainSelectors` | server/carbon/dlc.py:175-185 | what "none", "all", a group and a raw token stand for |
| `DlcEffects.LastChildDecides` | server/carbon/dlc.py:192-203 | of the children of a preset that name a token the last one decides |
| `DlcEffects.ExpandsIff` | server/carbon/dlc.py:159-173 | a selection expands exactly when it is not too long and each selector is clean and expands |
| `DlcEffects.SelectorIff` | server/carbon/dlc.py:582-614 | which texts are selectors, and that cleaning only strips them |
| `DlcCatalog.HyphenKeyHidesCycle` | server/carbon/dlc.py:145-150 | a catalog with a group and two presets that loads although a selection of it is cyclic |
| `DlcAdmin.LockSelectors` | server/carbon/admin/dlc.py:63-72 | the lock loop computes `Lock` |
| `DlcAdmin.UnlockSelectors` | server/carbon/admin/dlc.py:48-60 | the unlock loop computes `Unlock` |
| `DlcEffects.LockLeaves` | server/carbon/admin/dlc.py:63-72 | exactly which selectors a list of removals leaves |
| `DlcEffects.UnlockLeaves` | server/carbon/admin/dlc.py:48-60 | exactly which selectors a list of additions leaves |
| `DlcEffects.UnlockAnswer` | server/carbon/admin/dlc.py:48-60 | "all" unlocks everything, and "none" is left only when nothing else is |
| `DlcEffects.UnlockAddsTokens` | server/carbon/admin/dlc.py:48-60 | the tokens of an unlocked selector are there unless another selector that is left denies them |
| `DlcLocks.LockRemovesTokens` | server/carbon/admin/dlc.py:63-72 | without hyphen keys, after every accepted lock none of the tokens of any removal survives, however the removals are written; all or none leave nothing |
| `DlcLocks.HyphenRemovalRefused` | server/carbon/dlc.py:351-360 | without hyphen keys a lock with a hyphen removal does not expand, so that nothing is assigned |
| `DlcLocks.HyphenRemovalUndoes` | server/carbon/admin/dlc.py:63-72 | the item of a removal stays in the list exactly until the same selector is removed with a hyphen more |
| `DlcLocks.LocksHoldIff` | server/carbon/admin/dlc.py:63-72 | for any catalog every accepted lock removes all tokens it names if and only if no key made of hyphens and a selector misses a token that another selector grants |
| `DlcLocks.HyphenKeyLeaks` | server/carbon/admin/dlc.py:63-72 | a catalog that loads, with a group named by a hyphen and another group, and an accepted lock after which a token survives |
| `DlcAdmin.RawTokenLock` | server/carbon/admin/dlc.py:63-72 | locking the only selector, a raw token, removes it if and only if the token has no capitals |
| `SessionRegistry.Database.SetBannedFlag` | server/common/accounts.py:1155-1184 | a ban removes the account's lease; False for an unknown account |
| `SessionRegistry.Database.SetEnabledFlag` | server/common/accounts.py:1124-1153 | disabling removes the account's lease |
| `SessionRegistry.Database.KickAccount` | server/common/accounts.py:1186-1209 | a kick removes the account's lease |
| `SessionRegistry.Database.CompleteMissingProfile` | server/common/accounts.py:1021-1063 | a missing address is filled in without a look at the blocked ones |
| `SessionRegistry.Database.BlockEmail` | server/common/accounts.py:1301-1317 | blocking an address removes the lease of its account |
| `SessionRegistry.Uniqueness` | server/common/accounts.py:327-337 | in every valid table connections and personas are unique, which the registries rely on |
| `SessionRegistry.SharedRegistry.Claim` | server/common/accounts.py:1769-1837 | the claim transaction with its prune, policy, dead-owner and displacement steps |
| `SessionRegistry.SharedRegistry.TouchSession` | server/common/accounts.py:1839-1866 | the heartbeat transaction |
| `SessionRegistry.SharedRegistry.Switch` | server/common/accounts.py:1868-1917 | the persona switch transaction |
| `LeaseRuns.StaysValid` | server/common/accounts.py:1744-1935 | every transaction of every process, account creation, replacement and completion included, keeps the lease table valid |
| `LeaseRuns.RunStaysValid` | server/common/accounts.py:327-337 | over any interleaving: one lease an account, persona and connection at most, each persona of its account, none for an unknown, banned or disabled account |
| `LeaseRuns.EmailsStayClearIff` | server/common/accounts.py:1301-1317 | a step keeps leased accounts free of blocked addresses if and only if it does not give a leased account a blocked one |
| `LeaseRuns.AlwaysClearIff` | server/common/accounts.py:1301-1317 | no email-blocked account holds a lease at any moment of a run if and only if no step of the run gives a leased account a blocked address |
| `LeaseRuns.LateAddressIsBlocked` | server/common/accounts.py:1046-1053 | a run in which an account with a lease fills in a blocked address: the lease stays and the next heartbeat fails |
| `LeaseRuns.ClaimAnswer` | server/common/accounts.py:1769-1837 | `account_in_use` exactly for a live lease elsewhere that is not a same-game replacement; `persona_in_use` never |
| `LeaseRuns.GrantedClaim` | server/common/accounts.py:1769-1837 | a granted claim leaves exactly the claimed lease |
| `LeaseEffects.GrantedClaimEffect` | server/common/accounts.py:1769-1837 | the whole table after a granted claim: the lease it writes, and which others are gone |
| `LeaseEffects.RefusedClaimEffect` | server/common/accounts.py:1769-1837 | what a refused claim is told, and that only expired leases go |
| `LeaseRuns.Displacement` | server/common/accounts.py:1788-1822 | a live lease of another connection is displaced exactly by a granted claim of its account, which was a same-game replacement |
| `LeaseRuns.SwitchAnswer` | server/common/accounts.py:1868-1917 | a switch never meets a persona another connection holds |
| `LeaseEffects.SwitchEffect` | server/common/accounts.py:1868-1917 | every switch: granted exactly for the unexpired lease of its connection and server whose account is allowed and owns the persona, which then has the persona and a new expiry; which refusal each other case gets, and what the table then is |
| `LeaseRuns.TouchAnswer` | server/common/accounts.py:1839-1866 | a heartbeat succeeds exactly for an unexpired lease of this registry whose account the policy allows; for a leased account that fails only for a blocked address |
| `LeaseEffects.TouchEffect` | server/common/accounts.py:1839-1866 | a heartbeat moves the expiry of its lease, or ends it for a blocked address, and touches no other |
| `LeaseRuns.ClaimMeetsNoConflict` | server/common/accounts.py:327-337 | a granted claim meets no unique key of another row |
| `LeaseEffects.LeaseEndsIff` | server/common/accounts.py:1919-1935 | exactly which leases a release, a kick, a ban and every other step end |
| `LeaseEffects.StandingAfter` | server/common/accounts.py:1124-1209 | exactly the steps that change whether a known account may log in |
| `LoginLockouts.FailureTable.Authenticate` | server/common/accounts.py:1418-1457 | an attempt passes the lock test, then counts, clears or keeps the failures of its own name |
| `LoginLockouts.FailureTable.FailureState` | server/common/accounts.py:1338-1359 | a name is locked exactly while its lock runs; a lock that ran out is forgotten |
| `LoginLockouts.FailureTable.NoteFailure` | server/common/accounts.py:1361-1399 | a failure counts up, and the last one allowed sets the lock |
| `LoginLockouts.FailureTable.ForgetFailures` | server/common/accounts.py:1113-1116 | a new password forgets the failures of its name |
| `LoginLockouts.GuessesAreSpread` | server/common/accounts.py:1338-1399 | over any run of logins and clearings on any names: of limit + 1 wrong attempts in a row on one name, none cleared between, the last is checked at least the lockout time after the first |
| `LoginLockouts.WaitIsEnoughIff` | server/common/accounts.py:1355-1359 | waiting as long as the answer says is enough exactly when the rest is at most a second or does not end in its first thousandth |
| `LockoutCounts.FailuresCount` | server/common/accounts.py:1361-1399 | failures in a row count up to the limit, and the one that reaches it sets the lock |
| `LockoutCounts.FirstLock` | server/common/accounts.py:1361-1399 | of them exactly the last is answered with a lock |
| `LockoutCounts.LockRuns` | server/common/accounts.py:1338-1359 | while a lock runs every login is told the rest of it; afterwards the name is as good as new |
| `LockoutCounts.LocksOff` | server/common/accounts.py:1361-1366 | a limit or a time that is not positive turns the locks off |
| `LockoutCounts.NamesApart` | server/common/accounts.py:1338-1399 | logins of one name say nothing about another |
| `RecentStore.Store.Record` | server/common/recent_players.py:31-68 | adding everybody's encounters and cutting each owner's sorted list computes `Recorded` |
| `RecentStore.Store.List` | server/common/recent_players.py:63-66 | the sorted keys of one list |
| `RecentStore.Store.Snapshot` | server/common/recent_players.py:88-92 | the displays of the first fifty rows of the sorted list |
| `RecentStore.CutList` | server/common/recent_players.py:67-68 | dropping the sorted keys from the limit on is keeping the rows of rank below fifty |
| `RecentRuns.EncounterKeepsBest` | server/common/recent_players.py:59-68 | trimming the bounded rows after an encounter gives the best of the full rows |
| `RecentRuns.BoundedEqualsFull` | server/common/recent_players.py:31-68 | with a clock that never goes back, after any run the kept rows are exactly the fifty best of each list of the full history |
| `RecentHistory.HistoryIs` | server/common/recent_players.py:31-68 | the full history holds everybody an owner met in a game, with the time and the display of their last encounter |
| `RecentRuns.SameListShown` | server/common/recent_players.py:88-92 | the list shown is the beginning of the list an unbounded store would show |
| `WireIds.IdentityStore.WirePlayerId` | server/carbon/accounts/identity.py:99-126 | the probing loop gives a stable id and keeps the two maps inverse |
| `WireIds.RunKeepsIds` | server/carbon/accounts/identity.py:111-126 | over any run the maps stay inverse, ids stay in range and never change |
| `WireIds.AssignedIs` | server/carbon/accounts/identity.py:111-126 | a new persona gets the first free id from its start on |
| `WireIds.ProbeEndsIff` | server/carbon/accounts/identity.py:120-123 | the unbounded probe ends if and only if some id is free |
| `WireIds.AssignedFailsIff` | server/carbon/accounts/identity.py:111-126 | with fewer personas than ids every request gets an id |
| `WireIds.WireSpace` | server/carbon/accounts/identity.py:116-119 | the start lies in 1..0x7FFF, a range of 32,767 ids |
| `WireIds.Allocate` | server/common/accounts.py:653-675 | the SQL allocators return a free id of the range, and raise exactly when all are taken |
| `WireIds.ProfileSpace` | server/common/accounts.py:641-645 | profile ids start in 100,000,000..999,999,999 |
| `ForcedLogoffs.TokenStore.DoLogin` | server/carbon/accounts/identity.py:64-96 | a login with its dictionary updates, or no change when it is refused |
| `ForcedLogoffs.RunStaysValid` | server/carbon/accounts/identity.py:33-34 | over any run no token is active and displaced at once, at most 256 markers are kept, and only markers are ready |
| `ForcedLogoffs.ForcedLoginSwaps` | server/carbon/accounts/identity.py:68-91 | a forced login succeeds exactly with a new token and a session to displace; it replaces one session of the account and leaves its marker as the newest, dropping the oldest of 256 |
| `ForcedLogoffs.LoginLeaves` | server/carbon/accounts/identity.py:64-96 | which identity every token stands for after a login, and which markers stay ready |
| `ForcedLogoffs.OneSessionEach` | server/carbon/accounts/identity.py:68-87 | when every login of an account with a session is forced, no account ever has two |
| `IpcReplay.IPCServer.VerifyMessage` | server/common/ipc.py:122-167 | an authentic message with a newer number is recorded, any other changes nothing |
| `IpcReplay.IPCServer.ConsumeLine` | server/common/ipc.py:169-186 | what a line does to the server |
| `IpcReplay.IPCServer.HandleConnection` | server/common/ipc.py:188-221 | the two buffer loops of a connection |
| `IpcLines.Sandwich` | server/common/ipc.py:208-221 | every cutting delivers at least what byte-by-byte reading and at most what the widest reading delivers |
| `IpcCuttings.BytesAreStrict` | server/common/ipc.py:208-221 | byte by byte a stream is read with the limit applied to blank lines too |
| `IpcCuttings.WideIsGenerous` | server/common/ipc.py:208-221 | some cutting into pieces of at most 64 KiB gets every blank line past the limit that can get past it |
| `IpcCuttings.CuttingsAgreeIff` | server/common/ipc.py:208-221 | all cuttings hand on the same messages in the same order if and only if nothing is accepted after the first blank line that only some cuttings get past the limit |
| `IpcCuttings.ShortBlanksAreQuiet` | server/common/ipc.py:169-174 | no blank line longer than the limit is enough for that |
| `IpcCuttings.LongBlankLine` | server/common/ipc.py:169-174 | one such line before an acceptable message: two cuttings disagree |
| `IpcReplay.VerifyIff` | server/common/ipc.py:122-167 | a message gets through exactly when it is authentic and newer than everything accepted from its instance |
| `IpcAuthentic.AuthenticIff` | server/common/ipc.py:122-154 | a message is authentic exactly with the protocol, a positive number, a near clock and the signature that belongs to what it says |
| `IpcAuthentic.AcceptedAreGenuine` | server/common/ipc.py:122-221 | over any run whatever was handed on came in a signed line within the allowed clock difference of its arrival |
| `IpcReplay.RunKeepsSequences` | server/common/ipc.py:155-166 | over any interleaving of connections and any clock accepted numbers strictly increase per instance |
| `IpcReplay.ReplayIsRefused` | server/common/ipc.py:155-166 | in every reachable state a message as old as an accepted one ends its connection |
| `IpcReplay.Publisher.Wire` | server/common/ipc.py:274-285 | each publication takes the next number |
| `IpcReplay.PublishedArrives` | server/common/ipc.py:274-285 | everything a publisher sends is handed on once and in order, however the stream is cut |
| `SessionObject.ScanBlocks` | server/carbon/gamemanager/session_object.py:66-79 | the cursor loop yields the blocks of `Scan` |
| `SessionObject.ScanIsGreedy` | server/carbon/gamemanager/session_object.py:66-79 | on any bytes: complete chunks in order without overlap, and every complete chunk not yielded begins inside one that is |
| `SessionObject.ScanYieldsChunks` | server/carbon/gamemanager/session_object.py:66-79 | complete chunks between bytes without the marker are exactly what is yielded, in order |
| `SessionObject.ParseInside` | server/carbon/gamemanager/session_object.py:34-63 | a chunk parses the same wherever it stands |
| `SessionWire.ParsesIff` | server/carbon/gamemanager/session_object.py:34-63 | the bytes of a chunk, field by field: exactly these are parsed |
| `SessionRewrite.UniqueBlocks` | server/carbon/gamemanager/session_object.py:90-96 | the dictionary loop keeps the first block of each offset, by offset |
| `SessionWire.FirstAtIff` | server/carbon/gamemanager/session_object.py:90-96 | of the received blocks the first with an offset is used |
| `SessionWire.UniqueInOrder` | server/carbon/gamemanager/session_object.py:90-96 | the blocks used are in the order of their offsets, one of each that occurs |
| `SessionRewrite.RewriteForReceiver` | server/carbon/gamemanager/session_object.py:125-161 | the loop that overwrites bytes gives `Rewrite`, errors included |
| `SessionRewrite.RewriteSucceedsIff` | server/carbon/gamemanager/session_object.py:131-149 | a rewrite succeeds exactly for a valid id and slot and a complete object whose first block has both slot fields |
| `SessionRewrite.RewriteKeepsTheRest` | server/carbon/gamemanager/session_object.py:143-161 | three chunks with the new id, the same sizes and offsets, and no byte changed but the id and, at offset zero, the two slot fields |
| `SessionRewrite.RewriteTwice` | server/carbon/gamemanager/session_object.py:125-161 | a later rewrite leaves nothing of an earlier one |
| `SessionRewrite.LateBlocksIgnored` | server/carbon/gamemanager/session_object.py:90-96 | blocks that arrive after completion change nothing |
| `SessionRewrite.RewrittenScans` | server/carbon/gamemanager/session_object.py:66-79 | a stream of the three rewritten blocks scans to them |
| `PolicyEvents.AccountPolicyMonitor.PollOnce` | server/common/enforcement.py:184-208 | the nested loops do one pass over everything after the cursor |
| `PolicyEvents.AccountPolicyMonitor.constructor` | server/common/enforcement.py:176-177 | a monitor starts behind the latest event |
| `PolicyEvents.BatchesAreInvisible` | server/common/enforcement.py:112-133 | reading in batches of any size calls the handler as one unbatched pass does, up to the first failure |
| `PolicyEvents.RunFollows` | server/common/enforcement.py:184-208 | over any run of polls, handler failures and new events, also within a poll, what was handled is a gap-free, repeat-free beginning of the events since the start, and the cursor is its last id |
| `PolicyEvents.PollCatchesUp` | server/common/enforcement.py:184-208 | a poll without failures handles everything |
| `PolicyEvents.PolicyCloseGate.Request` | server/common/enforcement.py:262-286 | a close request shortens the deadline, keeps the first reason and answers whether it was first |
| `PolicyEvents.GateOnlyTightens` | server/common/enforcement.py:262-291 | over any requests a gate closes at the earliest moment asked for, keeps its reason, and answers true once |
| `PolicyEvents.GateReason` | server/common/enforcement.py:262-286 | the reason of a gate is that of its first accepted request |

## Left out

- Sockets, threads, listeners, timers, logging, subprocesses and the website: every locked method or SQL transaction is one atomic step.
- PBKDF2, HMAC, SHA, MD5 and CRC32: parameters or opaque values. JSON, UTF-8 and signatures of the line channel are function parameters; `IpcReplay.Carries` says what is asked of them.
- Clocks: `now` is a parameter of every step, non-decreasing only where a lemma says so.
- IEEE rounding: ratings, times and deadlines are real numbers. NaN and infinity appear only where the source tests for them.
- Text beyond ASCII or Latin-1: `casefold` is the ASCII one in `DlcCatalog`; persona keys, game names and instance ids elsewhere arrive already normalised, except for the stripping in `IpcLines`. FESL bytes and text are one sequence of characters below 256.
- Object identity of windows and schedules: a confirmation window is a value with a serial number, an AI registration window a value with its first number before the reduction to 28 bits. `AiRegistration.Endpoint` keeps that number in the field `issued`, which the source does not have.
- The publisher's encoding, encryption, datagram splitting and offsets; other numbers it takes from an endpoint are the step `Others` of `AiRuns`.
- The order of replies to different destinations within one poll of the confirmation manager.
- FESL reply building, `_claim_transaction` and `_reply_transaction`; the rest of the FESL service.
- The wire codec and date fields of race results, and progression storage (`apply_rank_update`, `award_race`, `record_authoritative_race`).
- Display names, presence, lobbies, reports, persistence and `register_control`/`deliver` of the social service. `SessionMembership` takes as fixed whom a recipient is told of and has listed (controlled, unrelated, online), so changes of those during a run are not modelled.
- Entering a "carbon" session also records recent players; the two models are not joined.
- The SQL branch and the JSON file of recent players.
- Password hashing, account creation and enrolment, aliases and directories; `LoginLockouts` takes the verdict of a check as given, and an unknown name as a wrong password. The lease transaction is taken together with the identity lookup before it, and a liveness probe is the set of dead servers seen in that step. Policy event rows deleted together with their account are not modelled: `PolicyEvents` takes the stream as append-only.
- The table of identities and profile ids that `login` fills; a session's identity is a parameter.
- The assignment store of downloadable content with its file lock and atomic writes, and entitlement ids. The presets entered during an expansion are a set, since the source only asks for membership.
- The live-connection registry and `enforce`.
- The publisher loop of the line channel with its heartbeats and reconnects; a message handler that raises.
- Session-object helpers that only read one block (`first_block_identity`).
- IpcReplay.PublishedArrives: assumes one clock reading for the whole stream and that every envelope fits one line.
- SessionMembership.RowsBalance: holds while control connections, relations and presence of the two do not change.
- Account names and aliases, which an address must not collide with either; `LeaseRuns` knows the addresses of other accounts only.
- WireIds.IdentityStore.WirePlayerId: requires a free id for a new persona, because the source's loop does not return without one.
