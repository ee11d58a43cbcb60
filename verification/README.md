# A verified model of the Rackio agent

Rackio watches machines over an authenticated peer-to-peer link. This project models the
stateful cores of its agent and proves what they keep over whole runs. `dafny verify
dfyconfig.toml` checks everything.

| module | what it models |
|---|---|
| `Fleet` | imports, start-up spawns, removals and monitor tasks interleaving over `registry`, `snapshots` and `monitors` |
| `FleetEffects` | what each of these operations does to its own machine, and that it leaves the others alone |
| `Authorization` | connections, streams, permission checks, pairings and revocations interleaving over the allowlist and `active_connections` |
| `Pairing` | one-time windows with a bounded per-peer lockout table |
| `Admission` | `Pairing` and `Authorization` joined: every pair request judged by the one window, every acceptance persisted later |
| `MinuteRows`, `History` | raw and per-minute history, retention and the size-cap loop, beside a ghost log of accepted samples |
| `Pager` | the history reply, one page per lock acquisition |
| `AlertRules`, `AlertEngine` | the override merge, the per-tick evaluator and its signals |
| `Sampler` | the sampling loop: health projection, batching, pruning, shutdown |
| `AlertCommands` | the validate / save / publish transaction behind `rackio alerts` |
| `Ranking`, `Disks` | maximum and stable sort under a comparison, and the three rankings of the fullest disk built on them |
| `Freshness`, `Addresses` | the age-derived state of a paired machine, and its candidate addresses |
| `Common`, `Metrics`, `Names`, `Order` | shared values and key orders |

The two concurrent protocols are labelled transition systems: one lock-protected access of
the source is one `Step`, `Enabled` is its guard, `Apply` its effect, and `Runs`/`Exec`
range over every schedule. Everything else keeps the source's form: a class whose methods
are proved against specification functions, and lemmas about runs of those functions.

## Where the code does less than its comments say

Each of these has a concrete schedule or input and, beside it, the exact condition.

- **Removing a machine.** Aborting and awaiting the tracked monitor is not enough to keep the
  snapshot from coming back. An import that overlaps the removal has a monitor past its
  look-up and not yet tracked (`Fleet.OverlappingImportRevivesTheSnapshot`); and with no
  import under way, an earlier removal of the same machine can take the handle that this one
  should have awaited (`Fleet.SecondRemovalRevivesTheSnapshot`). `Fleet.RemovalErasesExactly`
  gives the condition, both ways, as something visible before the call.
- **Revoking a peer.** `revoke_peer` can return true while a served stream is on an open
  connection, when another revocation of the same peer took that connection first and has not
  closed it (`Authorization.OverlappingRevocationReturnsEarly`; exactly when:
  `Authorization.EarlyReturnExactly`). A pairing whose secret was accepted before the
  revocation still grants after it (`Authorization.PairingInFlightSurvivesRevocation`; exactly
  when: `Authorization.RegainExactly`).
- **Minute sums.** A sum that leaves 64 bits becomes a REAL in SQLite and no longer reads back
  as an integer, so every later query that selects that minute fails
  (`History.LargestReadingsBreakAMinute`; exactly when: `MinuteRows.ReadableExactly`, and for
  whole pages `History.PageReadsExactly`).
- **Paging history.** A row at the last representable millisecond can be sent twice
  (`Pager.LastRowIsSentTwice`). For stores that change between pages `Pager.RepeatsExactly`
  says exactly when; for one that does not, `Pager.LastMillisecondExactly` says it in closed
  form.
- **Rejected alert changes.** While alerts are off nothing is resolved before saving, so a
  change can be saved and then answered with a failure
  (`AlertCommands.SwitchedOffFailureSaves`; exactly when:
  `AlertCommands.FailureChangesSomethingExactly`).
- **The storage flag.** Neither a successful prune nor the shutdown flush touches it, so after
  a flush it need not be the latest verdict (`Sampler.RefusedFlushLeavesTheFlagClear`; exactly
  when it is: `Sampler.FlushKeepsTheFlagHonestExactly`).

## Model

| member | source | states |
|---|---|---|
| `Fleet.QuiescentMonitorIsTheTrackedOne` | apps/agent/src/remote.rs:297-366 | in every interleaving, once no operation on an endpoint is mid-flight, an un-aborted live monitor of it has a registered record and is the one tracked handle |
| `Fleet.StepInv` | apps/agent/src/remote.rs:297-366 | every atomic step of import, spawn, removal and monitor keeps the invariant: un-aborted live tasks are tracked or held by an operation, orphaned handles are about to be unlinked |
| `Fleet.RemovalErasesExactly` | apps/agent/src/remote.rs:341-366 | in every reachable state, a removal can return and see its snapshot recreated without a new import if and only if an import is about to publish, or a session is untracked or can lose its handle to another operation |
| `Fleet.RemovalErasesTheMachine` | apps/agent/src/remote.rs:341-366 | with no overlapping operation, no straggler and no import, a returned removal leaves no record, no snapshot and no session, for the rest of every run |
| `Fleet.RevivableNeedsOverlap` | apps/agent/src/remote.rs:325-338 | the failing condition never holds when no operation on the endpoint runs and no aborted task of it is still polled |
| `Fleet.OverlappingImportRevivesTheSnapshot` | apps/agent/src/remote.rs:297-339 | a reachable state in the middle of an import from which a removal returns and the imported machine's monitor writes the snapshot again |
| `Fleet.SecondRemovalRevivesTheSnapshot` | apps/agent/src/remote.rs:348-360 | a reachable state with no import under way, a re-imported machine and an earlier removal still to take a handle, from which the second removal returns and is undone |
| `Fleet.ContainedRun` | apps/agent/src/remote/monitor.rs:63-98 | once the record is deleted, a contained removal stays contained under every step, and after it returned no monitor step recreates the snapshot |
| `Fleet.SessionsShrink` | apps/agent/src/remote/monitor.rs:70-77 | while the record is absent no step starts a session of the endpoint: the look-up at the loop head ends the task |
| `Fleet.AbortMarks` | apps/agent/src/remote.rs:329-338 | an abort ends an idle task at once and lets a polled one finish its poll; it changes no other task |
| `FleetEffects.StepIsLocal` | apps/agent/src/remote.rs:297-366 | a step of one machine's operation or monitor changes no record, snapshot, handle or task of any other machine |
| `FleetEffects.OthersAreKept` | apps/agent/src/remote.rs:347-366 | in every schedule that does not remove a machine, its record and its snapshot stay, whatever else is removed |
| `FleetEffects.MonitorIsUndisturbed` | apps/agent/src/remote.rs:307-366 | while no operation on a machine is in flight, nothing stops or replaces its tracked monitor |
| `FleetEffects.ImportBringsUp` | apps/agent/src/remote.rs:297-305 | an undisturbed import adds exactly one record, one snapshot and one tracked monitor and changes nothing else; a paired machine is not imported |
| `FleetEffects.SpawnTracks` | apps/agent/src/remote.rs:307-339 | an undisturbed spawn adds exactly one idle task and its handle |
| `FleetEffects.RemovalTakesDown` | apps/agent/src/remote.rs:347-366 | an undisturbed removal takes exactly the record, snapshot and handle of its machine and ends its monitor |
| `FleetEffects.StartSpawnsEveryRecord` | apps/agent/src/remote.rs:116-121 | however a start-up interleaves, by its return it has spawned a monitor for every record there was when it began |
| `FleetEffects.MonitorEndsWithoutARecord` | apps/agent/src/remote/monitor.rs:70-77 | a monitor whose machine lost its record ends at its next look-up |
| `Authorization.StepInv` | crates/rackio-iroh/src/server.rs:73-116 | every step keeps: each open serving connection is in the active map or on the closing list of a revocation of its peer |
| `Authorization.RevocationClosesServedStreams` | crates/rackio-iroh/src/server.rs:73-92 | at the return, every stream whose check had passed when the record went is on a closed connection, or on one that another running revocation took and has yet to close |
| `Authorization.RevokedPeerIsLockedOut` | crates/rackio-iroh/src/server.rs:203-227 | after the return and until a pairing completes, no allowed stream is on an open connection and every check is refused, provided no other revocation was still closing |
| `Authorization.EarlyReturnExactly` | crates/rackio-iroh/src/server.rs:73-92 | unless the peer pairs again, a revocation can return with a served connection open if and only if a rival revocation of the peer runs when it removes the record |
| `Authorization.NoGrantNoPass` | crates/rackio-iroh/src/server.rs:216-226 | without a completed pairing the peer stays off the allowlist, no further stream passes, and closed connections stay closed |
| `Authorization.OverlappingRevocationReturnsEarly` | crates/rackio-iroh/src/server.rs:74-91 | a reachable state in which the second of two revocations returns true with a served stream on an open connection |
| `Authorization.UnrivalledRevocationLocksOut` | crates/rackio-iroh/src/server.rs:73-92 | the same guarantee under a proviso visible before the call: no other revocation of the peer is running when the record goes |
| `Authorization.PairingInFlightSurvivesRevocation` | crates/rackio-iroh/src/server.rs:245-267 | a reachable state in which a secret accepted before the revocation grants after it |
| `Authorization.RegainExactly` | crates/rackio-iroh/src/server.rs:245-267 | in every reachable state, a revocation can return true with the peer authorized, no secret of it being accepted meanwhile, if and only if a pairing of it with an accepted secret is in flight when the record goes |
| `Authorization.CheckPassesExactly` | crates/rackio-iroh/src/server.rs:220-226 | a check passes if and only if the peer is on the allowlist, and changes nothing but that stream |
| `Authorization.OthersStayAllowed` | crates/rackio-iroh/src/pairing.rs:359-373 | in every schedule that does not revoke a peer, it stays on the allowlist and its checks pass, whoever else is revoked |
| `Authorization.OthersStayConnected` | crates/rackio-iroh/src/server.rs:73-116 | an open connection of a peer nobody revokes stays open and registered until its own end closes it |
| `Authorization.DepartedAreForgotten` | crates/rackio-iroh/src/server.rs:94-115 | in every run the active map holds serving connections only, and no peer without one |
| `Admission.EachWindowAdmitsOnce` | crates/rackio-iroh/src/server.rs:229-267 | in every interleaving each opened window leads to at most one grant, each grant comes from an opened window, and everyone on the allowlist was loaded with it or granted |
| `Admission.RequestAcceptedExactly` | crates/rackio-iroh/src/server.rs:245-266 | in every run a pair request is accepted if and only if it presents the open window's exact secret in time with fewer than five recorded failures, and is refused otherwise |
| `Admission.StepInv` | crates/rackio-iroh/src/server.rs:245-267 | every step keeps: a window is spent by at most one acceptance or grant, and the open one is unspent |
| `Admission.PairingIsFollowed` | crates/rackio-iroh/src/pairing.rs:189-258 | the window of a joint run is the pairing manager's after the same openings and attempts |
| `Admission.AuthorizationIsFollowed` | crates/rackio-iroh/src/server.rs:203-227 | the authorization state of a joint run is one that the authorization protocol reaches |
| `Pairing.PairingManager.Open` | crates/rackio-iroh/src/pairing.rs:189-215 | opening replaces any window by a fresh one of five minutes with an empty failure table |
| `Pairing.PairingManager.IsLockedOut` | crates/rackio-iroh/src/pairing.rs:171-175 | the scan answers whether some entry of the peer has five failures |
| `Pairing.PairingManager.RecordFailureOf` | crates/rackio-iroh/src/pairing.rs:160-169 | the peer's entry counts up in place, or is appended after evicting the oldest of 64 |
| `Pairing.PairingManager.VerifyAndConsumeAt` | crates/rackio-iroh/src/pairing.rs:231-258 | outcome and new window of one attempt, for closed, expired, locked-out, matching and wrong cases |
| `Pairing.PairingSucceedsExactly` | crates/rackio-iroh/src/pairing.rs:231-258 | over every run, an attempt succeeds if and only if a window is still open, it presents that window's exact secret no later than expiry, and its peer has fewer than five recorded failures |
| `Pairing.OutcomeExactly` | crates/rackio-iroh/src/pairing.rs:237-257 | the answer told from the events alone: closed without a window, expired after 300,000 ms, paired as above, otherwise rejected |
| `Pairing.OneSuccessPerWindow` | crates/rackio-iroh/src/pairing.rs:252-255 | between two successes another window was opened |
| `Pairing.LockedOutIsFiveRecorded` | crates/rackio-iroh/src/pairing.rs:171-175 | with one entry per peer, locked out means five failures on record |
| `Pairing.RecordMoves` | crates/rackio-iroh/src/pairing.rs:160-169 | how one recorded failure moves any peer's entry: own entry counts or is appended last, another's insertion into a full table evicts the head only |
| `Pairing.EvictedByThe64thInsertion` | crates/rackio-iroh/src/pairing.rs:160-169 | whoever fails after an entry was inserted, its own peer included, it is present until 64 other peers were inserted, as many places from the end, counting its own further failures; the 64th removes it |
| `Pairing.EntryLastsInWindow` | crates/rackio-iroh/src/pairing.rs:231-258 | the same over the attempts of one window: from the failure that inserted the entry, its count is one plus the peer's later failed comparisons until the 64th insertion of another peer removes it |
| `Pairing.GuessesAreBounded` | crates/rackio-iroh/src/pairing.rs:154-176 | within one window a peer's failed comparisons number at most 5 x (1 + others' insertions / 64), and its count never exceeds five |
| `MinuteRows.MergeFolds` | crates/rackio-core/src/storage.rs:121-207 | the incremental upsert keeps every count and sum equal to the fold over the minute's samples, absent readings skipped, and marks a sum as lost exactly once it leaves 64 bits |
| `MinuteRows.FirstFolds` | crates/rackio-core/src/storage.rs:166-182 | the row a minute starts with is the fold over its one sample |
| `MinuteRows.ReadableExactly` | crates/rackio-core/src/storage.rs:276-297 | a row reads back if and only if every true sum of its minute fits in 64 bits |
| `MinuteRows.IntAverageIsBetween` | crates/rackio-core/src/storage.rs:508-512 | an integer average is absent exactly when no sample had the reading, and otherwise lies between the least and greatest |
| `MinuteRows.RealAverageIsBetween` | crates/rackio-core/src/storage.rs:501-506 | the same for CPU and temperature, absent also when the count exceeds 32 bits |
| `MinuteRows.PairAverageIsOrdered` | crates/rackio-core/src/storage.rs:139-163 | averaged used never exceeds averaged total when no sample's did, and both exist together |
| `MinuteRows.ReadingsAre` | crates/rackio-core/src/storage.rs:122-163 | which fields of a sample the readings are, values beyond 64 bits left out, disk and swap as pairs |
| `MinuteRows.ReadMemory` | crates/rackio-core/src/storage.rs:323 | the memory average is absent exactly without readings and is their floored mean |
| `MinuteRows.ReadNetwork` | crates/rackio-core/src/storage.rs:324-331 | the network read back is absent exactly when neither direction was read; each read direction is the floored mean of its own readings, an unread one is zero |
| `MinuteRows.ReadDisk` | crates/rackio-core/src/storage.rs:335-343 | the synthetic disk entry exists exactly with readings, is the mean of used and of total, and keeps used within total when every sample did |
| `MinuteRows.ReadSwap` | crates/rackio-core/src/storage.rs:349-350 | swap used and total are present together, each the mean of its readings, and ordered when every sample was |
| `MinuteRows.ReadRest` | crates/rackio-core/src/storage.rs:320-321 | every other field is the latest accepted sample's, under the minute's key |
| `MinuteRows.ReadReals` | crates/rackio-core/src/storage.rs:322-356 | the CPU and temperature averages are absent exactly without readings, or with more than 32 bits count, and are the mean of their readings |
| `History.AcceptAgrees` | crates/rackio-core/src/storage.rs:103-208 | one accepted or duplicate sample keeps both tables in agreement with the log of accepted samples |
| `History.MinuteOfIsFloor` | crates/rackio-core/src/storage.rs:121 | a minute is the multiple of 60,000 ms at or before the timestamp, also before the epoch |
| `History.InsertStoresFirsts` | crates/rackio-core/src/storage.rs:105-119 | an insert keeps every stored raw row, stores every timestamp of the batch, a new one with the first sample that has it, and adds no other key |
| `History.InsertCountsNewRows` | crates/rackio-core/src/storage.rs:115-207 | a minute's sample count grows by exactly the number of raw rows added in it, and other minutes' rows stay as they were |
| `History.EveryRunAgrees` | crates/rackio-core/src/storage.rs:103-420 | after any run of inserts, prunes and cap enforcement with any faults, every minute row is the fold over exactly the samples accepted since it was created |
| `History.RawNeverOutnumbersMinute` | crates/rackio-core/src/storage.rs:110-121 | in every reachable store each raw row's minute has a row and a minute has no more raw rows than its sample count |
| `History.MinuteAveragesAreHonest` | crates/rackio-core/src/storage.rs:320-357 | in every reachable store a minute row reads back exactly when its true sums fit; then memory, network, CPU and temperature averages are absent exactly without readings and lie between their own, and disk and swap used stay within their totals |
| `History.LargestReadingsBreakAMinute` | crates/rackio-core/src/storage.rs:186-200 | two samples of one minute with the largest 64-bit memory reading leave a row that no query reads |
| `History.PageReadsExactly` | crates/rackio-core/src/storage.rs:258-360 | a page of minute history fails exactly when a minute it selects has a sum beyond 64 bits; raw history always reads |
| `History.RetainDeletes` | crates/rackio-core/src/storage.rs:368-378 | the two retention deletes orphan no raw row |
| `History.PruneWithinTheCap` | crates/rackio-core/src/storage.rs:368-380 | when the size is within the cap, exactly the raw rows of the last 86,400,000 ms and the minute rows of the last 604,800,000 ms stay, unchanged |
| `History.PruneRemovesOnly` | crates/rackio-core/src/storage.rs:368-412 | under any sizes and faults, a row a prune removed is past its retention, or the size was over the cap and every row left in its table is newer |
| `History.CapIsReached` | crates/rackio-core/src/storage.rs:382-420 | for any size oracle the loop ends, without a fault, within the cap or with both tables empty |
| `History.CapVerdictExactly` | crates/rackio-core/src/storage.rs:384-420 | the loop succeeds if and only if its last look succeeded and found the size within the cap or nothing left to delete |
| `History.CapDeletesOnlyOverTheCap` | crates/rackio-core/src/storage.rs:384-412 | every round of deletion followed a look that found more than the cap |
| `History.CapKeepsTheNewest` | crates/rackio-core/src/storage.rs:382-412 | even when a fault stops it, only the oldest raw rows went, a thousand a round, and minute rows only after raw was empty |
| `History.DropOldestKeepsNewest` | crates/rackio-core/src/storage.rs:390-405 | a round removes exactly the stated number of rows, and every survivor is unchanged and newer than every deleted row |
| `History.PruneAgrees` | crates/rackio-core/src/storage.rs:368-380 | retention followed by the cap loop deletes only, keeps surviving rows and their minutes, and keeps agreement with the log |
| `History.MetricStore.StageBatch` | crates/rackio-core/src/storage.rs:103-208 | the insert loop computes the fold of `Accept` over the batch |
| `History.MetricStore.InsertBatch` | crates/rackio-core/src/storage.rs:103-211 | a committed batch changes the tables as specified and keeps the store valid; a failed one changes nothing |
| `History.MetricStore.EnforceSizeCap` | crates/rackio-core/src/storage.rs:382-420 | the in-place loop reaches the specified tables and verdict and terminates for every oracle |
| `History.MetricStore.PruneAt` | crates/rackio-core/src/storage.rs:368-380 | retention in one transaction, then the cap; the store stays valid in every case |
| `History.PageKeys` | crates/rackio-core/src/storage.rs:228-256 | the selected keys ascend strictly, lie in range, belong to the table and number at most the limit |
| `History.PageKeysAreTheFirst` | crates/rackio-core/src/storage.rs:247-251 | every key in range is selected unless the limit is reached by smaller ones |
| `History.PageHoldsStoredRows` | crates/rackio-core/src/storage.rs:241-360 | a raw page holds the stored samples, a minute page the rows read back, under the selected keys |
| `History.MetricStore.QueryPage` | crates/rackio-core/src/storage.rs:228-360 | the row loop fails exactly on an unreadable selected row and otherwise returns the page of the view |
| `History.ViewsAreKeyed` | crates/rackio-core/src/storage.rs:241-360 | every reachable store shows each row under its own timestamp at either resolution |
| `Pager.HandleHistory` | crates/rackio-iroh/src/server.rs:398-435 | the cursor loop terminates for any page reads and failures and gives exactly the specified reply: refused, complete, or broken off with what was sent |
| `Pager.ServedIsEmitted` | crates/rackio-iroh/src/server.rs:410-434 | a complete reply is everything the pager emits, a broken one a prefix of it that begins with what was sent, and a reply breaks off if and only if a page read on its way fails |
| `Pager.RepliesOverStoreRuns` | crates/rackio-iroh/src/server.rs:410-434 | over any store runs between pages, replies send strictly increasing timestamps in range, broken ones included, and a complete one has sent every row in range the store held throughout |
| `Pager.StoreRunsAreLegal` | crates/rackio-core/src/storage.rs:228-360 | every run of the store gives the pager rows keyed by their own 64-bit timestamps |
| `Pager.PageFacts` | crates/rackio-core/src/storage.rs:241-256 | a page holds rows of the store in range; every row in range is on it or after its last |
| `Pager.EmitsStrictlyIncreasing` | crates/rackio-iroh/src/server.rs:410-433 | whatever changes between pages, emitted timestamps strictly increase and stay in range |
| `Pager.EmitsEveryLastingRow` | crates/rackio-iroh/src/server.rs:410-433 | a row in range that every page read finds is emitted, also at the last millisecond |
| `Pager.PagesConcatenateToTheQuery` | crates/rackio-iroh/src/server.rs:410-433 | on an unchanging store the pages concatenate to the single unlimited query |
| `Pager.RepeatsExactly` | crates/rackio-iroh/src/server.rs:428-432 | for stores that change between pages, timestamps up to the last millisecond strictly increase if and only if no page entered earlier ends there with the row present at the next read |
| `Pager.LastMillisecondExactly` | crates/rackio-iroh/src/server.rs:428-432 | on an unchanging store that holds the row, this is so if and only if the pager reaches it alone with its cursor on it |
| `Pager.LastRowIsSentTwice` | crates/rackio-iroh/src/server.rs:428-432 | a store whose one row is at the last millisecond sends it twice to any query that starts earlier |
| `AlertRules.ResolveAlertRules` | crates/rackio-core/src/alert.rs:206-236 | the in-place override loop and validation compute the specified resolution, refusals included |
| `AlertRules.ResolutionIsRuleByRule` | crates/rackio-core/src/alert.rs:206-307 | resolution succeeds if and only if every overridden rule alone has a base and is valid; then ids are unique, shipped rules lead in order, and each rule depends only on the overrides naming it, the last present field winning |
| `AlertRules.MergeAllFaithful` | crates/rackio-core/src/alert.rs:217-231 | where the loop does not refuse, its list equals the rule-by-rule reference |
| `AlertRules.MergeAllRefusesExactly` | crates/rackio-core/src/alert.rs:224-230 | the loop refuses if and only if some unshipped id is first named without a full description |
| `AlertRules.EffectiveSnoc` | crates/rackio-core/src/alert.rs:256-283 | one more override of a rule adjusts its reference form by exactly that override |
| `AlertRules.ShippedRuleIsValid` | crates/rackio-core/src/alert.rs:51-117 | every shipped rule passes validation |
| `AlertRules.ShippedLevels` | crates/rackio-core/src/alert.rs:51-117 | the seven shipped rules with their metrics, thresholds, sample counts and severities |
| `AlertRules.ValidExactly` | crates/rackio-core/src/alert.rs:285-307 | a rule is valid if and only if its metric is one of the six, its threshold finite and its severity warning or critical |
| `AlertRules.NewRuleExactly` | crates/rackio-core/src/alert.rs:224-254 | an unshipped rule needs metric, comparison, threshold and severity, and otherwise counts one sample and is on |
| `AlertRules.UntouchedShippedRule` | crates/rackio-core/src/alert.rs:209-216 | a shipped rule nobody overrides resolves to its shipped level, on and built in |
| `AlertRules.LastWins` | crates/rackio-core/src/alert.rs:256-272 | the last override that has a field decides it |
| `AlertRules.SourceExactly` | crates/rackio-core/src/alert.rs:277-283 | a rule is reported as built in if and only if it is shipped and no override of it sets a level |
| `AlertRules.NamedSelects` | crates/rackio-core/src/alert.rs:217-218 | the overrides naming a rule are all of them, in order |
| `AlertEngine.AlertEvaluator.Evaluate` | crates/rackio-core/src/alert.rs:334-396 | the in-place tick changes counts and active alerts, and emits signals, as specified |
| `AlertEngine.ReadingsExactly` | crates/rackio-core/src/alert.rs:441-465 | which fields the CPU, memory, swap and disk metrics read, when the reading is present, its floored share, and the mount it names |
| `AlertEngine.TemperatureReadingsExactly` | crates/rackio-core/src/alert.rs:469-486 | the temperature and headroom readings of the hottest sensor, and that any other name reads nothing |
| `AlertEngine.MatchesExactly` | crates/rackio-core/src/alert.rs:352-357 | a rule matches if and only if its metric reads and the value has reached the threshold from its side |
| `AlertEngine.EvaluateAllSettles` | crates/rackio-core/src/alert.rs:339-395 | with unique ids every rule is judged from its own earlier state alone and no other id is touched |
| `AlertEngine.CountIsStreak` | crates/rackio-core/src/alert.rs:347-361 | every counter is the length of the run of latest matching ticks, saturated at 32 bits |
| `AlertEngine.ActiveIsSustainedStreak` | crates/rackio-core/src/alert.rs:334-396 | with rules changing between ticks, a rule is active exactly when it is supplied and its streak is at least one and at least its current sample count |
| `AlertEngine.SignalsRebuildTheActiveSet` | crates/rackio-core/src/alert.rs:376-395 | replaying the signals, forgetting withdrawn rules, rebuilds exactly the active set |
| `AlertEngine.SignalsSayTheTransition` | crates/rackio-core/src/alert.rs:362-395 | in every run a tick announces about a rule exactly its transition, once, with its severity and whether it breached, recovered or became unreadable |
| `AlertEngine.WorstSeverityIsActive` | crates/rackio-core/src/alert.rs:400-405 | the worst severity is absent exactly when nothing is active and otherwise belongs to an active alert |
| `AlertEngine.WorstSeverityIsWorst` | crates/rackio-core/src/alert.rs:400-405 | no active alert outranks it |
| `AlertEngine.BySeverityIsASort` | crates/rackio-core/src/alert.rs:410-419 | the listed alerts are the active ones, each as often as it occurs, none preceded by a less severe one |
| `AlertEngine.BySeverityIsStable` | crates/rackio-core/src/alert.rs:412-414 | equally severe alerts keep their rule-id order |
| `AlertEngine.DetailsWorstFirst` | crates/rackio-core/src/alert.rs:410-419 | there is one line per active alert and the lines descend in severity |
| `AlertEngine.DetailsAreTheActive` | crates/rackio-core/src/alert.rs:410-419 | the lines are those of the active alerts, all of them and no others |
| `Names.LeqExactly` | crates/rackio-core/src/alert.rs:411-414 | rule ids are ordered as strings: a prefix first, otherwise by the first differing character |
| `Sampler.SampleLoop.OnTick` | apps/agent/src/runtime/sampling.rs:141-215 | one turn in place: evaluate, project, buffer or hand over, prune |
| `Sampler.SampleLoop.OnShutdown` | apps/agent/src/runtime/sampling.rs:71-89 | the flush hands the buffer over once and empties it only when storage took it |
| `Sampler.BatchesAreTheCollectedFives` | apps/agent/src/runtime/sampling.rs:177-198 | after n ticks the k-th batch is the k-th five collected samples with storage's answer, and the fewer than five left are pending |
| `Sampler.NothingIsLostOrRepeated` | apps/agent/src/runtime/sampling.rs:177-198 | stored and discarded batches followed by the buffer are the collected samples, and a shutdown hands over the rest |
| `Sampler.FlushHandsOver` | apps/agent/src/runtime/sampling.rs:71-89 | the flush hands what is pending over once with storage's answer, empties the buffer only if storage took it, and touches neither alerts nor health |
| `Sampler.StorageFlagIsLatestVerdict` | apps/agent/src/runtime/sampling.rs:178-215 | while the loop runs, the storage flag is set exactly when the latest insert attempt or failed prune was a failure |
| `Sampler.FlushKeepsTheFlagHonestExactly` | apps/agent/src/runtime/sampling.rs:71-89 | after the shutdown flush the flag is unchanged, and is the latest verdict if and only if nothing was pending or the flush went the way the flag says |
| `Sampler.RefusedFlushLeavesTheFlagClear` | apps/agent/src/runtime/sampling.rs:83-88 | runs of one to four samples whose refused flush leaves the flag clear |
| `Sampler.PublishedStateIsTheWorstSustainedRule` | apps/agent/src/runtime/sampling.rs:23-67 | after every step the state is Degraded iff a flag is set, otherwise that of the worst sustained rule; flag lines lead and alert lines descend in severity |
| `Sampler.FlagLinesExactly` | apps/agent/src/runtime/sampling.rs:28-38 | the degradation lines name each set flag once, in a fixed order, and nothing else |
| `Sampler.ActiveSeverities` | apps/agent/src/runtime/sampling.rs:143-170 | which severities are active, told from the history of ticks alone |
| `AlertCommands.AlertControl.HandleAlerts` | apps/agent/src/runtime/local_ipc.rs:628-676 | new file, published rules and response of each command under every fault |
| `AlertCommands.AlertControl.UpdateAlerts` | apps/agent/src/runtime/local_ipc.rs:595-626 | validate, then save, then publish, with what each failure leaves behind |
| `AlertCommands.PublishedTracksTheFile` | apps/agent/src/runtime/local_ipc.rs:595-626 | over every sequential run with a live sampler and any load and save failures, the published rules are the file's effective rules, with unique ids and all valid |
| `AlertCommands.EffectiveRulesAreUsable` | apps/agent/src/runtime/config.rs:274-284 | what a configuration hands the sampler has unique ids and valid rules only |
| `AlertCommands.EffectiveRulesExactly` | apps/agent/src/runtime/config.rs:274-284 | nothing is published while alerts are off, and otherwise exactly the rules whose resolved entry is enabled, in resolved order |
| `AlertCommands.HandleExactly` | apps/agent/src/runtime/local_ipc.rs:595-676 | when a command saves, what the file and the sampler then hold, when it succeeds, and that a success lists the saved file |
| `AlertCommands.SetExactly` | apps/agent/src/runtime/local_ipc.rs:638-664 | a set command writes the fields it has into the operator's entry for the rule, keeps its other fields and touches no other entry |
| `AlertCommands.RuleEnabledExactly` | apps/agent/src/runtime/local_ipc.rs:665-667 | switching a rule writes that and nothing else |
| `AlertCommands.ResetExactly` | apps/agent/src/runtime/local_ipc.rs:668-671 | a reset drops the entries of its rule and keeps all others in order; without a rule it drops everything |
| `AlertCommands.FailureChangesSomethingExactly` | apps/agent/src/runtime/local_ipc.rs:605-625 | a failure response goes with a change if and only if a saved edit leaves alerts off with overrides that do not resolve |
| `AlertCommands.FailureWhileEnabledChangesNothing` | apps/agent/src/runtime/local_ipc.rs:588-625 | with alerts on after the change and a live sampler, a failure response means file and running rules are both unchanged |
| `AlertCommands.SwitchedOffFailureSaves` | apps/agent/src/runtime/config.rs:275-277 | a concrete command that is saved and then reported as failed |
| `AlertCommands.ResetIsReplayWithout` | apps/agent/src/runtime/local_ipc.rs:638-671 | resetting an id gives the override list of replaying the commands without the ones naming it |
| `AlertCommands.SavedResetForgetsTheRule` | apps/agent/src/runtime/local_ipc.rs:668-671 | the same over every run with faults, for the accepted commands |
| `AlertCommands.FileReplaysAccepted` | apps/agent/src/runtime/local_ipc.rs:600-611 | the saved overrides are the replay of exactly the commands that were saved |
| `AlertCommands.CommandWithout` | apps/agent/src/runtime/local_ipc.rs:564-576 | every edit of another rule commutes with forgetting a rule, and an edit of that rule disappears |
| `AlertCommands.ResetKeepsResolving` | apps/agent/src/runtime/local_ipc.rs:668-671 | a reset never makes resolvable overrides unresolvable |
| `Disks.WorstDisk` | crates/rackio-core/src/model.rs:209-218 | the scan computes the cross-multiplied maximum, the later of equals winning |
| `Disks.SizedSelects` | crates/rackio-core/src/model.rs:211-212 | the ranked disks are those with capacity, all of them and in their order |
| `Disks.FullestIsFullest` | crates/rackio-core/src/model.rs:209-218 | it finds a disk exactly when one has capacity; none exceeds it as an exact ratio, and among equals it is the last |
| `Disks.BasisPointsIsFloor` | crates/rackio-core/src/alert.rs:564-571 | basis points are the floored ten-thousandths in use, clamped to 32 bits, and a percentage is a hundredth of them |
| `Disks.BasisPointsMonotone` | crates/rackio-core/src/alert.rs:564-571 | a fuller disk never has fewer floored, clamped basis points |
| `Disks.HighestReadingIsHighest` | crates/rackio-core/src/alert.rs:457-465 | the alert engine finds a disk exactly when one has capacity, and none reads higher |
| `Disks.HighestPlace` | crates/rackio-core/src/alert.rs:457-465 | where that disk is listed: none reads higher, and among equals it is the last |
| `Disks.ViewerSortsByFullness` | apps/desktop/src-tauri/src/presentation.rs:88-105 | the viewer lists every disk with capacity as often as it occurs, none behind a less full one, equally full ones in their order |
| `Ranking.MaxByIsTheLastOfEquals` | crates/rackio-core/src/model.rs:213-217 | a maximum under a comparison is found, and among equals the last |
| `Ranking.SortDescends` | apps/desktop/src-tauri/src/presentation.rs:101-105 | the sort orders its elements, greatest first |
| `Ranking.SortIsStable` | apps/desktop/src-tauri/src/presentation.rs:101-105 | elements that compare equal keep their order |
| `Ranking.SortKeeps` | apps/desktop/src-tauri/src/presentation.rs:101-105 | the sort keeps every element as often as it occurs |
| `Disks.RankingsAgree` | apps/desktop/src-tauri/src/presentation.rs:88-109 | the three rankings find nothing together, or disks of the same greatest basis points; the scan and the sort head are equal as exact ratios |
| `Freshness.CollapseIsInvisible` | apps/agent/src/remote/snapshot.rs:53-72 | storing the displayed state changes nothing anyone sees at or after that moment |
| `Freshness.ErrorsAreInvisible` | apps/agent/src/remote/monitor.rs:316-338 | over every orderly run, any number of transient errors is invisible against the machine whose state they never touched |
| `Freshness.RefusalStays` | apps/agent/src/remote/snapshot.rs:54-56 | an authorization or compatibility refusal stays on display until a session sets the state |
| `Freshness.OfflineStaysWithoutContact` | apps/agent/src/remote.rs:123-135 | a machine aged to Offline shows Offline or a refusal until it is heard from again |
| `Freshness.StateAtExactly` | apps/agent/src/remote/snapshot.rs:53-72 | what a viewer sees in numbers: stale from 10,000 ms, offline from 30,000 ms since last seen, refusals and unseen machines as stored |
| `Freshness.ContactMakesFresh` | apps/agent/src/remote/monitor.rs:120-132 | contact shows the stored state for the next ten seconds, and a session brings its own |
| `Addresses.MergedDirectAddresses` | apps/agent/src/remote/monitor.rs:258-270 | the loop computes the first occurrences of observed then known, cut after eight |
| `Addresses.MergedIsObservedThenKnown` | apps/agent/src/remote/monitor.rs:258-270 | no repetition, at most eight, observed first and then the unobserved known; nothing is cut while both fit |
| `Addresses.MergedKeepsOrder` | apps/agent/src/remote/monitor.rs:263-267 | entries keep the order of their first occurrence |
| `Addresses.MergingAgainIsAFixpoint` | apps/agent/src/remote/monitor.rs:258-270 | merging the same observation into its own result changes nothing |
| `Addresses.PairedRecord.Refresh` | apps/agent/src/remote/monitor.rs:218-250 | record and registry change together, and only for a new, persisted merge of a machine still registered |
| `Addresses.PairedRecord.RefreshRepeatedly` | apps/agent/src/remote/registry.rs:139-156 | however often one observation is repeated and however persisting answers, the registry is rewritten once if it adds something and some attempt is saved, otherwise never |

## Left out

- Transport: QUIC, relays, discovery and frame encoding are foreign calls; a connection is open, closed or lost.
- SQLite internals: pages, WAL, VACUUM (also its failure after the cap loop), migration and JSON; tables are maps and the size is an oracle.
- Arithmetic widths: the row and reading counts of a minute are unbounded (64 bits need that many inserts), and CPU and temperature are reals without rounding.
- `query`'s limit of 43,200 rows: only page queries are modelled.
- Pager.HandleHistory: starts after the permission, version and resolution checks; a client that goes away while samples are written is not modelled.
- Sampling hardware and the clock: samples, times and storage answers are inputs.
- Files: persisting succeeds or fails atomically; poisoned locks, permissions and temporary files are not modelled.
- Fleet and Authorization: modelled as step relations over values, not as classes, because their point is interleaving; records, snapshots and permissions are reduced to presence.
- Fleet.QuiescentMonitorIsTheTrackedOne: an import that has not inserted its record yet does not count as mid-flight.
- Backoff, the persist throttle and path announcements of the monitor loop.
- Concurrent alert commands and hand edits of the configuration file: commands run one after another.
- The wording of alert and error lines: only their order and the rule they come from.
- TrendWindow, relay, advertised-address and bundle handling, the user interface and the updater: they would only add easy members.
- Pairing secrets: decoding of the supplied text is an input, and comparison time is not modelled.
