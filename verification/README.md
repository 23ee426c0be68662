# The stateful kernel of `jeeves`, modelled and proved

`jeeves` is an IRC bot whose host process keeps durable promises for its modules: timers, achievements,
identities, a brass economy and command names. This project models those parts in Dafny and proves what
they promise over every run.

Each SQL table is a map. Each statement is one atomic step that can fail with no effect of its own, and a
transaction happens entirely or not at all, except where the source takes a failing query for an answer. The clock,
fresh identifiers, random bytes and the order in which the database returns unordered rows are inputs. Where the
source updates state in place, a class does the same with loops and fields, and every method is proved equal to a
step of a state machine on values; the theorems about runs are lemmas about that machine.

| component | files |
|---|---|
| durable scheduler | `SchedulerModel.dfy` (steps, invariant), `SchedulerInvariant.dfy`, `SchedulerRuns.dfy` (theorems), `SchedulerEffects.dfy` (what each request does, delivery in the end), `SchedulerFaults.dfy` (clock set back, crash during a pause, unreadable table), `Scheduler.dfy` (classes) |
| achievement store | `AchievementModel.dfy`, `AchievementPasses.dfy`, `AchievementRuns.dfy`, `AchievementSafety.dfy` (theorems), `AchievementEffects.dfy` (what each writer does), `AchievementFaults.dfy`, `Achievements.dfy` (class) |
| achievement board | `Board.dfy`, `BoardScope.dfy` |
| identity resolution | `CaseFolding.dfy`, `IdentityModel.dfy`, `IdentityRuns.dfy` (theorems), `IdentityFaults.dfy` (visits without an account, orphans, clashes), `IdentityEffects.dfy` (where nicks and accounts lead), `Identity.dfy` (class) |
| brass economy | `EconomyModel.dfy`, `EconomyKeys.dfy`, `EconomyRuns.dfy` (theorems), `Economy.dfy` (class) |
| command registry | `Greedy.dfy`, `Commands.dfy`, `CommandOverrides.dfy`, `CommandDefaults.dfy` (theorems), `CommandRegistry.dfy` (class) |
| bounded buffers and limiters | `RecentModel.dfy`, `RecentLines.dfy`, `SlidingWindow.dfy`, `FixedWindow.dfy` |
| query strings, randomness | `QueryString.dfy`, `Entropy.dfy` |
| shared | `Prelude.dfy`, `Text.dfy`, `StableSort.dfy` |

## Where the code falls short of the obvious promise

Each of these is a lemma with concrete inputs, next to the exact condition under which the promise holds.

* **A clock set back loses a job** (`ClockSetBackLosesAJob`, a run from an empty table). The completion test
  compares whole versions. A job accepted while an older delivery of its key is outstanding is deleted by that
  delivery's completion exactly if its request repeats the older one and gets the same creation time
  (`StaleCompletionDeletesIff`), which takes a clock reading earlier than the latest
  (`RepetitionNeedsAnEarlierReading`); with a clock that never goes back it cannot happen (`NoStaleCompletion`).
* **Cancelling a job in flight hands its successor out twice** (`CancelInFlightDeliversTwice`). The
  delivery discipline holds throughout a run if and only if no successful cancel hits a key in flight
  (`DisciplineOverRuns`).
* **A crash forgets the pause after a rejection** (`CrashBreaksThePause`, rejected at 20 and sent again at 21).
  Over every run a rejected version cannot be sent within 30 seconds if and only if no crash within them finds
  it stored (`RejectedIsNotRedelivered`).
* **A failing existence query counts as "not held".** One such failure while the required set is tested
  deletes a well-earned `whole_shooting_match` (`FailedReadDropsTheBadge`). A read, an award or a catalogue
  pass leaves the badge right exactly unless the query for a required achievement of a complete collection fails
  (`ReadChangesNothingIff`, `AwardSettlesBadge`, `CatalogSettlesBadges`).
* **A visit without an account need not keep its profile.** Such a sender stays recognised as a profile over a run
  if and only if no event writes an equivalent alias for another profile, binds an account to this one, or erases
  it (`VisitLastsIff`; `StepKeepsKnownIff` for one event). So once the registered owner of the nick has spoken
  again, the same visitor's next line gets one more profile, though no statement has failed
  (`VisitEndsWithoutAFailure`, a run from empty tables for any distinct UUIDs).
* **Resolving a sender can fail**, exactly when a statement fails or a new profile needs a disambiguated nick that
  is itself taken (`ResolveFailsOnlyOnClash`). It does in the same run when the new UUID starts with the eight
  digits of the visitor's first one (`ClashHasNoSender`).
* **A resolution that fails half way can orphan a new profile.** The statements run outside a transaction. The
  invariant survives every prefix of them, and right afterwards the sender is recognised as the new profile,
  except if it was stored under a disambiguated nick and the next statement, the alias, failed (`OrphanedIff`;
  `HalfWayIsOrphaned` is a run from empty tables for any two UUIDs).
* **Ledger rows whose event id starts with U+10FFFF are never pruned.** `kv_list_module_prefix` says that
  it lists every key with the prefix, but its upper bound shuts those out (`ScanSees`), so the ledger can
  outgrow 200 rows (`LedgerCanOutgrowItsBound`); `LedgerSizeAfterChange` gives the exact size.
* **Within one second the key decides which ledger rows are latest.** A new event can be forgotten the moment
  it is applied and then apply again (`TiedEventAppliesTwice`); it is remembered exactly if fewer than 200
  scanned rows come after it (`FreshRowRememberedIff`).
* **Ledger keys do not escape network labels.** Profile ids are UUIDs, so balances never collide
  (`BalanceKeysApart`), but two ledgers overlap exactly if one network's label goes on from the other's with
  the person's own id (`LedgersOverlapIff`). Then an event never applied to one person can pass for a repetition
  (`NestedLabelsShareAnEvent`, for any two ids the host can issue). Labels without colons never nest
  (`ColonFreeLabelsNeverNest`).
* **Without a minimum gap a sliding window depends on the order of calls.** The clock is read before the lock is
  taken. With a gap (GIF) the limits hold in every order (`AdmittedIffLegalInAnyOrder`). Without one (CoinGecko)
  the limit holds over every `w` if and only if `w` is at most the window less the disorder of the calls
  (`ExactWindow`), so over the full minute if and only if calls enter in order: one nanosecond of disorder
  breaks it (`WithoutGapOrderMatters`).
* **The web server's fixed window depends on the order of requests too.** Admissions of one client 240 places
  apart are at least `w` apart, whatever the requests, if and only if `w` is at most a minute and a nanosecond
  less their disorder (`ExactDistance`; `LateRequestBreaks` has the requests).
* **The accepted zone of `Entropy::below` is exactly half, not more than half, for `upper == 2^31`** and for no
  other value (`ZoneIsMoreThanHalfIff`).

## Assumptions

* The scheduler is the only writer of `scheduled_jobs`. A restart in a run can read the table; what holds after a
  load that fails is stated apart (`MemoryAfterFailedLoad`, `RowsOutliveAFailedLoad`): promises about memory
  survive, the quota among them, which then counts only what is in memory.
* A network's casemapping does not change during a run, and only `economy_change` writes economy keys.
* Loaded achievement catalogues have been validated and come from a map keyed by module name
  (`crates/jeeves/src/modules/mod.rs:794-812`), so names are distinct; no module is called `meta`, profile ids are
  not empty, and a module awards and backfills under its own catalogue. The set of catalogues is fixed during a run.
* Limiter calls may enter in any order; where a statement depends on it, `skew` bounds how far a call's clock
  reading lies before an earlier caller's.

## Model

| member | source | states |
|---|---|---|
| SchedulerRuns.NoStaleCompletion | crates/jeeves/src/scheduler.rs:300-308 | from any restored table, after any run with a non-decreasing clock (cancels, replacements, duplicate deliveries, failures, crashes), each outstanding completion's key is absent, holds exactly the delivered version, or holds a job due strictly later |
| SchedulerFaults.ClockSetBackLosesAJob | crates/jeeves/src/scheduler.rs:304-313 | a run from an empty table (accepted at 10, sent at 20, cancelled, idle at 30) after which, with the clock back at 10, the same request is accepted again and deleted by the outstanding completion |
| SchedulerFaults.StaleCompletionDeletesIff | crates/jeeves/src/scheduler.rs:304-313 | at any readings, a job accepted while a delivery of its key is outstanding is deleted by that completion iff its request repeats it and it gets the same creation time |
| SchedulerFaults.RepetitionNeedsAnEarlierReading | crates/jeeves/src/scheduler.rs:463-466 | a request that repeats an outstanding delivery is accepted only at a reading before that delivery's due time, hence before the latest reading |
| SchedulerRuns.CrashLosesNothing | crates/jeeves/src/scheduler.rs:170-178 | after every run, failed database calls included, memory and table agree and a crash restores exactly the jobs in memory |
| SchedulerRuns.NoAcceptedJobLost | crates/jeeves/src/scheduler.rs:229-348 | over every run a held version leaves memory and table only by a successful cancel, an accepted replacement, or a successful completion of that version |
| SchedulerRuns.OnlyDischargeRemoves | crates/jeeves/src/scheduler.rs:219-351 | no other single step removes or marks a held version |
| SchedulerRuns.AcceptedJobIsHeld | crates/jeeves/src/scheduler.rs:234-258 | a request that passes validation is held in memory and in the table from that step on |
| SchedulerRuns.QuotaOverRuns | crates/jeeves/src/scheduler.rs:467-471 | no module holds more than 128 jobs in any run whose restored table kept the quota |
| SchedulerRuns.PassLeavesNothingDue | crates/jeeves/src/scheduler.rs:353-447 | after clean-up and delivery every job not in flight wakes strictly after the clock reading that decided about it |
| SchedulerRuns.NeitherSpinsNorOversleeps | crates/jeeves/src/scheduler.rs:183-201 | with the loop's three readings: the wait is zero iff some idle job wakes by the last one, such a job was not yet due at the reading that decided about it (so one reading throughout gives a positive wait), and a positive wait ends no later than the earliest wake time |
| SchedulerRuns.StepKeepsDiscipline | crates/jeeves/src/scheduler.rs:262-278 | one step keeps "in flight = keys of outstanding completions, one each" exactly if it is no successful cancel of a key in flight |
| SchedulerRuns.DisciplineOverRuns | crates/jeeves/src/scheduler.rs:262-404 | over a whole run the discipline holds throughout if and only if no cancel hits a key in flight |
| SchedulerFaults.CancelInFlightDeliversTwice | crates/jeeves/src/scheduler.rs:262-303 | a run from an empty table after which a version is outstanding twice |
| SchedulerRuns.NoEarlyDelivery | crates/jeeves/src/scheduler.rs:362-373 | every delivery handed out in any run from a restored table is of a restored job or of one accepted in that run, and never before its due time |
| SchedulerEffects.CancelMeans | crates/jeeves/src/scheduler.rs:262-278 | after a cancel with the table up the key is in none of memory, table, retry times, in flight and completed, in flight or not; every other key, and every outstanding completion, stays as it was |
| SchedulerEffects.CancelledIsNotDelivered | crates/jeeves/src/scheduler.rs:262-404 | over every run after a cancel nothing is delivered under its key until a request for the key is accepted |
| SchedulerEffects.AbsentStaysAbsent | crates/jeeves/src/scheduler.rs:183-216 | over every run a key without a job stays without one, in memory and table, until a request for it is accepted |
| SchedulerEffects.SetMeans | crates/jeeves/src/scheduler.rs:229-261 | a request concerns its own key only, and a refused one or one that is not stored nothing at all |
| SchedulerEffects.StoredIffWellFormedAndFits | crates/jeeves/src/scheduler.rs:449-472 | a request stores its job exactly if it is well-formed (160 bytes of id, 2048 of payload, a place, due within 366 days) and would not give the module more than 128 jobs, so a replacement is accepted at a full quota |
| SchedulerEffects.WaitingIsDelivered | crates/jeeves/src/scheduler.rs:353-404 | over every run a held job that is not in flight is delivered by the first pass at or after its time, unless it is discharged or put off before |
| SchedulerEffects.AcceptedIsDelivered | crates/jeeves/src/scheduler.rs:229-404 | so an accepted job is delivered by the first pass at or after its due time |
| SchedulerEffects.RejectedGoesOutAgain | crates/jeeves/src/scheduler.rs:338-404 | and a rejected one by the first pass 30 s after its rejection |
| SchedulerEffects.RefusedGoesOutAgain | crates/jeeves/src/scheduler.rs:353-404 | and one that the queue refused by the first pass 30 s later |
| SchedulerEffects.CrashedIsDelivered | crates/jeeves/src/scheduler.rs:170-404 | and a stored one after a crash, in flight or not |
| SchedulerEffects.CompletedIsNotDelivered | crates/jeeves/src/scheduler.rs:300-337 | after a successful completion its version is not delivered again, whether or not the table could be written, until an equal one is accepted or a crash finds it still stored |
| SchedulerEffects.CleanUpDeletes | crates/jeeves/src/scheduler.rs:406-447 | the first clean-up with the table up, 30 s after a completion that could not be written, leaves no trace of the key |
| SchedulerFaults.RejectedIsNotRedelivered | crates/jeeves/src/scheduler.rs:338-347 | at no point of a run can a rejected version be sent within 30 s if and only if no crash within them finds it stored; without such a crash it is not sent |
| SchedulerFaults.StepKeepsWaiting | crates/jeeves/src/scheduler.rs:338-347 | one step keeps the pause iff it is not a crash that finds the version stored |
| SchedulerFaults.PauseHoldsIff | crates/jeeves/src/scheduler.rs:353-404 | the same over whole runs, from any state in which the version waits |
| SchedulerFaults.CrashForgetsThePause | crates/jeeves/src/scheduler.rs:170-181 | after a crash a stored version that is due goes out with the first pass |
| SchedulerFaults.CrashBreaksThePause | crates/jeeves/src/scheduler.rs:170-181 | a run from an empty table: rejected at 20, crash, sent again at 21 |
| SchedulerFaults.MemoryAfterFailedLoad | crates/jeeves/src/scheduler.rs:170-174 | after a load that fails memory evolves exactly as from an empty table, so its invariant and quota hold |
| SchedulerFaults.RowsOutliveAFailedLoad | crates/jeeves/src/scheduler.rs:170-178 | a row that memory does not know stays until its key is cancelled or set, and a readable restart brings it back together with everything in memory |
| SchedulerInvariant.RestoredStateIsGood | crates/jeeves/src/scheduler.rs:170-181 | the restored state satisfies the invariant |
| SchedulerInvariant.RunKeepsInv | crates/jeeves/src/scheduler.rs:183-216 | every run keeps the invariant: table mirrors memory, retry times belong to stored jobs that are already due and never precede their due time, `completed` and `in_flight` stay disjoint, tokens alias no later job |
| Scheduler.JobTable.Load | crates/jeeves/src/db.rs:3787-3806 | a load that succeeds returns exactly the stored rows |
| Scheduler.JobTable.Save | crates/jeeves/src/db.rs:3808-3828 | inserts or replaces one row, or fails without effect |
| Scheduler.JobTable.Delete | crates/jeeves/src/db.rs:3830-3835 | removes one row and reports whether it existed, or fails without effect |
| Scheduler.Scheduler.Restore | crates/jeeves/src/scheduler.rs:170-181 | memory is the table, or empty when the table cannot be read (the rows stay) |
| Scheduler.Scheduler.HandleSet | crates/jeeves/src/scheduler.rs:229-261 | validation, table write and memory update as one step with the reply of each branch |
| Scheduler.Scheduler.HandleCancel | crates/jeeves/src/scheduler.rs:262-278 | removes the key from table and all four collections, or changes nothing when the table fails; the contract states the removal also for the key itself |
| Scheduler.Scheduler.HandleComplete | crates/jeeves/src/scheduler.rs:300-348 | stale, successful, deferred and rejected completions, each with its whole new state |
| Scheduler.Scheduler.FinishCompleted | crates/jeeves/src/scheduler.rs:406-447 | the loop over ready keys equals one step on the whole set, whatever its order |
| Scheduler.Scheduler.DeliverDue | crates/jeeves/src/scheduler.rs:353-404 | sends exactly the due jobs that the queue accepts, in due order, and marks or delays each |
| Scheduler.Scheduler.NextWait | crates/jeeves/src/scheduler.rs:194-201 | the least wake time of the idle jobs, clamped to 0..60 s |
| Scheduler.Scheduler.Turn | crates/jeeves/src/scheduler.rs:183-201 | one turn of the loop: clean-up, delivery, wait |
| Scheduler.SortDue | crates/jeeves/src/scheduler.rs:363-373 | exactly the due jobs, ordered by due and creation time |
| AchievementSafety.RunKeepsInv | crates/jeeves/src/db.rs:1840-2034 | every interleaving of award, backfill, reconcile, opt-out, publish, read, erasure and new profiles keeps all derived tables exact for every profile |
| AchievementSafety.StepKeepsGood | crates/jeeves/src/db.rs:2264-2407 | one step of any writer keeps every profile's rows exact, also those it does not touch |
| AchievementSafety.DerivedTablesAreExact | crates/jeeves/src/db.rs:1912-1967 | in every reachable state an unlock row exists iff the stored counter reaches the threshold, and every rank, absent meaning 0, is the closed formula |
| AchievementSafety.CatalogSettlesBadges | crates/jeeves/src/db.rs:2378-2407 | after a catalogue pass `whole_shooting_match` of a visited profile is held iff its required set is non-empty and fully unlocked, exactly unless the query for a required achievement of a complete collection failed |
| AchievementRuns.AwardSettlesBadge | crates/jeeves/src/db.rs:1965-2034 | the same after every applied award |
| AchievementPasses.MetaStepMeans | crates/jeeves/src/db.rs:1975-2034 | of the milestones exactly those held before or reached by the visible count (10, 25, 50) are there afterwards, the badge is held iff the collection is complete and no query for a required achievement fails, and no row outside the profile's collection changes |
| AchievementRuns.AwardKeepsGood | crates/jeeves/src/db.rs:1840-1973 | an applied award leaves the awarded profile exact |
| AchievementRuns.AwardFrame | crates/jeeves/src/db.rs:1840-1973 | an award changes nothing of any other profile, in any table |
| AchievementRuns.AwardAddsToStats | crates/jeeves/src/db.rs:1896-1911 | an applied award adds exactly its totals to the profile's counters of that module, and nothing anywhere else |
| AchievementRuns.AppliesIffLive | crates/jeeves/src/db.rs:1840-1911 | an award applies exactly if the profile exists and has not opted out, the request is well-formed, the event id valid and unseen, and every counter still fits 63 bits; whether the profile is closed to backfills makes no difference |
| AchievementRuns.OutcomeMeans | crates/jeeves/src/db.rs:1881-1911 | for a well-formed request: an error iff the profile is unknown, silence iff it has opted out, a duplicate iff the event has been seen |
| AchievementRuns.TotalIsAdditive | crates/jeeves/src/db.rs:1860-1880 | the total of two lists is the sum of their totals, and of one increment its amount |
| AchievementEffects.AwardMeans | crates/jeeves/src/db.rs:1840-1973 | a live award adds its totals to this profile's counters of this module, remembers its event, and changes no other counter, event, flag or marker; any other award changes nothing |
| AchievementEffects.CountersFit | crates/jeeves/src/db.rs:1896-1911 | over every run of all writers no counter outgrows a signed 64-bit column |
| AchievementEffects.UnlockTimesStay | crates/jeeves/src/db.rs:1913-1932 | an unlock carries the time of the event that made it, and no later event changes that |
| AchievementPasses.RankMeans | crates/jeeves/src/db.rs:1941-1945 | a rank counts the thresholds `first`, `first + every`, ... that the value reaches |
| AchievementRuns.ReconcileRestores | crates/jeeves/src/db.rs:2330-2376 | reconciling a module whose counters ran ahead makes its rows and ranks exact |
| AchievementPasses.UnlockPassMeans | crates/jeeves/src/db.rs:1913-1932 | the pass adds exactly the rows of reached achievements and keeps old unlock times |
| AchievementPasses.PrestigePassRanks | crates/jeeves/src/db.rs:1933-1963 | each rank becomes the maximum of its old value and the formula |
| AchievementPasses.PrestigePassRows | crates/jeeves/src/db.rs:1933-1963 | only ranks that some formula raises change |
| AchievementSafety.BackfillKeepsGood | crates/jeeves/src/db.rs:2264-2328 | a backfill keeps every profile exact and changes nothing of ineligible or unnamed ones |
| AchievementSafety.BackfillRaises | crates/jeeves/src/db.rs:2310 | an eligible counter ends at least at every value sent for it |
| AchievementEffects.BackfillIsSetMax | crates/jeeves/src/db.rs:2264-2328 | an acceptable batch makes each counter of an eligible profile exactly the largest of its old value and the values sent for it; every other counter, and every counter for a batch that is refused, stays |
| AchievementEffects.BackfillMarks | crates/jeeves/src/db.rs:2317 | it marks exactly the touched profiles with the catalogue's version, never an older one |
| AchievementSafety.CatalogPassIgnoresTheEmpty | crates/jeeves/src/db.rs:2378-2407 | thresholds above zero make the catalogue pass a no-op for a profile without rows |
| AchievementSafety.CatalogKeepsInv | crates/jeeves/src/db.rs:2378-2407 | a catalogue pass over any list of profiles keeps all profiles exact |
| AchievementSafety.OptOutIsHonoured | crates/jeeves/src/db.rs:4317-4357 | in every reachable state an opted-out or erased profile has no row in any of the five tables; an opted-out one is not public and backfill-blocked |
| AchievementSafety.OptOutMeans | crates/jeeves/src/db.rs:4335-4357 | what the flag update does to the profile, and that no other profile is touched |
| AchievementEffects.ErasureMeans | crates/jeeves/src/db.rs:4279-4333 | an erasure removes the profile and its rows, and changes nothing of anybody else |
| AchievementEffects.PublicMeans | crates/jeeves/src/db.rs:4359-4377 | the gallery flag of a profile that takes part is set, and nothing else ever changes |
| AchievementSafety.OnlyLiveAwardsCount | crates/jeeves/src/db.rs:2303-2307 | until its next reset a blocked profile's counter grows by exactly the applied live awards, over any run |
| AchievementSafety.CountersSinceOptOut | crates/jeeves/src/db.rs:4335-4357 | after an opt-out each counter equals the sum of live awards applied since, however often the profile opts back in |
| AchievementSafety.EventCountsOnce | crates/jeeves/src/db.rs:1881-1895 | an event applied once is not applied again in any run up to the profile's next reset |
| AchievementSafety.ReadChangesNothingIff | crates/jeeves/src/db.rs:2042-2056 | reading a summary changes nothing iff the badge is not held or no query for a required achievement fails; otherwise it deletes the badge |
| AchievementFaults.FailedReadDropsTheBadge | crates/jeeves/src/db.rs:2053-2056 | a reachable state in which one failing query deletes a well-earned badge |
| AchievementSafety.SummaryAgreesWithRows | crates/jeeves/src/db.rs:2061-2068 | what a summary counts from counters equals what the milestones count from rows |
| Achievements.ValidateManifest | crates/jeeves/src/db.rs:1770-1838 | accepts exactly the valid manifests |
| Achievements.SumIncrements | crates/jeeves/src/db.rs:1860-1880 | totals per stat, or a refusal exactly when an increment is zero, unknown or overflows |
| Achievements.AchievementStore.Award | crates/jeeves/src/db.rs:1840-1973 | the outcome of every branch and the whole new state; applied exactly if live; errors roll back, deduplication included |
| Achievements.AchievementStore.ApplyMeta | crates/jeeves/src/db.rs:1975-2034 | milestones granted and badge settled from nested counting loops whose failing queries count as missing rows |
| Achievements.AchievementStore.IsComplete | crates/jeeves/src/db.rs:2008-2019 | decides whether the required set is non-empty and every query for it answers yes |
| Achievements.AchievementStore.MaxRanks | crates/jeeves/src/db.rs:2351-2374 | writing the maximum of old and new rank equals writing only rising ranks |
| Achievements.AchievementStore.Backfill | crates/jeeves/src/db.rs:2264-2328 | applies in full exactly for a valid batch, else leaves every table as it was |
| Achievements.AchievementStore.ReconcileCatalogs | crates/jeeves/src/db.rs:2378-2407 | refuses exactly if a manifest is invalid, else visits every profile |
| Achievements.AchievementStore.SetOptOut | crates/jeeves/src/db.rs:4335-4357 | fails exactly for an unknown profile; flags and rows change together |
| Achievements.AchievementStore.SetPublic | crates/jeeves/src/db.rs:4359-4377 | succeeds exactly for a profile that takes part |
| Achievements.AchievementStore.DropStaleBadge | crates/jeeves/src/db.rs:2042-2056 | deletes the badge of a collection that is, or looks, incomplete |
| Achievements.AchievementStore.FinishErasure | crates/jeeves/src/db.rs:4279-4333 | removes the profile and all its achievement rows |
| Board.LeadersEarnEverything | crates/jeeves/src/achievement_board.rs:98-125 | before truncation there is one leader per collector and their counts sum to the rows in scope |
| Board.HoldersCoverEverything | crates/jeeves/src/achievement_board.rs:126-151 | before truncation the holder counts sum to the rows in scope |
| Board.EarnedEqualsHeld | crates/jeeves/src/achievement_board.rs:98-151 | total earned equals total held equals the number of rows |
| Board.HoldersArePeople | crates/jeeves/src/achievement_board.rs:127-130 | a holder count is the number of different profiles holding the achievement |
| Board.RankLeaders | crates/jeeves/src/achievement_board.rs:98-125 | every collector once with count, latest unlock and nick, ordered by count, then earliest, then id |
| Board.RankRarities | crates/jeeves/src/achievement_board.rs:126-151 | every held achievement once, rarest first, open before secret, then by shown name, module and id |
| Board.Board | crates/jeeves/src/achievement_board.rs:26-170 | each list returned is the front of the fully sorted list, cut at the clamped limit; scope, collectors and available are exact |
| BoardScope.SelectMeans | crates/jeeves/src/achievement_board.rs:58-77 | a row counts, as often as it is there, exactly if it is of this network, of somebody who has not opted out, and of an achievement in scope |
| BoardScope.NamesMean | crates/jeeves/src/achievement_board.rs:46-57 | in scope are exactly the achievements of the loaded modules, or of the one asked for in any ASCII case, each with its name and secrecy |
| BoardScope.OptedOutAreAbsent | crates/jeeves/src/achievement_board.rs:58-85 | nobody who has opted out is a collector, a leader, a holder or a recent unlocker |
| BoardScope.SinceMeans | crates/jeeves/src/achievement_board.rs:148-163 | recent unlocks are those from the given time on, row by row, with secret names covered |
| BoardScope.CutMeans | crates/jeeves/src/achievement_board.rs:44 | lists are cut at the limit asked for, held between 1 and 200 |
| CaseFolding.EquivalentMeans | crates/jeeves/src/casemapping.rs:32-48 | nicks are equivalent iff they agree letter by letter under the pairs of RFC 1459, section 2.2 (strict and ASCII variants) |
| CaseFolding.FoldTwice | crates/jeeves/src/casemapping.rs:32-44 | folding is idempotent |
| CaseFolding.NoCaseIsEquivalent | crates/jeeves/src/casemapping.rs:32-48 | nicks that SQLite's NOCASE takes for equal are equivalent under every mapping |
| IdentityRuns.RunKeepsInv | crates/jeeves/src/db.rs:3206-3295 | over every run, also of resolutions that fail after any statement, aliases and accounts point to live profiles, no two accounts share one, and no two alias rows of a network are equivalent |
| IdentityRuns.AccountIsWrittenOnce | crates/jeeves/src/db.rs:3235-3241 | an account keeps its profile over every run that does not erase it |
| IdentityRuns.SpeakerGetsNoBackedProfile | crates/jeeves/src/db.rs:3093-3128 | a speaker with no usable account (absent, empty or `*`) is never handed an account-backed profile |
| IdentityRuns.ResolveAgainChangesNothing | crates/jeeves/src/db.rs:3206-3247 | resolving the same sender again at once returns the same profile and changes no table, however far its statements get (for the rest of a visit see `VisitLastsIff`) |
| IdentityRuns.LookupFindsResolved | crates/jeeves/src/db.rs:3085-3132 | a lookup of any equivalent nick then finds that profile |
| IdentityRuns.ResolveFailsOnlyOnClash | crates/jeeves/src/db.rs:3206-3247 | resolution fails iff a statement fails or a new profile's disambiguated nick is already taken |
| IdentityRuns.AttachKeepsInv | crates/jeeves/src/db.rs:3234-3245 | every prefix of the attaching statements keeps the invariant |
| IdentityRuns.AccountCaseIsIrrelevant | crates/jeeves/src/db.rs:2664-2669 | accounts that differ only in ASCII case are one account |
| IdentityRuns.AliasIsUnique | crates/jeeves/src/db.rs:3134-3161 | without equivalent twins the lookup has one answer |
| IdentityFaults.ResolvedIsKnown | crates/jeeves/src/db.rs:3206-3247 | whoever has been resolved without a usable account is known: the nick leads to that profile, which no account owns |
| IdentityFaults.KnownIsRecognised | crates/jeeves/src/db.rs:3093-3128 | a sender without a usable account under a known nick is recognised as that profile |
| IdentityFaults.StepKeepsKnownIff | crates/jeeves/src/db.rs:3206-3295 | one event, however far its statements get, ends this iff it writes an equivalent alias for another profile, binds an account to this one, or erases it |
| IdentityFaults.VisitLastsIff | crates/jeeves/src/db.rs:3206-3295 | over a whole run the nick stays known throughout iff no event of the run does that |
| IdentityFaults.VisitEndsWithoutAFailure | crates/jeeves/src/db.rs:3217-3245 | for any distinct UUIDs: bob registers, an unregistered bob speaks, bob speaks; then nobody recognises the visitor, whose next line gets another profile |
| IdentityFaults.ClashHasNoSender | crates/jeeves/src/db.rs:3217-3230 | after the same run the visitor's next line resolves to nobody when the new UUID shares its first eight digits with the first one, though every statement could run |
| IdentityFaults.OrphanedIff | crates/jeeves/src/db.rs:3217-3241 | right after a resolution that made a profile the same sender is not recognised as it iff it was stored under a disambiguated nick and its alias was not written |
| IdentityFaults.HalfWayIsOrphaned | crates/jeeves/src/db.rs:3217-3241 | a run from empty tables, for any two UUIDs, that ends so |
| Identity.NoTwinsNoContest | crates/jeeves/src/db.rs:3148-3154 | in a good state the "multiple profiles" error cannot occur |
| Identity.Store.FindAlias | crates/jeeves/src/db.rs:3134-3161 | fails exactly if equivalent aliases have different owners; prefers the exact spelling |
| Identity.Store.FindId | crates/jeeves/src/db.rs:3085-3132 | account (in any case of letters), then alias, then profile rows, with the guard on account-backed profiles |
| Identity.Store.WriteAlias | crates/jeeves/src/db.rs:3163-3185 | updates the equivalent alias row or inserts one |
| Identity.Store.ResolveSender | crates/jeeves/src/db.rs:3206-3247 | the whole new state of a resolution whose statements fail after any number of them, the invariant kept |
| Identity.Store.BindNewNick | crates/jeeves/src/db.rs:3269-3295 | resolution of the old nick, then the new alias and name, as far as the statements get; a profile that is reported is the one the new nick leads to |
| Identity.Store.FinishErasure | crates/jeeves/src/db.rs:4279-4303 | removes the profile with its aliases and accounts |
| IdentityEffects.NickChangeMeans | crates/jeeves/src/db.rs:3269-3295 | after a nick change that reports a profile, in every good state: a lookup of any nick equivalent to the new one finds it, a sender without a usable account is recognised as it there unless an account owns it, and it is stored under the new nick unless another profile is |
| IdentityEffects.NewNickLeadsToTarget | crates/jeeves/src/db.rs:3278-3293 | the same as far as the statements get: the alias from the sixth on, the stored nick from the seventh on |
| IdentityEffects.NickChangeReportsIff | crates/jeeves/src/db.rs:3278-3295 | a nick change reports a profile exactly if all statements succeed and the old nick resolves |
| IdentityEffects.ResolvedLeadsTo | crates/jeeves/src/db.rs:3234-3245 | after a resolution, as far as its statements get, every equivalent nick and the account lead to the profile, and it is stored under the sender's nick unless another one is |
| IdentityEffects.AccountFindsResolved | crates/jeeves/src/db.rs:3097-3108 | the account, in any ASCII case, then resolves to the profile under whatever nick |
| IdentityEffects.RowsAreTheFallback | crates/jeeves/src/db.rs:3118-3131 | a nick without an alias finds somebody exactly if a profile of the network is stored under an equivalent one |
| IdentityEffects.ResolveLeavesOthers | crates/jeeves/src/db.rs:3206-3247 | a resolution leaves every other profile and every other account as it was |
| IdentityEffects.NickChangeLeavesOthers | crates/jeeves/src/db.rs:3269-3295 | so does a nick change |
| IdentityEffects.ErasureMeans | crates/jeeves/src/db.rs:4279-4303 | an erasure removes the profile and whatever leads to it on its network, and nothing else |
| IdentityEffects.ErasedIsNobody | crates/jeeves/src/db.rs:3085-3132 | nobody resolves to an erased profile, under whatever nick and account |
| EconomyRuns.BalanceIsConserved | crates/jeeves/src/db.rs:3881-3996 | over every run on colon-free profile ids (all that the host issues), whatever the network labels, a balance is its old value plus applied awards minus applied spends, as a u64 |
| EconomyRuns.AnswerMeans | crates/jeeves/src/db.rs:3881-3996 | for all tables and requests: the balance answered is the one in the table left behind; duplicate iff the event's row was there; not applied iff it was not, and a spend exceeded the balance, with the table unchanged; otherwise the balance moves by the amount; and which input gives which error |
| EconomyKeys.BalanceKeysApart | crates/jeeves/src/db.rs:3847-3849 | on colon-free profile ids no two people share a balance key, whatever the labels |
| EconomyKeys.SharedBalanceIff | crates/jeeves/src/db.rs:3847-3849 | over all strings a balance key is somebody else's too iff a field holds a colon |
| EconomyKeys.LedgerKeysApart | crates/jeeves/src/db.rs:3851-3863 | on colon-free ids a ledger prefix matches only its own person's rows, unless one label nests in the other |
| EconomyKeys.LedgersOverlapIff | crates/jeeves/src/db.rs:3851-3863 | on colon-free ids two people's ledgers overlap iff one network's label goes on from the other's with the person's own id |
| EconomyKeys.ColonFreeLabelsNeverNest | crates/jeeves/src/db.rs:3851-3863 | a label without colons nests in no other |
| EconomyKeys.NestedLabelsShareAnEvent | crates/jeeves/src/db.rs:3912-3947 | for any two UUIDs, with nested labels, an event never applied to the first person is answered as a repetition after the second person's award |
| EconomyRuns.ScanSees | crates/jeeves/src/db.rs:3998-4025 | a prefix scan sees exactly the keys with the prefix that do not go on with U+10FFFF |
| EconomyRuns.PruneMeans | crates/jeeves/src/db.rs:3860-3879 | pruning keeps exactly the 200 latest scanned rows by time and key, or all |
| EconomyRuns.LedgerSizeAfterChange | crates/jeeves/src/db.rs:3985-3990 | the exact size of a person's ledger after an applied change: at most 200 scanned rows plus those outside the scan |
| EconomyRuns.LedgerStaysBounded | crates/jeeves/src/db.rs:3855-3879 | at most 200 rows over every run without event ids that start with U+10FFFF |
| EconomyRuns.LedgerCanOutgrowItsBound | crates/jeeves/src/db.rs:3855-3879 | with such ids 250 awards leave 250 rows |
| EconomyRuns.EscapedRowsStay | crates/jeeves/src/db.rs:3998-4025 | a row outside the scan stays over every run |
| EconomyRuns.ReplayWindow | crates/jeeves/src/db.rs:3916-3947 | with a clock that moves on an event replays through the person's next 199 applied changes and is forgotten after the 200th |
| EconomyRuns.RowSurvivesIff | crates/jeeves/src/db.rs:3860-3879 | a scanned row survives a run while fewer than 200 rows have been pushed on top of it; with 200 or more it is gone unless its event is requested again |
| EconomyRuns.FreshRowRememberedIff | crates/jeeves/src/db.rs:3860-3879 | a change is remembered by the table it leaves iff fewer than 200 scanned rows are later |
| EconomyRuns.TiedEventAppliesTwice | crates/jeeves/src/db.rs:3866-3871 | after 200 awards in one second a 201st with a smaller id applies twice |
| Economy.SortByTime | crates/jeeves/src/db.rs:3866-3871 | the stable sort by time of rows in key order |
| Economy.FrontIsStale | crates/jeeves/src/db.rs:3872-3877 | deleting the front of the sorted listing is keeping the 200 latest |
| Economy.EconomyStore.ListPrefix | crates/jeeves/src/db.rs:3999-4025 | exactly the scanned keys, once each, in key order |
| Economy.EconomyStore.PruneLedger | crates/jeeves/src/db.rs:3860-3879 | the whole table after pruning |
| Economy.EconomyStore.Change | crates/jeeves/src/db.rs:3881-3996 | the response of every branch and the whole new table, and what the response says about the tables before and after |
| CommandOverrides.OverrideTakesEffect | crates/jeeves/src/commands.rs:178-330 | an accepted override leaves the command with exactly the normalized list in order |
| CommandOverrides.OverrideStealsNothing | crates/jeeves/src/commands.rs:178-330 | every other command keeps each alias, and gains only what the overridden one gave up |
| CommandOverrides.ValidatorIsExact | crates/jeeves/src/commands.rs:178-208 | for a loaded command the validator accepts exactly the lists that take effect in full and steal nothing |
| CommandOverrides.CatalogIsOrdered | crates/jeeves/src/commands.rs:228-276 | the rebuilt commands have distinct canonical names, sorted |
| CommandOverrides.RebuildKeepsNames | crates/jeeves/src/commands.rs:210-276 | setting or removing an override leaves the rebuilt commands and their canonical names as they were, in order |
| CommandDefaults.FirstAskerAnswers | crates/jeeves/src/commands.rs:223-328 | every alias and every shortcut name that a spec, or its override, asks for is answered by the first command in order of name that asks for it, unless it is somebody's canonical name, and carries the words of that command's shortcut |
| CommandDefaults.NameIsAnswered | crates/jeeves/src/commands.rs:277-287 | every loaded command, the first valid spec of its name, answers to its canonical name |
| CommandDefaults.OnlyAskedForIsAnswered | crates/jeeves/src/commands.rs:223-328 | the index answers nothing else |
| CommandDefaults.CommandAsksFor | crates/jeeves/src/commands.rs:246-269 | a command asks for its override if there is one, else for the valid aliases and valid shortcut names of its spec |
| Commands.JoinKeepsWords | crates/jeeves/src/commands.rs:388-432 | a shortcut's words are kept, in order, with single spaces between them |
| CommandRegistry.CatalogIsSolelyOwned | crates/jeeves/src/commands.rs:277-328 | no name is answered to by two commands |
| CommandRegistry.IndexIsDisjointUnion | crates/jeeves/src/commands.rs:277-328 | every indexed name leads to its one owner, canonical names without expansion |
| CommandRegistry.IndexIsUnique | crates/jeeves/src/commands.rs:223-330 | specs and overrides determine the index |
| CommandRegistry.RewriteIsStable | crates/jeeves/src/commands.rs:366-386 | rewriting keeps leading blanks and arguments, replaces the first word, and repeating it for the canonical target changes nothing |
| CommandRegistry.TextHasFirstWord | crates/jeeves/src/commands.rs:371-379 | every text that is not blank splits into blanks, a first word and the rest, so the previous row covers it |
| CommandRegistry.BlankIsUntouched | crates/jeeves/src/commands.rs:371-376 | a blank text is not rewritten |
| CommandRegistry.Registry.ReplaceSpecs | crates/jeeves/src/commands.rs:85-93 | a good index for the new specs |
| CommandRegistry.Registry.SetOverride | crates/jeeves/src/commands.rs:210-221 | the override stored or removed, and a good index |
| CommandRegistry.Registry.ChangeAliases | crates/jeeves/src/commands.rs:178-221 | validate, then set: on success the command has exactly the list and every other keeps its own; on refusal nothing changes |
| CommandRegistry.Registry.Resolve | crates/jeeves/src/commands.rs:169-176 | answers iff the prefix is configured and some loaded command answers to the lower-cased name; the answer is the target of that sole command |
| CommandRegistry.Registry.ValidateOverride | crates/jeeves/src/commands.rs:178-208 | accepts exactly the acceptable lists; a clash names a command that uses the alias |
| CommandRegistry.Registry.Rebuild | crates/jeeves/src/commands.rs:223-330 | commands and index are those that specs and overrides determine, and every name is answered by the first command that asks for it |
| CommandRegistry.RegisterAll | crates/jeeves/src/commands.rs:228-270 | the first valid spec of each name, with defaults, shortcuts and overrides |
| CommandRegistry.GrantAll | crates/jeeves/src/commands.rs:277-328 | the greedy pass grants each alias to the first command that asks for it |
| CommandRegistry.NormalizeShortcuts | crates/jeeves/src/commands.rs:388-432 | valid shortcuts only, the first of each name |
| CommandRegistry.NormalizeDefaults | crates/jeeves/src/commands.rs:434-450 | valid names, without repetition and without the command itself, in order |
| CommandRegistry.ValidateAliasList | crates/jeeves/src/commands.rs:452-461 | accepts exactly lists of valid names without repetition |
| Commands.NormalizeName | crates/jeeves/src/commands.rs:463-480 | a result is a canonical name |
| Commands.NormalizeTwice | crates/jeeves/src/commands.rs:463-480 | normalizing a result again changes nothing |
| Commands.PlainNameNormalizes | crates/jeeves/src/commands.rs:463-480 | up to 32 ASCII letters, digits, hyphens and underscores, between any spaces, normalize to their lower case |
| Commands.OnlyPlainNamesNormalize | crates/jeeves/src/commands.rs:463-480 | nothing else normalizes |
| Greedy.GrantedMeans | crates/jeeves/src/commands.rs:288-326 | a name is granted iff it is free and asked for by nobody earlier |
| Greedy.OthersGainWhatIsGivenUp | crates/jeeves/src/commands.rs:288-326 | when one command asks for other free names, another gains only what it gave up |
| RecentModel.RunRefines | crates/jeeves/src/recent.rs:36-105 | over every run in time order each tracked channel's deque is the longest suffix, with at most 100 lines none over 3 h older than the newest, of its log since it was evicted or a purge last removed something from it; at most 1000 channels |
| RecentModel.BuffersAreTails | crates/jeeves/src/recent.rs:36-105 | over every run, in any time order, each deque has at most 100 lines and is the end of the channel's log without the purged lines |
| RecentModel.AnswerMeans | crates/jeeves/src/recent.rs:66-89 | an answer holds the channel's lines of the sender, kind and age asked for (at most 3 h), in their order: the newest up to the limit, all of them if it allows |
| RecentModel.EveryAnswerIsTheLogs | crates/jeeves/src/recent.rs:66-89 | from the newest line's time on, every query answers as the last 100 lines of the log would |
| RecentModel.PushKeepsLongest | crates/jeeves/src/recent.rs:55-62 | dropping old lines, then one more when full, then appending keeps the longest fitting suffix |
| RecentModel.PurgeRemovesExactly | crates/jeeves/src/recent.rs:92-105 | a purge removes exactly the profile's lines on that network and keeps the order of the rest |
| RecentModel.CleanTextIsPlain | crates/jeeves/src/recent.rs:37-42 | a recorded text has at most 500 characters and no control characters, and one without control characters keeps its first 500 |
| RecentModel.ControlsMakeNoDifference | crates/jeeves/src/recent.rs:37-42 | a control character anywhere in a text makes no difference |
| RecentLines.Buffer.Record | crates/jeeves/src/recent.rs:36-63 | cleans the text, evicts a least recently active channel when full, then pushes |
| RecentLines.Buffer.Query | crates/jeeves/src/recent.rs:66-89 | the newest matching lines, oldest first, up to the limit |
| RecentLines.Buffer.Purge | crates/jeeves/src/recent.rs:92-105 | every channel of the network filtered, the others untouched |
| SlidingWindow.RefusedOnlyWhenIllegal | crates/jeeves/src/gif.rs:78-90 | for any limits and calls entering in any order: a call is refused only if admitting it would put two admissions `cap` places apart within a window, or two within a gap |
| SlidingWindow.AdmittedIffLegalInAnyOrder | crates/jeeves/src/gif.rs:71-94 | with a gap (GIF: 90 an hour, a second apart) the limits hold over every history of calls in any order, and a call is admitted iff they still hold afterwards |
| SlidingWindow.AdmittedIsLegalUpToSkew | crates/jeeves/src/money.rs:204-219 | without a gap (CoinGecko: 15 a minute) they hold less the disorder of the calls; in order, a call is admitted iff they still hold afterwards |
| SlidingWindow.ExactWindow | crates/jeeves/src/money.rs:204-219 | without a gap the limit holds over `w`, for all calls with disorder at most `skew`, iff `w` is at most the window less `skew` |
| SlidingWindow.WithoutGapOrderMatters | crates/jeeves/src/money.rs:205-217 | without a gap, for every capacity above one, the limit holds over the full window iff calls enter in order; one nanosecond of disorder breaks it |
| SlidingWindow.RequestGate.AdmitRequest | crates/jeeves/src/gif.rs:71-94 | the GIF limiter: answer and whole new gate |
| SlidingWindow.CoingeckoGate.AdmitCall | crates/jeeves/src/money.rs:204-219 | the same limiter with 15 calls a minute and no gap |
| FixedWindow.AtMostTwoWindows | crates/jeeves/src/publicweb.rs:543-554 | over every run of all clients, a client's admissions 240 apart are more than a minute apart, less the disorder of the requests (up to a minute) |
| FixedWindow.ExactDistance | crates/jeeves/src/publicweb.rs:543-554 | the distance `w` is kept, for all requests with disorder at most `skew` (up to a minute), iff `w` is at most a minute and a nanosecond less `skew` |
| FixedWindow.LateRequestBreaks | crates/jeeves/src/publicweb.rs:543-554 | requests of one client, one of them entering late, that attain this distance |
| FixedWindow.RefusedOnlyWhenBusy | crates/jeeves/src/publicweb.rs:543-554 | a client is refused only when 120 earlier requests of its own lie within the last minute and the disorder of the requests |
| FixedWindow.OldWindowsAreForgotten | crates/jeeves/src/publicweb.rs:546-548 | windows of two minutes and older are forgotten with the next request of anybody, younger ones of others are kept |
| FixedWindow.RateLimiter.RateAllowed | crates/jeeves/src/publicweb.rs:543-554 | answer and whole new window map |
| QueryString.LinkRoundTrips | crates/jeeves/src/publicstats.rs:447-461 | for all server and channel bytes, reading the link back gives both, and no other parameter |
| QueryString.LinksDiffer | crates/jeeves/src/publicstats.rs:447-461 | different destinations never share a link |
| QueryString.DecodeUndoesEncode | crates/jeeves/src/publicweb.rs:637-666 | decoding inverts the percent-encoding of section 2.1 of RFC 3986 |
| QueryString.EncodedIsPlain | crates/jeeves/src/publicstats.rs:448-460 | an encoded value contains no `&`, `=` or `+` |
| QueryString.PercentDecode | crates/jeeves/src/publicweb.rs:637-666 | the index loop computes the decoding |
| QueryString.FindParam | crates/jeeves/src/publicweb.rs:630-635 | the first parameter of that name, decoded |
| QueryString.PairByPair | crates/jeeves/src/publicweb.rs:630-635 | for any query: the first pair of that name counts, its value being what follows the first equals sign, or nothing without one |
| QueryString.OtherBytesStay | crates/jeeves/src/publicweb.rs:637-666 | other bytes stand for themselves, a plus sign for a space, a percent sign that two hex digits do not follow for itself |
| QueryString.SignedEscape | crates/jeeves/src/publicweb.rs:648-650 | a plus sign before any hex digit is read as an escape, whatever follows |
| Entropy.EveryResidueEqually | crates/jeeves-guest/src/lib.rs:251-260 | the accepted range has exactly zone/upper values of each residue |
| Entropy.ZoneIsMoreThanHalfIff | crates/jeeves-guest/src/lib.rs:252-253 | the accepted range is more than half of the 32-bit range iff upper is not 2^31, where it is exactly half |
| Entropy.WordsAreSlices | crates/jeeves-guest/src/lib.rs:246-247 | the i-th word of a batch is its i-th slice from the end: no byte is handed out twice |
| Entropy.WordHoldsItsBytes | crates/jeeves-guest/src/lib.rs:247 | words stand one to one for their four bytes, the first the least significant |
| Entropy.Pool.NextU32 | crates/jeeves-guest/src/lib.rs:235-248 | hands out the next word of the pool and the coming batches; fails exactly when there is none |
| Entropy.Pool.Below | crates/jeeves-guest/src/lib.rs:251-260 | the first accepted word reduced, everything before it rejected, everything after it still ahead |
| StableSort.Sort | crates/jeeves/src/achievement_board.rs:113-114 | a permutation in the order that a stable sort gives to equal elements |

## Left out

* Scheduler: List and ListAll requests, log lines, the request channel (requests come in any order) and the delivery queue's capacity (any send may be refused).
* Scheduler: rows of `scheduled_jobs` deleted by `deletion_finish` and `purge_retired_modules` behind its back.
* Achievements: response lists, `achievement_catalog_versions`, masking and sorting in summaries, exports, and public gallery queries.
* Achievements: the order of rows in BTree maps and sets where the result does not depend on it is left arbitrary. Failing writes and other reads roll a transaction back and are steps without effect.
* Identity: `last_seen` and the editable profile fields, mid-run changes of casemapping, legacy host masks.
* Economy: JSON encoding of stored values (a malformed stored balance is kept as an error branch), and keys that modules write themselves.
* Commands: warnings, descriptions, usage texts, prefix editing and AI references.
* Recent lines: the lock, and the choice among equally stale channels (any may be evicted).
* Web limiter: parsing of client addresses, requests without one (always allowed), and wrap-around of the 32-bit counter.
* Query strings: `from_utf8_lossy` at the end of decoding, which changes nothing on valid UTF-8.
* Entropy: the host's batches are a finite list, so a draw ends; an endless supply of rejected words is not modelled.
* HTTP providers, rendering, the terminal interface, the WASM host and the IRC actor.
