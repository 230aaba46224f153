# Verified models of Open-Inspect

Dafny models of five parts of Open-Inspect whose correctness rests on an argument rather than on one
function body, and proofs of what their code and comments promise. `dafny verify dfyconfig.toml` checks
everything.

**Review statuses of a pull request** (`review_*.dfy`, `close_out_description.dfy`). A review's "pending"
start marker, its close-out and an approved stand-down race to set one commit status; a generation counter,
a fence row per review and one expiring lease keep them apart. `ReviewLease` gives the start marker and the
close-out as automata, one step per awaited effect, and writes out every course they can end by. `ReviewBot`
is the bot's code as methods over an effect log, with every answer from GitHub and the control plane
arbitrary; its methods are proved to take exactly the automata's steps. `ReviewProtocol` runs any number of
the same automata against the control plane's rows and lease and GitHub's statuses, in any interleaving.
`ReviewSafety`, `ReviewRuns`, `ReviewProgress`, `ReviewDrives`, `ReviewLateWrite` and `ReviewOverwrite` say
what every run guarantees and what it does not. `ReviewEffects` and `ReviewFates` follow each generation a
webhook obtains to its one fate.

**Webhook deliveries** (`delivery*.dfy`). The dedupe marker and the dispatch checkpoint over any number of
overlapping attempts, and the worker's handler as methods that take the same steps.

**Base-snapshot retention** (`retention*.dfy`, `stable_sort.dfy`). The planner, what its plan says of every
snapshot, the deletion loop that may fail at any artifact, and why running it again resumes it exactly.

**Service signatures and text formats** (`canonical_query.dfy`, `service_auth.dfy`, `disposition.dfy`,
`inline_flags.dfy`, `repo_match.dfy`, over `utf8.dfy`, `percent.dfy`, `delimited.dfy`, `js_text.dfy`). The
automata above are run by `automaton.dfy`.

**Paged GitHub reads, the checkout lock and the preview's object store** (`github_reads.dfy`,
`checkout_lock.dfy`, `object_storage.dfy`).

## Assumptions

- GitHub lands a status write within the request timeout of its being sent, or never, and a write is sent
  within the five-second margin of the deadline check before it (packages/github-bot/src/review-supersession.ts:34-57).
- Each statement of the control plane on its database is atomic, and each attempt's get-then-put on the
  dedupe marker is one step.
- A write GitHub acknowledged has landed, and one it refused with a 4xx never lands. A status read sees the
  latest write that has landed. Nobody but a start marker writes "pending".
- A read of the webhook's key-value store sees the latest write to the key that was applied.
- The bot's clock may be off by any constant; its pauses are never shorter than asked for.
- `Array.prototype.sort` is stable; its algorithm does not matter, because a sequence has one stable sorting.
- Texts are sequences of Unicode scalar values, so unpaired surrogates do not occur, except in a close-out's
  description, which is made of UTF-16 code units.

## Where the code and its comments differ

- packages/github-bot/src/review-close-out.ts:214 says nothing was written when the post was not
  acknowledged. After a 5xx, a timeout or no answer the write may still land, and the close-out has given
  its lease back: `UnsettledCloseOutOverwritesNewerVerdict` is a run where it lands over a newer verdict,
  and `WriteOutlivesFinalizeIffUnsettled` says exactly which answers allow it.
- packages/github-bot/src/review-close-out.ts:177-182 and 224-227 take a head read as terminal for closed
  out. A close-out that had read the head before may still land over it: `ReadVerdictAtRiskForOneLease`
  says for exactly how long, and in `DoneVerdictOverwritten` an earlier drive's unsettled write replaces the
  verdict after the review has been finalized `done`.
- packages/github-bot/src/review-start.ts:412-418 limits the stand-down's residual race to writers that
  held the lease when the claim landed. A close-out may also be granted after the claim
  (`CloseOutGrantedAfterClaimOverwritesSkip`). What holds in every run is that a close-out that lands over
  the skip had read the head before it (`OverwriterReadBefore`), that the skip is at risk for exactly one
  submission lease (`SkipAtRiskForOneLease`), and that it is at risk at all exactly when, as it is shown,
  some close-out of the head can still land its write (`OverwrittenLaterIffCanStillLand`).
- packages/shared/src/service-auth.ts:82 promises that the order of query parameters does not matter. It
  does when two different entries share the sort key, which takes a NUL in a key:
  `OrderIrrelevantIffUntied`, `NulKeysKeepTheirOrder`.
- packages/shared/src/inline-prompt-flags.ts:64 can return text that is itself a flag. Which texts make it do
  so: `ReturnsFlagExactly`.
- packages/github-bot/src/index.ts:263-264 says the dispatch checkpoint prevents a second session. It does
  unless an attempt outlives its marker, a checkpoint is lost or lapses, or a dispatch throws after creating
  its session: `SecondSessionIffFault` says that a second session is possible exactly when one of these is.
- packages/github-bot/src/index.ts:246-257 clears the marker whoever put it, so a failed attempt can remove
  the `processed` of one that succeeded: exactly when an attempt may outlive its marker
  (`ProcessedLostIffMarkerOutlived`).

## Model

| member | source | states |
|---|---|---|
| `ReviewRuns.NoPendingOnceCloseOutGranted` | packages/github-bot/src/review-start.ts:285-346 | In every run, once a review's close-out has been granted, no "pending" of that review lands any more |
| `ReviewRuns.NoPendingOnceHeadRead` | packages/github-bot/src/review-start.ts:289-292 | The promise in the comment: none lands after its review's close-out has read the head, whatever was answered and however late writes land |
| `ReviewRuns.NoPendingLeftBehind` | packages/github-bot/src/review-close-out.ts:224-251 | From the moment a close-out finalizes on a status it read as terminal or wrote, the head never again shows that review's own "pending" |
| `ReviewRuns.WritesLandUnderTheirLease` | packages/github-bot/src/review-supersession.ts:53-65 | A write that may still land has its writer's live lease on record, except one a close-out gave up on after an unsettled answer |
| `ReviewRuns.OneLeasedWriteAtATime` | packages/control-plane/src/routes/github-reviews.ts:777-796 | Apart from those, two writes that may still land are the same write, whoever the writers are |
| `ReviewRuns.FinalizedWrites` | packages/github-bot/src/review-close-out.ts:210-222 | A finalized close-out whose write may still land finalized `retry` on an answer that settled nothing |
| `ReviewRuns.OutrankedPendingLandsWithinOneLease` | packages/github-bot/src/review-start.ts:412-418 | While a newer claim stands, an older review's "pending" lands at most one start-marker lease after the claim |
| `ReviewRuns.OneEligibleReview` | packages/control-plane/src/routes/github-reviews.ts:405-450 | However claims are made, rolled back and their numbers reissued, at most one review is eligible for the lease, and it outranks every other row |
| `ReviewRuns.StepKeepsRows` | packages/control-plane/src/session/initialize.ts:211-235 | No step lets a row outrank the latest claim or gives one generation two rows |
| `ReviewRuns.StepKeepsEndings` | packages/github-bot/src/review-close-out.ts:156-222 | Every step keeps the relation between a close-out's recorded ending and the fate of its write |
| `ReviewProgress.EntitledGetLease` | packages/control-plane/src/routes/github-reviews.ts:777-925 | In every reachable state, waiting gets a review the lease for its close-out exactly when that is owed, and for its agent or start marker exactly when it is the latest and running; nobody waits longer than one submission lease |
| `ReviewProgress.ClaimRolledBack` | packages/control-plane/src/routes/github-reviews.ts:374-450 | In every reachable state, a claim rolled back before anyone else acts leaves everything as it was |
| `ReviewProgress.LateRollbackIgnored` | packages/control-plane/src/routes/github-reviews.ts:405-450 | A rollback after a newer claim, or after its own review was registered, changes nothing |
| `ReviewProgress.PendingIsClosedOut` | packages/github-bot/src/review-close-out.ts:156-251 | A concrete run of a whole review: its "pending" lands, its agent never publishes, and its close-out replaces the "pending" and leaves nothing to do |
| `ReviewSafety.StepKeepsInv` | packages/github-bot/src/review-supersession.ts:34-65 | The invariant of the protocol: grants, clocks, deadlines, leases, writes in flight and sealed reviews stay consistent over every step of every party |
| `ReviewSafety.SealedMarkerCannotLand` | packages/github-bot/src/review-start.ts:329-336 | A start marker's write cannot land once its review's close-out has been granted |
| `ReviewDrives.OverwriterReadBefore` | packages/github-bot/src/review-start.ts:400-418 | In every run, a close-out's write that lands over a verdict or a skip is that of a close-out which had read the head before the verdict was shown, as pending or without a status, and it lands within one submission lease of that moment |
| `ReviewDrives.OverwriterHadGoneOn` | packages/github-bot/src/review-start.ts:412-418 | That close-out was already going on to write, at a point the moment's state shows, when the verdict was shown |
| `ReviewDrives.VerdictSurvives` | packages/github-bot/src/review-start.ts:406-418 | If no close-out of the head can still land its write when a verdict is shown, the verdict survives every close-out, unchanged and for good, until someone else writes |
| `ReviewDrives.OverwriterCouldLand` | packages/github-bot/src/review-close-out.ts:192-222 | A close-out that lands over a verdict was then within its deadline and still to send, or had a write in flight within the request timeout |
| `ReviewOverwrite.OverwrittenLaterIffCanStillLand` | packages/github-bot/src/review-close-out.ts:184-222 | From any reachable state that shows a verdict, some continuation has a close-out land over it exactly when some close-out of the head can still land its write in that state |
| `ReviewDrives.ReadVerdictRewrittenOnlyByEarlierReader` | packages/github-bot/src/review-close-out.ts:177-182 | Once a close-out has read a verdict on a head, any other close-out that still lands there, overlapping or later, had read the head first and lands within one lease, unless a start marker's "pending" landed in between |
| `ReviewOverwrite.ReadVerdictAtRiskForOneLease` | packages/github-bot/src/review-close-out.ts:177-182 | Some run has a verdict rewritten by another close-out a time `d` after a close-out read it exactly when `d` is at most one submission lease, over all runs and all `d` |
| `ReviewOverwrite.DoneVerdictOverwritten` | packages/github-bot/src/review-close-out.ts:210-227 | For every unsettled answer, a run in which a close-out finalizes `done` on a verdict it read, and an earlier drive's error then lands over it, with the review gone from the control plane's list |
| `ReviewDrives.LaterReaderSendsNothing` | packages/github-bot/src/review-close-out.ts:177-182 | A close-out that reads the head afterwards reads a verdict too and sends nothing |
| `ReviewDrives.VerdictStays` | packages/github-bot/src/review-start.ts:406-410 | In every run only a start marker of that head takes a verdict off it |
| `ReviewDrives.TerminalReadSendsNothing` | packages/github-bot/src/review-close-out.ts:172-182 | A close-out that read a terminal status, or could not read one, never sends a write afterwards |
| `ReviewLateWrite.UnsettledCloseOutOverwritesNewerVerdict` | packages/github-bot/src/review-close-out.ts:214-222 | For every unsettled answer there is a run in which the close-out's error lands over a newer review's success while that review holds the lease |
| `ReviewLateWrite.WriteOutlivesFinalizeIffUnsettled` | packages/github-bot/src/review-close-out.ts:202-222 | A close-out's write can land after its finalize exactly when the answer was neither a success nor a 4xx |
| `ReviewLateWrite.SkipAtRiskForOneLease` | packages/github-bot/src/review-start.ts:412-418 | A close-out granted after the stand-down's claim can land its error over the skip a time `d` after it exactly when `d` is at most one submission lease, over all runs and all `d` |
| `ReviewLateWrite.CloseOutGrantedAfterClaimOverwritesSkip` | packages/github-bot/src/review-start.ts:412-418 | A concrete run in which a close-out granted only after the claim lands its error over the skip |
| `ReviewLease.MarkerDiscipline` | packages/github-bot/src/review-start.ts:297-346 | A start marker sends at most one write and releases at most once, only a lease it was granted, and after a write only once GitHub has acknowledged it or refused it with a 4xx |
| `ReviewLease.PostsPendingExactly` | packages/github-bot/src/review-start.ts:237-346 | A start marker that has ended took exactly one of these courses: busy answers and then a refusal; a grant past its deadline, handed back unwritten; a grant, one write, and the lease handed back exactly when the answer was a success or a 4xx |
| `ReviewLease.CloseOutHistory` | packages/github-bot/src/review-close-out.ts:156-251 | A close-out sends at most one write and finalizes at most once; `done` exactly when it read a terminal status, had its write acknowledged or found the PR not open; a terminal read sends nothing |
| `ReviewLease.ClosesOutExactly` | packages/github-bot/src/review-close-out.ts:156-251 | A close-out that has ended took exactly one of these courses, each with its own finalize: no token; an unreadable status; a terminal one; a pull request known not to be open; a passed deadline; one write, which a pull request that cannot be read does not prevent |
| `ReviewBot.Bot.AcquireStartMarkerLease` | packages/github-bot/src/review-start.ts:237-283 | Terminates for every answer sequence; at most six requests, all but the last answered busy; a grant only from a granted answer and within the wait; after a busy answer it gives up only when the next request would come too late |
| `ReviewBot.Bot.RequestStartMarkerLease` | packages/github-bot/src/review-supersession.ts:227-250 | A grant's lease is measured from before the request was sent, and an answer after the deadline is no grant |
| `ReviewBot.Bot.PostUnderLease` | packages/github-bot/src/review-start.ts:310-336 | Past its deadline, fifteen seconds before the lease ends, it sends nothing and hands the lease back; otherwise it sends at once, and hands the lease back exactly when the answer is a success or an HTTP status from 400 to 499 |
| `ReviewBot.Bot.PostPendingReviewStatus` | packages/github-bot/src/review-start.ts:297-346 | Its steps are a finished run of the start-marker automaton, the one the protocol's guarantees are about, and follow one of the courses written out |
| `ReviewBot.Bot.WriteWithinDeadline` | packages/github-bot/src/review-close-out.ts:192-222 | Past its deadline it sends nothing; otherwise it sends at once, and is closed out exactly when the write was acknowledged |
| `ReviewBot.Bot.WriteIfOpen` | packages/github-bot/src/review-close-out.ts:184-222 | After a status read as pending or absent: nothing is sent once the PR is found not open; one that is open, or cannot be read, goes on to the write |
| `ReviewBot.Bot.WriteTerminalStatus` | packages/github-bot/src/review-close-out.ts:156-222 | Each way it can begin with its own ending: no token, an unreadable status, an error, failure or success already there; pending and absent go on to the pull request |
| `ReviewBot.Bot.CompleteCloseOut` | packages/github-bot/src/review-close-out.ts:229-251 | On every path, a thrown token request included, one of the courses written out: finalizes exactly once and last, `done` exactly on evidence, and never writes after reading a terminal status |
| `ReviewBot.Bot.CloseOutReviewStatus` | packages/github-bot/src/review-close-out.ts:253-278 | A granted request, dated before it was sent, is completed by one of the courses written out; any other outcome does nothing |
| `CloseOutDescription.DescriptionFits` | packages/github-bot/src/review-close-out.ts:79-94 | Never longer than GitHub allows, counted in UTF-16 code units, and generic exactly for a success or a blank reason |
| `CloseOutDescription.DescriptionShowsReason` | packages/github-bot/src/review-close-out.ts:85-94 | Two failures described alike gave the same reason as far as it is shown |
| `CloseOutDescription.DescriptionIs` | packages/github-bot/src/review-close-out.ts:85-94 | A failure is described by its reason, trimmed, behind the prefix: whole up to 140 code units, otherwise the first 139 of them and an ellipsis |
| `ReviewBot.Bot.StandDownApprovedReview` | packages/github-bot/src/review-start.ts:386-502 | `stale` exactly when the pull request was read and its head has moved, it is not open or it is a draft, and then nothing else is done; otherwise a claim, a status read, at most one write, and a sweep exactly when stood down, a single release when not |
| `ReviewBot.Bot.EstablishSkip` | packages/github-bot/src/review-start.ts:461-501 | Stood down exactly when the head was read as error, failure or success or the skip was acknowledged, the skip being written exactly when it was read as pending or absent; the last effect is the sweep, and otherwise the claim's release |
| `ReviewBot.Bot.StandDownIfApproved` | packages/github-bot/src/review-start.ts:112-144 | Looks for an approval only for an automatic trigger other than `opened`, and stands down only for one; skips as approved exactly when it swept, as stale exactly when the pull request is, and reviews as normal otherwise |
| `ReviewBot.Bot.AdmitReview` | packages/github-bot/src/review-start.ts:146-179 | Stale exactly when the live PR has another head, is not open, or is a draft on an automatic trigger; claims exactly when it is admissible, with nothing between snapshot and claim |
| `ReviewBot.Bot.AbandonReview` | packages/github-bot/src/review-start.ts:181-200 | Superseded without a release for a 409 without a code, and one release request for any other failure |
| `ReviewBot.Bot.ReportFailure` | packages/github-bot/src/session-startup.ts:286-326 | A refused session is commented on exactly for a 403 `not_member` and a 409 `target_team_missing_grant` or `team_archived`, and fails otherwise |
| `ReviewBot.Bot.SendReviewPrompt` | packages/github-bot/src/review-start.ts:360-384 | A close-out is requested exactly when the prompt was definitely rejected, and is then completed; an unclear failure leaves the review alone |
| `ReviewBot.Bot.StartReview` | packages/github-bot/src/session-startup.ts:271-356 | The whole order of a review's effects from its snapshot to its prompt or failure |
| `ReviewBot.Bot.StartSession` | packages/github-bot/src/session-startup.ts:156-358 | Its log is a session's: stand-down first, settings and target next, admission directly before creation; and every generation in it has exactly one fate, told by the result |
| `ReviewFates.EveryGenerationHasOneFate` | packages/github-bot/src/session-startup.ts:217-326 | Every generation obtained has exactly one fate, two only when a stand-down handed its own back first, and the handler's result tells the last one |
| `ReviewFates.StandDownFate` | packages/github-bot/src/review-start.ts:386-398 | A stand-down's generation is held when it stood down, handed back when it fell back to a review, and never obtained when stale |
| `ReviewFates.ReviewFate` | packages/github-bot/src/session-startup.ts:271-326 | Superseded exactly when a 409 without a code refused the session; processed only with a session under the generation |
| `ReviewFates.GenerationsAddUp` | packages/github-bot/src/review-supersession.ts:109-121 | Claims answered equal sessions started, skips held, claims lost and releases asked for, counted over the log |
| `ReviewFates.LedgerCounts` | packages/github-bot/src/session-startup.ts:286-326 | The ledger's fates and the log's effects count the same, from any ledger |
| `DeliveryAttempt.ProcessedOnlyWhenClean` | packages/github-bot/src/index.ts:259-288 | An attempt writes `processed` only after dispatch, forwarding and the autofix queue all went without failure |
| `DeliveryAttempt.AttemptHistory` | packages/github-bot/src/index.ts:332-416 | What every point of an attempt has behind it |
| `DeliveryAttempt.AttemptsExactly` | packages/github-bot/src/index.ts:182-416 | The attempts that come to an end are exactly the ones written out, from the marker read to the marker's end, with each failure's effect on what follows |
| `Delivery.AttemptsFollowTheHandler` | packages/github-bot/src/index.ts:184-293 | In every interleaving each attempt's own moves are a run of the handler |
| `Delivery.ProcessedMeansClean` | packages/github-bot/src/index.ts:265-278 | In every reachable state a stored `processed` comes with an attempt that queued, dispatched and forwarded without failure |
| `Delivery.DuplicatesAnswered` | packages/github-bot/src/index.ts:184-199 | In every run a duplicate does nothing but read the marker; it is acknowledged exactly when that says `processed`, and then some attempt has ended without failure |
| `Delivery.NoDispatchUnderCheckpoint` | packages/github-bot/src/index.ts:338-352 | While a stored checkpoint lives, no attempt that is not dispatching already creates a session or dispatches, wherever it is and also if it is yet to arrive |
| `Delivery.NoDispatchForAWeek` | packages/github-bot/src/index.ts:338-352 | For seven days after a checkpoint is stored, no attempt that is not dispatching already dispatches |
| `Delivery.DispatchUnderCheckpointIffUnderWay` | packages/github-bot/src/index.ts:338-352 | An attempt can create a session or end a dispatch while a stored checkpoint lives exactly when it was dispatching already |
| `Delivery.AtMostOneSession` | packages/github-bot/src/index.ts:263-264 | In every run in which no attempt outlives its marker, no checkpoint is lost or lapses and no dispatch throws after creating a session, a delivery creates at most one session |
| `Delivery.AtMostOneCompletedDispatch` | packages/github-bot/src/index.ts:263-264 | In every run in which no attempt outlives its marker and no checkpoint is lost or lapses, a delivery is dispatched to completion at most once |
| `Delivery.ExclusiveStep` | packages/github-bot/src/index.ts:187-203 | The invariant behind it: one attempt under way, holding the marker, dispatching only while nothing was completed |
| `Delivery.SessionsOwnedStep` | packages/github-bot/src/index.ts:338-361 | And every session belongs to the completed dispatch or to the one under way |
| `DeliveryLimits.SecondSessionIffFault` | packages/github-bot/src/index.ts:263-264 | With a given set of faults allowed, some run creates a second session exactly when the set is not empty: each of the four faults alone is enough |
| `DeliveryLimits.SecondCompletionIffStoreFault` | packages/github-bot/src/index.ts:343-352 | And some run dispatches to completion twice exactly when a marker or a checkpoint may fail |
| `DeliveryLimits.DispatchOutlivesMarker` | packages/github-bot/src/index.ts:51 | A run whose only fault is a dispatch as long as the processing marker, with two sessions |
| `DeliveryLimits.CheckpointNotStored` | packages/github-bot/src/index.ts:343-361 | A run whose only fault is a failed checkpoint write, with two sessions |
| `DeliveryLimits.RedeliveredLate` | packages/github-bot/src/index.ts:50 | A run whose only fault is a redelivery after seven days, with two sessions |
| `DeliveryLimits.PromptFailsAfterSession` | packages/github-bot/src/session-startup.ts:326-356 | A run whose only fault is a prompt that fails after its session was created, with two sessions |
| `DeliveryLimits.LateClearRemovesProcessed` | packages/github-bot/src/index.ts:246-257 | A run whose only fault is an outlived marker, and in it a live `processed`, put by an attempt that succeeded, removed by the clear of an attempt whose own marker had lapsed |
| `DeliveryLimits.ProcessedLostIffMarkerOutlived` | packages/github-bot/src/index.ts:246-281 | With a given set of faults allowed, some run has a live `processed` removed so, or touched at all, exactly when an attempt may outlive its marker |
| `Delivery.ProcessedIsLeftAlone` | packages/github-bot/src/index.ts:187-203 | While no attempt outlives its marker, no step of any attempt removes or replaces a live `processed`, whatever else goes wrong |
| `DeliveryWorker.Worker.Webhook` | packages/github-bot/src/index.ts:169-293 | Takes one of the attempts written out; a delivery whose marker says `processing` gets 503 and one whose marker says `processed` 200, each after that one read; any other gets 503 exactly when queueing failed |
| `DeliveryWorker.Worker.HandleWebhook` | packages/github-bot/src/index.ts:305-416 | Forwards last, in every case, and fails exactly when dispatch, its lookup or checkpoint included, or forwarding failed, whether or not queueing did |
| `DeliveryWorker.Worker.Settle` | packages/github-bot/src/index.ts:259-288 | Marks a clean delivery processed and clears any other's marker |
| `RetentionResume.ReplanDeletesTheRest` | scripts/lib/base-snapshot-retention.ts:94-145 | With any subset of the planned deletions gone, planning again keeps the same snapshots for the same reasons and deletes exactly the others, in order |
| `RetentionResume.ResumedLater` | scripts/lib/base-snapshot-retention.ts:94-145 | Resumed at a later time, a cleanup deletes at least everything that was still to be deleted |
| `RetentionResume.KeepAndDeletePartition` | scripts/lib/base-snapshot-retention.ts:127-144 | Every managed snapshot is in exactly one of the two lists, once, and nothing else is |
| `RetentionResume.ProtectedSurvive` | scripts/lib/base-snapshot-retention.ts:107-119 | Every protected reference names something the plan keeps |
| `RetentionResume.NothingUnmatched` | scripts/lib/base-snapshot-retention.ts:107-117 | The plan is refused for references exactly when one of them names no managed snapshot |
| `RetentionResume.DeletedRankBelowTheNewest` | scripts/lib/base-snapshot-retention.ts:120-126 | A ready snapshot is deleted only below `keepLatest` different ready ones, all kept, each newer by creation time or as new with no later an ID |
| `RetentionResume.DeletedExactly` | scripts/lib/base-snapshot-retention.ts:128-144 | Deleted are exactly the terminal snapshots, neither protected nor among the newest, both created and last used at a known time at least the minimum age ago |
| `RetentionResume.TopIsBest` | scripts/lib/base-snapshot-retention.ts:120-126 | The newest are as many ready, dated snapshots as there are up to `keepLatest`, each newer by creation time than every one left out, or as new with no later an ID |
| `RetentionResume.LooserPolicyDeletesMore` | scripts/lib/base-snapshot-retention.ts:127-144 | The deletions grow with time and shrink with a larger minimum age or `keepLatest` |
| `RetentionPlan.PlanJudges` | scripts/lib/base-snapshot-retention.ts:94-145 | Of every inventory with a plan: some snapshots are the newest ready ones in milliseconds, as many as the policy keeps or all there are, and each managed snapshot is kept for exactly the reason its protection, those newest, its state and its two times give, or deleted exactly when none does |
| `RetentionPlan.DeletedOnlyBelowNewer` | scripts/lib/base-snapshot-retention.ts:120-144 | A ready snapshot the plan deletes has as many others as the policy keeps, managed, ready and kept by the plan, each created later or at the same time with no later an ID |
| `RetentionPlan.NewestOutrankTheRest` | scripts/lib/base-snapshot-retention.ts:120-132 | A snapshot kept as newest was created later than every ready one kept for no such reason, or at the same time with no later an ID |
| `RetentionPlan.PlanListsInOrder` | scripts/lib/base-snapshot-retention.ts:127-144 | Both lists are in inventory order, and together as many as the managed snapshots |
| `RetentionPlan.RefusedExactly` | scripts/lib/base-snapshot-retention.ts:94-117 | Planning is refused exactly for an invalid policy, a managed snapshot without an ID or with another's, and protected references that name no managed snapshot, reported each once in the order given |
| `RetentionPlan.PolicyExactly` | scripts/lib/base-snapshot-retention.ts:43-92 | Which policies are accepted, and with which values, five snapshots and seven days by default |
| `RetentionPlan.PolicyRefused` | scripts/lib/base-snapshot-retention.ts:46-85 | Every other policy is refused for the first thing wrong with it |
| `RetentionPlan.ManagedExactly` | scripts/lib/base-snapshot-retention.ts:36-41 | The managed names are exactly the prefix, on Daytona a generation number without leading zeros, and sixteen hexadecimal digits |
| `Retention.ManagedUnderOnePrefix` | scripts/lib/base-snapshot-retention.ts:36-41 | One provider's name is managed under at most one prefix, even when a prefix extends another |
| `RetentionCleanup.PlanCleanup` | scripts/lib/base-snapshot-retention.ts:94-145 | The planner's loops compute the plan the lemmas are about, errors included |
| `RetentionCleanup.AllIdsValid` | scripts/lib/base-snapshot-retention.ts:102-106 | The duplicate loop accepts exactly non-empty IDs that all differ |
| `RetentionCleanup.Client.Cleanup` | scripts/lib/base-snapshot-retention.ts:174-197 | A completed cleanup leaves a plan that deletes nothing; an interrupted one a plan that deletes exactly `remaining`, less the failed artifact if it is gone after all; nothing else changes |
| `RetentionCleanup.Client.DeleteInOrder` | scripts/lib/base-snapshot-retention.ts:182-195 | Exactly a prefix of the deletions has happened, the failed one perhaps included |
| `RetentionCleanup.ResumesAt` | scripts/lib/base-snapshot-retention.ts:147-171 | After the first n deletions, planning again deletes exactly the others |
| `StableSort.StableSortingIsUnique` | scripts/lib/base-snapshot-retention.ts:120-123 | A sequence has exactly one stable sorting, whatever algorithm finds it |
| `StableSort.SortFilter` | scripts/lib/base-snapshot-retention.ts:121-123 | Sorting what a filter leaves is filtering what was sorted |
| `CanonicalQuery.CanonicalFormsAgree` | packages/shared/src/service-auth.ts:78-92 | With NUL-free keys, two queries have one canonical form exactly when their entries are the same multiset |
| `CanonicalQuery.OrderIrrelevantIffUntied` | packages/shared/src/service-auth.ts:85-92 | For any keys, order is irrelevant exactly when no two different entries share a sort key |
| `CanonicalQuery.NulKeysKeepTheirOrder` | packages/shared/src/service-auth.ts:88 | Two entries with a NUL whose order shows in the canonical form |
| `CanonicalQuery.QueryPrintsUniquely` | packages/shared/src/service-auth.ts:89-91 | The printed form determines the entries and their order |
| `CanonicalQuery.CanonicalInByteOrder` | packages/shared/src/service-auth.ts:85-92 | The canonical form prints the query's own entries as key, equals sign and value, ascending in the UTF-8 bytes of key, NUL and value, and entries with the same bytes in the order they came |
| `CanonicalQuery.CompareEntries` | packages/shared/src/service-auth.ts:88 | The comparator's sign is that byte order |
| `CanonicalQuery.Canonicalize` | packages/shared/src/service-auth.ts:85-92 | Inserting by that comparator, then printing, computes the canonical form |
| `ServiceAuth.CanonicalStringsAgree` | packages/shared/src/service-auth.ts:94-113 | For one-line fields before the actor and NUL-free keys, two requests share the canonical string exactly when every signed field agrees, the method up to case and the query up to order |
| `ServiceAuth.CanonicalLayout` | packages/shared/src/service-auth.ts:94-113 | The signed string is the version and the eight fields in this order, a line each, the actor last |
| `ServiceAuth.UpperMoves` | packages/shared/src/service-auth.ts:110 | Upper-casing moves the ASCII letters by 32 and keeps every other character |
| `ServiceAuth.ParseAcceptsExactly` | packages/shared/src/service-auth.ts:194-220 | A header parses exactly when it is the printing of a well-formed timestamp, nonce and signature that is fresh; the timestamp is rounded as a double is |
| `ServiceAuth.ParseRefusesExactly` | packages/shared/src/service-auth.ts:194-220 | A header is refused for its form exactly when it is no printing of well-formed parts |
| `ServiceAuth.HeadersLayout` | packages/shared/src/service-auth.ts:153-188 | The headers hold the service and the dotted version, time, nonce and digest, an actor only when there is one and a trace ID only when there is one |
| `ServiceAuth.BuiltHeaderJudged` | packages/shared/src/service-auth.ts:222-255 | A built header presented with any request: expired outside the window, accepted exactly when the request's digest is the signed one, a mismatch otherwise |
| `ServiceAuth.SignedRequestVerifiesWhileFresh` | packages/shared/src/service-auth.ts:145-188 | The signed request, its query reordered and its method's case changed, verifies exactly within the validity window, with the signed timestamp and nonce |
| `ServiceAuth.NearestDouble` | packages/shared/src/service-auth.ts:206-212 | A sixteen-digit timestamp is read as the nearest double, ties to the even mantissa |
| `ServiceAuth.ValueByPlace` | packages/shared/src/service-auth.ts:206-212 | A timestamp's digits are read by place, leading zeros included |
| `ServiceAuth.HexInjective` | packages/shared/src/auth.ts:35-39 | Two byte strings with one hex form are equal |
| `ServiceAuth.HexOfEachByte` | packages/shared/src/auth.ts:35-39 | Each byte is two lower-case digits, the high one first |
| `ServiceAuth.TimingSafeEqual` | packages/shared/src/auth.ts:18-27 | The accumulating loop decides equality of code units |
| `Utf8.CompareBytes` | packages/shared/src/service-auth.ts:65-76 | The comparator's sign is the lexicographic order of the bytes, zero only for equal strings |
| `Utf8.EncodedSamples` | packages/shared/src/service-auth.ts:65-68 | A character of each encoded length, with its bytes |
| `Utf8.LexMeans` | packages/shared/src/service-auth.ts:65-76 | That order: a prefix, or smaller in the first byte that differs |
| `Utf8.ByteOrderIsCodePointOrder` | packages/shared/src/service-auth.ts:65-76 | Comparing UTF-8 bytes is comparing code points |
| `Utf8.CharDecodesOnlyItself` | packages/shared/src/generated-files.ts:104-106 | The strict decoding inside `decodeURIComponent` accepts no byte string but a character's own encoding |
| `Percent.UriRoundTrip` | packages/shared/src/generated-files.ts:92-106 | Decoding undoes percent-encoding for every text, whatever characters are kept |
| `Percent.EscapesOthers` | packages/shared/src/generated-files.ts:92-95 | A character that is not kept becomes its UTF-8 bytes, each a percent sign and two upper-case digits |
| `Percent.UnreservedAre` | packages/shared/src/generated-files.ts:92 | The characters `encodeURIComponent` keeps |
| `Percent.EncodesPiecewise` | packages/shared/src/generated-files.ts:92 | Encoding a text is encoding its parts one after the other |
| `Percent.KeepsPlainText` | packages/shared/src/generated-files.ts:92 | Text of characters that are kept stands as it is |
| `Percent.HexDigitsRead` | packages/shared/src/generated-files.ts:104-106 | Either case of a hexadecimal digit is read in an escape, and nothing else |
| `Percent.DecodesExactly` | packages/shared/src/generated-files.ts:104-110 | Decoding accepts exactly the spellings of a text: each character itself, or its UTF-8 bytes escaped |
| `Disposition.FormatRoundTrip` | packages/shared/src/generated-files.ts:88-111 | Every valid filename survives its header |
| `Disposition.ParsesExactly` | packages/shared/src/generated-files.ts:99-111 | A header is accepted exactly when it holds the two literals in any case, the escaped fallback of a valid filename and any encoding of it |
| `Disposition.ParsedSurvives` | packages/shared/src/generated-files.ts:99-111 | A parsed filename is valid, and its own header parses back to it |
| `Disposition.HeaderFollowsGrammar` | packages/shared/src/generated-files.ts:88-97 | The header is an attachment whose filename is a quoted-string of quoted pairs and plain text, as RFC 6266, section 4.3, asks, and whose filename* is an ext-value of attr-chars and complete escapes, of RFC 8187, section 3.2 |
| `Disposition.HeaderIsPrintable` | packages/shared/src/generated-files.ts:84-97 | The header is printable ASCII throughout |
| `Disposition.MarksEncoded` | packages/shared/src/generated-files.ts:92-95 | Escaping the marks afterwards is encoding with only attr-chars kept |
| `Disposition.FallbackCharacters` | packages/shared/src/generated-files.ts:84-86 | The fallback keeps every character up to the tilde and puts an underscore for each other one |
| `Disposition.FormatsExactly` | packages/shared/src/generated-files.ts:31-61 | A header is printed for exactly the canonical names without separators and control characters, at most 255 bytes long, and parses only to such a name |
| `Disposition.StartsWithExactly` | packages/shared/src/generated-files.ts:101 | The header's literals are read in either case of their ASCII letters |
| `Disposition.QuotesEscaped` | packages/shared/src/generated-files.ts:91 | Nothing but quotation marks is escaped, each with one backslash |
| `Disposition.QuotesEscapedApart` | packages/shared/src/generated-files.ts:91 | Escaping a text is escaping its parts one after the other |
| `Disposition.MarksAre` | packages/shared/src/generated-files.ts:92-95 | The five marks that are escaped after encoding, and their escapes |
| `InlineFlags.ParsesExactly` | packages/shared/src/inline-prompt-flags.ts:44-65 | A text parses to given options and text exactly when it is white space, flags with values and none twice, and text that does not go on with a flag |
| `InlineFlags.ReadsItems` | packages/shared/src/inline-prompt-flags.ts:21-65 | Any written flags, in any order and either syntax, are read back, or the first repeated one is refused |
| `InlineFlags.RepeatedFlagRefused` | packages/shared/src/inline-prompt-flags.ts:56-59 | A flag given twice is refused, whatever stands between |
| `InlineFlags.NeedsValueExactly` | packages/shared/src/inline-prompt-flags.ts:44-55 | A text is refused for a missing value exactly when it is flags, none repeated, and then a flag name followed by no value or by one that begins with an exclamation mark |
| `InlineFlags.GivenTwiceExactly` | packages/shared/src/inline-prompt-flags.ts:56-59 | And for a repeated flag exactly when it begins with flags of which that one is the first repeated |
| `InlineFlags.BothFlagsEitherOrder` | packages/shared/src/inline-prompt-flags.ts:44-65 | Both flags in either order and syntax before trimmed text give both values and that text |
| `InlineFlags.ReturnsFlagExactly` | packages/shared/src/inline-prompt-flags.ts:44-65 | A text makes the parser return text that is itself a flag exactly when it ends, after white space and flags not repeated, with a bare flag name and white space that does not begin with a space |
| `InlineFlags.TrimExposesFlag` | packages/shared/src/inline-prompt-flags.ts:64 | The same for the text the loop leaves over |
| `InlineFlags.TabLeavesBareName` | packages/shared/src/inline-prompt-flags.ts:30-64 | The concrete text that shows it |
| `InlineFlags.ParseInlinePromptFlags` | packages/shared/src/inline-prompt-flags.ts:44-65 | The loop terminates and computes the parse the lemmas are about |
| `JsText.ClassesAre` | packages/shared/src/inline-prompt-flags.ts:26-38 | What counts as white space, as a digit and as a letter, by code point |
| `RepoMatch.UnextendedIsWholeToken` | packages/linear-bot/src/target-resolution.ts:36-66 | An occurrence is unextended exactly when it is a whole token stripped of its outer periods |
| `RepoMatch.NamedIffToken` | packages/linear-bot/src/target-resolution.ts:46-53 | A comment names a repository exactly when the name is one of its tokens |
| `RepoMatch.UnextendedNeverOverlap` | packages/linear-bot/src/target-resolution.ts:49-53 | Unextended occurrences, of one name or of two, never touch or overlap |
| `RepoMatch.OneNamePerPlace` | packages/linear-bot/src/target-resolution.ts:49-53 | Two different names are never both named at one place |
| `RepoMatch.PathCharsAre` | packages/linear-bot/src/target-resolution.ts:34 | The path characters are ASCII letters and digits, the underscore, the slash and the dash |
| `RepoMatch.ExtendsRepositoryPath` | packages/linear-bot/src/target-resolution.ts:36-44 | The cursor loop finds exactly whether periods lead to a path character, in either direction |
| `RepoMatch.IsNamed` | packages/linear-bot/src/target-resolution.ts:56-69 | The occurrence loop accepts exactly when some unextended occurrence exists |
| `RepoMatch.MatchExplicitRepo` | packages/linear-bot/src/target-resolution.ts:54-71 | Returns the one named repository; none means that none is named or another one is too |
| `GithubReads.GetPullRequestApproval` | packages/github-bot/src/github-auth.ts:427-476 | Unreadable exactly when reading fails; otherwise true exactly when a known author has an `APPROVED` review that no `APPROVED`, `CHANGES_REQUESTED` or `DISMISSED` review of the same author follows among those read |
| `GithubReads.ReadFailsExactly` | packages/github-bot/src/github-auth.ts:436-467 | Reading fails exactly when one of the first ten pages cannot be read and every page before it was full |
| `GithubReads.ApprovalOfHistory` | packages/github-bot/src/github-auth.ts:401-408 | Of a history served in pages, exactly the first thousand reviews are read |
| `GithubReads.StandingIffLatest` | packages/github-bot/src/github-auth.ts:419-426 | An approval stands exactly when it is some author's latest verdict |
| `GithubReads.CommentsChangeNothing` | packages/github-bot/src/github-auth.ts:394-399 | A comment, a pending review or one without an author, inserted anywhere, changes nothing within the cap, and at the cap only hides the thousandth review |
| `GithubReads.GetReviewStatusState` | packages/github-bot/src/github-auth.ts:303-346 | Whatever each page shows, also when statuses change meanwhile, the answer is that of the first page that shows the context, is last or cannot be read |
| `GithubReads.JudgesPage` | packages/github-bot/src/github-auth.ts:322-341 | A page leaves the read to the next exactly when it was answered, shows nothing of the context, is full and is not known to be the last; what it settles otherwise |
| `GithubReads.SomePageSettles` | packages/github-bot/src/github-auth.ts:338-341 | Of statuses that do not change meanwhile, some page always ends the read |
| `GithubReads.SettledTruly` | packages/github-bot/src/github-auth.ts:303-308 | And the answer is then the context's first state, absent only when it is on no page, unreadable only for a page that was not answered |
| `CheckoutLock.AtMostOneHolder` | packages/preview/src/checkout-lock.ts:23-45 | In every reachable state at most one running process holds the checkout, and the file names it |
| `CheckoutLock.RunsAreExclusive` | packages/preview/src/checkout-lock.ts:8-21 | The invariant behind it, over acquisitions, releases, deaths, reused process IDs and kills inside an acquisition |
| `CheckoutLock.HolderKeepsLock` | packages/preview/src/checkout-lock.ts:33-44 | A holder keeps the lock until it releases or dies, whatever the others do |
| `CheckoutLock.LockComesBack` | packages/preview/src/checkout-lock.ts:33-56 | Once its holder has released the lock or died, any running process that asks gets it |
| `CheckoutLock.GetsOnlyWhenFree` | packages/preview/src/checkout-lock.ts:33-44 | In every reachable state a running process that asks gets the lock exactly when there is no file or the process it names is dead |
| `CheckoutLock.KilledBlocksIffUnwritten` | packages/preview/src/checkout-lock.ts:27-44 | A process killed inside an acquisition blocks the lock for others exactly when it was killed after creating the file and before writing it |
| `CheckoutLock.HandsOver` | packages/preview/src/checkout-lock.ts:23-45 | A concrete run in which the lock passes from a dead holder to another process |
| `CheckoutLock.StaleReleaseChangesNothing` | packages/preview/src/checkout-lock.ts:46-56 | A release leaves a file that names another acquisition, or none, as it was, whether or not anyone holds the lock; a stale one leaves every holder too |
| `CheckoutLock.UnreadableIsNeverTaken` | packages/preview/src/checkout-lock.ts:33-42 | A lock that cannot be read is never taken over in any run |
| `CheckoutLock.TakeoverOnlyFromTheDead` | packages/preview/src/checkout-lock.ts:39-44 | The file changes hands only from a dead process, or by its owner's own release |
| `CheckoutLock.Machine.AcquireCheckoutLock` | packages/preview/src/checkout-lock.ts:24-45 | Succeeds exactly when there is no file or its owner is dead, and is then the only holder |
| `CheckoutLock.Machine.Release` | packages/preview/src/checkout-lock.ts:46-56 | Removes exactly its own acquisition's file |
| `ObjectStorage.PreviewObjectStorage.Put` | packages/preview/src/object-storage.ts:36-46 | Stores a private copy exactly when the sum of sizes stays within the cap; a refused put changes nothing |
| `ObjectStorage.PreviewObjectStorage.Delete` | packages/preview/src/object-storage.ts:47-50 | Removes the object and gives back exactly its bytes |
| `ObjectStorage.PreviewObjectStorage.Get` | packages/preview/src/object-storage.ts:55-71 | A missing object before a bad range; otherwise a fresh copy of the object, or of the bytes from the offset on, as many as asked for or as there are |
| `ObjectStorage.OthersWritesAreHarmless` | packages/preview/src/object-storage.ts:23-34 | Whatever is written elsewhere, a store whose own parts are left alone stays valid and holds what it held |
| `ObjectStorage.ReusedBuffersAreHarmless` | packages/preview/src/object-storage.ts:23-34 | Anything written over a put buffer and a returned body changes no later get of any key, whether or not the put fit or replaced an object |
| `ObjectStorage.TotalAfterPut` | packages/preview/src/object-storage.ts:38 | Replacing an object changes the total by the difference of the sizes |

## Left out

- `ReviewProtocol`: the agent's own shell script has no write deadline, so its verdicts, like a stand-down's skip, may land on a head at any time.
- `ReviewProtocol`: the control plane's reaper appears only through what it does to rows (suspect, withdraw, promote, drop); its schedules and retry limits are left out.
- `ReviewBot.Bot.StartSession`: a claim the control plane applied but whose answer was lost is not a generation the bot obtained, and a release request may fail; both are the control plane's to clean up.
- `ReviewBot.Bot.SendReviewPrompt`: how the session client tells a definite rejection from an unclear failure is left out.
- `ReviewBot.Bot.StartPlainSession`: reactions, routing, settings lookups and the text of comments are effects without content.
- `Delivery.AtMostOneSession`: comments and reactions are not counted, and deliveries without an ID, which have no marker, are left out.
- `GithubReads.GetReviewStatusState`: it is about reads that end; a server none of whose pages settles the read keeps the source's loop going.
- `RetentionCleanup.Client.Cleanup`: the inventory is changed by nobody else between planning and deleting, and listing shows all of it.
- `RetentionResume.LooserPolicyDeletesMore`: times are whole milliseconds and the planning time is finite.
- `ServiceAuth.CanonicalStringsAgree`: URL parsing is left out, so requests carry a decoded path and query entries; upper-casing is that of ASCII letters.
- `ServiceAuth.BuiltHeaderJudged`: the keyed hash is an arbitrary function, so nothing is said about how hard a digest is to guess.
- `Disposition.ParsesExactly`: Unicode normalisation and the formatting-character category are an arbitrary predicate on filenames.
- `RepoMatch.MatchExplicitRepo`: texts and names arrive in lower case.
- `CheckoutLock.AtMostOneHolder`: a lock file removed by hand while its owner runs is outside the model.
- `ObjectStorage.PreviewObjectStorage.Put`: the content digest and reading from a stream are left out.
- Model, harness and access tables, and other single-branch lookups.
- HTTP, schemas, logging, timers, JSON Web Tokens, prompts, schedules, image builders and the other bots' orchestration.
