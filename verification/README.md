# Verified models of the hard parts

This project models six engines of the repository in Dafny and proves what they keep over every
run, every history or every input:

1. **The trigger-local job runtime** (`packages/trigger-local`): queue lanes, the Redis lock of a
   concurrency key, the chain of row writes, attempts and retries, creation under an idempotency key,
   and cancellation.
2. **The two rate limiter scripts** (`packages/kv/src/rate-limit.ts`).
3. **The IAM policy merge and its denylist** (`packages/utils`).
4. **The vector index's filter scanner, LIKE escaping and keyset pagination** (`packages/db`).
5. **Batch against single unsubscribe resolution** (`packages/email`).
6. **The organization purge** (`apps/api`) and **the in-memory key-value store** (`packages/kv`).

## How the models are built

| file | models |
|---|---|
| `Lanes.dfy` | one lane: its counter and waiters, as the two maps of the runtime and as a history of arrivals and completions |
| `JobFlow.dfy` | many jobs, lanes and lock keys interleaving: slot, lane, lock, body, and back out |
| `LaneLaws.dfy`, `LockLaws.dfy` | what lanes, worker and lock promise to a job, in terms of its queue, task and key |
| `WriteChain.dfy` | the promise chain per run id |
| `RunRows.dfy` | one run's row under attempts, writes that capture the run object by reference, late writes, and a cancel; when a terminal row is final |
| `RowContents.dfy` | what a row shows, field by field, once its writes have gone through |
| `RunCancels.dfy` | when a canceled row is final, what a cancel writes, and how cancels get lost |
| `RowQueue.dfy` | the promise chain, seen by one run, is the queue of writes that `RunRows.dfy` works with |
| `RunCreation.dfy` | overlapping `createRun` calls under one idempotency key |
| `RateLimit.dfy`, `FixedWindow.dfy`, `SlidingWindow.dfy` | the two scripts over a Redis key with an expiry, and the reading of their replies |
| `PolicyMerge.dfy`, `Denylist.dfy` | policy documents, their meaning, the merge, and which actions a grant script may add |
| `VectorFilter.dfy`, `LikePattern.dfy`, `KeysetScan.dfy` | the scanner with its cost, LIKE, and scans of a changing table |
| `Unsubscribe.dfy` | the three-query batch and the check for one user |
| `PurgeS3.dfy`, `Purge.dfy` | the object store cleanup, and the order of a purge |
| `MemoryKv.dfy` | the lazily expiring store and its eager specification |
| `Outcomes.dfy`, `Text.dfy`, `Arithmetic.dfy` | an option type, strings, and multiples |

In the runtime every stretch of code between two awaits is one step of a transition system, and every
awaited effect is a step that may come late, fail, or take effect although it reports a failure.
Objects that the program updates in place are classes whose methods are proved against functions, and
the lemmas are about those functions.

Time is a number that never goes back. Redis and the caller share one clock, and a key counts as gone
once its expiry is not after now.

## What the code does not promise

Each of these is proved with a concrete run or an exact condition:

- Two limits that share a lane overtake each other exactly if the smaller is below the larger and the
  larger is positive (`Lanes.MixedLimitsOvertake`, `Lanes.GrantsFollowArrivals`). A negative limit strands its body.
- Two different tasks share the locks of some keys exactly if one task id continues the other with a
  colon, because the lock's name joins task and key with one (`LockLaws.LocksAreShared`, `LockLaws.NestedTasksCollide`).
- The key lock needs both of its conditions: an overrun of its lifetime and a Redis error while
  acquiring each let two bodies run at once.
- A terminal row is final exactly if no settled write of a status that is not terminal can still take
  effect. A write that its client saw fail, and that takes effect after the job has ended, puts a
  COMPLETED row back to RUNNING.
- A CANCELED row is final exactly if the job is over and no settled write can still replace it
  (`RunCancels.CanceledIsFinal`). So a cancel that overlaps an attempt can be overwritten, or overwrite a
  terminal row, because an update is unconditional, and one between the row insert and the enqueue is lost.
- A loser of the idempotency key that cannot see the winner's row yet takes the key over. The comment
  at `packages/trigger-local/src/runtime.js:304` says that this avoids a duplicate; it creates a second run.
- The sliding window's reported reset is rounded down, so waiting for it suffices exactly if the
  oldest admission fell on a whole second; a caller refused at 2500 can be told to retry at 2000.
- The merge script falls back to an empty policy when its read fails for any reason, and then loses
  the Deny statements that its comment promises to keep.
- The comment at `packages/utils/src/remediation-denylist.ts:85` says that padded tokens are blocked;
  the code trims first, so padding changes nothing.
- A scan of a fixed table ends exactly unless it has pages of one row, no start cursor, a matching empty
  id and another matching row; and the default cursor "0" skips every id that is not above it.
- A purge can fail although the row is gone: if a count fails afterwards, or if the answer to the
  delete itself is lost.
- `del` of the in-memory store also counts keys that had expired unnoticed, and `expire` with a positive
  number of seconds makes such a key readable again.

## Model

| member | source | states |
|---|---|---|
| Lanes.QueueTable.constructor | packages/trigger-local/src/runtime.js:24-25 | every lane starts idle |
| Lanes.QueueTable.WithQueueLock | packages/trigger-local/src/runtime.js:105-136 | a body starts at once exactly when the counter is below its own limit, else it waits last; no other lane changes |
| Lanes.QueueTable.OnSettled | packages/trigger-local/src/runtime.js:113-132 | a settled body frees its slot and hands it to the first waiter, whether it succeeded or failed |
| Lanes.NextKeepsInv | packages/trigger-local/src/runtime.js:105-136 | every event keeps: counter = running bodies, nobody waits below its own limit, arrivals = finished + running + waiting |
| Lanes.LaneInvariant | packages/trigger-local/src/runtime.js:105-136 | that invariant after every legal run of a lane, whatever limits its tasks declare |
| Lanes.PeakWithinLargestLimit | packages/trigger-local/src/runtime.js:107-110 | never more running bodies than the largest limit used on the lane |
| Lanes.IdleLaneStrandsOnlyUselessLimits | packages/trigger-local/src/runtime.js:105-136 | on a lane with nobody running, only a body whose limit is 0 or less can be left waiting |
| Lanes.NegativeLimitStrands | packages/trigger-local/src/runtime.js:107-109 | a negative limit is not replaced by 1 and strands its body on an idle lane |
| Lanes.GrantsFollowArrivals | packages/trigger-local/src/runtime.js:105-136 | grants follow arrivals on every run whose limits cannot overtake each other, one limit in particular |
| Lanes.OvertakingStep | packages/trigger-local/src/runtime.js:109-135 | on a full lane a small limit waits and a larger one that arrives later starts first |
| Lanes.MixedLimitsOvertake | packages/trigger-local/src/runtime.js:105-136 | any two limits that can overtake do so on some run: the converse |
| JobFlow.StepKeepsInv | packages/trigger-local/src/runtime.js:105-156 | every step of every job keeps lanes and job phases in agreement |
| JobFlow.RunKeepsInv | packages/trigger-local/src/runtime.js:105-156 | so does every run |
| JobFlow.CounterCountsHolders | packages/trigger-local/src/runtime.js:105-156 | over all interleavings each lane's counter is the number of jobs between their grant and their release |
| JobFlow.WaiterHasHolder | packages/trigger-local/src/runtime.js:105-136 | a job waits for its lane only while another job holds that lane |
| JobFlow.HolderProgress | packages/trigger-local/src/runtime.js:140-156 | a job inside its lane gets on by a step of its own, or time passes towards the expiry of the key it waits for |
| JobFlow.Progress | packages/trigger-local/src/runtime.js:105-156 | no deadlock: with useful limits, an unfinished state has a non-failing step that decreases a well-founded measure |
| JobFlow.CanAlwaysFinish | packages/trigger-local/src/runtime.js:105-156 | from every reachable state all jobs can be brought to their end |
| JobFlow.FinishedLanesAreIdle | packages/trigger-local/src/runtime.js:113-132 | when all jobs are done every granted slot has been released and no waiter is left |
| JobFlow.StepKeepsOwnership | packages/trigger-local/src/runtime.js:140-156 | a step before the expiry, without an acquire error that skips the lock, leaves each lock with the job that took it |
| JobFlow.RunKeepsOwnership | packages/trigger-local/src/runtime.js:140-156 | so does every such run |
| JobFlow.MutualExclusion | packages/trigger-local/src/runtime.js:140-156 | with no acquire error that lets a body in without its key, and releases before the lifetime ends, at most one body per task and key runs |
| JobFlow.OverrunBreaksExclusion | packages/trigger-local/src/runtime.js:146-151 | a body that outlives its lock lets a second one in |
| JobFlow.ErrorBreaksExclusion | packages/trigger-local/src/runtime.js:146 | one error on acquire lets a second one in at once |
| JobFlow.NoLockOutlivesTTL | packages/trigger-local/src/runtime.js:138-151 | a key that is not free was set less than four hours ago, by an acquire step of its owner made at the very time the key carries, or before a crash |
| LockLaws.LocksAreShared | packages/trigger-local/src/runtime.js:144 | unless one task id nests in the other, two jobs share a lock exactly if they share task and key |
| LockLaws.NestedTasksCollide | packages/trigger-local/src/runtime.js:144 | if one does nest in the other, the two tasks share a lock for some keys |
| LockLaws.RunKeepsHolders | packages/trigger-local/src/runtime.js:147-151 | with timely and effective releases every key in Redis belongs to a job inside its critical section |
| LockLaws.SleepsExactlyBehindAnother | packages/trigger-local/src/runtime.js:145-155 | then an asking job is put to sleep exactly if another job of the same task and key is inside, and else enters at once |
| LockLaws.KeyKeepsOutForFourHours | packages/trigger-local/src/runtime.js:146 | a key that is never deleted keeps others out for four hours after it was set, and no longer |
| LaneLaws.StartsAtOnce | packages/trigger-local/src/runtime.js:105-110 | a job starts at once exactly if fewer jobs than its own declared limit hold its lane; no queue means the lane "default" with limit 1 |
| LaneLaws.LaneStaysWithinLimits | packages/trigger-local/src/runtime.js:105-136 | over all interleavings no lane holds more jobs than the largest limit declared on it |
| LaneLaws.WithoutQueueOneAtATime | packages/trigger-local/src/runtime.js:102-108 | bodies of tasks without a queue run one at a time |
| LaneLaws.AtMostAHundredInFlight | packages/trigger-local/src/queues.js:68-70 | the worker never has more than a hundred jobs in flight |
| LaneLaws.AttemptsAreUsed | packages/trigger-local/src/runtime.js:158-164 | a body runs at most as often as the job has attempts, and the job is done exactly after a success or after all attempts have failed, once it has left lock and lane |
| WriteChain.RunWrites.constructor | packages/trigger-local/src/runtime.js:31 | no write is queued at first |
| WriteChain.RunWrites.EnqueueRunWrite | packages/trigger-local/src/runtime.js:33-43 | the new write is linked to the write that the map names for its run |
| WriteChain.RunWrites.OnSettled | packages/trigger-local/src/runtime.js:38-40 | a settled write removes the map entry exactly if it still names that write |
| WriteChain.NextKeepsInv | packages/trigger-local/src/runtime.js:33-43 | every action keeps the links, the map and the order consistent |
| WriteChain.ChainInvariant | packages/trigger-local/src/runtime.js:33-43 | so does every run of the chain |
| WriteChain.WritesKeepOrder | packages/trigger-local/src/runtime.js:27-43 | a write starts only after all earlier writes of its run have settled |
| WriteChain.FirstUnsettledCanMove | packages/trigger-local/src/runtime.js:33-43 | no write is stuck behind the chain |
| RowQueue.StartsInTurn | packages/trigger-local/src/runtime.js:33-43 | the chain lets a write of a run start exactly if it is the run's next one and none is under way |
| RowQueue.SettlesInTurn | packages/trigger-local/src/runtime.js:33-43 | the write that can settle is the one under way |
| RowQueue.JointRunIsARowRun | packages/trigger-local/src/runtime.js:33-43 | from related states, what the chain does with one run's writes is legal for the model of its row |
| RowQueue.ChainGivesAQueue | packages/trigger-local/src/runtime.js:27-43 | on every run of the chain with any other runs beside it, each run gets the one-at-a-time queue that the model of its row assumes |
| RunRows.StepKeepsInv | packages/trigger-local/src/runtime.js:169-245 | every step keeps which writes can be pending in which phase of the job and of a cancel |
| RunRows.RunKeepsInv | packages/trigger-local/src/runtime.js:169-245 | so on every run |
| RunRows.WritesFindTheirRow | packages/trigger-local/src/runtime.js:339-345 | after the insert, on every run, the row exists exactly if the insert took effect |
| RunRows.NothingBeforeTheInsert | packages/trigger-local/src/runtime.js:339-360 | no write is queued before the insert has settled and no attempt starts before the job exists |
| RunRows.StepKeepsSettling | packages/trigger-local/src/runtime.js:204-244 | each step but a cancel's, late writes included, keeps row, writes and outcomes in agreement |
| RunRows.StepKeepsOutcome | packages/trigger-local/src/runtime.js:204-244 | no such step but a late write of a status that is not terminal changes the outcome in a terminal row |
| RunRows.RunKeepsSettling | packages/trigger-local/src/runtime.js:169-245 | so does every run without a cancel |
| RunRows.TerminalIsFinal | packages/trigger-local/src/runtime.js:222-244 | without a cancel and without such a late write, once a row is terminal its status, output, error, attempt and times never change, however writes are delayed or fail |
| RunRows.FinalExactlyWhenNothingUndoes | packages/trigger-local/src/runtime.js:33-43 | a terminal row is final on every later run exactly if no settled write of a status that is not terminal can still take effect |
| RunRows.LateRunningUndoesTerminal | packages/trigger-local/src/db.js:112-131 | a run on which such a write turns a COMPLETED row back to RUNNING after the job has ended |
| RunRows.TerminalMeansDecided | packages/trigger-local/src/runtime.js:204-244 | COMPLETED comes only with the value of the last body after failures only; FAILED only after all attempts have failed, with the last error |
| RunRows.EndedRunIsTerminal | packages/trigger-local/src/runtime.js:219-243 | an ended job whose last write was acknowledged shows its verdict in the row, if no late write has undone it |
| RunRows.WaitForRun | packages/trigger-local/src/runtime.js:366-383 | a waiter resolves with the first terminal row it reads, and times out only at the first later poll past the deadline |
| RowContents.MetadataReachesRow | packages/trigger-local/src/db.js:133-139 | the next metadata write puts the object's metadata into the row and changes no other field |
| RowContents.RowShowsLastMetadata | packages/trigger-local/src/runtime.js:500-505 | without a cancel, with every write acknowledged and none queued, the row's metadata is that of the object the last write names |
| RowContents.RowShowsRunningAttempt | packages/trigger-local/src/runtime.js:207-210 | then, while a body runs, the row shows its attempt as RUNNING, begun and not finished |
| RowContents.RowShowsFailedAttempt | packages/trigger-local/src/runtime.js:224-243 | then, between two attempts, it shows the failed attempt with its error and no terminal status |
| RowContents.RowShowsDecision | packages/trigger-local/src/runtime.js:219-243 | then, after the job has ended, it shows the deciding attempt's status, output or error, and that it has finished |
| RunCancels.CanceledIsFinal | packages/trigger-local/src/runtime.js:457-469 | on every run with one cancel after another, a CANCELED row between two cancels is final exactly if the job is over (removed, finished, or its deciding write made) and no settled write can still replace the row |
| RunCancels.JobOverwrites | packages/trigger-local/src/runtime.js:204-243 | a job that is not over can go on, with no failure, to overwrite CANCELED |
| RunCancels.QuietCancel | packages/trigger-local/src/runtime.js:457-467 | while no attempt is active, an acknowledged cancel write leaves CANCELED in the row |
| RunCancels.CanceledStaysCanceled | packages/trigger-local/src/runtime.js:457-469 | a CANCELED row of a job that is over stays so through further cancels, and no attempt starts |
| RunCancels.CancelSticks | packages/trigger-local/src/runtime.js:457-469 | with no attempt active from the row read on and a successful write, the row is CANCELED when the cancel returns, and stays so, with no further attempt, exactly if the job was removed or had finished |
| RunCancels.CancelStampsTheRow | packages/trigger-local/src/runtime.js:460-464 | with nothing else under way a cancel sets status and finish time of an unfinished row and leaves every other field |
| RunCancels.FinishedRunIsLeftAlone | packages/trigger-local/src/runtime.js:461-467 | a cancel of a terminal or missing row queues no write |
| RunCancels.CancelBeforeEnqueueIsLost | packages/trigger-local/src/runtime.js:341-360 | a cancel between insert and enqueue does not stop the body |
| RunCancels.OverlappingCancelIsOverwritten | packages/trigger-local/src/db.js:112-131 | a row can go from CANCELED to COMPLETED |
| RunCancels.StaleCancelOverwritesTerminal | packages/trigger-local/src/runtime.js:460-464 | a row can go from COMPLETED to CANCELED |
| RunCreation.OneRunIffNoTakeOver | packages/trigger-local/src/runtime.js:290-310 | overlapping calls without failures, within the key's life, make one job and return one run exactly if no call took the key over |
| RunCreation.RunKeepsOneMaker | packages/trigger-local/src/runtime.js:290-310 | until a take-over the key names the one caller that makes a run |
| RunCreation.TwoMakers | packages/trigger-local/src/runtime.js:304-308 | the first take-over leaves two callers that make runs |
| RunCreation.SequentialNeverTakesOver | packages/trigger-local/src/runtime.js:298-309 | calls that do not overlap never take the key over |
| RunCreation.SequentialCallsShareOneRun | packages/trigger-local/src/runtime.js:280-364 | calls that do not overlap all return the same run and enqueue one job |
| RunCreation.OverlapCreatesTwoRuns | packages/trigger-local/src/runtime.js:299-308 | two overlapping calls can create two runs without any failure |
| RunCreation.ClaimWinsExactlyAfterTtl | packages/trigger-local/src/runtime.js:292-297 | whatever fails, a claim wins exactly if the key was last set a lifetime ago or more, counting claims whose answer was lost |
| RunCreation.CallsKeepTheirWord | packages/trigger-local/src/runtime.js:294-364 | whatever fails, a call that returns its own run has enqueued one job, one that returns another's has seen its row, and only a failing enqueue throws |
| RunCreation.RowsFollowInserts | packages/trigger-local/src/runtime.js:341-345 | a run's row exists exactly if its insert succeeded, or took effect although it failed |
| RunCreation.CallsGoOn | packages/trigger-local/src/runtime.js:294-360 | a call that has not answered can always go on, and each of its effects can fail |
| RunCreation.CallsAnswer | packages/trigger-local/src/runtime.js:280-364 | without failures every call answers within six steps |
| FixedWindow.CounterKey.Incr | packages/kv/src/rate-limit.ts:41 | increments a live counter, or starts at 1 without an expiry |
| FixedWindow.CounterKey.PExpireAt | packages/kv/src/rate-limit.ts:43 | sets the expiry and nothing else |
| FixedWindow.CounterKey.FixedWindowScript | packages/kv/src/rate-limit.ts:35-49 | the new key and the reply, as functions of the old key, limit, window and time |
| FixedWindow.FixedKeyCountsItsWindow | packages/kv/src/rate-limit.ts:40-44 | after any history the key counts the requests of its aligned window and carries that window's end as expiry |
| FixedWindow.FixedWindowIsExact | packages/kv/src/rate-limit.ts:35-49 | in each aligned window exactly min(limit, requests) succeed |
| FixedWindow.AtMostTwiceTheLimit | packages/kv/src/rate-limit.ts:35-49 | any interval of the window's length has at most twice the limit |
| FixedWindow.TwiceTheLimitIsReached | packages/kv/src/rate-limit.ts:35-49 | that bound is reached for every limit |
| FixedWindow.FixedWindowReport | packages/kv/src/rate-limit.ts:87-114 | `success` exactly for the first `limit` requests of the window, `remaining` is what the window has left, and `reset` lies after now and at most one window ahead |
| SlidingWindow.SortedSetKey.ZRemRangeByScore | packages/kv/src/rate-limit.ts:57 | keeps exactly the live entries above the bound; an empty set is no key |
| SlidingWindow.SortedSetKey.ZAdd | packages/kv/src/rate-limit.ts:64 | adds the member with its score, replacing its old one |
| SlidingWindow.SortedSetKey.SlidingWindowScript | packages/kv/src/rate-limit.ts:51-67 | the new key and the reply, as functions of the old key, limit, window, time and member |
| SlidingWindow.KeyHoldsTheWindow | packages/kv/src/rate-limit.ts:57-65 | neither removal nor the key's expiry ever forgets an admission that a window can still see |
| SlidingWindow.SlidingWindowIsExact | packages/kv/src/rate-limit.ts:57-66 | the admissions are those of the naive rule over the whole history: fewer than `limit` earlier ones in (now - W, now] |
| SlidingWindow.NeverMoreThanTheLimit | packages/kv/src/rate-limit.ts:51-67 | no half-open interval of the window's length, wherever it ends, has more than `limit` admissions |
| SlidingWindow.SlidingWindowReport | packages/kv/src/rate-limit.ts:87-114 | after any history `success` exactly if the naive rule admits the request, `remaining` is what its admissions in sight leave, and `reset` is one window after now or after the oldest of them |
| RateLimit.IncompleteReply | packages/kv/src/rate-limit.ts:101-110 | a reply without a limit or a reset is completed from the limiter's settings and clock |
| SlidingWindow.RefusedUntilOldestLeaves | packages/kv/src/rate-limit.ts:59-63 | after a refusal the next request passes exactly from the moment the oldest admission leaves |
| SlidingWindow.ReportedResetMayBeEarly | packages/kv/src/rate-limit.ts:61 | after any refusal, retrying at the reported reset, or at once if that is past, gets through exactly if the oldest admission was on a whole second |
| SlidingWindow.EarlyResetIsReported | packages/kv/src/rate-limit.ts:61 | a refusal that reports a reset almost a second too early |
| PolicyMerge.CollectorIsComplement | packages/utils/src/remediation-script.ts:130-140 | over Allow statements the collector and the keep-scoped predicate are exact complements |
| PolicyMerge.MergeKeepsDenials | packages/utils/src/remediation-script.ts:135-143 | a request is explicitly denied after the merge exactly if it was before |
| PolicyMerge.MergeExtendsAllows | packages/utils/src/remediation-script.ts:135-143 | some Allow matches after the merge exactly if one did before or an added action matches |
| PolicyMerge.MergePreservesMeaning | packages/utils/src/remediation-script.ts:122-143 | the decision on every request is the old one, except that added actions turn an implicit deny into an allow |
| PolicyMerge.MergeAccumulates | packages/utils/src/remediation-script.ts:138-140 | merging twice is merging once with both lists, as the same document |
| PolicyMerge.RerunChangesNothing | packages/utils/src/remediation-script.ts:131-143 | running a script again leaves the document as it is |
| PolicyMerge.StatementsSurvive | packages/utils/src/remediation-script.ts:123-127 | Deny and scoped statements keep their order and content through any number of merges |
| PolicyMerge.MergedStatements | packages/utils/src/remediation-script.ts:138-140 | the merged document holds every statement that is not a plain Allow, word for word, and one Allow on "*" with the plain Allows' and the added actions, sorted |
| PolicyMerge.MergedFields | packages/utils/src/remediation-script.ts:140 | the version stays or becomes the current one, and other top-level fields are dropped |
| PolicyMerge.DecisionMeans | packages/utils/src/remediation-script.ts:70-74 | a matching Deny decides, then a matching Allow |
| PolicyMerge.MatchesMeans | packages/utils/src/remediation-script.ts:126-129 | what actions, NotAction, resources, NotResource and a condition each contribute |
| PolicyMerge.StarNamesAllThatBegin | packages/utils/src/remediation-denylist.ts:202-204 | a trailing star names every action that begins alike |
| PolicyMerge.FailedReadKeepsNothing | packages/utils/src/remediation-script.ts:137 | after a failed read the new policy allows the added actions and nothing else |
| PolicyMerge.DenialsSurviveTheRead | packages/utils/src/remediation-script.ts:137 | the live policy's denials survive exactly if the read succeeds or there are none |
| Denylist.CaseDoesNotMatter | packages/utils/src/remediation-denylist.ts:84-92 | permissions that differ in letter case get the same answer |
| Denylist.SurvivorNamesOneAction | packages/utils/src/remediation-denylist.ts:206-242 | a permission that passes holds no wildcard and names exactly its own action |
| Denylist.PaddingIsIgnored | packages/utils/src/remediation-denylist.ts:210-213 | any white space around a permission leaves the answer as it is, contrary to the comment |
| Denylist.SplitBlockedRemediationActions | packages/utils/src/remediation-denylist.ts:248-264 | two sorted lists without repetition: exactly the grantable and exactly the blocked permissions |
| Denylist.SplitIsAllowed | packages/utils/src/remediation-denylist.ts:248-264 | the grantable list depends on the set of permissions alone |
| Denylist.OnlyGrantableActionsAreAdded | packages/utils/src/remediation-script.ts:76-117 | a request allowed after the script but not before names an action that the denylist passes and that was asked for |
| Denylist.GrantableActionsAreAdded | packages/utils/src/remediation-script.ts:76-117 | every grantable action is allowed afterwards unless explicitly denied |
| Denylist.AddedActionsAreHarmless | packages/utils/src/remediation-denylist.ts:206-242 | a request allowed after the script but not before is a plain service and action with none of the sixteen verbs, no put-acl, no guardduty update, only iam reads, only one sts call, and in no table entry |
| Denylist.HarmlessActionsAreAdded | packages/utils/src/remediation-denylist.ts:206-242 | conversely every other well-formed permission asked for is allowed unless explicitly denied |
| Denylist.NothingToGrant | packages/utils/src/remediation-script.ts:89-93 | with only blocked permissions the document stays exactly as it is |
| LikePattern.PatternMatchesPrefix | packages/db/src/vector-index.ts:180-182 | the escaped pattern is well formed and matches exactly the ids with that prefix (section 9.7.1 of the PostgreSQL manual) |
| VectorFilter.KeyBackFrom | packages/db/src/vector-index.ts:201-207 | the backward walk, bounded by 0 only, never crosses the scan position |
| VectorFilter.SkipSpaces | packages/db/src/vector-index.ts:211-212 | the forward walk over spaces and its cost |
| VectorFilter.ReadValue | packages/db/src/vector-index.ts:209-220 | the quoted value after an allowed key, an unterminated quote, or no quote |
| VectorFilter.NextPair | packages/db/src/vector-index.ts:197-222 | one pass finds what the specification finds, and leaves a position that no key can reach across |
| VectorFilter.FilterConditions | packages/db/src/vector-index.ts:188-224 | the loop computes the specified scan and inspects at most six times the length of the filter |
| VectorFilter.ScanIsSound | packages/db/src/vector-index.ts:139-142 | every condition names sourceType or sourceId and has a value without quotes |
| VectorFilter.ScanStandsInFilter | packages/db/src/vector-index.ts:197-222 | every condition stands in the filter as key, a whole word, spaces, '=', spaces, quoted value |
| VectorFilter.ScanUndoesPrint | packages/db/src/vector-index.ts:184-224 | scanning the printed form of any list of quote-free pairs gives that list, even with '=' or spaces in values |
| VectorFilter.TenantWhereMeaning | packages/db/src/vector-index.ts:226-230 | a query with a printed filter sees exactly the tenant's rows with these source types and source ids |
| KeysetScan.ScanAscends | packages/db/src/vector-index.ts:324-353 | over a changing table, ids come in ascending order, once each, above the start cursor |
| KeysetScan.ScanMissesNothing | packages/db/src/vector-index.ts:324-353 | a completed scan returns every matching row that was there throughout |
| KeysetScan.ScanReturnsEachRowOnce | packages/db/src/vector-index.ts:324-353 | such a row is returned exactly once |
| KeysetScan.ScanReturnsTenantRows | packages/db/src/vector-index.ts:334-341 | every id returned was, when it was answered, a row of the querying tenant with the prefix |
| KeysetScan.PageCountIsCeiling | packages/db/src/vector-index.ts:340-350 | the number of pages is max(1, ceil(n / limit)) |
| KeysetScan.FixedTablePages | packages/db/src/vector-index.ts:340-350 | on a fixed table a scan that is not endless never takes more pages, and is complete exactly when it has taken so many |
| KeysetScan.EndlessScanNeverCompletes | packages/db/src/vector-index.ts:338-350 | with pages of one row, no start cursor, a matching empty id and another matching row, no scan of a fixed table completes |
| KeysetScan.ScansEndExactly | packages/db/src/vector-index.ts:338-350 | that is the exact condition: otherwise a complete scan exists and none takes more than the number of pages |
| KeysetScan.DefaultCursorSkips | packages/db/src/vector-index.ts:325 | the default cursor leaves out ids that are not above "0" |
| Unsubscribe.RolesInList | packages/email/lib/check-unsubscribe.ts:145 | a list of comma-free names reads as exactly these names, trimmed |
| Unsubscribe.FindUsers | packages/email/lib/check-unsubscribe.ts:106-114 | the rows of the users that are in the list, in any order |
| Unsubscribe.FindMembers | packages/email/lib/check-unsubscribe.ts:133-140 | the active memberships of these users in the organization |
| Unsubscribe.FindSettings | packages/email/lib/check-unsubscribe.ts:150-152 | all role settings of the organization |
| Unsubscribe.DropAdminsAndOff | packages/email/lib/check-unsubscribe.ts:116-128 | the admins and switched-off users, and exactly the others |
| Unsubscribe.CollectRoles | packages/email/lib/check-unsubscribe.ts:142-147 | the map holds exactly the roles of all memberships of each email |
| Unsubscribe.CollectSettings | packages/email/lib/check-unsubscribe.ts:153-156 | the map holds one setting per role that has any |
| Unsubscribe.BatchRolesSayOff | packages/email/lib/check-unsubscribe.ts:162-190 | the role verdict, as the two maps give it |
| Unsubscribe.ResolveSurviving | packages/email/lib/check-unsubscribe.ts:160-204 | the remaining users that their roles or their own preferences switch off |
| Unsubscribe.MapsAgree | packages/email/lib/check-unsubscribe.ts:160-190 | that verdict is the one of the per-user queries |
| Unsubscribe.SingleCheck | packages/email/lib/check-unsubscribe.ts:229-359 | the single check, in terms of the one user with the email |
| Unsubscribe.UnsubscribedMeans | packages/email/lib/check-unsubscribe.ts:229-359 | in full: admins, switched-off users, a stored `false`, or roles whose settings all say no, with the portal-only defaults |
| Unsubscribe.RolesSayOffMeans | packages/email/lib/check-unsubscribe.ts:294-343 | the role rule in terms of memberships, settings and each setting's own column |
| Unsubscribe.UnsubscribedWithoutOrganization | packages/email/lib/check-unsubscribe.ts:289-296 | without an organization only the flags and the user's own choice count |
| Unsubscribe.GetUnsubscribedEmails | packages/email/lib/check-unsubscribe.ts:63-211 | an email is in the batch answer exactly if it is in the list and the single check says so; a failed query empties the answer |
| PurgeS3.ObjectStore.ListObjects | apps/api/src/admin-organizations/purge-organization-external.service.ts:142-154 | one page of the keys under a prefix, of any size, and where to go on |
| PurgeS3.ObjectStore.HeadObject | apps/api/src/admin-organizations/purge-organization-external.service.ts:226-233 | whether a key is there, or an error |
| PurgeS3.ObjectStore.DeleteObjects | apps/api/src/admin-organizations/purge-organization-external.service.ts:180-186 | removes a batch, or some of it with errors |
| PurgeS3.AddAll | apps/api/src/admin-organizations/purge-organization-external.service.ts:138-151 | a set of keys without repetition |
| PurgeS3.External.CollectKeys | apps/api/src/admin-organizations/purge-organization-external.service.ts:138-155 | over all pages: exactly the captured keys and the keys under the prefix, once each |
| PurgeS3.External.DeleteBatched | apps/api/src/admin-organizations/purge-organization-external.service.ts:169-200 | removes exactly these keys in batches of at most 1000 and counts them; on failure removes some of them and nothing else |
| PurgeS3.External.CleanupS3 | apps/api/src/admin-organizations/purge-organization-external.service.ts:124-167 | if it returns, no key under the prefix and no captured key is left in a configured bucket; however it ends, no other key is gone |
| PurgeS3.External.VerifyS3Clean | apps/api/src/admin-organizations/purge-organization-external.service.ts:202-237 | true exactly if the store is clean; true without a client |
| PurgeS3.CleanedIsClean | apps/api/src/admin-organizations/purge-organization-external.service.ts:134-164 | a bucket cleaned early stays clean through the later ones, even if references share a bucket |
| PurgeS3.CountIsKeySetSizes | apps/api/src/admin-organizations/purge-organization-external.service.ts:133-166 | with a bucket per reference the count is the sum of the original key-set sizes |
| PurgeS3.OtherOrganizationsStay | apps/api/src/admin-organizations/purge-organization-external.service.ts:142-148 | objects under another organization's id stay, however the cleanup ends, unless captured |
| PurgeS3.CleanMeans | apps/api/src/admin-organizations/purge-organization-external.service.ts:207-236 | a clean store, in terms of organization id, configured buckets and captured keys |
| Purge.FindAdminMembershipOrgId | apps/api/src/admin-organizations/purge-organization.service.ts:274-297 | the oldest active membership elsewhere that is more than an hour old, if there is one |
| Purge.RecordElsewhereSurvives | apps/api/src/admin-organizations/purge-organization.service.ts:42-55 | a record held by another organization survives the cascade |
| Purge.SurvivingAre | apps/api/src/admin-organizations/purge-organization.service.ts:42-44 | exactly the other organizations' records survive |
| Purge.NothingLeftMeans | apps/api/src/admin-organizations/purge-organization.service.ts:185-204 | verified means no row in any of the ten tables, and leftovers are the exact numbers |
| Purge.Database.WriteAudit | apps/api/src/admin-organizations/purge-organization.service.ts:261-271 | appends one record, or fails, perhaps after appending it |
| Purge.Database.DeleteOrganization | apps/api/src/admin-organizations/purge-organization.service.ts:92 | removes the row with the records it holds, or fails, perhaps after removing it |
| Purge.Database.Count | apps/api/src/admin-organizations/purge-organization.service.ts:185-196 | the rows of one table that still name the organization, or an error |
| Purge.Vendors.Cleanup | apps/api/src/admin-organizations/purge-organization.service.ts:163-179 | one outside step for one organization, which may fail; a log of those that succeeded |
| Purge.PurgeService.VerifyDeletion | apps/api/src/admin-organizations/purge-organization.service.ts:181-215 | exactly the tables with rows left, with their numbers; one failing count fails it |
| Purge.PurgeService.CleanUpAndDelete | apps/api/src/admin-organizations/purge-organization.service.ts:67-92 | the row goes only after this very call has cleaned both vendors, in order and for this organization, and the store is verified clean, even if others wrote to it after the cleanup |
| Purge.PurgeService.PurgeOrganization | apps/api/src/admin-organizations/purge-organization.service.ts:27-161 | nothing is touched before the confirmed slug and a durable record in the oldest fitting membership; which records are attempted; the row is gone exactly on success, a failed count, or a lost answer; the records left behind; leftovers reported exactly |
| MemoryKv.InMemoryRedis.constructor | packages/kv/src/client.ts:86 | the store starts empty |
| MemoryKv.InMemoryRedis.Purge | packages/kv/src/client.ts:88-93 | removes the key exactly if it has expired |
| MemoryKv.InMemoryRedis.Get | packages/kv/src/client.ts:110-115 | the stored value unless it has expired; an expired key is gone afterwards, and nothing else changes |
| MemoryKv.InMemoryRedis.Set | packages/kv/src/client.ts:117-121 | replaces the value and the deadline; a lifetime of 0 is no deadline |
| MemoryKv.InMemoryRedis.Exists | packages/kv/src/client.ts:131-134 | 1 exactly if the key is stored and has not expired; an expired key is gone afterwards |
| MemoryKv.InMemoryRedis.GetDel | packages/kv/src/client.ts:150-156 | the stored value unless it has expired; the key is gone afterwards |
| MemoryKv.InMemoryRedis.Del | packages/kv/src/client.ts:123-129 | removes the stored keys of the list and counts each once, expired or not |
| MemoryKv.InMemoryRedis.Expire | packages/kv/src/client.ts:143-148 | sets the deadline of a stored key without purging it |
| MemoryKv.CallRefines | packages/kv/src/client.ts:110-156 | one call keeps the live parts of the lazy and the eager store equal and answers alike |
| MemoryKv.LazyRefinesEager | packages/kv/src/client.ts:83-156 | so does every run; only `del` counts more, by exactly the expired keys it was given |
| MemoryKv.AnswersFollowTheCalls | packages/kv/src/client.ts:83-156 | every read answers with the last set that no delete has followed, for as long as its lifetime lasts |
| MemoryKv.BackwardClockRevives | packages/kv/src/client.ts:90 | with a clock that goes back an expired key can be read again |
| MemoryKv.ExpireAgreesUnlessStale | packages/kv/src/client.ts:143-148 | `expire` answers as on the eager store exactly if its key has not expired unnoticed, and leaves the same live keys exactly if that holds or the new deadline has passed already |
| MemoryKv.ExpireRevives | packages/kv/src/client.ts:143-148 | a positive `expire` makes a key that had expired unnoticed readable again |

## Left out

- RunRows.TerminalIsFinal: covers runs without a cancel and without a redelivery of a stalled job. An update may take effect after it has settled; the insert of the row takes effect before it settles or never.
- RunCancels.CanceledIsFinal: one cancel at a time, from the process that holds the write chain; a cancel from another bundle has a write chain of its own and is not modelled.
- JobFlow.Progress: bodies do not wait for other runs; a body that waits for a run in its own lane can block itself.
- JobFlow.MutualExclusion: a process without a Redis client takes no lock at all and is not modelled; the 150 ms pause between attempts is any delay.
- LockLaws.SleepsExactlyBehindAnother: starts without keys left behind by a crash, and for task ids of which none continues another with a colon, because the code shares the lock otherwise.
- Lanes.GrantsFollowArrivals: promises arrival order only for limits that cannot overtake, because the code does not keep it for others.
- RunCreation.SequentialCallsShareOneRun: within the key's lifetime; parsing the lifetime is left out.
- RunRows.WaitForRun: the polls come as a list; the 100 ms pause between them is left out.
- SlidingWindow.SlidingWindowScript: limits are whole numbers and at least 1, and arithmetic is exact; Lua's doubles agree up to 2^53.
- FixedWindow.FixedWindowReport: limits are whole numbers and at least 1; the limiter without a backend, which lets everything through, is left out.
- KeysetScan.ScanReturnsEachRowOnce: on a changing table, needs a start cursor, pages of two rows or more, or no matching empty id.
- PolicyMerge.MergePreservesMeaning: `Statement` is an array of objects; documents that IAM itself rejects are still covered. Two writers at once are not: the last one wins.
- Denylist.OnlyGrantableActionsAreAdded: the table of blocked actions is a parameter, so it holds for every table; its entries are finite data.
- Denylist.SplitBlockedRemediationActions: sorts by code point, where JavaScript sorts by UTF-16 unit; the two agree on all tokens that pass.
- Unsubscribe.GetUnsubscribedEmails: unique emails and settings, and a non-empty organization id, as the database and the callers provide; the check without member access is left out.
- PurgeS3.External.CleanupS3: nobody else writes to a bucket during the cleanup of the store, and a listing that is cut off carries its token.
- Purge.PurgeService.CleanUpAndDelete: others may write to the store between cleanup and verification, but not between verification and the delete.
- MemoryKv.LazyRefinesEager: `keys` and `expire` do not purge and do not follow the eager store; JSON encoding of values is left out.
- The exponential backoff, delayed starts, schedules, tokens, tags, logging and worker bootstrap of the job runtime: no hard property.
- Clients of BullMQ, Redis, PostgreSQL, S3 and Stripe: only their effects, with failures anywhere.
- What the Stripe and vector-store cleanups do inside, and how the purge snapshot is read.
- Shell and jq as text, role-name checks, the display form of blocked actions and their extraction from error texts.
- Embeddings, similarity ranking, upsert, fetch and delete of the vector index.
- The mock Redis client, encryption, email templates, controllers and user interface.
