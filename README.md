# Reply merging and bucket integrity scheduling, modelled in Dafny

This project models two sequential pieces of the Vespa content platform and proves properties about them.

**The document protocol's reply merger (`ReplyMerger`).** One document operation goes out to several
replicas. Each replica reply is passed to `merge(index, reply)`. `mergedReply()` then returns the one
reply the client sees, with the index of the replica it came from, or `null` when the merger built that
reply itself. Only the unit test of the merger is part of this model, so the model follows what the
test asserts (`ReplyMergerTestCase.java`). A reply is a datatype: an ordered list of `(code, message)`
errors plus a kind. The kind is `Generic` (EmptyReply), `FoundAware(wasFound)` (remove and update
replies) or `Get(lastModified)`. The test's `assertThatErrorsMatch` compares error lists by code and
message, in order, which is plain equality of `seq<Error>` here. "Same instance" is modelled as
"the result is the input reply, returned with that input's index". "A fresh reply" is modelled as
"no index, `Generic` kind". The merger is a class whose `replies` field `Merge` appends to.
`Resolve` computes the merged outcome as a pure function over that sequence, taken in call order.
The precedence is:
1. substantive errors: all errors of every reply that has a non-ignored error;
2. otherwise a clean reply: the first clean one, except that when all replies are clean and all are
   remove/update replies or all are get replies, the first that found its document is preferred;
3. otherwise the first error of each reply.

With no replies, step 3 gives an empty, error-free reply. Each `@Test` method is a method in
`ReplyMergerTests`: it builds a merger, merges the test's replies, and its postconditions are the test's
assertions.

**The storage node's `BucketIntegrityChecker`** (`bucketintegritychecker.cpp`). The model covers:
- `configure`: validates the weekly-cycle string and the daily window, the pending limit and the
  request delay;
- `getCurrentRunState`: the scheduling rule. It takes the weekday and minute of the day as inputs;
- `DiskData::iterate`: the per-disk walk over the bucket database, which interleaves retries of failed
  repairs. `NextEntryFinder`/`getNextId` find the next bucket of a disk;
- `DiskData::done`/`working`;
- the counter updates of `onInternalReply`;
- `getTotalPendingCount`;
- the two text renderings `printMinutesOfDay` and `printRunState`.

The checker is a class. Its `status` field is the per-disk vector, held as a sequence of `DiskData`
values that the methods replace. The function-static counter `i` of `iterate` is the single field
`retryCounter`, which every disk shares. The bucket database is an ordered sequence of
`(bucket, disk)` entries. A bucket is represented by its database key: `toKey` is a bijection, and
`BucketId(0,0)` has key 0. The C++ unsigned counters wrap explicitly: `Wrap32` for `uint32_t` and
`Wrap64` for the 64-bit time values. The config's 32-bit signed integers wrap into the unsigned option
fields, so a negative day boundary is refused.

Files: `wrappers.dfy` (Option), `reply_merger.dfy`, `reply_merger_tests.dfy`, `integrity_schedule.dfy`
(run states, configuration, daily window, renderings), `integrity_checker.dfy` (bucket database walk,
disk data, replies, the checker class, run-state lemmas).

## Model

| member | source | states |
|---|---|---|
| ReplyMerging.ReplyMerger.constructor | documentapi/src/test/java/com/yahoo/documentapi/messagebus/protocol/ReplyMergerTestCase.java:17-20 | a new merger holds no replies |
| ReplyMerging.ReplyMerger.Merge | documentapi/src/test/java/com/yahoo/documentapi/messagebus/protocol/ReplyMergerTestCase.java:27-29 | `merge` appends (index, reply) after the earlier ones, in call order |
| ReplyMerging.ReplyMerger.MergedReply | documentapi/src/test/java/com/yahoo/documentapi/messagebus/protocol/ReplyMergerTestCase.java:30-33 | `mergedReply()` is Resolve over the replies merged so far; no ensures of its own, its lemmas are Resolve's |
| ReplyMerging.Reply.AddError | documentapi/src/test/java/com/yahoo/documentapi/messagebus/protocol/ReplyMergerTestCase.java:55-56 | `addError` appends one error at the end and keeps the reply kind |
| ReplyMerging.ClassesPartition | documentapi/src/test/java/com/yahoo/documentapi/messagebus/protocol/ReplyMergerTestCase.java:85-147 | every reply is exactly one of: clean, only ignored errors, or with a substantive error |
| ReplyMerging.SubstantiveErrors | documentapi/src/test/java/com/yahoo/documentapi/messagebus/protocol/ReplyMergerTestCase.java:125-147 | an error is in the list iff it belongs to some reply with a non-ignored error; ignored errors of such replies included |
| ReplyMerging.FirstErrors | documentapi/src/test/java/com/yahoo/documentapi/messagebus/protocol/ReplyMergerTestCase.java:85-106 | exactly the first errors of the replies that have errors, at most one per merged reply |
| ReplyMerging.FirstClean | documentapi/src/test/java/com/yahoo/documentapi/messagebus/protocol/ReplyMergerTestCase.java:108-123 | the position found is a clean reply with no clean reply before it; none found means no reply is clean |
| ReplyMerging.FirstCleanFound | documentapi/src/test/java/com/yahoo/documentapi/messagebus/protocol/ReplyMergerTestCase.java:149-210 | the position found is the first clean reply that found its document; none found means no such reply |
| ReplyMerging.Resolve | documentapi/src/test/java/com/yahoo/documentapi/messagebus/protocol/ReplyMergerTestCase.java:22-218 | `mergedReply()`'s outcome; no ensures of its own, described by ResolveEmpty, ResolveIndexMeansInput, ResolveSubstantive, ResolveAllIgnored, ResolveCleanWins, ResolveFirstClean, ResolveAllCleanGeneric, ResolveOneKindFound and ResolveOneKindNoneFound |
| ReplyMerging.ResolveEmpty | documentapi/src/test/java/com/yahoo/documentapi/messagebus/protocol/ReplyMergerTestCase.java:212-218 | zero replies give no index and an empty, error-free reply |
| ReplyMerging.ResolveIndexMeansInput | documentapi/src/test/java/com/yahoo/documentapi/messagebus/protocol/ReplyMergerTestCase.java:30-33 | an index is returned iff no reply has a substantive error and some reply is clean; then the result is that clean input with its own index; without an index the reply is freshly built |
| ReplyMerging.ResolveSubstantive | documentapi/src/test/java/com/yahoo/documentapi/messagebus/protocol/ReplyMergerTestCase.java:36-83 | with any substantive error: no index, and exactly the errors of the replies with a substantive error |
| ReplyMerging.SubstantiveErrorsAppend | documentapi/src/test/java/com/yahoo/documentapi/messagebus/protocol/ReplyMergerTestCase.java:65-83 | merging one more reply appends all of its errors (code and message) if it has a substantive one, and nothing if not; so the list is the concatenation in merge order |
| ReplyMerging.SubstantiveErrorsSingle | documentapi/src/test/java/com/yahoo/documentapi/messagebus/protocol/ReplyMergerTestCase.java:36-63 | for a single reply with a substantive error, its whole error list |
| ReplyMerging.FirstErrorsAppend | documentapi/src/test/java/com/yahoo/documentapi/messagebus/protocol/ReplyMergerTestCase.java:98-105 | merging one more reply with errors appends only its first error |
| ReplyMerging.FirstErrorsAllNonClean | documentapi/src/test/java/com/yahoo/documentapi/messagebus/protocol/ReplyMergerTestCase.java:85-106 | when every reply has errors the list has one entry per reply, the k-th being reply k's first error |
| ReplyMerging.ResolveAllIgnored | documentapi/src/test/java/com/yahoo/documentapi/messagebus/protocol/ReplyMergerTestCase.java:85-106 | all replies ignored-only: no index, a fresh reply holding the first ignored error of each reply in merge order |
| ReplyMerging.ResolveCleanWins | documentapi/src/test/java/com/yahoo/documentapi/messagebus/protocol/ReplyMergerTestCase.java:108-123 | without substantive errors, any clean reply beats ignored-only ones: the result is a clean input with its own index and no errors |
| ReplyMerging.ResolveFirstClean | documentapi/src/test/java/com/yahoo/documentapi/messagebus/protocol/ReplyMergerTestCase.java:108-123 | without substantive errors, the first clean reply and its index are the result unless all replies are clean, of one found-aware kind, and one of them found its document; this covers a clean reply beside ignored-only replies and clean replies of mixed kinds |
| ReplyMerging.ResolveAllCleanGeneric | documentapi/src/test/java/com/yahoo/documentapi/messagebus/protocol/ReplyMergerTestCase.java:22-34 | error-free generic replies: the first merged reply with its index |
| ReplyMerging.ResolveOneKindFound | documentapi/src/test/java/com/yahoo/documentapi/messagebus/protocol/ReplyMergerTestCase.java:149-210 | clean replies all of one found-aware kind, some found: the first that found its document (wasFound, or a last-modified time above 0), with its index |
| ReplyMerging.ResolveOneKindNoneFound | documentapi/src/test/java/com/yahoo/documentapi/messagebus/protocol/ReplyMergerTestCase.java:166-178 | clean replies all of one found-aware kind, none found: the first reply, with its index |
| ReplyMergerTests.GenericRepliesWithNoErrorsPickFirst | documentapi/src/test/java/com/yahoo/documentapi/messagebus/protocol/ReplyMergerTestCase.java:22-34 | three empty replies give index 0 and the first reply |
| ReplyMergerTests.SingleReplyWithOneErrorGivesFreshReplyWithError | documentapi/src/test/java/com/yahoo/documentapi/messagebus/protocol/ReplyMergerTestCase.java:36-47 | no index; errors exactly [(1234, "oh no!")] |
| ReplyMergerTests.SingleReplyWithMultipleErrorsGivesFreshReplyWithAllErrors | documentapi/src/test/java/com/yahoo/documentapi/messagebus/protocol/ReplyMergerTestCase.java:49-63 | no index; both errors in order |
| ReplyMergerTests.MultipleRepliesWithMultipleErrorsGiveFreshReplyWithAllErrors | documentapi/src/test/java/com/yahoo/documentapi/messagebus/protocol/ReplyMergerTestCase.java:65-83 | no index; the three errors of both replies in merge order |
| ReplyMergerTests.IgnoredReplyWhenAllRepliesHaveOnlyIgnoredErrors | documentapi/src/test/java/com/yahoo/documentapi/messagebus/protocol/ReplyMergerTestCase.java:85-106 | no index; errors exactly "oh no!" and "omg!", the first ignored error of each reply |
| ReplyMergerTests.SuccessfulReplyTakesPrecedenceOverIgnoredReply | documentapi/src/test/java/com/yahoo/documentapi/messagebus/protocol/ReplyMergerTestCase.java:108-123 | index 1 and the clean second reply, zero errors |
| ReplyMergerTests.NonIgnoredErrorTakesPrecedence | documentapi/src/test/java/com/yahoo/documentapi/messagebus/protocol/ReplyMergerTestCase.java:125-147 | no index; errors exactly the ignored and the aborted error of the first reply, none of the ignored-only second |
| ReplyMergerTests.RemoveDocumentReplyWhereDocWasFound | documentapi/src/test/java/com/yahoo/documentapi/messagebus/protocol/ReplyMergerTestCase.java:149-164 | found pattern false/true/false gives index 1 and that reply |
| ReplyMergerTests.FirstRemoveDocumentReplyIfNoDocsWereFound | documentapi/src/test/java/com/yahoo/documentapi/messagebus/protocol/ReplyMergerTestCase.java:166-178 | nothing found gives index 0 and the first reply |
| ReplyMergerTests.UpdateDocumentReplyWhereDocWasFound | documentapi/src/test/java/com/yahoo/documentapi/messagebus/protocol/ReplyMergerTestCase.java:180-195 | found pattern false/true/true gives index 1, the first found |
| ReplyMergerTests.GetDocumentReplyWhereDocWasFound | documentapi/src/test/java/com/yahoo/documentapi/messagebus/protocol/ReplyMergerTestCase.java:197-210 | only the second get reply has a last-modified time: index 1 and that reply |
| ReplyMergerTests.ZeroRepliesGiveDefaultEmptyReply | documentapi/src/test/java/com/yahoo/documentapi/messagebus/protocol/ReplyMergerTestCase.java:212-218 | no index; an empty generic reply without errors |
| IntegritySchedule.WeeklyCycleString | storage/src/vespa/storage/storageserver/bucketintegritychecker.cpp:310-324 | not a source operation: the inverse of WeeklyCycle, used by WeeklyCycleRoundTrip; it renders 7 day states as 7 characters |
| IntegritySchedule.WeeklyCycleRoundTrip | storage/src/vespa/storage/storageserver/bucketintegritychecker.cpp:310-324 | parsing the rendered per-day states gives the same states: the character mapping is invertible |
| IntegritySchedule.CycleCharState | storage/src/vespa/storage/storageserver/bucketintegritychecker.cpp:310-324 | one weekly-cycle character: R, r, c and - give RUN_FULL, RUN_CHEAP, CONTINUE and DONT_RUN, anything else is refused; no ensures, described by ConfigAcceptance and WeeklyCycleRoundTrip |
| IntegritySchedule.WeeklyCycle | storage/src/vespa/storage/storageserver/bucketintegritychecker.cpp:304-324 | the weekly-cycle parse: 7 characters to 7 day states, else refused; no ensures, described by ConfigAcceptance, ConfigAcceptedOptions and WeeklyCycleRoundTrip |
| IntegritySchedule.ConfigOptions | storage/src/vespa/storage/storageserver/bucketintegritychecker.cpp:297-341 | the options a config yields, or refusal; no ensures, described by ConfigAcceptance, ConfigRefusesNegative, ConfigAcceptedOptions, ConfigIgnoresRequestDelay and BuildOptions |
| IntegritySchedule.BuildOptions | storage/src/vespa/storage/storageserver/bucketintegritychecker.cpp:297-341 | the day-by-day loop over the weekly cycle and the range checks give exactly ConfigOptions |
| IntegritySchedule.ConfigAcceptance | storage/src/vespa/storage/storageserver/bucketintegritychecker.cpp:303-341 | a config is accepted iff the weekly cycle has 7 characters from R, r, c, -, both day boundaries are below 1440 and maxpending is at most 1024 |
| IntegritySchedule.ConfigRefusesNegative | storage/src/vespa/storage/storageserver/bucketintegritychecker.cpp:298-300 | a negative day boundary or maxpending wraps to a huge unsigned value and is refused |
| IntegritySchedule.ConfigAcceptedOptions | storage/src/vespa/storage/storageserver/bucketintegritychecker.cpp:297-324 | on acceptance character i gives the run state of weekday i, and the other values are copied (minimum cycle time in seconds) |
| IntegritySchedule.ConfigIgnoresRequestDelay | storage/src/vespa/storage/storageserver/bucketintegritychecker.cpp:342-347 | the request delay, however long, never changes whether a config is accepted |
| IntegritySchedule.InDailyWindow | storage/src/vespa/storage/storageserver/bucketintegritychecker.cpp:440-449 | the daily window test; no ensures, described by InDailyWindowIsArc |
| IntegritySchedule.InDailyWindowIsArc | storage/src/vespa/storage/storageserver/bucketintegritychecker.cpp:440-449 | the window test holds iff the minute lies on the arc walked from start up to, not including, stop, past midnight when start >= stop; the whole day when they are equal |
| IntegritySchedule.Decimal | storage/src/vespa/storage/storageserver/bucketintegritychecker.cpp:51-52 | numbers are written as a non-empty string of decimal digits without leading zeros, and those digits denote n |
| IntegritySchedule.PrintMinutesOfDay | storage/src/vespa/storage/storageserver/bucketintegritychecker.cpp:47-54 | printMinutesOfDay; no ensures, described by PrintMinutesOfDayLayout, PrintMinutesOfDayHours and PrintMinutesOfDayRoundTrip |
| IntegritySchedule.PrintMinutesOfDayLayout | storage/src/vespa/storage/storageserver/bucketintegritychecker.cpp:47-54 | for m < 1440: two digits of m/60, ':', two digits of m%60 |
| IntegritySchedule.PrintMinutesOfDayHours | storage/src/vespa/storage/storageserver/bucketintegritychecker.cpp:47-54 | for any value: the number of whole hours, padded to two digits, ':', the two digits of the minutes; so hours of 100 and more are written in full |
| IntegritySchedule.PrintMinutesOfDayRoundTrip | storage/src/vespa/storage/storageserver/bucketintegritychecker.cpp:47-54 | reading the "HH:MM" rendering back gives m |
| IntegritySchedule.PrintRunState | storage/src/vespa/storage/storageserver/bucketintegritychecker.cpp:56-70 | printRunState's four strings; no ensures, described by PrintRunStateInjective |
| IntegritySchedule.PrintRunStateInjective | storage/src/vespa/storage/storageserver/bucketintegritychecker.cpp:56-70 | different run states are printed differently |
| IntegrityChecker.NextOnDisk | storage/src/vespa/storage/storageserver/bucketintegritychecker.cpp:113-137 | the bucket found is on the disk, after `last`, and no earlier entry is; none found means no bucket of the disk lies after `last` |
| IntegrityChecker.NextOnDiskIsSmallest | storage/src/vespa/storage/storageserver/bucketintegritychecker.cpp:139-146 | in key order that is the smallest bucket of the disk after `last` |
| IntegrityChecker.GetNextId | storage/src/vespa/storage/storageserver/bucketintegritychecker.cpp:139-146 | the walk from the start key, skipping other disks and `last` itself once, finds exactly NextOnDisk |
| IntegrityChecker.DiskData.IsDone | storage/src/vespa/storage/storageserver/bucketintegritychecker.cpp:97-101 | DiskData::done; no ensures, described by DoneMeansIdle |
| IntegrityChecker.DiskData.IsWorking | storage/src/vespa/storage/storageserver/bucketintegritychecker.cpp:103-108 | DiskData::working; no ensures, described by DoneMeansIdle |
| IntegrityChecker.IterateSpec | storage/src/vespa/storage/storageserver/bucketintegritychecker.cpp:149-189 | DiskData::iterate as a function of the disk's data, the shared counter and the database; no ensures, described by the five Iterate lemmas that follow and by BucketIntegrityChecker.Iterate |
| IntegrityChecker.DoneMeansIdle | storage/src/vespa/storage/storageserver/bucketintegritychecker.cpp:97-108 | done implies not working; done iff state DONE and not working |
| IntegrityChecker.IterateRetriesOnSchedule | storage/src/vespa/storage/storageserver/bucketintegritychecker.cpp:152-162 | when retries are due, the front failed bucket is returned, popped, and retriedBuckets rises by one |
| IntegrityChecker.IterateRetryBookkeeping | storage/src/vespa/storage/storageserver/bucketintegritychecker.cpp:152-187 | the deque and retry count are either unchanged, or the front is returned and popped with the count raised by exactly one; pending and checked counts never change; the shared counter moves only while retries are pending |
| IntegrityChecker.IterateWalksDisk | storage/src/vespa/storage/storageserver/bucketintegritychecker.cpp:163-173 | no retry and not DONE: returns the next bucket of the disk after the current one (after BucketId(0,0) when NOT_STARTED), strictly later; the disk is IN_PROGRESS at it, and failedRepairs and retriedBuckets are unchanged |
| IntegrityChecker.IterateExhausted | storage/src/vespa/storage/storageserver/bucketintegritychecker.cpp:174-187 | without a next bucket the state becomes DONE; a pending failed repair is still handed out, popped from the front of failedRepairs, and retriedBuckets rises by one (32-bit); with none pending BucketId(0,0) comes back and the retry count stays |
| IntegrityChecker.IterateNullBucket | storage/src/vespa/storage/storageserver/bucketintegritychecker.cpp:167-188 | BucketId(0,0) is returned iff no bucket is left on the disk and failedRepairs is empty |
| IntegrityChecker.AfterRepairReply | storage/src/vespa/storage/storageserver/bucketintegritychecker.cpp:376-409 | the per-disk update of onInternalReply; no ensures, described by AfterRepairReplyCounters and RepairReplyLowersTotal |
| IntegrityChecker.AfterRepairReplyCounters | storage/src/vespa/storage/storageserver/bucketintegritychecker.cpp:376-409 | pendingCount drops by one (32-bit); success and non-critical checkedBuckets+1; other failures append the bucket to failedRepairs; nothing else changes |
| IntegrityChecker.SumPending | storage/src/vespa/storage/storageserver/bucketintegritychecker.cpp:618-626 | the exact sum of all pending counts; no ensures, described by SumPendingZero, SumPendingUpdate and GetTotalPendingCount |
| IntegrityChecker.SumPendingZero | storage/src/vespa/storage/storageserver/bucketintegritychecker.cpp:618-626 | the total is zero iff every disk has zero pending |
| IntegrityChecker.SumPendingUpdate | storage/src/vespa/storage/storageserver/bucketintegritychecker.cpp:618-626 | replacing one disk's data changes the total by that disk's difference |
| IntegrityChecker.RepairReplyLowersTotal | storage/src/vespa/storage/storageserver/bucketintegritychecker.cpp:377 | a repair reply on a disk with pending requests lowers the total pending by one |
| IntegrityChecker.BucketIntegrityChecker.Configure | storage/src/vespa/storage/storageserver/bucketintegritychecker.cpp:293-356 | a refused config leaves options and wait time unchanged; an accepted one installs its options and sets the wait to 1 s if the minimum cycle is shorter than the old wait, else 60 s |
| IntegrityChecker.BucketIntegrityChecker.CurrentRunState | storage/src/vespa/storage/storageserver/bucketintegritychecker.cpp:427-488 | the decided state is never CONTINUE |
| IntegrityChecker.BucketIntegrityChecker.Iterate | storage/src/vespa/storage/storageserver/bucketintegritychecker.cpp:149-189 | only disk d and the shared counter change, exactly as IterateSpec says, and the returned bucket is IterateSpec's |
| IntegrityChecker.BucketIntegrityChecker.OnInternalReply | storage/src/vespa/storage/storageserver/bucketintegritychecker.cpp:365-415 | only repair replies are handled; only the replying disk changes, as AfterRepairReply says; after a success that leaves the disk done, the cycle is completed iff all disks are done |
| IntegrityChecker.BucketIntegrityChecker.GetTotalPendingCount | storage/src/vespa/storage/storageserver/bucketintegritychecker.cpp:618-626 | the result is the sum of all per-disk pending counts, in 32 bits |
| IntegrityChecker.RunStateOutsideWindow | storage/src/vespa/storage/storageserver/bucketintegritychecker.cpp:482-486 | outside the daily window the state is DONT_RUN |
| IntegrityChecker.RunStateContinue | storage/src/vespa/storage/storageserver/bucketintegritychecker.cpp:452-460 | in the window a CONTINUE day gives DONT_RUN after a completed cycle, else RUN_FULL or RUN_CHEAP as the current run |
| IntegrityChecker.RunStateDelay | storage/src/vespa/storage/storageserver/bucketintegritychecker.cpp:461-481 | in the window a run day runs as planned, unless the last cycle completed less than minCycleTime ago and the current run was full or the day is cheap |
| IntegrityChecker.RunStateWithinPlan | storage/src/vespa/storage/storageserver/bucketintegritychecker.cpp:436-488 | a DONT_RUN day never runs; RUN_FULL only on full or continue days, RUN_CHEAP only on cheap or continue days |

## Left out

- The `ReplyMerger` implementation and the reply class hierarchy are not part of this model. The merger
  follows the unit test. No test fixes two kinds of case: a clean found reply beside ignored-only
  replies, and clean replies of different kinds. For these the model adopts one rule: "found" decides
  only when every reply is clean and all are remove/update replies or all are get replies. In every
  other case without a substantive error the first clean reply wins.
- Object identity (`sameInstance`) is not modelled. Replies are values: "the same instance" is the input
  value together with its index, and "a fresh reply" is a result without an index.
- The numeric values of `ERROR_MESSAGE_IGNORED` and `ERROR_ABORTED` are defined in DocumentProtocol,
  which is not part of this model. The constants here are placeholders. The proofs rely only on their
  being distinct from each other and from the test's codes.
- `GetDocumentReply` marks "no document" with a last-modified time of 0. The model counts a get reply as found when that time is above 0; a negative time is not distinguished from 0.
- OrderIlscriptsTestCase.java has no logic to model: it only runs an external derivation check on
  fixture files.
- `BucketIntegrityChecker::run` is left out: the worker thread loop, monitor waits, interrupts and
  `dispatchDown`. This also leaves out the increment of `pendingCount` when a repair is sent, and the
  resets at the start of a cycle.
- `bump`, `isWorkingOnCycle`, `getCycleCount` and all locking are left out, because they exist for
  thread synchronisation. The `monitor.signal()` calls are left out for the same reason.
- The constructor, destructor, `onClose` and `onDoneInit` are left out: config subscription, thread
  start and status-page registration are framework calls. As a result, the model does not establish the
  constructor's invariants: at least one disk, and `status[i].disk == i`.
- `onSetSystemState` is left out: it only stores the cluster state for other code paths.
- `gmtime_r` is left out. The weekday and minute of the day are inputs of `CurrentRunState`, and the
  clock reading in `onInternalReply` is the `now` parameter.
- The internals of `StorBucketDatabase::each` and `LockableMap` are left out. The database is an
  ordered sequence, and the `each` call starting at a key visits the entries whose key is not smaller.
- Which return codes count as success or as non-critical is decided by `ReturnCode`, which is not part
  of this model. A repair result is one of three given outcomes.
- `reportHtmlStatus`, `SchedulingOptions::print`, `print` and all logging are left out, because they are
  output formatting. The progress line is floating point. The warning for a request delay over an hour
  is logging only, so it appears only as `ConfigIgnoresRequestDelay`.
- The minimum cycle time `60 * mincycletime` is computed in unbounded integers before the 64-bit
  truncation. The source's signed 32-bit overflow for values beyond about 35 million minutes is
  undefined behaviour and is not modelled.
