# GitHub commit source: a verified model of its polling engine

This project models the checkpointed polling engine of `GithubCommitSource`, a
Flink source that turns a repository's commit history into a stream of
`Commit` records with watermarks. Each pass of its loop does five things:

1. It plans a query window from the cursor `lastTime`: at most one hour long, and never past the current time.
2. It drains the GitHub commit query for that window.
3. It translates every commit into a `Commit` record.
4. Under the checkpoint lock, it emits every record with its own timestamp, moves the cursor to the window's end, and emits that value as a watermark.
5. It sleeps and repeats until cancelled.

The cursor is the whole durable state. It is checkpointed as a one-element list and restored from element 0.

Timestamps are integers counting milliseconds since the epoch, and one hour is
3 600 000. The wall clock, the fetched commit lists and the host's
cancellations are inputs.

- `results.dfy` (`Results`): `Option` and `Result`. They stand in for null and for thrown exceptions.
- `entities.dfy` (`Entities`): the GitHub commit as listed, the `Commit` and `FileChanged` records, and the errors.
- `translation.dfy` (`Translation`): `fromGHCommit` and the stream that maps it over a fetched list.
- `polling.dfy` (`Polling`): the window planner, one loop pass, and a whole run over a schedule of polls. All are functions, with the lemmas about them.
- `source.dfy` (`Source`): the source as a class. It has the fields `lastTime` and `running` and the methods `Iterate`, `Run`, `Snapshot`, `Restore` and `Cancel`. Beside it is `SourceContext`, which collects the emitted records and watermarks. `Iterate`, `Publish` and `Run` are proved against the functions in `Polling`; `Cancel`, `Snapshot`, `Restore` and the constructors state the fields they set or read directly.

The window planner does not guard against a cursor that is ahead of the clock.
In that case the window ends at `now`, before its start, and the cursor moves
backwards (`UntilForBehindCursor`). Every monotonicity result therefore
carries the precondition that the clock is not behind the cursor.

Two behaviours of the code shape what is proved:

- A failed fetch is not retried inside the loop. No handler surrounds the query, so the exception leaves `run`. The model's `Run` stops with that error, and the cursor and the output are unchanged.
- The code does not keep the cursor from decreasing across a restore. `restoreState` takes whatever element 0 holds.

## Model

| member | source | states |
|---|---|---|
| `Translation.FilesChanged` | src/main/java/com/ververica/platform/io/source/GithubCommitSource.java:84-92 | the file list has the commit's length and order, and each entry copies that file's name and changed-line count |
| `Translation.FromGHCommit` | src/main/java/com/ververica/platform/io/source/GithubCommitSource.java:77-98 | the translation succeeds exactly when the commit's details load; the author is the account name, or "unknown" when there is none; the timestamp is the commit date; the files are copied in order; a load failure is the pull error |
| `Translation.TranslateAll` | src/main/java/com/ververica/platform/io/source/GithubCommitSource.java:55-58 | the whole list translates exactly when every commit loads; the result then has the same length, and each element is that commit's translation |
| `Polling.UntilFor` | src/main/java/com/ververica/platform/io/source/GithubCommitSource.java:115-123 | the window end is at most since + 1 h and at most now, and equals one of them, so it is their minimum; when since <= now it is also at least since |
| `Polling.UntilForBehindCursor` | src/main/java/com/ververica/platform/io/source/GithubCommitSource.java:115-122 | when the cursor is ahead of the clock, the window end is now, which is before the cursor |
| `Polling.Emits` | src/main/java/com/ververica/platform/io/source/GithubCommitSource.java:61-63 | one Emit per record, in order, each carrying that record's own timestamp |
| `Polling.Iteration` | src/main/java/com/ververica/platform/io/source/GithubCommitSource.java:49-67 | a pass completes exactly when the fetch succeeds and every fetched commit loads; a failed pass reports the fetch or pull error; a completed pass sets the cursor to the planned window end; with the clock not behind the cursor, the new cursor lies between the old cursor and now |
| `Polling.IterationOutput` | src/main/java/com/ververica/platform/io/source/GithubCommitSource.java:55-66 | a completed pass appends exactly one Emit per fetched commit, in order, each holding that commit's translation and its commit date; these come before one final watermark equal to the new cursor, and nothing else is appended |
| `Polling.IterationWatermark` | src/main/java/com/ververica/platform/io/source/GithubCommitSource.java:65-66 | the only watermark of a completed pass is the new cursor |
| `Polling.EmptyFetchAdvances` | src/main/java/com/ververica/platform/io/source/GithubCommitSource.java:60-66 | an empty fetch still moves the cursor to the window end and still emits exactly that watermark |
| `Polling.RunFrom` | src/main/java/com/ververica/platform/io/source/GithubCommitSource.java:49-74 | defines the loop: a run stops when the flag is down, when the schedule runs out, or at the first failed iteration, whose output is dropped; otherwise its output is the completed iterations' outputs in order. Its contract states that with the flag down nothing runs and nothing changes, and that a failure happens only on a running source with a poll to make, and leaves the flag up |
| `Polling.RunEndsWithWatermark` | src/main/java/com/ververica/platform/io/source/GithubCommitSource.java:60-74 | whatever a run emitted ends with a watermark: no run stops after a window's records but before its watermark |
| `Polling.RunMonotone` | src/main/java/com/ververica/platform/io/source/GithubCommitSource.java:49-74 | over a run whose clock readings never go back and start no earlier than the cursor, the cursor never decreases; the watermarks are non-decreasing and lie between the starting and the final cursor |
| `Polling.RunNoLateRecords` | src/main/java/com/ververica/platform/io/source/GithubCommitSource.java:60-66 | if every query answers with commits dated no earlier than its window's start, no emitted record is earlier than a watermark emitted before it, or earlier than the starting cursor |
| `Polling.NotRunningIsInert` | src/main/java/com/ververica/platform/io/source/GithubCommitSource.java:49 | with the flag down, a run starts no iteration: no output and no state change |
| `Polling.StopEndsRun` | src/main/java/com/ververica/platform/io/source/GithubCommitSource.java:69-74 | a cancellation or an interrupted sleep in poll k means no later poll is used; unless an iteration failed, the flag is down at the end |
| `Source.SourceContext.CollectWithTimestamp` | src/main/java/com/ververica/platform/io/source/GithubCommitSource.java:62 | the host's output gains exactly the record with its timestamp |
| `Source.SourceContext.EmitWatermark` | src/main/java/com/ververica/platform/io/source/GithubCommitSource.java:66 | the host's output gains exactly the watermark |
| `Source.GithubCommitSource.constructor` | src/main/java/com/ververica/platform/io/source/GithubCommitSource.java:40-44 | the cursor starts at the given start time, the poll interval is the given one, and the source is running |
| `Source.GithubCommitSource.WithDefaults` | src/main/java/com/ververica/platform/io/source/GithubCommitSource.java:36-38 | the cursor starts at the current time and the poll interval is 1000 ms |
| `Source.GithubCommitSource.Iterate` | src/main/java/com/ververica/platform/io/source/GithubCommitSource.java:50-67 | on failure, the error is returned and neither the cursor nor the host's output changes; on success, the cursor and the appended output are those of `Polling.Iteration`; the cursor does not decrease when the clock is not behind it |
| `Source.GithubCommitSource.Publish` | src/main/java/com/ververica/platform/io/source/GithubCommitSource.java:60-67 | inside the critical section, the records are appended with their own timestamps, then the cursor becomes the window end, then a watermark equal to it is appended |
| `Source.GithubCommitSource.Run` | src/main/java/com/ververica/platform/io/source/GithubCommitSource.java:47-75 | the final cursor, the flag, the error that ended the run and the appended output are those of `Polling.RunFrom` over the same schedule |
| `Source.GithubCommitSource.Cancel` | src/main/java/com/ververica/platform/io/source/GithubCommitSource.java:100-103 | the flag is down afterwards |
| `Source.GithubCommitSource.Snapshot` | src/main/java/com/ververica/platform/io/source/GithubCommitSource.java:105-108 | the checkpoint is the one-element list holding the cursor |
| `Source.GithubCommitSource.Restore` | src/main/java/com/ververica/platform/io/source/GithubCommitSource.java:110-113 | the cursor becomes element 0 of the list; an empty list fails and leaves the cursor alone |
| `Source.RestoreThenSnapshot` | src/main/java/com/ververica/platform/io/source/GithubCommitSource.java:105-113 | after restoring [t], the cursor is t and the snapshot is [t] |
| `Source.RestoreTwice` | src/main/java/com/ververica/platform/io/source/GithubCommitSource.java:110-113 | restoring the same list twice leaves the same state and outcome as restoring it once |

## Left out

- The GitHub client is not modelled: `getRepository` (which can fail before the loop starts), `queryCommits().since().until().list()`, `withPageSize(PAGE_SIZE)` and pagination. A query is modelled as its fully drained commit list, or `None` when it fails.
- If a later page fails after an earlier commit could not be loaded, the code raises whichever error the lazy stream reaches first. The model always reports the fetch failure first. Either way the pass emits nothing and leaves the cursor.
- `Instant.now()` is a parameter `now`. The code reads the clock twice in `getUntilFor`; that race is not modelled.
- `Thread.sleep(pollIntervalMillis)` is not modelled beyond its effect on the flag. The interval is stored, and time passing is represented by each poll's clock reading. An interrupted sleep lowers the flag.
- Concurrency is not modelled: the checkpoint lock, the `volatile` flag, and snapshots taken from another thread. The critical section is one atomic method (`Publish`). A cancellation from another thread is modelled as taking effect at the next check of the loop.
- `run` loops until cancelled. The model runs it over a finite schedule of polls and stops when the schedule is exhausted.
- Integer widths are not modelled. `Instant` arithmetic can throw `DateTimeException` near the ends of its range, and the model's integers are unbounded. The sub-millisecond precision of `Instant` is also dropped.
- `GHUser.getName()` can return null for an account without a display name. The model always has a string name.
- Logging is not modelled.
- The builder internals of `Commit` and `FileChanged` are not modelled. Both are plain datatypes.
- Deduplication of records that are emitted again after a restore is not modelled. The code does not do it either.
