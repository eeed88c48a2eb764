# quix-streams: a Dafny model of the event-time engine

This project models the stateful heart of Quix Streams in Dafny and proves what its windows, joins,
buffers, checkpoints and operator graphs promise.

The code that changes state step by step is modelled by classes and methods with loops
(`SlidingWindow`, `TimeWindows`, `CountWindow`, `WindowedState`, `RecoveryPartition`, `Store`, `Join`,
`PartitionBuffer`, `PartitionBufferGroup`, `InternalConsumer`, `Stream`, `BatchingSink`, `Checkpoint`).
Each method is proved equal to a function of the old state, or to a statement about the message
history, and the theorems about whole runs are proved of those functions.

## What is modelled, and what comes out

**Windowed state** (`WindowStore`, `WindowState`, `CountCollection`, `Gathering`). One key's windows,
latest timestamp, expiration index and deletion index, and its collection of values, as
`quixstreams/state/types.py` describes them and
`quixstreams/state/rocksdb/windowed/transaction.py` keeps them.

**Sliding windows** (`Sliding`, `SlidingSpec`, `SlidingScan`, `SlidingStep`, `SlidingRun`,
`SlidingLateness`, `SlidingPast`, `SlidingLoss`, `SlidingLefts`, `SlidingCollect`, `SlidingOperator`).
The backward scan with its copied aggregates is proved to keep every stored window equal to the fold, in
arrival order, of exactly the messages inside it, for an arbitrary aggregator. `ProcessExact` is about
one message in any arrival order; `RunsExact` is about whole runs with expiry and deletion switched on:
the store, what comes out when windows expire, and what each message hands on at once. Windows clamped
at time zero are covered. The deletion bound can remove a base window that a late message still needs.
`LatenessCondition` says exactly when that can happen: with messages at most `lateness` behind, all runs
are exact if and only if `lateness <= min(1, grace)` or `lateness + duration <= grace`. Messages further
behind are scanned for another `duration`: `OnceExact` says that in any run whatsoever a window that is
exact stays exact until it expires. When the left window of such a message has expired, `ExpiredLeftIff`
says what becomes of it: stored, it is reported as late; not stored, it is never reported, and it is
written and handed on if and only if a window in reach of the scan ends before the message
(`PastWitness`: size 10, grace 5, messages at 85, 100 and 86). `LateIff` lists the windows the late
callback is called for. Collecting windows need no base window: all runs gather exactly the messages
inside each window if and only if `lateness <= grace` (`CollectCondition`).

**Tumbling and hopping windows** (`WindowRanges`, `TimeWindow`, `TimeWindowRun`, `TimeWindowFinal`,
`TimeCollect`, `TimeWindowOperator`). Range arithmetic, the lateness rule, and expiry by key. Each
window comes out at most once, with strictly increasing starts, with the fold of exactly what it
accepted, and is never touched again. It equals the batch group-by over its range if and only if it
was open at each of its messages; all runs hand out the batch group-by if and only if
`lateness <= grace`. A collecting window
comes out with exactly the values it took in, by timestamp and then in arrival order, although the
collection is shared between windows and pruned as they close (`TimeCollect.RunsCollect`);
`TimeCollect.RunsStored` and `SlidingCollect.RunsStored` say exactly which values are still stored.

**Count windows** (`CountCollection`, `CountStale`, `CountWindow`, `CountRun`). The state kept between
messages is tied to the message history: the live windows form an arithmetic progression, the id
derived from the first one is the next free id, at most the first window fills, and deletion keeps
exactly the values that live windows still need. A missing step (tumbling) is written as step 0. A
step of `count` or more does not leave gaps: the next message opens the next window, as for tumbling
windows. But such windows count their ids from 0 while deletion goes on from where it last ended, so
from the third window on a collection holds values of earlier windows, too: `ProcessAll` states that
each emitted window is exactly what it should be if and only if it is one of the first two or does not
collect or `step < count`; its bounds and its aggregate are always right.

**Checkpoint, changelog and recovery** (`Protocol`, `ProtocolFold`, `ProtocolSafety`,
`ProtocolRecovery`, `ProtocolClean`). A state machine over processing, producing the changelog, committing offsets,
flushing stores, crashing at any point, losing stores while down (as on a new host), and replaying with
the processed-offset filter. In every run
the application works on the fold of the committed input, also when the changelog holds records of
checkpoints whose offsets were never committed. The loop that replays one store's changelog, run on
the changelog and the disk of any run, ends with the committed state (`RecoverPartition`), and a stop
between two commits leaves nothing to replay (`ProtocolClean.StopsClean`).

**Sinks and backpressure** (`Sinks`, `SinkRun`). The sink half of a commit, over runs with
backpressure, write failures, failed commits and crashes: what waits for a sink is exactly what reaches
it since the first offset of the checkpoint, in order; each flush writes exactly that, up to the first
sink that stops it; delivery is at least once in every run, and exactly once without faults; rewinding
is exact.

**Time-aligned consumption** (`Buffering`, `Alignment`, `AlignedConsumer`, `AlignedRun`,
`AlignedDrain`, `AlignedPause`). Releases are in time order up to the last known watermarks; draining
a snapshot is a sorted merge; no partition is waited for while it is paused. The client delivers
nothing of a topic it has paused, and resumes only after it has been polled: of two polls in a row that
serve what is not paused, one releases a message (`TwoPollsRelease`; `PausedWitness` is a state where
the first does not), so that a snapshot drains in at most two polls for each message left (`Drains`).
A topic that was at its end when reading began is never idle, and for as long as nothing new arrives in
it no run of polls releases anything of its group (`StalledForGood`); so it is with a topic that a sink
holds back (`HeldForGood`). A snapshot moves at all if and only if there is no such topic
(`ReleasesIff`). Backpressure skips what a topic without a seek offset had buffered, and nothing else
(`BackpressureKeeps`). `StallWitness` and `SkipWitness` are inputs for the two losses.

**Interval join** (`TimestampedStore`, `IntervalJoin`, `IntervalJoinRun`, `IntervalJoinPairs`,
`IntervalJoinLoss`). With records in time order the output is the relational join, each related pair
once. The constructor guards only the backward reach, and the sweep of expired records starts at a
message key's bare bytes, without the separator. `JoinCondition` therefore reads: a join that the
constructor accepts is complete in all runs if and only if its forward reach is within the grace
period, too, and no message key continues another one with a byte below `|` (as `user1` continues
`user`). Expiry happens when a checkpoint prepares its stores, not when a record is added as the
docstring of `join_interval` says; the model follows the code. The first timestamp still eligible is
written to one column family and looked up in another, so it is forgotten between transactions; the
model does the same.

**Key encoding** (`KeyEncoding`). Big-endian pairs are an order embedding; scans of one message key
see no other key's records, the sweep described above does. `ScanBytes` and `SweepBytes` say byte by
byte, for all message keys, what a scan and a sweep take in. `CollidesIff` is the exact condition under
which a scan of one message key can meet a record of another: one of them goes on from the other with
the separator and bytes that can be read as part of a record's time and counter.

**Operator graphs** (`StreamGraph`, `StreamCompose`). Graphs grown by adding and merging stay acyclic;
the worklist finds the whole tree; the composed executors send the sink what a direct interpreter of
the graph sends it, in the same order.

## Model

| member | source | states |
|---|---|---|
| WindowState.WindowedState.Expire | quixstreams/state/types.py:154-174 | expire_windows on the fields of one key is the contract function: reported spans in key order, each with what it collected, index moved to the last of them, windows deleted if asked, and the values from before the last of them |
| WindowState.ExpireIs | quixstreams/state/rocksdb/windowed/transaction.py:202-293 | one call of expire_windows reports each stored window that starts above the index and at or below the bound, once, in key order, with its value and what it collected; exactly those are deleted if asked, and the index moves to the last start reported |
| WindowState.WindowedState.Delete | quixstreams/state/types.py:176-188 | delete_windows on the fields of one key is the contract function, with its own deletion index, and the values from before the bound deleted if asked |
| WindowState.DeleteIs | quixstreams/state/rocksdb/windowed/transaction.py:367-420 | which windows one call of delete_windows leaves, with their values, and where the deletion index then stands: at the last start deleted, unless that is 0 |
| WindowState.WindowedState.Update | quixstreams/state/types.py:85-103 | update_window sets the value and advances the latest timestamp, and changes nothing else |
| WindowState.WindowedState.DeleteFromCollection | quixstreams/state/rocksdb/windowed/transaction.py:170-195 | a value stays, unchanged, if and only if its id lies below the given start, or else below the remembered id (and never below 0), or at or above the bound; the index becomes the largest id dropped, or stays if none was |
| Gathering.CollectedBetween | quixstreams/state/rocksdb/windowed/transaction.py:164-168 | a range that nothing has been deleted from reads back exactly the messages with those timestamps, by timestamp and then in arrival order |
| Gathering.InArrivalOrder | quixstreams/state/rocksdb/windowed/transaction.py:164-168 | if messages come in time order, a range reads them back in arrival order |
| SlidingScan.CopyOk | quixstreams/dataframe/windows/sliding.py:125-148 | the first window met that holds a later message holds exactly the messages of the missing right window, so its aggregate may be copied |
| SlidingStep.CarryOk | quixstreams/dataframe/windows/sliding.py:207-256 | the first window ending before the message holds exactly the earlier messages of the new left window, so its aggregate may be carried over |
| SlidingStep.NewWindows | quixstreams/dataframe/windows/sliding.py:82-275 | which windows a message creates: its left window, its right window if a later message is in reach, and the right windows of earlier messages that waited for it |
| SlidingRun.FullScanExact | quixstreams/dataframe/windows/sliding.py:98-275 | the whole scan, over any exact store whose base window is stored, gives an exact store and exactly the affected left windows |
| SlidingRun.ProcessExact | quixstreams/dataframe/windows/sliding.py:33-291 | one message in any arrival order: stored windows stay exact; the updated windows are [q-d, q] for seen q in [ts, ts+d], each once, ascending, with their folds; expiry reports exactly the left windows that pass the mark |
| SlidingRun.TimelyBase | quixstreams/dataframe/windows/sliding.py:251-256 | the base window is stored whenever some earlier message of the left window is within the grace period |
| SlidingRun.ExpiredStays | quixstreams/dataframe/windows/sliding.py:280-302 | an expired left window keeps its value under later messages and does not come out again, although expiry does not delete |
| SlidingRun.RunsExact | quixstreams/dataframe/windows/sliding.py:33-302 | whole runs with expiry and deletion: exact stores, each message hands on exactly its left windows with their folds so far, and each expired left window comes out exactly once, in order, with the fold over the complete history |
| SlidingLateness.SpreadTimely | quixstreams/dataframe/windows/sliding.py:82-96 | any arrival order: while all timestamps are within the grace period of the largest, every message is timely, so the run is exact |
| SlidingLateness.LateByOneExact | quixstreams/dataframe/windows/sliding.py:251-289 | messages at most one millisecond behind, within the grace period: every run is exact |
| SlidingLoss.LateLoses | quixstreams/dataframe/windows/sliding.py:251-289 | for every lateness of two or more with lateness + duration above grace, four accepted messages whose last window misses one of them, in the store and in what is handed on |
| SlidingLoss.TooLateLoses | quixstreams/dataframe/windows/sliding.py:82-96 | a message more than the grace period behind has its left window dropped: it never comes out |
| SlidingLoss.LatenessCondition | quixstreams/dataframe/windows/sliding.py:82-289 | all runs with bounded lateness are exact if and only if lateness <= min(1, grace) or lateness + duration <= grace |
| SlidingPast.UnexpiredStayExact | quixstreams/dataframe/windows/sliding.py:129-173 | any message that is scanned, however late: a stored exact window that has not expired stays exact, and is handed on if it is a left window holding the message |
| SlidingPast.RunsShaped | quixstreams/dataframe/windows/sliding.py:129-275 | in every run whatsoever stored windows have the right length and their largest timestamp inside |
| SlidingPast.OnceExact | quixstreams/dataframe/windows/sliding.py:33-302 | in every run whatsoever a window that is exact at some point stays exact until it expires |
| SlidingPast.ExpiredLeftIsEmitted | quixstreams/dataframe/windows/sliding.py:218-257 | if the scan first meets a window ending before the message, the message's left window is written and handed on even when it has expired, and no window at all is reported as late |
| SlidingPast.ExpiredLeftIff | quixstreams/dataframe/windows/sliding.py:129-275 | a scanned message whose left window has expired: that window is reported as late if and only if it is stored, and written and handed on if and only if it is not stored and a window in reach of the scan ends before the message |
| SlidingPast.LateIff | quixstreams/dataframe/windows/sliding.py:82-205 | a scanned message has the late callback called for exactly the stored windows that start at or below the expiry bound, end at or after it and are reached by the scan, each once, later ones first; a message that is not scanned, for its left window alone, and nothing else happens |
| SlidingLoss.PastWitness | quixstreams/dataframe/windows/sliding.py:218-257 | size 10, grace 5, messages at 85, 100, 86: the last one hands on the expired window [76, 86], and nothing is reported as late |
| SlidingLefts.RunsLefts | quixstreams/dataframe/windows/sliding.py:33-302 | runs within the grace period, whatever becomes of their aggregates: each left window is stored until it expires and comes out exactly once, in order |
| SlidingCollect.RunsCollect | quixstreams/dataframe/windows/sliding.py:277-302 | every run within the grace period: the left windows due came out once each, and each collected exactly the messages inside it over the complete history, both ends included, by timestamp and then in arrival order; values that a window still to expire needs are never deleted |
| SlidingCollect.RunsStored | quixstreams/state/rocksdb/windowed/transaction.py:170-195 | after every run within the grace period, a value is stored if and only if no deletion since it came reached past its timestamp, or the deletion index already stood past it |
| SlidingCollect.CollectCondition | quixstreams/dataframe/windows/sliding.py:82-302 | all runs of collecting windows with bounded lateness are exact if and only if lateness <= grace |
| SlidingOperator.SlidingWindow.ScanWindow | quixstreams/dataframe/windows/sliding.py:129-257 | the loop body, writing to the store in place, has the effect of the scan step that the theorems are about |
| SlidingOperator.SlidingWindow.ScanWindows | quixstreams/dataframe/windows/sliding.py:116-275 | the backward loop, with its break and its else branch, is the full scan |
| SlidingOperator.SlidingWindow.ProcessWindow | quixstreams/dataframe/windows/sliding.py:33-291 | process_window: new state and results are those of the function in RunsExact, and for collecting windows the lists and the collection those of the function in RunsCollect |
| SlidingOperator.SlidingWindow.ExpiredWindows | quixstreams/dataframe/windows/sliding.py:293-302 | marks the windows up to the bound and keeps the left windows among them, each with what it collected |
| WindowRanges.RangesExact | quixstreams/dataframe/windows/base.py:461-474 | the ranges of a timestamp are exactly the windows containing it, ascending, at most ceil(duration/step), the last one starting at ts - ts % step |
| WindowRanges.GetWindowRanges | quixstreams/dataframe/windows/base.py:451-474 | the while loop terminates with those ranges; a missing or zero step means the duration |
| TimeWindowRun.ProcessExact | quixstreams/dataframe/windows/time_based.py:132-275 | one message: stored windows are the open ones with an accepted message, each with its fold; updated and expired results are exact; the late callback is called for exactly the closed ranges of the message, in order |
| TimeWindowFinal.ClosedForGood | quixstreams/dataframe/windows/time_based.py:159-177 | a closed window takes in no later message |
| TimeWindowFinal.RunsFinal | quixstreams/dataframe/windows/time_based.py:159-308 | any messages whatsoever: windows come out exactly once, with strictly increasing starts, with the fold of exactly what they accepted over the whole run; each message hands on exactly its open windows with their folds so far |
| TimeWindowFinal.CompleteIff | quixstreams/dataframe/windows/time_based.py:159-177 | a window equals the batch group-by over [start, end) if and only if it was open at each of its messages |
| TimeWindowFinal.RunsComplete | quixstreams/dataframe/windows/time_based.py:149-308 | runs within the grace period hand out the batch group-by: the windows due, each once, in order, with the projected fold over all messages in [start, end) |
| TimeWindowFinal.LatenessCondition | quixstreams/dataframe/windows/time_based.py:149-308 | every run with bounded lateness hands out the batch group-by if and only if lateness <= grace, and exactly then every window of every run takes in all its messages |
| TimeCollect.RunsCollect | quixstreams/dataframe/windows/time_based.py:255-308 | any messages whatsoever: each window that came out collected exactly the values it took in, by timestamp and then in arrival order; closing windows never deletes a value that an open window needs |
| TimeCollect.RunsStored | quixstreams/state/rocksdb/windowed/transaction.py:170-195 | after any run, a value is stored if and only if no window closed since it came started past its timestamp, or the deletion index already stood past it |
| TimeCollect.TakesAllIff | quixstreams/dataframe/windows/time_based.py:159-177 | a window took in every message of its range if and only if it was open at each of them |
| TimeWindowOperator.TimeWindows.ProcessWindow | quixstreams/dataframe/windows/time_based.py:132-275 | process_window with the key closing strategy, aggregating, collecting or both: results are those of the function in RunsFinal, lists and collection those of the function in RunsCollect |
| TimeWindowOperator.TimeWindows.ExpireByKey | quixstreams/dataframe/windows/time_based.py:294-308 | closes the windows due, in key order, each with what it collected, and deletes them with the values no open window needs |
| CountCollection.CollectedStored | quixstreams/state/types.py:120-127 | reading a range of ids from the collection gives the messages of that range in order |
| CountCollection.PrunedStored | quixstreams/state/types.py:129-139 | deleting up to a later start leaves exactly the values from that start on |
| CountWindow.DueIff | quixstreams/dataframe/windows/count_based.py:93-119 | a window is due exactly when the last one started a whole stride ago or none is live; the first window's count tells |
| CountWindow.FillsFirst | quixstreams/dataframe/windows/count_based.py:153-154 | at most one window fills per message, it is the first one, and it fills exactly when count messages end a whole number of steps in |
| CountWindow.NextStarts | quixstreams/dataframe/windows/count_based.py:187-188 | removing the full window leaves the starts an arithmetic progression of live windows |
| CountWindow.FirstId | quixstreams/dataframe/windows/count_based.py:104-130 | the first window's id plus its count is the next free id: the message's position in the stream (hopping) or in the window (tumbling) |
| CountWindow.KeptPrune | quixstreams/dataframe/windows/count_based.py:156-171 | deletion after a full window drops exactly the values that no live window needs |
| CountWindow.StoresFewerThanCount | quixstreams/dataframe/windows/count_based.py:156-171 | a key stores fewer than count values between messages, if the step is below count |
| CountStale.CollectsIff | quixstreams/dataframe/windows/count_based.py:159-171 | with a step of count or more, a full window collects exactly its own values if and only if it is the first or the second |
| CountStale.StalePrune | quixstreams/state/rocksdb/windowed/transaction.py:170-195 | with a step of count or more, deletion after the first window drops all its values, and after a later one only the last value of each window |
| CountStale.StaleSize | quixstreams/dataframe/windows/count_based.py:156-171 | with a step of count or more, a key stores the values of the current window and count - 1 of each window before it but the first |
| CountWindow.CountWindow.DeleteFromCollection | quixstreams/state/types.py:129-139 | drops the ids from the given or remembered start up to the bound and remembers the largest one dropped |
| CountWindow.CountWindow.GrowAll | quixstreams/dataframe/windows/count_based.py:132-185 | the loop over the live windows: each takes the message, the full one is completed with what it collected and listed for removal |
| CountWindow.CountWindow.RemoveAll | quixstreams/dataframe/windows/count_based.py:187-188 | deletion by listed indexes removes the full window and nothing else |
| CountWindow.CountWindow.ProcessWindow | quixstreams/dataframe/windows/count_based.py:56-191 | any step, over the message history: a window comes out exactly when count messages end a whole number of strides in, over exactly the last count messages, its collection exact unless the step is count or more and two windows have come before; the updated windows are those of all live starts |
| CountRun.EmittedExact | quixstreams/dataframe/windows/count_based.py:132-190 | the k-th window that should come out covers exactly messages k*stride to k*stride+count-1, and there is one for each k that fits |
| CountRun.ProcessAll | quixstreams/dataframe/windows/count_based.py:56-191 | process_window over a key's messages: the windows that come out are those of EmittedExact, one by one; the k-th has the right bounds and value, and is exact as a whole if and only if it does not collect, or step < count, or k < 2 |
| ProtocolFold.PositionIs | quixstreams/checkpointing/checkpoint.py:257-275 | after a commit, consuming resumes exactly behind the committed records |
| ProtocolFold.FilterIff | quixstreams/state/recovery.py:233-251 | a changelog record passes the filter if and only if its batch of records is committed |
| ProtocolSafety.LastWins | quixstreams/state/recovery.py:162-220 | the last record of a key that the filter lets through carries the key's committed value, whatever orphaned records precede or follow it |
| ProtocolSafety.ReplayDisk | quixstreams/state/recovery.py:162-220 | replaying one record keeps each key up to date or its committed value still ahead |
| ProtocolSafety.CommitOk | quixstreams/checkpointing/checkpoint.py:256-275 | committing the offsets keeps the invariant: what was produced for the batch becomes the committed value |
| ProtocolSafety.FlushOk | quixstreams/checkpointing/checkpoint.py:277-290 | flushing one store after the commit keeps the invariant, in any order of stores |
| ProtocolSafety.RunOk | quixstreams/checkpointing/checkpoint.py:225-290 | the invariant holds in every run, with crashes at any point |
| ProtocolSafety.CrashSafe | quixstreams/checkpointing/checkpoint.py:225-290 | in every run, crashes at any point and stores lost while down included, the working state is the fold of the processed input, the store between checkpoints and after recovery is the fold of the committed input, and processing resumes at the committed position |
| ProtocolSafety.LoseOk | quixstreams/state/recovery.py:89-97 | a store that starts empty after any number of checkpoints, as on a new host, is rebuilt from its changelog alone |
| ProtocolSafety.NoInvalidOffset | quixstreams/state/recovery.py:105-124 | no run leads to an invalid changelog offset on assignment, nor to an invalid stored offset while processing |
| ProtocolClean.StopsClean | quixstreams/checkpointing/checkpoint.py:277-290 | between two commits every store stands at the end of its changelog: a stop there leaves nothing to replay |
| ProtocolRecovery.RecoveryPartition.RecoverFromChangelogMessage | quixstreams/state/recovery.py:162-251 | a missing column family, a key or a value that is not bytes are errors that change nothing; else the record is applied, or skipped by the filter if it has processed offsets, and either way the stored changelog offset moves to it |
| ProtocolRecovery.RecoveryPartition.DoRecovery | quixstreams/state/recovery.py:602-621 | from a stored offset in range the loop replays the records from there to the highwater, without one or when reset to the beginning all of them, and the offset ends at the last; when reset to the end nothing changes |
| ProtocolRecovery.RecoverPartition | quixstreams/state/recovery.py:413-450 | recovery of a store whose changelog and disk are as any run leaves them ends with exactly the fold of the committed input |
| ProtocolRecovery.ReplayStore | quixstreams/state/recovery.py:162-251 | replaying any stretch of the changelog under the filter keeps each key current or its committed value still ahead |
| ProtocolRecovery.RunsRecoverable | quixstreams/state/recovery.py:162-220 | in every run, and so after a crash at any point, each changelog and disk are as RecoverPartition needs them |
| ProtocolRecovery.NeedsIs | quixstreams/state/recovery.py:105-114 | the check says yes if and only if a record of the changelog lies beyond the stored offset, and is the one of the protocol |
| ProtocolRecovery.AssignAgrees | quixstreams/state/recovery.py:485-541 | in every run, assignment sends through recovery exactly the stores whose check says so, from where the loop starts |
| ProtocolRecovery.RecoverStore | quixstreams/state/recovery.py:413-440 | from any reachable recovering state, reading on reaches the end of a store's changelog, and amounts to the replay of the loop |
| ProtocolRecovery.CrashRecovers | quixstreams/state/recovery.py:413-621 | from every reachable state, crash, assign and recover leads to processing with exactly the fold of the committed input |
| Sinks.BatchingSink.Add | quixstreams/sinks/base/sink.py:159-179 | the record goes to the end of its partition's batch |
| Sinks.BatchingSink.Flush | quixstreams/sinks/base/sink.py:181-197 | in any order of the partitions, exactly the batches the destination takes are written, and all are dropped whatever happens |
| Sinks.Checkpoint.Store | quixstreams/checkpointing/checkpoint.py:75-99 | an offset that does not go up is an error and changes nothing; the first offset of a partition is remembered |
| Sinks.StoreAllIff | quixstreams/checkpointing/checkpoint.py:75-99 | a sequence of offsets can be stored if and only if they go up within each partition; then the first and the last of each partition are what is remembered |
| Sinks.FlushSinks | quixstreams/checkpointing/checkpoint.py:193-223 | sinks are flushed in turn; after the first backpressure the others only drop their batches; a failure ends it |
| Sinks.FlushExact | quixstreams/checkpointing/checkpoint.py:193-223 | with the first sink that does not go through at k: the sinks before it have written all they held, it what was taken, the later ones nothing; no batch is left, except those behind a failure, which are untouched |
| SinkRun.FlushOk | quixstreams/checkpointing/checkpoint.py:193-223 | after a flush that is no failure all batches are empty, and without backpressure exactly what they held is written, once; nothing else ever is |
| SinkRun.AtLeastOnce | quixstreams/checkpointing/checkpoint.py:193-275 | in every run, each record below a committed offset has been through a successful write of every sink it reaches |
| SinkRun.BatchesExact | quixstreams/sinks/base/sink.py:159-179 | in every run the batch of a partition is exactly what reaches the sink since the first offset of the checkpoint, in offset order |
| SinkRun.OnlyRecords | quixstreams/sinks/base/sink.py:181-197 | in every run nothing is written but records of the log that reach the sink |
| SinkRun.CommitAdvances | quixstreams/checkpointing/checkpoint.py:257-275 | a commit that goes through commits, for each partition of the checkpoint, one past the last record processed, and no other partition |
| SinkRun.ExactlyOnce | quixstreams/checkpointing/checkpoint.py:193-275 | a run without crashes, failures and backpressure has written each record below the checkpoint exactly once, and none of the checkpoint yet |
| SinkRun.BackpressureRewinds | quixstreams/internal_consumer/consumer.py:233-263 | after backpressure one sink is the first to push back, those before it have written all, it as much as was taken, and the later ones nothing; all batches are empty, nothing is committed, and exactly the partitions of the checkpoint are rewound, each to its first offset in it |
| SinkRun.OffsetsGoUp | quixstreams/checkpointing/checkpoint.py:83-99 | storing an offset never fails in any run, rewinding included |
| Buffering.PartitionBuffer.Add | quixstreams/internal_consumer/buffering.py:74-89 | appends a message, or refuses an offset that does not go up; the next timestamp stays that of the first message |
| Buffering.PartitionBuffer.Take | quixstreams/internal_consumer/buffering.py:91-116 | pops the first message; popping the last one makes the watermark unknown |
| Buffering.PartitionBufferGroup.PopNext | quixstreams/internal_consumer/buffering.py:216-246 | nothing while an empty partition may have more to come; else from the first buffer with the smallest next timestamp |
| Buffering.PartitionBufferGroup.PauseAllFull | quixstreams/internal_consumer/buffering.py:248-269 | pauses the full active partitions not paused yet, never in a group of one, and names them: buffers and names are those of PausingChanges |
| Buffering.PausingChanges | quixstreams/internal_consumer/buffering.py:248-269 | exactly the full active partitions not paused yet are paused and named, each once, in order, and never in a group of one; nothing else changes |
| Buffering.PartitionBufferGroup.ResumeAllEmpty | quixstreams/internal_consumer/buffering.py:271-287 | resumes the paused partitions that are not full or not known to have more, and names them: buffers and names are those of ResumingChanges |
| Buffering.ResumingChanges | quixstreams/internal_consumer/buffering.py:271-287 | exactly the paused partitions that are not full or not known to have more are resumed and named, each once, in order; nothing else changes |
| Buffering.PartitionBufferGroup.Feed | quixstreams/internal_consumer/buffering.py:356-377 | appends a batch and then sets the watermarks; an invalid offset is an error |
| Alignment.SoonestIsLeast | quixstreams/internal_consumer/buffering.py:242-243 | the chosen buffer is the first of those with the earliest next timestamp |
| Alignment.PopAligned | quixstreams/internal_consumer/buffering.py:216-246 | a popped message is the next of its topic and no later than any unreleased message below its topic's last fed watermark |
| Alignment.EmptiedWaits | quixstreams/internal_consumer/buffering.py:91-116 | a group of two or more that empties a buffer releases nothing more until watermarks are fed |
| Alignment.DeliveryTracks | quixstreams/internal_consumer/buffering.py:367-369 | what the broker delivers in offset order is never refused |
| Alignment.AppendAllIff | quixstreams/internal_consumer/buffering.py:74-89 | a batch is taken if and only if each topic's offsets go up from above the largest its buffer has seen; then each buffer has its topic's messages behind its own, in order |
| AlignedConsumer.InternalConsumer.Feed | quixstreams/internal_consumer/consumer.py:321-365 | feed, then resume unless held back, then pause |
| AlignedConsumer.InternalConsumer.Poll | quixstreams/internal_consumer/consumer.py:304-319 | pops, and if nothing comes, feeds and pops again |
| AlignedConsumer.InternalConsumer.TriggerBackpressure | quixstreams/internal_consumer/consumer.py:219-263 | pauses and holds back every topic, clears its buffer, and seeks exactly the topics with an offset to go back to, each once, to that offset |
| AlignedRun.SnapshotMerge | quixstreams/internal_consumer/buffering.py:56-246 | what polls release of a snapshot is a sorted merge, however polls and fetches fall: time order overall, each topic's log in offset order, nothing lost or repeated |
| AlignedDrain.StaysInStep | quixstreams/internal_consumer/consumer.py:304-365 | polls that deliver nothing of paused topics keep the client in step: paused is what a full buffer or a sink pauses, buffers hold what was fetched and not released, and nothing is fetched of a topic held back |
| AlignedDrain.BeginsInStep | quixstreams/internal_consumer/buffering.py:29-46 | an assigned group of which nothing has been read is in step with its logs |
| AlignedDrain.BackpressureInStep | quixstreams/internal_consumer/consumer.py:233-263 | backpressure keeps the client in step, whatever is sought |
| AlignedDrain.LetGoInStep | quixstreams/internal_consumer/consumer.py:265-276 | resuming what was held back keeps the client in step |
| AlignedDrain.ReadyReleases | quixstreams/internal_consumer/consumer.py:304-319 | if no topic blocks its group and no paused topic has run dry, a poll that serves what is not paused releases a message, unless nothing is left |
| AlignedDrain.TwoPollsRelease | quixstreams/internal_consumer/consumer.py:304-365 | of two polls in a row that serve what is not paused, one releases a message, unless nothing is left |
| AlignedDrain.SomePollServes | quixstreams/internal_consumer/consumer.py:321-353 | from every state, whatever is paused, the client can serve the rest |
| AlignedDrain.Drains | quixstreams/internal_consumer/consumer.py:304-365 | polls that serve what is not paused release the whole snapshot, in no more than two polls for each message left |
| AlignedDrain.PausedWitness | quixstreams/internal_consumer/consumer.py:355-365 | two paused topics, one with an empty buffer, three messages left, and no serving poll that releases one |
| AlignedDrain.StalledForGood | quixstreams/internal_consumer/buffering.py:56-246 | a topic that was at its end when reading began keeps its group from releasing anything in any run of polls over a snapshot |
| AlignedDrain.HeldForGood | quixstreams/internal_consumer/consumer.py:355-360 | a topic held back by a sink keeps its group from releasing anything, unless its log is empty |
| AlignedDrain.ReleasesIff | quixstreams/internal_consumer/consumer.py:304-365 | some run of polls that delivers nothing of paused topics releases a message of a snapshot that is not drained if and only if no topic was at its end when reading began and none with messages is held back |
| AlignedDrain.StallWitness | quixstreams/internal_consumer/buffering.py:234-240 | two topics, one read to its end before, and a message that waits |
| AlignedPause.FeedPauses | quixstreams/internal_consumer/buffering.py:248-287 | after a feed of two topics or more, a buffer is paused exactly when it is full and active |
| AlignedPause.SingleNeverPauses | quixstreams/internal_consumer/buffering.py:254-256 | a group of one topic is never paused |
| AlignedPause.HeldStaysPaused | quixstreams/internal_consumer/consumer.py:355-365 | feeding never resumes a topic that a sink holds back |
| AlignedPause.NoDeadlock | quixstreams/internal_consumer/consumer.py:321-365 | in every run with backpressure, a poll that comes back empty-handed waits for no paused topic, unless a sink holds it back |
| AlignedPause.StallExact | quixstreams/internal_consumer/buffering.py:56-72 | in one state with everything fetched, a pop gives nothing exactly when nothing is left or a topic was at its end already when reading began |
| AlignedPause.BackpressureKeeps | quixstreams/internal_consumer/consumer.py:233-263 | after backpressure no buffered message is skipped exactly when every topic without a seek offset had an empty buffer |
| AlignedPause.SkipWitness | quixstreams/internal_consumer/consumer.py:245-261 | a buffered message whose topic has no seek offset, dropped and not read again |
| KeyEncoding.PairRoundTrip | quixstreams/state/serialization.py:48-79 | encoding succeeds exactly for unsigned 64-bit integers, decode undoes encode, and encode undoes decode where the middle byte is the separator |
| KeyEncoding.PairOrder | quixstreams/state/serialization.py:48-61 | the bytes of two pairs are ordered as the pairs are |
| KeyEncoding.ScanBytes | quixstreams/state/rocksdb/transaction.py:63-86 | for all message keys, with or without separators: a scan takes in exactly the keys that go on from the message key and a separator with bytes between the two bounds' |
| KeyEncoding.SweepBytes | quixstreams/state/rocksdb/timestamped.py:198-208 | for all message keys: a sweep takes in exactly the keys that go on from the message key with bytes below the separator and the bound |
| KeyEncoding.SeparatorCollides | quixstreams/state/rocksdb/transaction.py:63-86 | a message key that is another one with a separator and eight bytes of time appended has all its records in that key's scan |
| KeyEncoding.CollidesIff | quixstreams/state/rocksdb/transaction.py:63-86 | for any two message keys: some scan of the one meets some record of the other if and only if one goes on from the other with the separator and bytes that can be read as part of a record's time and counter |
| KeyEncoding.ScanExact | quixstreams/state/rocksdb/transaction.py:63-86 | a scan of a message key between two times sees exactly its records of those times and no other key's |
| KeyEncoding.SweepExact | quixstreams/state/rocksdb/timestamped.py:198-208 | the sweep of expired records takes the key's own old records and every record of a key that continues it with a byte below the separator |
| TimestampedStore.Store.SetForTimestamp | quixstreams/state/rocksdb/timestamped.py:148-171 | stores under timestamp and a fresh counter and raises the first eligible timestamp |
| TimestampedStore.Store.ReadInterval | quixstreams/state/rocksdb/timestamped.py:143-145 | the values of an interval, by timestamp and then by counter, the transaction's own included |
| TimestampedStore.Store.Flush | quixstreams/state/rocksdb/timestamped.py:173-212 | gathering doomed keys per written message key and deleting them leaves what the commit function says |
| TimestampedStore.CommitSweeps | quixstreams/state/rocksdb/timestamped.py:198-208 | a commit drops a stored record exactly when its bytes lie in the range swept for some written key |
| TimestampedStore.CommitDropsOwn | quixstreams/state/rocksdb/timestamped.py:201-204 | a commit drops a record of its own transaction exactly when its bytes lie below its key's bound |
| TimestampedStore.KeptIff | quixstreams/state/rocksdb/timestamped.py:148-212 | a whole transaction, its writes in any order of timestamps: under a written key exactly the records within grace of all its writes outlive the commit, under any other key all of them, if no other key's sweep interferes |
| IntervalJoin.Join.LeftFunc | quixstreams/dataframe/joins/join_interval.py:64-73 | a left record is stored first and then meets the right records from its timestamp minus backward to its timestamp; the step is the one of the theorems |
| IntervalJoin.Join.RightFunc | quixstreams/dataframe/joins/join_interval.py:75-84 | a right record is stored first and then meets the left records from its timestamp minus forward to its timestamp |
| IntervalJoin.SidesApart | quixstreams/dataframe/joins/join_interval.py:64-84 | in any run each side's store goes through the writes of its own records and through every checkpoint, whatever arrives on the other side |
| IntervalJoinRun.ReadsAll | quixstreams/dataframe/joins/join_interval.py:67-81 | a query that reaches no further back than the grace period gives all records that meet it, in arrival order |
| IntervalJoinRun.CommitHolds | quixstreams/state/rocksdb/timestamped.py:173-212 | a commit keeps every record within the grace period, if no key continues another with a byte below the separator |
| IntervalJoinRun.JoinExact | quixstreams/dataframe/joins/join_interval.py:64-92 | output by output, a timely run gives what the definition of the join asks for, for all four join types |
| IntervalJoin.IdealLeft | quixstreams/dataframe/joins/join_interval.py:64-92 | what the definition asks for a left record: one output with each right record of its key in reach, in arrival order; with none, the record alone in a left or outer join and nothing otherwise |
| IntervalJoin.IdealRight | quixstreams/dataframe/joins/join_interval.py:75-92 | what the definition asks for a right record, in the same way |
| IntervalJoinPairs.PairsExact | quixstreams/dataframe/joins/join_interval.py:64-84 | each related pair is completed exactly once, by the later record, and no other pair is |
| IntervalJoinPairs.JoinIsRelational | quixstreams/dataframe/joins/join_interval.py:64-92 | over a whole run the matched outputs are the related pairs of the records, each pair once |
| IntervalJoinLoss.LateLoses | quixstreams/dataframe/joins/join_interval.py:43-47 | a forward reach beyond the grace period loses a pair across a commit |
| IntervalJoinLoss.SweptLoses | quixstreams/state/rocksdb/timestamped.py:206-208 | two keys, one continuing the other with a byte below the separator, lose a pair across two commits |
| IntervalJoinLoss.JoinCondition | quixstreams/dataframe/joins/join_interval.py:27-47 | a join the constructor accepts is complete in all timely runs over a set of keys without separators if and only if forward <= grace and no key continues another with a byte below the separator |
| StreamGraph.Emit | quixstreams/core/stream/functions/apply.py:39-72 | only transforms change metadata, only filters drop, only expanding operators pass on several records, in order; the values passed on are those of the callback |
| StreamGraph.Stream.Add | quixstreams/core/stream/stream.py:555-558 | adding an operator links both ways and keeps the graph closed and acyclic |
| StreamGraph.Stream.RootPath | quixstreams/core/stream/stream.py:542-553 | the walk up ends, with exactly the streams upstream |
| StreamGraph.Stream.Merge | quixstreams/core/stream/stream.py:283-302 | an error exactly when one stream is the other or upstream of it; otherwise the graph stays closed and acyclic, and the merged stream passes every record on as it is |
| StreamCompose.StaticOrder | quixstreams/core/stream/stream.py:400-402 | there always is an order with parents first, and it lists each node once |
| StreamCompose.FullTree | quixstreams/core/stream/stream.py:378-402 | the worklist ends with exactly the tree, the least set that holds the stream and takes in neighbours, each stream once and after its parents |
| StreamCompose.ExecutorOk | quixstreams/core/stream/stream.py:452-458 | wrapping an operator around its children's executors gives the meaning of its stream |
| StreamCompose.MergedPasses | quixstreams/core/stream/stream.py:90-100 | a record of a merged stream goes to its children as it is, or to the sink if there are none |
| StreamCompose.ParentReaches | quixstreams/core/stream/stream.py:283-302 | a record that a parent of the merged stream emits reaches the sink as it is, after what the parent's other children make of it |
| StreamCompose.Compose | quixstreams/core/stream/stream.py:404-461 | an error exactly when the tree holds an operator that is not allowed: a filter, an update, one that transforms or one that expands, if the caller does not admit its kind; otherwise an executor for every root that sends the sink what the direct interpreter sends |
| StreamCompose.ComposeSingle | quixstreams/core/stream/stream.py:501-534 | an error exactly for such an operator or a second root; otherwise the executor of the only root |

## Left out

- SlidingRun.RunsExact: needs timestamps of at least 1; at 0 the left window would have no length and the store raises an error for it. Messages more than the grace period behind that are still scanned are excluded: their windows may be inexact from the start, and SlidingPast says what still holds.
- SlidingRun.ProcessExact: messages more than the grace period behind are excluded, as in RunsExact.
- SlidingRun.FullScanExact: messages more than the grace period behind are excluded, as in RunsExact.
- SlidingRun.ExpiredStays: messages more than the grace period behind are excluded; they can write an expired left window (ExpiredLeftIff).
- SlidingLoss.LatenessCondition: stated for the counting aggregator, whose runs show a lost message; the exact direction is RunsExact, for every aggregator.
- SlidingCollect.RunsCollect: the values handed to a collector, not what a collector makes of them, nor the columns it selects; so, too, TimeCollect.RunsCollect and CountRun.ProcessAll. The insertion counter, which the store shares between message keys, counts one key's values here; only its order matters.
- SlidingCollect.RunsStored: within the grace period, as SlidingCollect.RunsCollect.
- SlidingOperator.SlidingWindow.ScanWindow: without aggregators the idle aggregator stands for the empty values that are stored.
- TimeWindowOperator.TimeWindows.ProcessWindow: update triggers and the partition closing strategy are not modelled.
- TimeWindowRun.ProcessExact: update triggers and the partition closing strategy are not modelled: triggers can skip the update and with it the timestamp advance; the other strategy expires across keys.
- CountWindow.StoresFewerThanCount: step below count; for larger steps, CountStale.StaleSize says how many values stay behind.
- KeyEncoding.ScanExact: message keys that contain the separator byte are not covered; ScanBytes and CollidesIff cover all keys.
- KeyEncoding.SweepExact: message keys that contain the separator byte are not covered; SweepBytes covers all keys, byte by byte.
- TimestampedStore.CommitSweeps: message keys without the separator byte, as in TimestampedStore.CommitDropsOwn and all of the join: with it, keys can collide in further ways (CollidesIff).
- TimestampedStore.CommitDropsOwn: message keys without the separator byte.
- TimestampedStore.Store.SetForTimestamp: stores that keep duplicates, as the interval join asks for; without duplicates the counter is always 0.
- IntervalJoinLoss.JoinCondition: timestamps and counters beyond 64 bits, for which the encoding raises an error, are not part of the join's model; forward and backward reaches are not negative; message keys do not hold the separator.
- IntervalJoinRun.JoinExact: needs records in time order across both sides, which aligned consumption gives for logs without late messages.
- SinkRun.AtLeastOnce: polling is unbuffered; buffered polling with backpressure is BackpressureKeeps.
- Buffering.PartitionBufferGroup.Feed: one group of topics with the same partition number.
- AlignedConsumer.InternalConsumer.Feed: one group; consume errors and the validation of messages are not modelled.
- AlignedConsumer.InternalConsumer.TriggerBackpressure: data partitions only, and without the time after which they are resumed.
- AlignedPause.NoDeadlock: one group of topics; that a group can keep another one waiting by always having a message is not modelled.
- AlignedDrain.Drains: logs do not grow while they are drained, and no sink pushes back meanwhile.
- AlignedPause.StallExact: one state; over runs it is AlignedDrain.StalledForGood and AlignedDrain.ReleasesIff.
- ProtocolRecovery.RecoveryPartition.DoRecovery: one changelog partition, whose records the library produced; the client's reset policy is a parameter, and an interruption or an error of a record that ends the loop early is not modelled.
- ProtocolSafety.CrashSafe: the order of records across the topics of a partition number is fixed for a run, so that reprocessing meets the records in the same order; processing is deterministic.
- StreamCompose.StaticOrder: graphlib is not part of this model; its order is any order with parents first.
- Changelog compaction, producers surviving a rebalance, exactly-once transactions and rebalancing itself: outside what the modelled code controls.
- Expiry inside the timestamped store as part of the recovered state: the recovery protocol takes what a record writes as given.
- The store's counter wrapping around after 2^64 records.
- Aggregators that return None for a non-empty window: the store takes None for a missing window.
- The late-message callback is the list of windows it is called for; its other arguments and its logging are left out.
- Stream.diff and compose_returning: values are immutable here, so copying for branches is not visible.
- Merging values of joined records: the pairs handed to the merger are modelled, not its three policies; as-of and lookup joins.
- Kafka clients, timeouts, position errors, retries and statistics: the log is a sequence and a commit an atomic update.
- RocksDB and the memory store: the contract of the state types stands for them.
- Concrete sinks and sources, serializers, topics, settings, printing: they would only add easy members.
