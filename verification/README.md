# Ruka, verified

A Dafny model of Ruka, a single-node append-only message broker. It covers the segmented storage
engine, the registry of partition actors above it and the wire codecs, and proves what they promise
together: one log per partition, whatever runs, however the process stops, and however requests
interleave.

`dafny verify dfyconfig.toml` checks the whole project.

## How it is built

- `Bytes`, `Records`: big-endian integers byte by byte, the record frame, and the scan of a byte log.
  A panic of the decoder (a field length past the end of the buffer) is an outcome of its own.
- `Files`, `Indexes`, `Segments`, `Partitions`: the storage classes. A file is its bytes, a cursor and
  an append-mode flag. `Segment.Valid` ties log bytes, index, size and next offset to one sequence of
  records, and `Segment.Damaged` says what still holds once a write has landed inside the file.
  `Partition.Sound` ties a chain of segments to one `Log`, with at most one damaged file and, for each
  segment, the gap of offsets that its loaded index had lost. `Partition.Valid` means no damage and no gap.
- `Staging`: how a batch and a fetch proceed over the segments, on values.
- `LogSpec`: the sequential meaning of a partition, a flat log cut into segments, with append, batch
  append, read and fetch as functions. `clock(s)` is the time a call writes to segment `s`.
- `AppendTheorems`, `FetchTheorems`: what those functions mean in terms of the flat log.
- `Cursors`: where fetches and writes leave the cursor of the active log file, as functions of the
  commands. `Misplaces` says that a command writes behind a moved cursor, and `NeverMisplaced` that no
  command of a run does.
- `Recovery`: restart after shutdown or crash, and the actor loop, which ties the classes to `LogSpec`.
- `Broker`, `Linearizability`: handlers, double-checked locking, bounded mailboxes and actors as a
  transition system over `LogSpec` and `Cursors`, and its whole runs. Once a command has been misplaced,
  an actor may answer a fetch with any records; produces are answered as before.
- `Progress`: what becomes of a request in such a run: when it is refused, that the lock is given back,
  and that every request can be brought to its end.
- `Bridge`: the replies and logs of such a run are those of the partition objects.
- `Frames`, `Requests`, `Handler`: the incremental frame decoder, typed requests, responses, and the
  way of a message from a produce request through the partition objects to the client that fetches it.

## What the code does not do

Four plausible claims are false of the code. Each has a witness and an exact condition.

- A fetch can skip records. It goes on to the next segment even when the budget stopped it inside the
  current one (src/storage/partition.rs:221-226). `GapWitness` shows it on a log that three produces
  make; `FetchContiguousIff` says exactly when.
- A reopened partition can lose an acknowledged record. `load` does not use append mode
  (src/storage/segment.rs:167), reads move the cursor, and the next write lands there. In `LostRecord`,
  a fetch, a produce answered with offset 2 and a fetch of offset 2 end with nothing found. A segment,
  a partition and the actor loop keep their files intact if and only if no write is misplaced
  (`Segment.Append`, `Partition.Append`, `Partition.AppendBatch`, `ActorLoop`), and both reads say
  exactly where they leave the cursor. Produces do not depend on it: they are answered and counted as
  the sequential log says, damaged or not (`ActorLoop`, `Linearizable`, `AcknowledgedRangesDisjoint`).
  What is said about fetches carries the condition; `IntactWhen` gives three cases in which it holds:
  the broker created the partition, its segments fit the 1 MiB read buffer, or nothing is written after
  a fetch.
- A failed batch loses more than the payload that is too large. The payloads that were to share its
  segment are dropped with it (src/storage/segment.rs:309-311). `AppendBatchMeaning` says how many:
  nothing is lost if and only if the first payload is the one that is too large. `FailedBatchWitness`
  shows a payload that would fit and is lost.
- An accepted message can be out of reach. The handler does not bound a fetch response
  (src/broker/handler.rs:155-166), and a client reads it if and only if header, topic, count and records
  are within 16 MiB (`FetchReadsBackIff`). `AcceptedButUnreadable`: on every log, a message whose
  produce frame is valid but less than 32 bytes short of that limit is accepted if a segment can take
  it, and then no client can read the answer to any fetch at its offset.

Two comments disagree with the code, which the model follows: a fetch payload has 12 bytes, not 8
(src/protocol/request.rs:64-65, src/protocol/frame.rs:32), and a frame may carry bytes after its
payload, which the decoder ignores (`SlackIsIgnored`, `AcceptedBytes`).

## Model

| member | source | states |
|---|---|---|
| Bytes.ByteWeights | src/protocol/frame.rs:89-90 | the value of a 16, 32 or 64-bit integer by its bytes, the first counting most |
| Records.EncodeRecord | src/storage/segment.rs:36-59 | appends exactly the framed record to the buffer |
| Records.DecodeRecord | src/storage/segment.rs:63-107 | takes one record off the front, or nothing while it is incomplete or its length is too small; panics exactly on a field length past the end of the buffer |
| Records.RecordLayout | src/storage/segment.rs:36-59 | the bytes of a record by position: total length, offset, time, then key and value |
| Records.FieldLayout | src/storage/segment.rs:46-58 | the bytes of a field by position: its length, or all ones for a missing one, and its bytes |
| Records.RoundTripIff | src/storage/segment.rs:36-107 | decoding undoes encoding, whatever follows, if and only if the cut length is at least 28 and both fields are shorter than the None marker |
| Records.TornRecord | src/storage/segment.rs:63-79 | every proper prefix of a record is incomplete, never an error or a panic |
| Records.WholeIsLongest | src/storage/segment.rs:188-206 | the counted run of records fits in the bytes and one more would not |
| Records.ScanOfCutLog | src/storage/segment.rs:184-206 | on every byte prefix of a log the recovery loop finds exactly the whole records and their bytes |
| Records.LogBytesDetermineRecords | src/storage/segment.rs:36-107 | two logs with the same bytes are the same records |
| Files.WriteExtendsIff | src/storage/segment.rs:136-167 | a write extends a file by its bytes if and only if it starts at the end |
| Indexes.EntryRoundTrip | src/storage/index.rs:35-51 | an index entry survives its 16 bytes if and only if both numbers fit in 64 bits |
| Indexes.EntryLayout | src/storage/index.rs:35-51 | the bytes of an entry by position: offset, then position in the log file |
| Indexes.EntriesRoundTrip | src/storage/index.rs:86-126 | reading an index file gives the entries that were written |
| Indexes.EntriesOfBytes | src/storage/index.rs:97-105 | any whole number of entries is what its decoded entries would be written as |
| Indexes.Index.Append | src/storage/index.rs:121-126 | adds one entry in memory and on file, which stay mirrors of each other |
| Indexes.BinarySearch | src/storage/index.rs:132-156 | finds the key if it is there, else the point that separates smaller from larger keys |
| Indexes.Index.Lookup | src/storage/index.rs:132-140 | the position stored for exactly this offset, or none if it is not indexed |
| Indexes.Index.LookupFloor | src/storage/index.rs:147-156 | the entry with the largest offset not above the target, or none if all are above |
| Indexes.OpenIndex | src/storage/index.rs:86-115 | an index file that is missing, empty or torn gives no entries; any other is taken as it is |
| AppendTheorems.PlaceKeeps | src/storage/partition.rs:84-104 | one append keeps the log numbered, rotated and within the segment limit |
| AppendTheorems.PlaceAllSegments | src/storage/partition.rs:108-149 | closed segments never change and the active one is only extended |
| AppendTheorems.PlaceStamps | src/storage/segment.rs:248-255 | the record that an append adds, field by field: next offset, the clock's time, key and value |
| AppendTheorems.ExecStamped | src/storage/segment.rs:248-326 | every record that a command adds, also what is left of a failed batch, carries the time its own clock showed for that segment; closed segments are kept |
| AppendTheorems.AddedCarryTheTime | src/storage/segment.rs:297-326 | the same by place in the flat log |
| AppendTheorems.ShareLost | src/storage/segment.rs:307-344 | what remains of a failed batch is the prefix without the payloads of the segment being filled, of which there is at least one if any payload was placed; the log keeps its invariant |
| AppendTheorems.AppendBatchMeaning | src/storage/partition.rs:108-149 | a batch succeeds if and only if every payload fits a segment, and then adds all of it at the old next offset; else it adds the payloads before the first that is too large, less exactly the share of the last segment, which is all of them if and only if there are none |
| AppendTheorems.FailedBatchWitness | src/storage/segment.rs:309-311 | a batch of a payload that fits and one that does not fails and leaves the log as it was, while the first alone would be accepted |
| AppendTheorems.BatchIsRepeatedAppend | src/storage/partition.rs:84-149 | a batch whose payloads fit lays out the log as appending them one by one does, whatever the clocks |
| AppendTheorems.SameShapeSameLayout | src/storage/partition.rs:84-149 | logs of the same shape agree on every base, position and offset |
| AppendTheorems.RunExtends | src/storage/topic.rs:171-192 | over any run of commands the log keeps its invariant and every earlier record stays at its offset |
| FetchTheorems.FetchIsWalk | src/storage/partition.rs:175-230 | the segment-at-a-time fetch equals a record-at-a-time walk |
| FetchTheorems.FetchMeaning | src/storage/partition.rs:175-230 | a fetch starts at its offset, returns true records in ascending order within the budget or a single one, ends only where nothing fits, and skips only inside a segment past a record that does not fit |
| FetchTheorems.FetchOutside | src/storage/partition.rs:179-192 | a fetch is empty if and only if it has no budget or starts outside the log |
| FetchTheorems.FetchContiguousIff | src/storage/partition.rs:192-227 | a fetch is the longest contiguous run that fits if and only if the first record that does not fit is not inside a segment whose successor starts with one that does |
| FetchTheorems.EqualSizesNeverSkip | src/storage/partition.rs:192-227 | with records of one size a fetch never skips |
| FetchTheorems.GapWitness | src/storage/partition.rs:221-226 | three produces on a new partition leave a log from which a fetch returns the first and the third record |
| Cursors.ReachesEnd | src/storage/segment.rs:384-433 | a read ends at the end of the file if and only if it asked for all that is left or a single record is left |
| Cursors.FetchCursorStep | src/storage/partition.rs:192-227 | where one round of a fetch leaves the cursor of the active file |
| Cursors.AppendModeIsSafe | src/storage/segment.rs:136-141 | on a created partition no command is ever misplaced |
| Cursors.WritesFirstIsSafe | src/storage/segment.rs:160-167 | with the cursor at the end and no write after a fetch, no command is misplaced |
| Cursors.SmallSegmentsAreSafe | src/storage/segment.rs:425-433 | with segments within the read buffer no command of any run is misplaced, and the cursor is at the end after each |
| Segments.Segment.Create | src/storage/segment.rs:123-153 | an empty valid segment in append mode |
| Segments.Recover | src/storage/segment.rs:184-206 | the recovery loop keeps exactly what the scan decodes and rebuilds the index only if it was empty |
| Segments.Segment.Load | src/storage/segment.rs:156-227 | the log is cut to the decoded records, the cursor is at the end, and a non-empty index is trusted as it is |
| Segments.CutLogRecovers | src/storage/segment.rs:156-227 | from every byte prefix of a log, load recovers exactly the longest run of whole records |
| Segments.WholeLogRecovers | src/storage/segment.rs:156-227 | from a complete log, load recovers all records |
| Segments.IndexFileReadsBack | src/storage/index.rs:86-126 | the index file of a segment reads back as one entry for every record |
| Segments.LaggingIsSound | src/storage/segment.rs:186-196 | an index with only the leading entries is right about each of them |
| Segments.LoadSegment | src/storage/segment.rs:156-227 | a loaded segment stands for exactly the recovered records, ready to be extended; its index lists all of them outside of the gap that its file left |
| Segments.Segment.Append | src/storage/segment.rs:231-286 | the offset, the error cases, the new record field by field with the time of the call, its index entry and the write, on an intact or a damaged file alike; the file stays intact if and only if it was and the write starts at its end, and a record that goes inside it is lost |
| Segments.PlanBatch | src/storage/segment.rs:302-340 | as many payloads as fit, with their bytes and index entries; the exact cases of both errors |
| Segments.Segment.Commit | src/storage/segment.rs:342-363 | writing the plan extends the segment by its records and the index by its entries; intact if and only if it was and the write starts at the end of the file; records that go inside it are lost |
| Segments.Segment.AppendBatch | src/storage/segment.rs:290-366 | the largest number of payloads that fit is appended, each field by field with the next offset and the one time of the call, with one write and one index entry each; on an error nothing changes; damage and loss as for one record |
| Segments.Segment.ReadAt | src/storage/segment.rs:370-411 | an indexed offset gives its own record for every record size and every short first read, any other gives none; where the cursor ends, and that it is at the end if and only if in append mode, at the last record or with all that is left read |
| Segments.DecodeRun | src/storage/segment.rs:435-459 | on the bytes of a log the decoding loop returns the run that is whole in the chunk and within the limit |
| Segments.Segment.ReadRun | src/storage/segment.rs:425-480 | with the fallback for records larger than the buffer, the longest run that fits or else the first record; where the cursor ends, for every short read; nothing at or past the end |
| Segments.Segment.ReadBatch | src/storage/segment.rs:415-481 | the longest run from an indexed offset within the limit, or just the first record; where the cursor ends, and exactly when that is the end of the file, for every short read; nothing for an entry past the end of a damaged file |
| Partitions.Partition.OpenOrCreate | src/storage/partition.rs:27-78 | for every listing order the stored log is restored, with any gap that an index file leaves, and an empty directory gives an empty log at offset 0 |
| Partitions.LoadAll | src/storage/partition.rs:40-59 | each listed segment is loaded as the segment of the log that starts there |
| Partitions.SortByBase | src/storage/partition.rs:62-62 | the same segments in strictly ascending base order |
| Partitions.ChainIsComplete | src/storage/partition.rs:61-68 | the sorted segments are exactly the segments of the stored log, one by one |
| Partitions.Partition.AddSegment | src/storage/partition.rs:90-98 | rotation adds an empty segment at the next offset and changes no record |
| Partitions.Partition.Append | src/storage/partition.rs:84-104 | implements the sequential append, damaged or not; a file becomes damaged if and only if something is written to it behind a moved cursor, and a record written there within the old file is lost to later reads |
| Partitions.Partition.AppendBatchActive | src/storage/partition.rs:112-120 | one segment call places the payloads that single appends would place there, and writes if and only if the whole batch writes to that file; behind a moved cursor it damages exactly that segment and loses what goes inside the old file |
| Staging.StageFails | src/storage/segment.rs:309-311 | a payload that is too large costs exactly the share of the segment being filled |
| Partitions.Partition.BatchStep | src/storage/partition.rs:111-146 | one round either makes progress, or moves to a fresh segment that cannot be full, or fails; the first active file is damaged if and only if it was or a round wrote behind its cursor |
| Partitions.Partition.AppendBatch | src/storage/partition.rs:108-149 | terminates and implements the sequential batch, damaged or not, including what a failure leaves behind; a file becomes damaged if and only if its cursor had moved and the batch wrote to it (not empty, first payload fits, none too large before the first rotation); the records that go inside the old file are lost |
| Staging.LastNotAfter | src/storage/partition.rs:156-168 | the position of the last key not above the target, or none if all are above |
| Partitions.Partition.FindSegment | src/storage/partition.rs:156-168 | the binary search finds the one segment that holds the offset |
| Partitions.Partition.Read | src/storage/partition.rs:153-171 | exactly the record at the offset of the flat log, or none outside it and for an offset the index had lost; where the cursor of the active file ends, and exactly when the next write lands at its end |
| Staging.Take | src/storage/partition.rs:205-219 | records are taken while they fit; the first that does not ends the fetch and is returned only if alone |
| Partitions.Partition.ReadBatch | src/storage/partition.rs:175-230 | implements the sequential fetch and leaves the cursor of the active file exactly where the last read of it ended; an offset the index had lost, or lost to a misplaced write, sends the fetch on to the start of the next segment |
| Partitions.Partition.NextOffset | src/storage/partition.rs:249-251 | the offset after the last record of the flat log |
| Recovery.CleanDirectoryStores | src/storage/partition.rs:27-78 | the files a log leaves behind store that log, without a gap |
| Recovery.CrashedDirectoryStores | src/storage/segment.rs:156-227 | with the last log file cut at any byte and its index unusable or a leading part of the recovered one, the directory stores the log up to the last whole record, with a gap for the entries that are missing |
| Recovery.OpenAfterCrash | src/storage/partition.rs:27-78 | opening that directory gives exactly that log, ready to be written, for every listing order; valid if and only if there is no gap |
| Recovery.ReadsAfterCrash | src/storage/partition.rs:153-230 | on that partition a read gives the true record, and none exactly for a record that the index had lost; a fetch of one of those finds nothing, and any other is that of the log |
| Recovery.Reopen | src/storage/partition.rs:27-78 | reopening what a partition wrote restores the same log, for every listing order |
| Recovery.Serve | src/storage/topic.rs:173-190 | one command on the partition has the effect of the sequential log; a write is always answered as there, a fetch unless the file is damaged, with lost offsets sent on to the next segment; the files stay intact if and only if the command is not misplaced |
| Recovery.ActorLoop | src/storage/topic.rs:171-192 | the log and the replies to writes are those of the sequential run, and so are the replies to fetches before which no command was misplaced; the files are intact at the end if and only if none was; only a fetch after that can end the loop with a panic |
| Recovery.CreatedRunIsOneLog | src/storage/partition.rs:27-230 | for any sequence of appends, batches, reads and fetches on a created partition: every answer is that of the flat log, and every segment starts where the one before ends, holds exactly the bytes and index entries of its records and is within the limit |
| Recovery.ReadWithLaggingIndex | src/storage/segment.rs:370-411 | after loading with a lagging index and any calls of append and append_batch, each with its own time, a read gives the true record or none, and none exactly for the records the index had lost |
| Recovery.MakeMany | src/storage/segment.rs:290-366 | a batch adds the payloads for which there is room, or none if the next is too large for any segment, and the index learns exactly those |
| Recovery.ReadThenAppend | src/storage/topic.rs:173-190 | on a reopened partition with a last segment larger than the read buffer, a fetch and an acknowledged produce damage the file and lose the record |
| Recovery.LosesAcknowledged | src/storage/topic.rs:173-190 | a fetch of that acknowledged offset then finds nothing, where the sequential log answers with the record |
| Recovery.LostRecord | src/storage/segment.rs:167-167 | a directory of two records on which this happens: offset 2 is assigned and a fetch of it is empty |
| Broker.LoadedInv | src/storage/topic.rs:50-132 | the registry loaded from disk satisfies the invariant |
| Broker.StepKeeps | src/storage/topic.rs:135-216 | every step of every task and actor keeps the invariant: logs, cursors and produce replies of the sequential run, and fetch replies up to the first misplaced command |
| Broker.OneActorPerPartition | src/storage/topic.rs:150-196 | no partition ever has two actors |
| Linearizability.RunInv | src/storage/topic.rs:135-216 | the invariant holds in every state of every run |
| Linearizability.RunIsLater | src/storage/topic.rs:140-196 | bindings never change; histories and answers only grow |
| Linearizability.OnlyProducesCreate | src/broker/handler.rs:27-120 | only a produce creates an actor, from the log on disk, and only when the partition has none |
| Linearizability.Linearizable | src/storage/topic.rs:169-192 | every answer to a produce, and every answer to a fetch before which no command of the partition was misplaced, is that of running the commands one at a time in mailbox order; a fetch is always answered with records |
| Linearizability.IntactWhen | src/storage/segment.rs:136-167 | none is, if the broker created the partition, its segments fit the read buffer, or nothing is written after a fetch |
| Linearizability.RealTimeOrder | src/broker/handler.rs:36-62 | a command answered before another was sent comes first in that order |
| Linearizability.AcknowledgedTime | src/storage/segment.rs:248-326 | in every later log of a run an acknowledged payload has the time at which its job wrote its segment |
| Linearizability.AcknowledgedRangesDisjoint | src/broker/handler.rs:27-114 | acknowledged offset ranges on one partition never overlap, damaged or not |
| Linearizability.FetchSeesAcknowledged | src/broker/handler.rs:116-148 | on an intact partition a fetch sent after a produce was answered returns the acknowledged payload first, with the time at which its job wrote it, within the budget or alone |
| Progress.RunSettled | src/storage/topic.rs:135-216 | in every state of every run the lock is held only by a task about to give it back, a task with an actor has the registered one, and a waiting task whose letter was served has its reply |
| Progress.LockHolder | src/storage/topic.rs:148-196 | a task holds the write lock if and only if it is between acquiring it and returning |
| Progress.RequestKept | src/broker/handler.rs:27-148 | a task keeps its partition and its command over every run |
| Progress.RegisteredIsNotRefused | src/storage/topic.rs:140-216 | once a partition is registered, no request for it is refused any more |
| Progress.AnsweredIsNotRefused | src/storage/topic.rs:200-216 | once a request for a partition was answered, no later one is told that the partition does not exist, nor refused otherwise |
| Progress.LoadedIsRegistered | src/storage/topic.rs:50-132 | a partition found on disk is registered in every state, and no request for it is ever refused |
| Progress.CanBeConcluded | src/storage/topic.rs:135-216 | progress: from every state of every run, every task can be brought to its answer, or to its refusal if it is a fetch of an unregistered partition, for every mailbox capacity but zero |
| Progress.EveryRequestCanBeAnswered | src/broker/handler.rs:27-148 | in every state of every run a new request can arrive and be answered, unless it is a fetch of an unregistered partition |
| Progress.OpenMayFail | src/storage/topic.rs:158-164 | when opening fails, the produce is refused, the lock is given back, and nothing is registered or spawned |
| Bridge.StorageAnswers | src/storage/topic.rs:158-192 | for every actor of every run, opening its partition and running the actor loop on its jobs gives the recorded log, the recorded reply to every write, and to every fetch before which none was misplaced; the files are intact if and only if the run has not marked the actor as hurt |
| Bridge.RecordedReplies | src/storage/topic.rs:171-192 | the log, the cursor, the produce replies and the fetch replies up to the first misplaced job that a run records for an actor are those of the sequential run |
| Frames.EncodeFrame | src/protocol/frame.rs:47-69 | appends exactly the encoded frame |
| Frames.DecodeFrame | src/protocol/frame.rs:83-182 | total on every buffer: consumes a frame, reports the error, or leaves an incomplete frame untouched |
| Frames.FrameRoundTripIff | src/protocol/frame.rs:47-182 | decoding undoes encoding, whatever follows, if and only if the frame is valid |
| Frames.FrameLayout | src/protocol/frame.rs:47-69 | the bytes of a frame by position, with the magic byte and the code of each api key as literals |
| Frames.DecodesByPosition | src/protocol/frame.rs:83-182 | the decoder on every buffer by position: when it waits, which error it reports in which order, and where it reads each field |
| Frames.DecodedIsValid | src/protocol/frame.rs:83-182 | whatever is decoded passes every check of the protocol |
| Frames.AcceptedBytes | src/protocol/frame.rs:163-172 | the accepted bytes are the frame's own encoding if and only if the length prefix equals 17 plus the topic and payload length fields |
| Frames.SlackIsIgnored | src/protocol/frame.rs:118-172 | every valid frame with any slack behind its payload, within the size limit, decodes to that frame, and is its encoding if and only if there is no slack |
| Frames.DecodeStable | src/protocol/frame.rs:83-182 | a frame or error does not change when more bytes arrive |
| Frames.ChunkingDoesNotMatter | src/protocol/codec.rs:26-33 | every split of a byte stream into chunks gives the same frames up to the same first error |
| Frames.StreamRoundTrip | src/protocol/frame.rs:47-182 | a concatenation of valid frames decodes to exactly those frames with nothing left |
| Frames.TooLongFails | src/protocol/frame.rs:92-98 | a frame over the limit ends the stream with an error that names its size |
| Frames.DrainedAreValid | src/protocol/codec.rs:26-33 | every frame that comes out of any stream is valid |
| Requests.ParseBatch | src/protocol/request.rs:77-107 | the parsing loop accepts exactly the announced items with nothing after them |
| Requests.BuildBatch | src/protocol/request.rs:153-159 | the building loop writes the count and every item |
| Requests.RequestRoundTripIff | src/protocol/request.rs:66-187 | a request survives its frame if and only if its fields are within the wire widths |
| Requests.AcceptedFrameIsReproduced | src/protocol/request.rs:66-187 | every accepted frame is reproduced byte for byte |
| Requests.AcceptedFields | src/protocol/request.rs:66-128 | an accepted request takes each field from its own in the frame; a fetch reads offset and limit, and a batch its count and items, at their byte positions |
| Handler.BuildFetchPayload | src/broker/handler.rs:155-159 | the loop writes the count and the framed records |
| Handler.FetchPayloadRoundTrip | src/broker/handler.rs:155-166 | a client reads back the count and exactly the fetched records |
| Handler.FetchReadsBackIff | src/broker/handler.rs:155-166 | a fetch response carries the api key, correlation id, topic and partition of its request, and the records; a client reads a fetch response, however it is cut, if and only if header, topic, count and records are within the frame limit; above it the client fails with the size |
| Handler.AcceptedButUnreadable | src/broker/handler.rs:27-166 | on every log a message whose produce frame is valid but less than 32 bytes below the limit is acknowledged if a segment can take it, and no client can read the answer to a fetch at its offset |
| Handler.AcknowledgementReadsBack | src/protocol/response.rs:70-104 | a client reads its correlation id and the assigned offset |
| Handler.ErrorReadsBack | src/protocol/response.rs:120-138 | a request fails if and only if there is no actor, it is gone, it answered with an error or found nothing; every failure reaches the client as an error frame with its correlation id, its code and its text |
| Handler.RefusedIsTold | src/broker/handler.rs:28-120 | in every run a refused fetch is answered with partition not found, and a refused produce with a storage error |
| Handler.FrameToFrame | src/broker/handler.rs:27-167 | an accepted frame goes to the partition that its own topic and partition name, with the command its payload says; every response carries its correlation id, and unless an error its api key, topic and partition |
| Handler.ProducedIsFetched | src/broker/handler.rs:27-167 | through the opened partition, its actor loop, the payload and any chunking of the wire: if the response fits a frame the client reads exactly it, with the header of the request, and its first record is the acknowledged message with the time at which it was written; if not, the client never reads it; it fits if budget and message do, and never if the message alone does not; on an intact partition |

## Left out

- Partitions.Partition.ReadBatch: models reads that return all the bytes asked for; Segment.ReadBatch states what a short read returns.
- Recovery.CrashedDirectoryStores: an index longer than the recovered log is not covered; the code trusts it and later appends would leave it unsorted.
- Bridge.StorageAnswers: a directory whose index lags behind is not covered; Serve says what fetches answer on one.
- Segments.Segment.Create: models a base offset that has no log file yet; the code would append to an old one and count from zero.
- Broker.LoadedInv: two directories whose names parse to the same partition number are not covered.
- What a fetch from a damaged file answers, except that the records of the write that damaged it are not found when they were written within the old file; in the runs any records are allowed then.
- Partitions.Partition.Read: a partition with a damaged file is not covered; the actor does not call it.
- Segments.DecodeRun: on bytes that are not those of a log, says only that the loop ends.
- Segments.Segment.ReadRun: on a damaged file, says only that nothing is found at or past its end.
- Numbers: sizes, positions and offsets are unbounded, with explicit 64-bit limits where they are stored; sums that would wrap around 64 bits are excluded by precondition or not reached.
- Logs with records of 4 GiB or more, whose length prefix would be cut; a single such record is covered by RoundTripIff.
- I/O errors, fsync levels and flushing: a crash is a byte prefix of the last log file.
- Fairness: `Progress` says that a request can always be answered, not that a scheduler must let it.
- An actor that panics, as a step of a run; the handler's answer when it is gone is covered by ErrorReadsBack.
- Order in which senders that wait for a full mailbox are let in: any order is allowed.
- The wording of error texts, which are a parameter.
- The TCP accept loop, connection shutdown, logging and configuration.
- Memory-mapped reads in src/network/zero_copy.rs, which the storage code does not call.
