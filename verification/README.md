# Verified model of carbon-relay-ng's stateful core

carbon-relay-ng receives metrics and relays, spools, aggregates and measures them. This project
models the parts of it that keep state under failure or under a performance trick, and proves that
each agrees with a simple specification:

- **Disk queue** (`DiskLayout`, `DiskReaders`, `DiskDamage`, `DiskDurability`, `DiskQueues`, `DiskRuns`).
  Length-prefixed frames in numbered files, a read, a write and a read-ahead cursor, a buffered reader,
  rolling files, persisted metadata, the tail check and the bad-file skip. Over every error-free run the
  queue is a list, of which at most the last `syncEvery` messages are unpersisted. After a crash at any
  step a restart recovers everything persisted and undelivered, and delivery is at-least-once from there on
  until a Put finds bytes at or past the write cursor in the reader's buffer; with damaged files, exactly
  the frames from the damage on are lost, file by file.
  `Disk` is what outlives the process; dropping a `DiskQueue` and constructing another on the same `Disk`
  is a crash and a restart. Its ghost `intact` is what was written, and its ghost `broken` says where a
  file has been damaged since.
- **Connection and spool** (`BufWriters`, `Conns`, `Relays`, `Spools`, `Redo`). A buffered writer with a
  sticky error, a two-generation retention buffer, the relay loop that routes metrics and gives up dead
  connections, the redo data of such a connection, and the chain of stages around the real disk queue.
  A connection's ghost `history` records takes, rotations and successful flushes, and everything about
  what may be lost is a function of it. The relay looks at its connection only at the top of its loop:
  a connection can die while the loop waits, and then still be handed one metric.
- **Aggregator** (`Processors`, `Percentiles`, `Aggregators`). Buckets, lateness, flushes and incremental
  processors, against the group-by query that the output has to equal.
- **Consistent hashing** (`HashRings`, `Routes`). Probing, lookup by binary search, and the rebuild on every
  change of a route.
- **Meter** (`Meters`). The one-pass quantile report over a histogram with 32-bit counters.
- **Schemas and matchers** (`Schemas`, `Matchers`). The packed schema priority, and the literal prefix that
  is taken from a regular expression and used as a filter.

Conventions. A cursor is one value (file number, position) where the source keeps two fields. Goroutine
interleavings are lists of events, one per select; an event whose branch is not enabled does nothing.
What the environment chooses is an argument (a script of events) or a nondeterministic choice (how far a
write on a connection gets). MD5, regular-expression engines, number parsing and the square root are
uninterpreted functions. `sort.Sort` is known only to return some sorted permutation. Floating point is
modelled by reals.

Messages are assumed to be shorter than 2^31 - 4 bytes wherever a frame is written. `AdvanceAgreesIffFits`
shows that this is exactly the condition under which the reader, which adds the header size in 32 bits,
moves as far as the writer.

Where the code and its own comments differ, the code is followed:

- `matcher/matcher.go:134-135` says that every input that a regex matches has the extracted prefix. That is
  false for patterns such as `^ab*` and `^a|b` (`OptionalLiteralIsUnsound`, `AlternationIsUnsound`). It
  holds, whatever the constructs that the scan does not look into mean, if and only if `Exact` holds of
  the pattern: every top-level alternative is anchored and its items force the prefix
  (`AlwaysSoundIffExact`). `^ab*b`, for one, meets it.
- `route/consistent_hashing.go:32-36` orders ring entries by position, host and instance, so without the fix
  destinations that differ in their port alone tie on every position. Lookups are determined if and only
  if no destination that leads some position shares its host and instance with another
  (`LookupsAgreeIff`, `UnfixedDeterminedIff`).
- `destination/keepsafe.go:8-11` speaks of retaining at least one period. For redo completeness what matters
  is that everything no longer retained had been taken before the last successful flush. At most one
  rotation since then is enough (`Retention`), and with a buffer that holds everything the condition is
  exact (`ServeAndCollect`); `LostAfterTwoRotations` shows what two rotations can do.
- `nsqd/diskqueue.go:248-259` reads through a buffer of 4096 bytes. After an unclean restart the write file may
  hold bytes at or past the write cursor; once they are buffered, a message written over them is not what is
  read (`StaleFrameIsRead`). A Put is read back whatever is put if and only if nothing at or past the write
  cursor is buffered (`TameIff`). That is so from any start at which the data ends at the write cursor, and
  error-free turns and clean restarts keep it so (`Run`); for a restart it can be checked on the files.
- `persister/whisper_schema.go:36` compares with `>=`, which is no strict order. Packed priorities in range are
  pairwise different, so the result is still determined; out of range see `PackWraps`.

## Model

| member | source | states |
|---|---|---|
| DiskLayout.HeaderRoundTrip | nsqd/diskqueue.go:251-266 | the length written by the writer is read back as the same 32-bit integer |
| DiskLayout.HeaderIsBigEndian | nsqd/diskqueue.go:316 | the header is the length modulo 2^32, most significant byte first |
| DiskLayout.AdvanceAgreesIffFits | nsqd/diskqueue.go:266 | reader and writer move equally far over a message exactly when it is shorter than 2^31 - 4 bytes |
| DiskLayout.FrameIsRead | nsqd/diskqueue.go:251-264 | a read at the start of a stored frame returns that frame's message |
| DiskLayout.HasDataIffPending | nsqd/diskqueue.go:557 | roll agreement: when the writer stands where the pending messages lead the reader, the loop's test for data is exact and both cursors coincide when it fails |
| DiskLayout.StoredPreserved | nsqd/diskqueue.go:291-336 | stored frames survive any change to the bytes beyond the writer and to files before the reader |
| DiskLayout.StoredAppend | nsqd/diskqueue.go:327-352 | writing one frame at the writer appends exactly one message to what is stored, whatever stale bytes the file holds |
| DiskLayout.AfterFileSplit | nsqd/diskqueue.go:494-524 | skipping a file drops exactly the frames that start in it, a prefix of the queue, and the rest starts at the head of the next file |
| DiskLayout.SkipKeepsLaterFiles | nsqd/diskqueue.go:494-524 | after a skip the messages of the later files lie between the new cursors |
| DiskLayout.LaterFilesIntact | nsqd/diskqueue.go:494-524 | damage to the file being read does not touch the messages of later files |
| DiskReaders.FetchIsAhead | nsqd/diskqueue.go:248-266 | a fetch returns the next bytes of the buffer followed by the file, or fails exactly when there are too few |
| DiskReaders.FetchFills | nsqd/diskqueue.go:248-251 | a short fetch through a new buffered reader leaves it with 4096 bytes of the file, or with all there is |
| DiskReaders.AgreeingRead | nsqd/diskqueue.go:251-266 | while what is buffered is what the file holds, reading through the buffer is reading the file, and stays so |
| DiskReaders.WriteAgrees | nsqd/diskqueue.go:327-336 | a write past the end of what is buffered keeps the agreement |
| DiskReaders.PutReadsBackIff | nsqd/diskqueue.go:248-336 | every message written at the write cursor is read back after the pending ones if and only if the reader's buffer does not reach beyond that cursor |
| DiskReaders.StaleBytesIff | nsqd/diskqueue.go:226-266 | after a restart that reads a short file: every next message is read back if and only if the file ends at the write cursor |
| DiskReaders.StaleFrameIsRead | nsqd/diskqueue.go:226-266 | a message written over a buffered stale frame of the same length is not read: the stale one is |
| DiskDamage.HeadReadable | nsqd/diskqueue.go:559-565 | the head of the queue can be read unless its file is damaged there |
| DiskDamage.LaidSkip | nsqd/diskqueue.go:494-524 | after a file is given up, the messages of the later files lie between the new cursors, whatever is damaged |
| DiskDamage.LaidAdvance | nsqd/diskqueue.go:473-492 | after a delivery the rest lies between the new cursors, with the file that was left removed |
| DiskDamage.ReadableIsSurviving | nsqd/diskqueue.go:542-576 | walking the files as they are yields exactly the written messages outside damaged parts |
| DiskDamage.Damaging | nsqd/diskqueue.go:494-524 | new damage takes exactly the readable messages of its file from there on |
| DiskDamage.DamageIsContained | nsqd/diskqueue.go:494-524 | with one damaged file, the messages before the damage and then exactly those of the later files survive |
| DiskDurability.WriteIsRecoverable | nsqd/diskqueue.go:327-336 | a crash after a write and before the next sync loses nothing persisted |
| DiskDurability.TornIsRecoverable | nsqd/diskqueue.go:358-375 | arbitrary bytes at and beyond the persisted write cursor lose nothing persisted |
| DiskDurability.RemovalIsRecoverable | nsqd/diskqueue.go:480-489 | when the file that the metadata reads from is removed, all of its persisted messages have been delivered and the rest starts in the next file |
| DiskDurability.DeliveryIsRecoverable | nsqd/diskqueue.go:473-492 | one delivery, with the removal it may cause, keeps the queue, the metadata and what is owed in agreement |
| DiskDurability.BackedByDelivery | nsqd/diskqueue.go:473-492 | after a delivery the metadata still describe a state to recover from, and what is owed loses its head |
| DiskDurability.RestartFinds | nsqd/diskqueue.go:378-402 | a restart finds the snapshot, or its undelivered part after skipping at most one removed file; crashing again before anything else loses nothing |
| DiskQueues.DiskQueue.constructor | nsqd/diskqueue.go:65-96 | a queue started on any recoverable disk is sound, holds the snapshot or what is still owed, and has nothing unpersisted |
| DiskQueues.DiskQueue.RetrieveMetaData | nsqd/diskqueue.go:378-402 | cursors and depth are those of the metadata, or zero when there is none |
| DiskQueues.DiskQueue.Sync | nsqd/diskqueue.go:358-375 | the metadata describes the present cursors and depth, and the whole queue is persisted |
| DiskQueues.DiskQueue.ReadOne | nsqd/diskqueue.go:226-287 | reading through the buffer returns what the file holds at the read cursor, moves only the read-ahead cursor, keeps buffer and file in agreement, and leaves the file open exactly when the next read continues in it |
| DiskQueues.DiskQueue.WriteFrame | nsqd/diskqueue.go:291-336 | the frame is written in place, the reader's buffer still agrees with the file, and a crash at this point is still recoverable |
| DiskQueues.DiskQueue.WriteOne | nsqd/diskqueue.go:291-355 | appends the message, counts it, rolls where the reader will roll, and forgets nothing that was persisted |
| DiskQueues.DiskQueue.RollWriteFile | nsqd/diskqueue.go:338-352 | a new write file starts with everything persisted |
| DiskQueues.DiskQueue.SkipToNextRWFile | nsqd/diskqueue.go:191-222 | exactly the files between the cursors are removed and all cursors stand on a fresh file |
| DiskQueues.DiskQueue.CheckTailCorruption | nsqd/diskqueue.go:441-471 | does nothing while data is pending, resets a wrong depth at the tail, and starts over only when the cursors have crossed |
| DiskQueues.DiskQueue.Advance | nsqd/diskqueue.go:473-489 | the reader moves past the delivered message, the file it leaves is removed and a sync becomes due; what is owed loses its head |
| DiskQueues.DiskQueue.MoveForward | nsqd/diskqueue.go:473-492 | the queue loses its head, the write cursor never moves (no repair happens), and depth is zero whenever the queue drains even if it was stale |
| DiskQueues.DiskQueue.SetAside | nsqd/diskqueue.go:507-515 | a bad file is kept under another name; a missing one changes nothing |
| DiskQueues.DiskQueue.HandleReadError | nsqd/diskqueue.go:494-524 | leaves exactly the messages of the later files, with the cursors in order, keeps the bad file under another name, and schedules a sync |
| DiskQueues.DiskQueue.SyncIfDue | nsqd/diskqueue.go:543-555 | at every syncEvery-th iteration, or when a sync was asked for, the whole queue and the present cursors are persisted; so fewer than syncEvery messages have been put since; nothing owed is forgotten |
| DiskQueues.DiskQueue.ReadAhead | nsqd/diskqueue.go:557-566 | reads the head of the queue, or skips the file when it is gone or damaged there |
| DiskQueues.DiskQueue.Iterate | nsqd/diskqueue.go:542-570 | before the select no sync is due, what was due has been persisted, fewer than syncEvery messages have been put since, and a pending queue offers its head; otherwise a file was given up, kept under another name, and the loop starts over |
| DiskQueues.DiskQueue.Deliver | nsqd/diskqueue.go:575-576 | what is sent is the head of the queue |
| DiskQueues.DiskQueue.Put | nsqd/diskqueue.go:109-119 | appends unless the queue is closed, given that the reader has buffered nothing at or past the write cursor |
| DiskQueues.DiskQueue.Empty | nsqd/diskqueue.go:165-189 | nothing is pending afterwards and the metadata is gone, unless the queue is closed |
| DiskQueues.DiskQueue.Close | nsqd/diskqueue.go:122-161 | the whole queue is persisted |
| DiskRuns.FifoConserves | nsqd/diskqueue.go:534-592 | in the list specification, delivered messages followed by pending ones are the initial ones followed by the puts |
| DiskRuns.FifoSinceLastEmpty | nsqd/diskqueue.go:534-592 | deliveries since the last Empty followed by what is pending are exactly the puts since then |
| DiskRuns.StoredIsUnique | nsqd/diskqueue.go:226-287 | the bytes between two cursors determine the list of messages |
| DiskRuns.Handle | nsqd/diskqueue.go:542-586 | one turn of the loop does to the on-disk queue what the event does to a list, depth stays exact, and at most syncEvery messages are unpersisted |
| DiskRuns.Restart | nsqd/diskqueue.go:122-128 | a clean close and reopen keeps the queue and its depth |
| DiskRuns.Run | nsqd/diskqueue.go:534-592 | FIFO refinement: if the data ends at the write cursor, any script of puts, deliveries, empties, sync ticks and clean restarts has the deliveries and the final queue of the list specification, the data ends there again, and at most syncEvery messages are unpersisted |
| DiskRuns.Settle | nsqd/diskqueue.go:542-570 | the loop reaches its select, giving up unreadable files changes nothing that can be delivered, and a sync that was due has taken place |
| DiskRuns.TameIff | nsqd/diskqueue.go:248-336 | a Put into the file being read is safe for every message if and only if the reader has buffered nothing at or past the write cursor |
| DiskRuns.Damage | nsqd/diskqueue.go:494-524 | damage before it is read loses exactly what its file still held from there on |
| DiskRuns.DeliverAll | nsqd/diskqueue.go:534-592 | left to itself, the loop delivers exactly what can be read of the files, damaged or not |
| DiskRuns.DeliverDamaged | nsqd/diskqueue.go:494-592 | with a file damaged from its k-th pending frame on, the loop delivers the messages before it and then exactly those of the later files |
| DiskRuns.DamagedRun | nsqd/diskqueue.go:494-592 | over any run with damage, the messages pending at first and put since are, in order, those delivered and deliverable with one stretch of one file cut out for every damage; without damage nothing is missing |
| DiskRuns.CrashAndRestart | nsqd/diskqueue.go:358-431 | after a crash at any step, with arbitrary bytes and files from the persisted write cursor on, the recovered queue ends with everything persisted and undelivered, in order, and at most one file is skipped |
| DiskRuns.RunAndCrash | nsqd/diskqueue.go:534-592 | bounded loss: a crash after any error-free run loses at most the last syncEvery of the messages then pending; the others come back in order, whatever is left of the unsynced bytes |
| DiskRuns.CrashInSelect | nsqd/diskqueue.go:542-586 | a crash while the loop waits loses fewer than syncEvery messages, and none if a sync had been asked for |
| DiskRuns.KeptDeliver | nsqd/diskqueue.go:473-492 | a delivery turns an owed message into a delivered one and disturbs no other promise |
| DiskRuns.CrashyRun | nsqd/diskqueue.go:358-592 | at-least-once: over any run with crashes, what was persisted and undelivered at its start is delivered in order or still persisted in order, up to the first Put that finds bytes at or past the write cursor buffered; there is none if the data ends at the write cursor at the start and after every crash |
| BufWriters.Writer.Flush | destination/bufwriter.go:53-80 | sent bytes followed by buffered bytes stay what was accepted; success empties the buffer, an error sticks |
| BufWriters.Writer.Overflow | destination/bufwriter.go:93-112 | makes progress, fails, or empties the buffer, and accepts exactly the reported prefix |
| BufWriters.Writer.Write | destination/bufwriter.go:92-120 | exactly the reported prefix is accepted, a short count implies an error, nothing is accepted or sent after an error, and the call terminates |
| Conns.WirePrefix | destination/conn.go:254-281 | the bytes of a prefix of the metrics are a prefix of the bytes |
| Conns.LinesOfWire | destination/conn.go:254-281 | a receiver that ends a line at every byte 10 reads exactly the metrics that were written, if none contains that byte |
| Conns.ReceivedLines | destination/conn.go:254-281 | whatever part of the wire has arrived, the lines completed are the first metrics, and among them are all that are on the wire in full |
| Conns.KeepSafe.Rotate | destination/keepsafe.go:35-49 | the recent generation becomes the old one |
| Conns.KeepSafe.GetAll | destination/keepsafe.go:57-64 | hands back both generations in order and resets them |
| Conns.Conn.Write | destination/conn.go:254-281 | the accepted bytes are a prefix of the encoded metric (its line, or its pickle), all of it unless an error is returned; a metric that cannot be pickled is skipped without an error |
| Conns.Conn.Receive | destination/conn.go:191-197 | taking a metric retains it |
| Conns.Conn.HandleTake | destination/conn.go:191-203 | the wire stays a prefix of the encoded metrics and the metric stays retained |
| Conns.Conn.HandleFlush | destination/conn.go:209-243 | after a successful flush every metric taken so far is on the wire in full, and a receiver of lines has read exactly those |
| Conns.Conn.HandleRotate | destination/keepsafe.go:51-55 | a rotation enters the history, and the retention buffer stays what the history says |
| Conns.Conn.GetRedo | destination/conn.go:152-167 | returns, in order, everything taken or queued but what had been taken before the last rotation but one |
| Conns.Retention | destination/keepsafe.go:35-49 | with at most one rotation since the last successful flush, everything not retained had been taken before that flush |
| Conns.SinceFlushOfScript | destination/conn.go:176-250 | which events take place, and where the loop stops, decide how many rotations there were since a flush |
| Conns.FewRotations | destination/keepsafe.go:46-56 | a run has exactly its script's rotations, which bounds those since a flush |
| Conns.HandleEvent | destination/conn.go:176-250 | a metric is taken whenever the loop runs and one is queued; flushes and rotations enter the history as they happen |
| Conns.Serve | destination/conn.go:176-250 | over any sequence of events no queued metric is lost between input and taken; every rotation takes place, and every flush up to where the loop stops |
| Conns.ServeAndCollect | destination/conn.go:149-250 | redo completeness: the redo slice is everything ever queued but what had been taken before the last rotation but one; if that had been taken before the last successful flush, all of it is fully on the wire; for a plain-text connection whose buffer holds everything and that does not fail, only then; a receiver of lines has then read every metric that is not handed back, and none that was not queued |
| Conns.CollectedIsComplete | destination/conn.go:152-167 | for a connection in any state: what is not handed back is on the wire if, and for an unwritten buffer only if, it had been taken before the last successful flush |
| Conns.CompleteIsRead | destination/conn.go:152-281 | where every metric that is not handed back is on the wire, a receiver of lines has read all of these, in order, and none that was not queued |
| Conns.FewRotationsSuffice | destination/keepsafe.go:35-56 | at most one rotation since the last successful flush, or few enough in the script, meets that condition |
| Conns.LostAfterTwoRotations | destination/keepsafe.go:24-27 | two rotations without a flush lose a metric that was never sent |
| Spools.FromSnoc | destination/spool.go:87-104 | what a source contributed grows by one message when one is taken from it |
| Spools.Spool.constructor | destination/spool.go:40-66 | a spool starts on whatever its disk queue holds |
| Spools.PipelineMoves | destination/spool.go:69-123 | moving a message between neighbouring stages changes nothing overall |
| Spools.Spool.TakeInput | destination/spool.go:87-104 | the writer takes one message at a time, from either source |
| Spools.AcceptedIsSubsequence | destination/spool.go:87-104 | what is taken is what was offered with the refused messages left out |
| Spools.Spool.PushToBuffer | destination/spool.go:92-104 | the held message goes to the end of the buffer while that has room, with a buffer of size 0 straight to the buffer loop if that is free, and otherwise stays |
| Spools.Spool.Store | destination/spool.go:110-123 | the held message ends up at the end of the disk queue |
| Spools.Spool.Unspool | destination/slowchan.go:8-19 | the slow channel, if free, takes the head of the disk queue, whenever there is one |
| Spools.HandleEvent | destination/spool.go:69-123 | every event moves exactly the message it should from its stage to the next, if it is enabled; a sync tick makes a sync due; the consumer gets what the slow channel held |
| Spools.Run | destination/spool.go:45-123 | exactly the inputs offered while the writer is free are taken, and what came out followed by everything held is what the disk queue held at the start and then an interleaving of the two inputs taken so far, each in its own order |
| Spools.Drain | destination/spool.go:69-123 | with no further input, serving the stages in turn terminates and delivers what the disk queue held at the start and then everything taken |
| Spools.Ingest | destination/spool.go:104-109 | bulk data enters in order and adds nothing else |
| Relays.Places.PutAccounted | destination/destination.go:276-301 | recording one more receipt and updating its place keeps the account of all metrics |
| Relays.Relay.NonBlockingSend | destination/destination.go:276-289 | a metric is queued, or dropped and counted exactly when the channel is full, which marks the loop as slow |
| Relays.Relay.NonBlockingSpool | destination/destination.go:293-301 | a metric goes to the spool, or is dropped and counted exactly when its input is full |
| Relays.Relay.Top | destination/destination.go:309-326 | a connection found dead at the top of the loop is given up and its redo data collected, and the spool is listened to exactly when there is a connection and nothing had to be dropped in a while |
| Relays.Relay.Connect | destination/destination.go:337-346 | a new connection replaces and closes the present one and starts with a clean slate |
| Relays.Relay.Dispatch | destination/destination.go:376-388 | an arriving metric meets exactly the one fate that the connection believed in, spooling and free room decide |
| Relays.Relay.Iterate | destination/destination.go:308-388 | one select case and the next check: an arriving metric is received, one from the spool if it was listened to, each with the fate that the state at the select decides, even if the connection has died since the check |
| Relays.Relay.Turn | destination/destination.go:308-388 | deaths and channel reads outside the loop change nothing the loop believes; every other turn ends with a check that gives up a dead connection |
| Relays.ReceivesTurn | destination/destination.go:372-388 | a turn receives what arrives, and what the spool offers if it was listened to |
| Relays.SealedTurn | destination/destination.go:308-346 | a connection once given up or replaced never comes back, and one that is down gets at most one more metric |
| Relays.TurnCollects | destination/destination.go:308-346 | a present or new connection that is dead when a select case ends is collected at the next check; one that is up stays present |
| Relays.TraceCollects | destination/destination.go:308-346 | over any run, every connection ever handed over is the present one, was replaced by a later one, or has been collected |
| Relays.TracePaces | destination/destination.go:337-358 | the loop is slow exactly if a metric was dropped for slowness since the last tick, or between that and the one before, not counting what was before the last new connection |
| Relays.TraceUnspools | destination/destination.go:320-375 | a metric that the spool offers is received exactly if there is a spool, a connection, and no drop for slowness since the last tick but one or the last new connection |
| Relays.TraceJustified | destination/destination.go:276-388 | over any run, every metric received has the fate that the connection believed in, spooling and free room allowed at that moment; drops for slowness happen only at a full channel |
| Relays.TraceRightKind | destination/destination.go:376-388 | over any run, nothing is dropped for want of a connection while there is a spool, and nothing goes to a spool that is not there |
| Relays.Run | destination/destination.go:265-389 | over any run, each turn follows from the one before; exactly the arriving metrics are received, in order, with some of those the spool offers; each is in one channel (queued or already taken from it) or one drop counter; nothing is queued on a connection after it has been given up or replaced, and at most one metric after it died; every connection is present, was replaced, or has been collected |
| Redo.CollectRedo | destination/destination.go:251-255 | the redo slice enters the spool's bulk input in order |
| Redo.NothingIsLost | destination/destination.go:251-255 | end to end: if what is no longer retained had been taken before the last successful flush, every metric queued on a dead connection is on the wire or comes out of the spool |
| Percentiles.LerpMonotone | aggregator/processor.go:272-274 | interpolation stays between its ends and follows the fraction |
| Percentiles.OrderStatistic | aggregator/processor.go:249-277 | the k-th smallest of n values is the percentile at k/(n+1), as method R6 defines it |
| Percentiles.StraightBetween | aggregator/processor.go:271-275 | between neighbouring values the percentile runs in a straight line |
| Percentiles.ConstantOutside | aggregator/processor.go:267-270 | ranks below the first and above the last value give that value |
| Percentiles.AtRankMonotone | aggregator/processor.go:263-277 | the value at a rank does not decrease with the rank |
| Percentiles.PercentilesOrdered | aggregator/processor.go:249-277 | percentiles are ordered like their percentages and lie within the data |
| Percentiles.OrderIrrelevant | aggregator/processor.go:261 | arrival order does not influence percentiles |
| Processors.SummarizesAdd | aggregator/processor.go:27-247 | adding a point keeps every processor's summary of the points seen |
| Processors.FlushIsBatch | aggregator/processor.go:14-301 | each incremental processor yields the batch value of its function over exactly its points: the derivative times the time between the oldest and the newest point is the difference of their values, the variance is n times the sum of squares less the square of the sum, over n squared |
| Processors.DeriveOfLine | aggregator/processor.go:117-124 | for points on a line with two different timestamps the derivative is the slope of the line |
| Processors.MeanSquareIsVariance | aggregator/processor.go:209-223 | the mean squared deviation is the variance |
| Processors.MedianOfOdd | aggregator/processor.go:249-280 | p50 of an odd number of values is the middle one |
| Processors.FlushPercentiles | aggregator/processor.go:253-280 | sorting in any way and visiting percentages in any order yields the specified percentiles |
| Processors.FlushStdev | aggregator/processor.go:209-223 | the loop computes the mean squared deviation |
| Sorting.SortedUnique | aggregator/processor.go:261 | a library sort has only one possible result when equivalent elements are equal |
| Aggregators.Quantize | aggregator/aggregator.go:291-292 | the aligned timestamp at or before a point's own, less than one interval away |
| Aggregators.FlushIsDue | aggregator/aggregator.go:175-200 | flushing a bucket emits exactly what the query yields for it |
| Aggregators.DueUnchanged | aggregator/aggregator.go:153-164 | a point accepted later changes no result already emitted |
| Aggregators.SortedIndex | aggregator/aggregator.go:141-144 | appending a timestamp and sorting restores a strictly increasing index |
| Aggregators.EmitResults | aggregator/aggregator.go:182-193 | every result of a processor is emitted once |
| Aggregators.EmitBucket | aggregator/aggregator.go:181-194 | every result of a bucket is emitted once, in whatever order the map yields |
| Aggregators.RecordedBucketsOk | aggregator/aggregator.go:131-164 | a bucket's processors have seen exactly the accepted points of their groups |
| Aggregators.RecordedCounted | aggregator/aggregator.go:134-160 | the bucket counter, modulo 2^32, counts exactly the accepted points |
| Aggregators.ClosedCounted | aggregator/aggregator.go:195-198 | what the reporter was told plus the live count stays the number of accepted points for every timestamp |
| Aggregators.CountedInTotal | aggregator/aggregator.go:126-198 | conservation in total: below 2^32 points, those accepted are those counted by live buckets plus those reported |
| Aggregators.Aggregator.AddOrCreate | aggregator/aggregator.go:126-166 | a point is accepted exactly if its bucket is recent or its group is still filling; otherwise it is counted as too old; index, buckets and counters stay consistent |
| Aggregators.Aggregator.CreateBucket | aggregator/aggregator.go:138-149 | a first-level bucket is created and indexed even for a point that will be too old |
| Aggregators.Aggregator.FlushBucket | aggregator/aggregator.go:180-198 | the earliest bucket's results follow everything emitted before |
| Aggregators.Aggregator.Flush | aggregator/aggregator.go:169-218 | all buckets up to the cutoff are emitted and removed, none at or before it is left, the index is compacted, the output stays the query's in time order |
| Aggregators.Aggregator.Compact | aggregator/aggregator.go:212-215 | the copy within the slice drops exactly the processed timestamps |
| Aggregators.Aggregator.MatchWithCache | aggregator/aggregator.go:253-279 | a cached answer is the answer of the match itself; the entry is there afterwards with the present time, and no other entry changes |
| Aggregators.Aggregator.EvictStale | aggregator/aggregator.go:305-316 | only stale entries are removed, and the cache ends up empty or with a fresh entry, at which it stopped; what is left is truthful |
| Aggregators.Aggregator.Handle | aggregator/aggregator.go:281-351 | one select changes the set of accepted points, the horizon and the too-old count as the specification says; a tick or a shutdown closes every bucket up to the wait period before it |
| Aggregators.Run | aggregator/aggregator.go:281-351 | under a clock that never goes back, the output is in time order and is exactly the group-by query over the closed buckets; matched points are the too-old ones plus all live plus all reported counts |
| Aggregators.RunToClose | aggregator/aggregator.go:293-347 | a run that ends in a shutdown or a tick has emitted every result up to the wait period before that, and leaves no bucket up to then |
| Aggregators.EmittedOnce | aggregator/aggregator.go:153-158 | no result of a key, function and timestamp is emitted twice |
| Aggregators.EmittedIsBatch | aggregator/aggregator.go:126-194 | every emitted value is the batch value over exactly its group's accepted points, in arrival order |
| Aggregators.EmittedSlope | aggregator/processor.go:117-124 | for a group whose accepted points lie on a line, the derivative emitted is the slope |
| HashRings.Server | route/consistent_hashing.go:80-82 | the host is everything before the first colon |
| HashRings.EntryOrder | route/consistent_hashing.go:32-36 | the ring's order is total up to equality and transitive |
| HashRings.StringLessIff | route/consistent_hashing.go:32-36 | strings compare at the first position where they differ, or by one ending there |
| HashRings.LeaderIsFirst | route/consistent_hashing.go:32-36 | what comes first on a position has the first host there, and for that host the first instance |
| Decimals.ItoaParses | route/consistent_hashing.go:93 | the decimal text of a number reads back as the number |
| HashRings.ReplicaKeyFormat | route/consistent_hashing.go:73-93 | what the key looks like with an instance and without |
| HashRings.ReplicaKeyInjective | route/consistent_hashing.go:73-93 | keys of different replicas differ, and so do keys of different host and instance unless a quote is in them |
| HashRings.ReplicaKeyOfServer | route/consistent_hashing.go:76-93 | the key depends on host, instance and replica alone |
| HashRings.ReplicasSpread | route/consistent_hashing.go:73-112 | without the fix, and for a hash that tells its keys apart, a destination takes as many positions as it has replicas |
| HashRings.FirstFreeIsFirstFree | route/consistent_hashing.go:95-106 | the probe's result is the first free position cyclically at or after the hash, whenever one is free |
| HashRings.Probe | route/consistent_hashing.go:95-106 | the probing loop terminates on that position |
| HashRings.RoomByCount | route/consistent_hashing.go:70-115 | probing always terminates while fewer than 65536 replicas are placed beforehand |
| HashRings.EntriesOneOwner | route/consistent_hashing.go:70-115 | with the fix, entries on one position belong to one destination after any sequence of additions |
| HashRings.ScanIsNearest | route/consistent_hashing.go:119-126 | in a sorted ring the linear scan with wraparound finds an entry on the position nearest going round, and the first one there |
| HashRings.LookupsAgreeIff | route/consistent_hashing.go:113-126 | lookups do not depend on how ties were sorted if and only if, on every position, the entries that may come first belong to one destination |
| HashRings.LeaderIsFound | route/consistent_hashing.go:113-126 | whichever entry may come first is what some sorted ring finds |
| HashRings.FixDetermines | route/consistent_hashing.go:93-107 | with the fix lookups are determined |
| HashRings.DistinctServersDetermine | route/consistent_hashing.go:32-36 | with or without the fix, lookups are determined if no two destinations share host and instance |
| HashRings.TiesShareServer | route/consistent_hashing.go:32-36 | entries that tie belong to destinations with one host and instance |
| HashRings.UnfixedDeterminedIff | route/consistent_hashing.go:32-126 | without the fix, lookups are determined if and only if no destination that leads some position shares its host and instance with another |
| HashRings.TwinsTie | route/consistent_hashing.go:32-126 | without the fix, of two destinations that share host and instance either can be what any lookup finds |
| HashRings.TieOrderMatters | route/consistent_hashing.go:32-126 | without the fix, every lookup among two destinations that differ only in their port depends on the order of ties |
| HashRings.MinimalDisruption | route/route.go:238-255 | after a destination is added and the ring rebuilt, every key keeps its destination or goes to the new one, provided lookups were determined before |
| Routes.ConsistentHasher.constructor | route/consistent_hashing.go:59-68 | adding destinations one by one yields a sorted arrangement of entries that depends on the list alone |
| Routes.ConsistentHasher.AddDestination | route/consistent_hashing.go:70-115 | the new entries are merged into a sorted ring |
| Routes.ConsistentHasher.NewEntries | route/consistent_hashing.go:73-112 | one entry a replica, each probed against the ring before the addition |
| Routes.ConsistentHasher.GetDestinationIndex | route/consistent_hashing.go:119-126 | binary search equals the linear successor scan with wraparound |
| Routes.Route.Add | route/route.go:247-264 | the configuration is replaced by one with a ring built from the longer list |
| Routes.Route.DelDestination | route/route.go:266-287 | removes one destination and rebuilds, or reports an invalid index and changes nothing |
| Routes.Route.Dispatch | route/route.go:142-153 | a line goes to the owner of its name; a line without a name goes nowhere |
| Routes.AddKeepsOwners | route/route.go:261-264 | minimal disruption as observed through two lookups around an addition, wherever lookups are determined |
| Routes.AddThenDelete | route/route.go:261-287 | adding a destination and deleting it again restores every lookup |
| Meters.QuantilesOrdered | statsmt/meter32.go:111-113 | quantiles are determined by the samples and ordered like their shares |
| Meters.StepKey | statsmt/meter32.go:120-124 | the running 32-bit count and 64-bit sum are the cumulative ones and do not overflow |
| Meters.WriteReached | statsmt/meter32.go:125-128 | a key is written for exactly the quantiles it is the first to reach |
| Meters.Meter32.ValuesUint32 | statsmt/meter32.go:74-93 | histogram, extremes and count describe the samples, modulo 2^32, and the histogram gains this value and no other |
| Meters.Meter32.ValueUint32 | statsmt/meter32.go:53-72 | one more sample |
| Meters.Meter32.Quantiles | statsmt/meter32.go:116-129 | the single pass writes each of the three quantiles exactly once and computes the exact sum |
| Meters.Meter32.ReportGraphite | statsmt/meter32.go:95-142 | below 2^32 samples the report is, by name and in this order, the true median, 75% and 90% quantile, in order between the extremes, then the minimum, the mean rounded down, the maximum and the count, with the rate over the measuring period, and a new period starts; an empty meter reports nothing and its period goes on |
| Schemas.PackExactIff | persister/whisper_schema.go:139 | the packed priority is exact exactly when it fits into 64 bits |
| Schemas.PackOrders | persister/whisper_schema.go:139 | wherever packing is exact, packed priorities order like priority first, file position second |
| Schemas.PackWraps | persister/whisper_schema.go:139 | at priority -2^31 the second section wraps to the top |
| Schemas.ReadWhisperSchemas | persister/whisper_schema.go:104-152 | reports the first faulty section and its fault, or returns a permutation of the sections, each with its own name, pattern, retentions and packed priority (0 if it states none), with higher priorities first |
| Schemas.Match | persister/whisper_schema.go:39-46 | the first schema whose pattern matches, if any |
| Schemas.Choose | persister/whisper_schema.go:36-46 | the chosen schema belongs to the matching section of highest priority, the earliest among equals, and carries its retentions |
| Matchers.RegexToPrefix | matcher/matcher.go:136-160 | the scan yields the literal run after an anchor |
| Matchers.PrefixOfItems | matcher/matcher.go:136-160 | on a printed pattern that is its plain literals plus the literal before the first quantifier |
| Matchers.PrintPrefix | matcher/matcher.go:136-160 | the prefix extracted from a printed pattern is the run of its first alternative, if that is anchored |
| Matchers.ExactIsSound | matcher/matcher.go:134-135 | under the condition `Exact` on the pattern every matching input has the prefix, whatever the constructs other than literals mean |
| Matchers.InexactIsUnsound | matcher/matcher.go:134-135 | without it, some input is matched and lacks the prefix |
| Matchers.SoundIffExact | matcher/matcher.go:134-135 | for patterns made of literals the prefix is sound if and only if the condition holds |
| Matchers.AlwaysSoundIffExact | matcher/matcher.go:134-135 | for all patterns the prefix is sound for every meaning of the other constructs if and only if the condition holds |
| Matchers.OneAlternativeExactIff | matcher/matcher.go:134-160 | without alternation the condition says that the literal at which the scan stops cannot be left out, or comes again past everything that can |
| Matchers.OptionalLiteralIsUnsound | matcher/matcher.go:134-135 | a literal run ending in an optional literal matches an input without the prefix |
| Matchers.AlternationIsUnsound | matcher/matcher.go:134-135 | a second alternative matches an input without the prefix |
| Matchers.MatchIsMeant | matcher/matcher.go:72-96 | for such patterns the filtered match equals the six conditions, stated one by one |
| Matchers.PreMatchIsNecessary | matcher/matcher.go:98-119 | what the quick check discards is not a match, and under the condition not meant to be one |
| Matchers.PreMatchIff | matcher/matcher.go:98-119 | the quick check decides exactly the four conditions on fixed strings and the prefix of the regex |
| Matchers.FilterExactIff | matcher/matcher.go:85-95 | a matcher with one regex, plain or negated, evaluates it as meant on every input and for every meaning if and only if the pattern meets the condition |

## Left out

- Real files and fsync, I/O errors other than a missing or damaged data file, short reads from a regular file, and a corrupt metadata file.
- DiskQueues.DiskQueue.Empty: one atomic step; a crash in the middle of it is not modelled, because the messages concerned were meant to be discarded.
- DiskQueues.DiskQueue.HandleReadError: recovery after a further crash is shown for a missing file only (`SkipFile`); after damage it holds again from the next sync, which is already scheduled.
- DiskQueues.DiskQueue.Put: promises nothing for a reader that has buffered bytes at or past the write cursor (see `TameIff`), nor for a write file that is damaged.
- DiskRuns.DamagedRun: covers damage that makes a read fail; not damage that decodes as another frame, nor a negative length, on which the source panics. It stops at a Put into a damaged file.
- DiskRuns.RunAndCrash: the bound is for a positive `syncEvery`; with any other the loop never syncs by count, as in the source: only sync ticks, changes of a file and a reset of the depth make it sync.
- DiskRuns.CrashyRun: stops at a Put that finds stale bytes buffered, and takes what a clean Close persists as synced, while the source closes the data file before it persists the metadata, so that after a Close the bytes reach the disk only with the operating system's own write-back.
- Delete of the disk queue and the shutdown of the spool stages.
- Conns.Conn.HandleTake: taking a metric and retaining it is one atomic step, as is getRedo.
- Conns.Conn.Write: what a pickle looks like is a parameter.
- Relays.Relay.Connect: a replaced connection is closed without its redo data being collected, as in the source; scheduling of reconnects, flushing and shutdown are not modelled.
- Dialing, end-of-file detection, listeners, and the other outputs (Kafka, PubSub, CloudWatch, GrafanaNet): network plumbing.
- Spools.Spool.constructor: a disk queue whose write file has bytes at or past the write cursor is not covered, because a Put into it may be misread (`TameIff`).
- Spools.Run: shutdown channels and pacing are not modelled.
- Aggregators.Aggregator.AddOrCreate: processors are values stored in the map, so sharing of processor objects is not modelled; the formatting of output lines and AddMaybe are left out.
- Aggregators.Run: assumes a clock that never goes back, ticks not from the future and times not before the wait period, as the source does.
- Processors.FlushIsBatch: rounding of floating-point sums is not modelled and the square root is a parameter.
- HashRings.ReplicasSpread: with the fix, replicas of one destination are probed against the ring before the addition, as in the source, so two of them may still end up on one position.
- Routes.Route.DelDestination: configurations are values, so the backing array that an old configuration shares with the new one is not modelled; nor are matchers and running destinations.
- Meters.Meter32.ReportGraphite: exact mode only; rounding of the 0.9 share and of the rate is left out.
- Schemas.ReadWhisperSchemas: the INI reader, retention definitions and pattern compilation are parameters.
- Matchers.ExactIsSound: for one particular meaning of the other constructs the condition is only sufficient; `^ab?[b]` is sound for what `[b]` means and does not meet it.
- Matchers.WellFormedItem: groups that set flags, quoting with `\Q`, escapes longer than one character, nested brackets in a class and an unescaped brace taken literally are not patterns of the model.
