# Event buffers: a verified model

vamos-buffers carries events from a monitored program (the source) to a monitor (the
consumer) through three layers: a lock-free ring in shared memory, a fetcher thread that
drops events while its output is too full and records what it dropped as hole events, and
a second lock-free ring, the arbiter buffer, that the consumer reads. String payloads live
beside the events in auxiliary buffers that the source reuses once their events are known
to be processed or dropped.

The project models the three layers and the string store, and proves what each promises
and what they promise together.

| file | what it holds |
|---|---|
| Basics | what several modules share |
| RingIndex | index arithmetic of the single-producer single-consumer ring |
| SpscRun | the ring as two interleaved threads with stale loads of each other's index |
| Ringbuf, ParQueue | the ring and the queue on top of it as objects |
| RingLayers | what the arbiter ring answers and what the queue of the pipeline answers; every run of the pipeline as a run of the ring |
| RingPipeline | the pipeline with the ring itself in place of the queue, and its runs as runs of the pipeline |
| EventLog | logs of events and holes: what they stand for, and the count that a bound drops |
| Pipeline | source, fetcher and consumer as one state machine |
| PipelineInvariant | its invariant, kept by every step of every thread |
| PipelineTheorems | what follows for every reachable state |
| PipelineProgress | what each thread does uninterrupted, when it answers for good, which events it drops and which ranges it records |
| PipelineRuns, PipelineWitnesses | putting runs together; runs that reach what may go wrong |
| ArbiterSpec, ArbiterBuffer | the fetcher's decision as one function, tied to the machine; the arbiter buffer as an object, with the search of `drop_older_than` |
| SharedInfo | the published last processed identifier and the ring of five dropped ranges |
| AuxPool, AuxBuffers | string buffers, on values and updated in place |
| EndToEnd | the pipeline together with the string store, every read of the shared header a step of its own |
| LinkedList, EmbeddedList | the two heap lists |
| ShmBuffer | the shared-memory ring byte for byte, with piecewise pushes |
| SourceControl, SourceRecords | the parser of event descriptions; what its records and its failures say about the description |
| StreamCache | the cache of event records by kind |

How the layers fit together: SpscRun shows that the ring is a bounded FIFO queue under
every interleaving, with stale index loads. Pipeline therefore keeps its two rings as queues, but
still lets the fetcher see any tail between the last one it loaded and the current one.
RingPipeline puts the arbiter ring itself in the place of the queue, every index load and slot
access a step of its own, and shows that whatever the threads do on the ring is a run of
Pipeline (`RingPipeline.RunsOnTheRing`); RingLayers shows the converse, that the ring has a
run for each run of Pipeline (`RingLayers.EveryRunIsARingRun`). ArbiterSpec and EndToEnd show
that the sequential operations of the classes ArbiterBuffer and AuxBuffers are runs of these
machines in which no other thread moves.

What the consumer publishes is its own affair: it may drop, drop older entries with any
bound, pop, and publish any identifier by hand that is not below the last one, as
src/shmbuf/buffer.c:372-373 asserts. Everything about the log, the counts, the space, the
end of the stream and the strings of needed events holds for all of these runs. A payload
is *needed* while its event was neither published as processed nor dropped by the fetcher; it may
have left the arbiter buffer already. What the consumer may still come to (it is *live*:
not forwarded yet, or buffered) stays needed if the consumer is *careful*: the bounds of
`drop_older_than` do not exceed the newest buffered identifier, and what is published by
hand was taken before.

What the code does not give, and how it is stated here:

- `vms_spsc_ringbuf_consume` needs the elements to have been *seen*: being present is not
  enough (`RingIndex.ConsumeRepresents`, with an example in `RingIndex.ConsumeUnseenBreaksCache`).
- `get_write_off` reports a contiguous run that reaches past the end for an empty ring whose
  head is above 1; only the sum of its two parts is right (`RingIndex.ContiguousPart`).
- The hole written at the end of a stream carries an identifier one too small
  (src/core/arbiter.c:470). The log is a lossless encoding of the input exactly when no such
  hole was written (`PipelineTheorems.LosslessIffNoEndHole`), that is, when no dropped event was
  pending as the stream was found at its end (`PipelineTheorems.LosslessIffNothingPending`).
  It shows in its last entry (`PipelineTheorems.EndHoleIsVisible`); `PipelineWitnesses.LossyLogIsReached` is a run that
  writes one. The counts stay exact either way, and so do the identifiers once that hole is
  read as one later. When a single event was being dropped then, the range recorded for it is
  empty (`PipelineTheorems.EmptyRangeIff`, `PipelineWitnesses.EmptyRangeIsReached`).
- `vms_arbiter_buffer_drop` with 0 drops everything (src/core/arbiter.c:78).
- `vms_arbiter_buffer_drop_older_than` publishes its argument rather than the identifier it
  found; `PipelineTheorems.DropOlderSafeIff` says exactly when that is safe, and
  `PipelineWitnesses.CarelessBoundIsReached` gives a run in which an event that was not
  even read is published as processed.
- The adjacency test of the dropped ranges (src/shmbuf/buffer.c:607) is false on every
  call that records a range (`PipelineTheorems.AdjacencyTestIsDead`).
- The debug assertions inside the binary search (src/core/arbiter.c:155 and 163) do not hold
  for a one-element run; the search is modelled as it runs without them.
- `vms_list_prepend` leaves the backward links in order only when the list was empty
  (`LinkedList.List.Prepend`).
- A cached lookup of a small kind that was never registered reads an entry that was never
  filled, and a kind that two different records have is looked up as the last of them
  (`StreamCache.CacheAgreesIff`, `StreamCache.CacheMayDisagree`).
- A comma inside an event's name may stand in for the trailing one
  (`SourceControl.OnlyPrintingsAreAccepted`). A field of 63 characters or more does not fit
  the local arrays of `vms_source_control_define_str`, and an unknown operand aborts; both are outcomes of the model.

## Model

| member | source | states |
|---|---|---|
| RingIndex.MixedIndicesExact | src/core/spsc_ringbuf.c:29-168 | every mix of a fresh and a stale index gives an exact count: written, free, seen by the reader, known free to the writer |
| RingIndex.WrittenNumExact | src/core/spsc_ringbuf.c:29-55 | the two differences are exact for counters less than a round apart, at any wrap |
| RingIndex.PublishRepresents | src/core/spsc_ringbuf.c:244-266 | publishing no more than the writer knows to be free keeps SR <= R <= SW <= W <= SR + C - 1 and the four fields equal to them modulo C |
| RingIndex.ConsumeRepresents | src/core/spsc_ringbuf.c:297-309 | consuming n keeps that relation if and only if n elements were seen |
| RingIndex.ConsumeUnseenBreaksCache | src/core/spsc_ringbuf.c:297-309 | a ring where consuming a present but unseen element makes the cache claim three elements in an empty ring |
| RingIndex.ContiguousPart | src/core/spsc_ringbuf.c:137-168 | the reported contiguous part is exactly what is free up to the end of the slots if and only if the indices differ or the head is at most 1 |
| RingbufModule.Ringbuf.constructor | src/core/spsc_ringbuf.c:9-19 | a new ring is empty |
| RingbufModule.Ringbuf.Size | src/core/spsc_ringbuf.c:107-111 | the number of published, unconsumed elements |
| RingbufModule.Ringbuf.Free | src/core/spsc_ringbuf.c:118-122 | capacity less one less that number |
| RingbufModule.Ringbuf.Empty | src/core/spsc_ringbuf.c:113-116 | true exactly when nothing is in the ring |
| RingbufModule.Ringbuf.Full | src/core/spsc_ringbuf.c:130-134 | true exactly when no slot is free |
| RingbufModule.Ringbuf.WriteOff | src/core/spsc_ringbuf.c:170-185 | offers all slots it knows to be free, split at the end of the slots; none exactly when the ring is full; the tail is reloaded exactly when none was known to be free |
| RingbufModule.Ringbuf.WriteOffNowrap | src/core/spsc_ringbuf.c:187-205 | none offered exactly when the ring is full; the tail is reloaded exactly when none was known to be free or its copy is 0 |
| RingbufModule.Ringbuf.Acquire | src/core/spsc_ringbuf.c:208-224 | fewer than asked for only after a fresh load, and then all that are free |
| RingbufModule.Ringbuf.AcquireNowrap | src/core/spsc_ringbuf.c:227-242 | offers the first run of the free slots; the free slots known are fewer than asked for only after a fresh load |
| RingbufModule.Ringbuf.WriteFinish | src/core/spsc_ringbuf.c:244-266 | exactly n more elements are published |
| RingbufModule.Ringbuf.ReadOffNowrap | src/core/spsc_ringbuf.c:268-279 | none offered exactly when the ring is empty; the head is reloaded exactly when no seen element was left |
| RingbufModule.Ringbuf.ReadAcquire | src/core/spsc_ringbuf.c:281-292 | fewer than asked for only after a fresh load |
| RingbufModule.Ringbuf.Consume | src/core/spsc_ringbuf.c:297-309 | exactly n more elements are consumed |
| RingbufModule.Ringbuf.ConsumeUpto | src/core/spsc_ringbuf.c:315-335 | consumes min(n, size) however stale the cache was |
| RingbufModule.Ringbuf.Peek | src/core/spsc_ringbuf.c:338-378 | two runs of slots covering min(n, seen) elements, the second one from slot 0 and only after the first reached the end |
| SpscRun.StepKeepsInv | src/core/spsc_ringbuf.c:170-335 | every step of writer or reader, loads stale or fresh, keeps the invariant of the shared ring |
| SpscRun.FifoOnEveryRun | src/core/par_queue.c:31-73 | on every run consumed followed by in flight is exactly what was pushed, in order, and less than the slots are in flight |
| SpscRun.StepRefinesFifo | src/core/par_queue.c:31-73 | each step is a step of a bounded FIFO queue or none: what comes out is a prefix of what was sent, element for element |
| RingPipeline.RingStepIsQueueStep | src/core/spsc_ringbuf.c:187-335 | with the ring in place of the queue: every access of fetcher or consumer to an index, a cache or a slot, with stale loads, is a step on the queue or none |
| RingPipeline.FreshDecision | src/core/arbiter.c:74-213 | after a look into the ring that missed nothing, both drops decide what they would on the queue |
| RingPipeline.RunsOnTheRing | src/core/par_queue.c:31-73 | so every run on the ring reaches only states of the pipeline, and the consumer gets the entries of the log in order, each as written |
| RingLayers.StepIsARun | src/core/par_queue.c:31-73 | every step of the pipeline, with a stale load of the tail or a fresh one, is a run of the two-sided ring that keeps it equal to the queue |
| RingLayers.EveryRunIsARingRun | src/core/par_queue.c:31-73 | and so is every run of the pipeline from the start, from the empty ring on; what came out of the ring are the entries of the log, up to the number taken |
| RingLayers.AskAgrees | src/core/spsc_ringbuf.c:187-205 | whatever write_ptr does on the ring: an answer from the cache is one the queue gives by any load, and after a load both answers are equal |
| RingLayers.AskIsARun | src/core/par_queue.c:31-38 | the run of write_ptr hands out a slot if and only if the queue has room by the same load |
| RingLayers.FillAgrees | src/core/par_queue.c:40-42 | filling the slot and write_finish append exactly that entry |
| RingLayers.LookAgrees | src/core/par_queue.c:97-160 | whatever the consumer finds on the ring: some element if and only if the queue has one, as many of those it wants as there are, and the oldest entries in the slots |
| RingLayers.ConsumeAgrees | src/core/par_queue.c:71-73 | consuming n elements offered takes the n oldest entries |
| RingLayers.SizeIsExact | src/core/spsc_ringbuf.c:107-111 | the size of the ring is that of the queue |
| RingLayers.FreeSpaceIsExact | src/core/spsc_ringbuf.c:118-122 | the free number by any load of the tail is that of the queue by the same load |
| SpscRun.SidesNeverShareASlot | src/core/par_queue.c:31-73 | a slot between write_ptr and write_finish is none the reader may look at |
| SpscRun.TouchedSlotIsFree | src/core/par_queue.c:31-42 | nor one that holds any published, unconsumed element |
| SpscRun.ReadIsExact | src/core/par_queue.c:60-69 | a slot offered to the reader holds the element pushed with that number |
| SpscRun.ReadsNeverTear | src/core/par_queue.c:60-69 | while the reader holds an offered slot its content does not change, whatever the writer does |
| SpscRun.NoSpaceMeansFull | src/core/spsc_ringbuf.c:187-205 | no space after a reload exactly when the ring was full by the value loaded |
| SpscRun.NoElementMeansEmpty | src/core/spsc_ringbuf.c:268-279 | no element after a reload exactly when the ring was empty by the value loaded |
| SpscRun.FailureNeedsReload | src/core/spsc_ringbuf.c:187-279 | without a reload the single-slot operations never fail, and never offer more than there is |
| ParQueueModule.SegmentsUnroll | src/core/par_queue.c:97-110 | for every wrap position the two runs concatenate to one stretch of the queue |
| ParQueueModule.UnrollUnchanged | src/core/par_queue.c:31-42 | filling a slot outside the queue leaves the queue as it is |
| ParQueueModule.ParQueue.WritePtr | src/core/par_queue.c:31-38 | NULL exactly when the queue is full |
| ParQueueModule.ParQueue.WriteFinish | src/core/par_queue.c:40-42 | what was put into the slot becomes the newest element |
| ParQueueModule.ParQueue.Push | src/core/par_queue.c:47-58 | appends the element, or fails exactly when full and changes nothing |
| ParQueueModule.ParQueue.Pop | src/core/par_queue.c:60-69 | removes and returns the oldest element, or fails exactly when empty |
| ParQueueModule.ParQueue.Drop | src/core/par_queue.c:71-73 | removes the k oldest elements that were seen |
| ParQueueModule.ParQueue.Top | src/core/par_queue.c:87-94 | the oldest element, NULL exactly when empty |
| ParQueueModule.ParQueue.Peek | src/core/par_queue.c:97-110 | the two runs hold, in order, the first min(n, seen) elements; all of them for n = 0 |
| ParQueueModule.ParQueue.PeekAt | src/core/par_queue.c:122-137 | element k, NULL exactly when there is none |
| ParQueueModule.ParQueue.PeekAtmostAt | src/core/par_queue.c:139-160 | element min(k, size - 1) and that index |
| EventLog.GapFreeExpands | src/core/arbiter.c:490-567 | a gap-free log expands to 1, 2, ... each once, in order |
| EventLog.EndHoleExpands | src/core/arbiter.c:460-488 | with the hole of the stream's end the number of identifiers is right and the identifiers are not |
| EventLog.OlderCountExact | src/core/arbiter.c:98-213 | an entry is among those to be removed if and only if its identifier is at most the bound, but for a last one that repeats the bound |
| EventLog.EveryIdAccounted | src/core/arbiter.c:460-567 | either shape of log accounts for 1, 2, ... each once, in order, reading a last hole that is one short as one later; the shape shows in the last entry |
| EventLog.LogAscends | src/core/arbiter.c:438-567 | the identifiers of the fetcher's logs ascend, as the search needs |
| PipelineInvariant.StepKeepsInv | src/core/arbiter.c:393-567 | every step of source, fetcher and consumer keeps the invariant of the pipeline |
| PipelineInvariant.RunKeepsInv | src/core/shamon.c:53-68 | and so does every run |
| PipelineInvariant.CarefulStepKeepsSafe | src/core/arbiter.c:74-94 | with a careful consumer every step keeps what was published, or is about to be, below everything live |
| PipelineTheorems.AdjacencyTestIsDead | src/shmbuf/buffer.c:602-611 | the test end == begin - 1 is false on every call that records a range |
| PipelineTheorems.LosslessIffNothingPending | src/core/arbiter.c:460-488 | when fetch has returned NULL, the log expands to exactly the events pushed if and only if dropped_num was 0 when the stream was found at its end |
| PipelineTheorems.LosslessIffNoEndHole | src/core/arbiter.c:460-567 | in every reachable state between events: log expanded plus pending events is the input 1..consumed if and only if the log does not end in a hole one short; its number is always right, and its identifiers with that hole read as one later |
| PipelineTheorems.EndHoleIsVisible | src/core/arbiter.c:460-488 | the log ends in a hole one short if and only if the stream's end wrote one |
| PipelineWitnesses.LossyLogIsReached | src/core/arbiter.c:460-488 | a run whose log stands for 1, 2, 2 though 1, 2, 3 were read |
| PipelineTheorems.LogIsOrdered | src/core/arbiter.c:490-567 | no two holes are adjacent; identifiers strictly increase, but for a hole at the stream's end that stands for one event |
| PipelineTheorems.Conservation | src/core/arbiter.c:438-538 | consumed = forwarded + total dropped + pending, and writes = forwarded + times dropped |
| PipelineTheorems.SpaceGuarantee | src/core/arbiter.c:438-450 | for every threshold 1 <= thr < capacity no hole push and no write pointer ever fails, whatever the consumer does and however stale the loads are |
| PipelineProgress.DropsOnlyWhenItMust | src/core/arbiter.c:542-567 | in every reachable state and by any load: with nothing being dropped an event is dropped if and only if the buffer is full; in a run of dropped events, if and only if not more than the threshold is free |
| PipelineTheorems.EmptyBufferFlushes | src/core/arbiter.c:542-567 | with an empty buffer a pending hole is pushed on the next decision, with exactly this identifier |
| PipelineTheorems.NullOnlyWhenDrained | src/core/arbiter.c:393-488 | fetch returns NULL only when the source is destroyed, the ring drained and nothing pending; the log then accounts for every event pushed, for good |
| PipelineProgress.ReadReaches | src/core/arbiter.c:393-436 | with an event to read, fetch comes to decide about the next one |
| PipelineProgress.EndIsFound | src/core/arbiter.c:393-436 | with the source gone and its ring drained, fetch finds the end of the stream |
| PipelineProgress.FetchReturnsNull | src/core/arbiter.c:460-488 | from there it returns NULL as soon as more than the threshold is free, having written one hole if events were pending, else none and at once |
| PipelineTheorems.IsDoneIsSound | src/core/arbiter.c:661-676 | if is_done answers true, the entries taken expand to exactly the identifiers 1..pushed (the hole of the stream's end read as one later), and nothing is pushed or written afterwards |
| PipelineProgress.IsDoneIff | src/core/arbiter.c:661-676 | an uninterrupted is_done answers true if and only if the source is gone, its ring drained, no dropped event pending and every entry taken |
| PipelineTheorems.QuietForever | src/streams/stream-generic.c:14-19 | once destroyed, drained and with nothing pending, no run changes the log |
| PipelineTheorems.GarbageCollectionIsSafe | src/core/arbiter.c:74-94 | with a careful consumer, an event not yet forwarded or still buffered is above the last processed identifier and in no recorded range |
| PipelineTheorems.NeededIsNotDropped | src/shmbuf/buffer.c:602-626 | with any consumer, an event above the last processed identifier that was not dropped is in no recorded range |
| PipelineTheorems.NeededShrinks | src/shmbuf/buffer.c:370-375 | no step makes a payload needed again |
| PipelineTheorems.LiveIsNeeded | src/core/arbiter.c:74-94 | with a careful consumer, what is not forwarded or still buffered is needed |
| PipelineTheorems.PublishingIsMonotone | src/shmbuf/buffer.c:370-375 | the assertion that published identifiers do not decrease holds at every drop of a careful consumer |
| PipelineTheorems.RangesHoldOnlyLost | src/shmbuf/buffer.c:602-626 | a recorded range holds only events that were read and never forwarded |
| PipelineProgress.RangesKeepUp | src/core/arbiter.c:438-538 | in every reachable state: the range recorded for the events being dropped is less than 10000 of them behind, and after a hole it holds exactly the identifiers from its first event to its own |
| PipelineTheorems.EmptyRangeIff | src/core/arbiter.c:460-488 | a range recorded is empty if and only if the stream ends while exactly one event is being dropped |
| PipelineWitnesses.EmptyRangeIsReached | src/core/arbiter.c:460-488 | a run that records the range 3..2 |
| PipelineTheorems.LiveShrinks | src/core/arbiter.c:74-94 | no step makes an event reachable again |
| PipelineTheorems.DropOlderSafeIff | src/core/arbiter.c:114-133 | publishing the bound protects every live event if and only if the fetcher has handled the bound; while nothing is dropped, if and only if it is at most the newest buffered identifier |
| PipelineTheorems.DropOlderReaches | src/core/arbiter.c:98-213 | the state it speaks of is the one that drop_older_than reaches uninterrupted |
| PipelineProgress.DropReaches | src/core/arbiter.c:74-94 | drop(k), uninterrupted, takes k entries, or all of them if there are fewer or k is 0, and publishes the last one's identifier |
| PipelineWitnesses.CarelessBoundIsReached | src/core/arbiter.c:114-133 | a run in which an event that was not read yet is published as processed |
| ArbiterSpec.HandleIsARun | src/core/arbiter.c:438-567 | the fetcher's decision as one function is the run of the machine in which only the fetcher moves |
| ArbiterSpec.ManagedIsARun | src/core/shamon.c:53-68 | what the buffer manager does with an event is the fetcher's run up to its next read |
| ArbiterBufferModule.FindOlder | src/core/arbiter.c:140-197 | the binary search finds exactly the number of entries to remove, in at most 1 + ceil(log2(n - 1)) <= n iterations |
| ArbiterBufferModule.Narrow | src/core/arbiter.c:148-175 | one iteration either ends at the split or keeps what the search knows and halves its range |
| ArbiterBufferModule.SearchParts | src/core/arbiter.c:115-133 | searching one of the two runs gives the count for the whole queue |
| ArbiterBufferModule.SplitIsOlderCount | src/core/arbiter.c:176-197 | the position where the search stops is the count to remove |
| ArbiterBufferModule.ArbiterBuffer.Drop | src/core/arbiter.c:74-94 | drops min(k, size) entries, all for k = 0, and publishes the last one's identifier |
| ArbiterBufferModule.ArbiterBuffer.DropOlderThan | src/core/arbiter.c:98-213 | across the wrap and both runs: drops exactly the entries up to the bound and publishes the bound, or does nothing; what is left is in order and above what was published |
| ArbiterBufferModule.ArbiterBuffer.PushDroppedEvent | src/core/arbiter.c:438-458 | appends the hole if there is room, and counts it and records its range either way |
| ArbiterBufferModule.ArbiterBuffer.HandleDroppingEvent | src/core/arbiter.c:542-567 | the event is dropped if and only if the buffer is full, or, in a run of dropped events, not more than the threshold is free; a dropped one is counted and consumed; else the pending hole, if there is one, is the newest entry and there is room for the event |
| ArbiterBufferModule.ArbiterBuffer.ManageEvent | src/core/shamon.c:53-68 | by the same condition the contents stay, or are the old ones, the pending hole if there is one, and the event; a newer event keeps the buffer in order |
| ArbiterBufferModule.ArbiterBuffer.ForwardEvent | src/core/shamon.c:63-67 | with a slot free, the event becomes the newest entry |
| ArbiterBufferModule.ArbiterBuffer.SetDropSpaceThreshold | src/core/arbiter.c:62-70 | the new threshold, and the one before it |
| ArbiterSpec.ManagedInOrder | src/core/arbiter.c:542-567 | forwarding a newer event, with or without a hole in front, keeps the buffer in order |
| SharedInfo.NotifyChangesOneSlot | src/shmbuf/buffer.c:602-626 | one of the five slots changes: the current one if and only if it begins at the same event or the adjacency test fires; it becomes the range to record if and only if the test is false or has no effect |
| SharedInfo.NewRangeTakesNextSlot | src/shmbuf/buffer.c:602-626 | a range that does not begin where the current one does goes to the next slot, after the fifth to the first |
| SharedInfo.LastFiveAreRecorded | src/shmbuf/buffer.c:602-626 | of separate ranges recorded one after the other, the last five are there, each in its slot |
| AuxBuffersModule.SharedHeader.NotifyDroppedRange | src/shmbuf/buffer.c:602-626 | the in-place update, as the function the machines use |
| AuxBuffersModule.SharedHeader.CoversDropped | src/shmbuf/buffer-aux.c:107-122 | true exactly when one recorded range covers first..last |
| AuxPool.PackRoundTrip | src/shmbuf/buffer.c:577-600 | a reference gives back its offset, and its buffer if and only if that is below 2^32 |
| AuxPool.NewSize | src/shmbuf/buffer-aux.c:56-66 | a new buffer with its header fills whole pages, and has more room than asked for, by one to two pages |
| AuxPool.ScanKeepsOk | src/shmbuf/buffer-aux.c:125-160 | from any position of the list the loop ends with a current buffer that has room, the age list a permutation with that buffer last |
| AuxPool.GetAuxKeepsOk | src/shmbuf/buffer-aux.c:125-160 | the buffer handed out has room for the string, so the copy stays in bounds |
| AuxPool.GetAuxReuses | src/shmbuf/buffer-aux.c:125-160 | when the current buffer lacks room, the oldest buffer that is large enough and is free, processed or dropped becomes current, empty and youngest, and the order of the others is kept; the spent ones passed by are emptied; a new buffer is made if and only if there is none |
| AuxPool.StoreKeepsOk | src/shmbuf/buffer.c:563-600 | storing a string keeps the pool in order and the string reads back |
| AuxPool.WriteHolds | src/shmbuf/buffer.c:563-600 | the bytes lie right behind what was there, nothing else changes, and the buffer's events reach from the first one stored since it was empty to this one |
| AuxBuffersModule.AuxBuffers.CopyIn | src/shmbuf/buffer.c:563-600 | the same, in place; the result is where the bytes lie |
| AuxPool.WriteSpares | src/shmbuf/buffer.c:563-575 | writing one string leaves every other intact |
| AuxPool.ResetSparesOthers | src/shmbuf/buffer-aux.c:136-146 | a reset hurts no string of another buffer |
| AuxBuffersModule.AuxBuffers.NewAuxBuffer | src/shmbuf/buffer-aux.c:56-105 | one more buffer, youngest and current, in use and with room for the string |
| AuxBuffersModule.AuxBuffers.GetAuxBuffer | src/shmbuf/buffer-aux.c:125-160 | the loop over the age list, in place: nothing changes while there is room; else the oldest usable buffer is reused, or one is added if and only if there is none; the current buffer then has room |
| AuxBuffersModule.AuxBuffers.PushStrN | src/shmbuf/buffer.c:590-600 | the bytes are stored for their event, intact, and the packed reference leads back to them |
| AuxBuffersModule.AuxBuffers.PushStr | src/shmbuf/buffer.c:577-588 | the packed reference leads back to the zero-terminated string |
| EndToEnd.StringsSurvive | src/shmbuf/buffer-aux.c:125-160 | on every interleaved run, a string whose event is neither published as processed nor dropped reads back byte for byte, also after its event was taken out of the buffer |
| EndToEnd.ReferencesSurvive | src/shmbuf/buffer.c:577-600 | and it does so through its packed reference, if no string is close to 2^32 bytes and at most 2^32 buffers were created |
| EndToEnd.RunKeepsAddressable | src/shmbuf/buffer.c:563-575 | then the assertion that offsets are below 2^32 holds on every run |
| EndToEnd.StringsOfLiveEventsSurvive | src/shmbuf/buffer-aux.c:125-160 | with a careful consumer, this covers every event not yet forwarded or still buffered |
| EndToEnd.StringsOfUnpushedEventsAreLive | src/shmbuf/buffer.c:563-600 | the event being built is live |
| EndToEnd.ReclaimableIsUnneeded | src/shmbuf/buffer-aux.c:107-146 | a buffer found reclaimable holds no string that is still needed |
| EndToEnd.SystemStepKeepsInv | src/shmbuf/buffer-aux.c:125-160 | every step of every thread keeps the invariant of the whole system |
| EndToEnd.ScanIsARun | src/shmbuf/buffer-aux.c:125-160 | the sequential loop is the run in which no other thread moves |
| EndToEnd.StoringIsARun | src/shmbuf/buffer.c:563-600 | storing a string from start to end without interference is the run in which no other thread moves |
| LinkedList.List.AppendElem | src/core/list.c:95-108 | the element becomes the last; all links and the size consistent |
| LinkedList.List.Append | src/core/list.c:78-93 | a new node with the data becomes the last |
| LinkedList.List.InsertElemAfter | src/core/list.c:19-33 | the element comes right after the given one |
| LinkedList.List.InsertAfter | src/core/list.c:35-41 | a new node right after the given one |
| LinkedList.List.InsertBefore | src/core/list.c:43-61 | a new node right before the given one |
| LinkedList.List.Prepend | src/core/list.c:63-76 | a new first node; the list is well linked afterwards if and only if it was empty |
| LinkedList.List.Remove | src/core/list.c:110-144 | the others in their order; the removed node keeps its links |
| LinkedList.List.MoveToEnd | src/shmbuf/buffer-aux.c:147-154 | a permutation with that element last |
| EmbeddedList.InsertAfter | src/core/list-embedded.c:12-18 | the element comes right after the head |
| EmbeddedList.InsertList | src/core/list-embedded.c:20-29 | the other list's elements followed by the old ones; the other head is left dangling unless its list was empty |
| EmbeddedList.Remove | src/core/list-embedded.c:31-36 | the ring without the element, which points nowhere |
| EmbeddedList.Size | src/core/list-embedded.c:38-48 | the walk ends and counts the elements |
| EmbeddedList.Empty | src/core/list-embedded.c:50-52 | true exactly for a head alone |
| ShmBufferModule.OverwriteOneSlot | src/shmbuf/buffer.c:465-496 | writing inside one slot changes the start of that slot and no other byte |
| ShmBufferModule.OverwriteTwice | src/shmbuf/buffer.c:485-496 | a piece right behind another is one write of both |
| ShmBufferModule.ShmBuffer.StartPush | src/shmbuf/buffer.c:465-483 | the offset of the next slot, none exactly when the buffer is full |
| ShmBufferModule.ShmBuffer.PartialPush | src/shmbuf/buffer.c:485-496 | the bytes go behind what was pushed of the element so far |
| ShmBufferModule.ShmBuffer.FinishPush | src/shmbuf/buffer.c:528-531 | the slot being filled becomes the newest element |
| ShmBufferModule.ShmBuffer.Push | src/shmbuf/buffer.c:533-546 | appends a slot that starts with the element, or fails exactly when full |
| ShmBufferModule.ShmBuffer.PiecewisePush | src/shmbuf/buffer.c:465-531 | any pieces that fit in an element have the effect of one push of their concatenation |
| ShmBufferModule.ShmBuffer.Pop | src/shmbuf/buffer.c:548-561 | removes and returns the oldest element |
| SourceControl.DefineStr | src/core/source.c:95-179 | the pointer-scanning loops compute the specified outcome |
| SourceControl.SignatureSize | src/core/signatures.c:40-46 | the size of a signature's operands, unless one is unknown |
| SourceControl.DefineInvertsPrint | src/core/source.c:95-179 | printing fields and parsing them gives back one record for each, in order, with or without a trailing comma |
| SourceControl.OnlyPrintingsAreAccepted | src/core/source.c:95-179 | a description that is accepted is such a printing, and every record is filled |
| SourceRecords.PrintedIsDescribed | src/core/source.c:37-53 | the i-th record has the i-th field's name, its signature cut to 31 characters, no kind, and a size of 16 plus the sum of its operands' |
| SourceRecords.OperandSizeIs | src/core/signatures.c:6-38 | the size of each operand, and which characters are operands |
| SourceRecords.SizeIsSum | src/core/signatures.c:40-46 | a signature has a size if and only if it consists of operands, and then it is their sum |
| SourceRecords.FirstBadFieldDecides | src/core/source.c:95-179 | the first field that does not fit the local arrays or has an unknown operand decides the outcome |
| SourceRecords.WrongCountsDecide | src/core/source.c:95-111 | with more commas than the fields allow, the format is wrong |
| SourceRecords.NoFieldIsWrong | src/core/source.c:95-111 | without a colon, too |
| StreamCache.CacheAgreesIff | src/core/stream.c:202-237 | a cached lookup agrees with the plain scan if and only if the kind is 128 or more, or the first record with the kind equals the last one with it |
| StreamCache.CacheMayDisagree | src/core/stream.c:202-249 | records with which the two lookups differ: a small kind never registered, and a kind registered twice |
| StreamCache.RegisteredLookupsAgree | src/core/stream.c:202-249 | with pairwise distinct kinds every registered kind is looked up alike, first call or later |
| StreamCache.RegisterAllEvents | src/shmbuf/buffer.c:665-676 | record i gets kind 10 + i and keeps all else, so the kinds are pairwise distinct |
| StreamCache.GetMaxKind | src/core/stream.c:192-200 | the largest kind among the records |
| StreamCache.GetEventRecordNoCache | src/core/stream.c:239-249 | the first record with the kind |
| StreamCache.Stream.GetEventRecord | src/core/stream.c:202-237 | builds the cache on the first call, reads it on the later ones; agrees with the scan for registered kinds that are pairwise distinct |

## Left out

- Weak memory: a slot's content counts as visible once it is published. Index loads may be stale (SpscRun, the fetcher's loads of the arbiter ring's tail in Pipeline, and in RingPipeline also the consumer's loads of its head, but for `drop_older_than`); every other access is sequentially consistent.
- Dropped-range lock: the lock (src/shmbuf/buffer-aux.c:15-21) leaves its loop when the exchange fails and gives no exclusion. The model takes the update of one slot, and the test of one slot, as atomic steps; a torn read of a slot is not modelled.
- Filters: the fetcher's filter is absent and its alter function copies, so `vms_stream_fetch_dropping_filter` and `vms_stream_fetch` are not modelled.
- Identifiers: events are numbered 1, 2, 3, ... up to 2^64 - 2, as the source assigns them; 0 and 2^64 - 1 mark unused string buffers.
- Sizes: capacities, offsets and element sizes are unbounded integers; `AuxBuffersModule.AuxBuffers.PushStrN` and `PushStr` require offsets below 2^32 as the code asserts. Capacities in ParQueue are below the largest 64-bit value. The page size is a parameter.
- Class methods run without interference; what the other thread may do meanwhile is the subject of SpscRun, Pipeline and EndToEnd.
- Auxiliary buffers on the heap: AuxBuffers keeps the buffers in a sequence indexed by `idx` and the age list as a sequence of indices; LinkedList proves the list itself. Aliasing between the writer's and the reader's mappings is not captured.
- PipelineTheorems.GarbageCollectionIsSafe: it speaks of a careful consumer, because the code publishes whatever identifier it is given; `EndToEnd.StringsSurvive` holds for any.
- Publishing a smaller identifier than before: the code asserts that this does not happen (src/shmbuf/buffer.c:372-373), and in the machines such a step is not enabled.
- Shared-memory ring in detail: RingLayers and RingPipeline are about the arbiter ring; the shared-memory ring of Pipeline stays a queue of which its reader loads the head afresh.
- Progress: waiting loops, sleeping and back-off appear as steps only; nothing is claimed about how soon a thread moves.
- Debug-only state (assertions, write_in_progress flags) and statistics printing.
- `vms_list_destroy`, list getters, vectors, strings, `queue_spsc.c` and `cpp/ring_buffer.h`.
- Mapping, naming, renaming and unlinking of shared memory, control and debug buffers, keys, signals, creation of streams from arguments, Python bindings.
- Monitor buffers and `default_process_events`.
- `vms_stream_register_event` and custom hole handling: the default hole with its counter is modelled.
- NUL characters inside an event description: a C string has none.
