# VAMOS/shamon: a verified model of its core

VAMOS moves events from monitored programs to a monitor through lock-free ring buffers and replaces
events by *holes* when a consumer lags. This project models the stateful and concurrent parts of that
pipeline in Dafny and proves what they promise. `dafny verify dfyconfig.toml` checks everything.

| modules | what they are about |
|---|---|
| `Words`, `RingIndex`, `SpscRing`, `ParQueue` | the single-producer single-consumer ring, under every interleaving of its loads and stores, and the queue built on it |
| `ArbiterQueue`, `Autodrop` | dropping from the arbiter queue, binary search over its two segments, and the buffer-manager thread that drops events and summarises them in holes |
| `AuxBuffers`, `ShmList`, `Pipeline` | strings in auxiliary buffers that are reused once their events are processed or dropped |
| `RoundRobin` | the default scheduler |
| `HappensBefore`, `RaceMonitor` | the lockset race monitor and the reclamation of its list of synchronisation events |
| `RuleCompiler`, `RuleTables`, `RuleMatching` | arbiter rules compiled to nested guards over peeked buffers |
| `StableOrder`, `BufferGroup` | buffer groups: insertion, removal and re-sorting of a doubly-linked list |

The main results, each for all runs or all inputs:

* the ring refines a bounded FIFO; stale caches only underestimate (`SpscRing.RunRefinesFifo`);
* expanding every queued hole and adding the pending drops gives back exactly the source, in order, with
  any concurrent producer and reader (`Autodrop.HoleConservation`); what the thread makes of each event is fixed
  by the free space and the threshold alone (`Autodrop.HandleOutcome`); and a buffer that looks done has delivered
  everything (`Autodrop.DoneMeansDelivered`);
* a string whose event is neither processed nor dropped survives every reuse of buffers
  (`AuxBuffers.Store.GetStr`), and with the reports of any run of the buffer manager the strings of forwarded
  events read back (`Pipeline.ReadForwarded`);
* walking a fresh lockset computes happens-before, and with skip markers exactly the threads that chains with
  jumps over skipped stretches lead to (`HappensBefore.WalkIsHappensBefore`); and the reference
  counts of the cells are exactly the records pointing at them (`RaceMonitor.Monitor.HandleWrite`);
* compiled guards reach a rule's body if and only if its match expression holds of the buffers
  (`RuleMatching.RuleSet`), and firing removes exactly what stands before the counted bars
  (`RuleMatching.DropsWhatIsBeforeBars`);
* `bg_update` leaves the one stable sorted arrangement (`BufferGroup.Group.Update`), and its passes come to an
  end on every list if and only if the order is asymmetric (`StableOrder.SettlesIffAsymmetric`);
* round robin serves every buffer within as many calls as there are buffers (`RoundRobin.NoStarvation`).

Where a promise does not hold, the code is modelled as it is, the model contains the input that breaks it,
and the exact condition is proved:

* `drop_older_than` leaves one event too many if the end-of-stream hole repeats the sought id, and only then
  (`ArbiterQueue.ArbiterBuffer.DropOlderThan`). A run of the buffer manager gets there
  (`Autodrop.RepeatedEndIsReached`). `drop(0)` drops everything.
* `drop_older_than` reports its argument as processed, and a later `drop` can then report a lower id, against the
  assertion in `buffer_set_last_processed_id` (`ArbiterQueue.OlderThanOvershoots`, in a run
  `Autodrop.OvershootIsReached`). No later `drop` goes back, whatever is queued in order, if and only if the
  argument is at most the newest queued id or the stream is over (`ArbiterQueue.OlderIsPermittedIff`); with such
  arguments no run goes back (`ArbiterQueue.ReportsNeverFall`, `Autodrop.ThreadKeepsBehind`). The newest id
  *accounted for* would not do: a hole at the end of the stream is numbered one less than the last dropped event.
* `buffer_notify_dropped` misfiles a range that follows an empty one beginning elsewhere, and only then
  (`AuxBuffers.MisfiledRange`, `AuxBuffers.FaithfulIff`). The buffer manager never reports such a pair.
* The race monitor's second check of a record speaks about the thread id in the unused tail cell
  (`HappensBefore.SecondReadMisjudged`, `HappensBefore.LaterVerdict`). A check is right about every trace and
  thread if and only if it starts from the lockset of a fresh record (`HappensBefore.ExactIffFresh`).
* Events before a bar inside a match function are matched but not dropped
  (`RuleMatching.MatchFunctionKeepsEvents`). Firing removes the events before all bars if and only if each bar in a
  match function occurs outside too, with the same source and length (`RuleMatching.DropsWhatIsBeforeBars`).
* The event that the default scheduler returns for a crowded buffer has the id of a hole, but the kind and the
  payload of the event forwarded before (`RoundRobin.Serve`); an inactive buffer makes it spin
  (`RoundRobin.Scheduler.ProcessEvents`).

Code and comments disagree in three places, and the model follows the code. The comment above
`shm_spsc_ringbuf_consume` asks that the n items exist; the reader must have *seen* them, which is what
`ParQueue.Queue.Drop` requires and the arbiter's operations provide (`shm_monitor_buffer_consume` hands the
obligation on to its caller). The assertions at core/arbiter.c:155 and 163 fail on a one-element segment and are
left out of the search. The count that `get_write_off` returns is not contiguous when the ring is empty away from
offset 0; callers use one slot.

## Model

| member | source | states |
|---|---|---|
| `RingIndex.WrittenNum` | core/spsc_ringbuf.c:29-40 | the number is below the capacity, 0 exactly if empty and capacity-1 exactly if full |
| `RingIndex.FreeNum` | core/spsc_ringbuf.c:42-55 | free and written slots add up to capacity-1 |
| `RingIndex.WriteOff` | core/spsc_ringbuf.c:137-168 | both parts add up to the free slots; the first part is 0 only if nothing is free |
| `RingIndex.PeekSegments` | core/spsc_ringbuf.c:338-378 | the two segments hold n elements, stay inside the ring, and a second one exists only after the wrap |
| `RingIndex.AdvanceCounter` | core/spsc_ringbuf.c:244-309 | moving an offset with wrap-around is adding to the unbounded counter behind it |
| `RingIndex.DistinctOffsets` | core/spsc_ringbuf.c:25-27 | counters less than a round apart never share a slot |
| `RingIndex.CountersBehindOffsets` | core/spsc_ringbuf.c:29-55 | the offset formulas compute differences of counters |
| `RingIndex.PeekedOffset` | core/spsc_ringbuf.c:338-378 | the k-th peeked element lies at the offset of the k-th unconsumed counter |
| `SpscRing.CountersGiveViews` | core/spsc_ringbuf.c:107-128 | what either side computes from its possibly stale fields, in terms of the FIFO |
| `SpscRing.WriterSlotIsPrivate` | core/spsc_ringbuf.c:187-205 | the slot being written is never one the reader may read |
| `SpscRing.CopyKeepsContents` | core/par_queue.c:47-58 | copying into the granted slot overwrites nothing unconsumed |
| `SpscRing.StepShowsFifo` | core/spsc_ringbuf.c:170-335 | each atomic step shows its caller only what a bounded FIFO allows |
| `SpscRing.StepSimulates` | core/spsc_ringbuf.c:170-335 | each atomic step keeps known <= taken <= seen <= published < known+capacity, the four residues and the slot contents |
| `SpscRing.RunSimulates` | core/spsc_ringbuf.c:9-378 | every run of one writer and one reader is simulated by the FIFO |
| `SpscRing.RunRefinesFifo` | core/spsc_ringbuf.c:9-378 | at every point of every run the caches lag in the safe direction and the next observation is the FIFO's |
| `ParQueue.SegmentsSpellView` | core/par_queue.c:97-111 | the two peeked segments joined are the next n elements of the FIFO |
| `ParQueue.Queue.WritePtr` | core/par_queue.c:31-38 | a slot is granted exactly if the queue is not full, whatever the cached tail |
| `ParQueue.Queue.WriteFinish` | core/par_queue.c:40-45 | publishes the slot at head and nothing else |
| `ParQueue.Queue.Push` | core/par_queue.c:47-58 | appends the element, or changes nothing if full |
| `ParQueue.Queue.Acquire` | core/spsc_ringbuf.c:268-293 | refreshes the view exactly if it is too short; a short result means the view is complete |
| `ParQueue.Queue.Drop` | core/par_queue.c:71-73 | removes the first k elements; the reader must have seen them |
| `ParQueue.Queue.ConsumeUpto` | core/spsc_ringbuf.c:315-335 | removes min(n, size) elements, stale view or not |
| `ParQueue.Queue.Pop` | core/par_queue.c:60-69 | returns and removes the oldest element, fails exactly on an empty queue |
| `ParQueue.Queue.Top` | core/par_queue.c:87-95 | points at the oldest element; 0 exactly if the queue is empty |
| `ParQueue.Queue.Peek` | core/par_queue.c:97-111 | segments spell the first elements; the count is exact unless the view already sufficed |
| `ParQueue.Queue.Split` | core/spsc_ringbuf.c:352-378 | where the first m elements lie |
| `ParQueue.Queue.PeekAt` | core/par_queue.c:122-137 | the k-th element, exactly if it exists |
| `ParQueue.Queue.PeekAtmostAt` | core/par_queue.c:139-160 | the k-th element or the last one, and which |
| `ParQueue.Queue.AtIndex` | core/par_queue.c:122-160 | picks the segment of the k-th peeked element |
| `ArbiterQueue.FoundIsPrefix` | core/arbiter.c:98-213 | the number found is the length of the prefix of older events, one less on a repeated end |
| `ArbiterQueue.FoundSplits` | core/arbiter.c:98-213 | the events found have ids up to the sought one, as a linear scan counts them, and those left have not, but for a repeated end |
| `ArbiterQueue.FoundInHalf` | core/arbiter.c:113-138 | looking at the last id of the first segment tells which segment to search |
| `ArbiterQueue.CountLater` | core/arbiter.c:113-138 | what the second segment can add when the sought id is in the first |
| `ArbiterQueue.Log2IsLogarithm` | core/arbiter.c:142-149 | the step bound is the rounded-up binary logarithm |
| `ArbiterQueue.Narrow` | core/arbiter.c:151-172 | one probe halves the interval, keeps the sought position in it, and says when it has closed in |
| `ArbiterQueue.SearchEnds` | core/arbiter.c:174-194 | the position where the search closed in is the number of older events |
| `ArbiterQueue.Bisect` | core/arbiter.c:140-197 | the loop closes in on a position in logarithmically many probes |
| `ArbiterQueue.SearchSegment` | core/arbiter.c:174-194 | what is read off there is the linear-scan count of the segment |
| `ArbiterQueue.SearchParts` | core/arbiter.c:113-197 | the same across both wrapped segments |
| `ArbiterQueue.ProcessingKeepsOrder` | shmbuf/buffer.c:336-340 | processing a prefix never moves the last processed id back |
| `ArbiterQueue.DropKeepsOrder` | core/arbiter.c:74-94 | a drop from an ordered queue leaves it ordered above the reported id |
| `ArbiterQueue.DropTakes` | core/arbiter.c:74-94 | the same numbers on the reader's account |
| `ArbiterQueue.MoreKeepsBehind` | core/arbiter.c:438-599 | queueing more events in order leaves a reported id that was behind them all behind |
| `ArbiterQueue.OlderLeaves` | core/arbiter.c:201-204 | what an effective drop_older_than leaves is not below the id, and nothing if the id is above the newest |
| `ArbiterQueue.CallKeepsBehind` | shmbuf/buffer.c:336-340 | every drop, and every drop_older_than up to the newest id, keeps the reported id behind and never lowers it |
| `ArbiterQueue.ReportsNeverFall` | shmbuf/buffer.c:336-340 | so the monotonicity assertion holds throughout any such run |
| `ArbiterQueue.OlderIsPermittedIff` | core/arbiter.c:127-130 | no later drop moves the reported id back, whatever is queued in order, iff the argument was at most the newest id or the stream is over |
| `ArbiterQueue.OlderThanOvershoots` | core/arbiter.c:127-130 | an argument above the newest id after which a drop reports a lower one |
| `ArbiterQueue.ArbiterBuffer.Drop` | core/arbiter.c:74-94 | removes as many events as asked for or all there are, all for k = 0, and reports the id of the last one, which on an ordered queue is never lower; the writer's fields stay |
| `ArbiterQueue.ArbiterBuffer.DropUpTo` | core/arbiter.c:74-94 | what is taken from the queue and reported |
| `ArbiterQueue.ArbiterBuffer.TakeAndReport` | core/arbiter.c:201-204 | taking k events and reporting an id |
| `ArbiterQueue.ArbiterBuffer.DropOlderThan` | core/arbiter.c:98-213 | drops only events up to the id and reports the id itself; agrees with the linear scan if and only if the end-of-stream hole does not repeat the id; the writer's fields stay |
| `ArbiterQueue.ArbiterBuffer.CountOlderThan` | core/arbiter.c:100-199 | counts without changing the queue, in logarithmically many probes |
| `Autodrop.StepKeepsPlace` | core/arbiter.c:393-599 | every step of thread, producer, reader or configuration keeps the facts at each program point |
| `Autodrop.TellsDropped` | core/arbiter.c:505-538 | a dropped event is told by the hole under construction, by one more update |
| `Autodrop.TellsHole` | core/arbiter.c:438-458 | pushing the hole settles exactly its events; at the end of the stream its id is one short |
| `Autodrop.TellsKept` | core/shamon.c:63-67 | pushing the event settles it |
| `Autodrop.DroppingDropsNext` | core/arbiter.c:505-538 | starting or going on to drop puts exactly the next event in the hole |
| `Autodrop.DroppingConserves` | core/arbiter.c:505-538 | both steps keep conservation |
| `Autodrop.HoleWriteConserves` | core/arbiter.c:438-458 | the hole push keeps it |
| `Autodrop.KeepWriteConserves` | core/shamon.c:63-67 | the write of a forwarded event keeps it |
| `Autodrop.StepConserves` | core/arbiter.c:438-599 | every step keeps conservation |
| `Autodrop.StepCounts` | core/arbiter.c:438-458 | every step keeps kept + dropped = accounted and one hole per counted drop episode |
| `Autodrop.StepNotices` | core/arbiter.c:438-538 | every step keeps reported ranges free of kept events |
| `Autodrop.StepKeepsInv` | core/arbiter.c:393-599 | every step keeps the whole invariant |
| `Autodrop.RingDecides` | core/spsc_ringbuf.c:187-205 | the thread's decisions about free space and slots are those of the ring's offsets and cached tail |
| `Autodrop.RunKeepsInv` | core/shamon.c:40-68 | every run keeps the invariant |
| `Autodrop.HoleConservation` | core/arbiter.c:438-599 | queue with holes expanded, plus pending drops, equals the accounted source prefix; the pending hole is the fold over its segment |
| `Autodrop.NeverRefused` | core/arbiter.c:542-599 | nothing is pending and the slot is granted when an event is returned; the hole push never fails, for every threshold and draining |
| `Autodrop.HandleOutcome` | core/arbiter.c:542-599 | from every reachable state with an event at hand the thread alone pushes the hole over just the pending events and the event once more than the threshold is free, forwards it without drops if there is room, and otherwise drops it; with notices and statistics |
| `Autodrop.ForwardOutcome` | core/arbiter.c:542-567 | the case without drops |
| `Autodrop.HoleOutcome` | core/arbiter.c:545-552 | the case that ends the drops |
| `Autodrop.DropOutcome` | core/arbiter.c:553-567 | the steps of the case that drops |
| `Autodrop.DropHandles` | core/arbiter.c:505-538 | what they amount to: one more update, and a notice every ten thousand drops |
| `Autodrop.EndOutcome` | core/arbiter.c:460-488 | at the end of the stream: waits for more than the threshold, then pushes the last hole over the pending events and ends |
| `Autodrop.LastHoleOutcome` | core/arbiter.c:460-488 | the steps of the last hole |
| `Autodrop.LastHoleFinishes` | core/arbiter.c:460-488 | what they amount to |
| `Autodrop.FetchOutcome` | core/arbiter.c:393-433 | an event that is there is taken up; without one the thread turns to the end exactly if the source is destroyed |
| `Autodrop.SlotIsGranted` | core/spsc_ringbuf.c:187-205 | with room in the queue the slot is granted, whatever the cached tail |
| `Autodrop.EndedIsDone` | core/arbiter.c:642-647 | a stream that has ended and is drained looks done |
| `Autodrop.DoneMeansDelivered` | core/arbiter.c:642-647 | if the buffer looks done, the reader has taken an account of the whole source |
| `Autodrop.PrefixExplains` | core/arbiter.c:438-599 | every prefix of the queue stands for a prefix of the source |
| `Autodrop.TakenExplainsPrefix` | core/arbiter.c:438-599 | what the reader took so far stands for a prefix of the source |
| `Autodrop.EndOfStreamIsSound` | streams/stream-generic.c:16-21 | the stream ends only when destroyed and read to its end, and nothing is produced after |
| `Autodrop.EndStatistics` | core/arbiter.c:438-458 | at the end kept + dropped is everything and each hole was counted once |
| `Autodrop.NoticesAreDropped` | core/arbiter.c:523-538 | no reported range contains a kept event; only the last can be empty |
| `Autodrop.DropsBeginAfterQueue` | core/arbiter.c:505-521 | the pending drops begin right after the last queued item |
| `Autodrop.StepReports` | core/arbiter.c:438-458 | every step keeps each hole reported |
| `Autodrop.HolesAreReported` | core/arbiter.c:438-458 | in every reachable state each hole in the queue was reported, from the event after the item before it up to its id |
| `Autodrop.ExplainedIdsRise` | core/arbiter.c:490-503 | ids strictly increase along the queue |
| `Autodrop.ExplainedIdsOrdered` | core/arbiter.c:460-488 | with the end-of-stream hole, id last-1, they still do not decrease |
| `Autodrop.QueueIdsOrdered` | core/arbiter.c:438-599 | so in every reachable state the queue is ordered as `drop` and `drop_older_than` need |
| `Autodrop.LastProcessedRises` | core/arbiter.c:74-94 | with drop alone, the last processed id never decreases along a run, and every drop raises it while the stream is open |
| `Autodrop.ThreadKeepsBehind` | core/arbiter.c:438-599 | with drop and permitted drop_older_than mixed, no step of thread or producer queues an event below a reported id |
| `Autodrop.NextIsKept` | core/shamon.c:53-68 | a run in which the next event is kept |
| `Autodrop.NextIsDropped` | core/arbiter.c:505-521 | a run in which the next event is dropped |
| `Autodrop.RepeatedEndIsReached` | core/arbiter.c:460-488 | a run whose end-of-stream hole repeats the newest id, so that the search finds one event of two |
| `Autodrop.OvershootIsReached` | core/arbiter.c:127-130 | a run in which drop_older_than reports 100 and the next drop 2 |
| `Autodrop.DefaultHoleCounts` | core/stream.c:18-26 | the default hole counts its events |
| `Autodrop.DefaultHolesAccount` | core/stream.c:18-26 | kept events plus the numbers in the holes give the number of source events |
| `AuxBuffers.UnpackIndex` | shmbuf/buffer.c:538-543 | the index survives packing |
| `AuxBuffers.UnpackOffset` | shmbuf/buffer.c:538-543 | the offset survives packing |
| `AuxBuffers.RepackIsHarmless` | shmbuf/buffer.c:545-550 | packing the index twice changes nothing |
| `AuxBuffers.PackIsArithmetic` | shmbuf/buffer.c:538-561 | or, shift and mask on the word are addition, division and remainder |
| `AuxBuffers.Word` | shmbuf/buffer.c:552-561 | the handle as a number: it fits 64 bits and gives back the offset and the low half of the index |
| `AuxBuffers.FaithfulStep` | shmbuf/buffer.c:563-587 | one report enters the table as reported iff it does not extend a foreign empty range |
| `AuxBuffers.FaithfulIff` | shmbuf/buffer.c:563-587 | the table is faithful after every report iff no empty range is followed by one beginning elsewhere |
| `AuxBuffers.NotifyFrame` | shmbuf/buffer.c:563-587 | a report changes one slot: the last one, if it begins alike or that one is empty, otherwise the oldest |
| `AuxBuffers.TableRemembers` | shmbuf/buffer.c:563-587 | under the same condition the table holds the last five stretches, each as last extended, in order |
| `AuxBuffers.RemembersExtended` | shmbuf/buffer.c:568-573 | a report that begins alike extends the newest and keeps the others |
| `AuxBuffers.RemembersNew` | shmbuf/buffer.c:575-586 | any other becomes the newest and only the sixth is forgotten |
| `AuxBuffers.LastFiveAreFound` | shmbuf/buffer.c:563-587 | each of the last five non-empty reports with different beginnings is in the table |
| `AuxBuffers.MisfiledRange` | shmbuf/buffer.c:563-587 | reports after which the table covers an event nobody reported |
| `AuxBuffers.EnteredAreReported` | shmbuf/buffer.c:563-587 | under that condition only reported ranges ever enter the table |
| `AuxBuffers.SlotEntered` | shmbuf/buffer.c:563-587 | every range in use in the table entered it |
| `AuxBuffers.ResetIsSafe` | shmbuf/buffer-aux.c:133-140 | resetting a reclaimable buffer loses only retired strings |
| `AuxBuffers.AppendIsSafe` | shmbuf/buffer.c:552-561 | appending a string disturbs none stored before |
| `AuxBuffers.SafeIsMonotone` | shmbuf/buffer.c:336-340 | more processed ids and ranges keep it safe |
| `AuxBuffers.NewSize` | shmbuf/buffer-aux.c:57-60 | the new buffer and its header fill whole pages, with room for the request and at most two pages more |
| `AuxBuffers.ToBackKeepsAll` | shmbuf/buffer-aux.c:144-145 | moving to the back of the age list loses and repeats no buffer |
| `AuxBuffers.Store.SetLastProcessed` | shmbuf/buffer.c:336-340 | refuses exactly a lower id, as the assertion does, and keeps every unretired string stored |
| `AuxBuffers.Store.NotifyDropped` | shmbuf/buffer.c:563-587 | the new table, and when exactly it holds the reported range |
| `AuxBuffers.Store.UpdateTable` | shmbuf/buffer.c:563-587 | the table part of it: which slot is written, and that the others stay |
| `AuxBuffers.Store.MonitorRuns` | shmbuf/buffer.c:563-587 | any number of concurrent reports keeps the invariant |
| `AuxBuffers.Store.WasDropped` | shmbuf/buffer-aux.c:108-123 | true iff a slot in use begins at or before the buffer's first id and ends at or after its last |
| `AuxBuffers.Store.TryReclaim` | shmbuf/buffer-aux.c:133-140 | resets the buffer iff its last event is processed or a slot covers it, and no other |
| `AuxBuffers.Store.TakeFromAge` | shmbuf/buffer-aux.c:141-149 | the buffer becomes current and last in the age list, and nothing else changes |
| `AuxBuffers.Store.NewAux` | shmbuf/buffer-aux.c:57-106 | appends an empty, sufficient buffer with no ids to vector and age list and makes it current |
| `AuxBuffers.Store.Recycle` | shmbuf/buffer-aux.c:129-152 | takes the first buffer of the age list that is reusable and sufficient; those before it, or all, were too small or in use when looked at: neither processed nor covered |
| `AuxBuffers.Store.Consider` | shmbuf/buffer-aux.c:132-151 | one turn of the search: the buffer is taken, or was too small or in use at that moment |
| `AuxBuffers.Store.GetAux` | shmbuf/buffer-aux.c:126-161 | keeps the current buffer while it has room; otherwise another that has; current is always last |
| `AuxBuffers.Store.PushStr` | shmbuf/buffer.c:524-561 | the string is stored under the returned 64-bit handle, its offset fits 32 bits, and no unretired string is disturbed |
| `AuxBuffers.Store.Write` | shmbuf/buffer.c:530-536 | copies the string behind those already in the buffer |
| `AuxBuffers.Store.GetStr` | shmbuf/buffer.c:538-543 | decoding the handle of an event neither processed nor dropped reads back its bytes, with fewer than 2^32 buffers |
| `ShmList.List.Append` | core/list.c:78-93 | appends to a well-formed doubly-linked list |
| `ShmList.List.AppendElem` | core/list.c:95-108 | appends the element, whatever its stale links |
| `ShmList.List.Remove` | core/list.c:110-144 | removes exactly the element, wherever it is |
| `ShmList.List.MoveToBack` | shmbuf/buffer-aux.c:144-145 | remove and append is the age-list operation of `AuxBuffers` |
| `Pipeline.TableHoldsReports` | shmbuf/buffer.c:563-587 | a faithful table holds only reported ranges |
| `Pipeline.ReportsStayFaithful` | core/arbiter.c:438-538 | the reports of every run of the buffer manager keep the table faithful |
| `Pipeline.StretchesAreRemembered` | shmbuf/buffer.c:563-587 | with the reports of every run the table holds the last five stretches |
| `Pipeline.ForwardedStringsAreKept` | shmbuf/buffer-aux.c:108-123 | no buffer with a string of a forwarded event is ever taken for dropped |
| `Pipeline.ForwardedIsNotReported` | core/arbiter.c:438-538 | no report of a run covers a forwarded event |
| `Pipeline.ReadForwarded` | shmbuf/buffer.c:538-543 | a program that received any of the reports of a run reads back the strings of forwarded, unprocessed events |
| `RoundRobin.FirstReady` | core/shamon.c:97-130 | the scan stops at the first ready buffer |
| `RoundRobin.NoStarvation` | core/shamon.c:77-136 | a buffer ready in n calls is served in one of them, from any counter |
| `RoundRobin.WaitIsTight` | core/shamon.c:77-136 | with all buffers ready the one just served waits exactly n calls |
| `RoundRobin.Serve` | core/shamon.c:104-129 | every event is forwarded, counted as lost, or still there; half the capacity is lost iff five times the size sighted exceeds four times the capacity, and then the scheduler's stale event is returned with only its id set |
| `RoundRobin.Deliver` | core/shamon.c:105-129 | either branch, with the reported id |
| `RoundRobin.Scheduler.ServeApart` | core/shamon.c:104-129 | serving one buffer leaves the events, views and capacities of the others alone |
| `RoundRobin.Scheduler.ServeAt` | core/shamon.c:97-130 | serving one buffer leaves the others alone |
| `RoundRobin.Scheduler.Visit` | core/shamon.c:97-130 | one turn of the scan |
| `RoundRobin.ActiveScans` | core/shamon.c:97-100 | without inactive buffers scans stop at ready ones only |
| `RoundRobin.Scheduler.ProcessEvents` | core/shamon.c:77-136 | serves the first ready buffer from the counter on, only that one, by the same rule, and advances the counter; spins on an inactive buffer before it |
| `RoundRobin.RoomyLosesNone` | core/shamon.c:108-129 | a buffer with at most four fifths of its capacity in events loses none |
| `HappensBefore.WalkGrows` | experiments/dataraces/monitor.cpp:205-308 | threads and addresses are never lost along a walk |
| `HappensBefore.SkipSets` | experiments/dataraces/monitor.cpp:295-305 | the skip set holds the threads whose last marker is a skip start, the skipped set those with a skip end |
| `HappensBefore.SkipSetsAreMarked` | experiments/dataraces/monitor.cpp:295-305 | together they hold the threads with a marker |
| `HappensBefore.ChainIsFound` | experiments/dataraces/monitor.cpp:205-308 | the walk finds the end of every chain of unlock-lock, fork and join links and jumps after skip markers |
| `HappensBefore.HopIsFound` | experiments/dataraces/monitor.cpp:209-308 | each link from a found thread leads to a found one |
| `HappensBefore.ApplyJustified` | experiments/dataraces/monitor.cpp:209-308 | each rule adds only threads with a chain, addresses released by one or by a marked thread, and marked threads |
| `HappensBefore.AddedIsChained` | experiments/dataraces/monitor.cpp:209-256 | the thread a rule adds is at the end of a chain |
| `HappensBefore.JumpIsChained` | experiments/dataraces/monitor.cpp:211-256 | after a marker a chain may begin at a lock, a fork by or a join of the marked thread |
| `HappensBefore.WalkJustified` | experiments/dataraces/monitor.cpp:205-308 | everything found on any trace has a chain |
| `HappensBefore.WalkIsHappensBefore` | experiments/dataraces/monitor.cpp:205-308 | on every trace a fresh walk yields exactly the threads at the end of chains with jumps; without skip markers exactly those reachable by synchronisation, with them a superset |
| `HappensBefore.FirstVerdictIsExact` | experiments/dataraces/monitor.cpp:309-352 | the first check reports iff the accesses are unordered |
| `HappensBefore.FirstVerdictWithSkips` | experiments/dataraces/monitor.cpp:309-352 | on every trace the first check reports iff no chain with jumps orders the accesses and the tail's thread has no marker |
| `HappensBefore.SkippedStretchIsForgiven` | experiments/dataraces/monitor.cpp:213-215 | a lock after a skipped stretch counts as ordered |
| `HappensBefore.LaterVerdict` | experiments/dataraces/monitor.cpp:322-328 | a later check reports iff the thread is unreachable from the tail cell's thread id |
| `HappensBefore.ExactIffFresh` | experiments/dataraces/monitor.cpp:205-352 | a check is right for every skip-free trace and other thread iff it starts from a fresh lockset of the owner |
| `HappensBefore.CheckedIsExactIff` | experiments/dataraces/monitor.cpp:320-328 | so after a check the next one is right only for a record of the tail cell's thread |
| `HappensBefore.SecondReadMisjudged` | experiments/dataraces/monitor.cpp:322-328 | a properly ordered second read that is reported |
| `RaceMonitor.Monitor.Enqueue` | experiments/dataraces/monitor.cpp:185-193 | appends the event and a fresh tail cell; no count changes |
| `RaceMonitor.Monitor.AppendCell` | experiments/dataraces/monitor.cpp:185-193 | the list grows by the event and a fresh tail |
| `RaceMonitor.Monitor.WalkFrom` | experiments/dataraces/monitor.cpp:205-308 | terminates, and applies exactly the events since the record, in order |
| `RaceMonitor.Monitor.Check` | experiments/dataraces/monitor.cpp:354-376 | the verdict and the lockset left behind |
| `RaceMonitor.Monitor.RcIncTail` | experiments/dataraces/monitor.cpp:378-381 | leaves one reference to spare on the tail |
| `RaceMonitor.Monitor.RcDec` | experiments/dataraces/monitor.cpp:382-398 | frees only cells no remaining record points at; frees exactly if the cell and the head have none left and the list is longer than 10000, and then up to a referenced cell or the tail |
| `RaceMonitor.Monitor.Sweep` | experiments/dataraces/monitor.cpp:387-396 | frees from the head all cells without records up to the first with one, or the tail |
| `RaceMonitor.Monitor.FreeHead` | experiments/dataraces/monitor.cpp:389-395 | freeing the head keeps list and counts |
| `RaceMonitor.Monitor.FirstCheckIsExact` | experiments/dataraces/monitor.cpp:354-376 | an unchecked write is reported against an access iff they are unordered by the recorded events |
| `RaceMonitor.Monitor.FirstCheckWithSkips` | experiments/dataraces/monitor.cpp:354-376 | the same with skip markers, chains with jumps |
| `RaceMonitor.Monitor.NextCheckIsExactIff` | experiments/dataraces/monitor.cpp:354-376 | the next check of a write record is right iff its lockset is still the fresh one |
| `RaceMonitor.Monitor.ReadCounts` | experiments/dataraces/monitor.cpp:400-418 | counts after a read record moved to the tail |
| `RaceMonitor.Monitor.WriteCounts` | experiments/dataraces/monitor.cpp:433-466 | counts after a write record moved to the tail |
| `RaceMonitor.Monitor.PutRead` | experiments/dataraces/monitor.cpp:400-418 | a replaced record gives its reference back |
| `RaceMonitor.Monitor.PutWrite` | experiments/dataraces/monitor.cpp:455-466 | the same for writes |
| `RaceMonitor.Monitor.CheckWrite` | experiments/dataraces/monitor.cpp:419-423 | counts a race iff one is reported and keeps the changed lockset |
| `RaceMonitor.Monitor.HandleRead` | experiments/dataraces/monitor.cpp:400-424 | counts stay exact, the one record that changes and its lockset, one verdict |
| `RaceMonitor.Monitor.ForgetReads` | experiments/dataraces/monitor.cpp:467-475 | all reads of the address go, with their references |
| `RaceMonitor.Monitor.Judge` | experiments/dataraces/monitor.cpp:455-458 | counts a race iff the replaced write is unordered according to its lockset |
| `RaceMonitor.Monitor.HandleWrite` | experiments/dataraces/monitor.cpp:433-476 | counts stay exact, the write record is fresh, the reads are forgotten |
| `RuleCompiler.Generator.DeclareArrays` | compiler/cfile_utils.py:1054-1061 | the arrays are numbered on from the declaration counter |
| `RuleCompiler.Generator.Condition` | compiler/cfile_utils.py:845-947 | the generated guards perform the rule's tests and then the inner ones, each with its own array, and the counter falls by the number of arrays |
| `RuleCompiler.TestsFindTheirKinds` | compiler/cfile_utils.py:845-947 | each test's array is the one declared with its kinds, though declared left to right and counted right to left |
| `RuleCompiler.CounterFalls` | compiler/cfile_utils.py:892-912 | generation takes as many arrays as the scan declared |
| `RuleCompiler.MoreArrays` | compiler/cfile_utils.py:1054-1061 | arrays of other rules disturb no test |
| `RuleCompiler.Generator.RuleCode` | compiler/cfile_utils.py:1242-1274 | one rule's tests find their kinds, whatever was generated before |
| `RuleCompiler.Generator.RuleListCode` | compiler/cfile_utils.py:1235-1239 | no array is declared twice and every test of every rule finds its own |
| `RuleTables.PeekTable.Insert` | compiler/utils.py:561-568 | raises an existing buffer's size to the need, ignores others |
| `RuleTables.PeekTable.AddRule` | compiler/utils.py:578-622 | sizes become the maximum of the old ones and all the rule's needs, and no more |
| `RuleTables.PeekTable.AddRules` | compiler/utils.py:624-645 | the same over a rule set |
| `RuleTables.RaisedTwice` | compiler/utils.py:624-645 | taking maxima one after the other is taking them together |
| `RuleTables.DropTable.Count` | compiler/utils.py:519-543 | succeeds iff no source has two bars, and counts each bar's left side |
| `RuleMatching.HoldsByPattern` | compiler/cfile_utils.py:845-912 | a match expression holds iff each pattern matches its buffer |
| `RuleMatching.Look` | compiler/cfile_utils.py:1295-1304 | what a generated peek yields, from the queue operation |
| `RuleMatching.AreEventsInHead` | compiler/cfile_utils.py:1879-1910 | true iff the count suffices and all compared kinds agree, across both segments |
| `RuleMatching.EnoughPeeked` | compiler/cfile_utils.py:1872-1910 | with enough peeked the test says what holds of the whole buffer |
| `RuleMatching.PeekSizeIsExact` | compiler/utils.py:561-645 | a size is right for every buffer content iff it is 0 or at least the pattern's need |
| `RuleMatching.RunPerforms` | compiler/cfile_utils.py:845-912 | the nested guards perform the listed tests |
| `RuleMatching.GuardsDecideRule` | compiler/cfile_utils.py:845-912 | the body is reached iff the match expression holds |
| `RuleMatching.RuleSet` | compiler/cfile_utils.py:1235-1304 | the same for every rule of a compiled rule set and whatever is peeked |
| `RuleMatching.EachBarDrops` | compiler/utils.py:519-543 | each bar with its length in the table loses exactly its left side |
| `RuleMatching.BarHolds` | compiler/cfile_utils.py:845-912 | the events of a bar are in the buffer when the rule fires |
| `RuleMatching.DroppedIsCounted` | compiler/utils.py:519-543 | if a bar's left side is gone, its length is what the table says |
| `RuleMatching.DropsWhatIsBeforeBars` | compiler/cfile_utils.py:1251-1257 | firing removes exactly the events before the bars outside match functions and nothing elsewhere, whatever arrived meanwhile; and those before every bar iff each bar in a match function is counted outside too |
| `RuleMatching.MatchFunctionKeepsEvents` | compiler/utils.py:542-543 | a match function's events stay in the buffer |
| `StableOrder.NeighboursSuffice` | compiler/cfiles/compiler_utils.c:174-207 | sorted neighbours are a sorted list, for strict weak orders |
| `StableOrder.SwapLowersInversions` | compiler/cfiles/compiler_utils.c:186-197 | each exchange removes exactly one inversion |
| `StableOrder.SwapKeepsFairness` | compiler/cfiles/compiler_utils.c:186-197 | nobody overtakes an equal |
| `StableOrder.ExchangeFacts` | compiler/cfiles/compiler_utils.c:186-197 | both together, for an arrangement of nodes |
| `StableOrder.SortedAndFairIsStable` | compiler/cfiles/compiler_utils.c:174-207 | sorted without unfair overtaking is stably sorted |
| `StableOrder.SettledIsStable` | compiler/cfiles/compiler_utils.c:174-207 | where nothing is left to exchange the list is stably sorted |
| `StableOrder.StableSortIsUnique` | compiler/cfiles/compiler_utils.c:174-207 | at most one arrangement is stably sorted |
| `StableOrder.InsertKeepsSorted` | compiler/cfiles/compiler_utils.c:24-70 | insertion between fitting neighbours keeps everything sorted |
| `StableOrder.InsertThenRemove` | compiler/cfiles/compiler_utils.c:24-102 | removal undoes insertion |
| `StableOrder.PlaceExists` | compiler/cfiles/compiler_utils.c:38-57 | every key has a place |
| `StableOrder.GeneratedOrders` | compiler/cfile_utils.py:37-50 | both generated order expressions are strict weak orders |
| `StableOrder.SweepingStep` | compiler/cfiles/compiler_utils.c:183-202 | one turn of the inner loop goes on with the same pass |
| `StableOrder.SweepingEnds` | compiler/cfiles/compiler_utils.c:183-202 | at its end the pass is complete, and changed something iff the list was not sorted |
| `StableOrder.TrailPasses` | compiler/cfiles/compiler_utils.c:178-205 | the trail of an update is a number of passes |
| `StableOrder.SweepLowersInversions` | compiler/cfiles/compiler_utils.c:183-202 | a pass never adds inversions and removes one if any neighbours are out of order |
| `StableOrder.AsymmetricSettles` | compiler/cfiles/compiler_utils.c:178-205 | for an asymmetric order some number of passes sorts the neighbours |
| `StableOrder.PairNeverSettles` | compiler/cfiles/compiler_utils.c:178-205 | two keys each of which is to go after the other change places in every pass |
| `StableOrder.SettlesIffAsymmetric` | compiler/cfiles/compiler_utils.c:174-207 | the passes of bg_update come to an end on every list iff the order is asymmetric |
| `BufferGroup.Group.SwapNodes` | compiler/cfiles/compiler_utils.c:150-172 | relinking two neighbours leaves links in order with just those two exchanged |
| `BufferGroup.Group.Exchange` | compiler/cfiles/compiler_utils.c:187-196 | the exchange with head and tail leaves a well-formed list with just those two exchanged |
| `BufferGroup.Group.CompareAt` | compiler/cfiles/compiler_utils.c:184-200 | exchanges iff out of order, and where the pass goes on |
| `BufferGroup.Group.PassStep` | compiler/cfiles/compiler_utils.c:183-202 | one turn of the inner loop keeps the state of the pass |
| `BufferGroup.Group.Pass` | compiler/cfiles/compiler_utils.c:179-202 | does to the keys what `Sweep` describes, and reports a change iff the neighbours were not sorted, although it skips comparisons |
| `BufferGroup.Group.NextPass` | compiler/cfiles/compiler_utils.c:178-205 | one turn of the outer loop adds a pass to the trail |
| `BufferGroup.Group.Update` | compiler/cfiles/compiler_utils.c:174-207 | terminates after a trail of passes and leaves a well-formed, stably sorted permutation |
| `BufferGroup.Group.PushFront` | compiler/cfiles/compiler_utils.c:46-50 | links a node in before the head |
| `BufferGroup.Group.PushBack` | compiler/cfiles/compiler_utils.c:38-43 | links a node in after the tail |
| `BufferGroup.Group.LinkBefore` | compiler/cfiles/compiler_utils.c:59-65 | links a node in between two others |
| `BufferGroup.Group.FindPlace` | compiler/cfiles/compiler_utils.c:52-57 | stops before the tail at the first node the key is not to go after |
| `BufferGroup.Group.Insert` | compiler/cfiles/compiler_utils.c:24-70 | inserts at the place of the key, which is fixed by the order; left out iff the stream is that of the head, the tail or a neighbour at that place |
| `BufferGroup.Group.InsertOther` | compiler/cfiles/compiler_utils.c:38-66 | the cases with the stream at neither end |
| `BufferGroup.Group.InsertMiddle` | compiler/cfiles/compiler_utils.c:51-66 | the case between two nodes |
| `BufferGroup.Group.InsertKey` | compiler/cfiles/compiler_utils.c:24-70 | the same in terms of the keys |
| `BufferGroup.Group.InsertIntoSorted` | compiler/cfiles/compiler_utils.c:24-70 | a sorted group stays sorted and well-formed, its size its length |
| `BufferGroup.Group.InsertNew` | compiler/cfiles/compiler_utils.c:24-70 | a stream that is not in the group is always inserted |
| `BufferGroup.Group.Unlink` | compiler/cfiles/compiler_utils.c:78-96 | takes out exactly one node |
| `BufferGroup.Group.Bypass` | compiler/cfiles/compiler_utils.c:79-87 | links the neighbours of the removed node |
| `BufferGroup.Group.Remove` | compiler/cfiles/compiler_utils.c:73-102 | takes out the first node of the stream, or nothing if there is none |
| `BufferGroup.Group.InsertAndRemove` | compiler/cfiles/compiler_utils.c:24-102 | inserting a new stream and removing it restores the list |

## Left out

- Weak memory: steps are sequentially consistent; the orderings of section 7.17.3 of ISO/IEC 9899:2011 are not modelled.
- Shared-memory set-up, key names, control buffers, threads, sleeping and signals: plumbing of the operating system.
- Byte layout: elements are values, so `elem_size` arithmetic and `memcpy` lengths do not appear.
- Sizes near the limits of `size_t`: capacities are small enough that index sums do not overflow; `drop(0)` is the one wrap-around modelled.
- Mutual exclusion of `drop_ranges_lock`: its loop does not exclude, so updates of the table are single steps and nothing is claimed about the lock.
- `stream_filter_fetch`: filtered events break the id equation that the proofs use.
- `fetch_arbiter_stream`: it tests emptiness before `finished`, so a last event can slip in between.
- `shm_list_prepend`, `shm_list_destroy` and the growth of aligned vectors: they do not do what one would wish.
- `AuxBuffers.Store.PushStr`: strings of 4 GiB less two pages and more are excluded, as the handle has 32 bits for the offset and the code asserts that it fits; ids start at 1 and do not decrease, as the program numbers its events.
- `AuxBuffers.Store.SetLastProcessed`: a refused id leaves the field as it is; a build without assertions would store it.
- `AuxBuffers.Store.TakeFromAge`: the age list is a sequence there; that the linked list behaves like it is `ShmList.List.MoveToBack`.
- The reader's mapping of auxiliary buffers: only the lookup by index is modelled.
- `RoundRobin.Scheduler.ProcessEvents`: whether a buffer is active does not change during a call.
- `RoundRobin.Serve`: the threshold 0.8 * c is exact, without the rounding of doubles.
- Later checks of the race monitor on traces with skip markers: `HappensBefore.LaterVerdict` is about traces without; that they are not exact is `HappensBefore.CheckedIsExactIff`.
- The read-then-write loop and the lock tables of the race monitor: the tables are never filled, so the code that looks at them has no effect.
- `done` patterns, choose expressions and their buffer-group combinations, renaming through match-function arguments, and variable bindings (whose indices restart after the bar).
- Where-conditions and statements of a rule: the model ends at the body of the guards and begins again with the automatic drops.
- `bg_get_first_n` and `bg_get_last_n`, which copy the nodes at either end to an array for choose expressions, and `bg_remove_first_n` and `bg_remove_last_n`, which remove them one by one and are not called by generated code.
- TeSSLa output, the lexer and parser, the other queues under core/, and the experiment scripts.
