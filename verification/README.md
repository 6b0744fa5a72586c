# rtmap: the transport and the shadow state, in Dafny

rtmap watches a running program. A tracer inside the program writes 32-byte events into one
shared-memory ring per thread; an engine outside drains the rings and keeps a picture of the
program's variables, heap objects, types and registers. This project models both halves and proves
what they promise over every interleaving, every event trace and every input.

`dafny verify dfyconfig.toml` checks the whole project (Dafny 4.11).

## The transport

* `Events`: the packed event word, the split 32-bit sequence number, the multi-slot runs (seven-slot
  register snapshots, compound writes of up to eight slots).
* `BridgeRings`: the ring as the C header fills and empties it, as a class over a slot array, and the
  encoding of register snapshots against the engine's decoding.
* `ThreadRings`: the engine's batch consumer. Other threads keep writing while it runs, so what its
  loads of `head` and its slot reads return are parameters.
* `Transport`: one ring as a state machine of atomic steps (slot write, cached-head advance, flush,
  push, publish, sync, tail load, head load, slot copy, head re-read, tail store, tier update), with
  the stream of all slot writes and the delivered events as history. Both producer paths are in it:
  the unchecked inline one with a private cached head, and the checked one of the clean calls.
* `Delivery`: exact delivery, conservation, and lap safety.
* `LapLosses`: which events the engine gives up when it was lapped, and that it hands over the rest.
* `ProtocolLimits`: where the protocol stops holding, with the exact conditions: pushes out of turn,
  the start of a forked child, overruns the published head does not show.
* `Shedding`: the backpressure tier and how far the cached head can run ahead.
* `Registration`: thread-slot registration by any number of threads, step by atomic step.
* `GapTracking`: the engine's sequence-gap counter against the true numbering behind it.
* `LossReports`: the counter behind the transport. Without loss there is no report; what is lost is
  reported with its exact number.

## The shadow state

* `AddressIndexing`: the address index with its eight-slot move-to-front cache over an array.
* `RecentAnswers`: which of several intervals answers, and what the cache holds after any lookups.
* `WorldGraph` and `Reconciling`: variable nodes and pointer edges under writes, calls, returns and
  module loads, first as a function on whole worlds, then as the class that owns the address index
  and is proved to go where that function goes.
* `EdgeHistories`: where each pointer edge of the variable graph comes from, over whole traces.
* `FieldPaths` and `CallsAndLoads`: the fields of a global as paths through its nested structures, and
  what a module load and a call register, node by node and interval by interval.
* `ShadowTypes`, `DeferredReplay`, `RetrospectiveScan`, `ShadowTypeMaps`: the shadow type map, the
  replay of deferred pointer writes, the fuelled breadth-first scan, and the class with their loops.
* `PropagatedTypes` and `FollowedPointers`: which field decides the type of a written pointer, and
  where, how far and in which order the scan follows pointers, said without the functions that
  compute it.
* `TypeConfidence` and `HeapGraphs`: inferred heap objects, the reverse map, pointer edges, scoring
  and the confidence of each inferred type.
* `ClusterBirths` and `ObjectLives`: when a heap object is born and what of, over the list of all
  writes, what a write leaves in it, and when it is given up.
* `ShadowRegisters`: register beliefs and what a call saves and its return restores.
* `CircularLogs`: the circular type-epoch log and the snapshot ring with its binary searches.

`Words`, `Modular`, `OrderedMap` and `Types` hold the word widths, the arithmetic, the one
ordered-map query and the type descriptions that the others share.

## Assumptions

Acquire and release pairs are sequentially consistent, one step per slot write or slot read. Ring
positions, addresses plus sizes, and counters are unbounded naturals, except where the width matters
(sequence numbers, packed words, the 32-bit snapshot field, 16-bit local and candidate numbers,
saturating ends, wrapped relocation). A ring may have any positive capacity. Scores and confidences
are real numbers. Target memory is an arbitrary partial function; type descriptions are given.
The order in which the hash map of frames is walked is arbitrary, and fixed until the map changes.

## Where the code does not do what is written about it

The model follows the code. Each point has a lemma that pins it down, with the exact
condition under which the code does meet what is written.

* A register snapshot carries registers 1, 4, 7, 10, 13 and 16 through a 32-bit field
  (`rtmap_bridge.h:325-327`, decoded at `engine/src/reconciler.rs:56-58`). Register 7 is the stack
  pointer. All eighteen values come back exactly when these six fit 32 bits:
  `BridgeRings.SnapshotRoundTrip`.
* `consume_batch` with an empty output buffer counts a lap's loss but does not store the tail, so the
  same loss is counted again: conservation fails exactly then, `ThreadRings.ConservedExactly`.
* The lap check after the copy compares with the published head only. Inline writes that are not
  published yet can overwrite a slot unnoticed, in a ring of any capacity:
  `ProtocolLimits.UndetectedOverrun`. What a copy returns, and when it is right, is
  `Delivery.CopyReadsNewest`; with room for the lag it is safe, `Delivery.LapSafety`.
* "Up to 63 unpublished inline slots" (`tracer.c:1192-1193`) rests on the unpublished slots being
  those since the last multiple of 64. That holds over a run exactly when no compound write steps
  over a multiple of 64, `Shedding.LagExactly`, and then the 63 is right, `Shedding.LagOfRun`. When
  one write keeps the bound, and the number 63 itself, is `Shedding.PostWriteLag`. Single-slot writes
  never step over one, `Shedding.SingleSlotLag`; 64-byte writes can do it for as long as the basic
  block lasts, `Shedding.WideWritesNeverPublish`.
* The tier is said to be mirrored before system calls too (`tracer.c:1014-1015`); the hook at
  `tracer.c:2118-2135` does not do it. The mirror is current after one exactly when it was before:
  `Shedding.SyscallKeepsMirror`.
* The fork hook pushes its event with the cached head at 0 and no sync (`tracer.c:2012-2032`). The
  missing sync is the whole defect, `ProtocolLimits.ForkNeedsSync`; without it whatever the child
  does first overwrites the fork event or takes the head back to 0, `ProtocolLimits.ForkFirstStep`.
  If the engine was quick enough to take the fork event (`ProtocolLimits.ForkIsTaken`) the child's
  own first event is lost instead: a single-slot push is refused because the unsigned fill wraps,
  `ProtocolLimits.ForkRefusesPush`, and whatever is written first starts in position 0, which is
  never delivered, `ProtocolLimits.ForkLosesFirstEvent`.
* The address index looks at the statics of one starting address only, and caches what it finds. A
  global structure and its fields are registered over the same bytes
  (`engine/src/reconciler.rs:764`, `engine/src/reconciler.rs:925-932`), so its intervals are not
  disjoint. When an address is found at all is `AddressIndexing.FoundIfReached`, when the answer
  depends on earlier lookups `AddressIndexing.HistoryFreeExactly`. A structure makes it depend on
  them when it is padded after the fields at its base, which is when a lookup can find the structure
  itself: `AddressIndexing.StructFindable`, `AddressIndexing.PaddingMatters`,
  `AddressIndexing.PaddingMattersExactly`. Equal intervals do not, `AddressIndexing.SameBytesFree`.
* Truncated writes are zeroed so that no phantom pointer enters the graph
  (`engine/src/reconciler.rs:89-93`), but the edge is made from the raw value
  (`engine/src/reconciler.rs:311-316`): `WorldGraph.EdgeAgreesWithValue`.
* `retrospective_scan` counts a stamp that was rejected because its type has no size. The count is
  right on every input exactly when every registered type has a size, `RetrospectiveScan.CountsExactly`.
  The registries built from debug information meet that, because types without a size are kept out
  (lines 856, 938, 1035, 1116 and 1363 of `engine/src/dwarf.rs`).
* Candidate layouts are remembered by a 16-bit index (`engine/src/heap_graph.rs:441`), so the 65537th
  would be named as the first: `TypeConfidence.RescoreTakesBest`.
* `--no-bb`, offered as a remedy for reported gaps (line 224 of the repository's own README.md),
  makes a complete stream report gaps exactly when a block entry of a thread stands between two of
  its other events of that numbering: `GapTracking.NoBbGapsExactly`.
* An edge of a heap object outlives the pointer it stands for: overwriting the field with a plain
  value leaves it (`engine/src/heap_graph.rs:325-327`). An edge is current exactly when the last
  write to its field repeats the last pointer written there: `HeapGraphs.EdgeCurrentExactly`, for one
  write `HeapGraphs.RevisedEdgeCurrent`. Fields that do hold a pointer always have the right edge,
  which `HeapGraphs.Run` guarantees.

## Model

| member | source | states |
|---|---|---|
| Events.PushRoundTrip | rtmap_bridge.h:146-152 | kind, flags and the 32-bit number packed by a clean-call push are what the engine unpacks: the kind from the lowest byte, the flags from the next, the number from the upper half and a word of its own |
| Events.InlineMatchesPush | tracer.c:545-712 | the packing done by the inline code agrees with the clean-call packing, the counter taken modulo 2^32 |
| Events.RunLengthBounds | engine/src/ring.rs:109-115 | a header announces one to eight slots, except a compound header of size 0 |
| Events.RunLengthIs | engine/src/ring.rs:99-115 | the slots of a run, read off the packed word: seven for kind 5, one without bit 14, else one for each eight bytes, at most eight; a continuation is marked by bit 13 |
| BridgeRings.SnapshotRoundTrip | rtmap_bridge.h:306-332 | a snapshot is always recognised by the engine's decoding; registers 1, 4, 7, 10, 13 and 16 come back modulo 2^32 and the others as they were, so all come back if and only if those six fit |
| BridgeRings.DecodesExactly | engine/src/reconciler.rs:43-58 | a snapshot is decoded if and only if it has seven slots, all of kind 5 |
| BridgeRings.SnapshotIsRun | rtmap_bridge.h:306-332 | the pushed snapshot is one seven-slot run |
| BridgeRings.Ring.PushExFlags | rtmap_bridge.h:224-256 | appends exactly the packed event, or refuses it if and only if the ring is full, leaving the contents alone, across the ring end |
| BridgeRings.Ring.PushAlloc | rtmap_bridge.h:267-297 | the same for allocation events with the caller's address |
| BridgeRings.Ring.PushRegSnapshot | rtmap_bridge.h:306-332 | all seven slots are appended, or none if and only if fewer than seven are free |
| BridgeRings.Ring.PushSampled | rtmap_bridge.h:384-393 | sheds exactly reads and block entries under backpressure, and pushes everything else |
| BridgeRings.Ring.Pop | rtmap_bridge.h:344-356 | takes the oldest event off the queue, or reports that it is empty |
| BridgeRings.HeldGrows | rtmap_bridge.h:243-254 | writing the slot of the next position disturbs no held event although slots are reused modulo the capacity |
| ThreadRings.ThreadRing.ConsumeBatch | engine/src/ring.rs:355-418 | one call delivers, moves the tail and counts losses and laps exactly as its specification from the loads it made |
| ThreadRings.ThreadRing.CopySlots | engine/src/ring.rs:378-406 | the copy loop takes the slots in order up to the limit or to a run that does not fit |
| ThreadRings.ConservedExactly | engine/src/ring.rs:364-417 | tail movement is delivered plus lost, also when one call laps at both checks, if and only if the call is not a lap with an empty buffer |
| ThreadRings.TailBetween | engine/src/ring.rs:364-417 | the tail never moves back, never passes the head, and no more is delivered than the buffer holds |
| ThreadRings.LostExactly | engine/src/ring.rs:364-417 | with room in the buffer a position from the old tail on is counted lost if and only if it is more than a ring behind the head loaded at one of the two checks; each check that finds one counts one lap |
| ThreadRings.ConservedOverRuns | engine/src/ring.rs:355-418 | over any sequence of calls with non-empty buffers the tail equals delivered plus lapped events |
| ThreadRings.BatchKeepsRuns | engine/src/ring.rs:378-406 | from boundaries and without a lap a batch ends on a run boundary and leaves out only a run the buffer has no room for, so it is non-empty whenever events are there and the buffer holds eight |
| ThreadRings.ZeroHeaderDrags | engine/src/ring.rs:378-406 | a compound header of size 0 takes the next 255 slots along whatever they are |
| Transport.InvStep | tracer.c:1023-1044 | every atomic step of tracer or engine keeps the invariant that ties slots, heads, tail and the copy in progress to the stream |
| Transport.TracerStable | tracer.c:777-828 | the tracer changes the stream only from the committed index on and touches nothing of the consumer |
| Transport.EngineStable | engine/src/ring.rs:355-418 | the engine touches only the tail, the tier and its own state |
| Delivery.ConservedInEveryRun | engine/src/ring.rs:355-418 | in every interleaving from an empty ring, laps included, the stored tail is delivered plus lost and never passes the head |
| LapLosses.LostByStep | engine/src/ring.rs:364-417 | at each atomic check the positions counted as lost are exactly those more than a ring behind the published head |
| LapLosses.LostInEveryRun | engine/src/ring.rs:355-418 | in every interleaving each position below the tail was handed over or counted lost, never both, and it was lost if and only if some check found it more than a ring behind before it was handed over |
| Delivery.CheckedDelivery | rtmap_bridge.h:224-256 | with the capacity-checked producer, delivered is pushed[0..tail] in every interleaving, the fill never exceeds the capacity, no lap is counted, the tail stands between runs |
| Delivery.MixedDelivery | tracer.c:962-985 | the same with inline writes mixed in on any run that stays within the capacity |
| Delivery.OneOrderedStream | tracer.c:1023-1044 | both producer paths write one stream: published head at most cached head, index i in slot i modulo the capacity, compound continuations included |
| ProtocolLimits.PushNeedsFlush | tracer.c:1192-1194 | a push from idle keeps every unpublished inline event if and only if none was unpublished or it writes the same event |
| ProtocolLimits.PushInFlightClobbers | tracer.c:2386-2389 | flush, push, sync and the outstanding post-write in the middle of an inline write leave two positions with one slot between them; each position holds its event if and only if the full ring refused the push, or the two events coincide and the untouched slot happens to hold the pushed one |
| ProtocolLimits.ForkNeedsSync | tracer.c:2012-2032 | the forked child's start meets the ring invariant if and only if the cached head were 1 |
| ProtocolLimits.ForkFirstStep | tracer.c:2012-2032 | as it is, every possible first step of the child overwrites the fork event's slot or takes the published head back to 0 |
| ProtocolLimits.ForkIsTaken | engine/src/ring.rs:355-418 | the engine can take the fork event before the child's first step |
| ProtocolLimits.ForkLosesFirstEvent | tracer.c:2012-2032 | from then on, in every run within the capacity, whatever the child writes first, the engine gets the fork event and the child's slots from position 1 on; position 0 is never delivered and no loss is counted |
| ProtocolLimits.ForkRefusesPush | rtmap_bridge.h:233-241 | a single-slot push of the child's first clean call is refused by the empty ring, a longer run is accepted if and only if it fits |
| Delivery.CopyReadsNewest | engine/src/ring.rs:378-406 | a slot copy returns the newest event written to the slot; it is the wanted one if and only if nothing newer shares the slot or it is equal |
| Delivery.LapSafety | engine/src/ring.rs:408-417 | if slot writes run at most a lag ahead of the published head and the re-read head leaves that much room, the batch is exactly the stream, whatever was written meanwhile |
| ProtocolLimits.UndetectedOverrun | engine/src/ring.rs:408-417 | in a ring of any capacity, full to the last slot, one unpublished write makes the engine deliver it in place of the oldest event and count no lap |
| Shedding.TierRule | engine/src/ring.rs:676-699 | the tier thresholds in terms of the fill itself, without the integer division |
| Shedding.ShedExactly | tracer.c:282-543 | between two events a block entry is emitted only at mirrored tier 0, a write only at 0 or 1 |
| Shedding.TierChangesInEveryRun | engine/src/ring.rs:676-699 | in every interleaving the tier is at most 2, leaves 0 only at a fill of 6/8 or more and returns to 0 only below 3/8 |
| Shedding.SyscallKeepsMirror | tracer.c:2118-2135 | a system call publishes the cached head, and the mirrored tier is current after it if and only if it was before |
| Shedding.ShedRunBounded | tracer.c:525-543 | while the mirrored tier is 2 and no inline write is in flight, a ring that is not overfull stays so in every interleaving |
| Shedding.PostWriteLag | tracer.c:976-991 | after one post-write the unpublished slots are within the cached head's distance from a multiple of 64 if and only if the write does not step over one; the number stays at most 63 if and only if the write published or fits below 64 |
| Shedding.LagExactly | tracer.c:976-991 | over any run that bound holds throughout if and only if no write steps over a multiple of 64 |
| Shedding.LagOfRun | tracer.c:1192-1193 | in every run without such a step at most 63 inline slots are unpublished between writes |
| Shedding.SingleSlotLag | tracer.c:1192-1193 | in particular with single-slot inline writes, from an empty ring |
| Shedding.WideWritesNeverPublish | tracer.c:818-826 | any number of 64-byte writes can pass without publishing one of them |
| Registration.InvStep | rtmap_bridge.h:478-508 | every atomic step of any thread keeps slot ownership, states and the shared count in agreement |
| Registration.SlotsExclusive | rtmap_bridge.h:478-513 | no two threads hold one slot, an ACTIVE slot shows its owner's id and the first 47 characters of its name, the count is granted slots plus failing registrations in flight |
| Registration.FreshGrantsCountUp | rtmap_bridge.h:496-508 | fresh indices come out consecutively, so none is granted twice, even while failing registrations decrement the count |
| Registration.ScanAlone | rtmap_bridge.h:482-508 | from any table a thread that registers alone gets the first dead slot after where it stands, without one the next fresh slot, and in a full table nothing, the count as before |
| Registration.FillAlone | rtmap_bridge.h:489-512 | then it fills its slot and publishes it with its id and the first 47 characters of its name |
| GapTracking.GapTracker.Note | engine/src/main.rs:575-592 | one event updates the expected number and the gap count as specified; continuations are skipped |
| GapTracking.GapTracker.Drain | engine/src/main.rs:520-592 | the drain loop tracks a batch as specified, snapshots seven slots at a time |
| GapTracking.SharedNumbering | engine/src/main.rs:577-588 | two events share an expected number if and only if they are of one thread and both or neither are writes or block entries |
| GapTracking.ExpectedIsNext | engine/src/main.rs:575-592 | the expected number of a thread and domain is the wrapped successor of its last event, and is known once one was seen |
| GapTracking.ReportsAreDrops | engine/src/main.rs:546-594 | per thread and domain the reported gaps are exactly the runs of dropped events after the first seen, in order and with exact sizes, across wrap-around |
| GapTracking.ReportedIsDropped | engine/src/main.rs:546-594 | the reported sizes add up to the number of events dropped |
| GapTracking.MissingMeaning | engine/src/main.rs:546-594 | the dropped positions are those between first and last that were not seen |
| GapTracking.GapsAreReports | engine/src/main.rs:546-594 | the counter is the number of gaps reported, over all threads and domains |
| GapTracking.RunsCountOnce | engine/src/main.rs:520-592 | a batch of whole runs is tracked by its headers only, with or without `--no-bb`: no continuation or register slot is taken for a numbered event, and nothing but block entries is skipped |
| GapTracking.HeadersAreSightings | engine/src/main.rs:575-592 | tracking the headers of a list of runs is observing the true positions of their events one by one, skipped block entries left out |
| GapTracking.DrainObserves | engine/src/main.rs:520-592 | so does the drain loop on any batches of whole runs |
| GapTracking.DrainedGapsAreDrops | engine/src/main.rs:520-594 | over any sequence of drained batches of whole runs, the gaps reported for a thread and domain are exactly its runs of dropped events after the first one seen, in order and size, their sizes add up to the events that never arrived, and the counter counts the reports |
| GapTracking.GapsAfterSkips | engine/src/main.rs:524-527 | on what is left of a complete stream after skipping events, the gaps reported are the events that follow a skipped one of their own thread and domain |
| GapTracking.SkippingSplits | engine/src/main.rs:524-527 | so there is none if and only if no skipped event stands between two kept ones of its thread and domain |
| GapTracking.NoBbGapsExactly | engine/src/main.rs:524-527 | with `--no-bb` the drain loop reports no gap on a complete stream, snapshots and compound writes included, if and only if no block entry stands between two other events of its thread and domain; without the flag it never does |
| LossReports.BatchesAreRuns | engine/src/ring.rs:355-418 | in every interleaving that stays within the capacity the batches are made of the runs of the stream, in order, none split and none left out |
| LossReports.NoLossNoGap | engine/src/main.rs:520-592 | then a tracer that numbers the runs of each thread and domain consecutively never gets a gap report |
| LossReports.CheckedNoGap | rtmap_bridge.h:224-256 | with the capacity-checked producer that holds in every interleaving |
| LossReports.LostAreReported | engine/src/main.rs:546-594 | whatever whole runs of a complete numbering are lost, the gap sizes reported for a thread and domain add up to its lost events that stand between two that arrived |
| AddressIndexing.AddressIndex.InsertStatic | engine/src/index.rs:108-157 | registers the interval, unsorts, empties the cache; a zero size registers nothing |
| AddressIndexing.AddressIndex.InsertFrameLocals | engine/src/index.rs:159-188 | registers the frame's non-empty locals at their wrapped addresses and empties the cache |
| AddressIndexing.AddressIndex.RemoveFrame | engine/src/index.rs:190-193 | the frame's intervals go, and with them every cache entry |
| AddressIndexing.AddressIndex.Finalize | engine/src/index.rs:195-202 | statics become sorted, the same intervals as before |
| AddressIndexing.AddressIndex.Lookup | engine/src/index.rs:209-257 | every hit is a registered interval around the address with offset addr - lo, however stale the history; once sorted, on disjoint intervals the answer is the linear scan's, and where findable intervals agree it is the one of an empty cache |
| AddressIndexing.AddressIndex.LookupStatics | engine/src/index.rs:323-356 | finds the covering static of the last group that tops the others, the last one of equals, if there is one, and nothing outside that group |
| AddressIndexing.AddressIndex.LookupDynamics | engine/src/index.rs:304-321 | finds the smallest covering local over all frames, the first one walked of equals, or none exists |
| AddressIndexing.AddressIndex.PushMru | engine/src/index.rs:287-293 | the in-place shift puts the entry first and drops the ninth |
| AddressIndexing.AddressIndex.MoveToFront | engine/src/index.rs:213-223 | the in-place shift moves the hit slot first and keeps the order of the others |
| AddressIndexing.FoundIfReached | engine/src/index.rs:304-356 | behind the cache an address is answered if and only if a local covers it or a static of its last group does, nested intervals included |
| AddressIndexing.FoundUnique | engine/src/index.rs:304-356 | and by one interval only |
| RecentAnswers.FoundMeaning | engine/src/index.rs:304-356 | the smallest local is found, of equal ones the first walked; without one, of the statics with the greatest start a field before a global, then the smallest, then the last |
| RecentAnswers.CacheIsRecent | engine/src/index.rs:209-293 | the cache holds the eight intervals that answered most recently, each once, the latest first |
| AddressIndexing.AnswersScan | engine/src/index.rs:209-257 | where all covering intervals give one hit, cache plus binary search is the linear scan if and only if the cache covers the address, it is reached behind the cache, or nothing covers it |
| AddressIndexing.DisjointScan | engine/src/index.rs:209-257 | on disjoint intervals that is always so |
| AddressIndexing.AnswersCold | engine/src/index.rs:209-257 | where the intervals that lookups can find agree, every lookup answers as with an empty cache, whatever filled the cache |
| AddressIndexing.HistoryFreeExactly | engine/src/index.rs:209-257 | the answers are independent of earlier lookups if and only if the findable intervals give the same hit wherever they overlap; disjoint intervals do |
| AddressIndexing.StructFindable | engine/src/reconciler.rs:900-948 | a lookup can find a global structure itself, and not one of its fields, if and only if there is padding right after the fields at its base |
| AddressIndexing.PaddingMatters | engine/src/reconciler.rs:900-948 | a structure with a field is never disjoint from it, and padding at its base makes answers depend on earlier lookups |
| AddressIndexing.PaddingMattersExactly | engine/src/reconciler.rs:914-932 | if its fields are not nested they depend on them if and only if there is such padding |
| AddressIndexing.SameBytesFree | engine/src/reconciler.rs:914-944 | intervals over the very same bytes, as a member and the only member in it, never make answers depend on earlier lookups |
| WorldGraph.RunInv | engine/src/reconciler.rs:299-711 | over every event trace edges join existing nodes, indexed frames are on a stack, every local belongs to a stacked frame or to one of at most 32 returned ones, and frames are distinct |
| WorldGraph.ApplyInv | engine/src/reconciler.rs:68-711 | each single event keeps all of that |
| WorldGraph.FramesNeverReturn | engine/src/reconciler.rs:438-446 | a frame number that is off the stacks never comes back onto one |
| WorldGraph.StoreInv | engine/src/reconciler.rs:299-316 | a write creates no node, since whatever the index answers exists |
| WorldGraph.NodesLeaveByRetirement | engine/src/world.rs:1487-1501 | a node leaves the graph in one way only: a local, when its frame is the oldest of 32 remembered returns and one more function returns |
| WorldGraph.LeaveForgets | engine/src/reconciler.rs:490-503 | a return forgets at most one frame, the oldest of 32, with exactly its nodes and the edges that touch them |
| WorldGraph.RetireCore | engine/src/world.rs:1487-1501 | forgetting the oldest return removes its nodes and every edge from or to them, and nothing dangles |
| WorldGraph.EdgeAgreesWithValue | engine/src/reconciler.rs:310-316 | after a pointer write the edge agrees with the node's value if and only if the event was not truncated or wrote null |
| EdgeHistories.PointerWriteEdge | engine/src/reconciler.rs:310-316 | after an eight-byte write to a pointer an edge leaves it if and only if the value is not null; it dangles if and only if nothing was answered for the value, and otherwise reaches the answered node; no other edge changes |
| EdgeHistories.WriteValue | engine/src/reconciler.rs:299-316 | a write sets its node's value, null if truncated, and nothing else of the nodes; any but an eight-byte write to a pointer leaves every edge alone |
| EdgeHistories.EdgeIsLastWrites | engine/src/reconciler.rs:299-711 | over every trace the edge of a pointer is that of the last eight-byte write to it, and is there if and only if that was not null and no event since registered the pointer anew or removed it or its target |
| EdgeHistories.NoWriteNoEdge | engine/src/reconciler.rs:299-711 | a pointer never written has no edge |
| WorldGraph.FieldsNumbered | engine/src/reconciler.rs:900-948 | nested fields are numbered consecutively in preorder without a gap, within the 16-bit limit |
| FieldPaths.RegPath | engine/src/reconciler.rs:900-948 | every field registered is the field at the end of a path through the nested structures, at the sum of the offsets along it, with its size, its type and the names joined |
| FieldPaths.PathReg | engine/src/reconciler.rs:900-948 | every such path to seven levels is registered, unless the 65535 numbers run out |
| FieldPaths.GlobalThenFields | engine/src/reconciler.rs:762-783 | a global is registered at its relocated address, and then its fields unless it is a pointer |
| CallsAndLoads.LoadRegisters | engine/src/reconciler.rs:695-711 | the first load leaves a fresh node without an edge for every global and field, every further load changes nothing |
| CallsAndLoads.LoadIndexes | engine/src/reconciler.rs:706-708 | after the first load the index holds exactly the intervals of the globals and fields that have a size |
| CallsAndLoads.CallFinds | engine/src/reconciler.rs:434-438 | a call finds the function linked at an address if and only if it goes to that address moved as the program was |
| CallsAndLoads.CallRegisters | engine/src/reconciler.rs:438-471 | a known call puts the next frame number on its thread's stack, a node where each local was found, and an interval at each sized local's offset from the frame base; everything else stays |
| CallsAndLoads.UnknownCall | engine/src/reconciler.rs:433-438 | any other call changes nothing |
| Reconciling.Reconciler.OnWrite | engine/src/reconciler.rs:299-316 | takes the world exactly to the specified one, from legal answers of the index |
| Reconciling.Reconciler.OnCall | engine/src/reconciler.rs:427-473 | pushes a new frame, ensures its locals' nodes and indexes them, if the function is known |
| Reconciling.Reconciler.OnReturn | engine/src/reconciler.rs:490-503 | pops, unindexes, remembers the frame and retires the excess |
| Reconciling.Reconciler.OnModuleLoad | engine/src/reconciler.rs:695-711 | the first load replaces the index and registers the globals anew |
| Reconciling.Reconciler.PopulateGlobals | engine/src/reconciler.rs:756-788 | the loops and the recursion register exactly the listed globals and fields and leave the index sorted |
| Reconciling.Reconciler.ProcessEvent | engine/src/reconciler.rs:68-711 | any event keeps graph, stacks and index in step |
| ShadowTypes.StampSound | engine/src/world.rs:519-573 | stamping keeps projections under their own nonzero addresses and one schism per tallied address; an older stamp never replaces a newer one |
| ShadowTypes.StampVerdict | engine/src/world.rs:519-573 | when a stamp is refused, repeated, new, a schism or a reuse: a schism if and only if the address changes type for the first time |
| ShadowTypes.PropagateSound | engine/src/world.rs:645-733 | so does every propagation |
| ShadowTypeMaps.RunOpsSound | engine/src/world.rs:519-924 | so does every trace of stamps, propagations, deferrals, replays, scans and purges, and unless types are purged no stamp ever gives way to an older one |
| ShadowTypeMaps.RunOpsTally | engine/src/world.rs:539-547 | over every trace each address whose type was ever overwritten counts as one schism, each further overwrite of it as a reuse, and its tally is how often it was overwritten, up to 65535 |
| ShadowTypes.FailedPropagationKeepsTypes | engine/src/world.rs:645-733 | a propagation without success leaves the type map alone, a success stamps the value with the write's number |
| PropagatedTypes.FieldForDecides | engine/src/world.rs:689-704 | the field chosen is the only one at the offset, or of several the first of eight bytes, or else the last of the largest; none is chosen if and only if none starts there |
| PropagatedTypes.FieldWriteTypes | engine/src/world.rs:671-722 | an untyped value written into a typed region becomes typed if and only if the deciding field points to a registered type with a size, and then with that type under that field's name; nothing else of the type map changes |
| PropagatedTypes.FieldWriteRegisters | engine/src/world.rs:722-730 | it is registered as an array if and only if that field points to pointers to a registered type, which is then the element type |
| PropagatedTypes.ArrayWriteTypes | engine/src/world.rs:657-667 | a value written into a registered array becomes an element of its type |
| PropagatedTypes.OtherWritesIgnored | engine/src/world.rs:654-687 | every other write leaves the map alone |
| ShadowTypes.CoveringIsInnermost | engine/src/world.rs:762-778 | the two-step search returns the innermost covering projection; it misses one only if at least two others begin inside it before the address |
| ShadowTypes.ContainingIsExact | engine/src/world.rs:1290-1298 | while allocations are disjoint the nearest base is the containing allocation if and only if it contains the address |
| DeferredReplay.PassesConserve | engine/src/world.rs:589-623 | every deferred write is offered exactly once or survives |
| DeferredReplay.PassesKeepOrder | engine/src/world.rs:592-605 | the survivors keep their order |
| DeferredReplay.PassesConverge | engine/src/world.rs:606-621 | unless all passes were used no survivor is covered |
| DeferredReplay.EightPasses | engine/src/world.rs:579-621 | a replay is at most eight passes over covered writes, each fruitful but perhaps the last, and stops before the eighth only after a fruitless pass or with nothing covered |
| DeferredReplay.PassOffers | engine/src/world.rs:589-612 | a pass offers exactly the writes that a projection reaches when it begins, in the order they were deferred, and keeps the others in theirs |
| DeferredReplay.PurgesExactly | engine/src/world.rs:637-806 | purges of a range take exactly the projections, arrays and deferred writes in it |
| DeferredReplay.ReplayMeets | engine/src/world.rs:579-625 | all of it for one replay, with its counter |
| ShadowTypeMaps.ShadowTypeMap.StampType | engine/src/world.rs:519-573 | result and every counter as specified, branch by branch |
| ShadowTypeMaps.ShadowTypeMap.PropagateFieldWrite | engine/src/world.rs:645-733 | the specified propagation, soundness kept |
| ShadowTypeMaps.ShadowTypeMap.ReplayDeferred | engine/src/world.rs:579-625 | the loops are the specified replay |
| ShadowTypeMaps.ShadowTypeMap.PurgeRange | engine/src/world.rs:800-806 | removes exactly the projections in the range and returns how many |
| ShadowTypeMaps.ShadowTypeMap.PurgeDeferredWrites | engine/src/world.rs:637-640 | keeps the writes outside the range, in order |
| ShadowTypes.DeferredAreNewest | engine/src/world.rs:629-634 | however many writes are deferred, exactly the newest 4096 are kept, in order |
| ShadowTypeMaps.ShadowTypeMap.RetrospectiveScan | engine/src/world.rs:811-924 | the loops are the specified walk |
| RetrospectiveScan.RetrospectMeets | engine/src/world.rs:811-924 | on any graph: only additions, no schism counted, each address stamped at most once through a pointer field of the seed or an earlier stamp, complete unless fuel ran out, fuel overrun by less than one node's pointer fields |
| FollowedPointers.FollowMeaning | engine/src/world.rs:848-912 | a field leads somewhere if and only if it is an eight-byte pointer to a registered type that holds a believed value, from the heap graph first and memory otherwise; the target is that value with that type |
| FollowedPointers.ArraysRegistered | engine/src/world.rs:897-908 | a value is registered as an array if and only if an eight-byte pointer to pointers to a registered type holds it, it is believed, and it is not registered yet |
| FollowedPointers.ArraysOfScan | engine/src/world.rs:840-908 | over the whole scan: arrays known before stay as they were, each new one was found in a field of a visited node, and unless fuel ran out every one found in such a field is registered |
| FollowedPointers.FuelMeaning | engine/src/world.rs:823-831 | the fuel is four stamps for each pointer field of the seed, between 64 and 256, and 64 for an untyped seed |
| FollowedPointers.BreadthFirst | engine/src/world.rs:832-924 | stamps come in the order of the nodes they were reached from, and from one node in the order of the field names |
| RetrospectiveScan.CountsExactly | engine/src/world.rs:914-923 | the count returned is the projections gained for every map, heap graph, memory and seed if and only if every registered type has a size |
| RetrospectiveScan.SortedAscends | engine/src/world.rs:913-914 | a node's targets are taken in the order of their field names |
| HeapGraphs.Run | engine/src/heap_graph.rs:230-414 | in every reachable graph each reverse-map entry names a live object with a field there, each object has at most one edge per field and the right one for each pointer |
| ClusterBirths.FindBaseResolves | engine/src/heap_graph.rs:262-272 | an address belongs to the object it was recorded in, any other to the object with the greatest base at or below it if that reaches it |
| ClusterBirths.WindowIsLast64 | engine/src/heap_graph.rs:284-292 | the window is the last 64 writes, whatever was freed or collected between |
| ClusterBirths.BirthExactly | engine/src/heap_graph.rs:329-388 | a write that resolves to nothing creates an object if and only if at least three of the last 64 writes are within 256 bytes of it and no object starts at their lowest address; size, fields, edges and first number of the object are those the writes tell, and no other object changes |
| ClusterBirths.BirthClaims | engine/src/heap_graph.rs:356-359 | the new object takes over exactly the written addresses within 256 bytes |
| ClusterBirths.NoBirthInto | engine/src/heap_graph.rs:294-327 | any other write changes no more than the object it resolves to |
| HeapGraphs.RevisedEdgeCurrent | engine/src/heap_graph.rs:298-327 | after one write the edge of a field equals what the field holds if and only if the write stored a pointer or repeats the edge's target |
| HeapGraphs.EdgeHistory | engine/src/heap_graph.rs:274-390 | over any trace, while its object lives, a field holds the last value written to it and its edge points to the last pointer written to it |
| HeapGraphs.EdgeCurrentExactly | engine/src/heap_graph.rs:325-327 | so a current edge is current later if and only if the last write to its field repeats the last pointer written there, or there was none |
| HeapGraphs.FoundIsLive | engine/src/heap_graph.rs:262-296 | the search only names live objects at or below the address, so the unwrap and the offset subtraction cannot fail |
| HeapGraphs.WriteIsRemembered | engine/src/heap_graph.rs:274-390 | whatever object the written address resolves to afterwards, known before or just clustered, its field there holds that write |
| ObjectLives.WriteRecords | engine/src/heap_graph.rs:294-327 | a write to an address that resolves to an object changes one field of it, whose size stays that of its first write and whose count rises by one, and nothing of the others |
| ObjectLives.PointerEdgeMoves | engine/src/heap_graph.rs:392-416 | a pointer takes over the edge of its field, counted once more, or adds one; the other edges stay in order |
| ObjectLives.NoLayoutsNoBelief | engine/src/heap_graph.rs:311-323 | without candidate layouts no belief changes and nothing is counted |
| ObjectLives.FreeLoses | engine/src/heap_graph.rs:230-246 | a free takes exactly the objects that start in the range and the reverse entries of their fields |
| ObjectLives.CollectLoses | engine/src/heap_graph.rs:537-552 | a collection takes exactly the objects whose last write lies further back than the age |
| HeapGraphs.ClusterLinked | engine/src/heap_graph.rs:327-388 | a new object may claim other objects' addresses and the graph stays linked |
| HeapGraphs.WithoutLinked | engine/src/heap_graph.rs:230-246 | removal through an object's own field list leaves no address owned by a removed object |
| HeapGraphs.RunBelievable | engine/src/heap_graph.rs:468-535 | in every reachable graph confidence is in [0,1], a type is named if and only if it is at least 0.5, and by the layout on top |
| HeapGraphs.HeapGraph.ProcessWrite | engine/src/heap_graph.rs:274-390 | the specified next graph, linked |
| HeapGraphs.HeapGraph.OnFree | engine/src/heap_graph.rs:230-246 | removes exactly the objects based in the freed range with their reverse entries |
| HeapGraphs.HeapGraph.GcStale | engine/src/heap_graph.rs:537-552 | removes exactly the objects last written before the threshold |
| TypeConfidence.RescoreTakesBest | engine/src/heap_graph.rs:418-463 | after a full rescore the first highest-scoring layout is on top, the rest descending, and its stored index is right if and only if it fits 16 bits |
| TypeConfidence.MatchesExtremes | engine/src/heap_graph.rs:424-432 | the match count is full if and only if every layout field was seen as expected, and zero if and only if none was |
| TypeConfidence.ScoreMeaning | engine/src/heap_graph.rs:419-443 | a score is the fraction of the layout's fields seen as they should be, one tenth more for the right size, at most 1; a layout is listed if and only if a field of it was seen or its size is right |
| TypeConfidence.CacheHoldsThree | engine/src/heap_graph.rs:445-455 | the cache holds the three best scores, all of them unless there are more |
| TypeConfidence.UpdateExactly | engine/src/heap_graph.rs:468-535 | what one write confirms, contradicts and rescores, and the confidence it leaves, in numbers |
| TypeConfidence.SortedPermutes | engine/src/heap_graph.rs:445 | ranking neither loses nor invents an entry |
| TypeConfidence.UpdateSound | engine/src/heap_graph.rs:468-535 | one write keeps confidence in [0,1] and the name in step with it |
| TypeConfidence.UpdateMoves | engine/src/heap_graph.rs:485-535 | one write never turns one name into another, and rescores only an empty cache or a collapsed confidence 1024 writes after the last time |
| TypeConfidence.NamesAreSeparated | engine/src/heap_graph.rs:468-535 | between two different names an object is unnamed at some point |
| TypeConfidence.NameOutlivesSixContradictions | engine/src/heap_graph.rs:508-535 | a name survives at most six contradicting writes in a row |
| TypeConfidence.ScoreObject | engine/src/heap_graph.rs:418-463 | the scoring loops give the specified belief |
| TypeConfidence.UpdateConfidence | engine/src/heap_graph.rs:468-535 | the branches of one update give the specified belief and counters |
| ShadowRegisters.CallRestores | engine/src/shadow_regs.rs:205-274 | after a call, any balanced trace and the return, fourteen registers have their exact pre-call shadow back, rax carries the callee's value, the rest stay as the callee left them |
| ShadowRegisters.EntryBeliefs | engine/src/shadow_regs.rs:205-245 | what each register is believed to hold on entry to a callee, by its number |
| ShadowRegisters.SnapshotObserves | engine/src/shadow_regs.rs:159-169 | after a snapshot each register is observed with its value and without a memory source |
| ShadowRegisters.ReloadThenWrite | engine/src/shadow_regs.rs:289-341 | a reloaded register is observed until a write touches a byte it came from that may have changed it; then it is stale |
| ShadowRegisters.WriteBackHits | engine/src/shadow_regs.rs:171-199 | a register is overwritten if and only if its number in the debug information is among the locals' |
| ShadowRegisters.CfiOnlyRaises | engine/src/shadow_regs.rs:276-287 | a CFI return differs from the plain one exactly by raising to CfiVerified those registers the callee preserves and the CFI lists, if they were believed better than stale and not observed |
| ShadowRegisters.BalancedKeepsStack | engine/src/shadow_regs.rs:205-287 | a balanced trace leaves the frames below it alone |
| ShadowRegisters.ShadowRegisterFile.ApplySnapshot | engine/src/shadow_regs.rs:159-169 | all eighteen registers are observed |
| ShadowRegisters.ShadowRegisterFile.ObserveRegisterWrite | engine/src/shadow_regs.rs:171-199 | the registers holding locals are overwritten, the others not |
| ShadowRegisters.ShadowRegisterFile.OnCall | engine/src/shadow_regs.rs:205-245 | saves the file and enters the callee as specified |
| ShadowRegisters.ShadowRegisterFile.OnReturn | engine/src/shadow_regs.rs:247-274 | pops and restores as specified, nothing on an empty stack |
| ShadowRegisters.ShadowRegisterFile.OnReturnCfi | engine/src/shadow_regs.rs:276-287 | restores and raises as specified |
| ShadowRegisters.CoheredExactly | engine/src/shadow_regs.rs:316-341 | a register becomes stale if and only if a byte it was loaded from is overwritten, the value differs or cannot be compared, and it was still believed; nothing else of it changes |
| ShadowRegisters.ShadowRegisterFile.CheckCoherence | engine/src/shadow_regs.rs:316-341 | does that to all eighteen registers and touches nothing else |
| CircularLogs.CircularLog.Push | engine/src/world.rs:966-992 | the kept entries are the last cap of everything pushed |
| CircularLogs.CircularLog.Items | engine/src/world.rs:1002-1011 | iteration gives them oldest first |
| CircularLogs.CircularLog.Get | engine/src/world.rs:1721-1741 | index k is the k-th oldest kept, none beyond |
| CircularLogs.CircularLog.FindFirst | engine/src/world.rs:994-996 | the oldest kept entry with the property, or none has it |
| CircularLogs.CircularLog.FindNearest | engine/src/world.rs:1751-1812 | on keys in order, the newest entry with key at most the target, or none exactly when there is none |
| CircularLogs.WindowPush | engine/src/world.rs:1696-1711 | one push drops at most the oldest kept entry and adds the new one at the end |
| CircularLogs.WindowNondecreasing | engine/src/world.rs:1751-1812 | keys pushed in order stay in order in any window |

## Left out

- Weak memory: reorderings that acquire and release allow, torn 32-byte slots, and slot reads that race with slot writes inside one step.
- Overflow of 64-bit ring positions (but for the fill of a ring whose head stands behind its tail), of addresses plus sizes near 2^64, and of the 32-bit event and write counters of heap objects.
- Signals that interrupt an inline write in flight, code emission, register reservation and fault recovery by DynamoRIO.
- BridgeRings.Ring.PushExFlags: does not model the spinning wait on a full ring, which needs the other side to run meanwhile; without the flag a full ring refuses.
- BridgeRings.Ring.PushAlloc: does not model that wait either.
- BridgeRings.Ring.PushSampled: does not model that wait either.
- BridgeRings.Ring.constructor: does not model the refusal of capacities that are not powers of two.
- Ring discovery, polling, retirement of terminal rings, the round robin of `batch_drain`, the priority bloom filter: they compose the batches of single rings in any order.
- Shared memory, `/proc`, sidecar files, process launch, printing, recording and the user interface.
- DWARF and ELF reading, the location evaluator, library globals: a call receives the address found for each local, a module load the globals.
- Rounding of 32-bit floats in scores and confidences.
- AddressIndexing.AddressIndex.Finalize: does not fix the order of intervals with equal starts, because the engine's sort is unstable.
- DeferredReplay.PassesConverge: says nothing about survivors after eight fruitful passes, which is where the code stops too.
- LossReports.LostAreReported: covers whole runs lost, not a lap that resumes inside a register snapshot, whose remaining slots the engine takes for snapshots.
- Heap and stack classification of addresses, hazards, heat maps, type stability tallies, epochs written on free, cache-line tracking and the journal.
- The longjmp-aware `pop_return_checked`: no event handler calls it.
- Piece assembly of split variables in `engine/src/shadow_regs.rs`.
