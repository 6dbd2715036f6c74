# A verified model of the RC-Immix collector

rcimmixcons is a conservative garbage collector for one mutator thread. Deferred, coalesced reference
counting runs in every collection; a tracing collection can follow it and also takes cycles. Small and
medium objects live in blocks of 32 KiB with 128 lines, and an allocator bumps a cursor through the
free runs of lines; large objects come from the system allocator. This project models the three layers
(object graph, lines, blocks), the code that joins them, and the mutator, and proves what the collector
is for: nothing reachable is ever lost, only cycles leak, a trace is exact, moving preserves the graph,
and memory is never handed out twice.

## How it is built

The source works by updating objects in place, and so do the classes here: `BlockInfo`, `BlockTable`
(the records reached by masking an address), `Memory` and `ChildIter` (headers, members and their
iterator), `BlockAllocator`, `NormalAllocator`, `OverflowAllocator`, `EvacAllocator`, `ImmixSpace`,
`LargeObjectSpace`, `RCCollector`, `ImmixCollector`, `Collector`, `Spaces` and `RCImmixCons`. Every method is proved
against a function on values, and the theorems are about those functions:

- `BlockLines`, `BlockInfos`, `BlockTables`, `BlockRecords`: line counters, holes, object maps.
- `Objects`, `ObjectMemory`, `Graph`: references, headers, members, reachability, cycles.
- `AllocatorModel`, `AllocatorProofs`, `Allocators`, `Placement`, `ImmixSpaces`: allocation.
- `RcModel`, `RcProofs`, `RcTheorems`, `RcCollectors`: reference counting. The count
  invariant of the first phase holds until the modified buffer is drained; the second phase has one of
  its own about the objects that are still valid.
- `YoungProofs`, `YoungTheorems`, `YoungBarrier`: barriers on new objects, which the contract excludes.
- `TraceModel`, `TraceProofs`, `TraceTheorems`, `TraceReady`, `MovingTrace`, `ImmixCollectors`: the
  trace, with evacuation, from an arbitrary object map. Its invariant is about an object's image: its place now.
- `SweepModel`, `LargeObjects`, `Collectors`: what happens to blocks and large objects around it.
- `SpacesModel`, `MutatorProofs`, `SpacesProofs`, `CollectProofs`, `Runs`, `Facade`: the state machine of
  mutator and collector, its invariant, and what holds after every run.
- `LineProofs`, `LineRuns`: what line counters are exactly, and what counting gives back.
- `Library`: the allocation that collects by itself.

`dafny verify dfyconfig.toml` checks everything.

## The mutator's contract

A run is any sequence of these steps (`SpacesModel.Contract`): allocate an object of a positive size
that is a multiple of eight; initialise the members of a fresh object, without a barrier, before the
next collection; call the barrier on an object that a collection has seen; write a member of an object
that is new or has been announced to the barrier; change the set of held references; collect. The
mutator uses only references it reaches. A collection finds the held references and any other valid
objects, in any order and number; whether it evacuates or traces, and with what threshold, is arbitrary.

The contract holds for the collections that nobody asks for, too: an allocation that finds no room
collects and tries again (src/lib.rs:65-69). So a second object may be allocated before the members of
the first are initialised, as tests/30_rc_collection_test.c:34-43 does, exactly as long as there is room
(`Library.RCImmixCons.Allocate`; what room means is `AllocatorProofs.AllocationFailsExactly`).

## Where code and documentation disagree

The model follows the code.

- src/lib.rs:48 asks for the barrier before every write. On a new object that breaks the buffers
  (`MutatorProofs.BarrierKeepsExactlyIfOld`). The object is buffered again when the collector first meets
  it, so that what it held at the barrier is owed one decrement each and what it holds later is counted
  twice: objects that are still held are lost as `YoungTheorems.BarriersOnNewKeepExactly` says, and none
  if no reference is dropped after the barrier (`YoungTheorems.BarriersOnNewLoseNothing`). If the
  collector never meets it, it leaks: the buffer makes it valid although it is garbage
  (`YoungTheorems.BarriersOnNewLeak`). The tests keep the contract above.
- Both guards of an evacuation ask an object map that the object has just left, so under the contract
  nothing ever moves (`Runs.RunsNeverMove`). The moving trace is therefore proved as a theorem about
  `ImmixCollector.Collect` alone.
- Line counters are upper bounds: an old object is counted again whenever its announced members are
  processed, and counted down once. `LineRuns.RunsCountLinesExactly` gives the difference; until the next
  trace a line that has been counted again is not free again (`LineRuns.RunsGiveBackByCounting`).
- A run of free lines counts as half as many holes, rounded up, not as one hole.
- The object size is rounded up to a multiple of eight for multiples of four only
  (`BlockLines.RoundsUpExactly`).
- The number of available blocks is computed with a remainder: it never includes unbuilt blocks, and if
  the memory map does not start at a block boundary it is too large by thousands, so that a trace that
  is asked for is never run (`Allocators.BlockAllocator.AvailableBlocks`, `Allocators.TraceNeedsAlignment`).
- Members are updated by the index of the child among those that are not null, which is the right
  member if and only if null members come last (`ImmixCollectors.IndexIsPosition`). A moving trace
  requires that of the objects it reaches; a trace that moves nothing does not.
- With an unaligned memory map the last block that can be built crosses the bound of valid addresses
  (`Allocators.BlocksWithinBound`). Until that block is built all methods keep their contracts over such
  a map.
- No block is ever set aside by the sweep for having no holes (`SweepModel.NoBlockIsFull`).

## Modelling choices

- An address in the immix space is a block and an offset, so masking an address to find its block is
  taking the first part; a large object's address is an opaque name.
- The forwarded flag of a header and the pointer that replaces the type information are one variant of
  an object's body.
- The bytes of objects are one memory, restricted to objects: what a collection has found invalid is
  removed from it (`Collector.FreeGarbage`, `Collector.CompleteCollection`), a step the source does not
  have, as there the bytes just become free. Uninitialised members hold arbitrary references and are
  read by nobody.
- Wherever the source asks the stack, the mapping or the system allocator, there is a parameter: the
  addresses found, the start of the map, the address of a large object.
- The two trigger thresholds are the integers the constants amount to, one hundredth of all blocks.

## Model

| member | source | states |
|---|---|---|
| Runs.RunsAreSafe | src/spaces/mod.rs:136-169 | after any run of contract-keeping mutator steps and collections of any kind, every held reference is valid in one of the spaces, so is every address a path of members leads to from it, and no initialised valid object has a dangling member |
| Runs.RunsMayCollect | src/spaces/mod.rs:123-129 | after any run, with no object waiting for its members, keeping those addresses of the stack that are valid objects loses no held reference, so that a collection of any kind keeps the contract |
| Runs.RunsNeverMove | src/spaces/immix_space/mod.rs:195-219 | after any run and for any permitted collection no guard of an evacuation is ever met: the reference counting part asks for none, the trace starts without a candidate, and however its loop runs it leaves bodies, headroom and the evacuation cursor as they were |
| Runs.RunsCount | src/spaces/collector/rc_collector.rs:84-213 | the deferred coalesced count: at every point of a run an object's count is at least its occurrences in members of objects that are neither new nor logged plus its places in the old roots and the decrement buffer, and exactly that as long as no trace has run |
| Runs.RunsCollectAcyclicGarbage | src/spaces/collector/rc_collector.rs:136-213 | a collection without a trace, in a run without traces, leaves only objects with a count of at least one that the found roots reach or that lie behind a cycle of unreachable survivors: all acyclic garbage goes at once |
| Runs.RunsCollectExactly | src/spaces/collector/mod.rs:115-195 | a collection keeps all found roots valid and everything they reach, with its members; one with a trace keeps nothing else, and leaves object maps, large objects and line counters exact |
| Runs.RunsKeepBytesApart | src/spaces/immix_space/allocator/mod.rs:51-101 | at every point of a run two objects of a block share no byte and lie whole behind its first line, although counters under-mark and holes are recycled |
| Runs.RunsCountLines | src/spaces/immix_space/block_info.rs:324-350 | at every point of a run each line counter is at least the number of valid objects that are not new and are counted on the line; the first line is never counted |
| LineRuns.RunsCountLinesExactly | src/spaces/collector/rc_collector.rs:166-211 | at every point of a run each line counter is exactly the number of valid objects that are not new and are counted on the line, plus the number of times an object has been counted on it again, as it was announced to the barrier, since the last trace |
| LineRuns.RunsCountExactlyWithoutBarrier | src/spaces/collector/rc_collector.rs:166-211 | in a run without a barrier every line counter is exactly the number of those objects |
| Runs.RunsKeepBlocks | src/spaces/collector/mod.rs:198-264 | at every point of a run each block built so far is in exactly one list, cursor or headroom, blocks do not overlap, the headroom is never more than `EVAC_HEADROOM`, and the collector holds none back |
| Runs.RunsGiveBack | src/spaces/collector/mod.rs:198-264 | a block on the free list or in the headroom after a collection holds no object; after one with a trace the blocks there are exactly those in which the found roots reach nothing; no block is forgotten or built |
| LineRuns.RunsGiveBackByCounting | src/spaces/collector/rc_collector.rs:195-213 | after a collection without a trace a block is on the free list or in the headroom if and only if no survivor lies in it and none of its lines has been counted again; in a run without a barrier, if and only if no survivor lies in it |
| Runs.RunsFillHeadroom | src/spaces/collector/mod.rs:201-213 | a collection adds to the ends of headroom and free list exactly those gathered blocks of which all lines are free, and to the free list only if the headroom then has `EVAC_HEADROOM` blocks |
| Runs.RunsRecordHoles | src/spaces/collector/mod.rs:225-264 | after a collection the record of a recyclable block has the number of its free lines that are the first, third, fifth or so of a run |
| LineRuns.RunsMarkCandidates | src/spaces/immix_space/block_info.rs:172-177 | after a collection with a threshold the recyclable blocks that are candidates are those with at least as many holes before it; without one the candidates stay |
| Runs.RunsRefuseMediumExactly | src/spaces/immix_space/allocator/overflow_allocator.rs:54-71 | at every point of a run a medium object is refused if and only if it does not fit behind the overflow allocator's cursor and no block is left |
| Runs.RunsAgreeOnMarks | src/spaces/mod.rs:151-167 | between collections the three copies of the live mark agree, every valid object carries it, and no root is left pinned |
| Runs.RunsBufferOnce | src/spaces/collector/rc_collector.rs:84-95 | between two drains an object is in the modified buffer at most once, exactly if it is logged, and never while it is new |
| Runs.StepKeeps | src/spaces/mod.rs:104-169 | every step of mutator or collector keeps the invariant of the whole state; only a trace makes counts inexact |
| Runs.RunKeeps | src/spaces/mod.rs:104-169 | the invariant holds after every run, with exact counts if no step of it was a trace |
| SpacesProofs.EmptyInv | src/spaces/mod.rs:81-89 | the invariant holds of a new heap, the first block of which is aligned |
| SpacesProofs.ReachIsValid | src/spaces/mod.rs:123-129 | under the invariant every held reference, and every address a path of members leads to from one, is a valid object, so the filter for roots loses none |
| RcTheorems.RcCollectionIsSafe | src/spaces/collector/rc_collector.rs:64-78 | from a heap in order, a collection keeps all that the roots reach with their members, leaves no dangling member, attempts no evacuation, changes neither marks nor pins, and ends in a heap in order with exact counts if they were exact |
| RcTheorems.RcCollectionIsComplete | src/spaces/collector/rc_collector.rs:195-213 | after a collection with exact counts every survivor has a count of at least one and is reachable or behind a cycle of unreachable survivors |
| RcTheorems.BuffersDrained | src/spaces/collector/rc_collector.rs:136-191 | when the modified buffer has been drained, every valid object has a count that covers what members and buffers owe it (exactly, if counts were exact), and valid are exactly the objects that are not new |
| RcProofs.ProcessRootsKeeps | src/spaces/collector/rc_collector.rs:144-151 | counting the current roots and buffering them as old roots keeps the count invariant of the first phase |
| RcProofs.ProcessLosNewKeeps | src/spaces/collector/rc_collector.rs:155-162 | counting each new large object once and owing it a decrement keeps the count invariant |
| RcProofs.IncrementChildrenKeeps | src/spaces/collector/rc_collector.rs:177-189 | counting the children of one object pays what its members owe, whatever new objects are buffered meanwhile |
| RcProofs.ProcessModsKeeps | src/spaces/collector/rc_collector.rs:166-191 | the loop over the modified buffer keeps the count, map and line invariants until nothing is buffered |
| RcProofs.PopDecKeeps | src/spaces/collector/rc_collector.rs:198-211 | one decrement keeps the invariant of the second phase: only valid objects are owed anything, their counts cover it, and lines count at least the valid objects; none becomes valid again |
| RcProofs.ProcessDecsKeeps | src/spaces/collector/rc_collector.rs:195-213 | the loop over the decrement buffer keeps this until nothing is owed |
| RcModel.ProcessMods | src/spaces/collector/rc_collector.rs:166-191 | the loop that pushes while it pops ends with an empty buffer: new objects and buffered objects together become fewer in every round |
| RcModel.ProcessDecs | src/spaces/collector/rc_collector.rs:195-213 | the loop over the decrement buffer ends with an empty buffer although reclaimed objects push their children |
| RcModel.PopDecMeasure | src/spaces/collector/rc_collector.rs:195-213 | every decrement makes the sum of all counts smaller, or leaves it and makes the buffer shorter |
| RcModel.IncrementMovesNew | src/spaces/collector/rc_collector.rs:119-134 | an increment moves at most one object from the new ones into the modified buffer |
| RcCollectors.RCCollector.WriteBarrier | src/spaces/collector/rc_collector.rs:84-95 | logs and buffers an object that is not logged and owes its children a decrement each; a second call before the next drain does nothing; never asks for a collection |
| RcCollectors.RCCollector.Increment | src/spaces/collector/rc_collector.rs:119-134 | the state afterwards is the model's: count, new flag and buffer; a wish to evacuate is recorded |
| RcCollectors.RCCollector.ProcessOldRoots | src/spaces/collector/rc_collector.rs:137-140 | moves the old roots into the decrement buffer |
| RcCollectors.RCCollector.ProcessCurrentRoots | src/spaces/collector/rc_collector.rs:144-151 | the loop over the roots has the effect of the model's recursion |
| RcCollectors.RCCollector.ProcessLosNewObjects | src/spaces/collector/rc_collector.rs:155-162 | the loop over the new large objects has the effect of the model's recursion |
| RcCollectors.RCCollector.ProcessModBuffer | src/spaces/collector/rc_collector.rs:166-191 | terminates and leaves the state the model gives for a drained modified buffer |
| RcCollectors.RCCollector.IncrementChildren | src/spaces/collector/rc_collector.rs:177-189 | the lazy iteration over members that are not null counts exactly the children, in order, where no child is forwarded |
| RcCollectors.RCCollector.ProcessDecrementBuffer | src/spaces/collector/rc_collector.rs:195-213 | terminates and leaves the state the model gives for a drained decrement buffer |
| RcCollectors.RCCollector.PopDecrement | src/spaces/collector/rc_collector.rs:198-211 | one decrement: counts down, and reclaims an unpinned object whose count drops to zero |
| RcCollectors.RCCollector.Reclaim | src/spaces/collector/rc_collector.rs:201-210 | owes the children their decrements and takes the object off map and lines, or enqueues a large one to be freed |
| RcCollectors.RCCollector.Collect | src/spaces/collector/rc_collector.rs:64-78 | the five steps together have the effect about which the theorems on reference counting are |
| MutatorProofs.BarrierKeepsExactlyIfOld | src/spaces/collector/rc_collector.rs:84-95 | the write barrier keeps the heap in order if and only if the object is not new |
| YoungTheorems.BarriersOnNewKeepExactly | src/spaces/collector/rc_collector.rs:84-95 | for any heap in order with exact counts, any number of new objects announced to the barrier, and any writes to them: an object that the next collection counts survives it if and only if it belongs to a set in which each object is pinned or has more references (those of the announced objects, those from inside of the set, and the roots) than the announced objects held to it at the barrier |
| YoungTheorems.BarriersOnNewLoseNothing | src/spaces/collector/rc_collector.rs:84-95 | if announced new objects still hold as many references to each reached object as at the barrier, everything the roots reach survives, from any heap in order |
| YoungTheorems.BarriersOnNewLose | src/spaces/collector/rc_collector.rs:84-95 | an unpinned object to which the announced objects held at the barrier at least as many references as there are left, with those of the announced objects counted twice, is lost |
| YoungTheorems.BarriersOnNewLoseExactly | src/spaces/collector/rc_collector.rs:84-95 | where everything is reached, everything survives if and only if there is no such object: a condition on numbers of references that can be checked before the collection |
| YoungTheorems.BarriersOnNewLeak | src/spaces/collector/rc_collector.rs:166-174 | an announced new object of the immix space that the collection does not count is valid afterwards, still new and with a count of zero, so that no decrement ever takes it out; this is so for each to which no root and no object refers |
| YoungProofs.PhaseCounts | src/spaces/collector/rc_collector.rs:136-191 | the loops over roots, new large objects and modified buffer keep the balance of counts, promised decrements and buffered members when new objects have been announced |
| YoungProofs.DecsDrain | src/spaces/collector/rc_collector.rs:195-213 | the loop over the decrement buffer keeps that balance, and every set of held objects |
| YoungBarrier.BarrierOnNewLosesExactly | src/lib.rs:48-48 | the smallest instance: two new objects hold references to a new one, and the barrier is called on the first before it drops some: the next collection reclaims the shared object if and only if as many references have been dropped as are left, or more |
| YoungBarrier.BarrierOnNewLosesChild | src/lib.rs:48-48 | with two references of which one is dropped, an object that a root still holds is reclaimed |
| YoungBarrier.BarrierOnNewLeaksObject | src/lib.rs:48-48 | a single new object that is announced and dropped is still in the memory after a collection without roots |
| MutatorProofs.MembersMayChange | tests/30_rc_collection_test.c:34-52 | the members of an object that is new or logged may change to any valid objects |
| MutatorProofs.NewObjectKeeps | src/spaces/immix_space/mod.rs:172-186 | entering a new object keeps the heap in order |
| ImmixCollectors.ImmixCollector.Collect | src/spaces/collector/immix_collector.rs:20-55 | the worklist loop terminates and ends with an empty queue in a state that satisfies the trace invariant, from any object map, moving or not |
| ImmixCollectors.ImmixCollector.PopObject | src/spaces/collector/immix_collector.rs:27-34 | takes an object off the queue; one that carries the mark already is done, any other is marked, valid, counted, and next to be processed |
| ImmixCollectors.ImmixCollector.ProcessChildren | src/spaces/collector/immix_collector.rs:36-51 | after the loop over the children all members of the object point to where their objects are now, each of which is done or queued |
| ImmixCollectors.ImmixCollector.ProcessChild | src/spaces/collector/immix_collector.rs:37-50 | one child: follow a forwarding pointer, or move, update and queue, or queue in place |
| ImmixCollectors.IndexIsPosition | src/spaces/collector/immix_collector.rs:36-44 | updating members by the index among those that are not null hits the right member for all of them if and only if the null members come last |
| TraceTheorems.QueuedIsWhole | src/spaces/collector/immix_collector.rs:37-49 | a queued object is never moved while it waits: it is whole at its place, and unmarked it has its old contents, so its type information can be read when its turn comes |
| MovingTrace.MovesChild | src/spaces/immix_space/mod.rs:195-219 | a concrete heap a trace may start from in which an object does move |
| TraceProofs.TraceBegins | src/spaces/collector/immix_collector.rs:25-25 | the trace invariant holds with the roots in the queue |
| TraceProofs.ChildStep | src/spaces/collector/immix_collector.rs:37-50 | processing a child keeps the invariant: a queued object is never moved while it waits, because the reason why it was not moved lasts until the trace ends |
| TraceProofs.PopMarked | src/spaces/collector/immix_collector.rs:27-29 | dropping an object that is marked already keeps the invariant |
| TraceProofs.PopUnmarked | src/spaces/collector/immix_collector.rs:29-33 | marking the first of the queue makes exactly it done, valid and counted once on each of its lines |
| TraceTheorems.AllDone | src/spaces/collector/immix_collector.rs:20-55 | when the queue is empty every object that was reachable has been marked |
| TraceTheorems.ObjectPreserved | src/spaces/immix_space/mod.rs:195-219 | after a trace that may move, each reachable object's image has its header with the new mark, its size, and its members replaced by their images; only unpinned objects of candidate blocks moved, each to bytes that lie whole in one block behind its first line and belong to no object there was before and to no other image |
| TraceTheorems.MovedExactly | src/spaces/immix_space/mod.rs:195-219 | a reachable object is moved if and only if the trace is to evacuate, the object was valid and not pinned and its block a candidate, unless the headroom is used up in the end |
| TraceTheorems.ImagesApart | src/spaces/immix_space/mod.rs:195-219 | if no two reachable objects shared a byte before the trace, no two images share one after it |
| TraceTheorems.GraphPreserved | src/spaces/collector/immix_collector.rs:20-55 | an evacuating trace preserves the graph: roots stay, reachability afterwards is the image of reachability before, members correspond one to one, none points to a forwarded object, and no copy overwrites a byte of an object, reachable or not, or of another copy |
| TraceTheorems.UnreachableUntouched | src/spaces/collector/immix_collector.rs:20-55 | objects the roots do not reach keep header and contents, and memory gains only the images |
| TraceTheorems.TraceIsExact | src/spaces/collector/mod.rs:177-182 | from cleared records a trace moves nothing, marks exactly the reachable objects, and leaves maps and counters that say exactly where they are |
| TraceTheorems.ClearedHasNoCandidates | src/spaces/collector/mod.rs:177-180 | with cleared object maps the guard of the evacuation is never met |
| TraceTheorems.TracedBlocksSay | src/spaces/collector/immix_collector.rs:30-33 | the exact records object by object and line by line |
| TraceModel.EvacAllocateFresh | src/spaces/immix_space/allocator/evac_allocator.rs:64-79 | the evacuation allocator hands out bytes of one block behind its first line that no object uses, and the next allocation will lie behind them; or it fails, and then for good |
| TraceReady.StartIsOk | src/spaces/collector/mod.rs:177-182 | what a reference counting collection leaves, with records cleared, is a state a trace can start from |
| BlockLines.HoleIsExact | src/spaces/immix_space/block_info.rs:253-283 | the scan finds a hole if and only if, beyond the given offset, there are two free lines in a row other than the last two of the block, which are never found; it starts at the second of the first such pair and ends before the next used line or at the block's end |
| BlockInfos.BlockInfo.ScanBlock | src/spaces/immix_space/block_info.rs:253-283 | the two loops with the rescan past single free lines find exactly that hole, and terminate |
| BlockLines.HoleAvoidsCountedObjects | src/spaces/immix_space/block_info.rs:253-283 | no byte of a hole belongs to an object whose counted lines are in use |
| BlockLines.UnderMarkedByAtMostOneLine | src/spaces/immix_space/block_info.rs:325-350 | the counted lines of an object miss at most the last line it touches |
| BlockLines.UnderMarkingHappens | src/spaces/immix_space/block_info.rs:325-350 | an object that is counted on fewer lines than it touches |
| BlockLines.FirstFreeLineIsNotSafe | src/spaces/immix_space/block_info.rs:260-261 | without the skipped line a hole would contain bytes of a counted object |
| BlockLines.CountedLinesInBlock | src/spaces/immix_space/block_info.rs:324-332 | the counted lines of an object are lines of its block, and never the first |
| BlockLines.RoundsUpExactly | src/gc_object.rs:194-197 | the size computed is the next multiple of eight if and only if the stored size is a multiple of four |
| BlockLines.HolesFrom | src/spaces/immix_space/block_info.rs:288-296 | the hole count is zero if and only if no line is free, and at most half of the lines, rounded up |
| BlockLines.HoleCountBounds | src/spaces/immix_space/block_info.rs:288-296 | a block has at most 64 holes, and none exactly if all lines are in use |
| BlockLines.HolesAreOddFree | src/spaces/immix_space/block_info.rs:288-296 | the hole count is the number of lines that are the first, third, fifth or so of a run of free lines |
| BlockLines.UsedLinesAre | src/spaces/immix_space/block_info.rs:200-216 | the lines in use are those with a counter above zero |
| BlockInfos.BlockInfo.CountHoles | src/spaces/immix_space/block_info.rs:288-296 | the fold that leaves a hole at every second free line counts half of every free run, rounded up |
| BlockInfos.BlockInfo.UpdateLineNums | src/spaces/immix_space/block_info.rs:324-350 | changes exactly the counted lines of the object, up or saturating down |
| BlockInfos.CoveredLines | src/spaces/immix_space/block_info.rs:324-350 | the effect of an update on each single line |
| BlockInfos.BlockInfo.ClearLineCounts | src/spaces/immix_space/block_info.rs:219-223 | all counters are zero |
| BlockInfos.BlockInfo.Reset | src/spaces/immix_space/block_info.rs:226-232 | an empty record, except that the set of new objects stays |
| BlockInfos.BlockInfo.IsEmpty | src/spaces/immix_space/block_info.rs:234-237 | holds if and only if all lines are free |
| BlockInfos.BlockInfo.IsGcObject | src/spaces/immix_space/block_info.rs:131-137 | holds if and only if the block is in use, the address is inside of it, and the map has it |
| BlockInfos.BlockInfo.RemoveNewObjectsFromMap | src/spaces/immix_space/block_info.rs:166-169 | the new objects leave the map and the set |
| BlockInfos.BlockInfo.CountHolesAndMarkedLines | src/spaces/immix_space/block_info.rs:200-204 | the stored hole count and the number of lines in use |
| BlockInfos.BlockInfo.CountHolesAndAvailableLines | src/spaces/immix_space/block_info.rs:212-216 | the stored hole count and the number of free lines |
| BlockTables.IncLinesKeeps | src/spaces/collector/rc_collector.rs:171-174 | counting an object once more, even one counted before, keeps every counter at least the number of objects on its line |
| BlockTables.DecLinesKeeps | src/spaces/collector/rc_collector.rs:204-206 | counting it down once as it leaves the map keeps the same |
| BlockTables.CountedLinesInUse | src/spaces/immix_space/block_info.rs:324-350 | a counted object has all its counted lines in use |
| BlockRecords.BlockTable.Build | src/spaces/immix_space/block_allocator.rs:137-149 | a new block gets an empty record and no other record changes |
| BlockRecords.BlockTable.IncrementLines | src/spaces/immix_space/mod.rs:81-86 | only the record of the object's block changes, in the counted lines |
| BlockRecords.BlockTable.IsGcObject | src/spaces/immix_space/mod.rs:106-112 | an address without a record is not valid |
| AllocatorModel.ScanForHole | src/spaces/immix_space/allocator/mod.rs:70-85 | what is found lies in the block, within the 16-bit bounds, and has room; the search ends because the high offset grows |
| Placement.FirstFit | src/spaces/immix_space/allocator/mod.rs:70-85 | what fits behind the cursor stays there; otherwise the result is a hole behind it, ending before the next used line, and no stretch of free lines before it, whatever its length, could have taken the object |
| Placement.SmallPlaces | src/spaces/immix_space/allocator/normal_allocator.rs:49-95 | where a small object goes: the rest of the current hole, the first hole behind it in the block that can take the object, the first hole of the last recyclable block that has one, the block returned last, the next to be built; and the cursor then lies right behind it in the same hole |
| Placement.MediumPlaces | src/spaces/immix_space/allocator/overflow_allocator.rs:54-71 | where a medium object goes: the same without recyclable blocks |
| Placement.EvacPlaces | src/spaces/immix_space/allocator/evac_allocator.rs:64-79 | where a copy goes: the current block, the last block of the headroom, or nowhere; and the cursor then lies right behind it |
| Placement.CursorBehind | src/spaces/immix_space/allocator/mod.rs:88-101 | after an allocation the cursor of the allocator that served it lies at the end of the object, in the old hole to its old end if the request fitted there; the other allocator is left alone |
| Placement.SecondBehind | src/spaces/immix_space/allocator/mod.rs:88-101 | a second object of the same kind that fits lies right behind the first |
| Placement.RecyclePlaces | src/spaces/immix_space/allocator/normal_allocator.rs:73-89 | recyclable blocks are taken from the end of the list, those without a hole are set aside in that order, and the first hole of the first other one is used |
| Allocators.ScanTuple | src/spaces/immix_space/allocator/mod.rs:70-85 | the recursion over the block's holes finds the hole that `Placement.FirstFit` describes |
| AllocatorProofs.AllocationIsSafe | src/spaces/immix_space/allocator/mod.rs:51-101 | an allocation hands out bytes of one block behind its first line that no object uses, ends at or before the hole's end, and keeps every block in exactly one place |
| AllocatorProofs.SmallAllocationFailsExactly | src/spaces/immix_space/allocator/normal_allocator.rs:73-89 | an object smaller than a line is refused if and only if the current block has no room, no recyclable block has two free lines in a row other than the last two, and no block is left |
| AllocatorProofs.AllocationFailsExactly | src/spaces/immix_space/allocator/mod.rs:51-63 | the same for small and medium objects; a medium one never goes to a recyclable block |
| AllocatorProofs.RoomForSmall | src/spaces/immix_space/allocator/mod.rs:70-85 | for such an object room in the current block means: in the current hole, or behind it two free lines in a row other than the last two |
| AllocatorProofs.RoomToEnd | src/spaces/immix_space/allocator/mod.rs:70-85 | for an object of any size, behind a hole that reaches to the block's end there is no other: there is room if and only if the object fits behind the cursor |
| AllocatorProofs.OverflowStaysToEnd | src/spaces/immix_space/allocator/overflow_allocator.rs:54-71 | the hole of the overflow allocator's current block reaches to the block's end, and does so after every allocation |
| AllocatorProofs.RecycleFailsExactly | src/spaces/immix_space/allocator/normal_allocator.rs:73-89 | recycling finds nothing if and only if no recyclable block has two free lines in a row other than the last two: every hole fits |
| AllocatorProofs.NormalSeekKeeps | src/spaces/immix_space/allocator/mod.rs:51-58 | the search for room keeps the space in order, and what it finds has room |
| AllocatorProofs.OverflowSeekKeeps | src/spaces/immix_space/allocator/overflow_allocator.rs:54-71 | the same for medium objects |
| AllocatorProofs.GetBlockIsFresh | src/spaces/immix_space/block_allocator.rs:112-149 | a block handed out holds nothing and is in use nowhere |
| AllocatorProofs.BlocksDisjoint | src/spaces/immix_space/block_allocator.rs:137-149 | two blocks have no byte in common |
| Allocators.BlocksWithinBound | src/spaces/immix_space/block_allocator.rs:39-52 | all blocks that can be built lie within the bound of valid addresses if and only if the memory map starts at a block boundary |
| Allocators.BlockAllocator.AlignedNextWhole | src/spaces/immix_space/block_allocator.rs:137-149 | over a map that starts at a block boundary, the next block to be built never crosses the bound |
| Allocators.BlockAllocator.GetBlock | src/spaces/immix_space/block_allocator.rs:112-114 | returned blocks last in first out, then a new one |
| Allocators.BlockAllocator.BuildNextBlock | src/spaces/immix_space/block_allocator.rs:137-149 | the next block and its empty record, or nothing at the bound |
| Allocators.BlockAllocator.AvailableBlocks | src/spaces/immix_space/block_allocator.rs:122-124 | whatever has been built, the number returned is the base of the map modulo the block size plus the length of the free list |
| Allocators.TraceNeedsAlignment | src/spaces/collector/mod.rs:99-100 | on a map that starts at a page, a trace that is asked for is run if and only if the map starts at a block boundary too and fewer than the trigger's blocks are on the free list |
| Allocators.BlockAllocator.IsInSpace | src/spaces/immix_space/block_allocator.rs:127-130 | holds exactly strictly between the start of the map and its bound, for any address |
| Allocators.NormalAllocator.HandleNoHole | src/spaces/immix_space/allocator/normal_allocator.rs:73-89 | recyclable blocks from the end of the list until one has a hole; exhausted ones are set aside; the try after a hole that does not fit is never made |
| Allocators.NormalAllocator.Allocate | src/spaces/immix_space/allocator/mod.rs:51-63 | the current block, else a recyclable one, else a new one: the address and state of the model |
| Allocators.OverflowAllocator.Allocate | src/spaces/immix_space/allocator/mod.rs:51-63 | the current block, else a new one: the address and state of the model |
| Allocators.EvacAllocator.Allocate | src/spaces/immix_space/allocator/mod.rs:51-63 | the current block, else one of the headroom: the address and state of the model |
| Allocators.NormalAllocateFrame | src/spaces/immix_space/allocator/normal_allocator.rs:49-95 | the normal allocator touches no other allocator and forgets no block |
| ImmixSpaces.ImmixSpace.Allocate | src/spaces/immix_space/mod.rs:172-186 | the object's header is fresh with the current mark, and its address is new and valid; without room nothing is entered |
| ImmixSpaces.ImmixSpace.MaybeEvacuate | src/spaces/immix_space/mod.rs:195-219 | moves an unpinned object of a candidate block if there is headroom: the copy keeps header and contents, the old place forwards to it |
| ImmixSpaces.ImmixSpace.IsGcObject | src/spaces/immix_space/mod.rs:106-112 | the test of the bounds before the record changes no answer |
| ImmixSpaces.ImmixSpace.GetAllBlocks | src/spaces/immix_space/mod.rs:158-166 | all blocks of lists and cursors, and the allocators are left without any; the headroom stays |
| SweepModel.FatesPartition | src/spaces/collector/mod.rs:225-264 | the sweep neither loses nor duplicates a block |
| SweepModel.NoBlockIsFull | src/spaces/collector/mod.rs:225-264 | as the first line is never counted, a swept block is freed if and only if all its lines are free, and recycled otherwise: the case without holes does not occur |
| SweepModel.EnoughIsMonotone | src/spaces/collector/mod.rs:279-287 | once the test of the threshold loop holds it holds for every larger threshold |
| SweepModel.EnoughMeans | src/spaces/collector/mod.rs:268-289 | the test asks that the lines of the headroom, one less per block, are made up by the free lines of the blocks with at most so many holes and by the lines that such blocks had in use after the last sweep |
| SweepModel.WithFateConcat | src/spaces/collector/mod.rs:225-264 | the lists of swept blocks are in the order in which the blocks were gathered |
| SweepModel.WithFateOne | src/spaces/collector/mod.rs:225-264 | a single block is in the list of its fate and in no other |
| Collectors.Collector.EstablishHoleThreshold | src/spaces/collector/mod.rs:268-289 | the value, which is the least number of holes that passes the test, or 128 if none does; the histogram it uses holds, per hole count, the sum of free lines over all blocks |
| Collectors.Collector.SweepAllBlocks | src/spaces/collector/mod.rs:225-264 | empties are reset, the others counted; the three lists and the histogram are those of the blocks' fates |
| Collectors.SweepMore | src/spaces/collector/mod.rs:230-261 | one more block in the sweep, met for the first time or again |
| Collectors.Collector.HandOutBlocks | src/spaces/collector/mod.rs:201-213 | freed blocks fill the headroom up to its size, the rest is returned, recyclable ones go to the normal allocator; the histogram holds, per hole count, the sum of used lines over all blocks |
| Collectors.Collector.PrepareCollection | src/spaces/collector/mod.rs:79-109 | a collection evacuates if and only if it was asked for or blocks are scarce, and the least number of holes that passes the test is between 1 and 127; that number then is the threshold, and the blocks with at least as many holes are the candidates; it traces if and only if that was asked for and blocks are scarce |
| Collectors.Collector.PerformRcCollection | src/spaces/collector/mod.rs:133-163 | new objects leave the maps, the counts decide, and large garbage is freed: the result is the model's |
| Collectors.Collector.PerformImmixCollection | src/spaces/collector/mod.rs:166-195 | with records cleared, exactly what the roots reach is marked, valid and counted, and nothing moves |
| Collectors.Collector.CompleteCollection | src/spaces/collector/mod.rs:198-217 | the sweep of blocks, and after a trace that of large objects |
| Collectors.Collector.Collect | src/spaces/collector/mod.rs:115-130 | reference counting always, then the trace if the kind of collection asks for it |
| LargeObjects.LargeObjectSpace.Allocate | src/spaces/large_object_space.rs:78-93 | a new and valid object at the address the system gave, or nothing |
| LargeObjects.LargeObjectSpace.ProcessFreeBuffer | src/spaces/large_object_space.rs:96-106 | frees each valid object of the buffer once, and no other |
| LargeObjects.LargeObjectSpace.Sweep | src/spaces/large_object_space.rs:110-121 | keeps exactly the objects with the next mark and frees the others |
| LargeObjects.LargeObjectSpace.GetNewObjects | src/spaces/large_object_space.rs:65-67 | hands out the new objects and forgets them |
| CollectProofs.CollectKeeps | src/spaces/mod.rs:136-169 | a collection of any kind keeps the invariant and everything the found roots reach, tries no evacuation in its first part, and leaves nothing new, buffered or owed |
| CollectProofs.RcSettles | src/spaces/collector/mod.rs:133-152 | the first part of a collection can always be run, and leaves a state for trace and sweep with the roots still pinned |
| CollectProofs.TraceSettles | src/spaces/collector/mod.rs:166-195 | the second part leaves exactly what the roots reach, under the new mark |
| CollectProofs.CompleteKeeps | src/spaces/collector/mod.rs:198-217 | sweep, unpinning and flip lead to the next state in order without changing what is valid |
| CollectProofs.SweepKeepsStock | src/spaces/collector/mod.rs:198-217 | the sweep moves blocks between places only |
| CollectProofs.OthersAreFree | src/spaces/mod.rs:141-141 | a block the collector does not get hold of is on a free list and empty |
| SpacesProofs.SmallAllocKeeps | src/spaces/mod.rs:114-119 | an allocation in the immix space keeps the invariant of the whole state |
| SpacesProofs.LargeAllocKeeps | src/spaces/mod.rs:114-119 | so does one in the large object space |
| SpacesProofs.WriteKeeps | tests/30_rc_collection_test.c:34-52 | so does a write to an object that is new or logged |
| SpacesProofs.BarrierStepKeeps | src/spaces/mod.rs:104-110 | so does the barrier on an object that is not new |
| Facade.Spaces.Collect | src/spaces/mod.rs:136-169 | from any heap in order, the pinning, collecting, sweeping, unpinning and flipping of the source has exactly the effect of the machine's collection step for exactly the valid addresses of the stack, in order, and the heap is in order again; whether it traces or evacuates, and with what threshold, is determined by the arguments, the free list, the base of the map and the histogram, and the histogram afterwards is that of the swept blocks |
| Facade.Spaces.CollectRoots | src/spaces/mod.rs:123-129 | of the addresses found, exactly those of valid objects, in order and as often as they were found |
| Facade.Spaces.Allocate | src/spaces/mod.rs:114-119 | has exactly the effect of the machine's allocation step; if the system has no memory for a large object nothing changes |
| Library.RCImmixCons.Allocate | src/lib.rs:65-69 | collects, from the valid addresses of the stack and asking for evacuation and trace, if and only if there is no room for the object, and then tries once more; it returns the object the successful attempt entered, or nothing if and only if both were refused; so objects may wait for their members exactly as long as there is room |
| Library.AttemptKeeps | src/lib.rs:65-69 | one attempt keeps the heap in order, fails exactly without room, and then leaves objects and roots alone |
| Facade.Spaces.WriteBarrier | src/spaces/mod.rs:104-110 | has exactly the effect of the machine's barrier step on any valid object, and none on any other address |
| Facade.Spaces.SetPinned | src/spaces/mod.rs:143-165 | pins or unpins exactly the given objects |
| Facade.Spaces.constructor | src/spaces/mod.rs:81-89 | over a memory map that starts anywhere, a new heap is the machine's empty state |
| ObjectMemory.Memory.Increment | src/gc_object.rs:214-224 | counts up, clears the new flag, and returns what it was |
| ObjectMemory.Memory.Decrement | src/gc_object.rs:203-210 | counts down but not below zero, and tells whether this reached zero |
| ObjectMemory.Memory.SetMarked | src/gc_object.rs:133-138 | sets the mark and tells whether it was set before |
| ObjectMemory.Memory.SetLogged | src/gc_object.rs:124-129 | sets the logged state and returns the previous one |
| ObjectMemory.ChildIter.Next | src/gc_object.rs:267-275 | the next member that is not null, and only null members are passed over |
| Objects.NonNullMember | src/gc_object.rs:239-245 | the children are exactly the references among the members |
| Graph.ParentsMeanCycle | src/spaces/collector/rc_collector.rs:195-213 | in a finite graph an object whose ancestors all have parents lies behind a cycle |
| Graph.ReachableLeast | src/spaces/collector/immix_collector.rs:20-55 | what is reachable is the least set with the roots that is closed under members |

## Left out

- RcCollectors.RCCollector.Increment: the move of a new object during reference counting is recorded as a wish (`evacTried`), not performed; `RcTheorems.RcCollectionIsSafe` proves that the wish never arises in a run.
- RcCollectors.RCCollector.IncrementChildren: heaps with forwarded children are excluded (`RcModel.Wf`), and with them the branch that follows a forwarding pointer; no run has any, as nothing ever moves (`Runs.RunsNeverMove`).
- TraceTheorems.GraphPreserved: a moving trace is not part of whole runs, since none happens in them.
- SpacesModel.Contract: an allocation whose members are never initialised, and sizes that are not multiples of eight, are not steps of a run.
- Facade.Spaces.Collect: which addresses are found on stack and registers is an argument; stack scanning, static roots and thread calls are not modelled.
- YoungTheorems.BarriersOnNewKeepExactly: is about a collection that does not evacuate; in one that does, an announced object that is met after it has left the buffer is valid already, and could be moved.
- Facade.Spaces.Allocate: what happens once the block that crosses the bound of an unaligned map has been built, when addresses behind the bound are not valid.
- The C interface, debug output and everything for valgrind, including the backup of object maps.
- Mapping and unmapping memory, malloc and free; destructors.
- The configurations without reference counting, without a large object space, without evacuation, and with a threshold for the write barrier: the constants are as shipped.
- Overflow of reference counts and line counters, which are unbounded here.
- Raw layout of objects and the copies of bytes: an object is its header, size and members.
