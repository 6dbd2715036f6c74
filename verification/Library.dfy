/**
  The collector's public face (src/lib.rs): an allocation that finds no room collects by itself and
  tries again.
 */
module Library {
  import opened Constants
  import opened Wrappers
  import opened Objects
  import opened Graph
  import opened AllocatorModel
  import opened AllocatorProofs
  import opened ImmixSpaces
  import opened SweepModel
  import opened SpacesModel
  import opened SpacesProofs
  import opened CollectProofs
  import opened BlockRecords
  import opened Allocators
  import opened Runs
  import opened Collectors
  import opened Facade

  /** No room: in the immix space for a small or medium object, or from the system for a large one. */
  ghost predicate Refused(w: World, size: nat, address: Option<Ref>) {
    if size < LARGE_OBJECT then NoRoom(w.sp, size) else address.None?
  }

  /** The state after an attempt to allocate; the system's refusal changes nothing. */
  ghost function Attempted(w: World, size: nat, junk: seq<Slot>, address: Option<Ref>): World
    requires Inv(w, false) && MayAllocate(w, size, address)
  {
    if size >= LARGE_OBJECT && address.None? then w
    else
      Step(w, Alloc(size, junk, if address.Some? then address.value else Large(0)))
  }

  /** Sizes are positive multiples of eight, and the system hands out addresses that are not in use. */
  ghost predicate MayAllocate(w: World, size: nat, address: Option<Ref>) {
    && 0 < size && size % 8 == 0
    && (size >= LARGE_OBJECT && address.Some? ==> address.value.Large? && address.value !in w.hs)
  }

  /** An attempt keeps the invariant; a refused one hands out nothing and leaves the mutator's view alone. */
  lemma AttemptKeeps(w: World, size: nat, junk: seq<Slot>, address: Option<Ref>)
    requires Inv(w, false) && MayAllocate(w, size, address)
    ensures Known(w.sp) && Inv(Attempted(w, size, junk, address), false)
    ensures !(size >= LARGE_OBJECT && address.None?) ==>
      var r := AllocStep(w, size, junk, if address.Some? then address.value else Large(0));
      Attempted(w, size, junk, address) == r.0 && (r.1.None? <==> Refused(w, size, address))
    ensures Refused(w, size, address) ==>
      var a := Attempted(w, size, junk, address);
      a.raw == w.raw && a.roots == w.roots && a.hs == w.hs && a.sp.ba.data == w.sp.ba.data
  {
    hide Inv, SpaceAllocate, NoRoom, EnterObject;
    InvSpace(w, false);
    InvKnown(w.sp, GraphOf(w).bs, w.all);
    if !(size >= LARGE_OBJECT && address.None?) {
      StepKeeps(w, Alloc(size, junk, if address.Some? then address.value else Large(0)), false);
    }
    if size < LARGE_OBJECT {
      AllocationFailsExactly(w.sp, size);
      AllocatedKnown(w.sp, size);
      if NoRoom(w.sp, size) {
        RefusedBuildsNothing(w.sp, size);
      }
    }
  }

  lemma RefusedBuildsNothing(sp: Space, size: nat)
    requires Known(sp) && 0 < size < LARGE_OBJECT && NoRoom(sp, size)
    ensures SpaceAllocate(sp, size).0.ba.data == sp.ba.data
  {
    hide ScanForHole, NormalRecycle, NoRoom;
    assert sp.ba.free == [] && sp.ba.data + BLOCK_SIZE >= sp.ba.bound by { NoBlockLeft(sp, size); }
    if size < MEDIUM_OBJECT {
      var s1 := NormalScan(sp, size);
      if s1.normal.current.None? {
        NormalRecycleFrame(s1, size);
      }
    }
  }

  lemma NoBlockLeft(sp: Space, size: nat)
    requires NoRoom(sp, size)
    ensures sp.ba.free == [] && sp.ba.data + BLOCK_SIZE >= sp.ba.bound
  {
  }

  /** What an allocation has done: the steps of the machine between its beginning and its end. */
  datatype Course =
    | AtOnce
    | Collected(found: seq<Ref>, kind: CollectionType, threshold: Option<nat>)

  /** A collection was asked to evacuate and to trace; what came of it depends on the blocks and the histogram. */
  ghost predicate AskedForAll(w: World, mmap: nat, marked: map<nat, nat>, c: Course)
    requires c.Collected?
  {
    var all := w.all + GetAllBlocks(w.sp);
    (forall b :: b in all ==> b in w.sp.blocks) && Decided(w.sp, all, mmap, marked, true, true, c.kind, c.threshold)
  }

  /** One whole collection, from the valid addresses of the stack. */
  ghost predicate Collects(w: World, w': World, stack: seq<Ref>, c: Course)
    requires Inv(w, false) && c.Collected?
  {
    var e := Event.Collect(c.found, c.kind.IsEvac(), c.kind.IsImmix(), c.threshold);
    c.found == FoundOn(w, stack) && Contract(w, e) && Inv(w', false) && w' == Step(w, e)
  }

  /** A second attempt after a whole collection, and what it hands out. */
  ghost predicate Retried(w: World, w': World, size: nat, junk: seq<Slot>, again: Option<Ref>, stack: seq<Ref>,
      r: Option<Ref>, c: Course)
    requires Inv(w, false) && c.Collected?
  {
    exists w2 ::
      Collects(w, w2, stack, c) && MayAllocate(w2, size, again)
      && w' == Attempted(w2, size, junk, again) && HandsOut(w2, size, junk, again, r)
  }

  /** The result of an attempt: the object that has been entered, or nothing exactly if there is no room. */
  ghost predicate HandsOut(w: World, size: nat, junk: seq<Slot>, address: Option<Ref>, r: Option<Ref>) {
    && Known(w.sp)
    && (r.None? <==> Refused(w, size, address))
    && (r.Some? ==> AllocStep(w, size, junk, if address.Some? then address.value else Large(0)).1 == r)
  }

  /** The states an allocation goes through: a refused attempt, a collection, and a second attempt. */
  ghost predicate Follows(w: World, w': World, size: nat, junk: seq<Slot>, address: Option<Ref>, again: Option<Ref>,
      stack: seq<Ref>, r: Option<Ref>, c: Course, mmap: nat, marked: map<nat, nat>)
    requires Inv(w, false) && MayAllocate(w, size, address)
  {
    var w1 := Attempted(w, size, junk, address);
    match c
    case AtOnce => r.Some? && w' == w1 && HandsOut(w, size, junk, address, r)
    case Collected(_, _, _) =>
      && Refused(w, size, address) && Inv(w1, false) && AskedForAll(w1, mmap, marked, c)
      && Retried(w1, w', size, junk, again, stack, r, c)
  }

  class RCImmixCons {
    const spaces: Spaces

    constructor (mmap: nat)
      ensures spaces.Valid() && spaces.immixSpace.blockAllocator.mmap == mmap
      ensures spaces.View() == Empty(Aligned(mmap), mmap + HEAP_SIZE)
    {
      spaces := new Spaces(mmap);
    }

    /** One attempt. */
    method Attempt(size: nat, junk: seq<Slot>, address: Option<Ref>) returns (r: Option<Ref>)
      requires spaces.Valid() && Inv(spaces.View(), false) && MayAllocate(spaces.View(), size, address)
      modifies spaces`roots, spaces`raw, spaces.memory, spaces.immixSpace.table, spaces.immixSpace.table.Cells(),
        spaces.immixSpace.blockAllocator, spaces.immixSpace.allocator, spaces.immixSpace.overflowAllocator,
        spaces.largeObjectSpace
      ensures Inv(spaces.View(), false) && spaces.View() == Attempted(old(spaces.View()), size, junk, address)
      ensures r.None? <==> Refused(old(spaces.View()), size, address)
      ensures HandsOut(old(spaces.View()), size, junk, address, r)
      ensures r.Some? ==> r.value in spaces.roots
      ensures old(spaces.immixSpace.blockAllocator.NextWhole()) ==> spaces.Valid()
      ensures r.None? ==> spaces.Valid() && spaces.raw == old(spaces.raw) && spaces.roots == old(spaces.roots)
      ensures r.None? ==> spaces.memory.headers == old(spaces.memory.headers)
      ensures r.None? ==> spaces.immixSpace.blockAllocator.data == old(spaces.immixSpace.blockAllocator.data)
      ensures fresh(spaces.immixSpace.table.Cells() - old(spaces.immixSpace.table.Cells()))
    {
      hide Inv, NoRoom, Known, BlockTable.Blocks, BlockAllocator.Valid, SpaceAllocate, EnterObject;
      AttemptKeeps(spaces.View(), size, junk, address);
      r := spaces.Allocate(size, junk, address);
    }

    /**
      Collects if and only if there is no room for the object, and then tries once more. So an object
      whose members are not initialised yet may be around exactly as long as there is room: a collection
      would read what its members happen to hold.
     */
    method Allocate(size: nat, junk: seq<Slot>, address: Option<Ref>, again: Option<Ref>, stack: seq<Ref>)
      returns (r: Option<Ref>, c: Course)
      requires spaces.Valid() && Inv(spaces.View(), false) && MayAllocate(spaces.View(), size, address)
      requires size >= LARGE_OBJECT && again.Some? ==> again.value.Large? && again.value !in spaces.memory.headers
      requires Refused(spaces.View(), size, address) ==> spaces.raw == {} && spaces.roots <= RootSet(stack)
      modifies spaces, spaces.memory, spaces.immixSpace, spaces.immixSpace.table, spaces.immixSpace.table.Cells(),
        spaces.immixSpace.blockAllocator, spaces.immixSpace.allocator, spaces.immixSpace.overflowAllocator,
        spaces.immixSpace.evacAllocator, spaces.largeObjectSpace, spaces.collector, spaces.collector.rcCollector
      ensures old(spaces.immixSpace.blockAllocator.NextWhole()) ==> spaces.Valid()
      ensures Inv(spaces.View(), false)
      ensures c.Collected? <==> Refused(old(spaces.View()), size, address)
      ensures Follows(old(spaces.View()), spaces.View(), size, junk, address, again, stack, r, c,
                spaces.immixSpace.blockAllocator.mmap, old(spaces.collector.markHistogram))
      ensures r.Some? ==> r.value in spaces.roots
    {
      hide Inv, Contract, Refused, Attempted, Retried, AllocStep, AskedForAll, Known, BlockTable.Blocks,
        BlockAllocator.Valid;
      r := Attempt(size, junk, address);
      if r.Some? {
        c := AtOnce;
      } else {
        r, c := CollectAndRetry(size, junk, again, stack);
      }
    }

    /** The collection that a refused attempt asks for, and the second attempt. */
    method CollectAndRetry(size: nat, junk: seq<Slot>, again: Option<Ref>, stack: seq<Ref>) returns (r: Option<Ref>,
        c: Course)
      requires spaces.Valid() && Inv(spaces.View(), false) && MayAllocate(spaces.View(), size, again)
      requires spaces.raw == {} && spaces.roots <= RootSet(stack)
      modifies spaces, spaces.memory, spaces.immixSpace, spaces.immixSpace.table, spaces.immixSpace.table.Cells(),
        spaces.immixSpace.blockAllocator, spaces.immixSpace.allocator, spaces.immixSpace.overflowAllocator,
        spaces.immixSpace.evacAllocator, spaces.largeObjectSpace, spaces.collector, spaces.collector.rcCollector
      ensures old(spaces.immixSpace.blockAllocator.NextWhole()) ==> spaces.Valid()
      ensures Inv(spaces.View(), false) && c.Collected?
      ensures AskedForAll(old(spaces.View()), spaces.immixSpace.blockAllocator.mmap,
                old(spaces.collector.markHistogram), c)
      ensures Retried(old(spaces.View()), spaces.View(), size, junk, again, stack, r, c)
      ensures r.Some? ==> r.value in spaces.roots
    {
      hide Inv, Attempted, Collects, AskedForAll, HandsOut, Known, BlockTable.Blocks, BlockAllocator.Valid;
      c := CollectAll(stack);
      ghost var w2 := spaces.View();
      r := Attempt(size, junk, again);
    }

    /** A collection of every kind that may help. */
    method CollectAll(stack: seq<Ref>) returns (c: Course)
      requires spaces.Valid() && Inv(spaces.View(), false) && spaces.raw == {} && spaces.roots <= RootSet(stack)
      modifies spaces`currentLiveMark, spaces.memory, spaces.immixSpace`currentLiveMark,
        spaces.immixSpace.table.Cells(),
        spaces.immixSpace.allocator, spaces.immixSpace.overflowAllocator, spaces.immixSpace.evacAllocator,
        spaces.immixSpace.blockAllocator, spaces.largeObjectSpace,
        spaces.collector`allBlocks, spaces.collector`markHistogram, spaces.collector.rcCollector
      ensures spaces.Valid() && Inv(spaces.View(), false) && c.Collected?
      ensures Collects(old(spaces.View()), spaces.View(), stack, c)
      ensures AskedForAll(old(spaces.View()), spaces.immixSpace.blockAllocator.mmap,
                old(spaces.collector.markHistogram), c)
      ensures spaces.memory.headers.Keys <= old(spaces.memory.headers).Keys
      ensures spaces.immixSpace.blockAllocator.data == old(spaces.immixSpace.blockAllocator.data)
    {
      hide Inv, Contract, CollectStep, Step, Known, BlockTable.Blocks, BlockAllocator.Valid, Decided;
      ghost var w := spaces.View();
      var found, t, threshold := spaces.Collect(stack, true, true);
      c := Collected(found, t, threshold);
      StepIs(w, found, t.IsEvac(), t.IsImmix(), threshold);
      CollectForgets(w, found, t.IsEvac(), t.IsImmix(), threshold);
    }
  }

  /** A collection leaves no object that was not there before, and builds no block. */
  lemma CollectForgets(w: World, found: seq<Ref>, evac: bool, immix: bool, threshold: Option<nat>)
    requires Inv(w, false) && Contract(w, Collect(found, evac, immix, threshold))
    ensures CollectReady(w, found, evac, immix, threshold)
    ensures CollectStep(w, found, evac, immix, threshold).hs.Keys <= w.hs.Keys
    ensures CollectStep(w, found, evac, immix, threshold).sp.ba.data == w.sp.ba.data
  {
    CollectBuildsNothing(w, found, evac, immix, threshold);
    hide Inv, Contract, CollectStep;
    CollectKeeps(w, found, evac, immix, threshold, false);
    KeysAgree(w);
    var w' := CollectStep(w, found, evac, immix, threshold);
    StillInv(w', immix);
    KeysAgree(w');
  }

  lemma CollectBuildsNothing(w: World, found: seq<Ref>, evac: bool, immix: bool, threshold: Option<nat>)
    requires Inv(w, false) && Contract(w, Collect(found, evac, immix, threshold))
    ensures CollectReady(w, found, evac, immix, threshold)
    ensures CollectStep(w, found, evac, immix, threshold).sp.ba.data == w.sp.ba.data
  {
    hide Inv, Contract, AfterCollectors, RcReady;
    CollectKeeps(w, found, evac, immix, threshold, false);
  }
}
