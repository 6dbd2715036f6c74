/**
  The spaces as the mutator meets them (src/spaces/mod.rs): allocation, the write barrier, and
  collections. Every method does one step of the machine whose runs module `Runs` is about.
 */
module Facade {
  import opened Constants
  import opened Wrappers
  import opened Objects
  import opened ObjectMemory
  import opened BlockTables
  import opened BlockRecords
  import opened Allocators
  import opened Graph
  import opened RcModel
  import opened RcProofs
  import opened RcTheorems
  import opened AllocatorModel
  import opened AllocatorProofs
  import opened TraceTheorems
  import opened SweepModel
  import opened SpacesModel
  import opened SpacesProofs
  import opened CollectProofs
  import opened ImmixSpaces
  import opened LargeObjects
  import opened Collectors

  /**
    The kind of a collection and its threshold: it traces if and only if that is asked for and what is
    taken for the number of available blocks is small; it evacuates if and only if that is asked for or
    that number with the headroom is small, and the least number of holes for which the free lines
    suffice is neither zero nor too large. `marked` is the histogram the last sweep has left.
   */
  ghost predicate Decided(sp: Space, all: seq<nat>, mmap: nat, marked: map<nat, nat>, evacuation: bool,
      cycleCollect: bool,
    t: CollectionType, threshold: Option<nat>)
    requires forall b :: b in all ==> b in sp.blocks
  {
    var available := mmap % BLOCK_SIZE + |sp.ba.free|;
    var holes := HoleThreshold(|sp.evac.headroom|, marked, AvailableOf(all, sp.blocks), 0);
    && (t.IsImmix() <==> cycleCollect && available < CYCLE_TRIGGER_BLOCKS)
    && (t.IsEvac() <==>
        (evacuation || available + |sp.evac.headroom| < EVAC_TRIGGER_BLOCKS) && 0 < holes < NUM_LINES)
    && threshold == if t.IsEvac() then Some(holes) else None
  }

  class Spaces {
    const memory: Memory
    const immixSpace: ImmixSpace
    const largeObjectSpace: LargeObjectSpace
    const collector: Collector
    var currentLiveMark: bool

    /** What the mutator holds, and which of its objects it has not initialised yet. */
    ghost var roots: set<Ref>
    ghost var raw: set<Ref>

    ghost function View(): World
      reads this, memory, immixSpace, immixSpace.table, immixSpace.table.Cells(), immixSpace.blockAllocator,
        immixSpace.allocator,
        immixSpace.overflowAllocator, immixSpace.evacAllocator, largeObjectSpace, collector, collector.rcCollector
    {
      World(memory.headers, memory.bodies, immixSpace.View(), largeObjectSpace.View(),
        collector.rcCollector.oldRootBuffer, collector.rcCollector.decrementBuffer,
        collector.rcCollector.modifiedBuffer, collector.allBlocks, currentLiveMark, roots, raw)
    }

    ghost predicate Valid()
      reads this, immixSpace, immixSpace.blockAllocator, immixSpace.table, collector, collector.rcCollector
    {
      && collector.Valid(immixSpace, largeObjectSpace) && collector.memory == memory
      && this !in immixSpace.table.Cells()
      && !collector.rcCollector.evacTried
    }

    /** An empty heap over a memory map that starts anywhere. */
    constructor (mmap: nat)
      ensures Valid() && immixSpace.blockAllocator.mmap == mmap
      ensures View() == Empty(Aligned(mmap), mmap + HEAP_SIZE)
    {
      var m := new Memory();
      var s := new ImmixSpace(m, mmap);
      var l := new LargeObjectSpace(m);
      var c := new Collector(m);
      memory, immixSpace, largeObjectSpace, collector := m, s, l, c;
      currentLiveMark, roots, raw := false, {}, {};
    }

    method IsGcObject(o: Ref) returns (r: bool)
      requires Valid()
      ensures r <==> IsGc(immixSpace.table.Blocks(), o) || o in largeObjectSpace.objects
    {
      r := immixSpace.IsGcObject(o);
      if !r {
        r := largeObjectSpace.IsGcObject(o);
      }
    }

    /** The addresses found on the stack that are valid objects, in order. */
    method CollectRoots(stack: seq<Ref>) returns (found: seq<Ref>)
      requires Valid()
      ensures found == FoundOn(View(), stack)
    {
      hide BlockTable.Blocks, BlockAllocator.Valid, IsGc;
      found := [];
      for i := 0 to |stack|
        invariant found == FoundOn(View(), stack[..i])
      {
        var valid := IsGcObject(stack[i]);
        if valid {
          found := found + [stack[i]];
        }
        assert stack[..i + 1][..i] == stack[..i];
      }
      assert stack[..|stack|] == stack;
    }

    method SetPinned(objects: seq<Ref>, value: bool)
      requires Valid() && forall o :: o in objects ==> o in memory.headers
      modifies memory`headers
      ensures memory.headers == SetPins(old(memory.headers), objects, value)
    {
      ghost var before := memory.headers;
      for i := 0 to |objects|
        invariant memory.headers == SetPins(before, objects[..i], value)
      {
        memory.SetPinned(objects[i], value);
        assert forall o :: o in objects[..i + 1] <==> o in objects[..i] || o == objects[i];
      }
      assert objects[..|objects|] == objects;
    }

    /**
      Allocates an object whose members hold whatever the memory held. Large ones are placed by the
      system allocator, at `address` if it has one; without room nothing is entered. Should the object
      need a new block, that one must not cross the bound of valid addresses for what follows.
     */
    method Allocate(size: nat, junk: seq<Slot>, address: Option<Ref>) returns (r: Option<Ref>)
      requires Valid() && Known(immixSpace.View())
      modifies this`roots, this`raw, memory, immixSpace.table, immixSpace.table.Cells(), immixSpace.blockAllocator,
        immixSpace.allocator, immixSpace.overflowAllocator, largeObjectSpace
      ensures old(immixSpace.blockAllocator.NextWhole()) ==> Valid()
      ensures View().sp.ba.data == old(View()).sp.ba.data ==> Valid()
      ensures r.Some? ==> r.value in roots
      ensures fresh(immixSpace.table.Cells() - old(immixSpace.table.Cells()))
      ensures Known(immixSpace.View())
      ensures if size >= LARGE_OBJECT && address.None? then r.None? && View() == old(View())
        else (View(), r) == AllocStep(old(View()), size, junk, if address.Some? then address.value else Large(0))
    {
      hide BlockTable.Blocks, BlockAllocator.Valid, SpaceAllocate, EnterObject, Known;
      if size < LARGE_OBJECT {
        r := AllocateSmall(size, junk);
      } else {
        r := AllocateLarge(size, junk, address);
      }
      ghost var sp := immixSpace.View();
      if r.Some? {
        roots := roots + {r.value};
        raw := raw + {r.value};
      }
      assert immixSpace.table.Blocks() == sp.blocks;
    }

    method AllocateSmall(size: nat, junk: seq<Slot>) returns (r: Option<Ref>)
      requires Valid() && Known(immixSpace.View()) && size < LARGE_OBJECT
      modifies memory, immixSpace.table, immixSpace.table.Cells(), immixSpace.blockAllocator, immixSpace.allocator,
        immixSpace.overflowAllocator
      ensures (old(immixSpace.blockAllocator.NextWhole())
               || immixSpace.View().ba.data == old(immixSpace.View()).ba.data) ==> Valid()
      ensures Known(immixSpace.View()) && this !in immixSpace.table.Cells()
      ensures fresh(immixSpace.table.Cells() - old(immixSpace.table.Cells()))
      ensures var w := old(View());
        var a := AllocStep(w, size, junk, Large(0));
        a.1 == r && View() == a.0.(roots := w.roots, raw := w.raw)
    {
      hide BlockTable.Blocks, BlockAllocator.Valid, SpaceAllocate, EnterObject, Known;
      r := immixSpace.Allocate(size, junk);
      assert forall x :: x in immixSpace.table.Cells() ==> x in old(immixSpace.table.Cells()) || fresh(x);
    }

    method AllocateLarge(size: nat, junk: seq<Slot>, address: Option<Ref>) returns (r: Option<Ref>)
      requires Valid() && Known(immixSpace.View()) && size >= LARGE_OBJECT
      modifies memory, largeObjectSpace
      ensures Valid() && Known(immixSpace.View()) && r == address
      ensures var w := old(View());
        View() ==
          if address.None? then w else AllocStep(w, size, junk, address.value).0.(roots := w.roots, raw := w.raw)
    {
      hide BlockTable.Blocks, BlockAllocator.Valid, Known;
      ghost var w := View();
      r := largeObjectSpace.Allocate(size, junk, address);
      assert immixSpace.table.Blocks() == w.sp.blocks;
      assert immixSpace.View() == w.sp;
    }

    /** A barrier on an address that is not a valid object does nothing. */
    method WriteBarrier(o: Ref) returns (due: bool)
      requires Valid() && Inv(View(), false)
      modifies memory, collector.rcCollector
      ensures Valid() && !due
      ensures if IsGc(old(immixSpace.table.Blocks()), o) || o in largeObjectSpace.objects then
          && o in old(memory.headers) && o in old(memory.bodies) && View() == BarrierStep(old(View()), o)
        else View() == old(View())
    {
      hide BlockTable.Blocks, BlockAllocator.Valid, IsGc, Inv, InSpace;
      ghost var w := View();
      var valid := IsGcObject(o);
      due := false;
      if valid {
        ValidKnown(w, o);
        due := collector.rcCollector.WriteBarrier(o, immixSpace, largeObjectSpace);
        assert immixSpace.table.Blocks() == w.sp.blocks;
      }
    }

    /** The blocks of the allocators move to the collector. */
    method Gather()
      requires Valid()
      requires forall b :: b in collector.allBlocks + GetAllBlocks(immixSpace.View()) ==> b in immixSpace.table.infos
      modifies immixSpace.allocator, immixSpace.overflowAllocator, immixSpace.evacAllocator, collector`allBlocks
      ensures Valid() && immixSpace.View() == Drained(old(immixSpace.View()))
      ensures collector.allBlocks == old(collector.allBlocks) + GetAllBlocks(old(immixSpace.View()))
    {
      hide BlockTable.Blocks, BlockAllocator.Valid, GetAllBlocks;
      ghost var blocks := immixSpace.table.Blocks();
      var all := immixSpace.GetAllBlocks();
      collector.ExtendAllBlocks(all);
      assert immixSpace.table.Blocks() == blocks;
    }

    /** Decides what kind of collection it will be, and chooses the candidates for an evacuation. */
    method Decide(evacuation: bool, cycleCollect: bool) returns (t: CollectionType, threshold: Option<nat>)
      requires Valid()
      modifies immixSpace.table.Cells()
      ensures Valid()
      ensures forall b :: b in collector.allBlocks ==> b in old(immixSpace.View()).blocks
      ensures var sp := old(immixSpace.View());
        Decided(sp, collector.allBlocks, immixSpace.blockAllocator.mmap, collector.markHistogram, evacuation,
          cycleCollect, t, threshold)
      ensures immixSpace.View() == old(immixSpace.View()).(blocks :=
        if threshold.Some? then OnBlocks(old(immixSpace.View()).blocks, collector.allBlocks,
          b => MarkCandidate(b, threshold.value))
        else old(immixSpace.View()).blocks)
    {
      hide BlockTable.Blocks, BlockAllocator.Valid, HoleThreshold;
      var availableBlocks := immixSpace.AvailableBlocks();
      var evacHeadroom := immixSpace.EvacHeadroom();
      t, threshold := collector.PrepareCollection(evacuation, cycleCollect, availableBlocks, evacHeadroom, immixSpace);
    }

    /** Gathers roots and blocks, pins the roots, and decides. */
    method Prepare(stack: seq<Ref>, evacuation: bool, cycleCollect: bool)
      returns (found: seq<Ref>, t: CollectionType, threshold: Option<nat>)
      requires Valid() && Inv(View(), false) && raw == {} && roots <= RootSet(stack)
      modifies memory`headers, immixSpace.table.Cells(), immixSpace.allocator, immixSpace.overflowAllocator,
        immixSpace.evacAllocator, collector`allBlocks
      ensures Valid() && found == FoundOn(old(View()), stack)
      ensures var w := old(View());
        && Contract(w, SpacesModel.Collect(found, t.IsEvac(), t.IsImmix(), threshold))
        && collector.allBlocks == w.all + GetAllBlocks(w.sp)
        && immixSpace.View() == Drained(w.sp).(blocks := Candidates(w, threshold))
        && memory.headers == SetPins(w.hs, found, true)
        && (forall b :: b in w.all + GetAllBlocks(w.sp) ==> b in w.sp.blocks)
        && Decided(w.sp, w.all + GetAllBlocks(w.sp), immixSpace.blockAllocator.mmap, collector.markHistogram,
          evacuation, cycleCollect, t, threshold)
    {
      hide BlockTable.Blocks, BlockAllocator.Valid, IsGc, Inv, OnBlocks, SetPins, GetAllBlocks, Drained, Decided;
      ghost var w := View();
      found := CollectRoots(stack);
      FoundKnown(w, found, false);
      GatheredKeys(w);
      immixSpace.table.KeysAre();
      Gather();
      ghost var sp := immixSpace.View();
      SetPinned(found, true);
      assert immixSpace.table.Blocks() == sp.blocks;
      t, threshold := Decide(evacuation, cycleCollect);
      DrainedBlocks(w, threshold);
      DrainedDecided(w.sp, w.all + GetAllBlocks(w.sp), immixSpace.blockAllocator.mmap, collector.markHistogram,
        evacuation, cycleCollect, t, threshold);
      FoundRoots(w, found, stack);
    }

    /** Both collectors on the pinned heap. */
    method RunCollectors(found: seq<Ref>, t: CollectionType, ghost w: World, ghost threshold: Option<nat>)
      requires Valid() && Inv(w, false) && Contract(w, SpacesModel.Collect(found, t.IsEvac(), t.IsImmix(), threshold))
      requires w.mark == currentLiveMark && collector.allBlocks == w.all + GetAllBlocks(w.sp)
      requires immixSpace.View() == Drained(w.sp).(blocks := Candidates(w, threshold))
      requires collector.rcCollector.View(immixSpace, largeObjectSpace) == Pinned(w, found, threshold)
      modifies memory, immixSpace.table.Cells(), immixSpace.evacAllocator, largeObjectSpace, collector.rcCollector
      ensures Valid() && RcReady(w, found, threshold)
      ensures var g := BeforeSweep(w, found, t.IsEvac(), t.IsImmix(), threshold);
        && collector.rcCollector.View(immixSpace, largeObjectSpace) == g
        && immixSpace.View() == Drained(w.sp).(blocks := g.blocks)
    {
      hide BlockTable.Blocks, BlockAllocator.Valid, Inv, Contract, GetAllBlocks, Drained, Candidates, Pinned,
        RcReady, AfterRc, Marked;
      BeforeSweepIs(w, found, t.IsEvac(), t.IsImmix(), threshold);
      DrainedIs(w, threshold);
      collector.Collect(t, found, immixSpace, largeObjectSpace, !currentLiveMark, w, threshold);
    }

    /** The sweep, and the roots are free to move again. */
    method SweepAndUnpin(found: seq<Ref>, t: CollectionType, ghost w: World, ghost threshold: Option<nat>)
      requires Valid() && Inv(w, false) && Contract(w, SpacesModel.Collect(found, t.IsEvac(), t.IsImmix(), threshold))
      requires collector.allBlocks == w.all + GetAllBlocks(w.sp) && RcReady(w, found, threshold)
      requires var g := BeforeSweep(w, found, t.IsEvac(), t.IsImmix(), threshold);
        && collector.rcCollector.View(immixSpace, largeObjectSpace) == g
        && immixSpace.View() == Drained(w.sp).(blocks := g.blocks)
      modifies memory, immixSpace.table.Cells(), immixSpace.allocator, immixSpace.evacAllocator,
        immixSpace.blockAllocator,
        largeObjectSpace, collector`allBlocks,
        collector`markHistogram
      ensures Valid() && CollectReady(w, found, t.IsEvac(), t.IsImmix(), threshold)
      ensures var m := AfterCollectors(w, found, t.IsEvac(), t.IsImmix(), threshold);
        && memory.headers == SetPins(m.hs, found, false) && memory.bodies == m.bs && largeObjectSpace.View() == m.los
        && (immixSpace.View(), collector.allBlocks) ==
          Sweep(Drained(w.sp).(blocks := m.blocks), w.all + GetAllBlocks(w.sp))
      ensures forall b :: b in w.all + GetAllBlocks(w.sp) ==> b in immixSpace.View().blocks
      ensures forall h ::
        Get(collector.markHistogram, h) == SumAt(w.all + GetAllBlocks(w.sp), immixSpace.View().blocks, MarkedLines, h)
    {
      hide BlockTable.Blocks, BlockAllocator.Valid, Inv, Contract, GetAllBlocks, Drained, RcReady, AfterRc, Marked,
        Sweep, BeforeSweep, AfterCollectors, SetPins,
        SweepLos, ValidIn, Forget, MarkedLines, SumAt;
      SweepIs(w, found, t.IsEvac(), t.IsImmix(), threshold);
      collector.CompleteCollection(t, immixSpace, largeObjectSpace);
      ghost var sp := immixSpace.View();
      ghost var m := AfterCollectors(w, found, t.IsEvac(), t.IsImmix(), threshold);
      assert memory.headers == m.hs && memory.bodies == m.bs && largeObjectSpace.View() == m.los;
      SetPinned(found, false);
      assert immixSpace.table.Blocks() == sp.blocks;
    }

    /** After a trace the marks of all spaces flip. */
    method FlipMarks(t: CollectionType)
      requires Valid()
      modifies this`currentLiveMark, immixSpace`currentLiveMark, largeObjectSpace
      ensures Valid()
      ensures currentLiveMark == if t.IsImmix() then !old(currentLiveMark) else old(currentLiveMark)
      ensures immixSpace.View() ==
        if t.IsImmix() then old(immixSpace.View()).(mark := currentLiveMark) else old(immixSpace.View())
      ensures largeObjectSpace.View() ==
        if t.IsImmix() then old(largeObjectSpace.View()).(mark := currentLiveMark) else old(largeObjectSpace.View())
    {
      hide BlockTable.Blocks, BlockAllocator.Valid;
      if t.IsImmix() {
        currentLiveMark := !currentLiveMark;
        immixSpace.SetCurrentLiveMark(currentLiveMark);
        largeObjectSpace.SetCurrentLiveMark(currentLiveMark);
        assert immixSpace.table.Blocks() == old(immixSpace.table.Blocks());
      }
    }

    method FinishCollection(found: seq<Ref>, t: CollectionType, ghost w: World, ghost threshold: Option<nat>)
      requires Valid() && Inv(w, false) && Contract(w, SpacesModel.Collect(found, t.IsEvac(), t.IsImmix(), threshold))
      requires w.mark == currentLiveMark && collector.allBlocks == w.all + GetAllBlocks(w.sp) && w.roots == roots
      requires w.raw == raw
      requires RcReady(w, found, threshold)
      requires var g := BeforeSweep(w, found, t.IsEvac(), t.IsImmix(), threshold);
        && collector.rcCollector.View(immixSpace, largeObjectSpace) == g
        && immixSpace.View() == Drained(w.sp).(blocks := g.blocks)
      modifies this`currentLiveMark, memory, immixSpace`currentLiveMark, immixSpace.table.Cells(), immixSpace.allocator,
        immixSpace.evacAllocator, immixSpace.blockAllocator, largeObjectSpace, collector`allBlocks,
        collector`markHistogram
      ensures Valid()
      ensures CollectReady(w, found, t.IsEvac(), t.IsImmix(), threshold)
      ensures View() == CollectStep(w, found, t.IsEvac(), t.IsImmix(), threshold)
      ensures forall b :: b in w.all + GetAllBlocks(w.sp) ==> b in immixSpace.View().blocks
      ensures forall h ::
        Get(collector.markHistogram, h) == SumAt(w.all + GetAllBlocks(w.sp), immixSpace.View().blocks, MarkedLines, h)
    {
      hide BlockTable.Blocks, BlockAllocator.Valid, Inv, Contract, GetAllBlocks, Drained, RcReady, AfterRc, Marked,
        Sweep, BeforeSweep, AfterCollectors, SetPins,
        CollectStep, MarkedLines, SumAt;
      SweepIs(w, found, t.IsEvac(), t.IsImmix(), threshold);
      SweepAndUnpin(found, t, w, threshold);
      ghost var sp := immixSpace.View();
      CollectStepIs(w, found, t.IsEvac(), t.IsImmix(), threshold, sp, collector.allBlocks);
      FlipMarks(t);
    }

    /**
      A collection from exactly those addresses of the stack that are valid objects. The result is the
      step of the machine for these roots and for the kind of collection that has been decided on.
     */
    method Collect(stack: seq<Ref>, evacuation: bool, cycleCollect: bool)
      returns (found: seq<Ref>, t: CollectionType, threshold: Option<nat>)
      requires Valid() && Inv(View(), false) && raw == {} && roots <= RootSet(stack)
      modifies this`currentLiveMark, memory, immixSpace`currentLiveMark, immixSpace.table.Cells(), immixSpace.allocator,
        immixSpace.overflowAllocator, immixSpace.evacAllocator, immixSpace.blockAllocator, largeObjectSpace,
        collector`allBlocks, collector`markHistogram, collector.rcCollector
      ensures Valid() && Inv(View(), false) && found == FoundOn(old(View()), stack)
      ensures var w := old(View());
        && Contract(w, SpacesModel.Collect(found, t.IsEvac(), t.IsImmix(), threshold))
        && CollectReady(w, found, t.IsEvac(), t.IsImmix(), threshold)
        && View() == CollectStep(w, found, t.IsEvac(), t.IsImmix(), threshold)
        && (forall b :: b in w.all + GetAllBlocks(w.sp) ==> b in w.sp.blocks && b in View().sp.blocks)
        && Decided(w.sp, w.all + GetAllBlocks(w.sp), immixSpace.blockAllocator.mmap, old(collector.markHistogram),
          evacuation, cycleCollect, t, threshold)
        && (t.IsImmix() <==>
            cycleCollect && immixSpace.blockAllocator.mmap % BLOCK_SIZE + |w.sp.ba.free| < CYCLE_TRIGGER_BLOCKS)
        && (var few := immixSpace.blockAllocator.mmap % BLOCK_SIZE + |w.sp.ba.free| + |w.sp.evac.headroom|;
            var holes := HoleThreshold(|w.sp.evac.headroom|, old(collector.markHistogram),
              AvailableOf(w.all + GetAllBlocks(w.sp), w.sp.blocks), 0);
            && (t.IsEvac() <==> (evacuation || few < EVAC_TRIGGER_BLOCKS) && 0 < holes < NUM_LINES)
            && threshold == if t.IsEvac() then Some(holes) else None)
        && forall h ::
          Get(collector.markHistogram, h) == SumAt(w.all + GetAllBlocks(w.sp), View().sp.blocks, MarkedLines, h)
    {
      hide BlockTable.Blocks, BlockAllocator.Valid, Inv, Contract, GetAllBlocks, Drained, Candidates, Pinned,
        RcReady, CollectStep, SetPins, Decided,
        MarkedLines, SumAt;
      ghost var w := View();
      MaskedNothing(w);
      found, t, threshold := Prepare(stack, evacuation, cycleCollect);
      PinnedIs(w, found, threshold);
      DecidedIs(w.sp, w.all + GetAllBlocks(w.sp), immixSpace.blockAllocator.mmap, collector.markHistogram,
        evacuation, cycleCollect, t, threshold);
      Perform(found, t, w, threshold);
    }

    /** What has been decided on is done. */
    method Perform(found: seq<Ref>, t: CollectionType, ghost w: World, ghost threshold: Option<nat>)
      requires Valid() && Inv(w, false) && Contract(w, SpacesModel.Collect(found, t.IsEvac(), t.IsImmix(), threshold))
      requires w.mark == currentLiveMark && collector.allBlocks == w.all + GetAllBlocks(w.sp) && w.roots == roots
      requires w.raw == raw
      requires immixSpace.View() == Drained(w.sp).(blocks := Candidates(w, threshold))
      requires collector.rcCollector.View(immixSpace, largeObjectSpace) == Pinned(w, found, threshold)
      modifies this`currentLiveMark, memory, immixSpace`currentLiveMark, immixSpace.table.Cells(), immixSpace.allocator,
        immixSpace.evacAllocator, immixSpace.blockAllocator, largeObjectSpace,
        collector`allBlocks, collector`markHistogram, collector.rcCollector
      ensures Valid() && CollectReady(w, found, t.IsEvac(), t.IsImmix(), threshold)
      ensures View() == CollectStep(w, found, t.IsEvac(), t.IsImmix(), threshold) && Inv(View(), false)
      ensures forall b :: b in w.all + GetAllBlocks(w.sp) ==> b in immixSpace.View().blocks
      ensures forall h ::
        Get(collector.markHistogram, h) == SumAt(w.all + GetAllBlocks(w.sp), immixSpace.View().blocks, MarkedLines, h)
    {
      hide BlockTable.Blocks, BlockAllocator.Valid, Inv, Contract, GetAllBlocks, Drained, Candidates, Pinned,
        RcReady, CollectStep,
        MarkedLines, SumAt;
      RunCollectors(found, t, w, threshold);
      FinishCollection(found, t, w, threshold);
      CollectKeeps(w, found, t.IsEvac(), t.IsImmix(), threshold, false);
      StillInv(CollectStep(w, found, t.IsEvac(), t.IsImmix(), threshold), t.IsImmix());
    }
  }

  /** A valid object is in the memory, and whole. */
  lemma ValidKnown(w: World, o: Ref)
    requires Inv(w, false) && (IsGc(w.sp.blocks, o) || o in w.los.objects)
    ensures o in w.hs && o in w.bs && w.bs[o].Plain?
  {
    hide SpaceInv;
    FoundKnown(w, [o], false);
    assert o in GraphOf(w).bs;
    IdleWhole(GraphOf(w), o);
  }

  lemma IdleWhole(g: Rc, o: Ref)
    requires Idle(g, false) && o in g.bs
    ensures g.bs[o].Plain?
  {
  }

  lemma GatheredKeys(w: World)
    requires Inv(w, false)
    ensures forall b :: b in w.all + GetAllBlocks(w.sp) ==> b in w.sp.blocks
  {
    hide Idle, GetAllBlocks, SpaceInv;
    GatheredKnown(w.sp, GraphOf(w).bs, w.all);
  }

  /** The filter keeps the mutator's roots: they are valid. */
  lemma FoundRoots(w: World, found: seq<Ref>, stack: seq<Ref>)
    requires Inv(w, false) && w.roots <= RootSet(stack)
    requires forall o :: o in found <==> o in stack && (IsGc(w.sp.blocks, o) || o in w.los.objects)
    ensures w.roots <= RootSet(found)
  {
    hide IsGc, SpaceInv, InRefs, LinesAtLeast, Counts;
    forall o | o in w.roots
      ensures o in found
    {
      assert o in GraphOf(w).hs;
    }
  }

  /** What has been decided on, written out. */
  lemma DecidedIs(sp: Space, all: seq<nat>, mmap: nat, marked: map<nat, nat>, evacuation: bool, cycleCollect: bool,
      t: CollectionType, threshold: Option<nat>)
    requires forall b :: b in all ==> b in sp.blocks
    requires Decided(sp, all, mmap, marked, evacuation, cycleCollect, t, threshold)
    ensures t.IsImmix() <==> cycleCollect && mmap % BLOCK_SIZE + |sp.ba.free| < CYCLE_TRIGGER_BLOCKS
    ensures var few := mmap % BLOCK_SIZE + |sp.ba.free| + |sp.evac.headroom|;
      var holes := HoleThreshold(|sp.evac.headroom|, marked, AvailableOf(all, sp.blocks), 0);
      && (t.IsEvac() <==> (evacuation || few < EVAC_TRIGGER_BLOCKS) && 0 < holes < NUM_LINES)
      && threshold == if t.IsEvac() then Some(holes) else None
  {
    hide HoleThreshold, AvailableOf;
  }

  lemma DrainedDecided(sp: Space, all: seq<nat>, mmap: nat, marked: map<nat, nat>, evacuation: bool, cycleCollect: bool,
      t: CollectionType, threshold: Option<nat>)
    requires forall b :: b in all ==> b in sp.blocks
    ensures Drained(sp).blocks == sp.blocks
    ensures Decided(Drained(sp), all, mmap, marked, evacuation, cycleCollect, t, threshold)
      <==> Decided(sp, all, mmap, marked, evacuation, cycleCollect, t, threshold)
    ensures Decided(sp, all, mmap, marked, evacuation, cycleCollect, t, threshold) && threshold.Some? ==>
      0 < threshold.value
  {
    hide HoleThreshold;
  }

  lemma DrainedBlocks(w: World, threshold: Option<nat>)
    ensures Drained(w.sp).blocks == w.sp.blocks
    ensures Candidates(w, threshold) ==
      if threshold.None? then w.sp.blocks
      else OnBlocks(w.sp.blocks, w.all + GetAllBlocks(w.sp), b => MarkCandidate(b, threshold.value))
  {
  }

  lemma StillInv(w: World, immix: bool)
    requires Inv(w, false && !immix)
    ensures Inv(w, false)
  {
  }

  /** What the two collectors leave for the sweep. */
  ghost function BeforeSweep(w: World, found: seq<Ref>, evac: bool, immix: bool, threshold: Option<nat>): Rc
    requires RcReady(w, found, threshold)
  {
    var f := AfterRc(w, found, evac, threshold);
    if immix then Marked(f, w.all + GetAllBlocks(w.sp), found, !w.mark) else f
  }

  lemma BeforeSweepIs(w: World, found: seq<Ref>, evac: bool, immix: bool, threshold: Option<nat>)
    requires Inv(w, false) && Contract(w, SpacesModel.Collect(found, evac, immix, threshold))
    ensures RcReady(w, found, threshold)
    ensures !BeforeSweep(w, found, evac, immix, threshold).evacTried
  {
    hide Inv, CollectRc, RcStart, GetAllBlocks, Settled, Wf;
    RcSettles(w, found, evac, threshold, false);
  }

  lemma DrainedIs(w: World, threshold: Option<nat>)
    ensures forall blocks {:trigger Drained(w.sp).(blocks := blocks)} ::
      var d := Drained(w.sp).(blocks := blocks); d.evac == Drained(w.sp).evac && d.normal == Normal([], [], None)
  {
  }

  lemma PinnedIs(w: World, found: seq<Ref>, threshold: Option<nat>)
    requires w.raw == {}
    ensures Pinned(w, found, threshold) ==
      Rc(SetPins(w.hs, found, true), w.bs, Candidates(w, threshold), w.los, w.oldRoots, w.decs, w.mods, false)
  {
    MaskedNothing(w);
  }

  lemma CollectStepIs(w: World, found: seq<Ref>, evac: bool, immix: bool, threshold: Option<nat>, sp: Space,
      all: seq<nat>)
    requires CollectReady(w, found, evac, immix, threshold)
    requires var m := AfterCollectors(w, found, evac, immix, threshold);
      (sp, all) == Sweep(Drained(w.sp).(blocks := m.blocks), w.all + GetAllBlocks(w.sp))
    ensures var m := AfterCollectors(w, found, evac, immix, threshold);
      var mark := if immix then !w.mark else w.mark;
      CollectStep(w, found, evac, immix, threshold) ==
        World(SetPins(m.hs, found, false), m.bs, sp.(mark := if immix then mark else sp.mark),
          if immix then m.los.(mark := mark) else m.los,
          m.oldRoots, m.decs, m.mods, all, mark, w.roots, w.raw)
  {
    hide AfterCollectors, Sweep, GetAllBlocks, SetPins, RcReady;
  }

  /** The sweep of what the collectors leave, and the forgetting after a trace, are those of the model. */
  lemma SweepIs(w: World, found: seq<Ref>, evac: bool, immix: bool, threshold: Option<nat>)
    requires Inv(w, false) && Contract(w, SpacesModel.Collect(found, evac, immix, threshold))
    requires RcReady(w, found, threshold)
    ensures CollectReady(w, found, evac, immix, threshold)
    ensures |w.sp.evac.headroom| <= EVAC_HEADROOM && Drained(w.sp).evac.headroom == w.sp.evac.headroom
    ensures var g, m :=
      BeforeSweep(w, found, evac, immix, threshold), AfterCollectors(w, found, evac, immix, threshold);
      && m.blocks == g.blocks && m.oldRoots == g.oldRoots && m.decs == g.decs && m.mods == g.mods && !g.evacTried
      && (forall o :: o in found ==> o in m.hs)
      && (immix ==> forall o :: o in g.los.objects ==> o in g.hs)
      && (if immix then
        && m.los == SweepLos(g.los, g.hs)
        && var live := ValidIn(Sweep(Drained(w.sp).(blocks := g.blocks), w.all + GetAllBlocks(w.sp)).0.blocks,
          m.los.objects, g.hs);
          m.hs == Forget(g.hs, live) && m.bs == Forget(g.bs, live)
        else m == g)
  {
    hide Inv, Contract, GetAllBlocks, Drained, RcReady, AfterRc, Sweep, Settled, TracePart, Complete, SweepReady,
      Marked, ValidIn, Forget, Reachable,
      SweepLos, IsGc, LinesExact;
    CollectContract(w, found, evac, immix, threshold);
    CollectKeeps(w, found, evac, immix, threshold, false);
    RcSettles(w, found, evac, threshold, false);
    var all := w.all + GetAllBlocks(w.sp);
    var f := AfterRc(w, found, evac, threshold);
    SettledCollected(w, f, found, w.mark, false);
    HeadroomIs(w, false);
    DrainedHeadroom(w.sp);
    SettledTried(w, f, found, w.mark);
    if immix {
      TraceSwept(w, f, found);
      TracePartIs(f, all, found, !w.mark);
    }
  }

  lemma TraceSwept(w: World, f: Rc, found: seq<Ref>)
    requires Inv(w, false) && w.raw == {} && w.roots <= RootSet(found) && Settled(w, f, found, w.mark, false)
    ensures var all := w.all + GetAllBlocks(w.sp);
      var m, g := TracePart(f, all, found, !w.mark), Marked(f, all, found, !w.mark);
      && SweepReady(w.sp, m.blocks, all) && m.hs.Keys == m.bs.Keys
      && (forall o :: o in found ==> o in m.hs)
      && ValidIn(Sweep(Drained(w.sp).(blocks := m.blocks), all).0.blocks, m.los.objects, g.hs) ==
        Reachable(f.bs, RootSet(found))
  {
    hide Inv, GetAllBlocks, Drained, Sweep, Settled, TracePart, Complete, SweepReady, Marked, ValidIn, Reachable,
      IsGc, LinesExact, MapsHold;
    var all := w.all + GetAllBlocks(w.sp);
    var m := TracePart(f, all, found, !w.mark);
    TraceSettles(w, f, all, found, false);
    SettledCollected(w, m, found, !w.mark, false);
    SettledCollected(w, f, found, w.mark, false);
    CompleteKeeps(w, m, found, true, false, false);
    SettledReach(w, f, found);
    ValidAre(w, f, m, all, found);
  }

  lemma SettledReach(w: World, f: Rc, found: seq<Ref>)
    requires Settled(w, f, found, w.mark, false)
    ensures Reachable(f.bs, RootSet(found)) <= f.bs.Keys
  {
    hide Collected, Reachable, LiveSet;
    LiveFacts(f, found, false);
    LiveSetIs(f, found);
  }

  lemma CollectContract(w: World, found: seq<Ref>, evac: bool, immix: bool, threshold: Option<nat>)
    requires Contract(w, SpacesModel.Collect(found, evac, immix, threshold))
    ensures w.raw == {} && w.roots <= RootSet(found) && (threshold.Some? ==> 0 < threshold.value)
    ensures forall o :: o in found ==> IsGc(w.sp.blocks, o) || o in w.los.objects
  {
    hide IsGc;
  }

  lemma DrainedHeadroom(sp: Space)
    ensures Drained(sp).evac.headroom == sp.evac.headroom
  {
  }

  lemma SettledTried(w: World, g: Rc, found: seq<Ref>, mark: bool)
    requires Settled(w, g, found, mark, false)
    ensures !g.evacTried && g.bs.Keys == g.hs.Keys
    ensures forall o :: o in g.los.objects ==> o in g.hs
  {
    hide LinesAtLeast, Counts, InRefs, IsGc;
  }

  lemma TracePartIs(f: Rc, all: seq<nat>, found: seq<Ref>, next: bool)
    ensures var m, g, live :=
      TracePart(f, all, found, next), Marked(f, all, found, next), Reachable(f.bs, RootSet(found));
      && m.blocks == g.blocks && m.oldRoots == g.oldRoots && m.decs == g.decs && m.mods == g.mods
      && g.evacTried == f.evacTried
      && m.los == SweepLos(g.los, g.hs) && m.hs == Forget(g.hs, live) && m.bs == Forget(g.bs, live)
      && g.los == f.los && g.hs.Keys == f.hs.Keys && g.bs == f.bs
  {
    hide Reachable, TracedBlocks;
  }

  /** What is valid after the sweep is what the roots reach. */
  lemma ValidAre(w: World, f: Rc, m: Rc, all: seq<nat>, found: seq<Ref>)
    requires m == TracePart(f, all, found, !w.mark) && SweepReady(w.sp, m.blocks, all)
    requires f.bs.Keys == f.hs.Keys && m.bs.Keys == Reachable(f.bs, RootSet(found)) && m.bs.Keys <= f.bs.Keys
    requires MapsHold(m.blocks, m.bs)
    requires m.los.objects == set o | o in m.bs.Keys && o.Large?
    requires forall o :: IsGc(Complete(w, m, all, found, true).sp.blocks, o) == IsGc(m.blocks, o)
    ensures ValidIn(Sweep(Drained(w.sp).(blocks := m.blocks), all).0.blocks, m.los.objects,
      Marked(f, all, found, !w.mark).hs)
      == Reachable(f.bs, RootSet(found))
  {
    hide Sweep, Reachable, IsGc, TracePart, SetPins, Marked;
    TracePartIs(f, all, found, !w.mark);
    assert Complete(w, m, all, found, true).sp.blocks == Sweep(Drained(w.sp).(blocks := m.blocks), all).0.blocks;
    var live := ValidIn(Sweep(Drained(w.sp).(blocks := m.blocks), all).0.blocks, m.los.objects,
      Marked(f, all, found, !w.mark).hs);
    forall o
      ensures o in live <==> o in m.bs.Keys
    {
    }
  }
}
