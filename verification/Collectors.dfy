/**
  The collector around the two collections (src/spaces/collector/mod.rs): it holds the blocks while
  a collection runs, decides what kind of collection it is, and sweeps the blocks at the end.
 */
module Collectors {
  import opened Constants
  import opened Wrappers
  import opened Objects
  import opened ObjectMemory
  import opened BlockLines
  import opened BlockInfos
  import opened BlockTables
  import opened BlockRecords
  import opened Allocators
  import opened Graph
  import opened RcModel
  import opened RcProofs
  import opened RcTheorems
  import opened AllocatorModel
  import opened TraceProofs
  import opened TraceTheorems
  import opened SweepModel
  import opened SpacesModel
  import opened SpacesProofs
  import opened CollectProofs
  import opened TraceReady
  import opened ImmixSpaces
  import opened ImmixCollectors
  import opened LargeObjects
  import opened RcCollectors

  datatype CollectionType = RCCollection | RCEvacCollection | ImmixCollection | ImmixEvacCollection {
    predicate IsEvac() {
      RCEvacCollection? || ImmixEvacCollection?
    }

    predicate IsImmix() {
      ImmixCollection? || ImmixEvacCollection?
    }
  }

  function AddTo(h: map<nat, nat>, k: nat, v: nat): map<nat, nat> {
    h[k := Get(h, k) + v]
  }

  lemma EnoughIs(headroom: nat, marked: map<nat, nat>, available: map<nat, nat>, t: nat, left: nat, required: nat)
    requires required == Get(marked, t) + if t == 0 then 0 else SumUpTo(marked, t - 1)
    requires var before := if t == 0 then headroom * (NUM_LINES - 1) else LeftAt(headroom, available, t - 1);
      left == if before >= Get(available, t) then before - Get(available, t) else 0
    ensures left == LeftAt(headroom, available, t) && required == SumUpTo(marked, t)
    ensures left <= required <==> Enough(headroom, marked, available, t)
  {
  }

  class Collector {
    const memory: Memory
    const rcCollector: RCCollector
    var allBlocks: seq<nat>
    var markHistogram: map<nat, nat>

    /** Its blocks have records. */
    ghost predicate Valid(space: ImmixSpace, los: LargeObjectSpace)
      reads this, space, space.blockAllocator, space.table
    {
      && rcCollector.Valid(space, los) && rcCollector.memory == memory
      && this !in space.table.Cells()
      && forall b :: b in allBlocks ==> b in space.table.infos
    }

    constructor (memory: Memory)
      ensures this.memory == memory && allBlocks == [] && markHistogram == map[]
      ensures fresh(rcCollector) && rcCollector.memory == memory
      ensures rcCollector.oldRootBuffer == [] && rcCollector.decrementBuffer == [] && rcCollector.modifiedBuffer == []
      ensures !rcCollector.evacTried
    {
      this.memory := memory;
      rcCollector := new RCCollector(memory);
      allBlocks, markHistogram := [], map[];
    }

    method ExtendAllBlocks(blocks: seq<nat>)
      modifies this`allBlocks
      ensures allBlocks == old(allBlocks) + blocks
    {
      allBlocks := allBlocks + blocks;
    }

    // -------------------------------------------------------------- the kind of collection

    /** The free lines of all blocks by the number of holes of the block. */
    method AvailableHistogram(space: ImmixSpace) returns (available: map<nat, nat>)
      requires space.table.Valid() && forall b :: b in allBlocks ==> b in space.table.infos
      ensures forall b :: b in allBlocks ==> b in space.table.Blocks()
      ensures forall h :: Get(available, h) == SumAt(allBlocks, space.table.Blocks(), AvailableLines, h)
    {
      hide BlockTable.Blocks, BlockAllocator.Valid, AvailableLines;
      ghost var blocks := space.table.Blocks();
      space.table.KeysAre();
      assert forall b :: b in allBlocks ==> b in blocks.Keys && b in blocks;
      available := map[];
      for i := 0 to |allBlocks|
        invariant space.table.Blocks() == blocks && forall b :: b in allBlocks ==> b in blocks
        invariant forall h :: Get(available, h) == SumAt(allBlocks[..i], blocks, AvailableLines, h)
      {
        var holes, lines := space.table.CountHolesAndAvailableLines(allBlocks[i]);
        available := AddTo(available, holes, lines);
        assert InitList(allBlocks[..i + 1]) == allBlocks[..i] && LastOf(allBlocks[..i + 1]) == allBlocks[i];
      }
      assert allBlocks[..|allBlocks|] == allBlocks;
    }

    /**
      The least number of holes with which the blocks of at most that many holes have no more to
      move than the headroom and the other blocks' free lines can take; `NUM_LINES` if there is none.
     */
    method EstablishHoleThreshold(evacHeadroom: nat, space: ImmixSpace) returns (threshold: nat)
      requires space.table.Valid() && forall b :: b in allBlocks ==> b in space.table.infos
      ensures forall b :: b in allBlocks ==> b in space.table.Blocks()
      ensures threshold == HoleThreshold(evacHeadroom, markHistogram, AvailableOf(allBlocks, space.table.Blocks()), 0)
    {
      hide BlockTable.Blocks, SumAt, Enough;
      var available := AvailableHistogram(space);
      var requiredLines, availableLines := 0, evacHeadroom * (NUM_LINES - 1);
      ghost var blocks := space.table.Blocks();
      ghost var held := AvailableOf(allBlocks, blocks);
      for t := 0 to NUM_LINES
        invariant space.table.Blocks() == blocks
        invariant requiredLines == if t == 0 then 0 else SumUpTo(markHistogram, t - 1)
        invariant availableLines ==
          if t == 0 then evacHeadroom * (NUM_LINES - 1) else LeftAt(evacHeadroom, available, t - 1)
        invariant forall u :: 0 <= u < t ==> !Enough(evacHeadroom, markHistogram, available, u)
      {
        requiredLines := requiredLines + Get(markHistogram, t);
        availableLines := if availableLines >= Get(available, t) then availableLines - Get(available, t) else 0;
        EnoughIs(evacHeadroom, markHistogram, available, t, availableLines, requiredLines);
        if availableLines <= requiredLines {
          ThresholdIs(evacHeadroom, markHistogram, available, held, t);
          return t;
        }
      }
      ThresholdIs(evacHeadroom, markHistogram, available, held, NUM_LINES);
      threshold := NUM_LINES;
    }

    /**
      A collection evacuates if and only if that is asked for or blocks are scarce, and the least number
      of holes that passes the test is neither zero nor too large; that number is the threshold. It
      traces if and only if that is asked for and blocks are scarce. Only evacuation changes candidates.
     */
    method PrepareCollection(evacuation: bool, cycleCollect: bool, availableBlocks: nat, evacHeadroom: nat,
        space: ImmixSpace)
      returns (t: CollectionType, threshold: Option<nat>)
      requires space.table.Valid() && forall b :: b in allBlocks ==> b in space.table.infos
      modifies space.table.Cells()
      ensures forall b :: b in allBlocks ==> b in old(space.table.Blocks())
      ensures t.IsImmix() <==> cycleCollect && availableBlocks < CYCLE_TRIGGER_BLOCKS
      ensures var holes :=
        HoleThreshold(evacHeadroom, markHistogram, AvailableOf(allBlocks, old(space.table.Blocks())), 0);
        && (t.IsEvac() <==>
            (evacuation || availableBlocks + evacHeadroom < EVAC_TRIGGER_BLOCKS) && 0 < holes < NUM_LINES)
        && threshold == if t.IsEvac() then Some(holes) else None
      ensures threshold.Some? ==>
        forall b :: b in allBlocks ==>
          b in space.table.Blocks()
          && (space.table.Blocks()[b].candidate <==> old(space.table.Blocks())[b].holes >= threshold.value)
      ensures space.table.Blocks() ==
        if threshold.Some? then OnBlocks(old(space.table.Blocks()), allBlocks, b => MarkCandidate(b, threshold.value))
        else old(space.table.Blocks())
    {
      hide BlockTable.Blocks, BlockAllocator.Valid, HoleThreshold;
      space.table.KeysAre();
      assert forall b :: b in allBlocks ==> b in space.table.Blocks().Keys && b in space.table.Blocks();
      var performEvac := evacuation;
      threshold := None;
      if evacuation || availableBlocks + evacHeadroom < EVAC_TRIGGER_BLOCKS {
        var holes := EstablishHoleThreshold(evacHeadroom, space);
        performEvac := holes > 0 && holes < NUM_LINES;
        if performEvac {
          threshold := Some(holes);
          MarkCandidates(holes, space);
        }
      }
      var performCycleCollect := cycleCollect && availableBlocks < CYCLE_TRIGGER_BLOCKS;
      t := match (performEvac, performCycleCollect)
        case (false, false) => RCCollection
        case (true, false) => RCEvacCollection
        case (false, true) => ImmixCollection
        case (true, true) => ImmixEvacCollection;
    }

    method MarkCandidates(holes: nat, space: ImmixSpace)
      requires space.table.Valid() && forall b :: b in allBlocks ==> b in space.table.infos
      modifies space.table.Cells()
      ensures space.table.Blocks() == OnBlocks(old(space.table.Blocks()), allBlocks, b => MarkCandidate(b, holes))
    {
      hide BlockTable.Blocks, BlockAllocator.Valid, MarkCandidate;
      ghost var change := (b: Block) => MarkCandidate(b, holes);
      ghost var before := space.table.Blocks();
      OnNone(before, change);
      MarkTwice(holes);
      space.table.KeysAre();
      for i := 0 to |allBlocks|
        invariant space.table.Blocks() == OnBlocks(before, allBlocks[..i], change)
      {
        space.table.SetEvacuationCandidate(allBlocks[i], holes);
        OnMore(before, allBlocks, i, change);
      }
      assert allBlocks[..|allBlocks|] == allBlocks;
    }

    // -------------------------------------------------------------- the two collections

    method RemoveNewObjects(space: ImmixSpace)
      requires space.table.Valid() && forall b :: b in allBlocks ==> b in space.table.infos
      modifies space.table.Cells()
      ensures space.table.Blocks() == OnBlocks(old(space.table.Blocks()), allBlocks, RemoveNew)
    {
      hide BlockTable.Blocks, BlockAllocator.Valid, RemoveNew;
      ghost var before := space.table.Blocks();
      OnNone(before, RemoveNew);
      RemoveTwice();
      space.table.KeysAre();
      for i := 0 to |allBlocks|
        invariant space.table.Blocks() == OnBlocks(before, allBlocks[..i], RemoveNew)
      {
        space.table.RemoveNewObjectsFromMap(allBlocks[i]);
        OnMore(before, allBlocks, i, RemoveNew);
      }
      assert allBlocks[..|allBlocks|] == allBlocks;
    }

    method ClearRecords(space: ImmixSpace)
      requires space.table.Valid() && forall b :: b in allBlocks ==> b in space.table.infos
      modifies space.table.Cells()
      ensures space.table.Blocks() == OnBlocks(old(space.table.Blocks()), allBlocks, ClearRecord)
    {
      hide BlockTable.Blocks, BlockAllocator.Valid, ClearRecord;
      ghost var before := space.table.Blocks();
      OnNone(before, ClearRecord);
      ClearTwice();
      space.table.KeysAre();
      for i := 0 to |allBlocks|
        invariant space.table.Blocks() == OnBlocks(before, allBlocks[..i], ClearRecord)
      {
        space.table.ClearRecord(allBlocks[i]);
        OnMore(before, allBlocks, i, ClearRecord);
      }
      assert allBlocks[..|allBlocks|] == allBlocks;
    }

    /** The objects that are valid in one of the spaces. */
    method ValidObjects(space: ImmixSpace, los: LargeObjectSpace) returns (live: set<Ref>)
      requires space.Valid()
      ensures live == set o | o in memory.headers && (IsGc(space.table.Blocks(), o) || o in los.objects)
    {
      hide BlockTable.Blocks, BlockAllocator.Valid, IsGc;
      var todo := memory.headers.Keys;
      live := {};
      while todo != {}
        invariant todo <= memory.headers.Keys
        invariant forall o :: o in live <==>
          o in memory.headers && o !in todo && (IsGc(space.table.Blocks(), o) || o in los.objects)
        decreases |todo|
      {
        var o :| o in todo;
        todo := todo - {o};
        var valid := space.IsGcObject(o);
        if !valid {
          valid := los.IsGcObject(o);
        }
        if valid {
          live := live + {o};
        }
      }
    }

    /**
      The reference counting collection: new objects leave the object maps, the counts decide which
      objects are valid, and large objects without references are freed. What is not valid any more
      is no object any more.
     */
    method PerformRcCollection(evac: bool, roots: seq<Ref>, space: ImmixSpace, los: LargeObjectSpace)
      requires Valid(space, los)
      requires var g := rcCollector.View(space, los);
        var g0 := g.(blocks := OnBlocks(g.blocks, allBlocks, RemoveNew));
        Wf(g0) && (forall o :: o in roots ==> o in g0.bs) && (forall o :: o in g0.los.newObjects ==> o in g0.bs)
      modifies rcCollector, memory, space.table.Cells(), los
      ensures Valid(space, los)
      ensures var g := old(rcCollector.View(space, los));
        rcCollector.View(space, los) ==
          FinishRc(CollectRc(g.(blocks := OnBlocks(g.blocks, allBlocks, RemoveNew)), roots, evac))
    {
      hide BlockTable.Blocks, BlockAllocator.Valid, Wf, CollectRc, FinishRc, RemoveNew;
      ghost var g := rcCollector.View(space, los);
      RemoveNewObjects(space);
      assert rcCollector.View(space, los) == g.(blocks := OnBlocks(g.blocks, allBlocks, RemoveNew));
      rcCollector.Collect(evac, roots, space, los);
      FreeGarbage(space, los);
    }

    method FreeGarbage(space: ImmixSpace, los: LargeObjectSpace)
      requires Valid(space, los)
      modifies memory, los
      ensures Valid(space, los)
      ensures rcCollector.View(space, los) == FinishRc(old(rcCollector.View(space, los)))
    {
      hide BlockTable.Blocks, BlockAllocator.Valid, IsGc;
      ghost var r := rcCollector.View(space, los);
      var _ := los.ProcessFreeBuffer();
      assert space.table.Blocks() == r.blocks;
      var live := ValidObjects(space, los);
      assert live == Live(r);
      memory.Retain(live);
      assert space.table.Blocks() == r.blocks;
    }

    /** The tracing collection, from cleared records: exactly what the roots reach is marked, valid and counted. */
    method PerformImmixCollection(evac: bool, roots: seq<Ref>, space: ImmixSpace, ghost los: LargeObjectSpace,
        next: bool, ghost s: Start)
      requires Valid(space, los)
      requires s == Start(memory.headers, memory.bodies, OnBlocks(space.table.Blocks(), allBlocks, ClearRecord),
        space.evacAllocator.View(), roots, next, evac)
      requires StartOk(s) && Cleared(s.blocks)
      modifies memory, space.table.Cells(), space.evacAllocator
      ensures Valid(space, los) && memory.bodies == s.bs && memory.headers == MarkAll(s.hs, Scope(s), next)
      ensures space.table.Blocks() == TracedBlocks(s.blocks, s.bs, Scope(s)) && space.evacAllocator.View() == s.evac
    {
      hide BlockTable.Blocks, BlockAllocator.Valid, StartOk, Scope, MarkAll, TracedBlocks, Traced, Cleared;
      ClearRecords(space);
      ghost var orig := ImmixCollector.Collect(evac, roots, space, next, s);
      TraceIsExact(s, space.TraceView([]), orig);
    }

    // -------------------------------------------------------------- the end

    /** Empty blocks are reset; the others are kept or recycled by their number of holes. */
    method SweepAllBlocks(space: ImmixSpace) returns (recyclable: seq<nat>, free: seq<nat>)
      requires space.table.Valid() && forall b :: b in allBlocks ==> b in space.table.infos
      modifies this`allBlocks, this`markHistogram, space.table.Cells()
      ensures SweptUpTo(old(space.table.Blocks()), old(allBlocks), |old(allBlocks)|, space.table.Blocks(),
        free, recyclable, allBlocks, old(markHistogram), markHistogram)
    {
      hide BlockTable.Blocks, BlockAllocator.Valid, SweptBlock, FateOf, MarkedLines, SweptUpTo;
      ghost var before := space.table.Blocks();
      var all := allBlocks;
      space.table.KeysAre();
      assert forall b :: b in all ==> b in before.Keys && b in before;
      var unavailable := [];
      recyclable, free := [], [];
      NoneSwept(before, all, markHistogram);
      for i := 0 to |all|
        invariant SweptUpTo(before, all, i, space.table.Blocks(), free, recyclable, unavailable, old(markHistogram),
          markHistogram)
      {
        ghost var blocks := space.table.Blocks();
        var b := all[i];
        var holes, lines, empty := SweepBlock(b, space);
        SweepMore(before, all, i, blocks, free, recyclable, unavailable, old(markHistogram), markHistogram,
          space.table.Blocks(), holes, lines, empty);
        if empty {
          free := free + [b];
        } else {
          markHistogram := AddTo(markHistogram, holes, lines);
          if holes == 0 {
            unavailable := unavailable + [b];
          } else {
            recyclable := recyclable + [b];
          }
        }
        assert space.table.Blocks() == blocks[b := SweptBlock(blocks[b])];
      }
      allBlocks := unavailable;
      assert SweptUpTo(before, all, |all|, space.table.Blocks(), free, recyclable, unavailable, old(markHistogram),
        markHistogram);
    }

    /** Resets a block without used lines, and counts the holes and the used lines of any other. */
    method SweepBlock(b: nat, space: ImmixSpace) returns (holes: nat, lines: nat, empty: bool)
      requires space.table.Valid() && b in space.table.infos
      modifies space.table.Cells()
      ensures b in old(space.table.Blocks())
      ensures space.table.Blocks() == old(space.table.Blocks())[b := SweptBlock(old(space.table.Blocks())[b])]
      ensures empty <==> FateOf(old(space.table.Blocks())[b]) == Freed
      ensures !empty ==> holes == space.table.Blocks()[b].holes && lines == MarkedLines(space.table.Blocks()[b])
      ensures !empty ==> (holes == 0 <==> FateOf(old(space.table.Blocks())[b]) == Full)
    {
      hide BlockTable.Blocks, BlockAllocator.Valid, MarkedLines;
      space.table.KeysAre();
      empty := space.table.IsEmpty(b);
      if empty {
        space.table.Reset(b);
        holes, lines := 0, 0;
      } else {
        space.table.CountHoles(b);
        holes, lines := space.table.CountHolesAndMarkedLines(b);
      }
    }

    /** The swept blocks go to the headroom, up to its size, to the free list, and to the normal allocator. */
    method HandOutBlocks(space: ImmixSpace, ghost los: LargeObjectSpace)
      requires Valid(space, los) && |space.evacAllocator.evacHeadroom| <= EVAC_HEADROOM
      modifies this`allBlocks, this`markHistogram, space.table.Cells(), space.allocator, space.evacAllocator,
        space.blockAllocator
      ensures Valid(space, los)
      ensures forall b :: b in old(allBlocks) ==> b in old(space.View()).blocks
      ensures (space.View(), allBlocks) == Sweep(old(space.View()), old(allBlocks))
      ensures forall b :: b in old(allBlocks) ==> b in space.View().blocks
      ensures forall h :: Get(markHistogram, h) == SumAt(old(allBlocks), space.View().blocks, MarkedLines, h)
    {
      hide BlockTable.Blocks, BlockAllocator.Valid, SweptUpTo, MarkedLines, SweptBlock, WithFate;
      ghost var sp := space.View();
      ghost var all := allBlocks;
      markHistogram := map[];
      assert space.table.Blocks() == sp.blocks;
      var recyclable, free := SweepAllBlocks(space);
      SweptAll(sp.blocks, all, space.table.Blocks(), free, recyclable, allBlocks, markHistogram);
      FromAll(sp.blocks, all, Full);
      Distribute(recyclable, free, space);
    }

    method Distribute(recyclable: seq<nat>, free: seq<nat>, space: ImmixSpace)
      requires space.Valid() && |space.evacAllocator.evacHeadroom| <= EVAC_HEADROOM
      modifies space.allocator, space.evacAllocator, space.blockAllocator
      ensures space.Valid()
      ensures var sp := old(space.View());
        var n := Min(EVAC_HEADROOM - |sp.evac.headroom|, |free|);
        space.View() == sp.(normal := sp.normal.(recyclable := recyclable),
          evac := sp.evac.(headroom := sp.evac.headroom + free[..n]),
          ba := sp.ba.(free := sp.ba.free + free[n..]))
    {
      hide BlockTable.Blocks;
      ghost var blocks := space.table.Blocks();
      space.SetRecyclableBlocks(recyclable);
      assert space.table.Blocks() == blocks;
      var headroom := space.EvacHeadroom();
      var n := Min(EVAC_HEADROOM - headroom, |free|);
      space.ExtendEvacHeadroom(free[..n]);
      assert space.table.Blocks() == blocks;
      space.ReturnBlocks(free[n..]);
      assert space.table.Blocks() == blocks;
    }

    /** Sweeps the blocks, and after a trace the large objects; what was not reached is no object any more. */
    method CompleteCollection(t: CollectionType, space: ImmixSpace, los: LargeObjectSpace)
      requires Valid(space, los) && |space.evacAllocator.evacHeadroom| <= EVAC_HEADROOM
      requires t.IsImmix() ==> forall o :: o in los.objects ==> o in memory.headers
      modifies this`allBlocks, this`markHistogram, space.table.Cells(), space.allocator, space.evacAllocator,
        space.blockAllocator, memory, los
      ensures Valid(space, los)
      ensures forall b :: b in old(allBlocks) ==> b in old(space.View()).blocks
      ensures (space.View(), allBlocks) == Sweep(old(space.View()), old(allBlocks))
      ensures forall b :: b in old(allBlocks) ==> b in space.View().blocks
      ensures forall h :: Get(markHistogram, h) == SumAt(old(allBlocks), space.View().blocks, MarkedLines, h)
      ensures los.View() == if t.IsImmix() then SweepLos(old(los.View()), old(memory.headers)) else old(los.View())
      ensures if t.IsImmix() then
          && memory.headers ==
            Forget(old(memory.headers), ValidIn(space.table.Blocks(), los.objects, old(memory.headers)))
          && memory.bodies ==
            Forget(old(memory.bodies), ValidIn(space.table.Blocks(), los.objects, old(memory.headers)))
        else memory.headers == old(memory.headers) && memory.bodies == old(memory.bodies)
    {
      hide BlockTable.Blocks, BlockAllocator.Valid, IsGc, Sweep, MarkedLines, SumAt;
      HandOutBlocks(space, los);
      ghost var sp := space.View();
      if t.IsImmix() {
        var _ := los.Sweep();
        assert space.table.Blocks() == sp.blocks;
        var live := ValidObjects(space, los);
        assert live == ValidIn(space.table.Blocks(), los.objects, memory.headers);
        memory.Retain(live);
        assert space.table.Blocks() == sp.blocks;
      }
    }

    /** Both collections, on the heap of the world `w` whose roots have been pinned. */
    method Collect(t: CollectionType, roots: seq<Ref>, space: ImmixSpace, los: LargeObjectSpace, next: bool,
        ghost w: World, ghost threshold: Option<nat>)
      requires Valid(space, los) && next == !w.mark
      requires Inv(w, false) && Contract(w, SpacesModel.Collect(roots, t.IsEvac(), t.IsImmix(), threshold))
      requires allBlocks == w.all + GetAllBlocks(w.sp) && space.evacAllocator.View() == Drained(w.sp).evac
      requires rcCollector.View(space, los) == Pinned(w, roots, threshold)
      modifies rcCollector, memory, space.table.Cells(), space.evacAllocator, los
      ensures Valid(space, los) && RcReady(w, roots, threshold) && space.evacAllocator.View() == Drained(w.sp).evac
      ensures var f := AfterRc(w, roots, t.IsEvac(), threshold);
        rcCollector.View(space, los) == if t.IsImmix() then Marked(f, allBlocks, roots, next) else f
    {
      hide BlockTable.Blocks, BlockAllocator.Valid, Inv, Contract, RcReady, AfterRc, Pinned, GetAllBlocks, Settled,
        Wf, CollectRc, FinishRc, OnBlocks, Marked,
        StartOk, StartAfter, Cleared, LiveSet, Scope;
      var evac := t.IsEvac();
      RcParts(w, roots, evac, t.IsImmix(), threshold);
      PerformRcCollection(evac, roots, space, los);
      assert rcCollector.View(space, los) == AfterRc(w, roots, evac, threshold);
      if t.IsImmix() {
        ghost var f := rcCollector.View(space, los);
        StartIsOk(w, f, roots, evac, false);
        ghost var s := StartAfter(w, f, roots, evac);
        StartAfterIs(w, f, roots, evac);
        PerformImmixCollection(evac, roots, space, los, next, s);
        MarkedIs(f, allBlocks, roots, next);
      }
    }
  }

  // ---------------------------------------------------------------- block by block

  lemma OnNone(blocks: Blocks, change: Block -> Block)
    ensures OnBlocks(blocks, [], change) == blocks
  {
  }

  /** A change that does not add up may meet a block twice. */
  lemma OnMore(blocks: Blocks, all: seq<nat>, i: nat, change: Block -> Block)
    requires i < |all| && all[i] in blocks && forall x :: change(change(x)) == change(x)
    ensures var done := OnBlocks(blocks, all[..i], change);
      OnBlocks(blocks, all[..i + 1], change) == done[all[i] := change(done[all[i]])]
  {
    assert forall b :: b in all[..i + 1] <==> b in all[..i] || b == all[i];
  }

  lemma MarkTwice(holes: nat)
    ensures forall b :: MarkCandidate(MarkCandidate(b, holes), holes) == MarkCandidate(b, holes)
  {
  }

  lemma RemoveTwice()
    ensures forall b :: RemoveNew(RemoveNew(b)) == RemoveNew(b)
  {
  }

  lemma ClearTwice()
    ensures forall b :: ClearRecord(ClearRecord(b)) == ClearRecord(b)
  {
  }

  /** The first `n` blocks of `all` have been swept, sorted by their fates, and entered into the histogram. */
  ghost predicate SweptUpTo(before: Blocks, all: seq<nat>, n: nat, blocks: Blocks,
    free: seq<nat>, recyclable: seq<nat>, full: seq<nat>, h0: map<nat, nat>, h: map<nat, nat>)
  {
    && n <= |all| && (forall b :: b in all ==> b in before)
    && blocks == OnBlocks(before, all[..n], SweptBlock)
    && free == WithFate(all[..n], before, Freed) && recyclable == WithFate(all[..n], before, Recycled)
    && full == WithFate(all[..n], before, Full)
    && forall k :: Get(h, k) == Get(h0, k) + SumAt(all[..n], OnBlocks(before, all, SweptBlock), MarkedLines, k)
  }

  lemma NoneSwept(before: Blocks, all: seq<nat>, h: map<nat, nat>)
    requires forall b :: b in all ==> b in before
    ensures SweptUpTo(before, all, 0, before, [], [], [], h, h)
  {
    OnNone(before, SweptBlock);
  }

  /** One more block, met for the first time or again. */
  lemma SweepMore(before: Blocks, all: seq<nat>, n: nat, blocks: Blocks, free: seq<nat>, recyclable: seq<nat>,
      full: seq<nat>,
      h0: map<nat, nat>, h: map<nat, nat>, blocks': Blocks, holes: nat, lines: nat, empty: bool)
    requires SweptUpTo(before, all, n, blocks, free, recyclable, full, h0, h) && n < |all|
    requires all[n] in blocks && blocks' == blocks[all[n] := SweptBlock(blocks[all[n]])]
    requires empty <==> FateOf(blocks[all[n]]) == Freed
    requires !empty ==> holes == blocks'[all[n]].holes && lines == MarkedLines(blocks'[all[n]])
    requires !empty ==> (holes == 0 <==> FateOf(blocks[all[n]]) == Full)
    ensures var b := all[n];
      SweptUpTo(before, all, n + 1, blocks', if empty then free + [b] else free,
        if empty || holes == 0 then recyclable else recyclable + [b], if empty || holes != 0 then full else full + [b],
        h0, if empty then h else AddTo(h, holes, lines))
  {
    hide SweptBlock, FateOf, MarkedLines, WithFate, SumAt;
    FatesMore(before, all, n);
    SweptStep(before, all, n);
  }

  /** The fate of one more block. */
  lemma FatesMore(blocks: Blocks, all: seq<nat>, i: nat)
    requires i < |all| && forall b :: b in all ==> b in blocks
    ensures forall fate ::
      WithFate(all[..i + 1], blocks, fate)
      == WithFate(all[..i], blocks, fate) + if FateOf(blocks[all[i]]) == fate then [all[i]] else []
  {
    assert InitList(all[..i + 1]) == all[..i] && LastOf(all[..i + 1]) == all[i];
  }

  /** The record of one more block and its share of the histogram. */
  lemma SweptStep(before: Blocks, all: seq<nat>, i: nat)
    requires i < |all| && forall b :: b in all ==> b in before
    ensures var after, done, b := OnBlocks(before, all, SweptBlock), OnBlocks(before, all[..i], SweptBlock), all[i];
      && OnBlocks(before, all[..i + 1], SweptBlock) == done[b := SweptBlock(done[b])]
      && FateOf(done[b]) == FateOf(before[b]) && SweptBlock(done[b]) == after[b]
      && (FateOf(before[b]) == Freed ==> MarkedLines(after[b]) == 0)
      && forall h ::
        SumAt(all[..i + 1], after, MarkedLines, h)
        == SumAt(all[..i], after, MarkedLines, h) + if after[b].holes == h then MarkedLines(after[b]) else 0
  {
    SweptTwice();
    OnMore(before, all, i, SweptBlock);
    var b := all[i];
    assert InitList(all[..i + 1]) == all[..i] && LastOf(all[..i + 1]) == b;
    if FateOf(before[b]) == Freed {
      NoneUsed(before[b].lines, NUM_LINES);
    }
  }

  lemma SweptTwice()
    ensures forall b :: SweptBlock(SweptBlock(b)) == SweptBlock(b) && FateOf(SweptBlock(b)) == FateOf(b)
    ensures forall b :: SweptBlock(b).lines == b.lines
  {
    forall b: Block
      ensures SweptBlock(b).lines == b.lines
    {
      if AllFree(b.lines) {
        assert b.lines == ZeroLines();
      }
    }
  }

  lemma {:induction false} NoneUsed(lines: Lines, n: nat)
    requires AllFree(lines) && n <= NUM_LINES
    ensures UsedLines(lines, n) == 0
    decreases n
  {
    if n > 0 {
      NoneUsed(lines, n - 1);
    }
  }

  lemma SweptAll(before: Blocks, all: seq<nat>, blocks: Blocks, free: seq<nat>, recyclable: seq<nat>, full: seq<nat>,
      h: map<nat, nat>)
    requires SweptUpTo(before, all, |all|, blocks, free, recyclable, full, map[], h)
    ensures (forall b :: b in all ==> b in before) && blocks == OnBlocks(before, all, SweptBlock)
    ensures free == WithFate(all, before, Freed) && recyclable == WithFate(all, before, Recycled)
    ensures full == WithFate(all, before, Full)
    ensures forall k :: Get(h, k) == SumAt(all, blocks, MarkedLines, k)
  {
    hide SweptBlock, MarkedLines, WithFate;
    assert all[..|all|] == all;
  }

  lemma FromAll(blocks: Blocks, all: seq<nat>, fate: Fate)
    requires forall b :: b in all ==> b in blocks
    ensures forall b :: b in WithFate(all, blocks, fate) ==> b in all
  {
  }

  // ---------------------------------------------------------------- the collections and the model

  ghost function ValidIn(blocks: Blocks, large: set<Ref>, hs: Headers): set<Ref> {
    set o | o in hs && (IsGc(blocks, o) || o in large)
  }

  /** After the trace, before anything is forgotten. */
  ghost function Marked(f: Rc, all: seq<nat>, found: seq<Ref>, next: bool): Rc {
    f.(hs := MarkAll(f.hs, LiveSet(f, found), next),
       blocks := TracedBlocks(OnBlocks(f.blocks, all, ClearRecord), f.bs, LiveSet(f, found)))
  }

  lemma MarkedIs(f: Rc, all: seq<nat>, found: seq<Ref>, next: bool)
    ensures Marked(f, all, found, next) ==
      f.(hs := MarkAll(f.hs, LiveSet(f, found), next),
         blocks := TracedBlocks(OnBlocks(f.blocks, all, ClearRecord), f.bs, LiveSet(f, found)))
  {
  }

  lemma StartAfterIs(w: World, f: Rc, found: seq<Ref>, evac: bool)
    ensures StartAfter(w, f, found, evac) ==
      Start(f.hs, f.bs, OnBlocks(f.blocks, w.all + GetAllBlocks(w.sp), ClearRecord), Drained(w.sp).evac, found,
        !w.mark, evac)
  {
  }

  /** What the reference counting collection starts from and leaves, in the terms of its methods. */
  lemma RcParts(w: World, found: seq<Ref>, evac: bool, immix: bool, threshold: Option<nat>)
    requires Inv(w, false) && Contract(w, SpacesModel.Collect(found, evac, immix, threshold))
    ensures RcReady(w, found, threshold)
    ensures var all, p := w.all + GetAllBlocks(w.sp), Pinned(w, found, threshold);
      var g0 := p.(blocks := OnBlocks(p.blocks, all, RemoveNew));
      && Wf(g0) && (forall o :: o in found ==> o in g0.bs) && (forall o :: o in g0.los.newObjects ==> o in g0.bs)
      && AfterRc(w, found, evac, threshold) == FinishRc(CollectRc(g0, found, evac))
    ensures var f := AfterRc(w, found, evac, threshold);
      Settled(w, f, found, w.mark, false) && forall o :: o in found ==> o in f.hs && f.hs[o].pinned
  {
    hide Inv, GetAllBlocks, Settled, Wf, CollectRc, FinishRc, OnBlocks, Reachable, IsGc;
    RcSettles(w, found, evac, threshold, false);
    RcStartIs(w, found, threshold);
    var f := AfterRc(w, found, evac, threshold);
    SettledCollected(w, f, found, w.mark, false);
  }
}
