/**
  The reference counting collector (src/spaces/collector/rc_collector.rs) working in place on its
  buffers, on the memory, and on the spaces. Each method does what `RcModel` says.
 */
module RcCollectors {
  import opened Constants
  import opened Objects
  import opened ObjectMemory
  import opened BlockLines
  import opened BlockTables
  import opened BlockRecords
  import opened Allocators
  import opened Graph
  import opened RcModel
  import opened ImmixSpaces
  import opened LargeObjects

  class RCCollector {
    const memory: Memory
    var oldRootBuffer: seq<Ref>
    var decrementBuffer: seq<Ref>
    var modifiedBuffer: seq<Ref>
    var performEvac: bool
    var writeBarrierCounter: nat

    /** Whether an increment has ever asked for an evacuation. */
    ghost var evacTried: bool

    ghost function View(space: ImmixSpace, los: LargeObjectSpace): Rc
      reads this, memory, space.table, space.table.Cells(), los
    {
      Rc(memory.headers, memory.bodies, space.table.Blocks(), los.View(), oldRootBuffer, decrementBuffer,
        modifiedBuffer, evacTried)
    }

    /** The spaces belong to the same memory, and the block records are none of the other objects. */
    ghost predicate Valid(space: ImmixSpace, los: LargeObjectSpace)
      reads space, space.blockAllocator, space.table
    {
      && space.Valid() && space.memory == memory && los.memory == memory
      && this !in space.table.Cells() && los !in space.table.Cells()
    }

    constructor (memory: Memory)
      ensures this.memory == memory
      ensures oldRootBuffer == [] && decrementBuffer == [] && modifiedBuffer == [] && !evacTried
    {
      this.memory := memory;
      oldRootBuffer, decrementBuffer, modifiedBuffer := [], [], [];
      performEvac, writeBarrierCounter, evacTried := false, 0, false;
    }

    /**
      An object that is not logged yet is logged and buffered, and its children are owed a decrement.
      The result says whether a collection is due; the threshold for that is switched off.
     */
    method WriteBarrier(o: Ref, ghost space: ImmixSpace, ghost los: LargeObjectSpace) returns (due: bool)
      requires Valid(space, los) && o in memory.headers && o in memory.bodies && memory.bodies[o].Plain?
      modifies this, memory
      ensures View(space, los) == RcModel.WriteBarrier(old(View(space, los)), o)
      ensures !due && performEvac == old(performEvac)
    {
      hide BlockTable.Blocks, BlockAllocator.Valid;
      var was := memory.SetLogged(o, true);
      assert space.table.Blocks() == old(space.table.Blocks());
      if was {
        assert memory.headers == old(memory.headers);
      } else {
        Modified(o);
        DecrementChildren(o);
        assert space.table.Blocks() == old(space.table.Blocks());
        writeBarrierCounter := writeBarrierCounter + 1;
      }
      due := WRITE_BARRIER_COLLECT_THRESHOLD > 0 && writeBarrierCounter >= WRITE_BARRIER_COLLECT_THRESHOLD;
    }

    method Modified(o: Ref)
      modifies this`modifiedBuffer
      ensures modifiedBuffer == old(modifiedBuffer) + [o]
    {
      modifiedBuffer := modifiedBuffer + [o];
    }

    method Decrement(o: Ref)
      modifies this`decrementBuffer
      ensures decrementBuffer == old(decrementBuffer) + [o]
    {
      decrementBuffer := decrementBuffer + [o];
    }

    /** Owes a decrement to every child. */
    method DecrementChildren(o: Ref)
      requires o in memory.bodies && memory.bodies[o].Plain?
      modifies this`decrementBuffer
      ensures decrementBuffer == old(decrementBuffer) + Children(memory.bodies[o])
    {
      hide NonNull;
      var iter := new ChildIter(memory, o);
      ghost var ms := memory.bodies[o].members;
      ghost var goal := decrementBuffer + NonNull(ms);
      assert ms[0..] == ms;
      while true
        invariant iter.Valid() && fresh(iter) && iter.memory == memory && iter.parent == o
        invariant decrementBuffer + NonNull(ms[iter.num..]) == goal
        decreases |ms| - iter.num
      {
        ghost var rest := NonNull(ms[iter.num..]);
        var child := iter.Next();
        if child.None? {
          break;
        }
        assert rest == [child.value] + NonNull(ms[iter.num..]);
        Decrement(child.value);
      }
    }

    /** A new object is buffered. That it is also valid in its block, and so could be moved, never happens. */
    method Increment(space: ImmixSpace, ghost los: LargeObjectSpace, o: Ref, tryEvacuate: bool)
      requires Valid(space, los) && o in memory.headers
      modifies this`modifiedBuffer, this`evacTried, memory`headers
      ensures View(space, los) == RcModel.Increment(old(View(space, los)), o, tryEvacuate, performEvac)
    {
      hide BlockTable.Blocks, BlockAllocator.Valid, IsGc;
      var wasNew := memory.Increment(o);
      assert space.table.Blocks() == old(space.table.Blocks());

      if wasNew {
        if tryEvacuate && performEvac {
          var valid := space.IsGcObject(o);
          if valid {
            evacTried := true;
          }
        }
        Modified(o);
      }
      assert space.table.Blocks() == old(space.table.Blocks());
    }

    method ProcessOldRoots(ghost space: ImmixSpace, ghost los: LargeObjectSpace)
      requires Wf(View(space, los))
      modifies this`oldRootBuffer, this`decrementBuffer
      ensures View(space, los) == RcModel.ProcessOldRoots(old(View(space, los)))
    {
      decrementBuffer := decrementBuffer + oldRootBuffer;
      oldRootBuffer := [];
    }

    method ProcessCurrentRoots(space: ImmixSpace, ghost los: LargeObjectSpace, roots: seq<Ref>)
      requires Valid(space, los) && Wf(View(space, los)) && forall o :: o in roots ==> o in memory.bodies
      modifies this`oldRootBuffer, this`modifiedBuffer, this`evacTried, memory`headers
      ensures View(space, los) == ProcessRoots(old(View(space, los)), roots)
    {
      hide Wf, BlockTable.Blocks, BlockAllocator.Valid;
      ghost var goal := ProcessRoots(View(space, los), roots);
      assert roots[0..] == roots;
      for i := 0 to |roots|
        invariant Wf(View(space, los)) && memory.bodies == old(memory.bodies)
        invariant ProcessRoots(View(space, los), roots[i..]) == goal
      {
        ghost var g := View(space, los);
        WfStep(g, roots[i]);
        assert roots[i..][0] == roots[i] && roots[i..][1..] == roots[i + 1..];
        Increment(space, los, roots[i], false);
        oldRootBuffer := oldRootBuffer + [roots[i]];
        assert space.table.Blocks() == g.blocks;
      }
    }

    method ProcessLosNewObjects(space: ImmixSpace, ghost los: LargeObjectSpace, newObjects: seq<Ref>)
      requires Valid(space, los) && Wf(View(space, los)) && forall o :: o in newObjects ==> o in memory.bodies
      modifies this`decrementBuffer, this`modifiedBuffer, this`evacTried, memory`headers
      ensures View(space, los) == ProcessLosNew(old(View(space, los)), newObjects)
    {
      hide Wf, BlockTable.Blocks, BlockAllocator.Valid;
      ghost var goal := ProcessLosNew(View(space, los), newObjects);
      assert newObjects[0..] == newObjects;
      for i := 0 to |newObjects|
        invariant Wf(View(space, los)) && memory.bodies == old(memory.bodies)
        invariant ProcessLosNew(View(space, los), newObjects[i..]) == goal
      {
        ghost var g := View(space, los);
        WfStep(g, newObjects[i]);
        assert newObjects[i..][0] == newObjects[i] && newObjects[i..][1..] == newObjects[i + 1..];
        Increment(space, los, newObjects[i], false);
        Decrement(newObjects[i]);
        assert space.table.Blocks() == g.blocks;
      }
    }

    /** One child. No object of a well-formed heap is forwarded. */
    method IncrementChild(space: ImmixSpace, ghost los: LargeObjectSpace, child: Ref)
      requires Valid(space, los) && child in memory.headers && child in memory.bodies && memory.bodies[child].Plain?
      modifies this`modifiedBuffer, this`evacTried, memory`headers
      ensures View(space, los) == RcModel.Increment(old(View(space, los)), child, true, performEvac)
    {
      if memory.bodies[child].Forwarded? {
        assert false;
      } else {
        Increment(space, los, child, true);
      }
    }

    /** Increments the children of the object. */
    method IncrementChildren(space: ImmixSpace, ghost los: LargeObjectSpace, o: Ref)
      requires Valid(space, los) && Wf(View(space, los)) && o in memory.bodies
      modifies this`modifiedBuffer, this`evacTried, memory`headers
      ensures View(space, los) ==
        RcModel.IncrementChildren(old(View(space, los)), Children(memory.bodies[o]), performEvac)
    {
      hide Wf, Children, BlockTable.Blocks, BlockAllocator.Valid, RcModel.IncrementChildren, RcModel.Increment, NonNull;
      WfBodies(View(space, los), o);
      var iter := new ChildIter(memory, o);
      ghost var rest := Children(memory.bodies[o]);
      ChildrenAre(memory.bodies[o]);
      assert View(space, los) == old(View(space, los)) by { assert space.table.Blocks() == old(space.table.Blocks()); }
      assert memory.bodies[o].members[0..] == memory.bodies[o].members;
      while true
        invariant iter.Valid() && fresh(iter) && iter.memory == memory && iter.parent == o
        invariant Wf(View(space, los)) && memory.bodies == old(memory.bodies)
        invariant rest == NonNull(memory.bodies[o].members[iter.num..])
        invariant forall c :: c in rest ==> c in memory.bodies && memory.bodies[c].Plain?
        invariant RcModel.IncrementChildren(View(space, los), rest, performEvac)
          == RcModel.IncrementChildren(old(View(space, los)), Children(memory.bodies[o]), performEvac)
        decreases |memory.bodies[o].members| - iter.num
      {
        ghost var g := View(space, los);
        var child := iter.Next();
        assert View(space, los) == g by { assert space.table.Blocks() == g.blocks; }
        if child.None? {
          NoChildrenLeft(g, performEvac);
          break;
        }
        assert child.value == rest[0] && NonNull(memory.bodies[o].members[iter.num..]) == rest[1..];
        ChildrenStep(g, rest, performEvac);
        rest := rest[1..];
        IncrementChild(space, los, child.value);
      }
    }

    /** Takes an object off the modified buffer; it is valid and counted from now on. */
    method PopModified(space: ImmixSpace, ghost los: LargeObjectSpace) returns (o: Ref)
      requires Valid(space, los) && Wf(View(space, los)) && modifiedBuffer != []
      modifies this`modifiedBuffer, memory`headers, space.table.Cells()
      ensures Valid(space, los)
      ensures o == old(modifiedBuffer)[0] && o in memory.bodies && View(space, los) == PopMod(old(View(space, los)))
    {
      hide BlockTable.Blocks, BlockAllocator.Valid, InSpace, Fits, Closed;
      o := modifiedBuffer[0];
      InBlocks(View(space, los), o);
      modifiedBuffer := modifiedBuffer[1..];
      var was := memory.SetLogged(o, false);
      assert space.table.Blocks() == old(space.table.Blocks());
      var inSpace := space.IsInSpace(o);
      if inSpace {
        space.SetGcObject(o);
        space.IncrementLines(o);
      }
    }

    method ProcessModBuffer(space: ImmixSpace, ghost los: LargeObjectSpace)
      requires Valid(space, los) && Wf(View(space, los))
      modifies this`modifiedBuffer, this`evacTried, memory`headers, space.table.Cells()
      ensures Valid(space, los)
      ensures View(space, los) == ProcessMods(old(View(space, los)), performEvac)
    {
      hide Wf, PopMod, RcModel.IncrementChildren, ProcessMods, NewObjects, Children, BlockTable.Blocks,
        BlockAllocator.Valid;
      while modifiedBuffer != []
        invariant Valid(space, los) && Wf(View(space, los))
        invariant ProcessMods(View(space, los), performEvac) == ProcessMods(old(View(space, los)), performEvac)
        decreases |NewObjects(memory.headers)| + |modifiedBuffer|
      {
        ModsStep(View(space, los), performEvac);
        var o := PopModified(space, los);
        IncrementChildren(space, los, o);
      }
      ModsEnd(View(space, los), performEvac);
    }

    /** Takes a decrement off the buffer; an object without references left that is no root is reclaimed. */
    method PopDecrement(space: ImmixSpace, los: LargeObjectSpace)
      requires Valid(space, los) && Wf(View(space, los)) && decrementBuffer != []
      modifies this`decrementBuffer, memory`headers, space.table.Cells(), los
      ensures Valid(space, los)
      ensures View(space, los) == PopDec(old(View(space, los)))
    {
      hide BlockTable.Blocks, BlockAllocator.Valid, InSpace, Fits, Closed;
      var o := decrementBuffer[0];
      InBlocks(View(space, los), o);
      decrementBuffer := decrementBuffer[1..];
      var dropped := memory.Decrement(o);
      assert space.table.Blocks() == old(space.table.Blocks());
      if dropped && !memory.headers[o].pinned {
        Reclaim(o, space, los);
      }
    }

    /** The children of a dead object lose a reference each; its bytes or its memory are given back. */
    method Reclaim(o: Ref, space: ImmixSpace, los: LargeObjectSpace)
      requires Valid(space, los) && o in memory.bodies && memory.bodies[o].Plain?
      requires IsGc(space.table.Blocks(), o) ==>
        o.Immix? && o.block in space.table.Blocks() && Fits(o.offset, memory.bodies[o].size)
      modifies this`decrementBuffer, space.table.Cells(), los
      ensures Valid(space, los)
      ensures View(space, los) == Reclaimed(old(View(space, los)), o)
    {
      hide BlockTable.Blocks, BlockAllocator.Valid, InSpace, Fits, InMap;
      DecrementChildren(o);
      assert space.table.Blocks() == old(space.table.Blocks());
      var valid := space.IsGcObject(o);
      if valid {
        space.DecrementLines(o);
        space.UnsetGcObject(o);
      } else {
        valid := los.IsGcObject(o);
        if valid {
          los.EnqueueFree(o);
          assert space.table.Blocks() == old(space.table.Blocks());
        }
      }
    }

    method ProcessDecrementBuffer(space: ImmixSpace, los: LargeObjectSpace)
      requires Valid(space, los) && Wf(View(space, los))
      modifies this`decrementBuffer, memory`headers, space.table.Cells(), los
      ensures Valid(space, los)
      ensures View(space, los) == ProcessDecs(old(View(space, los)))
    {
      hide Wf, PopDec, SumCounts;
      while decrementBuffer != []
        invariant Valid(space, los) && Wf(View(space, los))
        invariant ProcessDecs(View(space, los)) == ProcessDecs(old(View(space, los)))
        decreases SumCounts(memory.headers), |decrementBuffer|
      {
        PopDecMeasure(View(space, los));
        PopDecrement(space, los);
      }
    }

    /** The new objects of the large object space leave it. */
    method TakeNewObjects(ghost space: ImmixSpace, los: LargeObjectSpace) returns (newObjects: seq<Ref>)
      requires Valid(space, los) && Wf(View(space, los))
      modifies los
      ensures Valid(space, los) && newObjects == old(los.newObjects)
      ensures View(space, los) == TakeLosNew(old(View(space, los)))
    {
      hide Wf, BlockTable.Blocks, BlockAllocator.Valid;
      newObjects := los.GetNewObjects();
      assert space.table.Blocks() == old(space.table.Blocks());
    }

    /** What happens before the buffers are drained. */
    method ProcessRootsAndNew(roots: seq<Ref>, space: ImmixSpace, los: LargeObjectSpace)
      requires Valid(space, los) && Wf(View(space, los))
      requires (forall o :: o in roots ==> o in memory.bodies)
      requires (forall o :: o in los.newObjects ==> o in memory.bodies)
      modifies this`oldRootBuffer, this`decrementBuffer, this`modifiedBuffer, this`evacTried, memory`headers, los
      ensures Valid(space, los)
      ensures View(space, los) == EnterRoots(old(View(space, los)), roots)
    {
      hide Wf, RcModel.ProcessOldRoots, ProcessRoots, ProcessLosNew, TakeLosNew, BlockTable.Blocks,
        BlockAllocator.Valid;
      ProcessOldRoots(space, los);
      ProcessCurrentRoots(space, los, roots);
      var newObjects := TakeNewObjects(space, los);
      ProcessLosNewObjects(space, los, newObjects);
    }

    /** The whole collection. */
    method Collect(evac: bool, roots: seq<Ref>, space: ImmixSpace, los: LargeObjectSpace)
      requires Valid(space, los) && Wf(View(space, los))
      requires (forall o :: o in roots ==> o in memory.bodies)
      requires (forall o :: o in los.newObjects ==> o in memory.bodies)
      modifies this, memory`headers, space.table.Cells(), los
      ensures Valid(space, los)
      ensures View(space, los) == CollectRc(old(View(space, los)), roots, evac)
    {
      hide Wf, ProcessMods, ProcessDecs, EnterRoots, BlockTable.Blocks, BlockAllocator.Valid;
      performEvac := evac;
      assert space.table.Blocks() == old(space.table.Blocks());
      ProcessRootsAndNew(roots, space, los);
      DrainBuffers(space, los);
      writeBarrierCounter := 0;
    }

    method DrainBuffers(space: ImmixSpace, los: LargeObjectSpace)
      requires Valid(space, los) && Wf(View(space, los))
      modifies this`modifiedBuffer, this`decrementBuffer, this`evacTried, memory`headers, space.table.Cells(), los
      ensures Valid(space, los)
      ensures View(space, los) == ProcessDecs(ProcessMods(old(View(space, los)), performEvac))
    {
      hide Wf, ProcessMods, ProcessDecs, BlockTable.Blocks, BlockAllocator.Valid;
      ProcessModBuffer(space, los);
      ProcessDecrementBuffer(space, los);
    }
  }

  /** The state without an object whose last reference is gone. */
  ghost function Reclaimed(g: Rc, o: Ref): Rc
    requires o in g.bs && g.bs[o].Plain?
  {
    var g1 := g.(decs := g.decs + Children(g.bs[o]));
    if IsGc(g.blocks, o) then g1.(blocks := UnsetGc(DecLines(g.blocks, o, g.bs[o].size), o))
    else if o in g.los.objects then g1.(los := g.los.(freeBuffer := g.los.freeBuffer + [o]))
    else g1
  }

  lemma ChildrenStep(g: Rc, children: seq<Ref>, evac: bool)
    requires Wf(g) && children != [] && forall o :: o in children ==> o in g.bs
    ensures children[0] in g.hs
    ensures var r := RcModel.Increment(g, children[0], true, evac);
      && Wf(r) && r.bs == g.bs && (forall o :: o in children[1..] ==> o in children)
      && RcModel.IncrementChildren(g, children, evac) == RcModel.IncrementChildren(r, children[1..], evac)
  {
    hide InSpace, Fits, Closed;
  }

  lemma NoChildrenLeft(g: Rc, evac: bool)
    requires Wf(g)
    ensures RcModel.IncrementChildren(g, [], evac) == g
  {
  }

  /** Entering a root or a new large object keeps the heap well-formed. */
  lemma WfStep(g: Rc, o: Ref)
    requires Wf(g) && o in g.bs
    ensures o in g.hs
    ensures forall tryEvac, evac ::
      Wf(RcModel.Increment(g, o, tryEvac, evac)) && RcModel.Increment(g, o, tryEvac, evac).bs == g.bs
    ensures var g1 := RcModel.Increment(g, o, false, false);
      Wf(g1.(oldRoots := g1.oldRoots + [o])) && Wf(g1.(decs := g1.decs + [o]))
  {
    hide InSpace, Fits, Closed;
  }

  lemma WfBodies(g: Rc, o: Ref)
    requires Wf(g) && o in g.bs
    ensures g.bs[o].Plain? && forall c :: c in Children(g.bs[o]) ==> c in g.bs && g.bs[c].Plain?
  {
  }

  lemma InBlocks(g: Rc, o: Ref)
    requires Wf(g) && o in g.bs
    ensures o.Immix? ==> InSpace(g.blocks, o) && o.block in g.blocks && Fits(o.offset, g.bs[o].size)
  {
  }

  lemma ChildrenAre(b: Body)
    ensures b.Plain? ==> Children(b) == NonNull(b.members)
  {
  }

  lemma ModsEnd(g: Rc, evac: bool)
    requires Wf(g) && g.mods == []
    ensures ProcessMods(g, evac) == g
  {
  }

  /** One round of the loop over the modified buffer, and why the loop ends. */
  lemma ModsStep(g: Rc, evac: bool)
    requires Wf(g) && g.mods != []
    ensures g.mods[0] in g.bs && Wf(PopMod(g)) && forall c :: c in Children(g.bs[g.mods[0]]) ==> c in g.bs
    ensures PopMod(g).bs == g.bs
    ensures var r := RcModel.IncrementChildren(PopMod(g), Children(g.bs[g.mods[0]]), evac);
      && Wf(r) && r.bs == g.bs && ProcessMods(g, evac) == ProcessMods(r, evac)
      && |NewObjects(r.hs)| + |r.mods| < |NewObjects(g.hs)| + |g.mods|
  {
    hide InSpace, Fits;
  }
}
