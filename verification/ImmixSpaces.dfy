/**
  The immix space (src/spaces/immix_space/mod.rs): the allocators over one table of block records,
  and what the collectors ask of them object by object.
 */
module ImmixSpaces {
  import opened Constants
  import opened Wrappers
  import opened Objects
  import opened ObjectMemory
  import opened BlockLines
  import opened BlockTables
  import opened BlockRecords
  import opened AllocatorModel
  import opened AllocatorProofs
  import opened Allocators
  import opened TraceModel
  import opened SweepModel

  class ImmixSpace {
    const memory: Memory
    const table: BlockTable
    const blockAllocator: BlockAllocator
    const allocator: NormalAllocator
    const overflowAllocator: OverflowAllocator
    const evacAllocator: EvacAllocator
    var currentLiveMark: bool

    ghost function Blocks(): Blocks
      reads table, table.Cells()
    {
      table.Blocks()
    }

    ghost function View(): Space
      reads this, table, table.Cells(), blockAllocator, allocator, overflowAllocator, evacAllocator
    {
      Space(table.Blocks(), blockAllocator.View(), allocator.View(), overflowAllocator.View(), evacAllocator.View(),
        currentLiveMark)
    }

    /** The parts belong together, and none of them is a block record. */
    ghost predicate Wired()
      reads this, blockAllocator, table
    {
      && blockAllocator.table == table && evacAllocator.table == table && table.Valid() && blockAllocator.Valid()
      && allocator.blockAllocator == blockAllocator && overflowAllocator.blockAllocator == blockAllocator
      && memory !in table.Cells() && evacAllocator !in table.Cells()
    }

    /** And no block crosses the bound of valid addresses. */
    ghost predicate Valid()
      reads this, blockAllocator, table
    {
      Wired() && blockAllocator.Whole()
    }

    constructor (memory: Memory, mmap: nat)
      ensures Valid() && this.memory == memory && blockAllocator.mmap == mmap
      ensures View() == Space(map[], BlockAlloc(Aligned(mmap), mmap + HEAP_SIZE, []),
        Normal([], [], None), Overflow([], None), Evac([], [], None), false)
      ensures fresh(table) && fresh(blockAllocator) && fresh(allocator) && fresh(overflowAllocator)
      ensures fresh(evacAllocator)
      ensures table.Cells() == {}
    {
      this.memory := memory;
      var t := new BlockTable();
      var b := new BlockAllocator(mmap, t);
      var n := new NormalAllocator(b);
      var o := new OverflowAllocator(b);
      var e := new EvacAllocator(t);
      table, blockAllocator, allocator, overflowAllocator, evacAllocator := t, b, n, o, e;
      currentLiveMark := false;
    }

    method IsInSpace(o: Ref) returns (r: bool)
      requires Valid() && (o.Immix? ==> InSpace(Blocks(), o))
      ensures r <==> o.Immix?
    {
      r := blockAllocator.IsInSpace(o);
      if o.Immix? {
        blockAllocator.WholeInSpace(o);
      }
    }

    /** The bounds first, as there is no record to look at outside of them. */
    method IsGcObject(o: Ref) returns (r: bool)
      requires Valid()
      ensures r <==> IsGc(Blocks(), o)
    {
      r := blockAllocator.IsInSpace(o);
      if InSpace(table.Blocks(), o) {
        blockAllocator.WholeInSpace(o);
      }
      if r {
        r := table.IsGcObject(o);
      }
    }

    method SetGcObject(o: Ref)
      requires Wired() && o.Immix? && o.block in Blocks()
      modifies table.Cells()
      ensures Blocks() == SetGc(old(Blocks()), o)
    {
      table.SetGcObject(o);
    }

    method UnsetGcObject(o: Ref)
      requires Valid() && o.Immix? && o.block in Blocks()
      modifies table.Cells()
      ensures Blocks() == UnsetGc(old(Blocks()), o)
    {
      table.UnsetGcObject(o);
    }

    method IncrementLines(o: Ref)
      requires Valid() && o.Immix? && o.block in Blocks()
      requires o in memory.bodies && memory.bodies[o].Plain? && Fits(o.offset, memory.bodies[o].size)
      modifies table.Cells()
      ensures Blocks() == IncLines(old(Blocks()), o, memory.bodies[o].size)
    {
      table.IncrementLines(o, memory.bodies[o].size);
    }

    method DecrementLines(o: Ref)
      requires Valid() && o.Immix? && o.block in Blocks()
      requires o in memory.bodies && memory.bodies[o].Plain? && Fits(o.offset, memory.bodies[o].size)
      modifies table.Cells()
      ensures Blocks() == DecLines(old(Blocks()), o, memory.bodies[o].size)
    {
      table.DecrementLines(o, memory.bodies[o].size);
    }

    method AvailableBlocks() returns (n: nat)
      requires Valid()
      ensures n == blockAllocator.mmap % BLOCK_SIZE + |View().ba.free|
    {
      n := blockAllocator.AvailableBlocks();
    }

    method EvacHeadroom() returns (n: nat)
      ensures n == |View().evac.headroom|
    {
      n := |evacAllocator.evacHeadroom|;
    }

    method ReturnBlocks(blocks: seq<nat>)
      requires Valid()
      modifies blockAllocator
      ensures Valid() && View() == old(View()).(ba := old(View()).ba.(free := old(View()).ba.free + blocks))
    {
      blockAllocator.ReturnBlocks(blocks);
    }

    method SetCurrentLiveMark(mark: bool)
      modifies this`currentLiveMark
      ensures View() == old(View()).(mark := mark)
    {
      currentLiveMark := mark;
    }

    method SetRecyclableBlocks(blocks: seq<nat>)
      modifies allocator
      ensures View() == old(View()).(normal := old(View()).normal.(recyclable := blocks))
    {
      allocator.SetRecyclableBlocks(blocks);
    }

    method ExtendEvacHeadroom(blocks: seq<nat>)
      modifies evacAllocator
      ensures View() == old(View()).(evac := old(View()).evac.(headroom := old(View()).evac.headroom + blocks))
    {
      evacAllocator.ExtendEvacHeadroom(blocks);
    }

    /** All blocks the allocators hold move to the caller. */
    method GetAllBlocks() returns (all: seq<nat>)
      modifies allocator, overflowAllocator, evacAllocator
      ensures all == SweepModel.GetAllBlocks(old(View())) && View() == Drained(old(View()))
      ensures all ==
        old(allocator.unavailableBlocks) + old(allocator.recyclableBlocks) + CursorBlock(old(allocator.currentBlock))
        + (old(overflowAllocator.unavailableBlocks) + CursorBlock(old(overflowAllocator.currentBlock)))
        + (old(evacAllocator.unavailableBlocks) + CursorBlock(old(evacAllocator.currentBlock)))
    {
      var n := allocator.GetAllBlocks();
      var o := overflowAllocator.GetAllBlocks();
      var e := evacAllocator.GetAllBlocks();
      all := n + o + e;
    }

    /** Small objects from the normal allocator, medium ones from the overflow allocator; the object is new. */
    method Allocate(size: nat, junk: seq<Slot>) returns (object': Option<Ref>)
      requires Valid() && Known(View()) && size <= LAST_OFFSET - LINE_SIZE
      modifies memory, table, table.Cells(), blockAllocator, allocator, overflowAllocator
      ensures old(blockAllocator.NextWhole()) || blockAllocator.data == old(blockAllocator.data) ==> Valid()
      ensures Wired() && Known(View()) && fresh(table.Cells() - old(table.Cells()))
      ensures old(table.infos).Keys <= table.infos.Keys
      ensures var (sp, r) := SpaceAllocate(old(View()), size);
        && object' == r
        && (r.None? ==> View() == sp && memory.headers == old(memory.headers) && memory.bodies == old(memory.bodies))
        && (r.Some? ==>
          && r.value.Immix? && r.value.block in sp.blocks && View() == sp.(blocks := EnterObject(sp.blocks, r.value))
          && memory.headers == old(memory.headers)[r.value := NewHeader(currentLiveMark)]
          && memory.bodies == old(memory.bodies)[r.value := Plain(size, junk)])
    {
      hide Known, SpaceAllocate, EnterObject, BlockTable.Blocks;
      ghost var sp := View();
      object', sp := Reserve(size, sp);
      if object'.Some? {
        var o := object'.value;
        memory.Write(o, currentLiveMark, size, junk);
        assert table.Blocks() == sp.blocks;
        EnterNew(o);
        EnterKnown(sp, o);
      }
    }

    /** The address becomes a new and a valid object. */
    method EnterNew(o: Ref)
      requires Wired() && o.Immix? && o.block in table.infos
      modifies table.Cells()
      ensures o.block in old(Blocks()) && Blocks() == EnterObject(old(Blocks()), o)
    {
      table.SetNewObject(o);
      SetGcObject(o);
    }

    /** The bytes for an object. */
    method Reserve(size: nat, ghost sp: Space) returns (address: Option<Ref>, ghost sp': Space)
      requires Valid() && Known(View()) && sp == View() && size <= LAST_OFFSET - LINE_SIZE
      modifies table, table.Cells(), blockAllocator, allocator, overflowAllocator
      ensures old(blockAllocator.NextWhole()) || blockAllocator.data == old(blockAllocator.data) ==> Valid()
      ensures Wired() && Known(View()) && fresh(table.Cells() - old(table.Cells()))
      ensures old(table.infos).Keys <= table.infos.Keys
      ensures (sp', address) == SpaceAllocate(sp, size) && sp' == View()
      ensures address.Some? ==> address.value.Immix? && address.value.block in table.infos
    {
      hide Known, NormalAllocate, OverflowAllocate;
      AllocatedKnown(sp, size);
      table.KeysAre();
      if size < MEDIUM_OBJECT {
        NormalAllocateFrame(sp, size);
        address, sp' := allocator.Allocate(size, sp);
      } else {
        OverflowAllocateFrame(sp, size);
        address, sp' := overflowAllocator.Allocate(size, sp);
      }
      table.KeysAre();
      assert address.Some? ==> address.value.block in table.Blocks();
    }

    /** What the trace sees. */
    ghost function TraceView(queue: seq<Ref>): Tr
      reads this, memory, table, table.Cells(), evacAllocator
    {
      Tr(memory.headers, memory.bodies, table.Blocks(), evacAllocator.View(), queue)
    }

    /**
      Moves an object that is not pinned and lies in a candidate block, if the headroom has room for
      it. The old place becomes a forwarding pointer and, as in the source, is entered as valid.
     */
    method MaybeEvacuate(o: Ref, ghost queue: seq<Ref>) returns (moved: Option<Ref>)
      requires Valid() && o.Immix? && o.block in Blocks() && o in memory.headers && o in memory.bodies
      requires memory.bodies[o].Plain?
      requires EvacKnown(evacAllocator.View(), Blocks())
      modifies memory, table.Cells(), evacAllocator
      ensures (TraceView(queue), moved) == TraceModel.MaybeEvacuate(old(TraceView(queue)), o)
      ensures moved.Some? ==>
        && !old(memory.headers[o].pinned) && old(Blocks()[o.block].candidate)
        && memory.headers == old(memory.headers)[moved.value := old(memory.headers[o])]
        && memory.bodies == old(memory.bodies)[moved.value := old(memory.bodies[o])][o := Forwarded(moved.value)]
        && o.block in Blocks() && o.offset in Blocks()[o.block].objectMap
      ensures moved.None? ==> memory.headers == old(memory.headers) && memory.bodies == old(memory.bodies)
    {
      hide EvacKnown, EvacAllocate, BlockTable.Blocks;
      table.KeysAre();
      var isPinned := memory.headers[o].pinned;
      var isCandidate := table.IsEvacuationCandidate(o.block);
      if isPinned || !isCandidate {
        return None;
      }
      moved := evacAllocator.Allocate(ObjectSize(memory.bodies[o].size));
      if moved.Some? {
        Forward(o, moved.value);
      }
    }

    /** Copies the object and leaves a forwarding pointer behind. */
    method Forward(o: Ref, to: Ref)
      requires Valid() && o.Immix? && o.block in Blocks() && o in memory.headers && o in memory.bodies
      modifies memory, table.Cells()
      ensures memory.headers == old(memory.headers)[to := old(memory.headers)[o]]
      ensures memory.bodies == old(memory.bodies)[to := old(memory.bodies)[o]][o := Forwarded(to)]
      ensures Blocks() == SetGc(old(Blocks()), o)
    {
      hide BlockTable.Blocks;
      memory.Copy(o, to);
      memory.SetForwarded(o, to);
      assert table.Blocks() == old(table.Blocks());
      SetGcObject(o);
    }
  }
}
