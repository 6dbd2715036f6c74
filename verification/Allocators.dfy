/**
  The block allocator and the three allocators that take blocks from it or from the evacuation
  headroom. They work in place on their lists and cursors, and do what `AllocatorModel` says; a ghost
  `Space` stands for the parts of the immix space an allocator does not see.
 */
module Allocators {
  import opened Constants
  import opened Wrappers
  import opened Objects
  import opened BlockLines
  import opened BlockInfos
  import opened BlockTables
  import opened BlockRecords
  import opened AllocatorModel
  import opened AllocatorProofs
  import opened SweepModel

  // ---------------------------------------------------------------- what an allocation leaves in order

  /** At most one block has been built, the next one below the bound. */
  predicate BuiltNext(sp: Space, s: Space) {
    && s.ba.bound == sp.ba.bound
    && (s.ba.data == sp.ba.data || (s.ba.data == sp.ba.data + BLOCK_SIZE && s.ba.data < sp.ba.bound))
  }

  lemma NormalSeekFrame(sp: Space, size: nat)
    requires Known(sp)
    ensures var s := NormalSeek(sp, size);
      && s == sp.(normal := s.normal, ba := s.ba, blocks := s.blocks) && sp.blocks.Keys <= s.blocks.Keys
      && BuiltNext(sp, s)
      && (s.normal.current.Some? && size <= LAST_OFFSET - LINE_SIZE ==>
            s.normal.current.value.low + size <= s.normal.current.value.high)
  {
    hide FindHole, AllocatorModel.ScanForHole, NormalRecycle, Known;
    NormalScanFits(sp, size);
    var s1 := NormalScan(sp, size);
    if s1.normal.current.None? {
      NormalRecycleFits(s1, size);
      NormalRecycleFrame(s1, size);
      var s2 := NormalRecycle(s1, size);
      if s2.normal.current.None? {
        NormalNewBlockFits(s2);
      }
    }
  }

  /** The normal allocator leaves the others alone, and its cursor stays in bounds. */
  lemma NormalAllocateFrame(sp: Space, size: nat)
    requires Known(sp) && size <= LAST_OFFSET - LINE_SIZE
    ensures var s := NormalAllocate(sp, size).0;
      && s == sp.(normal := s.normal, ba := s.ba, blocks := s.blocks) && Known(s) && sp.blocks.Keys <= s.blocks.Keys
      && BuiltNext(sp, s)
  {
    hide NormalSeek;
    NormalSeekFrame(sp, size);
  }

  lemma OverflowAllocateFrame(sp: Space, size: nat)
    requires Known(sp) && size <= LAST_OFFSET - LINE_SIZE
    ensures var s := OverflowAllocate(sp, size).0;
      && s == sp.(overflow := s.overflow, ba := s.ba, blocks := s.blocks) && Known(s)
      && sp.blocks.Keys <= s.blocks.Keys && BuiltNext(sp, s)
  {
    hide FindHole, AllocatorModel.ScanForHole;
  }

  lemma NewBlockIs(sp: Space)
    requires Known(sp) && sp.normal.current.None?
    ensures var (t, b) := AllocatorModel.GetBlock(sp);
      && t.normal == sp.normal && (b.Some? ==> b.value in t.blocks)
      && NormalNewBlock(sp) ==
        (if b.None? then t else t.(blocks := SetInUse(t.blocks, b.value),
          normal := t.normal.(current := Some(WholeBlock(b.value)))))
      && Known(if b.None? then t else t.(blocks := SetInUse(t.blocks, b.value)))
  {
  }

  /** One round of recycling. */
  lemma RecycleIs(sp: Space, size: nat)
    requires Known(sp) && sp.normal.current.None?
    ensures (size >= LINE_SIZE || sp.normal.recyclable == []) ==> NormalRecycle(sp, size) == sp
    ensures size < LINE_SIZE && sp.normal.recyclable != [] ==>
      var block, n := LastOf(sp.normal.recyclable), sp.normal.(recyclable := InitList(sp.normal.recyclable));
      && block in sp.blocks && Known(sp.(normal := n))
      && var hole := FindHole(sp.blocks[block].lines, LINE_SIZE - 1);
      if hole.None? then
        && Known(sp.(normal := n.(unavailable := n.unavailable + [block])))
        && NormalRecycle(sp, size) == NormalRecycle(sp.(normal := n.(unavailable := n.unavailable + [block])), size)
      else
        && CursorInBounds(Cursor(block, hole.value.low, hole.value.high))
        && var c :=
          AllocatorModel.ScanForHole(sp.blocks[block].lines, size, Cursor(block, hole.value.low, hole.value.high));
        c.Some? && NormalRecycle(sp, size) == sp.(normal := n.(current := c))
  {
  }

  /** What the current block yields, and the cursor's block if it is exhausted. */
  function HoleOf(blocks: Blocks, current: Option<Cursor>, size: nat): Option<Cursor>
    requires current.Some? ==> current.value.block in blocks && CursorInBounds(current.value)
  {
    if current.None? then None
    else AllocatorModel.ScanForHole(blocks[current.value.block].lines, size, current.value)
  }

  function Retire(unavailable: seq<nat>, current: Option<Cursor>, hole: Option<Cursor>): seq<nat> {
    if current.Some? && hole.None? then unavailable + [current.value.block] else unavailable
  }

  lemma OverflowSeekIs(sp: Space, size: nat)
    requires Known(sp)
    ensures var hole := HoleOf(sp.blocks, sp.overflow.current, size);
      var s := sp.(overflow := Overflow(Retire(sp.overflow.unavailable, sp.overflow.current, hole), None));
      var (t, b) := AllocatorModel.GetBlock(s);
      && (b.Some? ==> b.value in t.blocks)
      && OverflowSeek(sp, size) ==
        if hole.Some? then s.(overflow := s.overflow.(current := hole))
        else if b.None? then t
        else t.(blocks := SetInUse(t.blocks, b.value), overflow := t.overflow.(current := Some(WholeBlock(b.value))))
  {
    hide AllocatorModel.ScanForHole;
  }

  lemma EvacSeekIs(evac: Evac, blocks: Blocks, size: nat)
    requires EvacKnown(evac, blocks)
    ensures var hole := HoleOf(blocks, evac.current, size);
      var e := Evac(Retire(evac.unavailable, evac.current, hole), evac.headroom, None);
      EvacSeek(evac, blocks, size) ==
        if hole.Some? then (e.(current := hole), blocks)
        else if e.headroom == [] then (e, blocks)
        else (e.(headroom := InitList(e.headroom), current := Some(WholeBlock(LastOf(e.headroom)))),
          SetInUse(blocks, LastOf(e.headroom)))
  {
    hide AllocatorModel.ScanForHole;
  }

  // ---------------------------------------------------------------- the block allocator

  /** The first aligned address behind the start of the memory map; it is never the start itself. */
  function Aligned(mmap: nat): (r: nat)
    ensures r % BLOCK_SIZE == 0 && mmap < r <= mmap + BLOCK_SIZE
  {
    mmap + (BLOCK_SIZE - mmap % BLOCK_SIZE)
  }

  /**
    Of the blocks that can be built, the last one lies within the bound for valid addresses exactly if
    the memory map starts at a block boundary.
   */
  lemma BlocksWithinBound(mmap: nat)
    ensures (forall k: nat {:trigger k * BLOCK_SIZE} ::
        var b := Aligned(mmap) + k * BLOCK_SIZE; b < mmap + HEAP_SIZE ==> b + BLOCK_SIZE <= mmap + HEAP_SIZE)
      <==> mmap % BLOCK_SIZE == 0
  {
    if mmap % BLOCK_SIZE == 0 {
      forall k: nat {:trigger k * BLOCK_SIZE} | Aligned(mmap) + k * BLOCK_SIZE < mmap + HEAP_SIZE
        ensures Aligned(mmap) + k * BLOCK_SIZE + BLOCK_SIZE <= mmap + HEAP_SIZE
      {
        assert Aligned(mmap) == mmap + BLOCK_SIZE;
        assert k < TOTAL_BLOCKS - 1;
      }
    } else {
      var last: nat := TOTAL_BLOCKS - 1;
      var b := Aligned(mmap) + last * BLOCK_SIZE;
      assert b < mmap + HEAP_SIZE && b + BLOCK_SIZE > mmap + HEAP_SIZE;
    }
  }

  lemma NextAligned(data: nat, bound: nat)
    requires data % BLOCK_SIZE == 0 && bound % BLOCK_SIZE == 0
    ensures data + BLOCK_SIZE < bound ==> data + BLOCK_SIZE + BLOCK_SIZE <= bound
  {
  }

  /**
    The bytes left modulo the block size are those by which the base of the map is not aligned: what is
    taken for the number of unbuilt blocks says nothing about them.
   */
  lemma AvailableIsRemainder(mmap: nat, data: nat)
    requires data % BLOCK_SIZE == 0 && data <= mmap + HEAP_SIZE
    ensures (mmap + HEAP_SIZE - data) % BLOCK_SIZE == mmap % BLOCK_SIZE
  {
    assert mmap == mmap / BLOCK_SIZE * BLOCK_SIZE + mmap % BLOCK_SIZE && data == data / BLOCK_SIZE * BLOCK_SIZE;
    var k := mmap / BLOCK_SIZE + TOTAL_BLOCKS - data / BLOCK_SIZE;
    assert mmap + HEAP_SIZE - data == k * BLOCK_SIZE + mmap % BLOCK_SIZE;
    assert k >= 0;
  }

  /**
    A memory map starts at a page. So a request for a trace is honoured if and only if the map happens
    to start at a block boundary and few blocks are on the free list.
   */
  lemma TraceNeedsAlignment(mmap: nat, free: nat)
    requires mmap % PAGE_SIZE == 0
    ensures mmap % BLOCK_SIZE + free < CYCLE_TRIGGER_BLOCKS <==> mmap % BLOCK_SIZE == 0 && free < CYCLE_TRIGGER_BLOCKS
  {
    var pages := mmap / PAGE_SIZE;
    assert mmap == 4096 * pages && pages == pages / 8 * 8 + pages % 8;
    assert mmap == 32768 * (pages / 8) + 4096 * (pages % 8);
    assert mmap % BLOCK_SIZE == 4096 * (pages % 8);
  }

  class BlockAllocator {
    const table: BlockTable
    const mmap: nat
    const dataBound: nat
    var data: nat
    var freeBlocks: seq<nat>

    function View(): BlockAlloc
      reads this
    {
      BlockAlloc(data, dataBound, freeBlocks)
    }

    /** Every block built starts behind the start of the map, and below its bound. */
    ghost predicate Valid()
      reads this, table
    {
      && table.Valid()
      && dataBound == mmap + HEAP_SIZE && data % BLOCK_SIZE == 0 && mmap < data <= dataBound
      && forall b :: b in table.infos ==> mmap < b <= data
    }

    /** No block built so far crosses the bound; for an aligned map this is always so. */
    predicate Whole()
      reads this
    {
      data + BLOCK_SIZE <= dataBound
    }

    /** Nor would the next one, if there is a next one. */
    predicate NextWhole()
      reads this
    {
      data + BLOCK_SIZE < dataBound ==> data + BLOCK_SIZE + BLOCK_SIZE <= dataBound
    }

    lemma AlignedNextWhole()
      requires Valid() && mmap % BLOCK_SIZE == 0
      ensures NextWhole()
    {
      NextAligned(data, dataBound);
    }

    constructor (mmap: nat, table: BlockTable)
      requires table.Valid() && table.infos == map[]
      ensures Valid() && Whole() && this.table == table && this.mmap == mmap
      ensures View() == BlockAlloc(Aligned(mmap), mmap + HEAP_SIZE, [])
    {
      this.table := table;
      this.mmap := mmap;
      data := Aligned(mmap);
      dataBound := mmap + HEAP_SIZE;
      freeBlocks := [];
    }

    /** Returned blocks come first. */
    method GetBlock(ghost sp: Space) returns (block: Option<nat>, ghost sp': Space)
      requires Valid() && sp.ba == View() && sp.blocks == table.Blocks()
      modifies this, table
      ensures Valid() && (sp', block) == AllocatorModel.GetBlock(sp)
      ensures sp'.ba == View() && sp'.blocks == table.Blocks()
      ensures fresh(table.Cells() - old(table.Cells()))
    {
      sp' := AllocatorModel.GetBlock(sp).0;
      if freeBlocks != [] {
        block := Some(freeBlocks[|freeBlocks| - 1]);
        freeBlocks := freeBlocks[..|freeBlocks| - 1];
      } else {
        block := BuildNextBlock();
      }
    }

    method BuildNextBlock() returns (block: Option<nat>)
      requires Valid()
      modifies this, table
      ensures Valid() && freeBlocks == old(freeBlocks)
      ensures block == if old(data) + BLOCK_SIZE < dataBound then Some(old(data) + BLOCK_SIZE) else None
      ensures data == if block.Some? then block.value else old(data)
      ensures table.Blocks() ==
        if block.Some? then old(table.Blocks())[block.value := EmptyBlock()] else old(table.Blocks())
      ensures fresh(table.Cells() - old(table.Cells()))
    {
      hide BlockTable.Blocks, BlockTable.Valid;
      var next := data + BLOCK_SIZE;
      if next < dataBound {
        table.Build(next);
        ghost var blocks := table.Blocks();
        data := next;
        assert table.Blocks() == blocks;
        block := Some(next);
      } else {
        block := None;
      }
    }

    method ReturnBlocks(blocks: seq<nat>)
      modifies this
      ensures View() == old(View()).(free := old(freeBlocks) + blocks)
    {
      freeBlocks := freeBlocks + blocks;
    }

    /** The remainder, not the quotient, of the bytes that are left: no number of blocks. */
    method AvailableBlocks() returns (n: nat)
      requires Valid()
      ensures n == mmap % BLOCK_SIZE + |freeBlocks|
    {
      AvailableIsRemainder(mmap, data);
      n := (dataBound - data) % BLOCK_SIZE + |freeBlocks|;
    }

    method IsInSpace(o: Ref) returns (r: bool)
      ensures r <==> o.Immix? && mmap < o.block + o.offset < dataBound
    {
      r := o.Immix? && mmap < o.block + o.offset && o.block + o.offset < dataBound;
    }

    /** Unless a block crosses the bound, all addresses of blocks in use are in bounds. */
    lemma WholeInSpace(o: Ref)
      requires Valid() && Whole() && InSpace(table.Blocks(), o)
      ensures mmap < o.block + o.offset < dataBound
    {
      table.KeysAre();
    }
  }

  // ---------------------------------------------------------------- what the allocators have in common

  /** The block with its offsets, if it has a hole of at least `size` bytes at or behind the given one. */
  method ScanTuple(table: BlockTable, size: nat, tuple: Cursor) returns (r: Option<Cursor>)
    requires table.Valid() && tuple.block in table.infos && CursorInBounds(tuple)
    ensures r == AllocatorModel.ScanForHole(table.Blocks()[tuple.block].lines, size, tuple)
    decreases LAST_OFFSET - tuple.high
  {
    if tuple.high - tuple.low >= size {
      r := Some(tuple);
    } else {
      var hole := table.ScanBlock(tuple.block, tuple.high);
      match hole {
        case None => r := None;
        case Some(h) => r := ScanTuple(table, size, Cursor(tuple.block, h.low, h.high));
      }
    }
  }

  /** Bumps the low offset. */
  method AllocateFromBlock(size: nat, tuple: Cursor) returns (r: Cursor, address: Ref)
    ensures r == Bump(tuple, size) && address == Immix(tuple.block, tuple.low)
  {
    r, address := Cursor(tuple.block, tuple.low + size, tuple.high), Immix(tuple.block, tuple.low);
  }

  // ---------------------------------------------------------------- the normal allocator

  class NormalAllocator {
    const blockAllocator: BlockAllocator
    var unavailableBlocks: seq<nat>
    var recyclableBlocks: seq<nat>
    var currentBlock: Option<Cursor>

    function View(): Normal
      reads this
    {
      Normal(unavailableBlocks, recyclableBlocks, currentBlock)
    }

    ghost predicate At(sp: Space)
      reads this, blockAllocator, blockAllocator.table, blockAllocator.table.Cells()
    {
      && blockAllocator.Valid() && Known(sp)
      && sp.normal == View() && sp.ba == blockAllocator.View() && sp.blocks == blockAllocator.table.Blocks()
    }

    constructor (blockAllocator: BlockAllocator)
      ensures this.blockAllocator == blockAllocator && View() == Normal([], [], None)
    {
      this.blockAllocator := blockAllocator;
      unavailableBlocks, recyclableBlocks, currentBlock := [], [], None;
    }

    method SetRecyclableBlocks(blocks: seq<nat>)
      modifies this
      ensures View() == old(View()).(recyclable := blocks)
    {
      recyclableBlocks := blocks;
    }

    method GetAllBlocks() returns (all: seq<nat>)
      modifies this
      ensures all == old(unavailableBlocks) + old(recyclableBlocks) + CursorBlock(old(currentBlock))
      ensures View() == Normal([], [], None)
    {
      all := unavailableBlocks + recyclableBlocks + if currentBlock.Some? then [currentBlock.value.block] else [];
      unavailableBlocks, recyclableBlocks, currentBlock := [], [], None;
    }

    method HandleFullBlock(block: nat)
      modifies this
      ensures View() == old(View()).(unavailable := old(unavailableBlocks) + [block])
    {
      unavailableBlocks := unavailableBlocks + [block];
    }

    /** A block from the block allocator, with the hole behind its first line. */
    method GetNewBlock(ghost sp: Space) returns (tuple: Option<Cursor>, ghost sp': Space)
      requires At(sp) && sp.normal.current.None?
      modifies blockAllocator, blockAllocator.table, blockAllocator.table.Cells()
      ensures NormalNewBlock(sp) == sp'.(normal := sp.normal.(current := tuple)) && sp'.normal == sp.normal && At(sp')
      ensures fresh(blockAllocator.table.Cells() - old(blockAllocator.table.Cells()))
    {
      hide AllocatorModel.GetBlock, Known;
      NewBlockIs(sp);
      var block: Option<nat>;
      block, sp' := blockAllocator.GetBlock(sp);
      match block {
        case None => tuple := None;
        case Some(b) =>
          blockAllocator.table.KeysAre();
          blockAllocator.table.SetAllocated(b);
          tuple := Some(Cursor(b, LINE_SIZE, BLOCK_SIZE - 1));
          sp' := sp'.(blocks := SetInUse(sp'.blocks, b));
      }
    }

    /** Takes the last recyclable block and looks for its first hole. */
    method PopRecyclable(ghost sp: Space) returns (block: nat, hole: Option<Hole>)
      requires At(sp) && recyclableBlocks != []
      modifies this`recyclableBlocks
      ensures block == LastOf(old(recyclableBlocks)) && block in blockAllocator.table.infos && block in sp.blocks
      ensures hole == FindHole(sp.blocks[block].lines, LINE_SIZE - 1)
      ensures At(sp.(normal := sp.normal.(recyclable := InitList(old(recyclableBlocks)))))
    {
      hide FindHole;
      block := recyclableBlocks[|recyclableBlocks| - 1];
      recyclableBlocks := recyclableBlocks[..|recyclableBlocks| - 1];
      blockAllocator.table.KeysAre();
      hole := blockAllocator.table.ScanBlock(block, LINE_SIZE - 1);
    }

    /** For objects smaller than a line: recyclable blocks until one has a hole. */
    method HandleNoHole(size: nat, ghost sp: Space) returns (tuple: Option<Cursor>, ghost sp': Space)
      requires At(sp) && sp.normal.current.None?
      modifies this
      ensures sp' == NormalRecycle(sp, size).(normal := NormalRecycle(sp, size).normal.(current := None)) && At(sp')
      ensures tuple == NormalRecycle(sp, size).normal.current
      decreases |recyclableBlocks|
    {
      hide FindHole, NormalRecycle, AllocatorModel.ScanForHole;
      RecycleIs(sp, size);
      if size >= LINE_SIZE || recyclableBlocks == [] {
        tuple, sp' := None, sp;
      } else {
        var block, hole := PopRecyclable(sp);
        match hole {
          case None =>
            HandleFullBlock(block);
            tuple, sp' := HandleNoHole(size, sp.(normal := View()));
          case Some(h) =>
            tuple := ScanTuple(blockAllocator.table, size, Cursor(block, h.low, h.high));
            sp' := sp.(normal := View());
            if tuple.None? {
              assert false;  // a hole is at least a line long: the source's next try is never needed
            }
        }
      }
    }

    /** Takes the current block and looks for a hole in it. */
    method TakeHole(size: nat, ghost sp: Space) returns (tuple: Option<Cursor>, ghost sp': Space)
      requires At(sp)
      modifies this
      ensures sp' == NormalScan(sp, size).(normal := NormalScan(sp, size).normal.(current := None)) && At(sp')
      ensures tuple == NormalScan(sp, size).normal.current
    {
      hide FindHole, AllocatorModel.ScanForHole;
      tuple := currentBlock;
      currentBlock := None;
      if tuple.Some? {
        var block := tuple.value.block;
        tuple := ScanTuple(blockAllocator.table, size, tuple.value);
        if tuple.None? {
          HandleFullBlock(block);
        }
      }
      sp' := sp.(normal := View());
    }

    /** The current block, else a recyclable block, else a new block. */
    method Seek(size: nat, ghost sp: Space) returns (tuple: Option<Cursor>, ghost sp': Space)
      requires At(sp)
      modifies this, blockAllocator, blockAllocator.table, blockAllocator.table.Cells()
      ensures At(sp') && currentBlock == None && NormalSeek(sp, size) == sp'.(normal := sp'.normal.(current := tuple))
      ensures fresh(blockAllocator.table.Cells() - old(blockAllocator.table.Cells()))
    {
      hide NormalScan, NormalRecycle, NormalNewBlock, Known;
      tuple, sp' := TakeHole(size, sp);
      assert NormalScan(sp, size) == sp'.(normal := sp'.normal.(current := tuple));
      if tuple.None? {
        ghost var s := sp';
        tuple, sp' := HandleNoHole(size, s);
        assert NormalRecycle(s, size) == sp'.(normal := sp'.normal.(current := tuple));
        if tuple.None? {
          s := sp';
          tuple, sp' := GetNewBlock(s);
        }
      }
    }

    method Allocate(size: nat, ghost sp: Space) returns (address: Option<Ref>, ghost sp': Space)
      requires At(sp) && size <= LAST_OFFSET - LINE_SIZE
      modifies this, blockAllocator, blockAllocator.table, blockAllocator.table.Cells()
      ensures (sp', address) == NormalAllocate(sp, size) && At(sp')
      ensures fresh(blockAllocator.table.Cells() - old(blockAllocator.table.Cells()))
    {
      hide NormalSeek, Known;
      NormalAllocateFrame(sp, size);
      var tuple, s := Seek(size, sp);
      match tuple {
        case None => address := None;
        case Some(tp) =>
          var next, o := AllocateFromBlock(size, tp);
          currentBlock, address := Some(next), Some(o);
      }
      sp' := NormalAllocate(sp, size).0;
    }
  }

  // ---------------------------------------------------------------- the overflow allocator

  class OverflowAllocator {
    const blockAllocator: BlockAllocator
    var unavailableBlocks: seq<nat>
    var currentBlock: Option<Cursor>

    function View(): Overflow
      reads this
    {
      Overflow(unavailableBlocks, currentBlock)
    }

    ghost predicate At(sp: Space)
      reads this, blockAllocator, blockAllocator.table, blockAllocator.table.Cells()
    {
      && blockAllocator.Valid() && Known(sp)
      && sp.overflow == View() && sp.ba == blockAllocator.View() && sp.blocks == blockAllocator.table.Blocks()
    }

    constructor (blockAllocator: BlockAllocator)
      ensures this.blockAllocator == blockAllocator && View() == Overflow([], None)
    {
      this.blockAllocator := blockAllocator;
      unavailableBlocks, currentBlock := [], None;
    }

    method GetAllBlocks() returns (all: seq<nat>)
      modifies this
      ensures all == old(unavailableBlocks) + CursorBlock(old(currentBlock))
      ensures View() == Overflow([], None)
    {
      all := unavailableBlocks + if currentBlock.Some? then [currentBlock.value.block] else [];
      unavailableBlocks, currentBlock := [], None;
    }

    method HandleFullBlock(block: nat)
      modifies this
      ensures View() == old(View()).(unavailable := old(unavailableBlocks) + [block])
    {
      unavailableBlocks := unavailableBlocks + [block];
    }

    /** Takes the current block and looks for a hole in it; a block without one is exhausted. */
    method TakeHole(size: nat) returns (tuple: Option<Cursor>)
      requires blockAllocator.table.Valid()
      requires currentBlock.Some? ==>
        currentBlock.value.block in blockAllocator.table.infos && CursorInBounds(currentBlock.value)
      modifies this
      ensures tuple == HoleOf(blockAllocator.table.Blocks(), old(currentBlock), size)
      ensures View() ==
        old(View()).(current := None, unavailable := Retire(old(unavailableBlocks), old(currentBlock), tuple))
    {
      tuple := currentBlock;
      currentBlock := None;
      if tuple.Some? {
        var block := tuple.value.block;
        tuple := ScanTuple(blockAllocator.table, size, tuple.value);
        if tuple.None? {
          HandleFullBlock(block);
        }
      }
    }

    /** A block from the block allocator, with the hole behind its first line. */
    method GetNewBlock(ghost sp: Space) returns (tuple: Option<Cursor>, ghost sp': Space)
      requires blockAllocator.Valid() && sp.ba == blockAllocator.View() && sp.blocks == blockAllocator.table.Blocks()
      requires var (t, b) := AllocatorModel.GetBlock(sp); b.Some? ==> b.value in t.blocks
      modifies blockAllocator, blockAllocator.table, blockAllocator.table.Cells()
      ensures var (t, b) := AllocatorModel.GetBlock(sp);
        && tuple == (if b.None? then None else Some(WholeBlock(b.value)))
        && sp' == if b.None? then t else t.(blocks := SetInUse(t.blocks, b.value))
      ensures blockAllocator.Valid() && sp'.ba == blockAllocator.View() && sp'.blocks == blockAllocator.table.Blocks()
      ensures fresh(blockAllocator.table.Cells() - old(blockAllocator.table.Cells()))
    {
      hide AllocatorModel.GetBlock;
      var block: Option<nat>;
      block, sp' := blockAllocator.GetBlock(sp);
      match block {
        case None => tuple := None;
        case Some(b) =>
          assert b in blockAllocator.table.Blocks();
          blockAllocator.table.SetAllocated(b);
          tuple := Some(Cursor(b, LINE_SIZE, BLOCK_SIZE - 1));
          sp' := sp'.(blocks := SetInUse(sp'.blocks, b));
      }
    }

    /** The current block, else a new one: there are no blocks to recycle. */
    method Seek(size: nat, ghost sp: Space) returns (tuple: Option<Cursor>, ghost sp': Space)
      requires At(sp)
      modifies this, blockAllocator, blockAllocator.table, blockAllocator.table.Cells()
      ensures blockAllocator.Valid() && sp'.blocks == blockAllocator.table.Blocks() && sp'.ba == blockAllocator.View()
      ensures currentBlock == None && sp'.overflow == View()
      ensures OverflowSeek(sp, size) == sp'.(overflow := sp'.overflow.(current := tuple))
      ensures fresh(blockAllocator.table.Cells() - old(blockAllocator.table.Cells()))
    {
      hide OverflowSeek, HoleOf, Retire, SetInUse;
      OverflowSeekIs(sp, size);
      tuple := TakeHole(size);
      sp' := sp.(overflow := View());
      hide Known;
      if tuple.None? {
        tuple, sp' := GetNewBlock(sp');
      }
    }

    method Allocate(size: nat, ghost sp: Space) returns (address: Option<Ref>, ghost sp': Space)
      requires At(sp) && size <= LAST_OFFSET - LINE_SIZE
      modifies this, blockAllocator, blockAllocator.table, blockAllocator.table.Cells()
      ensures (sp', address) == OverflowAllocate(sp, size) && At(sp')
      ensures fresh(blockAllocator.table.Cells() - old(blockAllocator.table.Cells()))
    {
      hide OverflowSeek, Known;
      OverflowAllocateFrame(sp, size);
      var tuple, s := Seek(size, sp);
      match tuple {
        case None => address := None;
        case Some(tp) =>
          var next, o := AllocateFromBlock(size, tp);
          currentBlock, address := Some(next), Some(o);
      }
      sp' := OverflowAllocate(sp, size).0;
    }
  }

  // ---------------------------------------------------------------- the evacuation allocator

  class EvacAllocator {
    const table: BlockTable
    var unavailableBlocks: seq<nat>
    var evacHeadroom: seq<nat>
    var currentBlock: Option<Cursor>

    function View(): Evac
      reads this
    {
      Evac(unavailableBlocks, evacHeadroom, currentBlock)
    }

    constructor (table: BlockTable)
      ensures this.table == table && View() == Evac([], [], None)
    {
      this.table := table;
      unavailableBlocks, evacHeadroom, currentBlock := [], [], None;
    }

    method ExtendEvacHeadroom(blocks: seq<nat>)
      modifies this
      ensures View() == old(View()).(headroom := old(evacHeadroom) + blocks)
    {
      evacHeadroom := evacHeadroom + blocks;
    }

    /** The headroom stays where it is. */
    method GetAllBlocks() returns (all: seq<nat>)
      modifies this
      ensures all == old(unavailableBlocks) + CursorBlock(old(currentBlock))
      ensures View() == Evac([], old(evacHeadroom), None)
    {
      all := unavailableBlocks + if currentBlock.Some? then [currentBlock.value.block] else [];
      unavailableBlocks, currentBlock := [], None;
    }

    method HandleFullBlock(block: nat)
      modifies this
      ensures View() == old(View()).(unavailable := old(unavailableBlocks) + [block])
    {
      unavailableBlocks := unavailableBlocks + [block];
    }

    /** A block of the headroom. */
    method GetNewBlock() returns (tuple: Option<Cursor>)
      requires table.Valid() && (evacHeadroom == [] || LastOf(evacHeadroom) in table.infos)
      modifies this, table.Cells()
      ensures if old(evacHeadroom) == [] then
          tuple == None && View() == old(View()) && table.Blocks() == old(table.Blocks())
        else
          && tuple == Some(WholeBlock(LastOf(old(evacHeadroom))))
          && View() == old(View()).(headroom := InitList(old(evacHeadroom)))
          && LastOf(old(evacHeadroom)) in old(table.Blocks())
          && table.Blocks() == SetInUse(old(table.Blocks()), LastOf(old(evacHeadroom)))
    {
      if evacHeadroom == [] {
        tuple := None;
      } else {
        var b := evacHeadroom[|evacHeadroom| - 1];
        evacHeadroom := evacHeadroom[..|evacHeadroom| - 1];
        table.SetAllocated(b);
        tuple := Some(Cursor(b, LINE_SIZE, BLOCK_SIZE - 1));
      }
    }

    /** Takes the current block and looks for a hole in it; a block without one is exhausted. */
    method TakeHole(size: nat) returns (tuple: Option<Cursor>)
      requires table.Valid()
      requires currentBlock.Some? ==> currentBlock.value.block in table.infos && CursorInBounds(currentBlock.value)
      modifies this
      ensures tuple == HoleOf(table.Blocks(), old(currentBlock), size)
      ensures View() ==
        old(View()).(current := None, unavailable := Retire(old(unavailableBlocks), old(currentBlock), tuple))
    {
      tuple := currentBlock;
      currentBlock := None;
      if tuple.Some? {
        var block := tuple.value.block;
        tuple := ScanTuple(table, size, tuple.value);
        if tuple.None? {
          HandleFullBlock(block);
        }
      }
    }

    /** The current block, else one of the headroom. */
    method Seek(size: nat) returns (tuple: Option<Cursor>)
      requires table.Valid() && EvacKnown(View(), table.Blocks())
      modifies this, table.Cells()
      ensures currentBlock == None
      ensures (View().(current := tuple), table.Blocks()) == EvacSeek(old(View()), old(table.Blocks()), size)
    {
      hide EvacSeek, HoleOf, Retire;
      EvacSeekIs(View(), table.Blocks(), size);
      assert evacHeadroom != [] ==> LastOf(evacHeadroom) in table.Blocks();
      hide EvacKnown;
      tuple := TakeHole(size);
      if tuple.None? {
        tuple := GetNewBlock();
      }
    }

    method Allocate(size: nat) returns (address: Option<Ref>)
      requires table.Valid() && EvacKnown(View(), table.Blocks())
      modifies this, table.Cells()
      ensures (View(), table.Blocks(), address) == EvacAllocate(old(View()), old(table.Blocks()), size)
    {
      hide EvacSeek;
      var tuple := Seek(size);
      match tuple {
        case None => address := None;
        case Some(tp) =>
          var next, o := AllocateFromBlock(size, tp);
          currentBlock, address := Some(next), Some(o);
      }
    }
  }
}
