/**
  The three allocators and the block allocator as functions on states
  (src/spaces/immix_space/allocator/, src/spaces/immix_space/block_allocator.rs).
  Blocks are named by their aligned addresses.
 */
module AllocatorModel {
  import opened Constants
  import opened Wrappers
  import opened Objects
  import opened BlockLines
  import opened BlockInfos
  import opened BlockTables

  /** The current block of an allocator with the lowest free and the highest usable offset of its hole. */
  datatype Cursor = Cursor(block: nat, low: nat, high: nat)

  /** `data` is the block built last; the next one lies one block further, if that is below `bound`. */
  datatype BlockAlloc = BlockAlloc(data: nat, bound: nat, free: seq<nat>)
  datatype Normal = Normal(unavailable: seq<nat>, recyclable: seq<nat>, current: Option<Cursor>)
  datatype Overflow = Overflow(unavailable: seq<nat>, current: Option<Cursor>)
  datatype Evac = Evac(unavailable: seq<nat>, headroom: seq<nat>, current: Option<Cursor>)

  datatype Space = Space(
    blocks: Blocks,
    ba: BlockAlloc,
    normal: Normal,
    overflow: Overflow,
    evac: Evac,
    mark: bool)

  predicate CursorInBounds(c: Cursor) {
    LINE_SIZE <= c.low <= c.high <= LAST_OFFSET
  }

  /** The first hole of at least `size` bytes at or behind the cursor, in the cursor's block. */
  function ScanForHole(lines: Lines, size: nat, c: Cursor): (r: Option<Cursor>)
    requires CursorInBounds(c)
    ensures r.Some? ==> CursorInBounds(r.value) && r.value.block == c.block && r.value.high - r.value.low >= size
    decreases LAST_OFFSET - c.high
  {
    if c.high - c.low >= size then Some(c)
    else
      match FindHole(lines, c.high)
      case None => None
      case Some(h) => ScanForHole(lines, size, Cursor(c.block, h.low, h.high))
  }

  function InitList(s: seq<nat>): seq<nat>
    requires s != []
  {
    s[..|s| - 1]
  }

  function LastOf(s: seq<nat>): nat
    requires s != []
  {
    s[|s| - 1]
  }

  /** A fresh block's hole reaches from its second line to its end. */
  function WholeBlock(block: nat): (c: Cursor)
    ensures CursorInBounds(c)
  {
    Cursor(block, LINE_SIZE, LAST_OFFSET)
  }

  /** Returned blocks come first, last in first out; then a new one is built from the memory map. */
  function GetBlock(sp: Space): (r: (Space, Option<nat>)) {
    if sp.ba.free != [] then
      (sp.(ba := sp.ba.(free := InitList(sp.ba.free))), Some(LastOf(sp.ba.free)))
    else if sp.ba.data + BLOCK_SIZE < sp.ba.bound then
      var block := sp.ba.data + BLOCK_SIZE;
      (sp.(ba := sp.ba.(data := block), blocks := sp.blocks[block := EmptyBlock()]), Some(block))
    else (sp, None)
  }

  function SetInUse(blocks: Blocks, b: nat): Blocks
    requires b in blocks
  {
    blocks[b := blocks[b].(inUse := true)]
  }

  /** The blocks an allocator may touch have records, and the cursors are in bounds. */
  predicate Known(sp: Space) {
    && (forall b :: b in sp.ba.free ==> b in sp.blocks)
    && (forall b :: b in sp.normal.recyclable ==> b in sp.blocks)
    && (sp.normal.current.Some? ==>
          sp.normal.current.value.block in sp.blocks && CursorInBounds(sp.normal.current.value))
    && (sp.overflow.current.Some? ==>
          sp.overflow.current.value.block in sp.blocks && CursorInBounds(sp.overflow.current.value))
    && EvacKnown(sp.evac, sp.blocks)
  }

  // ---------------------------------------------------------------- the normal allocator

  /** Looks for a hole in the current block; a block without one is exhausted. */
  function NormalScan(sp: Space, size: nat): (r: Space)
    requires Known(sp)
    ensures Known(r)
  {
    if sp.normal.current.None? then sp
    else
      var c := sp.normal.current.value;
      match ScanForHole(sp.blocks[c.block].lines, size, c)
      case Some(c') => sp.(normal := sp.normal.(current := Some(c')))
      case None => sp.(normal := sp.normal.(current := None, unavailable := sp.normal.unavailable + [c.block]))
  }

  /** Takes recyclable blocks until one has a hole for an object smaller than a line. */
  function NormalRecycle(sp: Space, size: nat): (r: Space)
    requires Known(sp) && sp.normal.current.None?
    ensures Known(r)
    decreases |sp.normal.recyclable|
  {
    if size >= LINE_SIZE || sp.normal.recyclable == [] then sp
    else
      var block := LastOf(sp.normal.recyclable);
      var popped := sp.(normal := sp.normal.(recyclable := InitList(sp.normal.recyclable)));
      var full := popped.(normal := popped.normal.(unavailable := popped.normal.unavailable + [block]));
      match FindHole(sp.blocks[block].lines, LINE_SIZE - 1)
      case None => NormalRecycle(full, size)
      case Some(h) =>
        match ScanForHole(sp.blocks[block].lines, size, Cursor(block, h.low, h.high))
        case Some(c) => popped.(normal := popped.normal.(current := Some(c)))
        case None => assert false; full  // every hole of a scan fits such an object
  }

  function NormalNewBlock(sp: Space): (r: Space)
    requires Known(sp) && sp.normal.current.None?
    ensures Known(r)
  {
    var (s, block) := GetBlock(sp);
    match block
    case None => s
    case Some(b) => s.(blocks := SetInUse(s.blocks, b), normal := s.normal.(current := Some(WholeBlock(b))))
  }

  /** The current block, else a recyclable block, else a new block. */
  function NormalSeek(sp: Space, size: nat): (r: Space)
    requires Known(sp)
    ensures Known(r)
  {
    var s1 := NormalScan(sp, size);
    if s1.normal.current.Some? then s1
    else
      var s2 := NormalRecycle(s1, size);
      if s2.normal.current.Some? then s2 else NormalNewBlock(s2)
  }

  function Bump(c: Cursor, size: nat): Cursor {
    Cursor(c.block, c.low + size, c.high)
  }

  /** The address handed out, and the state with the cursor behind it. */
  function NormalAllocate(sp: Space, size: nat): (r: (Space, Option<Ref>))
    requires Known(sp)
  {
    var s := NormalSeek(sp, size);
    match s.normal.current
    case None => (s, None)
    case Some(c) => (s.(normal := s.normal.(current := Some(Bump(c, size)))), Some(Immix(c.block, c.low)))
  }

  // ---------------------------------------------------------------- the overflow allocator

  function OverflowSeek(sp: Space, size: nat): (r: Space)
    requires Known(sp)
    ensures Known(r)
  {
    var s :=
      if sp.overflow.current.None? then sp
      else
        var c := sp.overflow.current.value;
        match ScanForHole(sp.blocks[c.block].lines, size, c)
        case Some(c') => sp.(overflow := sp.overflow.(current := Some(c')))
        case None => sp.(overflow := sp.overflow.(current := None, unavailable := sp.overflow.unavailable + [c.block]));
    if s.overflow.current.Some? then s
    else
      var (t, block) := GetBlock(s);
      match block
      case None => t
      case Some(b) => t.(blocks := SetInUse(t.blocks, b), overflow := t.overflow.(current := Some(WholeBlock(b))))
  }

  function OverflowAllocate(sp: Space, size: nat): (r: (Space, Option<Ref>))
    requires Known(sp)
  {
    var s := OverflowSeek(sp, size);
    match s.overflow.current
    case None => (s, None)
    case Some(c) => (s.(overflow := s.overflow.(current := Some(Bump(c, size)))), Some(Immix(c.block, c.low)))
  }

  // ---------------------------------------------------------------- the evacuation allocator

  predicate EvacKnown(evac: Evac, blocks: Blocks) {
    && (forall b :: b in evac.headroom ==> b in blocks)
    && (evac.current.Some? ==> evac.current.value.block in blocks && CursorInBounds(evac.current.value))
  }

  /** Only the headroom set aside by earlier collections is used. */
  function EvacSeek(evac: Evac, blocks: Blocks, size: nat): (r: (Evac, Blocks))
    requires EvacKnown(evac, blocks)
    ensures r.1.Keys == blocks.Keys
  {
    var e :=
      if evac.current.None? then evac
      else
        var c := evac.current.value;
        match ScanForHole(blocks[c.block].lines, size, c)
        case Some(c') => evac.(current := Some(c'))
        case None => evac.(current := None, unavailable := evac.unavailable + [c.block]);
    if e.current.Some? || e.headroom == [] then (e, blocks)
    else
      var b := LastOf(e.headroom);
      (e.(headroom := InitList(e.headroom), current := Some(WholeBlock(b))), SetInUse(blocks, b))
  }

  function EvacAllocate(evac: Evac, blocks: Blocks, size: nat): (r: (Evac, Blocks, Option<Ref>))
    requires EvacKnown(evac, blocks)
    ensures r.1.Keys == blocks.Keys
  {
    var (e, bl) := EvacSeek(evac, blocks, size);
    match e.current
    case None => (e, bl, None)
    case Some(c) => (e.(current := Some(Bump(c, size))), bl, Some(Immix(c.block, c.low)))
  }

  // ---------------------------------------------------------------- the immix space

  /** Small objects go to the normal allocator, medium ones to the overflow allocator. */
  function SpaceAllocate(sp: Space, size: nat): (r: (Space, Option<Ref>))
    requires Known(sp)
  {
    if size < MEDIUM_OBJECT then NormalAllocate(sp, size) else OverflowAllocate(sp, size)
  }

  /** The records once the address is both a new and a valid object. */
  function EnterObject(blocks: Blocks, o: Ref): Blocks
    requires o.Immix? && o.block in blocks
  {
    SetGc(SetNew(blocks, o), o)
  }
}
