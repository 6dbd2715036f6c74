/**
  Bump allocation into recycled holes never touches a live object, no block is lost or used twice,
  and an allocation only fails when there is nothing left.
 */
module AllocatorProofs {
  import opened Constants
  import opened Wrappers
  import opened Objects
  import opened BlockLines
  import opened BlockInfos
  import opened BlockTables
  import opened AllocatorModel

  // ---------------------------------------------------------------- bytes

  function End(bs: Bodies, o: Ref): nat
    requires o in bs && bs[o].Plain? && o.Immix?
  {
    o.offset + bs[o].size
  }

  ghost predicate Here(bs: Bodies, o: Ref, block: nat) {
    o in bs && o.Immix? && o.block == block
  }

  /** All objects are whole and inside of their blocks, and no two of them share a byte. */
  ghost predicate BytesDisjoint(bs: Bodies) {
    && (forall o :: o in bs && o.Immix? ==> bs[o].Plain? && Fits(o.offset, bs[o].size))
    && (forall o, p :: o in bs && p in bs && o.Immix? && p.Immix? && o != p && o.block == p.block ==>
      End(bs, o) <= p.offset || End(bs, p) <= o.offset)
  }

  /** Objects that are not new have all their counted lines in use. */
  ghost predicate OldCounted(blocks: Blocks, bs: Bodies) {
    forall o, l ::
      (o in bs && o.Immix? && bs[o].Plain? && o.block in blocks && !IsNewObject(blocks, o)
      && 0 <= l < NUM_LINES && Covers(o.offset, bs[o].size, l)) ==> blocks[o.block].lines[l] > 0
  }

  /** The hole under the cursor is free of objects, and the block's new objects lie before it. */
  ghost predicate CursorOk(blocks: Blocks, bs: Bodies, c: Cursor) {
    && c.block in blocks && blocks[c.block].inUse && CursorInBounds(c)
    && (forall o :: Here(bs, o, c.block) && bs[o].Plain? ==> End(bs, o) <= c.low || c.high < o.offset)
    && (forall o :: Here(bs, o, c.block) && bs[o].Plain? && IsNewObject(blocks, o) ==> End(bs, o) <= c.low)
  }

  ghost predicate OptCursorOk(blocks: Blocks, bs: Bodies, c: Option<Cursor>) {
    c.Some? ==> CursorOk(blocks, bs, c.value)
  }

  ghost predicate RecyclableOk(blocks: Blocks, bs: Bodies, b: nat) {
    && b in blocks && blocks[b].inUse
    && forall o :: Here(bs, o, b) ==> !IsNewObject(blocks, o)
  }

  /** A block on a free list holds nothing. */
  ghost predicate FreeOk(blocks: Blocks, bs: Bodies, b: nat) {
    && b in blocks && blocks[b] == EmptyBlock()
    && forall o :: !Here(bs, o, b)
  }

  // ---------------------------------------------------------------- blocks

  ghost function CursorBag(c: Option<Cursor>): multiset<nat> {
    if c.Some? then multiset{c.value.block} else multiset{}
  }

  /** All places a block can be in, with the blocks a collection is working on. */
  ghost function Stock(sp: Space, all: seq<nat>): multiset<nat> {
    multiset(sp.ba.free)
    + multiset(sp.normal.unavailable) + multiset(sp.normal.recyclable) + CursorBag(sp.normal.current)
    + multiset(sp.overflow.unavailable) + CursorBag(sp.overflow.current)
    + multiset(sp.evac.unavailable) + multiset(sp.evac.headroom) + CursorBag(sp.evac.current)
    + multiset(all)
  }

  /** Blocks are aligned and not behind the last one built. */
  ghost predicate BlocksAligned(sp: Space) {
    sp.ba.data % BLOCK_SIZE == 0 && forall b :: b in sp.blocks ==> b % BLOCK_SIZE == 0 && b <= sp.ba.data
  }

  /** Every block built so far is in exactly one place. */
  ghost predicate Conserved(sp: Space, all: seq<nat>) {
    Stock(sp, all) == multiset(sp.blocks.Keys) && BlocksAligned(sp)
  }

  ghost predicate HeapOk(blocks: Blocks, bs: Bodies) {
    && BytesDisjoint(bs)
    && (forall o :: o in bs && o.Immix? ==> InSpace(blocks, o))
    && OldCounted(blocks, bs)
  }

  ghost predicate ListsOk(sp: Space, bs: Bodies) {
    && (forall b :: b in sp.normal.recyclable ==> RecyclableOk(sp.blocks, bs, b))
    && (forall b :: b in sp.ba.free ==> FreeOk(sp.blocks, bs, b))
    && (forall b :: b in sp.evac.headroom ==> FreeOk(sp.blocks, bs, b))
  }

  ghost predicate SpaceInv(sp: Space, bs: Bodies, all: seq<nat>) {
    && Conserved(sp, all)
    && HeapOk(sp.blocks, bs)
    && OptCursorOk(sp.blocks, bs, sp.normal.current)
    && OptCursorOk(sp.blocks, bs, sp.overflow.current)
    && ListsOk(sp, bs)
    && sp.evac.current == None
  }

  lemma InvKnown(sp: Space, bs: Bodies, all: seq<nat>)
    requires SpaceInv(sp, bs, all)
    ensures Known(sp)
  {
    hide Conserved, HeapOk;
  }

  /** Two different blocks have no byte in common. */
  lemma BlocksDisjoint(sp: Space, all: seq<nat>, a: nat, b: nat)
    requires Conserved(sp, all) && a in sp.blocks && b in sp.blocks && a != b
    ensures a + BLOCK_SIZE <= b || b + BLOCK_SIZE <= a
  {
    hide Stock;
    assert a == BLOCK_SIZE * (a / BLOCK_SIZE) && b == BLOCK_SIZE * (b / BLOCK_SIZE);
  }

  // ---------------------------------------------------------------- cursors

  /** A hole found by a scan beyond the new objects of a block makes a good cursor. */
  lemma HoleMakesCursor(blocks: Blocks, bs: Bodies, block: nat, last: nat, h: Hole)
    requires HeapOk(blocks, bs) && block in blocks && blocks[block].inUse
    requires FindHole(blocks[block].lines, last) == Some(h)
    requires forall o :: Here(bs, o, block) && bs[o].Plain? && IsNewObject(blocks, o) ==> End(bs, o) <= last + 1
    ensures CursorOk(blocks, bs, Cursor(block, h.low, h.high))
  {
    forall o | Here(bs, o, block) && bs[o].Plain?
      ensures End(bs, o) <= h.low || h.high < o.offset
    {
      if !IsNewObject(blocks, o) {
        HoleAvoidsCountedObjects(blocks[block].lines, last, o.offset, bs[o].size);
      }
    }
  }

  lemma {:induction false} ScanKeepsCursor(blocks: Blocks, bs: Bodies, size: nat, c: Cursor)
    requires HeapOk(blocks, bs) && CursorOk(blocks, bs, c)
    ensures OptCursorOk(blocks, bs, ScanForHole(blocks[c.block].lines, size, c))
    decreases LAST_OFFSET - c.high
  {
    if c.high - c.low < size {
      var f := FindHole(blocks[c.block].lines, c.high);
      if f.Some? {
        HoleMakesCursor(blocks, bs, c.block, c.high, f.value);
        ScanKeepsCursor(blocks, bs, size, Cursor(c.block, f.value.low, f.value.high));
      }
    }
  }

  // ---------------------------------------------------------------- seeking a hole keeps everything

  /** Moving blocks between places needs only the places' own conditions. */
  lemma Moved(sp: Space, r: Space, bs: Bodies, all: seq<nat>)
    requires SpaceInv(sp, bs, all) && r.blocks == sp.blocks && r.ba == sp.ba && r.evac == sp.evac
    requires Stock(r, all) == Stock(sp, all)
    requires forall b :: b in r.normal.recyclable ==> b in sp.normal.recyclable
    requires OptCursorOk(r.blocks, bs, r.normal.current) && OptCursorOk(r.blocks, bs, r.overflow.current)
    ensures SpaceInv(r, bs, all)
  {
    hide Stock, HeapOk, RecyclableOk, FreeOk, CursorOk;
  }

  lemma NormalScanKeeps(sp: Space, bs: Bodies, all: seq<nat>, size: nat)
    requires SpaceInv(sp, bs, all) && Known(sp)
    ensures SpaceInv(NormalScan(sp, size), bs, all)
  {
    hide SpaceInv, HeapOk, CursorOk, Known, ScanForHole;
    if sp.normal.current.Some? {
      var c, r := sp.normal.current.value, NormalScan(sp, size);
      InvParts(sp, bs, all);
      ScanKeepsCursor(sp.blocks, bs, size, c);
      NormalScanStock(sp, size, all);
      Moved(sp, r, bs, all);
    }
  }

  lemma InvParts(sp: Space, bs: Bodies, all: seq<nat>)
    requires SpaceInv(sp, bs, all)
    ensures Conserved(sp, all) && HeapOk(sp.blocks, bs) && ListsOk(sp, bs)
    ensures OptCursorOk(sp.blocks, bs, sp.normal.current) && OptCursorOk(sp.blocks, bs, sp.overflow.current)
  {
  }

  lemma NormalScanStock(sp: Space, size: nat, all: seq<nat>)
    requires Known(sp)
    ensures Stock(NormalScan(sp, size), all) == Stock(sp, all)
    ensures NormalScan(sp, size) == sp.(normal := NormalScan(sp, size).normal)
    ensures NormalScan(sp, size).normal.recyclable == sp.normal.recyclable
  {
    hide ScanForHole, Stock, Known;
    if sp.normal.current.Some? {
      RetireStock(sp, all);
    }
  }

  lemma RetireStock(sp: Space, all: seq<nat>)
    requires sp.normal.current.Some?
    ensures var n, b := sp.normal, sp.normal.current.value.block;
      && Stock(sp.(normal := n.(current := None, unavailable := n.unavailable + [b])), all) == Stock(sp, all)
      && forall c: Cursor :: c.block == b ==> Stock(sp.(normal := n.(current := Some(c))), all) == Stock(sp, all)
  {
    var b := sp.normal.current.value.block;
    assert multiset(sp.normal.unavailable + [b]) == multiset(sp.normal.unavailable) + multiset{b};
  }

  lemma {:induction false} NormalRecycleKeeps(sp: Space, bs: Bodies, all: seq<nat>, size: nat)
    requires SpaceInv(sp, bs, all) && Known(sp) && sp.normal.current.None?
    ensures SpaceInv(NormalRecycle(sp, size), bs, all)
    decreases |sp.normal.recyclable|
  {
    hide SpaceInv, HeapOk, RecyclableOk, CursorOk, Known, FindHole;
    if size < LINE_SIZE && sp.normal.recyclable != [] {
      var block := LastOf(sp.normal.recyclable);
      var popped := sp.(normal := sp.normal.(recyclable := InitList(sp.normal.recyclable)));
      var full := popped.(normal := popped.normal.(unavailable := popped.normal.unavailable + [block]));
      RecyclableKnown(sp);
      var f := FindHole(sp.blocks[block].lines, LINE_SIZE - 1);
      PoppedStock(sp, all);
      if f.Some? {
        var c := Cursor(block, f.value.low, f.value.high);
        RecyclableCursor(sp, bs, all, f.value);
        Moved(sp, popped.(normal := popped.normal.(current := Some(c))), bs, all) by {
          InvParts(sp, bs, all);
        }
      } else {
        Moved(sp, full, bs, all) by { InvParts(sp, bs, all); }
        InvKnown(full, bs, all);
        NormalRecycleKeeps(full, bs, all, size);
      }
    }
  }

  lemma RecyclableKnown(sp: Space)
    requires Known(sp) && sp.normal.recyclable != []
    ensures LastOf(sp.normal.recyclable) in sp.blocks
  {
  }

  lemma PoppedStock(sp: Space, all: seq<nat>)
    requires sp.normal.recyclable != [] && sp.normal.current.None?
    ensures var block := LastOf(sp.normal.recyclable);
      var n := sp.normal.(recyclable := InitList(sp.normal.recyclable));
      && (forall b :: b in n.recyclable ==> b in sp.normal.recyclable)
      && Stock(sp.(normal := n.(unavailable := n.unavailable + [block])), all) == Stock(sp, all)
      && forall c: Cursor :: c.block == block ==> Stock(sp.(normal := n.(current := Some(c))), all) == Stock(sp, all)
  {
    hide Stock;
    var block, rest := LastOf(sp.normal.recyclable), InitList(sp.normal.recyclable);
    var n := sp.normal.(recyclable := rest);
    assert sp.normal.recyclable == rest + [block];
    PoppedToFull(sp, all, rest, block);
    forall c: Cursor | c.block == block
      ensures Stock(sp.(normal := n.(current := Some(c))), all) == Stock(sp, all)
    {
      PoppedToCursor(sp, all, rest, c);
    }
  }

  lemma PoppedToFull(sp: Space, all: seq<nat>, rest: seq<nat>, block: nat)
    requires sp.normal.recyclable == rest + [block]
    ensures
      Stock(sp.(normal := sp.normal.(recyclable := rest, unavailable := sp.normal.unavailable + [block])), all)
      == Stock(sp, all)
  {
    assert multiset(rest + [block]) == multiset(rest) + multiset{block};
    assert multiset(sp.normal.unavailable + [block]) == multiset(sp.normal.unavailable) + multiset{block};
  }

  lemma PoppedToCursor(sp: Space, all: seq<nat>, rest: seq<nat>, c: Cursor)
    requires sp.normal.recyclable == rest + [c.block] && sp.normal.current.None?
    ensures Stock(sp.(normal := sp.normal.(recyclable := rest, current := Some(c))), all) == Stock(sp, all)
  {
    assert multiset(rest + [c.block]) == multiset(rest) + multiset{c.block};
  }

  lemma RecyclableCursor(sp: Space, bs: Bodies, all: seq<nat>, h: Hole)
    requires SpaceInv(sp, bs, all) && sp.normal.recyclable != [] && LastOf(sp.normal.recyclable) in sp.blocks
    requires FindHole(sp.blocks[LastOf(sp.normal.recyclable)].lines, LINE_SIZE - 1) == Some(h)
    ensures CursorOk(sp.blocks, bs, Cursor(LastOf(sp.normal.recyclable), h.low, h.high))
  {
    hide Conserved, HeapOk, FreeOk, OptCursorOk, CursorOk;
    var block := LastOf(sp.normal.recyclable);
    assert RecyclableOk(sp.blocks, bs, block);
    HoleMakesCursor(sp.blocks, bs, block, LINE_SIZE - 1, h);
  }

  // ---------------------------------------------------------------- new blocks

  /** What a block fresh from the block allocator is like. */
  ghost predicate FreshBlock(sp: Space, bs: Bodies, s: Space, b: nat) {
    && s == sp.(ba := s.ba, blocks := sp.blocks[b := EmptyBlock()])
    && (forall o :: !Here(bs, o, b))
    && (b in sp.ba.free || b !in sp.blocks)
    && (forall x :: x in s.ba.free ==> x in sp.ba.free && x != b)
  }

  lemma GetBlockIsFresh(sp: Space, bs: Bodies, all: seq<nat>)
    requires SpaceInv(sp, bs, all) && GetBlock(sp).1.Some?
    ensures FreshBlock(sp, bs, GetBlock(sp).0, GetBlock(sp).1.value)
  {
    hide CursorOk, OldCounted, BytesDisjoint, RecyclableOk, Stock;
    var (s, r) := GetBlock(sp);
    var b := r.value;
    if sp.ba.free != [] {
      assert FreeOk(sp.blocks, bs, b);
      assert s.blocks == sp.blocks[b := EmptyBlock()];
      OnlyPlace(sp, all, b);
    } else {
      forall o
        ensures !Here(bs, o, b)
      {
        assert o in bs && o.Immix? ==> InSpace(sp.blocks, o);
      }
    }
  }

  lemma StockMore(sp: Space, all: seq<nat>, b: nat)
    ensures Stock(sp, all + [b]) == Stock(sp, all) + multiset{b}
  {
    assert multiset(all + [b]) == multiset(all) + multiset{b};
  }

  lemma StockPop(sp: Space, all: seq<nat>)
    requires sp.ba.free != []
    ensures Stock(sp.(ba := sp.ba.(free := InitList(sp.ba.free))), all) + multiset{LastOf(sp.ba.free)} == Stock(sp, all)
  {
    var rest, b := InitList(sp.ba.free), LastOf(sp.ba.free);
    assert sp.ba.free == rest + [b];
    assert multiset(sp.ba.free) == multiset(rest) + multiset{b};
  }

  lemma StockCursor(sp: Space, all: seq<nat>, c: Cursor)
    ensures sp.normal.current.None? ==>
      Stock(sp.(normal := sp.normal.(current := Some(c))), all) == Stock(sp, all) + multiset{c.block}
    ensures sp.overflow.current.None? ==>
      Stock(sp.(overflow := sp.overflow.(current := Some(c))), all) == Stock(sp, all) + multiset{c.block}
  {
  }

  /** The stock does not depend on the records or on how far the memory map has been used. */
  lemma StockSame(sp: Space, s: Space, all: seq<nat>)
    requires s == sp.(ba := sp.ba.(data := s.ba.data), blocks := s.blocks)
    ensures Stock(s, all) == Stock(sp, all)
  {
  }

  lemma GetBlockConserves(sp: Space, all: seq<nat>)
    requires Conserved(sp, all) && GetBlock(sp).1.Some?
    ensures Conserved(GetBlock(sp).0, all + [GetBlock(sp).1.value])
  {
    hide Stock, GetBlock, BlocksAligned;
    GetBlockStock(sp, all);
    GetBlockAligned(sp);
  }

  lemma GetBlockAligned(sp: Space)
    requires BlocksAligned(sp)
    ensures BlocksAligned(GetBlock(sp).0)
  {
    assert (sp.ba.data + BLOCK_SIZE) % BLOCK_SIZE == 0;
  }

  lemma GetBlockStock(sp: Space, all: seq<nat>)
    requires Conserved(sp, all) && GetBlock(sp).1.Some?
    ensures var (s, r) := GetBlock(sp); Stock(s, all + [r.value]) == multiset(s.blocks.Keys)
  {
    hide Stock;
    var (s, r) := GetBlock(sp);
    var b := r.value;
    StockMore(s, all, b);
    if sp.ba.free != [] {
      StockPop(sp, all);
    } else {
      assert b !in sp.blocks;
      assert s.blocks.Keys == sp.blocks.Keys + {b};
      StockSame(sp, s, all);
    }
  }

  /** A block on the free list, or one that is not built yet, is in no other place. */
  lemma OnlyPlace(sp: Space, all: seq<nat>, b: nat)
    requires Conserved(sp, all) && (b in sp.ba.free || b !in sp.blocks)
    ensures b !in sp.normal.recyclable && b !in sp.evac.headroom
    ensures sp.normal.current.Some? ==> sp.normal.current.value.block != b
    ensures sp.overflow.current.Some? ==> sp.overflow.current.value.block != b
    ensures sp.ba.free != [] && b == LastOf(sp.ba.free) ==> b !in InitList(sp.ba.free)
  {
    hide BlocksAligned;
    StockParts(sp, all, b);
    hide Stock;
    assert multiset(sp.blocks.Keys)[b] <= if b in sp.blocks then 1 else 0;
    assert b in sp.ba.free ==> multiset(sp.ba.free)[b] >= 1;
    assert b in sp.normal.recyclable ==> multiset(sp.normal.recyclable)[b] >= 1;
    assert b in sp.evac.headroom ==> multiset(sp.evac.headroom)[b] >= 1;
    if sp.ba.free != [] && b == LastOf(sp.ba.free) {
      var rest := InitList(sp.ba.free);
      assert sp.ba.free == rest + [b];
      var others: multiset<nat> := multiset(rest);
      assert multiset(sp.ba.free) == others + multiset{b};
    }
  }

  /** Each of the places contributes to the stock. */
  lemma StockParts(sp: Space, all: seq<nat>, b: nat)
    ensures Stock(sp, all)[b]
            >= multiset(sp.ba.free)[b] + multiset(sp.normal.recyclable)[b] + multiset(sp.evac.headroom)[b]
      + CursorBag(sp.normal.current)[b] + CursorBag(sp.overflow.current)[b]
  {
  }

  /** Taking a fresh block into use leaves every other block's facts alone. */
  lemma FreshBlockKeeps(sp: Space, bs: Bodies, all: seq<nat>, s: Space, b: nat)
    requires SpaceInv(sp, bs, all) && FreshBlock(sp, bs, s, b) && Conserved(s, all + [b])
    ensures b in s.blocks
    ensures var t := s.(blocks := SetInUse(s.blocks, b));
      SpaceInv(t, bs, all + [b]) && CursorOk(t.blocks, bs, WholeBlock(b))
  {
    var t := s.(blocks := SetInUse(s.blocks, b));
    assert t.blocks == sp.blocks[b := EmptyBlock().(inUse := true)];
    FreshConserved(s, all + [b], b);
    hide Conserved, HeapOk, CursorOk, FreeOk, RecyclableOk;
    OnlyPlace(sp, all, b);
    OthersKeep(sp, bs, b, t.blocks);
    assert OptCursorOk(t.blocks, bs, t.normal.current);
    assert ListsOk(t, bs);
  }

  lemma FreshConserved(s: Space, all: seq<nat>, b: nat)
    requires Conserved(s, all) && b in s.blocks
    ensures Conserved(s.(blocks := SetInUse(s.blocks, b)), all)
  {
    assert SetInUse(s.blocks, b).Keys == s.blocks.Keys;
  }

  lemma OthersKeep(sp: Space, bs: Bodies, b: nat, blocks: Blocks)
    requires HeapOk(sp.blocks, bs) && (forall o :: !Here(bs, o, b))
    requires blocks == sp.blocks[b := EmptyBlock().(inUse := true)]
    ensures HeapOk(blocks, bs) && CursorOk(blocks, bs, WholeBlock(b))
    ensures forall c: Cursor :: c.block != b && CursorOk(sp.blocks, bs, c) ==> CursorOk(blocks, bs, c)
    ensures forall x :: x != b && RecyclableOk(sp.blocks, bs, x) ==> RecyclableOk(blocks, bs, x)
    ensures forall x :: x != b && FreeOk(sp.blocks, bs, x) ==> FreeOk(blocks, bs, x)
  {
    hide BytesDisjoint, Covers;
    assert forall o :: o in bs && o.Immix? ==> o.block != b by {
      forall o | o in bs && o.Immix? ensures o.block != b { assert !Here(bs, o, b); }
    }
  }

  lemma NormalNewBlockKeeps(sp: Space, bs: Bodies, all: seq<nat>)
    requires SpaceInv(sp, bs, all) && Known(sp) && sp.normal.current.None?
    ensures SpaceInv(NormalNewBlock(sp), bs, all)
  {
    hide SpaceInv, FreshBlock, CursorOk, Conserved, Known, GetBlock, OptCursorOk;
    var (s, r) := GetBlock(sp);
    if r.Some? {
      InvParts(sp, bs, all);
      GetBlockIsFresh(sp, bs, all);
      GetBlockConserves(sp, all);
      FreshBlockKeeps(sp, bs, all, s, r.value);
      var t := s.(blocks := SetInUse(s.blocks, r.value));
      FreshIs(sp, bs, s, r.value);
      IntoNormal(t, bs, all, r.value);
    } else {
      GetBlockFails(sp);
    }
  }

  lemma FreshIs(sp: Space, bs: Bodies, s: Space, b: nat)
    requires FreshBlock(sp, bs, s, b)
    ensures s.normal == sp.normal && s.overflow == sp.overflow && s.evac == sp.evac && s.mark == sp.mark
  {
  }

  lemma GetBlockFails(sp: Space)
    ensures GetBlock(sp).1.None? <==> sp.ba.free == [] && sp.ba.data + BLOCK_SIZE >= sp.ba.bound
    ensures GetBlock(sp).1.None? ==> GetBlock(sp).0 == sp
  {
  }

  lemma IntoNormal(t: Space, bs: Bodies, all: seq<nat>, b: nat)
    requires SpaceInv(t, bs, all + [b]) && CursorOk(t.blocks, bs, WholeBlock(b)) && t.normal.current.None?
    ensures SpaceInv(t.(normal := t.normal.(current := Some(WholeBlock(b)))), bs, all)
  {
    hide HeapOk, CursorOk, RecyclableOk, FreeOk, Stock;
    StockMore(t, all, b);
    StockCursor(t, all, WholeBlock(b));
  }

  lemma NormalSeekKeeps(sp: Space, bs: Bodies, all: seq<nat>, size: nat)
    requires SpaceInv(sp, bs, all) && Known(sp)
    ensures SpaceInv(NormalSeek(sp, size), bs, all)
    ensures NormalSeek(sp, size).normal.current.Some? ==>
      var c := NormalSeek(sp, size).normal.current.value; size <= LAST_OFFSET - LINE_SIZE ==> c.low + size <= c.high
  {
    hide SpaceInv, Known, NormalScan, NormalRecycle, NormalNewBlock;
    NormalScanKeeps(sp, bs, all, size);
    var s1 := NormalScan(sp, size);
    NormalScanFits(sp, size);
    if s1.normal.current.None? {
      NormalRecycleKeeps(s1, bs, all, size);
      NormalRecycleFits(s1, size);
      var s2 := NormalRecycle(s1, size);
      if s2.normal.current.None? {
        NormalNewBlockKeeps(s2, bs, all);
        NormalNewBlockFits(s2);
      }
    }
  }

  lemma NormalScanFits(sp: Space, size: nat)
    requires Known(sp)
    ensures NormalScan(sp, size).normal.current.Some? ==>
      var c := NormalScan(sp, size).normal.current.value; c.low + size <= c.high
  {
  }

  lemma {:induction false} NormalRecycleFits(sp: Space, size: nat)
    requires Known(sp) && sp.normal.current.None?
    ensures NormalRecycle(sp, size).normal.current.Some? ==>
      var c := NormalRecycle(sp, size).normal.current.value; c.low + size <= c.high
    decreases |sp.normal.recyclable|
  {
    if size < LINE_SIZE && sp.normal.recyclable != [] {
      var block := LastOf(sp.normal.recyclable);
      var n := sp.normal.(recyclable := InitList(sp.normal.recyclable));
      if FindHole(sp.blocks[block].lines, LINE_SIZE - 1).None? {
        NormalRecycleFits(sp.(normal := n.(unavailable := n.unavailable + [block])), size);
      }
    }
  }

  /** Recycling changes the normal allocator only. */
  lemma {:induction false} NormalRecycleFrame(sp: Space, size: nat)
    requires Known(sp) && sp.normal.current.None?
    ensures NormalRecycle(sp, size) == sp.(normal := NormalRecycle(sp, size).normal)
    decreases |sp.normal.recyclable|
  {
    hide FindHole, ScanForHole;
    if size < LINE_SIZE && sp.normal.recyclable != [] {
      var block := LastOf(sp.normal.recyclable);
      var popped := sp.normal.(recyclable := InitList(sp.normal.recyclable));
      if FindHole(sp.blocks[block].lines, LINE_SIZE - 1).None? {
        NormalRecycleFrame(sp.(normal := popped.(unavailable := popped.unavailable + [block])), size);
      }
    }
  }

  lemma NormalNewBlockFits(sp: Space)
    requires Known(sp) && sp.normal.current.None?
    ensures NormalNewBlock(sp).normal.current.Some? ==>
      NormalNewBlock(sp).normal.current.value.low == LINE_SIZE
      && NormalNewBlock(sp).normal.current.value.high == LAST_OFFSET
  {
  }

  lemma OverflowSeekKeeps(sp: Space, bs: Bodies, all: seq<nat>, size: nat)
    requires SpaceInv(sp, bs, all) && Known(sp)
    ensures SpaceInv(OverflowSeek(sp, size), bs, all)
    ensures OverflowSeek(sp, size).overflow.current.Some? ==>
      var c := OverflowSeek(sp, size).overflow.current.value; size <= LAST_OFFSET - LINE_SIZE ==> c.low + size <= c.high
  {
    hide SpaceInv, HeapOk, CursorOk, ScanForHole, GetBlock, FreshBlock, Conserved, OptCursorOk, Stock;
    var s := sp;
    if sp.overflow.current.Some? {
      var c := sp.overflow.current.value;
      InvParts(sp, bs, all);
      OptCursorIs(sp.blocks, bs, sp.overflow.current);
      ScanKeepsCursor(sp.blocks, bs, size, c);
      var f := ScanForHole(sp.blocks[c.block].lines, size, c);
      s := if f.Some? then sp.(overflow := sp.overflow.(current := f))
           else sp.(overflow := sp.overflow.(current := None, unavailable := sp.overflow.unavailable + [c.block]));
      RetireOverflow(sp, all);
      OptCursorIs(sp.blocks, bs, None);
      Moved(sp, s, bs, all);
    }
    if s.overflow.current.None? {
      var (t, r) := GetBlock(s);
      if r.Some? {
        InvParts(s, bs, all);
        GetBlockIsFresh(s, bs, all);
        GetBlockConserves(s, all);
        FreshBlockKeeps(s, bs, all, t, r.value);
        FreshIs(s, bs, t, r.value);
        IntoOverflow(t.(blocks := SetInUse(t.blocks, r.value)), bs, all, r.value);
      } else {
        GetBlockFails(s);
      }
    }
  }

  lemma OptCursorIs(blocks: Blocks, bs: Bodies, c: Option<Cursor>)
    ensures OptCursorOk(blocks, bs, c) <==> (c.Some? ==> CursorOk(blocks, bs, c.value))
  {
  }

  lemma RetireOverflow(sp: Space, all: seq<nat>)
    requires sp.overflow.current.Some?
    ensures var n, b := sp.overflow, sp.overflow.current.value.block;
      && Stock(sp.(overflow := n.(current := None, unavailable := n.unavailable + [b])), all) == Stock(sp, all)
      && forall c: Cursor :: c.block == b ==> Stock(sp.(overflow := n.(current := Some(c))), all) == Stock(sp, all)
  {
    var b := sp.overflow.current.value.block;
    assert multiset(sp.overflow.unavailable + [b]) == multiset(sp.overflow.unavailable) + multiset{b};
  }

  lemma IntoOverflow(t: Space, bs: Bodies, all: seq<nat>, b: nat)
    requires SpaceInv(t, bs, all + [b]) && CursorOk(t.blocks, bs, WholeBlock(b)) && t.overflow.current.None?
    ensures SpaceInv(t.(overflow := t.overflow.(current := Some(WholeBlock(b)))), bs, all)
  {
    hide HeapOk, CursorOk, RecyclableOk, FreeOk, Stock;
    StockMore(t, all, b);
    StockCursor(t, all, WholeBlock(b));
  }

  // ---------------------------------------------------------------- the allocated object

  /** An object placed at the cursor shares no byte with another one, and no other block notices. */
  lemma ObjectAtCursor(blocks: Blocks, bs: Bodies, c: Cursor, size: nat, members: seq<Slot>)
    requires HeapOk(blocks, bs) && CursorOk(blocks, bs, c)
    requires 0 < size && size % 8 == 0 && c.low + size <= c.high
    ensures var o := Immix(c.block, c.low);
      var blocks', bs' := EnterObject(blocks, o), bs[o := Plain(size, members)];
      && o !in bs && Fits(o.offset, size)
      && HeapOk(blocks', bs') && CursorOk(blocks', bs', Bump(c, size))
      && (forall d: Cursor :: d.block != c.block && CursorOk(blocks, bs, d) ==> CursorOk(blocks', bs', d))
      && (forall x :: x != c.block && RecyclableOk(blocks, bs, x) ==> RecyclableOk(blocks', bs', x))
      && (forall x :: x != c.block && FreeOk(blocks, bs, x) ==> FreeOk(blocks', bs', x))
  {
    var o := Immix(c.block, c.low);
    var blocks', bs' := EnterObject(blocks, o), bs[o := Plain(size, members)];
    assert !Here(bs, o, c.block);
    ObjectDisjoint(blocks, bs, c, size, members);
    assert forall p :: p in bs ==> IsNewObject(blocks', p) == IsNewObject(blocks, p);
    assert OldCounted(blocks', bs') by { hide BytesDisjoint, Covers, CursorOk; }
    ObjectCursor(blocks, bs, c, size, members);
    hide BytesDisjoint, OldCounted, Covers, Fits;
  }

  lemma ObjectDisjoint(blocks: Blocks, bs: Bodies, c: Cursor, size: nat, members: seq<Slot>)
    requires BytesDisjoint(bs) && CursorOk(blocks, bs, c) && Immix(c.block, c.low) !in bs
    requires 0 < size && size % 8 == 0 && c.low + size <= c.high
    ensures BytesDisjoint(bs[Immix(c.block, c.low) := Plain(size, members)])
  {
    var o := Immix(c.block, c.low);
    var bs' := bs[o := Plain(size, members)];
    forall p | p in bs && p.Immix? && p.block == c.block
      ensures End(bs, p) <= o.offset || End(bs', o) <= p.offset
    {
      assert Here(bs, p, c.block);
    }
  }

  lemma ObjectCursor(blocks: Blocks, bs: Bodies, c: Cursor, size: nat, members: seq<Slot>)
    requires BytesDisjoint(bs) && CursorOk(blocks, bs, c) && Immix(c.block, c.low) !in bs
    requires 0 < size && size % 8 == 0 && c.low + size <= c.high
    ensures var o := Immix(c.block, c.low);
      CursorOk(EnterObject(blocks, o), bs[o := Plain(size, members)], Bump(c, size))
  {
    var o := Immix(c.block, c.low);
    var bs' := bs[o := Plain(size, members)];
    forall p | Here(bs', p, c.block) && bs'[p].Plain?
      ensures End(bs', p) <= c.low + size || c.high < p.offset
      ensures IsNewObject(EnterObject(blocks, o), p) ==> End(bs', p) <= c.low + size
    {
      assert p != o ==> Here(bs, p, c.block);
    }
  }

  /** The block under an allocator's cursor is in no other place. */
  lemma CursorPlace(sp: Space, all: seq<nat>, b: nat)
    requires Conserved(sp, all) && b in CursorBag(sp.normal.current) + CursorBag(sp.overflow.current)
    ensures b !in sp.normal.recyclable && b !in sp.evac.headroom && b !in sp.ba.free
    ensures !(b in CursorBag(sp.normal.current) && b in CursorBag(sp.overflow.current))
  {
    var m := Stock(sp, all);
    assert m[b] <= 1;
    assert b in sp.ba.free ==> multiset(sp.ba.free)[b] >= 1;
    assert b in sp.normal.recyclable ==> multiset(sp.normal.recyclable)[b] >= 1;
    assert b in sp.evac.headroom ==> multiset(sp.evac.headroom)[b] >= 1;
  }

  lemma StockBump(sp: Space, s: Space, all: seq<nat>, size: nat)
    requires sp.normal.current.Some? || sp.overflow.current.Some?
    requires s == sp.(blocks := s.blocks, normal := s.normal, overflow := s.overflow)
    requires
      || (sp.normal.current.Some? && s.overflow == sp.overflow
        && s.normal == sp.normal.(current := Some(Bump(sp.normal.current.value, size))))
      || (sp.overflow.current.Some? && s.normal == sp.normal
        && s.overflow == sp.overflow.(current := Some(Bump(sp.overflow.current.value, size))))
    ensures Stock(s, all) == Stock(sp, all)
  {
  }

  lemma NormalBumpKeeps(sp: Space, bs: Bodies, all: seq<nat>, size: nat, members: seq<Slot>)
    requires SpaceInv(sp, bs, all) && sp.normal.current.Some?
    requires 0 < size && size % 8 == 0 && sp.normal.current.value.low + size <= sp.normal.current.value.high
    ensures var c := sp.normal.current.value;
      var o := Immix(c.block, c.low);
      && o !in bs && Fits(o.offset, size) && c.block in sp.blocks
      && SpaceInv(sp.(blocks := EnterObject(sp.blocks, o), normal := sp.normal.(current := Some(Bump(c, size)))),
        bs[o := Plain(size, members)], all)
  {
    hide HeapOk, CursorOk, RecyclableOk, FreeOk, Stock, Fits;
    var c := sp.normal.current.value;
    assert CursorOk(sp.blocks, bs, c);
    assert c.block in sp.blocks by { CursorKnown(sp.blocks, bs, c); }
    ObjectAtCursor(sp.blocks, bs, c, size, members);
    CursorPlace(sp, all, c.block);
    var blocks := EnterObject(sp.blocks, Immix(c.block, c.low));
    assert blocks.Keys == sp.blocks.Keys;
    StockBump(sp, sp.(blocks := blocks, normal := sp.normal.(current := Some(Bump(c, size)))), all, size);
  }

  lemma CursorKnown(blocks: Blocks, bs: Bodies, c: Cursor)
    requires CursorOk(blocks, bs, c)
    ensures c.block in blocks && CursorInBounds(c)
  {
  }

  lemma OverflowBumpKeeps(sp: Space, bs: Bodies, all: seq<nat>, size: nat, members: seq<Slot>)
    requires SpaceInv(sp, bs, all) && sp.overflow.current.Some?
    requires 0 < size && size % 8 == 0 && sp.overflow.current.value.low + size <= sp.overflow.current.value.high
    ensures var c := sp.overflow.current.value;
      var o := Immix(c.block, c.low);
      && o !in bs && Fits(o.offset, size) && c.block in sp.blocks
      && SpaceInv(sp.(blocks := EnterObject(sp.blocks, o), overflow := sp.overflow.(current := Some(Bump(c, size)))),
        bs[o := Plain(size, members)], all)
  {
    hide HeapOk, CursorOk, RecyclableOk, FreeOk, Stock, Fits;
    var c := sp.overflow.current.value;
    assert CursorOk(sp.blocks, bs, c);
    assert c.block in sp.blocks by { CursorKnown(sp.blocks, bs, c); }
    ObjectAtCursor(sp.blocks, bs, c, size, members);
    CursorPlace(sp, all, c.block);
    var blocks := EnterObject(sp.blocks, Immix(c.block, c.low));
    assert blocks.Keys == sp.blocks.Keys;
    StockBump(sp, sp.(blocks := blocks, overflow := sp.overflow.(current := Some(Bump(c, size)))), all, size);
  }

  /**
    An allocation hands out whole bytes of one block beyond its first line that no valid object
    uses, within the 16-bit bounds of the cursor, and keeps every block in exactly one place.
   */
  lemma AllocationIsSafe(sp: Space, bs: Bodies, all: seq<nat>, size: nat, members: seq<Slot>)
    requires SpaceInv(sp, bs, all) && Known(sp)
    requires 0 < size < LARGE_OBJECT && size % 8 == 0
    ensures var (s, r) := SpaceAllocate(sp, size);
      && (r.None? ==> SpaceInv(s, bs, all))
      && (r.Some? ==>
        && r.value.Immix? && r.value !in bs && Fits(r.value.offset, size) && r.value.block in s.blocks
        && SpaceInv(s.(blocks := EnterObject(s.blocks, r.value)), bs[r.value := Plain(size, members)], all))
  {
    hide SpaceInv, Known, NormalSeek, OverflowSeek, Fits, EnterObject;
    if size < MEDIUM_OBJECT {
      NormalSeekKeeps(sp, bs, all, size);
      var s := NormalSeek(sp, size);
      if s.normal.current.Some? {
        NormalBumpKeeps(s, bs, all, size, members);
      }
    } else {
      OverflowSeekKeeps(sp, bs, all, size);
      var s := OverflowSeek(sp, size);
      if s.overflow.current.Some? {
        OverflowBumpKeeps(s, bs, all, size, members);
      }
    }
  }

  // ---------------------------------------------------------------- completeness

  /** The rest of the current block has a hole of `size` bytes: the current one or one of the holes behind it. */
  ghost predicate CursorHasRoom(blocks: Blocks, c: Option<Cursor>, size: nat) {
    c.Some? && c.value.block in blocks && CursorInBounds(c.value)
    && ScanForHole(blocks[c.value.block].lines, size, c.value).Some?
  }

  /** For an object smaller than a line, room means room in the current hole or a free pair behind it. */
  lemma RoomForSmall(blocks: Blocks, c: Cursor, size: nat)
    requires c.block in blocks && CursorInBounds(c) && size < LINE_SIZE
    ensures CursorHasRoom(blocks, Some(c), size) <==>
      c.high - c.low >= size || exists i :: c.high / LINE_SIZE < i && FreePair(blocks[c.block].lines, i)
  {
    var lines := blocks[c.block].lines;
    HoleIsExact(lines, c.high);
    if FindHole(lines, c.high).Some? {
      var h := FindHole(lines, c.high).value;
      assert ScanForHole(lines, size, Cursor(c.block, h.low, h.high)).Some?;
    }
  }

  ghost predicate HasFreePair(blocks: Blocks, b: nat) {
    b in blocks && exists i :: 0 < i && FreePair(blocks[b].lines, i)
  }

  lemma {:induction false} RecycleFailsExactly(sp: Space, size: nat)
    requires Known(sp) && sp.normal.current.None? && size < LINE_SIZE
    ensures NormalRecycle(sp, size).normal.current.None?
            <==> forall b :: b in sp.normal.recyclable ==> !HasFreePair(sp.blocks, b)
    ensures NormalRecycle(sp, size).ba == sp.ba
    decreases |sp.normal.recyclable|
  {
    if sp.normal.recyclable != [] {
      var block, rest := LastOf(sp.normal.recyclable), InitList(sp.normal.recyclable);
      assert sp.normal.recyclable == rest + [block];
      HoleIsExact(sp.blocks[block].lines, LINE_SIZE - 1);
      if FindHole(sp.blocks[block].lines, LINE_SIZE - 1).None? {
        assert !HasFreePair(sp.blocks, block);
        RecycleFailsExactly(
          sp.(normal := sp.normal.(recyclable := rest, unavailable := sp.normal.unavailable + [block])), size);
      } else {
        assert HasFreePair(sp.blocks, block);
      }
    }
  }

  /**
    Allocation completeness: an object smaller than a line is refused exactly if the current block
    has no room, no recyclable block has two free lines in a row, and no block can be had.
   */
  lemma SmallAllocationFailsExactly(sp: Space, size: nat)
    requires Known(sp) && 0 < size < MEDIUM_OBJECT
    ensures SpaceAllocate(sp, size).1.None? <==>
      && !CursorHasRoom(sp.blocks, sp.normal.current, size)
      && (forall b :: b in sp.normal.recyclable ==> !HasFreePair(sp.blocks, b))
      && sp.ba.free == [] && sp.ba.data + BLOCK_SIZE >= sp.ba.bound
  {
    hide HasFreePair, ScanForHole, NormalRecycle;
    var s1 := NormalScan(sp, size);
    if s1.normal.current.None? {
      RecycleFailsExactly(s1, size);
      var s2 := NormalRecycle(s1, size);
      if s2.normal.current.None? {
        GetBlockFails(s2);
      }
    }
  }

  /** There is no room for an object of the immix space, and none can be had without a collection. */
  ghost predicate NoRoom(sp: Space, size: nat) {
    && !CursorHasRoom(sp.blocks, if size < MEDIUM_OBJECT then sp.normal.current else sp.overflow.current, size)
    && (size < MEDIUM_OBJECT ==> forall b :: b in sp.normal.recyclable ==> !HasFreePair(sp.blocks, b))
    && sp.ba.free == [] && sp.ba.data + BLOCK_SIZE >= sp.ba.bound
  }

  /** An object of the immix space, small or medium, is refused exactly if there is no room. */
  lemma AllocationFailsExactly(sp: Space, size: nat)
    requires Known(sp) && 0 < size < LARGE_OBJECT
    ensures SpaceAllocate(sp, size).1.None? <==> NoRoom(sp, size)
  {
    if size < MEDIUM_OBJECT {
      SmallAllocationFailsExactly(sp, size);
    } else {
      MediumAllocationFailsExactly(sp, size);
    }
  }

  /** A medium object never goes to a recyclable block. */
  lemma MediumAllocationFailsExactly(sp: Space, size: nat)
    requires Known(sp) && MEDIUM_OBJECT <= size < LARGE_OBJECT
    ensures SpaceAllocate(sp, size).1.None? <==>
      && !CursorHasRoom(sp.blocks, sp.overflow.current, size)
      && sp.ba.free == [] && sp.ba.data + BLOCK_SIZE >= sp.ba.bound
  {
    hide ScanForHole;
  }

  lemma AllocatedKnown(sp: Space, size: nat)
    requires Known(sp)
    ensures SpaceAllocate(sp, size).1.Some? ==>
      SpaceAllocate(sp, size).1.value.Immix?
      && SpaceAllocate(sp, size).1.value.block in SpaceAllocate(sp, size).0.blocks
  {
    hide NormalSeek, OverflowSeek;
  }

  lemma EnterKnown(sp: Space, o: Ref)
    requires Known(sp) && o.Immix? && o.block in sp.blocks
    ensures Known(sp.(blocks := EnterObject(sp.blocks, o)))
  {
    assert EnterObject(sp.blocks, o).Keys == sp.blocks.Keys;
  }

  // ---------------------------------------------------------------- room for medium objects

  /** The hole of the overflow allocator's current block reaches to the block's end. */
  predicate OverflowToEnd(sp: Space) {
    sp.overflow.current.Some? ==> sp.overflow.current.value.high == LAST_OFFSET
  }

  /** Behind such a hole there is no other. */
  lemma RoomToEnd(blocks: Blocks, c: Cursor, size: nat)
    requires c.block in blocks && CursorInBounds(c) && c.high == LAST_OFFSET
    ensures CursorHasRoom(blocks, Some(c), size) <==> LAST_OFFSET - c.low >= size
  {
    HoleIsExact(blocks[c.block].lines, c.high);
  }

  /** As it only ever takes whole blocks, this stays so. */
  lemma OverflowStaysToEnd(sp: Space, size: nat)
    requires Known(sp) && OverflowToEnd(sp)
    ensures OverflowToEnd(OverflowSeek(sp, size)) && OverflowToEnd(OverflowAllocate(sp, size).0)
  {
    if sp.overflow.current.Some? {
      HoleIsExact(sp.blocks[sp.overflow.current.value.block].lines, sp.overflow.current.value.high);
    }
  }

  lemma SpaceStaysToEnd(sp: Space, size: nat)
    requires Known(sp) && OverflowToEnd(sp)
    ensures OverflowToEnd(SpaceAllocate(sp, size).0)
  {
    if size < MEDIUM_OBJECT {
      NormalKeepsOverflow(sp, size);
    } else {
      hide ScanForHole;
      OverflowStaysToEnd(sp, size);
    }
  }

  lemma NormalKeepsOverflow(sp: Space, size: nat)
    requires Known(sp)
    ensures NormalAllocate(sp, size).0.overflow == sp.overflow
  {
    hide ScanForHole, NormalRecycle;
    var s1 := NormalScan(sp, size);
    if s1.normal.current.None? {
      NormalRecycleFrame(s1, size);
    }
  }

  /**
    A medium object is refused exactly if the rest of the current block is too small and no block can
    be had.
   */
  lemma MediumRefusedExactly(sp: Space, size: nat)
    requires Known(sp) && OverflowToEnd(sp) && MEDIUM_OBJECT <= size < LARGE_OBJECT
    ensures SpaceAllocate(sp, size).1.None? <==>
      && (sp.overflow.current.Some? ==> LAST_OFFSET - sp.overflow.current.value.low < size)
      && sp.ba.free == [] && sp.ba.data + BLOCK_SIZE >= sp.ba.bound
  {
    MediumAllocationFailsExactly(sp, size);
    if sp.overflow.current.Some? {
      RoomToEnd(sp.blocks, sp.overflow.current.value, size);
    }
  }
}
