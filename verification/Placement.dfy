/**
  Where an allocation puts an object: at the cursor if it fits there, else into the first hole of the
  current block that can take it, else into a recyclable block, else into an empty one. Holes are
  described by line counters and offsets.
 */
module Placement {
  import opened Constants
  import opened Wrappers
  import opened Objects
  import opened BlockLines
  import opened BlockTables
  import opened AllocatorModel
  import opened AllocatorProofs
  import A = Allocators

  /** The lines from `i` up to `j` are free, and behind the first there is a hole of at least `size` bytes. */
  predicate Takes(lines: Lines, i: nat, j: nat, size: nat) {
    && i < j <= NUM_LINES && i < NUM_LINES - 2 && j * LINE_SIZE - 1 - (i + 1) * LINE_SIZE >= size
    && forall k :: i <= k < j ==> lines[k] == 0
  }

  /** A hole behind line `i`, which is free: it ends with the byte before the next used line, or with the block. */
  predicate IsHole(lines: Lines, i: nat, low: nat, high: nat) {
    && i < NUM_LINES - 2 && low == (i + 1) * LINE_SIZE && low + LINE_SIZE - 1 <= high <= LAST_OFFSET
    && (high + 1) % LINE_SIZE == 0
    && (forall k :: i <= k <= high / LINE_SIZE ==> lines[k] == 0)
    && (high < LAST_OFFSET ==> lines[(high + 1) / LINE_SIZE] != 0)
  }

  /**
    First fit. What fits behind the cursor stays there. Otherwise the result is a hole behind the cursor's,
    and no stretch of free lines before it could take the object; without a result, none at all could.
   */
  lemma {:induction false} FirstFit(lines: Lines, size: nat, c: Cursor)
    requires CursorInBounds(c)
    ensures c.high - c.low >= size ==> ScanForHole(lines, size, c) == Some(c)
    ensures var r := ScanForHole(lines, size, c);
      c.high - c.low < size ==>
        && (r.Some? ==>
          && r.value.block == c.block && r.value.high - r.value.low >= size
          && exists i :: c.high / LINE_SIZE < i && IsHole(lines, i, r.value.low, r.value.high))
        && (forall i, j :: c.high / LINE_SIZE < i && Takes(lines, i, j, size) ==>
              r.Some? && r.value.low <= (i + 1) * LINE_SIZE)
    decreases LAST_OFFSET - c.high
  {
    if c.high - c.low < size {
      HoleIsExact(lines, c.high);
      var h := FindHole(lines, c.high);
      if h.None? {
        forall i, j | c.high / LINE_SIZE < i && Takes(lines, i, j, size)
          ensures FreePair(lines, i)
        {
        }
      } else {
        var c' := Cursor(c.block, h.value.low, h.value.high);
        FirstFit(lines, size, c');
        HoleFound(lines, c.high);
        var i0 := h.value.low / LINE_SIZE - 1;
        forall i, j | c.high / LINE_SIZE < i && Takes(lines, i, j, size)
          ensures i0 <= i && (c'.high - c'.low < size ==> c'.high / LINE_SIZE < i)
        {
          assert FreePair(lines, i);
          if c'.high - c'.low < size {
            InsideHole(lines, i0, c'.low, c'.high, i, j, size);
          }
        }
      }
    }
  }

  lemma HoleFound(lines: Lines, last: nat)
    requires FindHole(lines, last).Some?
    ensures var h := FindHole(lines, last).value;
      && h.low / LINE_SIZE >= 1 && IsHole(lines, h.low / LINE_SIZE - 1, h.low, h.high)
      && last / LINE_SIZE < h.low / LINE_SIZE - 1
      && h.low / LINE_SIZE - 1 < h.high / LINE_SIZE
  {
    HoleIsExact(lines, last);
  }

  /** A stretch that begins inside of a hole ends there. */
  lemma InsideHole(lines: Lines, i0: nat, low: nat, high: nat, i: nat, j: nat, size: nat)
    requires IsHole(lines, i0, low, high) && i0 <= i && Takes(lines, i, j, size) && high - low < size
    ensures high / LINE_SIZE < i
  {
    var e := (high + 1) / LINE_SIZE;
    assert high + 1 == e * LINE_SIZE;
    assert i < e && e < NUM_LINES ==> j <= e;
  }

  // ---------------------------------------------------------------- the normal allocator

  /** The cursor right behind an object of `size` bytes at `o`, in a hole that ends at `high`. */
  predicate Behind(c: Option<Cursor>, o: Ref, size: nat, high: nat) {
    o.Immix? && c == Some(Cursor(o.block, o.offset + size, high))
  }

  /** There is a hole behind a free line other than the first. */
  ghost predicate Roomy(lines: Lines) {
    exists i :: 0 < i < NUM_LINES - 2 && lines[i] == 0 && lines[i + 1] == 0
  }

  /** The first hole of a recyclable block; no stretch of two free lines begins before it. */
  ghost predicate FirstHole(lines: Lines, low: nat, high: nat) {
    exists i :: 0 < i && IsHole(lines, i, low, high) && forall k :: 0 < k < i ==> lines[k] != 0 || lines[k + 1] != 0
  }

  /** The current block has no room: what is left of its hole is too small, and so is every hole behind. */
  ghost predicate NoRoomAt(blocks: Blocks, c: Option<Cursor>, size: nat)
    requires c.Some? ==> c.value.block in blocks
  {
    c.Some? ==>
      && c.value.high - c.value.low < size
      && forall i, j :: c.value.high / LINE_SIZE < i ==> !Takes(blocks[c.value.block].lines, i, j, size)
  }

  lemma ScanNone(blocks: Blocks, c: Cursor, size: nat)
    requires c.block in blocks && CursorInBounds(c)
    ensures ScanForHole(blocks[c.block].lines, size, c).None? <==> NoRoomAt(blocks, Some(c), size)
  {
    var lines := blocks[c.block].lines;
    FirstFit(lines, size, c);
    var r := ScanForHole(lines, size, c);
    if r.Some? && c.high - c.low < size {
      var i :| c.high / LINE_SIZE < i && IsHole(lines, i, r.value.low, r.value.high);
      assert Takes(lines, i, (r.value.high + 1) / LINE_SIZE, size);
    }
  }

  /** The last `n` of a list, from its end on. */
  function FromEnd(s: seq<nat>, n: nat): (r: seq<nat>)
    requires n <= |s|
    ensures |r| == n && forall i :: 0 <= i < n ==> r[i] == s[|s| - 1 - i]
  {
    seq(n, i requires 0 <= i < n => s[|s| - 1 - i])
  }

  lemma RoomyFinds(lines: Lines)
    ensures Roomy(lines) <==> FindHole(lines, LINE_SIZE - 1).Some?
    ensures Roomy(lines) ==>
      var h := FindHole(lines, LINE_SIZE - 1).value;
      FirstHole(lines, h.low, h.high) && LINE_SIZE - 1 <= h.high - h.low
  {
    HoleIsExact(lines, LINE_SIZE - 1);
    if FindHole(lines, LINE_SIZE - 1).Some? {
      HoleFound(lines, LINE_SIZE - 1);
      var h := FindHole(lines, LINE_SIZE - 1).value;
      var i := h.low / LINE_SIZE - 1;
      assert FreePair(lines, i);
      forall k | 0 < k < i
        ensures lines[k] != 0 || lines[k + 1] != 0
      {
        assert !FreePair(lines, k);
      }
    }
    if Roomy(lines) {
      var i :| 0 < i < NUM_LINES - 2 && lines[i] == 0 && lines[i + 1] == 0;
      assert FreePair(lines, i);
    }
  }

  /** All recyclable blocks from the `k`-th on have been set aside, and the one before, if any, is the current one. */
  ghost predicate RecycledTo(sp: Space, s: Space, k: nat, size: nat)
    requires k <= |sp.normal.recyclable|
  {
    && s == sp.(normal := s.normal)
    && s.normal.unavailable == sp.normal.unavailable + FromEnd(sp.normal.recyclable, |sp.normal.recyclable| - k)
    && (k == 0 ==> s.normal.current.None? && s.normal.recyclable == [])
    && (k > 0 ==>
      && s.normal.recyclable == sp.normal.recyclable[..k - 1] && s.normal.current.Some?
      && var c := s.normal.current.value;
      && c.block == sp.normal.recyclable[k - 1] && c.block in sp.blocks && c.high - c.low >= size
      && FirstHole(sp.blocks[c.block].lines, c.low, c.high))
  }

  lemma RecycledOne(sp: Space, s: Space, k: nat, size: nat)
    requires k < |sp.normal.recyclable|
    requires var rec := sp.normal.recyclable;
      RecycledTo(sp.(normal := sp.normal.(recyclable := rec[..|rec| - 1],
        unavailable := sp.normal.unavailable + [rec[|rec| - 1]])), s, k, size)
    ensures RecycledTo(sp, s, k, size)
  {
    hide FirstHole;
    var rec := sp.normal.recyclable;
    var block := rec[|rec| - 1];
    assert FromEnd(rec, |rec| - k) == [block] + FromEnd(rec[..|rec| - 1], |rec| - 1 - k);
    assert k > 0 ==> rec[..|rec| - 1][..k - 1] == rec[..k - 1];
  }

  lemma RecycledLast(sp: Space, s: Space, size: nat)
    requires sp.normal.current.None?
    requires var rec := sp.normal.recyclable;
      if rec == [] then s == sp
      else
        && rec[|rec| - 1] in sp.blocks && s.normal.current.Some?
        && var c := s.normal.current.value;
        && s == sp.(normal := sp.normal.(recyclable := rec[..|rec| - 1], current := Some(c)))
        && c.block == rec[|rec| - 1] && c.high - c.low >= size && FirstHole(sp.blocks[c.block].lines, c.low, c.high)
    ensures RecycledTo(sp, s, |sp.normal.recyclable|, size)
  {
    hide FirstHole;
    assert sp.normal.unavailable + FromEnd(sp.normal.recyclable, 0) == sp.normal.unavailable;
  }

  /** Recyclable blocks are tried from the end of the list; those without a hole are set aside, in that order. */
  lemma {:induction false} RecyclePlaces(sp: Space, size: nat, k: nat)
    requires Known(sp) && sp.normal.current.None? && size < LINE_SIZE && k <= |sp.normal.recyclable|
    requires forall j :: k <= j < |sp.normal.recyclable| ==> !Roomy(sp.blocks[sp.normal.recyclable[j]].lines)
    requires k > 0 ==> Roomy(sp.blocks[sp.normal.recyclable[k - 1]].lines)
    ensures RecycledTo(sp, NormalRecycle(sp, size), k, size)
    decreases |sp.normal.recyclable|
  {
    RecycleStep(sp, size);
    var rec := sp.normal.recyclable;
    if rec != [] {
      var block := rec[|rec| - 1];
      RoomyFinds(sp.blocks[block].lines);
      hide FindHole, ScanForHole, Roomy, FirstHole, NormalRecycle, Known, RecycledTo;
      if k < |rec| {
        var full := sp.(normal := sp.normal.(recyclable := rec[..|rec| - 1],
          unavailable := sp.normal.unavailable + [block]));
        RecyclePlaces(full, size, k);
        RecycledOne(sp, NormalRecycle(sp, size), k, size);
      } else {
        RecycledLast(sp, NormalRecycle(sp, size), size);
      }
    } else {
      RecycledLast(sp, NormalRecycle(sp, size), size);
    }
  }

  /** One recyclable block. */
  lemma RecycleStep(sp: Space, size: nat)
    requires Known(sp) && sp.normal.current.None? && size < LINE_SIZE
    ensures var rec := sp.normal.recyclable;
      && (rec == [] ==> NormalRecycle(sp, size) == sp)
      && (rec != [] ==>
        && var block, n := rec[|rec| - 1], sp.normal.(recyclable := rec[..|rec| - 1]);
        && var full := sp.(normal := n.(unavailable := n.unavailable + [block]));
        && block in sp.blocks && Known(full)
        && var h := FindHole(sp.blocks[block].lines, LINE_SIZE - 1);
        && (h.None? ==> NormalRecycle(sp, size) == NormalRecycle(full, size))
        && (h.Some? && h.value.high - h.value.low >= LINE_SIZE - 1 ==>
              NormalRecycle(sp, size) ==
              sp.(normal := n.(current := Some(Cursor(block, h.value.low, h.value.high))))))
  {
    var rec := sp.normal.recyclable;
    if rec != [] {
      var h := FindHole(sp.blocks[rec[|rec| - 1]].lines, LINE_SIZE - 1);
      if h.Some? {
        FirstFit(sp.blocks[rec[|rec| - 1]].lines, size, Cursor(rec[|rec| - 1], h.value.low, h.value.high));
      }
    }
  }

  /** A block of its own: the one returned last, or else the next to be built; the object lies on its second line. */
  ghost predicate InEmptyBlock(sp: Space, s: Space, r: Option<Ref>) {
    var n := |sp.ba.free|;
    if n > 0 then
      && r == Some(Immix(sp.ba.free[n - 1], LINE_SIZE)) && s.ba == sp.ba.(free := sp.ba.free[..n - 1])
    else if sp.ba.data + BLOCK_SIZE < sp.ba.bound then
      && r == Some(Immix(sp.ba.data + BLOCK_SIZE, LINE_SIZE)) && s.ba == sp.ba.(data := sp.ba.data + BLOCK_SIZE)
    else r == None && s.ba == sp.ba
  }

  /** A hole of the current block behind the cursor's, the first that can take the object. */
  ghost predicate InCurrentBlock(blocks: Blocks, c: Cursor, size: nat, o: Ref, high: nat)
    requires c.block in blocks
  {
    var lines := blocks[c.block].lines;
    && o.Immix? && o.block == c.block && high - o.offset >= size
    && (exists i :: c.high / LINE_SIZE < i && IsHole(lines, i, o.offset, high))
    && forall i, j :: c.high / LINE_SIZE < i && Takes(lines, i, j, size) ==> o.offset <= (i + 1) * LINE_SIZE
  }

  /** The last recyclable block with a hole, and the first hole of it. */
  ghost predicate InRecyclable(sp: Space, s: Space, k: nat, o: Ref, high: nat) {
    && o.Immix? && k < |sp.normal.recyclable| && o.block == sp.normal.recyclable[k] && o.block in sp.blocks
    && FirstHole(sp.blocks[o.block].lines, o.offset, high)
    && s.normal.recyclable == sp.normal.recyclable[..k]
    && forall j :: k < j < |sp.normal.recyclable| ==>
      sp.normal.recyclable[j] in sp.blocks && !Roomy(sp.blocks[sp.normal.recyclable[j]].lines)
  }

  ghost predicate NoneRoomy(sp: Space) {
    forall b :: b in sp.normal.recyclable ==> b in sp.blocks && !Roomy(sp.blocks[b].lines)
  }

  /** The last recyclable block with a hole, counted from one; zero if there is none. */
  ghost function LastRoomy(sp: Space, n: nat): (k: nat)
    requires Known(sp) && n <= |sp.normal.recyclable|
    ensures k <= n && (k > 0 ==> Roomy(sp.blocks[sp.normal.recyclable[k - 1]].lines))
    ensures forall j :: k <= j < n ==> !Roomy(sp.blocks[sp.normal.recyclable[j]].lines)
  {
    if n == 0 || Roomy(sp.blocks[sp.normal.recyclable[n - 1]].lines) then n else LastRoomy(sp, n - 1)
  }

  /** The places of a small object, in the order in which they are tried. */
  ghost predicate SmallPlaced(sp: Space, s: Space, r: Option<Ref>, size: nat)
    requires Known(sp)
  {
    var cur := sp.normal.current;
    if cur.Some? && cur.value.high - cur.value.low >= size then
      && r == Some(Immix(cur.value.block, cur.value.low))
      && s == sp.(normal := sp.normal.(current := Some(Cursor(cur.value.block, cur.value.low + size, cur.value.high))))
    else if !NoRoomAt(sp.blocks, cur, size) then
      && cur.Some? && r.Some?
      && exists high ::
        && InCurrentBlock(sp.blocks, cur.value, size, r.value, high)
        && Behind(s.normal.current, r.value, size, high)
        && s == sp.(normal := sp.normal.(current := s.normal.current))
    else if !NoneRoomy(sp) then
      && r.Some?
      && exists k, high ::
        InRecyclable(sp, s, k, r.value, high) && Behind(s.normal.current, r.value, size, high)
        && s == sp.(normal := s.normal)
    else
      && InEmptyBlock(sp, s, r) && s.normal.recyclable == []
      && (r.None? ==> s.normal.current == None)
      && (r.Some? ==> Behind(s.normal.current, r.value, size, LAST_OFFSET))
  }

  /**
    Where a small object goes. First the rest of the current hole; then the first hole behind it in the
    current block that can take the object; then the first hole of the last recyclable block that has
    any; then an empty block. The next object will lie right behind it, in the same hole.
   */
  lemma SmallPlaces(sp: Space, size: nat)
    requires Known(sp) && size < MEDIUM_OBJECT
    ensures var (s, r) := SpaceAllocate(sp, size); SmallPlaced(sp, s, r, size)
  {
    var cur := sp.normal.current;
    if cur.Some? {
      ScanNone(sp.blocks, cur.value, size);
    }
    if cur.Some? && ScanForHole(sp.blocks[cur.value.block].lines, size, cur.value).Some? {
      SmallInHole(sp, size);
    } else {
      SmallElsewhere(sp, size);
    }
  }

  lemma SmallInHole(sp: Space, size: nat)
    requires Known(sp) && size < MEDIUM_OBJECT && sp.normal.current.Some?
    requires var c := sp.normal.current.value; ScanForHole(sp.blocks[c.block].lines, size, c).Some?
    ensures !NoRoomAt(sp.blocks, sp.normal.current, size)
    ensures var (s, r) := SpaceAllocate(sp, size); SmallPlaced(sp, s, r, size)
  {
    var c := sp.normal.current.value;
    ScanNone(sp.blocks, c, size);
    FirstFit(sp.blocks[c.block].lines, size, c);
    var c' := ScanForHole(sp.blocks[c.block].lines, size, c).value;
    var (s, r) := SpaceAllocate(sp, size);
    hide FindHole, Takes, IsHole, NoRoomAt, NoneRoomy, ScanForHole, InRecyclable, InEmptyBlock;
    assert Behind(s.normal.current, r.value, size, c'.high);
    if c.high - c.low < size {
      assert InCurrentBlock(sp.blocks, c, size, r.value, c'.high);
    }
  }

  lemma SmallElsewhere(sp: Space, size: nat)
    requires Known(sp) && size < MEDIUM_OBJECT && NoRoomAt(sp.blocks, sp.normal.current, size)
    requires sp.normal.current.Some? ==>
      ScanForHole(sp.blocks[sp.normal.current.value.block].lines, size, sp.normal.current.value).None?
    ensures var (s, r) := SpaceAllocate(sp, size); SmallPlaced(sp, s, r, size)
  {
    var s1 := NormalScan(sp, size);
    ScanRetires(sp, size);
    var k := LastRoomy(s1, |s1.normal.recyclable|);
    RecyclePlaces(s1, size, k);
    var s2 := NormalRecycle(s1, size);
    SeekElsewhere(sp, size);
    hide NormalScan, NormalRecycle, NormalSeek, Known, Roomy, FirstHole, Takes, NoRoomAt;
    if k > 0 {
      RecycledPlaced(sp, s1, s2, k, size);
    } else {
      NewPlaced(sp, s1, s2, size);
    }
  }

  lemma ScanRetires(sp: Space, size: nat)
    requires Known(sp)
    requires sp.normal.current.Some? ==>
      ScanForHole(sp.blocks[sp.normal.current.value.block].lines, size, sp.normal.current.value).None?
    ensures var s := NormalScan(sp, size);
      s == sp.(normal := s.normal) && s.normal.current == None && s.normal.recyclable == sp.normal.recyclable
  {
    hide ScanForHole;
  }

  lemma SeekElsewhere(sp: Space, size: nat)
    requires Known(sp) && size < MEDIUM_OBJECT && NormalScan(sp, size).normal.current.None?
    ensures var s2 := NormalRecycle(NormalScan(sp, size), size);
      && (s2.normal.current.Some? ==>
        var c := s2.normal.current.value;
        SpaceAllocate(sp, size) ==
          (s2.(normal := s2.normal.(current := Some(Cursor(c.block, c.low + size, c.high)))),
           Some(Immix(c.block, c.low))))
      && (s2.normal.current.None? ==>
        var (s, r) := SpaceAllocate(sp, size);
        InEmptyBlock(s2, s, r) && (r.None? ==> s.normal == s2.normal)
        && (r.Some? ==>
          Behind(s.normal.current, r.value, size, LAST_OFFSET) && s.normal == s2.normal.(current := s.normal.current)))
  {
    hide NormalRecycle, NormalScan;
  }

  lemma RecycledPlaced(sp: Space, s1: Space, s2: Space, k: nat, size: nat)
    requires Known(sp) && NoRoomAt(sp.blocks, sp.normal.current, size)
    requires s1 == sp.(normal := s1.normal) && s1.normal.recyclable == sp.normal.recyclable
    requires 0 < k <= |s1.normal.recyclable| && RecycledTo(s1, s2, k, size)
    requires forall j :: k <= j < |s1.normal.recyclable| ==>
      s1.normal.recyclable[j] in sp.blocks && !Roomy(sp.blocks[s1.normal.recyclable[j]].lines)
    requires Roomy(sp.blocks[s1.normal.recyclable[k - 1]].lines)
    ensures s2.normal.current.Some?
    ensures var c := s2.normal.current.value;
      SmallPlaced(sp, s2.(normal := s2.normal.(current := Some(Cursor(c.block, c.low + size, c.high)))),
        Some(Immix(c.block, c.low)), size)
  {
    var c := s2.normal.current.value;
    var s := s2.(normal := s2.normal.(current := Some(Cursor(c.block, c.low + size, c.high))));
    var o := Immix(c.block, c.low);
    assert !NoneRoomy(sp);
    hide Roomy, FirstHole, Takes;
    assert InRecyclable(sp, s, k - 1, o, c.high) && Behind(s.normal.current, o, size, c.high);
  }

  lemma NewPlaced(sp: Space, s1: Space, s2: Space, size: nat)
    requires Known(sp) && size < MEDIUM_OBJECT && NoRoomAt(sp.blocks, sp.normal.current, size)
    requires s1 == sp.(normal := s1.normal) && s1.normal.recyclable == sp.normal.recyclable
    requires RecycledTo(s1, s2, 0, size) && NoneRoomy(sp)
    requires var (s, r) := SpaceAllocate(sp, size);
      InEmptyBlock(s2, s, r) && (r.None? ==> s.normal == s2.normal)
      && (r.Some? ==>
        Behind(s.normal.current, r.value, size, LAST_OFFSET) && s.normal == s2.normal.(current := s.normal.current))
    ensures var (s, r) := SpaceAllocate(sp, size); SmallPlaced(sp, s, r, size)
  {
    hide Roomy, SpaceAllocate, Takes;
  }

  // ---------------------------------------------------------------- the overflow allocator

  /** The places of a medium object; recyclable blocks are not tried. */
  ghost predicate MediumPlaced(sp: Space, s: Space, r: Option<Ref>, size: nat)
    requires Known(sp)
  {
    var cur := sp.overflow.current;
    if cur.Some? && cur.value.high - cur.value.low >= size then
      && r == Some(Immix(cur.value.block, cur.value.low))
      && s == sp.(overflow := sp.overflow.(current :=
           Some(Cursor(cur.value.block, cur.value.low + size, cur.value.high))))
    else if !NoRoomAt(sp.blocks, cur, size) then
      && cur.Some? && r.Some?
      && exists high ::
        && InCurrentBlock(sp.blocks, cur.value, size, r.value, high)
        && Behind(s.overflow.current, r.value, size, high)
        && s == sp.(overflow := sp.overflow.(current := s.overflow.current))
    else
      && InEmptyBlock(sp, s, r) && s.normal == sp.normal
      && (r.None? ==> s.overflow.current == None)
      && (r.Some? ==> Behind(s.overflow.current, r.value, size, LAST_OFFSET))
  }

  /** Where a medium object goes: the current block, as for a small one, and then an empty block. */
  lemma MediumPlaces(sp: Space, size: nat)
    requires Known(sp) && size >= MEDIUM_OBJECT
    ensures var (s, r) := SpaceAllocate(sp, size); MediumPlaced(sp, s, r, size)
  {
    var cur := sp.overflow.current;
    if cur.Some? && ScanForHole(sp.blocks[cur.value.block].lines, size, cur.value).Some? {
      MediumInHole(sp, size);
    } else {
      MediumElsewhere(sp, size);
    }
  }

  lemma MediumInHole(sp: Space, size: nat)
    requires Known(sp) && size >= MEDIUM_OBJECT && sp.overflow.current.Some?
    requires var c := sp.overflow.current.value; ScanForHole(sp.blocks[c.block].lines, size, c).Some?
    ensures var (s, r) := SpaceAllocate(sp, size); MediumPlaced(sp, s, r, size)
  {
    var c := sp.overflow.current.value;
    ScanNone(sp.blocks, c, size);
    FirstFit(sp.blocks[c.block].lines, size, c);
    var c' := ScanForHole(sp.blocks[c.block].lines, size, c).value;
    var (s, r) := SpaceAllocate(sp, size);
    hide FindHole, Takes, IsHole, NoRoomAt, ScanForHole, InEmptyBlock;
    assert Behind(s.overflow.current, r.value, size, c'.high);
    if c.high - c.low < size {
      assert InCurrentBlock(sp.blocks, c, size, r.value, c'.high);
    }
  }

  lemma MediumElsewhere(sp: Space, size: nat)
    requires Known(sp) && size >= MEDIUM_OBJECT
    requires sp.overflow.current.Some? ==>
      ScanForHole(sp.blocks[sp.overflow.current.value.block].lines, size, sp.overflow.current.value).None?
    ensures var (s, r) := SpaceAllocate(sp, size); MediumPlaced(sp, s, r, size)
  {
    if sp.overflow.current.Some? {
      ScanNone(sp.blocks, sp.overflow.current.value, size);
    }
    hide ScanForHole, FindHole, Takes;
    assert NoRoomAt(sp.blocks, sp.overflow.current, size);
    hide NoRoomAt;
  }

  // ---------------------------------------------------------------- one object behind the other

  /** The cursor of the allocator that serves objects of the size. */
  function CursorFor(sp: Space, size: nat): Option<Cursor> {
    if size < MEDIUM_OBJECT then sp.normal.current else sp.overflow.current
  }

  /**
    The cursor of the allocator that served a request lies right behind the object; a hole that the
    request fitted into is used on, to its end. The other allocator's cursor does not move.
   */
  lemma CursorBehind(sp: Space, size: nat)
    requires Known(sp)
    ensures var (s, r) := SpaceAllocate(sp, size);
      r.Some? ==>
        var o, c := r.value, CursorFor(s, size);
        && o.Immix? && c.Some? && c.value.block == o.block && c.value.low == o.offset + size
        && (CursorFor(sp, size).Some? && CursorFor(sp, size).value.high - CursorFor(sp, size).value.low >= size ==>
              c.value.high == CursorFor(sp, size).value.high && o.block == CursorFor(sp, size).value.block
              && o.offset == CursorFor(sp, size).value.low)
    ensures if size < MEDIUM_OBJECT then SpaceAllocate(sp, size).0.overflow == sp.overflow
            else SpaceAllocate(sp, size).0.normal == sp.normal
  {
    OthersKept(sp, size);
    hide NoRoomAt, NoneRoomy, InCurrentBlock, InRecyclable, InEmptyBlock, Known, SpaceAllocate;
    if size < MEDIUM_OBJECT {
      SmallPlaces(sp, size);
    } else {
      MediumPlaces(sp, size);
    }
  }

  lemma OthersKept(sp: Space, size: nat)
    requires Known(sp)
    ensures if size < MEDIUM_OBJECT then SpaceAllocate(sp, size).0.overflow == sp.overflow
            else SpaceAllocate(sp, size).0.normal == sp.normal
  {
    if size < MEDIUM_OBJECT {
      hide NormalAllocate;
      NormalKeepsOverflow(sp, size);
    } else {
      OverflowKeepsNormal(sp, size);
    }
  }

  lemma OverflowKeepsNormal(sp: Space, size: nat)
    requires Known(sp) && size >= MEDIUM_OBJECT
    ensures SpaceAllocate(sp, size).0.normal == sp.normal
  {
    hide NoRoomAt, InCurrentBlock, InEmptyBlock, Known, SpaceAllocate;
    MediumPlaces(sp, size);
  }

  /** So a second object of the same kind that fits lies right behind the first. */
  lemma SecondBehind(sp: Space, size: nat, size': nat)
    requires Known(sp) && (size < MEDIUM_OBJECT <==> size' < MEDIUM_OBJECT) && size < LARGE_OBJECT
    ensures var (s, r) := SpaceAllocate(sp, size);
      r.Some? ==>
        && r.value.Immix? && r.value.block in s.blocks && CursorFor(s, size).Some?
        && var s' := s.(blocks := EnterObject(s.blocks, r.value));
        Known(s') &&
        (CursorFor(s, size).value.high - (r.value.offset + size) >= size' ==>
           SpaceAllocate(s', size').1 == Some(Immix(r.value.block, r.value.offset + size)))
  {
    CursorBehind(sp, size);
    AllocatedRecord(sp, size);
    var (s, r) := SpaceAllocate(sp, size);
    if r.Some? {
      hide SpaceAllocate, EnterObject, Known;
      var s' := s.(blocks := EnterObject(s.blocks, r.value));
      CursorBehind(s', size');
      if CursorFor(s, size).value.high - (r.value.offset + size) >= size' {
        FitsIsServed(s', size');
      }
    }
  }

  lemma AllocatedRecord(sp: Space, size: nat)
    requires Known(sp) && size <= LAST_OFFSET - LINE_SIZE
    ensures var (s, r) := SpaceAllocate(sp, size);
      r.Some? ==> r.value.Immix? && r.value.block in s.blocks && Known(s.(blocks := EnterObject(s.blocks, r.value)))
  {
    hide NormalSeek, OverflowSeek, EnterObject, Known;
    A.NormalAllocateFrame(sp, size);
    A.OverflowAllocateFrame(sp, size);
    var (s, r) := SpaceAllocate(sp, size);
    if r.Some? {
      AllocatedKnown(sp, size);
      EnterKnown(s, r.value);
    }
  }

  lemma FitsIsServed(sp: Space, size: nat)
    requires Known(sp)
    requires var c := CursorFor(sp, size); c.Some? && c.value.high - c.value.low >= size
    ensures SpaceAllocate(sp, size).1.Some?
  {
    hide NoRoomAt, NoneRoomy, InCurrentBlock, InRecyclable, InEmptyBlock, Known, SpaceAllocate;
    if size < MEDIUM_OBJECT {
      SmallPlaces(sp, size);
    } else {
      MediumPlaces(sp, size);
    }
  }

  // ---------------------------------------------------------------- the evacuation allocator

  /** The places of a copy: the current block, else the last block of the headroom, else none. */
  ghost predicate EvacPlaced(evac: Evac, blocks: Blocks, e: Evac, r: Option<Ref>, size: nat)
    requires EvacKnown(evac, blocks)
  {
    var cur, n := evac.current, |evac.headroom|;
    if cur.Some? && cur.value.high - cur.value.low >= size then
      && r == Some(Immix(cur.value.block, cur.value.low))
      && e == evac.(current := Some(Cursor(cur.value.block, cur.value.low + size, cur.value.high)))
    else if !NoRoomAt(blocks, cur, size) then
      && cur.Some? && r.Some? && e == evac.(current := e.current)
      && exists high :: InCurrentBlock(blocks, cur.value, size, r.value, high) && Behind(e.current, r.value, size, high)
    else
      && e.unavailable == evac.unavailable + (if cur.Some? then [cur.value.block] else [])
      && if n > 0 then
        && r == Some(Immix(evac.headroom[n - 1], LINE_SIZE)) && e.headroom == evac.headroom[..n - 1]
        && Behind(e.current, r.value, size, LAST_OFFSET)
      else
        r == None && e.headroom == [] && e.current == None
  }

  /** Where a copy goes, and that the next will lie right behind it. */
  lemma EvacPlaces(evac: Evac, blocks: Blocks, size: nat)
    requires EvacKnown(evac, blocks)
    ensures var (e, _, r) := EvacAllocate(evac, blocks, size); EvacPlaced(evac, blocks, e, r, size)
  {
    var cur := evac.current;
    if cur.Some? {
      var c := cur.value;
      ScanNone(blocks, c, size);
      FirstFit(blocks[c.block].lines, size, c);
      hide FindHole, Takes, IsHole, NoRoomAt;
      var c' := ScanForHole(blocks[c.block].lines, size, c);
      if c'.Some? {
        EvacInHole(evac, blocks, size, c'.value);
      } else {
        hide ScanForHole;
      }
    }
  }

  lemma EvacInHole(evac: Evac, blocks: Blocks, size: nat, c': Cursor)
    requires EvacKnown(evac, blocks) && evac.current.Some?
    requires var c := evac.current.value;
      && ScanForHole(blocks[c.block].lines, size, c) == Some(c') && !NoRoomAt(blocks, Some(c), size)
      && (c.high - c.low >= size ==> c' == c)
      && (c.high - c.low < size ==> InCurrentBlock(blocks, c, size, Immix(c'.block, c'.low), c'.high))
    ensures var (e, _, r) := EvacAllocate(evac, blocks, size); EvacPlaced(evac, blocks, e, r, size)
  {
    hide ScanForHole, NoRoomAt, InCurrentBlock;
    var (e, _, r) := EvacAllocate(evac, blocks, size);
    assert Behind(e.current, r.value, size, c'.high);
  }
}
