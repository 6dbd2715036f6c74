/**
  The steps of the tracing collection (src/spaces/collector/immix_collector.rs and `maybe_evacuate`
  in src/spaces/immix_space/mod.rs) as functions on states.
 */
module TraceModel {
  import opened Constants
  import opened Wrappers
  import opened Objects
  import opened BlockLines
  import opened BlockTables
  import opened AllocatorModel

  /** What the trace reads and writes: memory, records, the evacuation allocator, and the queue. */
  datatype Tr = Tr(hs: Headers, bs: Bodies, blocks: Blocks, evac: Evac, queue: seq<Ref>)

  /** Where an object is now: behind its forwarding pointer, if it has one. */
  function Img(bs: Bodies, a: Ref): Ref {
    if a in bs && bs[a].Forwarded? then bs[a].target else a
  }

  function MapSlots(bs: Bodies, ms: seq<Slot>): (r: seq<Slot>)
    ensures |r| == |ms|
    ensures forall i :: 0 <= i < |ms| ==> r[i] == if ms[i].Some? then Some(Img(bs, ms[i].value)) else None
  {
    seq(|ms|, i requires 0 <= i < |ms| => if ms[i].Some? then Some(Img(bs, ms[i].value)) else None)
  }

  predicate NonNullFirst(ms: seq<Slot>) {
    forall i, j :: 0 <= i < j < |ms| && ms[j].Some? ==> ms[i].Some?
  }

  /**
    The headroom is unused memory: its blocks are distinct and empty, and behind the cursor of the
    current block, whose hole reaches to the block's end, there is no object.
   */
  predicate EvacFresh(evac: Evac, blocks: Blocks, keys: set<Ref>) {
    && EvacKnown(evac, blocks)
    && (forall i, j :: 0 <= i < j < |evac.headroom| ==> evac.headroom[i] != evac.headroom[j])
    && (forall b :: b in evac.headroom ==> blocks[b].objectMap == {})
    && (forall k :: k in keys && k.Immix? ==> k.block !in evac.headroom)
    && (evac.current.Some? ==>
      && var c := evac.current.value;
      && c.high == LAST_OFFSET && c.block !in evac.headroom && blocks[c.block].inUse
      && forall k :: k in keys && k.Immix? && k.block == c.block ==> k.offset < c.low)
  }

  lemma EvacFreshKnown(evac: Evac, blocks: Blocks, keys: set<Ref>)
    requires EvacFresh(evac, blocks, keys)
    ensures EvacKnown(evac, blocks)
  {
  }

  predicate Exhausted(evac: Evac) {
    evac.current.None? && evac.headroom == []
  }

  /** The allocation either hands out an unused address, or fails and leaves the allocator exhausted for good. */
  lemma EvacAllocateAddress(evac: Evac, blocks: Blocks, keys: set<Ref>, size: nat)
    requires EvacFresh(evac, blocks, keys) && 0 < size <= LAST_OFFSET - LINE_SIZE
    ensures var (e, bl, r) := EvacAllocate(evac, blocks, size);
      && (forall b :: b in blocks ==> bl[b] == blocks[b] || (b in evac.headroom && bl[b] == blocks[b].(inUse := true)))
      && (r.None? ==> Exhausted(e) && bl == blocks && EvacFresh(e, bl, keys))
      && (Exhausted(evac) ==> r.None? && e == evac && bl == blocks)
      && (r.Some? ==>
        && var n := r.value;
        && n.Immix? && n !in keys && InSpace(bl, n) && LINE_SIZE <= n.offset && n.offset + size <= LAST_OFFSET
        && EvacFresh(e, bl, keys + {n}))
  {
    hide ScanForHole, FindHole, EvacSeek;
    EvacSeekCases(evac, blocks, keys, size);
    var (e, bl) := EvacSeek(evac, blocks, size);
    if evac.headroom != [] {
      HeadroomPop(evac, blocks, keys);
    }
  }

  /** No byte of one object is a byte of the other. */
  predicate Apart(o: Ref, size: nat, p: Ref, size': nat) {
    o.Immix? && p.Immix? && o.block == p.block ==> o.offset + size <= p.offset || p.offset + size' <= o.offset
  }

  /** The objects in the cursor's block, with the sizes `extents`, end at or before the cursor. */
  predicate EvacBelow(evac: Evac, extents: map<Ref, nat>) {
    evac.current.Some? ==>
      forall k ::
        k in extents && k.Immix? && k.block == evac.current.value.block ==>
          k.offset + extents[k] <= evac.current.value.low
  }

  /**
    An allocation from the headroom hands out bytes that no object uses, whole inside of a block and
    behind its first line, and the next one will lie behind them; or it fails, and then it fails for good.
   */
  lemma EvacAllocateFresh(evac: Evac, blocks: Blocks, extents: map<Ref, nat>, size: nat)
    requires EvacFresh(evac, blocks, extents.Keys) && EvacBelow(evac, extents) && 0 < size <= LAST_OFFSET - LINE_SIZE
    ensures var (e, bl, r) := EvacAllocate(evac, blocks, size);
      && (forall b :: b in blocks ==> bl[b] == blocks[b] || (b in evac.headroom && bl[b] == blocks[b].(inUse := true)))
      && (r.None? ==> Exhausted(e) && bl == blocks && EvacFresh(e, bl, extents.Keys) && EvacBelow(e, extents))
      && (Exhausted(evac) ==> r.None? && e == evac && bl == blocks)
      && (r.Some? ==>
        && var n := r.value;
        && n.Immix? && n !in extents && InSpace(bl, n) && LINE_SIZE <= n.offset && n.offset + size <= LAST_OFFSET
        && (forall k :: k in extents ==> Apart(n, size, k, extents[k]))
        && EvacFresh(e, bl, extents.Keys + {n}) && EvacBelow(e, extents[n := size]))
  {
    hide ScanForHole, FindHole, EvacFresh, InSpace;
    EvacAllocateAddress(evac, blocks, extents.Keys, size);
    EvacBump(evac, blocks, extents, size);
  }

  /** Where the cursor is after the allocation. */
  lemma EvacBump(evac: Evac, blocks: Blocks, extents: map<Ref, nat>, size: nat)
    requires EvacFresh(evac, blocks, extents.Keys) && EvacBelow(evac, extents)
    ensures var (e, bl, r) := EvacAllocate(evac, blocks, size);
      && (r.None? ==> e.current.None?)
      && (r.Some? ==>
        && var n := r.value;
        && n.Immix?
        && (forall k :: k in extents && k.Immix? && k.block == n.block ==> k.offset + extents[k] <= n.offset)
        && EvacBelow(e, extents[n := size]))
  {
    hide ScanForHole, FindHole;
    EvacSeekCases(evac, blocks, extents.Keys, size);
    if evac.headroom != [] {
      HeadroomPop(evac, blocks, extents.Keys);
    }
  }

  /** Since its hole reaches to the block's end, the current block either has room or is exhausted. */
  lemma EvacSeekCases(evac: Evac, blocks: Blocks, keys: set<Ref>, size: nat)
    requires EvacFresh(evac, blocks, keys)
    ensures var room := evac.current.Some? && LAST_OFFSET - evac.current.value.low >= size;
      var (e, bl) := EvacSeek(evac, blocks, size);
      && (room ==> e == evac && bl == blocks)
      && (!room && evac.headroom == [] ==> e.current == None && e.headroom == [] && bl == blocks)
      && (Exhausted(evac) ==> e == evac)
      && (!room && evac.headroom != [] ==>
        && e.headroom == InitList(evac.headroom) && e.current == Some(WholeBlock(LastOf(evac.headroom)))
        && bl == SetInUse(blocks, LastOf(evac.headroom)))
  {
    if evac.current.Some? {
      assert FindHole(blocks[evac.current.value.block].lines, LAST_OFFSET).None?;
    }
  }

  lemma HeadroomPop(evac: Evac, blocks: Blocks, keys: set<Ref>)
    requires EvacFresh(evac, blocks, keys) && evac.headroom != []
    ensures var b, rest := LastOf(evac.headroom), InitList(evac.headroom);
      && b in blocks && b !in rest && (forall x :: x in rest ==> x in evac.headroom && x != b)
      && forall k :: k in keys && k.Immix? ==> k.block != b
  {
    assert evac.headroom == InitList(evac.headroom) + [LastOf(evac.headroom)];
  }

  /** Whether the object itself and its block allow it to be moved. */
  predicate Movable(hs: Headers, blocks: Blocks, o: Ref) {
    o in hs && !hs[o].pinned && o.Immix? && o.block in blocks && blocks[o.block].candidate
  }

  /**
    Moves an object if it is not pinned, lies in a candidate block, and there is headroom: header and
    contents are copied, and the old place is left with a forwarding pointer.
   */
  function MaybeEvacuate(t: Tr, o: Ref): (r: (Tr, Option<Ref>))
    requires o in t.hs && o in t.bs && t.bs[o].Plain? && EvacKnown(t.evac, t.blocks)
  {
    if !Movable(t.hs, t.blocks, o) then (t, None)
    else
      var (e, blocks, n) := EvacAllocate(t.evac, t.blocks, ObjectSize(t.bs[o].size));
      match n
      case None => (t.(evac := e, blocks := blocks), None)
      case Some(new') =>
        (t.(hs := t.hs[new' := t.hs[o]], bs := t.bs[new' := t.bs[o]][o := Forwarded(new')],
            evac := e, blocks := SetGc(blocks, o)), Some(new'))
  }

  function SetMember(t: Tr, o: Ref, num: nat, target: Ref): Tr
    requires o in t.bs && t.bs[o].Plain? && num < |t.bs[o].members|
  {
    t.(bs := t.bs[o := t.bs[o].(members := t.bs[o].members[num := Some(target)])])
  }

  /** A newly marked object becomes valid and counted. */
  function MarkObject(t: Tr, o: Ref, next: bool): Tr
    requires o in t.hs && o in t.bs && t.bs[o].Plain? && (o.Immix? ==> o.block in t.blocks)
  {
    var blocks := if o.Immix? then IncLines(SetGc(t.blocks, o), o, t.bs[o].size) else t.blocks;
    t.(hs := t.hs[o := t.hs[o].(marked := next)], blocks := blocks)
  }

  /**
    One child of `o`, the `num`-th that is not null: a forwarded child's pointer is updated; an unmarked
    child may be moved, and is queued at its present place.
   */
  function TraceChild(t: Tr, o: Ref, num: nat, child: Ref, next: bool, evacOn: bool): Tr
    requires o in t.hs && o in t.bs && t.bs[o].Plain? && num < |t.bs[o].members| && t.hs[o].marked == next
    requires child in t.hs && child in t.bs && EvacFresh(t.evac, t.blocks, t.bs.Keys)
    requires t.bs[child].Plain? && child.Immix? ==> 0 < ObjectSize(t.bs[child].size) <= LAST_OFFSET - LINE_SIZE
  {
    if t.bs[child].Forwarded? then SetMember(t, o, num, t.bs[child].target)
    else if t.hs[child].marked == next then t
    else if evacOn && IsGc(t.blocks, child) then
      EvacAllocateAddress(t.evac, t.blocks, t.bs.Keys, ObjectSize(t.bs[child].size));
      var (t', moved) := MaybeEvacuate(t, child);
      match moved
      case None => t'.(queue := t'.queue + [child])
      case Some(new') =>
        var t'' := SetMember(t', o, num, new');
        t''.(queue := t''.queue + [new'])
    else t.(queue := t.queue + [child])
  }
}
