/** The invariant of the whole collector, step by step. */
module SpacesProofs {
  import opened Constants
  import opened Wrappers
  import opened Objects
  import opened BlockLines
  import opened BlockInfos
  import opened BlockTables
  import opened Graph
  import opened RcModel
  import opened RcProofs
  import opened RcTheorems
  import opened AllocatorModel
  import opened AllocatorProofs
  import opened MutatorProofs
  import opened SpacesModel

  // ---------------------------------------------------------------- frames

  /** Pins and marks play no part in an idle heap. */
  ghost predicate SameCounts(hs: Headers, hs': Headers) {
    && hs'.Keys == hs.Keys
    && forall o ::
      o in hs ==> hs'[o].count == hs[o].count && hs'[o].logged == hs[o].logged && hs'[o].isNew == hs[o].isNew
  }

  lemma HeadersFrame(g: Rc, hs': Headers, exact: bool)
    requires Idle(g, exact) && SameCounts(g.hs, hs')
    ensures Idle(g.(hs := hs'), exact)
  {
    hide *;
    IdleParts(g, exact);
    HeadersStructure(g, hs');
    HeadersCounts(g, hs', exact);
    IdleFrom(g.(hs := hs'), exact);
  }

  lemma HeadersStructure(g: Rc, hs': Headers)
    requires Wf(g) && ModsOk(g) && HeadersOk(g) && ModsLogged(g) && MapsExact(g) && NewExact(g) && SameCounts(g.hs, hs')
    ensures var r := g.(hs := hs');
      && Wf(r) && ModsOk(r) && HeadersOk(r) && ModsLogged(r) && MapsExact(r) && NewExact(r)
      && OldSet(r) == OldSet(g)
  {
    hide *;
    HeadersBuffers(g, hs');
    HeadersMaps(g, hs');
  }

  lemma HeadersBuffers(g: Rc, hs': Headers)
    requires Wf(g) && ModsOk(g) && HeadersOk(g) && ModsLogged(g) && SameCounts(g.hs, hs')
    ensures var r := g.(hs := hs'); Wf(r) && ModsOk(r) && HeadersOk(r) && ModsLogged(r)
  {
    hide InSpace, Closed, NoDup, Fits;
    var r := g.(hs := hs');
    forall x | x in r.hs
      ensures HeaderOk(r, x)
    {
      assert HeaderOk(g, x);
    }
  }

  lemma HeadersMaps(g: Rc, hs': Headers)
    requires MapsExact(g) && NewExact(g) && SameCounts(g.hs, hs')
    ensures var r := g.(hs := hs'); MapsExact(r) && NewExact(r) && OldSet(r) == OldSet(g)
  {
    hide IsGc, IsNewObject;
  }

  lemma HeadersCounts(g: Rc, hs': Headers, exact: bool)
    requires Wf(g) && Counts(g.hs, multiset{}, Debt(g), exact) && SameCounts(g.hs, hs') && Wf(g.(hs := hs'))
    ensures var r := g.(hs := hs'); Counts(r.hs, multiset{}, Debt(r), exact)
  {
    hide Wf, InRefs;
    assert Contributing(g.(hs := hs')) == Contributing(g);
  }

  /** Nor do candidates and hole counts. */
  ghost predicate SameMapsAndLines(blocks: Blocks, blocks': Blocks) {
    && blocks'.Keys == blocks.Keys
    && forall b :: b in blocks ==>
      && blocks'[b].lines == blocks[b].lines && blocks'[b].objectMap == blocks[b].objectMap
      && blocks'[b].newObjects == blocks[b].newObjects && blocks'[b].inUse == blocks[b].inUse
  }

  lemma BlocksFrame(g: Rc, blocks': Blocks, exact: bool)
    requires Idle(g, exact)
    requires forall o :: IsGc(blocks', o) == IsGc(g.blocks, o)
    requires forall o :: IsNewObject(blocks', o) == IsNewObject(g.blocks, o)
    requires forall o :: o in g.bs && InSpace(g.blocks, o) ==> InSpace(blocks', o)
    requires blocks'.Keys == g.blocks.Keys && forall b :: b in blocks' ==> blocks'[b].lines == g.blocks[b].lines
    ensures Idle(g.(blocks := blocks'), exact)
  {
    hide *;
    IdleParts(g, exact);
    RecordsFrame(g, blocks', exact);
    OldKeys(g);
    LinesFrame(g.blocks, blocks', g.bs, g.bs, OldSet(g));
    IdleFrom(g.(blocks := blocks'), exact);
  }

  lemma OldKeys(g: Rc)
    requires Wf(g)
    ensures OldSet(g) <= g.bs.Keys && forall o :: o in OldSet(g) ==> SameExtent(g.bs[o], g.bs[o])
  {
    hide IsGc;
    WfKeys(g);
  }

  lemma SameMapsMeans(blocks: Blocks, blocks': Blocks)
    requires SameMapsAndLines(blocks, blocks')
    ensures forall o :: IsGc(blocks', o) == IsGc(blocks, o)
    ensures forall o :: IsNewObject(blocks', o) == IsNewObject(blocks, o)
    ensures forall o :: InSpace(blocks, o) == InSpace(blocks', o)
  {
  }

  /** The bytes do not depend on what members hold. */
  lemma SpaceFrame(sp: Space, bs: Bodies, bs': Bodies, all: seq<nat>)
    requires SpaceInv(sp, bs, all) && bs'.Keys == bs.Keys
    requires forall o :: o in bs ==> SameExtent(bs[o], bs'[o])
    ensures SpaceInv(sp, bs', all)
  {
    hide Stock, Covers, Fits, InSpace, IsNewObject;
    assert forall o, b :: Here(bs', o, b) == Here(bs, o, b);
    assert OptCursorOk(sp.blocks, bs', sp.normal.current);
    assert OptCursorOk(sp.blocks, bs', sp.overflow.current);
  }

  // ---------------------------------------------------------------- the invariant

  ghost predicate MarksAgree(w: World) {
    && w.sp.mark == w.mark && w.los.mark == w.mark
    && forall o {:trigger w.hs[o]} :: o in w.hs ==> w.hs[o].marked == w.mark && !w.hs[o].pinned
  }

  ghost predicate MutatorOk(w: World) {
    && w.roots <= w.hs.Keys
    && forall o :: o in w.raw ==> o in w.hs && w.hs[o].isNew
  }

  ghost predicate FirstLinesFree(blocks: Blocks) {
    forall b :: b in blocks ==> blocks[b].lines[0] == 0
  }

  /** A block that is not in use has an empty record. */
  ghost predicate UnusedEmpty(blocks: Blocks) {
    forall b :: b in blocks ==> blocks[b].inUse || blocks[b] == EmptyBlock()
  }

  ghost predicate HeadroomOk(sp: Space) {
    |sp.evac.headroom| <= EVAC_HEADROOM
  }

  /** What holds between all steps; `exact` as long as no cycles have been dropped by a trace. */
  ghost predicate Inv(w: World, exact: bool) {
    && Idle(GraphOf(w), exact)
    && SpaceInv(w.sp, GraphOf(w).bs, w.all)
    && MarksAgree(w)
    && MutatorOk(w)
    && FirstLinesFree(w.sp.blocks) && UnusedEmpty(w.sp.blocks)
    && HeadroomOk(w.sp)
    && w.all == []
  }

  lemma EmptyIdle(g: Rc)
    requires g == Rc(map[], map[], map[], Los({}, [], [], false), [], [], [], false)
    ensures Idle(g, true)
  {
    hide InRefs;
    assert Contributing(g) == {} && OldSet(g) == {};
    InRefsNone(g.bs);
  }

  lemma EmptySpace(sp: Space, bs: Bodies)
    requires sp.blocks == map[] && bs == map[] && sp.ba.free == [] && sp.normal == Normal([], [], None)
    requires sp.overflow == Overflow([], None) && sp.evac == Evac([], [], None) && sp.ba.data % BLOCK_SIZE == 0
    ensures SpaceInv(sp, bs, [])
  {
    assert HeapOk(sp.blocks, bs);
    hide HeapOk;
    assert Stock(sp, []) == multiset{};
  }

  /** The empty heap is in order, if its first block is aligned. */
  lemma EmptyInv(data: nat, bound: nat)
    requires data % BLOCK_SIZE == 0
    ensures Inv(Empty(data, bound), true)
  {
    hide Idle, SpaceInv;
    var w := Empty(data, bound);
    assert GraphOf(w) == Rc(map[], map[], map[], Los({}, [], [], false), [], [], [], false);
    EmptyIdle(GraphOf(w));
    EmptySpace(w.sp, GraphOf(w).bs);
  }

  // ---------------------------------------------------------------- what the mutator can do

  /**
    The references the mutator holds are valid, and so is every address it can come to by following
    members, whether the memory has an object there or not. So the filter for roots loses none of them.
   */
  lemma ReachIsValid(w: World, exact: bool)
    requires Inv(w, exact)
    ensures forall r :: r in w.roots ==> ValidObject(w, r)
    ensures forall r, o :: r in w.roots && Reaches(Masked(w.bs, w.raw), r, o) ==> ValidObject(w, o) && o in Reach(w)
    ensures Reach(w) <= w.hs.Keys && forall o :: o in Reach(w) ==> ValidObject(w, o)
  {
    hide IsGc, InRefs, LinesAtLeast, Counts, SpaceInv, IsNewObject, InSpace, Reaches;
    var bs := Masked(w.bs, w.raw);
    ReachableLeast(bs, w.roots, bs.Keys);
    forall r, o | r in w.roots && Reaches(bs, r, o)
      ensures o in bs
    {
      ReachesStays(bs, r, o, bs.Keys);
    }
  }

  lemma SetRootsKeeps(w: World, rs: set<Ref>, exact: bool)
    requires Inv(w, exact) && Contract(w, SetRoots(rs))
    ensures Inv(w.(roots := rs), exact)
  {
    hide Idle, SpaceInv, Reachable;
    ReachIsValid(w, exact);
    assert GraphOf(w.(roots := rs)) == GraphOf(w);
  }

  function WriteStep(w: World, o: Ref, i: nat, v: Slot): World
    requires o in w.bs && w.bs[o].Plain? && i < |w.bs[o].members|
  {
    w.(bs := w.bs[o := w.bs[o].(members := w.bs[o].members[i := v])])
  }

  lemma WriteKeeps(w: World, o: Ref, i: nat, v: Slot, exact: bool)
    requires Inv(w, exact) && Contract(w, Write(o, i, v))
    ensures Inv(WriteStep(w, o, i, v), exact)
  {
    hide Idle, SpaceInv, Reachable;
    WrittenKnown(w, o, i, v, exact);
    var w', g := WriteStep(w, o, i, v), GraphOf(w);
    var ms := w.bs[o].members[i := v];
    assert GraphOf(w') == g.(bs := g.bs[o := Plain(g.bs[o].size, ms)]);
    MembersMayChange(g, o, ms, exact);
    SpaceFrame(w.sp, g.bs, GraphOf(w').bs, w.all);
  }

  /** After a write the object's members are still objects. */
  lemma WrittenKnown(w: World, o: Ref, i: nat, v: Slot, exact: bool)
    requires Inv(w, exact) && Contract(w, Write(o, i, v))
    ensures forall c :: Some(c) in w.bs[o].members[i := v] ==> c in GraphOf(w).bs
  {
    hide Idle, SpaceInv, Reachable;
    ReachIsValid(w, exact);
    forall c | Some(c) in w.bs[o].members[i := v]
      ensures c in GraphOf(w).bs
    {
      SlotKnown(w, o, c, exact);
    }
  }

  /** The members of an initialised object are objects. */
  lemma SlotKnown(w: World, o: Ref, c: Ref, exact: bool)
    requires Inv(w, exact) && o in w.bs && o !in w.raw && w.bs[o].Plain?
    ensures Some(c) in w.bs[o].members ==> c in w.hs
    ensures w.hs.Keys == w.bs.Keys
  {
    hide IsGc, InRefs, LinesAtLeast, Counts, SpaceInv, IsNewObject, InSpace;
    var bs := Masked(w.bs, w.raw);
    NonNullMember(bs[o].members, c);
  }

  function InitStep(w: World, o: Ref, ms: seq<Slot>): World
    requires o in w.bs && w.bs[o].Plain?
  {
    w.(bs := w.bs[o := w.bs[o].(members := ms)], raw := w.raw - {o})
  }

  lemma InitKeeps(w: World, o: Ref, ms: seq<Slot>, exact: bool)
    requires Inv(w, exact) && Contract(w, Initialise(o, ms))
    ensures Inv(InitStep(w, o, ms), exact)
  {
    hide Idle, SpaceInv, Reachable;
    var w', g := InitStep(w, o, ms), GraphOf(w);
    ReachIsValid(w, exact);
    assert w.hs.Keys == w.bs.Keys by { IdleKeys(g, exact); }
    assert GraphOf(w') == g.(bs := g.bs[o := Plain(g.bs[o].size, ms)]);
    MembersMayChange(g, o, ms, exact);
    SpaceFrame(w.sp, g.bs, GraphOf(w').bs, w.all);
  }

  lemma IdleKeys(g: Rc, exact: bool)
    requires Idle(g, exact)
    ensures g.hs.Keys == g.bs.Keys && Wf(g)
  {
  }

  function BarrierStep(w: World, o: Ref): World
    requires o in w.hs && o in w.bs
  {
    var r := WriteBarrier(GraphOf(w).(bs := w.bs), o);
    w.(hs := r.hs, mods := r.mods, decs := r.decs)
  }

  lemma BarrierStepKeeps(w: World, o: Ref, exact: bool)
    requires Inv(w, exact) && Contract(w, Barrier(o)) && o in w.bs
    ensures Inv(BarrierStep(w, o), exact)
  {
    hide Idle, SpaceInv, Reachable;
    var g := GraphOf(w);
    BarrierKeepsExactlyIfOld(g, o, exact);
    assert GraphOf(BarrierStep(w, o)) == WriteBarrier(g, o);
  }

  // ---------------------------------------------------------------- allocation

  /** What a search for room leaves alone. */
  ghost predicate SoughtFrom(sp: Space, s: Space) {
    && OnlyEmptyTaken(sp.blocks, s.blocks) && s.evac == sp.evac && s.mark == sp.mark
  }

  lemma GetBlockSought(sp: Space, bs: Bodies, all: seq<nat>)
    requires SpaceInv(sp, bs, all) && GetBlock(sp).1.Some?
    ensures var (s, r) := GetBlock(sp);
      r.value in s.blocks && SoughtFrom(sp, s.(blocks := SetInUse(s.blocks, r.value)))
  {
    hide Stock, HeapOk, CursorOk, RecyclableOk, Here;
    GetBlockIsFresh(sp, bs, all);
    if sp.ba.free != [] {
      assert FreeOk(sp.blocks, bs, LastOf(sp.ba.free));
    }
  }

  lemma NormalSought(sp: Space, bs: Bodies, all: seq<nat>, size: nat)
    requires SpaceInv(sp, bs, all) && Known(sp)
    ensures SoughtFrom(sp, NormalSeek(sp, size))
  {
    hide SpaceInv, GetBlock, NormalRecycle, NormalScan;
    NormalScanKeeps(sp, bs, all, size);
    NormalScanStock(sp, size, all);
    var s1 := NormalScan(sp, size);
    if s1.normal.current.None? {
      NormalRecycleKeeps(s1, bs, all, size);
      NormalRecycleFrame(s1, size);
      var s2 := NormalRecycle(s1, size);
      if s2.normal.current.None? && GetBlock(s2).1.Some? {
        GetBlockSought(s2, bs, all);
      }
      GetBlockFails(s2);
    }
  }

  lemma OverflowSought(sp: Space, bs: Bodies, all: seq<nat>, size: nat)
    requires SpaceInv(sp, bs, all) && Known(sp)
    ensures SoughtFrom(sp, OverflowSeek(sp, size))
  {
    hide SpaceInv, GetBlock, ScanForHole, HeapOk, CursorOk, Stock, OptCursorOk;
    var s := sp;
    if sp.overflow.current.Some? {
      var c := sp.overflow.current.value;
      InvParts(sp, bs, all);
      OptCursorIs(sp.blocks, bs, sp.overflow.current);
      ScanKeepsCursor(sp.blocks, bs, size, c);
      var f := ScanForHole(sp.blocks[c.block].lines, size, c);
      s := if f.Some? then sp.(overflow := sp.overflow.(current := f))
           else sp.(overflow := sp.overflow.(current := None, unavailable := sp.overflow.unavailable + [c.block]));
      RetireOverflow(sp, all);
      OptCursorIs(sp.blocks, bs, None);
      Moved(sp, s, bs, all);
    }
    if s.overflow.current.None? && GetBlock(s).1.Some? {
      GetBlockSought(s, bs, all);
    }
    GetBlockFails(s);
  }

  lemma AllocateSought(sp: Space, bs: Bodies, all: seq<nat>, size: nat)
    requires SpaceInv(sp, bs, all) && Known(sp)
    ensures SoughtFrom(sp, SpaceAllocate(sp, size).0)
  {
    hide SpaceInv, NormalSeek, OverflowSeek;
    NormalSought(sp, bs, all, size);
    OverflowSought(sp, bs, all, size);
  }

  lemma LargeAllocKeeps(w: World, size: nat, junk: seq<Slot>, address: Ref, exact: bool)
    requires Inv(w, exact) && Contract(w, Alloc(size, junk, address)) && size >= LARGE_OBJECT && Known(w.sp)
    ensures Inv(AllocStep(w, size, junk, address).0, exact)
  {
    hide Idle, SpaceInv, Reachable, Contract, Known;
    var w' := AllocStep(w, size, junk, address).0;
    var g := GraphOf(w);
    IdleKeys(g, exact);
    assert address.Large? && address !in w.hs by { LargeFresh(w, size, junk, address); }
    var r := GraphOf(w');
    assert r.bs == g.bs[address := Plain(size, seq(|junk|, _ => None))];
    NewObjectKeeps(g, address, w.los.mark, size, |junk|, r, exact);
    LargeNotInBlocks(w.sp, g.bs, address, r.bs[address], w.all);
  }

  lemma LargeFresh(w: World, size: nat, junk: seq<Slot>, address: Ref)
    requires Contract(w, Alloc(size, junk, address)) && size >= LARGE_OBJECT
    ensures address.Large? && address !in w.hs
  {
  }

  lemma LargeNotInBlocks(sp: Space, bs: Bodies, address: Ref, body: Body, all: seq<nat>)
    requires SpaceInv(sp, bs, all) && address.Large?
    ensures SpaceInv(sp, bs[address := body], all)
  {
    hide Stock, Covers, Fits, InSpace, IsNewObject;
    var bs' := bs[address := body];
    assert forall o, b :: Here(bs', o, b) == Here(bs, o, b);
    assert OptCursorOk(sp.blocks, bs', sp.normal.current);
    assert OptCursorOk(sp.blocks, bs', sp.overflow.current);
  }

  /** The world with a fresh object at `o`, as far as its graph and its space are concerned. */
  function Placed(w: World, sp: Space, o: Ref, size: nat, junk: seq<Slot>): World
    requires o.Immix? && o.block in sp.blocks
  {
    w.(hs := w.hs[o := NewHeader(w.sp.mark)], bs := w.bs[o := Plain(size, junk)],
       sp := sp.(blocks := EnterObject(sp.blocks, o)), roots := w.roots + {o}, raw := w.raw + {o})
  }

  lemma PlacedKeeps(w: World, sp: Space, o: Ref, size: nat, junk: seq<Slot>, exact: bool)
    requires Inv(w, exact) && SoughtFrom(w.sp, sp) && o.Immix? && o.block in sp.blocks && o !in GraphOf(w).bs
    requires Fits(o.offset, size)
    requires SpaceInv(sp.(blocks := EnterObject(sp.blocks, o)), GraphOf(w).bs[o := Plain(size, NullSlots(|junk|))],
      w.all)
    ensures Inv(Placed(w, sp, o, size, junk), exact)
  {
    hide Idle, SpaceInv, EnterObject, IsGc, IsNewObject, InSpace, Fits, GraphOf, OnlyEmptyTaken;
    var w' := Placed(w, sp, o, size, junk);
    PlacedGraph(w, sp, o, size, junk, exact);
    PlacedInUse(sp, GraphOf(w).bs[o := Plain(size, NullSlots(|junk|))], w.all, o);
    EnterIs(sp.blocks, o);
    EmptyFirstLines(w.sp.blocks, sp.blocks);
  }

  lemma EmptyFirstLines(blocks: Blocks, blocks': Blocks)
    requires FirstLinesFree(blocks) && UnusedEmpty(blocks) && OnlyEmptyTaken(blocks, blocks')
    ensures FirstLinesFree(blocks') && UnusedEmpty(blocks')
  {
  }

  lemma PlacedGraph(w: World, sp: Space, o: Ref, size: nat, junk: seq<Slot>, exact: bool)
    requires Idle(GraphOf(w), exact) && OnlyEmptyTaken(w.sp.blocks, sp.blocks)
    requires o.Immix? && o.block in sp.blocks && o !in GraphOf(w).bs && Fits(o.offset, size)
    requires SpaceInv(sp.(blocks := EnterObject(sp.blocks, o)), GraphOf(w).bs[o := Plain(size, NullSlots(|junk|))],
      w.all)
    ensures Idle(GraphOf(Placed(w, sp, o, size, junk)), exact)
    ensures GraphOf(Placed(w, sp, o, size, junk)).bs == GraphOf(w).bs[o := Plain(size, NullSlots(|junk|))]
  {
    hide Idle, SpaceInv, EnterObject, IsGc, IsNewObject, InSpace, Fits, OnlyEmptyTaken;
    var g, r := GraphOf(w), GraphOf(Placed(w, sp, o, size, junk));
    EmptyTakenKeeps(g, sp.blocks, exact);
    IdleKeys(g, exact);
    assert r.bs == g.bs[o := Plain(size, NullSlots(|junk|))];
    PlacedInUse(sp, r.bs, w.all, o);
    EnterIs(sp.blocks, o);
    NewObjectKeeps(g.(blocks := sp.blocks), o, w.sp.mark, size, |junk|, r, exact);
  }

  lemma SmallAllocKeeps(w: World, size: nat, junk: seq<Slot>, address: Ref, exact: bool)
    requires Inv(w, exact) && 0 < size < LARGE_OBJECT && size % 8 == 0 && Known(w.sp)
    ensures Inv(AllocStep(w, size, junk, address).0, exact)
  {
    hide Known, SpaceAllocate, EnterObject, IsGc, IsNewObject, InSpace, Fits, Inv, SoughtFrom, NewHeader;
    var (sp, o) := SpaceAllocate(w.sp, size);
    var g := GraphOf(w);
    assert SpaceInv(w.sp, g.bs, w.all) by { InvSpace(w, exact); }
    hide SpaceInv;
    AllocationIsSafe(w.sp, g.bs, w.all, size, NullSlots(|junk|));
    AllocateSought(w.sp, g.bs, w.all, size);
    if o.None? {
      SoughtKeeps(w, sp, exact);
    } else {
      PlacedKeeps(w, sp, o.value, size, junk, exact);
    }
  }

  lemma InvSpace(w: World, exact: bool)
    requires Inv(w, exact)
    ensures SpaceInv(w.sp, GraphOf(w).bs, w.all)
  {
  }

  lemma SoughtKeeps(w: World, sp: Space, exact: bool)
    requires Inv(w, exact) && SoughtFrom(w.sp, sp) && SpaceInv(sp, GraphOf(w).bs, w.all)
    ensures Inv(w.(sp := sp), exact)
  {
    hide Idle, SpaceInv;
    EmptyTakenKeeps(GraphOf(w), sp.blocks, exact);
    assert GraphOf(w.(sp := sp)) == GraphOf(w).(blocks := sp.blocks);
  }

  lemma EnterIs(blocks: Blocks, o: Ref)
    requires o.Immix? && o.block in blocks
    ensures EnterObject(blocks, o) == SetGc(SetNew(blocks, o), o)
    ensures FirstLinesFree(blocks) ==> FirstLinesFree(EnterObject(blocks, o))
    ensures UnusedEmpty(blocks) && InSpace(blocks, o) ==> UnusedEmpty(EnterObject(blocks, o))
    ensures InSpace(EnterObject(blocks, o), o) == InSpace(blocks, o)
  {
  }

  lemma PlacedInUse(sp: Space, bs: Bodies, all: seq<nat>, o: Ref)
    requires o.Immix? && o.block in sp.blocks && o in bs
    requires SpaceInv(sp.(blocks := EnterObject(sp.blocks, o)), bs, all)
    ensures InSpace(sp.blocks, o)
  {
    hide Stock, Covers, Fits, IsNewObject;
  }
}
