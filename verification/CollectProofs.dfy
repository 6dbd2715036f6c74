/** A whole collection keeps the invariant, and keeps everything the mutator can reach. */
module CollectProofs {
  import opened Constants
  import opened Wrappers
  import opened Objects
  import opened BlockLines
  import opened BlockInfos
  import opened BlockTables
  import opened Graph
  import opened RcModel
  import opened RcProofs
  import opened RcTheorems
  import opened AllocatorModel
  import opened AllocatorProofs
  import opened TraceTheorems
  import opened SweepModel
  import opened SpacesModel
  import opened SpacesProofs

  // ---------------------------------------------------------------- gathering the blocks

  lemma CursorBlockBag(c: Option<Cursor>)
    ensures multiset(CursorBlock(c)) == CursorBag(c)
  {
  }

  lemma GatheredBag(sp: Space)
    ensures multiset(GetAllBlocks(sp)) ==
      multiset(sp.normal.unavailable) + multiset(sp.normal.recyclable) + CursorBag(sp.normal.current)
      + multiset(sp.overflow.unavailable) + CursorBag(sp.overflow.current)
      + multiset(sp.evac.unavailable) + CursorBag(sp.evac.current)
  {
    hide CursorBlock, CursorBag;
    CursorBlockBag(sp.normal.current);
    CursorBlockBag(sp.overflow.current);
    CursorBlockBag(sp.evac.current);
  }

  /** Draining the allocators moves their blocks to the collector. */
  lemma GatherKeepsStock(sp: Space, all: seq<nat>)
    ensures Stock(Drained(sp), all + GetAllBlocks(sp)) == Stock(sp, all)
  {
    hide GetAllBlocks;
    GatheredBag(sp);
    assert multiset(all + GetAllBlocks(sp)) == multiset(all) + multiset(GetAllBlocks(sp));
  }

  /** A block the collector does not get hold of is on a free list. */
  lemma OthersAreFree(sp: Space, bs: Bodies, all: seq<nat>, b: nat)
    requires SpaceInv(sp, bs, all) && b in sp.blocks && b !in all + GetAllBlocks(sp)
    ensures FreeOk(sp.blocks, bs, b)
  {
    hide HeapOk, FreeOk, RecyclableOk, OptCursorOk, GetAllBlocks;
    GatherKeepsStock(sp, all);
    assert b in Stock(sp, all);
    assert b in multiset(sp.ba.free) + multiset(sp.evac.headroom) + multiset(all + GetAllBlocks(sp));
  }

  lemma DrainedStock(sp: Space, every: seq<nat>)
    ensures Stock(Drained(sp), every) == multiset(sp.ba.free) + multiset(sp.evac.headroom) + multiset(every)
  {
  }

  lemma GatheredOnce(sp: Space, all: seq<nat>, b: nat)
    requires Conserved(sp, all) && b in all + GetAllBlocks(sp)
    ensures b in sp.blocks && b !in sp.ba.free && b !in sp.evac.headroom
  {
    hide GetAllBlocks, Stock, Drained;
    var every := all + GetAllBlocks(sp);
    GatherKeepsStock(sp, all);
    DrainedStock(sp, every);
    var f: multiset<nat>, h: multiset<nat>, e: multiset<nat> :=
      multiset(sp.ba.free), multiset(sp.evac.headroom), multiset(every);
    assert e[b] >= 1;
    assert (f + h + e)[b] == f[b] + h[b] + e[b];
    assert (f + h + e)[b] <= 1;
    assert b in sp.ba.free ==> f[b] >= 1;
    assert b in sp.evac.headroom ==> h[b] >= 1;
    assert b in f + h + e;
  }

  lemma GatheredKnown(sp: Space, bs: Bodies, all: seq<nat>)
    requires SpaceInv(sp, bs, all)
    ensures forall b :: b in all + GetAllBlocks(sp) ==> b in sp.blocks && b !in sp.ba.free && b !in sp.evac.headroom
  {
    hide HeapOk, ListsOk, OptCursorOk, GetAllBlocks, Conserved;
    forall b | b in all + GetAllBlocks(sp)
      ensures b in sp.blocks && b !in sp.ba.free && b !in sp.evac.headroom
    {
      GatheredOnce(sp, all, b);
    }
  }

  // ---------------------------------------------------------------- the start

  function Candidates(w: World, threshold: Option<nat>): Blocks {
    var all := w.all + GetAllBlocks(w.sp);
    if threshold.Some? then OnBlocks(w.sp.blocks, all, b => MarkCandidate(b, threshold.value)) else w.sp.blocks
  }

  /** The state before the new objects leave the object maps. */
  function Pinned(w: World, found: seq<Ref>, threshold: Option<nat>): Rc {
    GraphOf(w).(hs := SetPins(w.hs, found, true), blocks := Candidates(w, threshold))
  }

  lemma RcStartIs(w: World, found: seq<Ref>, threshold: Option<nat>)
    ensures var all := w.all + GetAllBlocks(w.sp);
      RcStart(w, found, threshold) ==
      Pinned(w, found, threshold).(blocks := OnBlocks(Candidates(w, threshold), all, RemoveNew))
  {
  }

  lemma PinnedIdle(w: World, found: seq<Ref>, threshold: Option<nat>, exact: bool)
    requires Inv(w, exact)
    ensures Idle(Pinned(w, found, threshold), exact)
  {
    hide Idle, SpaceInv, GetAllBlocks;
    var g := GraphOf(w);
    var hs := SetPins(w.hs, found, true);
    HeadersFrame(g, hs, exact);
    assert SameMapsAndLines(w.sp.blocks, Candidates(w, threshold));
    SameMapsMeans(w.sp.blocks, Candidates(w, threshold));
    BlocksFrame(g.(hs := hs), Candidates(w, threshold), exact);
  }

  lemma NewAreRemoved(w: World, found: seq<Ref>, threshold: Option<nat>, exact: bool)
    requires Inv(w, exact)
    ensures var all := w.all + GetAllBlocks(w.sp);
      NewRemoved(Candidates(w, threshold), OnBlocks(Candidates(w, threshold), all, RemoveNew))
  {
    hide Idle, SpaceInv, GetAllBlocks, MarksAgree, MutatorOk, IsGc, IsNewObject;
    var all := w.all + GetAllBlocks(w.sp);
    var before := Candidates(w, threshold);
    forall b | b in before && b !in all
      ensures before[b].newObjects == {}
    {
      OthersAreFree(w.sp, GraphOf(w).bs, w.all, b);
      FreeIsEmpty(w.sp.blocks, GraphOf(w).bs, b);
    }
    RemovedFrom(before, all);
  }

  lemma FreeIsEmpty(blocks: Blocks, bs: Bodies, b: nat)
    requires FreeOk(blocks, bs, b)
    ensures b in blocks && blocks[b] == EmptyBlock()
  {
  }

  lemma RemovedFrom(blocks: Blocks, all: seq<nat>)
    requires forall b :: b in blocks && b !in all ==> blocks[b].newObjects == {}
    ensures NewRemoved(blocks, OnBlocks(blocks, all, RemoveNew))
  {
    var after := OnBlocks(blocks, all, RemoveNew);
    forall o
      ensures IsGc(after, o) <==> IsGc(blocks, o) && !IsNewObject(blocks, o)
      ensures !IsNewObject(after, o)
    {
    }
  }

  lemma FoundKnown(w: World, found: seq<Ref>, exact: bool)
    requires Inv(w, exact) && forall o :: o in found ==> IsGc(w.sp.blocks, o) || o in w.los.objects
    ensures forall o :: o in found ==> o in w.hs && o in w.bs
  {
    hide IsGc, InRefs, LinesAtLeast, Counts, SpaceInv, IsNewObject, InSpace;
    assert w.hs.Keys == GraphOf(w).bs.Keys;
  }

  // ---------------------------------------------------------------- between the collectors and the sweep

  /** The state the collectors hand to the sweep. */
  ghost predicate Settled(w: World, g: Rc, found: seq<Ref>, mark: bool, exact: bool) {
    && Collected(g, found, exact)
    && g.blocks.Keys == w.sp.blocks.Keys
    && (forall b :: b in g.blocks ==> g.blocks[b].newObjects == {})
    && FirstLinesFree(g.blocks) && UnusedEmpty(g.blocks)
    && BytesDisjoint(g.bs)
    && (forall b :: b in w.sp.ba.free || b in w.sp.evac.headroom ==> FreeOk(g.blocks, g.bs, b))
    && g.los.mark == w.mark
    && (forall o {:trigger g.hs[o]} :: o in g.hs ==> g.hs[o].marked == mark && (g.hs[o].pinned ==> o in found))
    && (forall o :: o in found ==> o in g.hs)
  }

  /** After the reference counting collection. */
  lemma RcSettles(w: World, found: seq<Ref>, evac: bool, threshold: Option<nat>, exact: bool)
    requires Inv(w, exact) && w.raw == {} && (threshold.Some? ==> 0 < threshold.value)
    requires forall o :: o in found ==> IsGc(w.sp.blocks, o) || o in w.los.objects
    ensures RcReady(w, found, threshold)
    ensures var f := AfterRc(w, found, evac, threshold);
      && Settled(w, f, found, w.mark, exact)
      && f.bs.Keys <= w.bs.Keys && (forall o :: o in f.bs ==> f.bs[o] == w.bs[o])
      && Reachable(w.bs, RootSet(found)) <= f.bs.Keys
      && (forall o :: o in found ==> f.hs[o].pinned)
      && !CollectRc(RcStart(w, found, threshold), found, evac).evacTried
  {
    hide Inv, Idle, Collected, Reachable, SpaceInv, GetAllBlocks, NewRemoved, SameShape, SamePinsAndMarks, FinishRc,
      CollectRc, RcStart, Pinned, Wf, IsGc, UnusedEmpty, FirstLinesFree, FreeOk, BytesDisjoint;
    var all := w.all + GetAllBlocks(w.sp);
    var g := Pinned(w, found, threshold);
    var blocks' := OnBlocks(Candidates(w, threshold), all, RemoveNew);
    FoundKnown(w, found, exact);
    PinnedIdle(w, found, threshold, exact);
    NewAreRemoved(w, found, threshold, exact);
    RcStartIs(w, found, threshold);
    MaskedNothing(w);
    PinnedRoots(w, found, threshold, exact);
    PinnedFields(w, found, threshold);
    RcCollectionIsSafe(g, blocks', found, evac, exact);
    var f := AfterRc(w, found, evac, threshold);
    CollectedKeys(f, found, exact);
    IdleKeys(g, exact);
    RcSettlesBlocks(w, g, blocks', f, found, threshold, exact);
    RcSettlesHeaders(w, g, f, found, threshold, exact);
  }

  lemma PinnedFields(w: World, found: seq<Ref>, threshold: Option<nat>)
    ensures var g := Pinned(w, found, threshold);
      g.bs == GraphOf(w).bs && g.blocks == Candidates(w, threshold) && g.los == w.los
  {
  }

  lemma CollectedKeys(f: Rc, found: seq<Ref>, exact: bool)
    requires Collected(f, found, exact)
    ensures f.hs.Keys == f.bs.Keys
  {
  }

  lemma MaskedNothing(w: World)
    requires w.raw == {}
    ensures GraphOf(w).bs == w.bs
  {
  }

  lemma PinnedRoots(w: World, found: seq<Ref>, threshold: Option<nat>, exact: bool)
    requires Inv(w, exact)
    ensures var g := Pinned(w, found, threshold);
      && (forall o {:trigger g.hs[o]} :: o in g.hs && g.hs[o].pinned ==> o in found)
      && (forall o {:trigger g.hs[o]} :: o in g.hs ==> g.hs[o].marked == w.mark)
      && (forall o {:trigger g.hs[o]} :: o in g.hs && o in found ==> g.hs[o].pinned)
      && g.los.mark == w.mark
  {
    hide Idle, SpaceInv;
  }

  lemma RcSettlesBlocks(w: World, g: Rc, blocks': Blocks, f: Rc, found: seq<Ref>, threshold: Option<nat>, exact: bool)
    requires Inv(w, exact) && w.raw == {} && g == Pinned(w, found, threshold)
    requires (threshold.Some? ==> 0 < threshold.value)
    requires blocks' == OnBlocks(g.blocks, w.all + GetAllBlocks(w.sp), RemoveNew)
    requires Collected(f, found, exact) && SameShape(g.bs, blocks', f.blocks) && NewRemoved(g.blocks, blocks')
    requires f.bs.Keys <= g.bs.Keys && (forall o :: o in f.bs ==> f.bs[o] == g.bs[o])
    ensures f.blocks.Keys == w.sp.blocks.Keys
    ensures forall b :: b in f.blocks ==> f.blocks[b].newObjects == {}
    ensures FirstLinesFree(f.blocks) && UnusedEmpty(f.blocks) && BytesDisjoint(f.bs)
    ensures forall b :: b in w.sp.ba.free || b in w.sp.evac.headroom ==> FreeOk(f.blocks, f.bs, b)
  {
    hide Idle, Collected, SpaceInv, IsGc, GetAllBlocks, FreeOk, BytesDisjoint, HasObject, OnBlocks;
    forall b | b in f.blocks
      ensures f.blocks[b].newObjects == {} && f.blocks[b].lines[0] == 0
      ensures (f.blocks[b].inUse || f.blocks[b] == EmptyBlock())
    {
      NoNewIn(blocks', b);
      if !f.blocks[b].inUse {
        NoObjectUnused(w, b, exact);
      }
    }
    assert SpaceInv(w.sp, g.bs, w.all);
    BytesSubset(w.sp, g.bs, f.bs, w.all);
    hide Inv, NewRemoved;
    RcFreeStay(w, g, blocks', f, found, threshold);
  }

  /** Free blocks and headroom stay empty. */
  lemma RcFreeStay(w: World, g: Rc, blocks': Blocks, f: Rc, found: seq<Ref>, threshold: Option<nat>)
    requires SpaceInv(w.sp, g.bs, w.all) && g.blocks == Candidates(w, threshold)
    requires blocks' == OnBlocks(g.blocks, w.all + GetAllBlocks(w.sp), RemoveNew) && SameShape(g.bs, blocks', f.blocks)
    requires f.bs.Keys <= g.bs.Keys
    ensures forall b :: b in w.sp.ba.free || b in w.sp.evac.headroom ==> FreeOk(f.blocks, f.bs, b)
  {
    hide SpaceInv, GetAllBlocks, FreeOk, HasObject;
    forall b | b in w.sp.ba.free || b in w.sp.evac.headroom
      ensures FreeOk(f.blocks, f.bs, b)
    {
      FreeStays(w.sp, g.bs, w.all, b);
      assert f.blocks[b] == blocks'[b] == EmptyBlock();
      FreeSubset(f.blocks, g.bs, f.bs, b);
    }
  }

  lemma NoNewIn(blocks: Blocks, b: nat)
    requires b in blocks && forall o :: !IsNewObject(blocks, o)
    ensures blocks[b].newObjects == {}
  {
    forall off: nat
      ensures off !in blocks[b].newObjects
    {
      assert !IsNewObject(blocks, Immix(b, off));
    }
  }

  /** A block that is not in use has no objects. */
  lemma NoObjectUnused(w: World, b: nat, exact: bool)
    requires Inv(w, exact) && b in w.sp.blocks && !w.sp.blocks[b].inUse
    ensures !HasObject(GraphOf(w).bs, b) && w.sp.blocks[b] == EmptyBlock()
  {
    hide Idle, BytesDisjoint, OldCounted, ListsOk, Conserved, OptCursorOk;
    var bs := GraphOf(w).bs;
    forall o | o in bs && o.Immix?
      ensures o.block != b
    {
      assert InSpace(w.sp.blocks, o);
    }
  }

  lemma BytesSubset(sp: Space, bs: Bodies, bs': Bodies, all: seq<nat>)
    requires SpaceInv(sp, bs, all) && bs'.Keys <= bs.Keys && forall o :: o in bs' ==> bs'[o] == bs[o]
    ensures BytesDisjoint(bs')
  {
    hide OldCounted, ListsOk, Conserved, OptCursorOk, Fits, InSpace;
  }

  lemma FreeStays(sp: Space, bs: Bodies, all: seq<nat>, b: nat)
    requires SpaceInv(sp, bs, all) && (b in sp.ba.free || b in sp.evac.headroom)
    ensures b in sp.blocks && sp.blocks[b] == EmptyBlock() && !HasObject(bs, b)
    ensures b !in all + GetAllBlocks(sp)
  {
    hide HeapOk, Conserved, OptCursorOk, GetAllBlocks;
    GatheredKnown(sp, bs, all);
    assert FreeOk(sp.blocks, bs, b);
    forall o | o in bs && o.Immix?
      ensures o.block != b
    {
      assert !Here(bs, o, b);
    }
  }

  lemma FreeSubset(blocks: Blocks, bs: Bodies, bs': Bodies, b: nat)
    requires b in blocks && blocks[b] == EmptyBlock() && !HasObject(bs, b) && bs'.Keys <= bs.Keys
    ensures FreeOk(blocks, bs', b)
  {
    forall o
      ensures !Here(bs', o, b)
    {
    }
  }

  lemma RcSettlesHeaders(w: World, g: Rc, f: Rc, found: seq<Ref>, threshold: Option<nat>, exact: bool)
    requires w.raw == {} && f.hs.Keys == f.bs.Keys && g.hs.Keys == g.bs.Keys
    requires f.bs.Keys <= g.bs.Keys && SamePinsAndMarks(g.hs, f.hs) && f.los.mark == g.los.mark == w.mark
    requires forall o {:trigger g.hs[o]} :: o in g.hs && g.hs[o].pinned ==> o in found
    requires forall o {:trigger g.hs[o]} :: o in g.hs ==> g.hs[o].marked == w.mark
    requires forall o {:trigger g.hs[o]} :: o in g.hs && o in found ==> g.hs[o].pinned
    requires Reachable(g.bs, RootSet(found)) <= f.bs.Keys && forall o :: o in found ==> o in g.bs
    ensures f.los.mark == w.mark
    ensures forall o :: o in found ==> o in f.hs && f.hs[o].pinned
    ensures forall o {:trigger f.hs[o]} :: o in f.hs ==> f.hs[o].marked == w.mark && (f.hs[o].pinned ==> o in found)
    ensures forall o :: o in found ==> o in f.hs
  {
    hide Reachable;
    forall o | o in found
      ensures o in f.hs && f.hs[o].pinned
    {
      ReachableRoot(g.bs, RootSet(found), o);
      assert o in g.hs && g.hs[o].pinned;
    }
    forall o {:trigger f.hs[o]} | o in f.hs
      ensures f.hs[o].marked == w.mark && (f.hs[o].pinned ==> o in found)
    {
      assert o in g.hs;
    }
  }

  // ---------------------------------------------------------------- the tracing part

  ghost function LiveSet(f: Rc, found: seq<Ref>): set<Ref> {
    Reachable(f.bs, RootSet(found))
  }

  lemma LiveFacts(f: Rc, found: seq<Ref>, exact: bool)
    requires Collected(f, found, exact)
    ensures var live := LiveSet(f, found);
      && live <= f.bs.Keys && f.bs.Keys == f.hs.Keys && Closed(f.bs, live)
      && (forall o :: o in found ==> o in live)
      && (forall o :: o in live && o.Immix? ==> InSpace(f.blocks, o) && Fits(o.offset, f.bs[o].size))
      && (forall o :: o in live ==> f.bs[o].Plain?)
      && !f.evacTried
  {
    hide InSpace, Reaches, Fits, IsGc, LinesAtLeast, InRefs, Counts, MapsExact, NewExact;
    ReachableClosed(f.bs, RootSet(found));
    forall o | o in found
      ensures o in LiveSet(f, found)
    {
      ReachableRoot(f.bs, RootSet(found), o);
    }
  }

  /** The fields of the state after the tracing part. */
  lemma TraceFields(f: Rc, all: seq<nat>, found: seq<Ref>, next: bool)
    requires LiveSet(f, found) <= f.bs.Keys == f.hs.Keys
    ensures var g := TracePart(f, all, found, next);
      && g.hs.Keys == g.bs.Keys == LiveSet(f, found)
      && (forall o {:trigger g.bs[o]} {:trigger g.hs[o]} :: o in LiveSet(f, found) ==>
        g.bs[o] == f.bs[o] && g.hs[o] == f.hs[o].(marked := next))
      && g.oldRoots == f.oldRoots && g.decs == f.decs && g.mods == f.mods && g.evacTried == f.evacTried
      && g.blocks.Keys == f.blocks.Keys
      && (forall b :: b in f.blocks ==>
            g.blocks[b].inUse == f.blocks[b].inUse && g.blocks[b].newObjects == f.blocks[b].newObjects)
  {
    hide Reachable, CountOn;
  }

  lemma TraceWf(f: Rc, all: seq<nat>, found: seq<Ref>, next: bool, exact: bool)
    requires Collected(f, found, exact)
    ensures Wf(TracePart(f, all, found, next))
  {
    hide Idle, TracePart, LiveSet, Fits, Children;
    LiveFacts(f, found, exact);
    TraceFields(f, all, found, next);
    var g := TracePart(f, all, found, next);
    var live := LiveSet(f, found);
    forall o | o in g.bs && o.Immix?
      ensures InSpace(g.blocks, o)
    {
      assert InSpace(f.blocks, o);
    }
  }

  lemma TraceDebt(f: Rc, all: seq<nat>, found: seq<Ref>, next: bool, exact: bool)
    requires Collected(f, found, exact) && Wf(TracePart(f, all, found, next))
    ensures var g := TracePart(f, all, found, next); Counts(g.hs, multiset{}, Debt(g), false)
  {
    LiveFacts(f, found, exact);
    TraceFields(f, all, found, next);
    hide Fits, Wf, InRefs, IsGc, LinesAtLeast, InSpace, MapsExact, NewExact, LiveSet, TracePart, HeadersOk, ModsOk;
    var g := TracePart(f, all, found, next);
    var live := LiveSet(f, found);
    assert Contributing(g) == live;
    assert Contributing(f) == f.bs.Keys;
    InRefsFrame(g.bs, f.bs, live);
    InRefsMonotone(f.bs, live, f.bs.Keys);
    assert Debt(g) <= Debt(f);
  }

  /** What is known of the large objects and the marks before a trace. */
  lemma SettledLos(w: World, f: Rc, found: seq<Ref>, mark: bool, exact: bool)
    requires Settled(w, f, found, mark, exact)
    ensures forall o :: o in f.los.objects <==> o in f.hs && o.Large?
    ensures f.los.newObjects == [] && f.los.freeBuffer == [] && f.los.mark == w.mark
    ensures forall o {:trigger f.hs[o]} :: o in f.hs ==> f.hs[o].marked == mark && !f.hs[o].isNew
    ensures forall b :: b in f.blocks ==> f.blocks[b].newObjects == {}
  {
    hide Wf, IsGc, LinesAtLeast, Counts, NewExact, FreeOk, BytesDisjoint, HeadersOk, ModsOk;
  }

  lemma TraceLos(w: World, f: Rc, all: seq<nat>, found: seq<Ref>, exact: bool)
    requires Settled(w, f, found, w.mark, exact)
    ensures var g := TracePart(f, all, found, !w.mark);
      g.los.objects == (set o | o in LiveSet(f, found) && o.Large?) && g.los.newObjects == [] && g.los.freeBuffer == []
      && g.los.mark == w.mark
  {
    hide Settled, Collected, Reachable, TracedBlocks;
    SettledIs(w, f, found, w.mark, exact);
    LiveFacts(f, found, exact);
    SettledLos(w, f, found, w.mark, exact);
  }

  /** The object maps hold exactly the objects of `bs` that are not large. */
  ghost predicate MapsHold(blocks: Blocks, bs: Bodies) {
    forall o :: IsGc(blocks, o) <==> o in bs && o.Immix?
  }

  lemma TraceIdle(w: World, f: Rc, all: seq<nat>, found: seq<Ref>, exact: bool)
    requires Settled(w, f, found, w.mark, exact)
    ensures var g := TracePart(f, all, found, !w.mark);
      && Collected(g, found, false) && g.hs.Keys == g.bs.Keys == LiveSet(f, found)
      && MapsHold(g.blocks, g.bs)
      && LinesExact(g.blocks, g.bs, g.bs.Keys)
  {
    hide *;
    var g := TracePart(f, all, found, !w.mark);
    SettledIs(w, f, found, w.mark, exact);
    LiveFacts(f, found, exact);
    TraceFields(f, all, found, !w.mark);
    TraceWf(f, all, found, !w.mark, exact);
    TraceDebt(f, all, found, !w.mark, exact);
    TraceLos(w, f, all, found, exact);
    TraceRecords(f, g, all, found, !w.mark, exact);
    TraceMapsNew(w, f, g, all, found, exact);
    TraceHeaders(w, f, all, found, exact);
    OldKnown(g);
    LinesFewer(g.blocks, g.bs, OldSet(g), g.bs.Keys);
    IdleFrom(g, false);
    CollectedFrom(f, g, found, exact);
  }

  lemma SettledIs(w: World, f: Rc, found: seq<Ref>, mark: bool, exact: bool)
    requires Settled(w, f, found, mark, exact)
    ensures Collected(f, found, exact)
  {
  }

  lemma CollectedFrom(f: Rc, g: Rc, found: seq<Ref>, exact: bool)
    requires Collected(f, found, exact) && Idle(g, false) && forall o {:trigger g.hs[o]} :: o in g.hs ==> !g.hs[o].isNew
    requires g.mods == f.mods && g.decs == f.decs && g.oldRoots == f.oldRoots && g.los.newObjects == []
    ensures Collected(g, found, false)
  {
    hide Idle;
  }

  /** The traced records say exactly which objects there are. */
  lemma TraceRecords(f: Rc, g: Rc, all: seq<nat>, found: seq<Ref>, next: bool, exact: bool)
    requires Collected(f, found, exact) && g == TracePart(f, all, found, next)
    ensures MapsHold(g.blocks, g.bs) && LinesExact(g.blocks, g.bs, g.bs.Keys) && LinesAtLeast(g.blocks, g.bs, g.bs.Keys)
  {
    hide LinesAtLeast, LinesExact, TracedBlocks, Idle, Collected, LiveSet, TracePart, IsGc, InSpace, Fits;
    LiveFacts(f, found, exact);
    TraceFields(f, all, found, next);
    TraceBlocksAre(f, all, found, next);
    ClearedInSpace(f, all, found);
    TracedBlocksSay(OnBlocks(f.blocks, all, ClearRecord), f.bs, LiveSet(f, found));
    ExactFrame(g.blocks, f.bs, g.bs, LiveSet(f, found));
  }

  lemma TraceBlocksAre(f: Rc, all: seq<nat>, found: seq<Ref>, next: bool)
    ensures TracePart(f, all, found, next).blocks ==
      TracedBlocks(OnBlocks(f.blocks, all, ClearRecord), f.bs, LiveSet(f, found))
  {
    hide Reachable, TracedBlocks;
  }

  lemma OldKnown(g: Rc)
    requires Wf(g)
    ensures OldSet(g) <= g.bs.Keys
  {
  }

  lemma ClearedInSpace(f: Rc, all: seq<nat>, found: seq<Ref>)
    requires forall o :: o in LiveSet(f, found) && o.Immix? ==> InSpace(f.blocks, o)
    ensures forall o :: o in LiveSet(f, found) && o.Immix? ==> InSpace(OnBlocks(f.blocks, all, ClearRecord), o)
  {
    hide Reachable, LiveSet;
  }

  lemma ExactFrame(blocks: Blocks, bs: Bodies, bs': Bodies, s: set<Ref>)
    requires LinesExact(blocks, bs, s) && s <= bs.Keys && s <= bs'.Keys && forall o :: o in s ==> bs'[o] == bs[o]
    ensures LinesExact(blocks, bs', s) && LinesAtLeast(blocks, bs', s)
  {
    hide CountOn;
    forall b, l {:trigger CountOn(bs', s, b, l)} | b in blocks && 0 <= l < NUM_LINES
      ensures blocks[b].lines[l] == CountOn(bs', s, b, l)
    {
      assert blocks[b].lines[l] == CountOn(bs, s, b, l);
      CountFrame(bs, bs', s, b, l);
    }
  }

  lemma TraceMapsNew(w: World, f: Rc, g: Rc, all: seq<nat>, found: seq<Ref>, exact: bool)
    requires Settled(w, f, found, w.mark, exact) && g == TracePart(f, all, found, !w.mark)
    requires g.hs.Keys == g.bs.Keys == LiveSet(f, found) <= f.hs.Keys && MapsHold(g.blocks, g.bs)
    requires forall o {:trigger g.hs[o]} :: o in LiveSet(f, found) ==> g.hs[o] == f.hs[o].(marked := !w.mark)
    requires g.blocks.Keys == f.blocks.Keys
    requires forall b :: b in f.blocks ==> g.blocks[b].newObjects == f.blocks[b].newObjects
    requires g.los.objects == (set o | o in LiveSet(f, found) && o.Large?) && g.los.newObjects == []
    requires g.los.freeBuffer == []
    ensures MapsExact(g) && NewExact(g)
  {
    hide Settled, LiveSet, IsGc, TracePart;
    SettledLos(w, f, found, w.mark, exact);
    forall o
      ensures !IsNewObject(g.blocks, o)
    {
    }
    forall o | o in g.hs
      ensures !g.hs[o].isNew
    {
      assert g.hs[o] == f.hs[o].(marked := !w.mark);
    }
  }

  lemma TraceHeaders(w: World, f: Rc, all: seq<nat>, found: seq<Ref>, exact: bool)
    requires Settled(w, f, found, w.mark, exact)
    requires TracePart(f, all, found, !w.mark).hs.Keys == LiveSet(f, found) <= f.hs.Keys
    requires Wf(TracePart(f, all, found, !w.mark))
    ensures var g := TracePart(f, all, found, !w.mark);
      && HeadersOk(g) && ModsOk(g) && ModsLogged(g)
      && (forall o {:trigger g.hs[o]} :: o in g.hs ==>
            g.hs[o].marked == !w.mark && (g.hs[o].pinned ==> o in found) && !g.hs[o].isNew)
  {
    hide Reachable, Fits, Wf, InRefs, IsGc, LinesAtLeast, InSpace, Counts, FreeOk, BytesDisjoint, CountOn, MapsExact,
      NewExact,
      TracedBlocks, SweepLos, Debt;
    var g := TracePart(f, all, found, !w.mark);
    forall o | o in g.hs
      ensures HeaderOk(g, o)
    {
      assert HeaderOk(f, o);
    }
  }

  /** Blocks without reachable objects are left with empty records. */
  lemma TracedEmpties(blocks: Blocks, bs: Bodies, live: set<Ref>, b: nat)
    requires b in blocks && forall o :: o in live && o.Immix? ==> o in bs && bs[o].Plain? && Fits(o.offset, bs[o].size)
    ensures var t := TracedBlocks(blocks, bs, live)[b];
      && t.lines[0] == 0 && t == blocks[b].(objectMap := t.objectMap, lines := t.lines)
      && ((forall o :: o in live ==> o.Immix? ==> o.block != b) ==> t.objectMap == {} && t.lines == ZeroLines())
  {
    assert (set x | x in live && CoversLine(bs, x, b, 0)) == {};
    if forall o :: o in live ==> o.Immix? ==> o.block != b {
      forall l | 0 <= l < NUM_LINES
        ensures CountOn(bs, live, b, l) == 0
      {
        assert (set x | x in live && CoversLine(bs, x, b, l)) == {};
      }
    }
  }

  lemma TraceEmpties(w: World, f: Rc, all: seq<nat>, found: seq<Ref>, exact: bool, b: nat)
    requires Settled(w, f, found, w.mark, exact) && b in f.blocks
    ensures var g := TracePart(f, all, found, !w.mark);
      && g.blocks.Keys == f.blocks.Keys && g.blocks[b].newObjects == {} && g.blocks[b].lines[0] == 0
      && g.blocks[b].inUse == f.blocks[b].inUse
      && (f.blocks[b] == EmptyBlock() && (forall o :: o in LiveSet(f, found) ==> o.Immix? ==> o.block != b) ==>
            g.blocks[b] == EmptyBlock())
  {
    hide Settled, Collected, LiveSet, TracedBlocks, Fits, Closed, InSpace;
    SettledIs(w, f, found, w.mark, exact);
    SettledLos(w, f, found, w.mark, exact);
    LiveFacts(f, found, exact);
    TraceFields(f, all, found, !w.mark);
    TraceBlocksAre(f, all, found, !w.mark);
    hide TracePart;
    TracedEmpties(OnBlocks(f.blocks, all, ClearRecord), f.bs, LiveSet(f, found), b);
  }

  lemma TraceBlocksOk(w: World, f: Rc, all: seq<nat>, found: seq<Ref>, exact: bool)
    requires Settled(w, f, found, w.mark, exact)
    ensures var g := TracePart(f, all, found, !w.mark);
      && g.blocks.Keys == w.sp.blocks.Keys
      && (forall b :: b in g.blocks ==> g.blocks[b].newObjects == {})
      && FirstLinesFree(g.blocks) && UnusedEmpty(g.blocks)
      && (forall b :: b in w.sp.ba.free || b in w.sp.evac.headroom ==> FreeOk(g.blocks, g.bs, b))
  {
    hide Collected, IsGc, InSpace, TracePart, LiveSet, FreeOk, BytesDisjoint, Fits, Closed;
    var g := TracePart(f, all, found, !w.mark);
    LiveFacts(f, found, exact);
    TraceFields(f, all, found, !w.mark);
    forall b | b in f.blocks
      ensures g.blocks[b].lines[0] == 0
      ensures g.blocks[b].inUse || g.blocks[b] == EmptyBlock()
      ensures FreeOk(f.blocks, f.bs, b) ==> FreeOk(g.blocks, g.bs, b)
    {
      TraceEmpties(w, f, all, found, exact, b);
      UnusedNotLive(f, found, b);
      FreeFewer(f.blocks, g.blocks, f.bs, g.bs, b);
    }
    forall b | b in w.sp.ba.free || b in w.sp.evac.headroom
      ensures FreeOk(g.blocks, g.bs, b)
    {
      FreeIsEmpty(f.blocks, f.bs, b);
    }
  }

  /** The state after the tracing part: exactly what the roots reach is left, with the new mark. */
  lemma TraceSettles(w: World, f: Rc, all: seq<nat>, found: seq<Ref>, exact: bool)
    requires Settled(w, f, found, w.mark, exact)
    ensures var g := TracePart(f, all, found, !w.mark);
      && Settled(w, g, found, !w.mark, false)
      && g.bs.Keys == Reachable(f.bs, RootSet(found)) && (forall o :: o in g.bs ==> g.bs[o] == f.bs[o])
      && MapsHold(g.blocks, g.bs)
      && LinesExact(g.blocks, g.bs, g.bs.Keys)
      && g.los.objects == (set o | o in g.bs.Keys && o.Large?)
  {
    hide Collected, IsGc, LinesExact, Wf, InSpace, TracePart, LiveSet, FreeOk, BytesDisjoint, FirstLinesFree,
      UnusedEmpty,
      Closed, Fits, HeadersOk, ModsOk, ModsLogged, Reachable;
    var g := TracePart(f, all, found, !w.mark);
    TraceIdle(w, f, all, found, exact);
    TraceLos(w, f, all, found, exact);
    LiveFacts(f, found, exact);
    TraceFields(f, all, found, !w.mark);
    TraceWf(f, all, found, !w.mark, exact);
    TraceHeaders(w, f, all, found, exact);
    LiveSetIs(f, found);
    TraceBlocksOk(w, f, all, found, exact);
    BytesFewer(f.bs, g.bs);
  }

  lemma LiveSetIs(f: Rc, found: seq<Ref>)
    ensures LiveSet(f, found) == Reachable(f.bs, RootSet(found))
  {
  }

  lemma FreeFewer(blocks: Blocks, blocks': Blocks, bs: Bodies, bs': Bodies, b: nat)
    requires bs'.Keys <= bs.Keys && b in blocks'
    requires b in blocks && blocks[b] == EmptyBlock() && (forall o :: !Here(bs, o, b)) ==> blocks'[b] == EmptyBlock()
    ensures FreeOk(blocks, bs, b) ==> FreeOk(blocks', bs', b)
  {
    if FreeOk(blocks, bs, b) {
      forall o
        ensures !Here(bs', o, b)
      {
        assert !Here(bs, o, b);
      }
    }
  }

  lemma UnusedNotLive(f: Rc, found: seq<Ref>, b: nat)
    requires b in f.blocks && forall o :: o in LiveSet(f, found) && o.Immix? ==> InSpace(f.blocks, o)
    requires LiveSet(f, found) <= f.bs.Keys
    ensures !f.blocks[b].inUse || (forall o :: !Here(f.bs, o, b)) ==>
      forall o :: o in LiveSet(f, found) ==> o.Immix? ==> o.block != b
  {
    hide Reachable, LiveSet;
    forall o | o in LiveSet(f, found) && o.Immix? && o.block == b
      ensures f.blocks[b].inUse && Here(f.bs, o, b)
    {
      assert InSpace(f.blocks, o);
    }
  }

  lemma BytesFewer(bs: Bodies, bs': Bodies)
    requires BytesDisjoint(bs) && bs'.Keys <= bs.Keys && forall o :: o in bs' ==> bs'[o] == bs[o]
    ensures BytesDisjoint(bs')
  {
    hide Fits;
  }

  // ---------------------------------------------------------------- the sweep

  /** Every object has a counter of its block in use, so its block is not swept away. */
  lemma ObjectsKeepBlocks(g: Rc, found: seq<Ref>, exact: bool)
    requires Collected(g, found, exact)
    ensures OldCounted(g.blocks, g.bs)
    ensures forall o :: o in g.bs && o.Immix? ==>
      InSpace(g.blocks, o) && o.block in g.blocks && !AllFree(g.blocks[o.block].lines)
  {
    hide LinesAtLeast, InRefs, Counts, Closed, NoDup, Covers, IsNewObject, NewExact, InSpace, Debt;
    forall o, l: int | o in g.bs && o.Immix? && 0 <= l < NUM_LINES && Covers(o.offset, g.bs[o].size, l)
      ensures o.block in g.blocks && g.blocks[o.block].lines[l] > 0
    {
      OneCounted(g, o, l);
    }
    forall o | o in g.bs && o.Immix?
      ensures InSpace(g.blocks, o) && o.block in g.blocks && !AllFree(g.blocks[o.block].lines)
    {
      FirstLineCovered(o.offset, g.bs[o].size);
      var l := o.offset / LINE_SIZE;
      OneCounted(g, o, l);
    }
  }

  lemma FirstLineCovered(off: nat, size: nat)
    requires Fits(off, size)
    ensures 0 <= off / LINE_SIZE < NUM_LINES && Covers(off, size, off / LINE_SIZE)
  {
    CountedLinesInBlock(off, size);
  }

  lemma OneCounted(g: Rc, o: Ref, l: int)
    requires Wf(g) && MapsExact(g) && LinesAtLeast(g.blocks, g.bs, OldSet(g)) && o in g.bs && o.Immix? && !g.hs[o].isNew
    requires 0 <= l < NUM_LINES && Covers(o.offset, g.bs[o].size, l)
    ensures o.block in g.blocks && g.blocks[o.block].lines[l] > 0
  {
    hide LinesAtLeast, Closed, Covers, CountOn;
    CountedLinesInUse(g.blocks, g.bs, OldSet(g), o, l);
  }

  lemma SweptBlocksFacts(g: Rc, all: seq<nat>, found: seq<Ref>, exact: bool)
    requires Collected(g, found, exact) && forall b :: b in g.blocks ==> g.blocks[b].newObjects == {}
    ensures var blocks' := OnBlocks(g.blocks, all, SweptBlock);
      && (forall o :: o in g.bs && o.Immix? ==> InSpace(blocks', o))
      && OldCounted(blocks', g.bs)
      && (forall o :: IsGc(blocks', o) == IsGc(g.blocks, o))
      && (forall o :: IsNewObject(blocks', o) == IsNewObject(g.blocks, o))
      && (forall b :: b in blocks' ==> blocks'[b].lines == g.blocks[b].lines && blocks'[b].newObjects == {})
  {
    ObjectsKeepBlocks(g, found, exact);
    GcKnown(g, found, exact);
    hide Collected, Covers;
    var blocks' := OnBlocks(g.blocks, all, SweptBlock);
    forall b | b in blocks'
      ensures blocks'[b].lines == g.blocks[b].lines && blocks'[b].newObjects == {}
    {
      if b in all && AllFree(g.blocks[b].lines) {
        assert g.blocks[b].lines == ZeroLines();
      }
    }
    forall o
      ensures IsGc(blocks', o) == IsGc(g.blocks, o)
    {
    }
  }

  lemma GcKnown(g: Rc, found: seq<Ref>, exact: bool)
    requires Collected(g, found, exact)
    ensures forall o :: IsGc(g.blocks, o) ==> o in g.bs && o.Immix?
  {
    hide LinesAtLeast, InRefs, Counts, Closed, NoDup;
  }

  lemma SweptIdle(g: Rc, all: seq<nat>, found: seq<Ref>, exact: bool)
    requires Collected(g, found, exact) && forall b :: b in g.blocks ==> g.blocks[b].newObjects == {}
    ensures Idle(g.(blocks := OnBlocks(g.blocks, all, SweptBlock), hs := SetPins(g.hs, found, false)), exact)
  {
    hide *;
    var blocks' := OnBlocks(g.blocks, all, SweptBlock);
    SweptBlocksFacts(g, all, found, exact);
    SweptInSpace(g, all, found, exact);
    BlocksFrame(g, blocks', exact);
    PinsSameCounts(g.hs, found);
    HeadersFrame(g.(blocks := blocks'), SetPins(g.hs, found, false), exact);
  }

  lemma SweptInSpace(g: Rc, all: seq<nat>, found: seq<Ref>, exact: bool)
    requires Collected(g, found, exact)
    requires forall o :: o in g.bs && o.Immix? ==> InSpace(OnBlocks(g.blocks, all, SweptBlock), o)
    ensures Idle(g, exact)
    ensures forall o :: o in g.bs && InSpace(g.blocks, o) ==> InSpace(OnBlocks(g.blocks, all, SweptBlock), o)
  {
    hide Idle, OnBlocks;
  }

  lemma PinsSameCounts(hs: Headers, found: seq<Ref>)
    ensures SameCounts(hs, SetPins(hs, found, false))
  {
  }

  lemma DrainedConserved(w: World, g: Rc, exact: bool)
    requires Inv(w, exact) && g.blocks.Keys == w.sp.blocks.Keys
    ensures Conserved(Drained(w.sp).(blocks := g.blocks), w.all + GetAllBlocks(w.sp))
    ensures forall b :: b in w.all + GetAllBlocks(w.sp) ==> b in g.blocks
  {
    hide Idle, HeapOk, ListsOk, OptCursorOk, GetAllBlocks, Stock;
    var all := w.all + GetAllBlocks(w.sp);
    GatherKeepsStock(w.sp, w.all);
    StockSame(Drained(w.sp), Drained(w.sp).(blocks := g.blocks), all);
    GatheredKnown(w.sp, GraphOf(w).bs, w.all);
  }

  /** The sweep moves blocks between places only. */
  lemma SweepKeepsStock(sp: Space, all: seq<nat>)
    requires (forall b :: b in all ==> b in sp.blocks) && |sp.evac.headroom| <= EVAC_HEADROOM
    requires sp.normal.recyclable == []
    ensures var (s, all') := Sweep(sp, all); Stock(s, all') == Stock(sp, all)
  {
    hide Stock, WithFate, ByFate;
    var freed := WithFate(all, sp.blocks, Freed);
    var n := Min(EVAC_HEADROOM - |sp.evac.headroom|, |freed|);
    assert freed == freed[..n] + freed[n..];
    FatesPartition(all, sp.blocks);
    SweptBag(sp, Sweep(sp, all).0, all, freed[..n], freed[n..]);
  }

  lemma SweptBag(sp: Space, s: Space, all: seq<nat>, h: seq<nat>, f: seq<nat>)
    requires forall b :: b in all ==> b in sp.blocks
    requires WithFate(all, sp.blocks, Freed) == h + f && sp.normal.recyclable == []
    requires multiset(all) == ByFate(all, sp.blocks)
    requires s.normal == sp.normal.(recyclable := WithFate(all, sp.blocks, Recycled)) && s.overflow == sp.overflow
    requires s.evac == sp.evac.(headroom := sp.evac.headroom + h) && s.ba.free == sp.ba.free + f
    ensures Stock(s, WithFate(all, sp.blocks, Full)) == Stock(sp, all)
  {
    hide WithFate;
    assert multiset(sp.evac.headroom + h) == multiset(sp.evac.headroom) + multiset(h);
    assert multiset(sp.ba.free + f) == multiset(sp.ba.free) + multiset(f);
    assert multiset(h + f) == multiset(h) + multiset(f);
  }

  lemma SweepConserves(sp: Space, all: seq<nat>)
    requires Conserved(sp, all) && (forall b :: b in all ==> b in sp.blocks)
    requires |sp.evac.headroom| <= EVAC_HEADROOM && sp.normal.recyclable == []
    ensures var (s, all') := Sweep(sp, all); Conserved(s, all')
  {
    hide Stock, SweptBlock, WithFate;
    SweepKeepsStock(sp, all);
  }

  /** The lists after the sweep: recyclable blocks are in use and hold no new object, free ones hold nothing. */
  lemma SweptLists(w: World, g: Rc, found: seq<Ref>, mark: bool, exact: bool, all: seq<nat>)
    requires |w.sp.evac.headroom| <= EVAC_HEADROOM
    requires forall b :: b in all ==> b in g.blocks && b !in w.sp.ba.free && b !in w.sp.evac.headroom
    requires Settled(w, g, found, mark, exact)
    ensures var (s, all') := Sweep(Drained(w.sp).(blocks := g.blocks), all);
      ListsOk(s, g.bs) && all' == [] && HeadroomOk(s)
  {
    hide Settled, Collected, FreeOk, RecyclableOk, FateOf, SweptBlock;
    SweptEach(w, g, found, mark, exact, all);
    var s := Sweep(Drained(w.sp).(blocks := g.blocks), all).0;
    NoneWithFate(all, g.blocks, Full);
    var freed := WithFate(all, g.blocks, Freed);
    var n := Min(EVAC_HEADROOM - |w.sp.evac.headroom|, |freed|);
    assert forall b :: b in freed[..n] || b in freed[n..] ==> b in freed;
  }

  lemma SweptEach(w: World, g: Rc, found: seq<Ref>, mark: bool, exact: bool, all: seq<nat>)
    requires Settled(w, g, found, mark, exact)
    requires forall b :: b in all ==> b in g.blocks && b !in w.sp.ba.free && b !in w.sp.evac.headroom
    ensures var blocks' := OnBlocks(g.blocks, all, SweptBlock);
      && (forall b :: b in all ==>
        && (FateOf(g.blocks[b]) == Freed ==> FreeOk(blocks', g.bs, b))
        && (FateOf(g.blocks[b]) == Recycled ==> RecyclableOk(blocks', g.bs, b))
        && FateOf(g.blocks[b]) != Full)
      && (forall b :: b in w.sp.ba.free || b in w.sp.evac.headroom ==> FreeOk(blocks', g.bs, b))
  {
    hide Collected, BytesDisjoint, FreeOk, RecyclableOk, FateOf, SweptBlock;
    ObjectsKeepBlocks(g, found, exact);
    var blocks' := OnBlocks(g.blocks, all, SweptBlock);
    forall b | b in all
      ensures FateOf(g.blocks[b]) == Freed ==> FreeOk(blocks', g.bs, b)
      ensures FateOf(g.blocks[b]) == Recycled ==> RecyclableOk(blocks', g.bs, b)
      ensures FateOf(g.blocks[b]) != Full
    {
      SweptOne(g, blocks', b);
    }
    forall b | b in w.sp.ba.free || b in w.sp.evac.headroom
      ensures FreeOk(blocks', g.bs, b)
    {
      FreeIsEmpty(g.blocks, g.bs, b);
      SameRecordFree(g.blocks, blocks', g.bs, b);
    }
  }

  lemma {:induction false} NoneWithFate(all: seq<nat>, blocks: Blocks, fate: Fate)
    requires forall b :: b in all ==> b in blocks && FateOf(blocks[b]) != fate
    ensures WithFate(all, blocks, fate) == []
    decreases |all|
  {
    if all != [] {
      NoneWithFate(InitList(all), blocks, fate);
    }
  }

  lemma SameRecordFree(blocks: Blocks, blocks': Blocks, bs: Bodies, b: nat)
    requires FreeOk(blocks, bs, b) && b in blocks' && blocks'[b] == blocks[b]
    ensures FreeOk(blocks', bs, b)
  {
  }

  lemma SweptOne(g: Rc, blocks': Blocks, b: nat)
    requires b in g.blocks && b in blocks' && blocks'[b] == SweptBlock(g.blocks[b])
    requires g.blocks[b].newObjects == {} && g.blocks[b].lines[0] == 0
    requires (g.blocks[b].inUse || g.blocks[b] == EmptyBlock())
    requires forall o :: o in g.bs && o.Immix? ==> o.block in g.blocks && !AllFree(g.blocks[o.block].lines)
    ensures FateOf(g.blocks[b]) == Freed ==> FreeOk(blocks', g.bs, b)
    ensures FateOf(g.blocks[b]) == Recycled ==> RecyclableOk(blocks', g.bs, b)
    ensures FateOf(g.blocks[b]) != Full
  {
    NoBlockIsFull(g.blocks[b]);
    if AllFree(g.blocks[b].lines) {
      assert blocks'[b] == EmptyBlock() by { assert ResetBlock(g.blocks[b]) == EmptyBlock(); }
    }
  }

  // ---------------------------------------------------------------- the whole collection

  /** From the collectors' result to the next idle state. */
  lemma CompleteKeeps(w: World, g: Rc, found: seq<Ref>, immix: bool, exact: bool, exact': bool)
    requires Inv(w, exact) && w.raw == {} && w.roots <= RootSet(found)
    requires Settled(w, g, found, if immix then !w.mark else w.mark, exact')
    ensures var all := w.all + GetAllBlocks(w.sp);
      && SweepReady(w.sp, g.blocks, all)
      && var w' := Complete(w, g, all, found, immix);
      && Inv(w', exact') && w'.bs == g.bs && w'.roots == w.roots && w'.raw == {} && w'.hs.Keys == g.hs.Keys
      && (forall o :: IsGc(w'.sp.blocks, o) == IsGc(g.blocks, o)) && w'.los.objects == g.los.objects
      && w'.oldRoots == g.oldRoots && w'.decs == [] && w'.mods == []
      && w'.mark == (if immix then !w.mark else w.mark) && w'.los.newObjects == g.los.newObjects
      && (forall o :: o in w'.hs ==> w'.hs[o].count == g.hs[o].count && !w'.hs[o].isNew)
      && w'.sp.blocks.Keys == g.blocks.Keys
      && (forall b :: b in g.blocks ==> w'.sp.blocks[b].lines == g.blocks[b].lines)
  {
    hide Idle, Conserved, GetAllBlocks, IsGc, BytesDisjoint, FreeOk, Sweep, SpaceInv, FirstLinesFree, UnusedEmpty,
      ListsOk;
    var all := w.all + GetAllBlocks(w.sp);
    DrainedConserved(w, g, exact);
    GatheredKnown(w.sp, GraphOf(w).bs, w.all);
    HeadroomIs(w, exact);
    SweptLists(w, g, found, if immix then !w.mark else w.mark, exact', all);
    SweptSpace(w, g, found, immix, exact, exact', all);
    SweptFlags(w, g, all);
    SweptBlocksFacts(g, all, found, exact');
    SweptIdle(g, all, found, exact');
    var w' := Complete(w, g, all, found, immix);
    NeverTried(g, exact');
    CompleteGraph(w, g, found, immix, exact', all);
    LosMarkFrame(g.(blocks := w'.sp.blocks, hs := w'.hs), w'.los, exact');
    hide SetPins;
    CompleteMarks(w, g, found, immix, exact', all);
  }

  lemma NeverTried(g: Rc, exact: bool)
    requires Idle(g, exact)
    ensures !g.evacTried && g.hs.Keys == g.bs.Keys
  {
    hide LinesAtLeast;
  }

  lemma HeadroomIs(w: World, exact: bool)
    requires Inv(w, exact)
    ensures |w.sp.evac.headroom| <= EVAC_HEADROOM && w.sp.mark == w.mark
  {
    hide Idle, SpaceInv;
  }

  lemma SweptSpace(w: World, g: Rc, found: seq<Ref>, immix: bool, exact: bool, exact': bool, all: seq<nat>)
    requires |w.sp.evac.headroom| <= EVAC_HEADROOM && forall b :: b in all ==> b in g.blocks
    requires ListsOk(Sweep(Drained(w.sp).(blocks := g.blocks), all).0, g.bs)
    requires Conserved(Drained(w.sp).(blocks := g.blocks), all)
    requires Inv(w, exact) && all == w.all + GetAllBlocks(w.sp)
    requires Settled(w, g, found, if immix then !w.mark else w.mark, exact')
    ensures var (s, all') := Sweep(Drained(w.sp).(blocks := g.blocks), all);
      SpaceInv(s, g.bs, all') && s.blocks == OnBlocks(g.blocks, all, SweptBlock) && s.mark == w.sp.mark
      && forall m :: SpaceInv(s.(mark := m), g.bs, all')
  {
    SweptBlocksFacts(g, all, found, exact');
    hide Conserved, GetAllBlocks, IsGc, BytesDisjoint, FreeOk, ListsOk, OldCounted, InSpace, Collected, SweptBlock, Inv;
    var sp := Drained(w.sp).(blocks := g.blocks);
    SweepConserves(sp, all);
    SweepFields(sp, all);
    var (s, all') := Sweep(sp, all);
    hide Sweep;
    forall m
      ensures SpaceInv(s.(mark := m), g.bs, all')
    {
      MarkFrame(s, g.bs, all', m);
    }
  }

  lemma SweepFields(sp: Space, all: seq<nat>)
    requires (forall b :: b in all ==> b in sp.blocks) && |sp.evac.headroom| <= EVAC_HEADROOM
    ensures var s := Sweep(sp, all).0;
      && s.blocks == OnBlocks(sp.blocks, all, SweptBlock) && s.normal.current == sp.normal.current
      && s.overflow == sp.overflow && s.evac.current == sp.evac.current && s.mark == sp.mark
  {
    hide WithFate, SweptBlock;
  }

  lemma MarkFrame(s: Space, bs: Bodies, all: seq<nat>, m: bool)
    requires Conserved(s, all) && HeapOk(s.blocks, bs) && ListsOk(s, bs) && s.evac.current == None
    requires s.normal.current == None && s.overflow.current == None
    ensures SpaceInv(s.(mark := m), bs, all)
  {
    hide HeapOk, FreeOk, RecyclableOk;
  }

  lemma SweptFlags(w: World, g: Rc, all: seq<nat>)
    requires FirstLinesFree(g.blocks) && UnusedEmpty(g.blocks)
    requires forall b :: b in g.blocks ==> g.blocks[b].newObjects == {}
    ensures FirstLinesFree(OnBlocks(g.blocks, all, SweptBlock)) && UnusedEmpty(OnBlocks(g.blocks, all, SweptBlock))
  {
    forall b | b in g.blocks && AllFree(g.blocks[b].lines)
      ensures ResetBlock(g.blocks[b]) == EmptyBlock()
    {
    }
    forall b | b in g.blocks && !g.blocks[b].inUse
      ensures AllFree(g.blocks[b].lines)
    {
    }
  }

  lemma CompleteGraph(w: World, g: Rc, found: seq<Ref>, immix: bool, exact: bool, all: seq<nat>)
    requires w.raw == {} && SweepReady(w.sp, g.blocks, all) && !g.evacTried
    ensures var w' := Complete(w, g, all, found, immix);
      GraphOf(w') == g.(blocks := w'.sp.blocks, hs := w'.hs, los := w'.los)
  {
    hide Sweep, SetPins;
  }

  lemma LosMarkFrame(g: Rc, los: Los, exact: bool)
    requires Idle(g, exact) && los == g.los.(mark := los.mark)
    ensures Idle(g.(los := los), exact)
  {
    hide IsGc, InSpace, IsNewObject, LinesAtLeast, InRefs, Closed, NoDup, Fits, Counts;
    var r := g.(los := los);
    assert Contributing(r) == Contributing(g);
    assert OldSet(r) == OldSet(g);
    forall x | x in r.hs
      ensures HeaderOk(r, x)
    {
      assert HeaderOk(g, x);
    }
  }

  lemma CompleteMarks(w: World, g: Rc, found: seq<Ref>, immix: bool, exact: bool, all: seq<nat>)
    requires w.sp.mark == w.mark && w.roots <= RootSet(found) && w.raw == {}
    requires Settled(w, g, found, if immix then !w.mark else w.mark, exact)
    requires SweepReady(w.sp, g.blocks, all) && Sweep(Drained(w.sp).(blocks := g.blocks), all).0.mark == w.sp.mark
    ensures var w' := Complete(w, g, all, found, immix);
      MarksAgree(w') && MutatorOk(w')
      && (forall o :: o in w'.hs ==> w'.hs[o].count == g.hs[o].count && !w'.hs[o].isNew)
  {
    hide Sweep, FirstLinesFree, UnusedEmpty, FreeOk, BytesDisjoint, Idle;
  }

  /**
    A collection of any kind keeps the invariant, and keeps every object that the found roots reach,
    with its members. No evacuation is attempted by the reference counting part. After a trace exactly
    the reachable objects are left, counted once on each of their lines.
   */
  lemma CollectKeeps(w: World, found: seq<Ref>, evac: bool, immix: bool, threshold: Option<nat>, exact: bool)
    requires Inv(w, exact) && Contract(w, Collect(found, evac, immix, threshold))
    ensures CollectReady(w, found, evac, immix, threshold)
    ensures !CollectRc(RcStart(w, found, threshold), found, evac).evacTried
    ensures var w' := CollectStep(w, found, evac, immix, threshold);
      && Inv(w', exact && !immix)
      && w'.roots == w.roots && w'.raw == {} && w'.mark == (if immix then !w.mark else w.mark)
      && w'.bs.Keys <= w.bs.Keys && (forall o :: o in w'.bs ==> w'.bs[o] == w.bs[o])
      && Reachable(w.bs, RootSet(found)) <= w'.bs.Keys
      && w'.oldRoots == found && w'.decs == [] && w'.mods == [] && w'.los.newObjects == []
      && (forall o :: o in w'.hs ==> !w'.hs[o].isNew)
      && (immix ==> TraceExact(w', found))
  {
    hide Idle, SpaceInv, Reachable, RcStart, Complete, TracePart, CollectRc, Settled, GetAllBlocks, TraceExact, Inv,
      RcReady, IsGc;
    var all := w.all + GetAllBlocks(w.sp);
    RcSettles(w, found, evac, threshold, exact);
    var f := AfterRc(w, found, evac, threshold);
    SettledCollected(w, f, found, w.mark, exact);
    if immix {
      var g := TracePart(f, all, found, !w.mark);
      TraceCompletes(w, f, g, found, exact);
      ReachSubset(w.bs, f.bs, g.bs, found);
      TraceEndsExact(w, f, g, found, exact);
    } else {
      CompleteKeeps(w, f, found, immix, exact, exact);
    }
  }

  /** The end of a collection that has traced. */
  lemma TraceCompletes(w: World, f: Rc, g: Rc, found: seq<Ref>, exact: bool)
    requires Inv(w, exact) && w.raw == {} && w.roots <= RootSet(found) && Settled(w, f, found, w.mark, exact)
    requires g == TracePart(f, w.all + GetAllBlocks(w.sp), found, !w.mark)
    ensures g.bs.Keys == Reachable(f.bs, RootSet(found)) && (forall o :: o in g.bs ==> g.bs[o] == f.bs[o])
    ensures SweepReady(w.sp, g.blocks, w.all + GetAllBlocks(w.sp))
    ensures var w' := Complete(w, g, w.all + GetAllBlocks(w.sp), found, true);
      && Inv(w', false) && w'.bs == g.bs && w'.roots == w.roots && w'.raw == {} && w'.mark == !w.mark
      && w'.oldRoots == found && w'.decs == [] && w'.mods == [] && w'.los.newObjects == []
      && (forall o :: o in w'.hs ==> !w'.hs[o].isNew)
  {
    hide *;
    TraceSettles(w, f, w.all + GetAllBlocks(w.sp), found, exact);
    SettledCollected(w, g, found, !w.mark, false);
    CompleteKeeps(w, g, found, true, exact, false);
  }

  lemma TraceEndsExact(w: World, f: Rc, g: Rc, found: seq<Ref>, exact: bool)
    requires Inv(w, exact) && w.raw == {} && w.roots <= RootSet(found) && Settled(w, f, found, w.mark, exact)
    requires g == TracePart(f, w.all + GetAllBlocks(w.sp), found, !w.mark)
    requires g.bs.Keys == Reachable(g.bs, RootSet(found)) && SweepReady(w.sp, g.blocks, w.all + GetAllBlocks(w.sp))
    ensures TraceExact(Complete(w, g, w.all + GetAllBlocks(w.sp), found, true), found)
  {
    hide *;
    TraceSettles(w, f, w.all + GetAllBlocks(w.sp), found, exact);
    CompleteKeeps(w, g, found, true, exact, false);
    ExactAtEnd(w, g, found, exact);
  }

  /** Exactly the reachable objects are valid, and each line counter is the number of those counted on it. */
  ghost predicate TraceExact(w: World, found: seq<Ref>) {
    && w.bs.Keys == Reachable(w.bs, RootSet(found))
    && (forall o :: IsGc(w.sp.blocks, o) <==> o in w.bs && o.Immix?)
    && LinesExact(w.sp.blocks, w.bs, w.bs.Keys)
    && w.los.objects == (set o | o in w.bs.Keys && o.Large?)
  }

  lemma SettledCollected(w: World, g: Rc, found: seq<Ref>, mark: bool, exact: bool)
    requires Settled(w, g, found, mark, exact)
    ensures g.hs.Keys == g.bs.Keys && g.oldRoots == found && g.blocks.Keys == w.sp.blocks.Keys
    ensures Closed(g.bs, g.bs.Keys) && forall o :: o in found ==> o in g.bs
    ensures g.los.newObjects == []
  {
    hide LinesAtLeast, Counts, InRefs, IsGc;
  }

  lemma ReachSubset(bs: Bodies, fs: Bodies, gs: Bodies, found: seq<Ref>)
    requires Reachable(bs, RootSet(found)) <= fs.Keys <= bs.Keys && forall o :: o in fs ==> fs[o] == bs[o]
    requires gs.Keys == Reachable(fs, RootSet(found)) && forall o :: o in gs ==> gs[o] == fs[o]
    requires forall o :: o in found ==> o in fs
    requires Closed(fs, fs.Keys)
    ensures Reachable(bs, RootSet(found)) == gs.Keys == Reachable(gs, RootSet(found))
  {
    hide Reaches;
    ReachableFrame(fs, bs, fs.Keys, RootSet(found));
    ReachableClosed(fs, RootSet(found));
    forall o | o in found
      ensures o in gs
    {
      ReachableRoot(fs, RootSet(found), o);
    }
    ReachableFrame(fs, gs, gs.Keys, RootSet(found));
  }

  lemma ExactAtEnd(w: World, g: Rc, found: seq<Ref>, exact: bool)
    requires SweepReady(w.sp, g.blocks, w.all + GetAllBlocks(w.sp))
    requires var w' := Complete(w, g, w.all + GetAllBlocks(w.sp), found, true);
      && w'.bs == g.bs && w'.los.objects == g.los.objects
      && (forall o :: IsGc(w'.sp.blocks, o) == IsGc(g.blocks, o))
      && (forall b :: b in g.blocks ==> w'.sp.blocks[b].lines == g.blocks[b].lines)
      && w'.sp.blocks.Keys == g.blocks.Keys
    requires g.bs.Keys == Reachable(g.bs, RootSet(found))
    requires MapsHold(g.blocks, g.bs) && LinesExact(g.blocks, g.bs, g.bs.Keys)
    requires g.los.objects == (set o | o in g.bs.Keys && o.Large?)
    ensures TraceExact(Complete(w, g, w.all + GetAllBlocks(w.sp), found, true), found)
  {
    hide Reachable, Complete, IsGc, GetAllBlocks, CountOn;
    var w' := Complete(w, g, w.all + GetAllBlocks(w.sp), found, true);
    forall b, l {:trigger CountOn(w'.bs, w'.bs.Keys, b, l)} | b in w'.sp.blocks && 0 <= l < NUM_LINES
      ensures w'.sp.blocks[b].lines[l] == CountOn(w'.bs, w'.bs.Keys, b, l)
    {
      assert g.blocks[b].lines[l] == CountOn(g.bs, g.bs.Keys, b, l);
    }
  }
}
