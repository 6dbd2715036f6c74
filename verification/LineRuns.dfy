/** What line counters are at every point of a run, and what a collection without a trace gives back. */
module LineRuns {
  import opened Constants
  import opened Wrappers
  import opened Objects
  import opened BlockLines
  import opened BlockTables
  import opened Graph
  import opened RcModel
  import opened RcProofs
  import opened RcTheorems
  import opened AllocatorModel
  import opened AllocatorProofs
  import opened MutatorProofs
  import opened SweepModel
  import opened SpacesModel
  import opened SpacesProofs
  import opened CollectProofs
  import opened LineProofs
  import opened Runs

  // ---------------------------------------------------------------- the surplus depends on little

  function LineOf(blocks: Blocks, b: nat, l: nat): nat {
    if b in blocks && l < NUM_LINES then blocks[b].lines[l] else 0
  }

  /** In a heap in order the old objects of the maps are those whose header says so. */
  lemma OldImmix(g: Rc, exact: bool)
    requires Idle(g, exact)
    ensures OldSet(g) == set o | o in g.hs.Keys && o.Immix? && !g.hs[o].isNew
    ensures g.hs.Keys == g.bs.Keys && OldSet(g) <= g.bs.Keys
  {
    hide Closed, Counts, LinesAtLeast, InSpace, Fits;
    assert forall o :: IsGc(g.blocks, o) ==> o.Immix?;
    hide IsGc;
  }

  lemma SurplusSame(g: Rc, r: Rc, exact: bool, exact': bool, b: nat, l: nat)
    requires Idle(g, exact) && Idle(r, exact') && LineOf(r.blocks, b, l) == LineOf(g.blocks, b, l)
    requires forall o :: o in r.hs && !r.hs[o].isNew <==> o in g.hs && !g.hs[o].isNew
    requires forall o :: o in g.bs && o in r.bs && o in g.hs && !g.hs[o].isNew ==> SameExtent(g.bs[o], r.bs[o])
    ensures OldSurplus(r, b, l) == OldSurplus(g, b, l)
  {
    hide *;
    OldImmix(g, exact);
    OldImmix(r, exact');
    OldTheSame(g, r);
    SameCount(g.blocks, r.blocks, g.bs, r.bs, OldSet(g), b, l);
    OldSurplusIs(g, b, l);
    OldSurplusIs(r, b, l);
  }

  lemma OldTheSame(g: Rc, r: Rc)
    requires OldSet(g) == (set o | o in g.hs.Keys && o.Immix? && !g.hs[o].isNew)
    requires OldSet(r) == (set o | o in r.hs.Keys && o.Immix? && !r.hs[o].isNew)
    requires forall o :: o in r.hs && !r.hs[o].isNew <==> o in g.hs && !g.hs[o].isNew
    ensures OldSet(r) == OldSet(g) && forall o :: o in OldSet(g) ==> o in g.hs && !g.hs[o].isNew
  {
    hide OldSet;
  }

  lemma OldSurplusIs(g: Rc, b: nat, l: nat)
    ensures OldSurplus(g, b, l) == Surplus(g.blocks, g.bs, OldSet(g), b, l)
  {
  }

  lemma SameCount(blocks: Blocks, blocks': Blocks, bs: Bodies, bs': Bodies, s: set<Ref>, b: nat, l: nat)
    requires LineOf(blocks', b, l) == LineOf(blocks, b, l) && s <= bs.Keys && s <= bs'.Keys
    requires forall o :: o in s ==> SameExtent(bs[o], bs'[o])
    ensures Surplus(blocks', bs', s, b, l) == Surplus(blocks, bs, s, b, l)
  {
    CountFrame(bs, bs', s, b, l);
  }

  ghost function SurplusOf(w: World, b: nat, l: nat): int {
    OldSurplus(GraphOf(w), b, l)
  }

  // ---------------------------------------------------------------- steps of the mutator

  lemma TakenLines(blocks: Blocks, blocks': Blocks, b: nat, l: nat)
    requires OnlyEmptyTaken(blocks, blocks')
    ensures LineOf(blocks', b, l) == LineOf(blocks, b, l)
  {
  }

  lemma EnteredLines(blocks: Blocks, o: Ref, b: nat, l: nat)
    requires o.Immix? && o.block in blocks
    ensures LineOf(EnterObject(blocks, o), b, l) == LineOf(blocks, b, l)
  {
  }

  /** A step that leaves a line's counter and the old objects with their sizes alone. */
  ghost predicate SameOld(w: World, w': World, b: nat, l: nat) {
    && LineOf(w'.sp.blocks, b, l) == LineOf(w.sp.blocks, b, l)
    && (forall o :: o in w'.hs && !w'.hs[o].isNew <==> o in w.hs && !w.hs[o].isNew)
    && (forall o :: o in w.hs && !w.hs[o].isNew && o in w.bs ==> o in w'.bs && SameExtent(w.bs[o], w'.bs[o]))
  }

  lemma SameOldSurplus(w: World, w': World, b: nat, l: nat)
    requires Inv(w, false) && Inv(w', false) && SameOld(w, w', b, l)
    ensures SurplusOf(w', b, l) == SurplusOf(w, b, l)
  {
    hide Idle, SpaceInv;
    SurplusSame(GraphOf(w), GraphOf(w'), false, false, b, l);
  }

  lemma AllocSameOld(w: World, size: nat, junk: seq<Slot>, address: Ref, b: nat, l: nat)
    requires Inv(w, false) && Known(w.sp) && Contract(w, Alloc(size, junk, address))
    ensures SameOld(w, AllocStep(w, size, junk, address).0, b, l)
  {
    hide *;
    InvSpace(w, false);
    IdleFromInv(w);
    SizeOk(w, size, junk, address);
    if size < LARGE_OBJECT {
      AllocationIsSafe(w.sp, GraphOf(w).bs, w.all, size, NullSlots(|junk|));
      AllocateSought(w.sp, GraphOf(w).bs, w.all, size);
      SmallSameOld(w, size, junk, address, b, l);
    } else {
      LargeFresh(w, size, junk, address);
      LargeSameOld(w, size, junk, address, b, l);
    }
  }

  lemma SizeOk(w: World, size: nat, junk: seq<Slot>, address: Ref)
    requires Contract(w, Alloc(size, junk, address))
    ensures 0 < size && size % 8 == 0
  {
  }

  lemma SmallSameOld(w: World, size: nat, junk: seq<Slot>, address: Ref, b: nat, l: nat)
    requires Known(w.sp) && size < LARGE_OBJECT && SoughtFrom(w.sp, SpaceAllocate(w.sp, size).0)
    requires var (s, r) := SpaceAllocate(w.sp, size);
      r.Some? ==> r.value.Immix? && r.value !in w.hs && r.value.block in s.blocks
    ensures SameOld(w, AllocStep(w, size, junk, address).0, b, l)
  {
    hide Known, SpaceAllocate, EnterObject, LineOf, OnlyEmptyTaken;
    var (sp, o) := SpaceAllocate(w.sp, size);
    TakenLines(w.sp.blocks, sp.blocks, b, l);
    if o.Some? {
      EnteredLines(sp.blocks, o.value, b, l);
    }
  }

  lemma LargeSameOld(w: World, size: nat, junk: seq<Slot>, address: Ref, b: nat, l: nat)
    requires Known(w.sp) && size >= LARGE_OBJECT && address !in w.hs
    ensures SameOld(w, AllocStep(w, size, junk, address).0, b, l)
  {
    hide Known, LineOf;
  }

  lemma IdleFromInv(w: World)
    requires Inv(w, false)
    ensures Idle(GraphOf(w), false) && w.hs.Keys == w.bs.Keys && GraphOf(w).bs.Keys == w.bs.Keys
  {
    hide SpaceInv;
    KeysAgree(w);
  }

  lemma MutatorSameOld(w: World, e: Event, b: nat, l: nat)
    requires Inv(w, false) && Contract(w, e) && !e.Collect?
    ensures SameOld(w, Step(w, e), b, l)
  {
    hide Inv, AllocStep, LineOf, Reachable, SameOld, GraphOf, Masked, BarrierStep;
    IdleFromInv(w);
    match e
    case Alloc(size, junk, address) =>
      InvSpace(w, false);
      InvKnown(w.sp, GraphOf(w).bs, w.all);
      AllocSameOld(w, size, junk, address, b, l);
    case Initialise(o, ms) => InitSameOld(w, o, ms, b, l);
    case Barrier(o) => BarrierSameOld(w, o, b, l);
    case Write(o, i, v) => WriteSameOld(w, o, i, v, b, l);
    case SetRoots(rs) => RootsSameOld(w, rs, b, l);
  }

  lemma InitSameOld(w: World, o: Ref, ms: seq<Slot>, b: nat, l: nat)
    requires o in w.bs && w.bs[o].Plain?
    ensures SameOld(w, InitStep(w, o, ms), b, l)
  {
  }

  lemma WriteSameOld(w: World, o: Ref, i: nat, v: Slot, b: nat, l: nat)
    requires o in w.bs && w.bs[o].Plain? && i < |w.bs[o].members|
    ensures SameOld(w, WriteStep(w, o, i, v), b, l)
  {
  }

  lemma BarrierSameOld(w: World, o: Ref, b: nat, l: nat)
    requires o in w.hs && o in w.bs
    ensures SameOld(w, BarrierStep(w, o), b, l)
  {
  }

  lemma RootsSameOld(w: World, rs: set<Ref>, b: nat, l: nat)
    ensures SameOld(w, w.(roots := rs), b, l)
  {
  }

  // ---------------------------------------------------------------- collections

  /** A collection that traces leaves no surplus. */
  lemma TraceNoSurplus(w: World, found: seq<Ref>, b: nat, l: nat)
    requires Inv(w, false) && w.raw == {} && TraceExact(w, found) && b in w.sp.blocks && l < NUM_LINES
    requires forall o :: o in w.hs ==> !w.hs[o].isNew
    ensures SurplusOf(w, b, l) == 0
  {
    IdleFromInv(w);
    MaskedNothing(w);
    OldImmix(GraphOf(w), false);
    hide Inv, Reachable, IsGc, OldSet, Idle;
    assert CountOn(w.bs, w.bs.Keys, b, l) == w.sp.blocks[b].lines[l];
    assert (set o | o in w.bs.Keys && CoversLine(w.bs, o, b, l))
        == set o | o in OldSet(GraphOf(w)) && CoversLine(w.bs, o, b, l);
  }

  /** Pinning the roots and choosing candidates changes no counter. */
  lemma PinnedSurplus(w: World, found: seq<Ref>, threshold: Option<nat>, b: nat, l: nat)
    requires Inv(w, false) && w.raw == {} && (threshold.Some? ==> 0 < threshold.value)
    requires forall o :: o in found ==> IsGc(w.sp.blocks, o) || o in w.los.objects
    ensures var g := Pinned(w, found, threshold);
      && Idle(g, false) && OldSurplus(g, b, l) == SurplusOf(w, b, l)
      && LoggedOn(g.hs, g.bs, b, l) == LoggedOn(w.hs, w.bs, b, l)
  {
    hide Inv, Idle, LoggedOn, OldSurplus;
    FoundKnown(w, found, false);
    PinnedIdle(w, found, threshold, false);
    IdleFromInv(w);
    PinnedFields(w, found, threshold);
    PinnedSame(w, found, threshold, b, l);
    MaskedNothing(w);
    SurplusSame(GraphOf(w), Pinned(w, found, threshold), false, false, b, l);
  }

  lemma PinnedSame(w: World, found: seq<Ref>, threshold: Option<nat>, b: nat, l: nat)
    requires w.raw == {}
    ensures var g := Pinned(w, found, threshold);
      && LineOf(g.blocks, b, l) == LineOf(w.sp.blocks, b, l)
      && (forall o :: o in g.hs && !g.hs[o].isNew <==> o in w.hs && !w.hs[o].isNew)
      && g.bs == GraphOf(w).bs == w.bs
      && LoggedOn(g.hs, g.bs, b, l) == LoggedOn(w.hs, w.bs, b, l)
  {
    hide GetAllBlocks, CoversLine;
    MaskedNothing(w);
    var g := Pinned(w, found, threshold);
    assert (set o | o in g.hs.Keys && g.hs[o].logged && CoversLine(g.bs, o, b, l))
        == set o | o in w.hs.Keys && w.hs[o].logged && CoversLine(w.bs, o, b, l);
  }

  lemma CollectSurplus(w: World, found: seq<Ref>, evac: bool, threshold: Option<nat>, b: nat, l: nat)
    requires Inv(w, false) && Contract(w, Collect(found, evac, false, threshold))
    ensures CollectReady(w, found, evac, false, threshold)
    ensures SurplusOf(CollectStep(w, found, evac, false, threshold), b, l)
         == SurplusOf(w, b, l) + LoggedOn(w.hs, w.bs, b, l)
  {
    CollectAny(w, found, evac, false, threshold);
    hide *;
    CollectKeeps(w, found, evac, false, threshold, false);
    RcSettles(w, found, evac, threshold, false);
    FoundKnown(w, found, false);
    NewAreRemoved(w, found, threshold, false);
    RcStartIs(w, found, threshold);
    PinnedRoots(w, found, threshold, false);
    PinnedSurplus(w, found, threshold, b, l);
    var g := Pinned(w, found, threshold);
    var f := AfterRc(w, found, evac, threshold);
    PinnedFields(w, found, threshold);
    RcSurplus(g, OnBlocks(Candidates(w, threshold), w.all + GetAllBlocks(w.sp), RemoveNew), found, evac, false, b, l);
    AfterRcIs(w, found, evac, threshold);
    CompletedSurplus(w, f, found, b, l);
    NoTraceStep(w, found, evac, threshold);
  }

  lemma AfterRcIs(w: World, found: seq<Ref>, evac: bool, threshold: Option<nat>)
    requires RcReady(w, found, threshold)
    ensures AfterRc(w, found, evac, threshold) == FinishRc(CollectRc(RcStart(w, found, threshold), found, evac))
  {
  }

  lemma NoTraceStep(w: World, found: seq<Ref>, evac: bool, threshold: Option<nat>)
    requires CollectReady(w, found, evac, false, threshold)
    ensures RcReady(w, found, threshold)
    ensures var f, all := AfterRc(w, found, evac, threshold), w.all + GetAllBlocks(w.sp);
      SweepReady(w.sp, f.blocks, all)
      && CollectStep(w, found, evac, false, threshold) == Complete(w, f, all, found, false)
  {
    hide RcReady, AfterRc, Complete;
  }

  /** The sweep changes no counter, as a block that it resets has none that is not zero. */
  lemma CompletedSurplus(w: World, f: Rc, found: seq<Ref>, b: nat, l: nat)
    requires Inv(w, false) && w.raw == {} && w.roots <= RootSet(found) && Settled(w, f, found, w.mark, false)
    ensures var all := w.all + GetAllBlocks(w.sp);
      && SweepReady(w.sp, f.blocks, all)
      && SurplusOf(Complete(w, f, all, found, false), b, l) == OldSurplus(f, b, l)
  {
    hide Inv, Complete, Idle, IsGc, GetAllBlocks, OldSurplus;
    CompleteKeeps(w, f, found, false, false, false);
    var w' := Complete(w, f, w.all + GetAllBlocks(w.sp), found, false);
    SettledParts(w, f, found);
    IdleFromInv(w');
    MaskedNothing(w');
    hide Settled;
    SurplusSame(f, GraphOf(w'), false, false, b, l);
  }

  lemma SettledParts(w: World, f: Rc, found: seq<Ref>)
    requires Settled(w, f, found, w.mark, false)
    ensures Idle(f, false) && f.hs.Keys == f.bs.Keys && forall o :: o in f.hs ==> !f.hs[o].isNew
  {
    SettledCollected(w, f, found, w.mark, false);
  }

  // ---------------------------------------------------------------- runs

  /** No object lies outside of the lines of built blocks. */
  lemma NoSurplusOutside(w: World, b: nat, l: nat)
    requires Inv(w, false) && (b !in w.sp.blocks || l >= NUM_LINES)
    ensures SurplusOf(w, b, l) == 0
  {
    IdleFromInv(w);
    WholeObjects(GraphOf(w), false);
    OldImmix(GraphOf(w), false);
    hide Inv, Idle, OldSet;
    assert (set o | o in OldSet(GraphOf(w)) && CoversLine(GraphOf(w).bs, o, b, l)) == {};
  }

  lemma WholeObjects(g: Rc, exact: bool)
    requires Idle(g, exact)
    ensures forall o, b, l :: o in g.bs && CoversLine(g.bs, o, b, l) ==> b in g.blocks && 0 <= l < NUM_LINES
  {
    forall o, b, l | o in g.bs && CoversLine(g.bs, o, b, l)
      ensures b in g.blocks && 0 <= l < NUM_LINES
    {
      WholeObject(g, exact, o);
      CountedLinesInBlock(o.offset, g.bs[o].size);
    }
  }

  lemma WholeObject(g: Rc, exact: bool, o: Ref)
    requires Idle(g, exact) && o in g.bs && o.Immix?
    ensures o.block in g.blocks && g.bs[o].Plain? && Fits(o.offset, g.bs[o].size)
  {
    hide Closed, Counts, LinesAtLeast, MapsExact, NewExact, Fits;
  }

  /** How often objects that had been counted on the line before have been counted on it again. */
  ghost function Carried(w: World, e: Event, b: nat, l: nat, sofar: nat): nat {
    if !e.Collect? then sofar
    else if e.immix then 0
    else sofar + LoggedOn(w.hs, w.bs, b, l)
  }

  /** The same over a run: a collection counts the logged objects again, and a trace starts anew. */
  ghost function Recounts(w: World, es: seq<Event>, b: nat, l: nat, sofar: nat): nat
    requires Inv(w, false) && Obeys(w, es)
    decreases |es|
  {
    if es == [] then sofar
    else
      StepKeeps(w, es[0], false);
      Recounts(Step(w, es[0]), es[1..], b, l, Carried(w, es[0], b, l, sofar))
  }

  lemma CarriedIs(w: World, e: Event, b: nat, l: nat, sofar: nat)
    ensures !e.Collect? ==> Carried(w, e, b, l, sofar) == sofar
    ensures e.Collect? && e.immix ==> Carried(w, e, b, l, sofar) == 0
    ensures e.Collect? && !e.immix ==> Carried(w, e, b, l, sofar) == sofar + LoggedOn(w.hs, w.bs, b, l)
    ensures e.Collect? ==> e == Collect(e.found, e.evac, e.immix, e.threshold)
  {
    hide LoggedOn;
  }

  lemma StepSurplus(w: World, e: Event, b: nat, l: nat)
    requires Inv(w, false) && Contract(w, e)
    requires SurplusOf(w, b, l) >= 0
    ensures Inv(Step(w, e), false)
    ensures SurplusOf(Step(w, e), b, l) == Carried(w, e, b, l, SurplusOf(w, b, l))
  {
    hide *;
    StepKeeps(w, e, false);
    CarriedIs(w, e, b, l, SurplusOf(w, b, l));
    if !e.Collect? {
      MutatorSameOld(w, e, b, l);
      SameOldSurplus(w, Step(w, e), b, l);
    } else {
      StepIs(w, e.found, e.evac, e.immix, e.threshold);
      if e.immix {
        TraceSurplus(w, e.found, e.evac, e.threshold, b, l);
      } else {
        CollectSurplus(w, e.found, e.evac, e.threshold, b, l);
      }
    }
  }

  lemma TraceSurplus(w: World, found: seq<Ref>, evac: bool, threshold: Option<nat>, b: nat, l: nat)
    requires Inv(w, false) && Contract(w, Collect(found, evac, true, threshold))
    ensures CollectReady(w, found, evac, true, threshold)
    ensures SurplusOf(CollectStep(w, found, evac, true, threshold), b, l) == 0
  {
    hide *;
    CollectKeeps(w, found, evac, true, threshold, false);
    var w' := CollectStep(w, found, evac, true, threshold);
    if b in w'.sp.blocks && l < NUM_LINES {
      TraceNoSurplus(w', found, b, l);
    } else {
      NoSurplusOutside(w', b, l);
    }
  }

  lemma {:induction false} RunSurplus(w: World, es: seq<Event>, b: nat, l: nat, sofar: nat)
    requires Inv(w, false) && Obeys(w, es) && SurplusOf(w, b, l) == sofar
    ensures SurplusOf(Run(w, es), b, l) == Recounts(w, es, b, l, sofar)
    decreases |es|
  {
    hide Inv, Step, Contract, SurplusOf, Carried;
    if es != [] {
      StepSurplus(w, es[0], b, l);
      StepKeeps(w, es[0], false);
      RunSurplus(Step(w, es[0]), es[1..], b, l, Carried(w, es[0], b, l, sofar));
    }
  }

  /** The recounts of a run from an empty heap. */
  ghost function RecountsOf(data: nat, bound: nat, es: seq<Event>, b: nat, l: nat): nat
    requires data % BLOCK_SIZE == 0
  {
    EmptyInv(data, bound);
    ExactWeakens(Empty(data, bound), true);
    if Obeys(Empty(data, bound), es) then Recounts(Empty(data, bound), es, b, l, 0) else 0
  }

  lemma AfterSurplus(w: World, data: nat, bound: nat, es: seq<Event>, b: nat, l: nat)
    requires data % BLOCK_SIZE == 0 && After(w, data, bound, es)
    ensures Inv(w, false) && SurplusOf(w, b, l) == RecountsOf(data, bound, es, b, l)
  {
    hide Inv, Obeys, Run, SurplusOf, Recounts;
    AfterInv(w, data, bound, es);
    EmptyInv(data, bound);
    ExactWeakens(Empty(data, bound), true);
    NoSurplusOutside(Empty(data, bound), b, l);
    RunSurplus(Empty(data, bound), es, b, l, 0);
  }

  /**
    At every point of a run a line's counter is exactly the number of valid objects that are not new and
    are counted on it, plus the number of times that an object has been counted on it again because it
    was announced to the barrier, since the last trace.
   */
  lemma RunsCountLinesExactly(w: World, data: nat, bound: nat, es: seq<Event>, b: nat, l: nat)
    requires data % BLOCK_SIZE == 0 && After(w, data, bound, es) && b in w.sp.blocks && l < NUM_LINES
    ensures w.sp.blocks[b].lines[l] ==
      |set o | o in w.bs.Keys && IsGc(w.sp.blocks, o) && !IsNewObject(w.sp.blocks, o) && CoversLine(w.bs, o, b, l)|
      + RecountsOf(data, bound, es, b, l)
  {
    hide After, RecountsOf;
    AfterSurplus(w, data, bound, es, b, l);
    OldCountedHere(w, b, l);
  }

  lemma OldCountedHere(w: World, b: nat, l: nat)
    requires Inv(w, false) && b in w.sp.blocks && l < NUM_LINES
    ensures SurplusOf(w, b, l) == w.sp.blocks[b].lines[l] -
      |set o | o in w.bs.Keys && IsGc(w.sp.blocks, o) && !IsNewObject(w.sp.blocks, o) && CoversLine(w.bs, o, b, l)|
  {
    IdleFromInv(w);
    NewSays(GraphOf(w), false);
    MaskedCovers(w, b, l);
    hide Inv, Idle, IsGc, IsNewObject, CoversLine, Masked;
    assert (set o | o in OldSet(GraphOf(w)) && CoversLine(GraphOf(w).bs, o, b, l)) ==
      set o | o in w.bs.Keys && IsGc(w.sp.blocks, o) && !IsNewObject(w.sp.blocks, o) && CoversLine(w.bs, o, b, l);
  }

  lemma NewSays(g: Rc, exact: bool)
    requires Idle(g, exact)
    ensures forall o :: o in g.hs && o.Immix? ==> (IsNewObject(g.blocks, o) <==> g.hs[o].isNew)
    ensures forall o :: IsGc(g.blocks, o) ==> o.Immix? && o in g.hs
  {
    hide Closed, Counts, LinesAtLeast, InSpace, Fits, IsNewObject;
  }

  lemma MaskedCovers(w: World, b: nat, l: nat)
    ensures forall o :: CoversLine(GraphOf(w).bs, o, b, l) <==> CoversLine(w.bs, o, b, l)
  {
  }

  // ---------------------------------------------------------------- runs without a barrier

  predicate NoBarrier(es: seq<Event>) {
    forall i :: 0 <= i < |es| ==> !es[i].Barrier?
  }

  ghost predicate NothingLogged(w: World) {
    forall o {:trigger w.hs[o]} :: o in w.hs ==> !w.hs[o].logged
  }

  lemma NothingLoggedOn(w: World, b: nat, l: nat)
    requires NothingLogged(w)
    ensures LoggedOn(w.hs, w.bs, b, l) == 0
  {
    hide CoversLine;
    assert (set o | o in w.hs.Keys && w.hs[o].logged && CoversLine(w.bs, o, b, l)) == {};
  }

  lemma StepLogsNothing(w: World, e: Event)
    requires Inv(w, false) && Contract(w, e) && NothingLogged(w) && !e.Barrier?
    ensures NothingLogged(Step(w, e))
  {
    StepKeeps(w, e, false);
    hide Inv, AllocStep, Reachable, CollectStep;
    match e
    case Alloc(size, junk, address) =>
      InvSpace(w, false);
      InvKnown(w.sp, GraphOf(w).bs, w.all);
      AllocLogsNothing(w, size, junk, address);
    case Initialise(o, ms) =>
    case Write(o, i, v) =>
    case SetRoots(rs) =>
    case Collect(found, evac, immix, threshold) =>
      StepIs(w, found, evac, immix, threshold);
      CollectKeeps(w, found, evac, immix, threshold, false);
      UnbufferedLogsNothing(Step(w, e));
  }

  lemma AllocLogsNothing(w: World, size: nat, junk: seq<Slot>, address: Ref)
    requires Known(w.sp) && NothingLogged(w)
    ensures NothingLogged(AllocStep(w, size, junk, address).0)
  {
    hide Known, SpaceAllocate, EnterObject;
  }

  lemma UnbufferedLogsNothing(w: World)
    requires Inv(w, false) && w.mods == []
    ensures NothingLogged(w)
  {
    IdleFromInv(w);
    UnbufferedUnlogged(GraphOf(w), false);
  }

  lemma UnbufferedUnlogged(g: Rc, exact: bool)
    requires Idle(g, exact) && g.mods == []
    ensures forall o {:trigger g.hs[o]} :: o in g.hs ==> !g.hs[o].logged
  {
    hide Wf, Counts, LinesAtLeast, MapsExact, NewExact;
    forall o {:trigger g.hs[o]} | o in g.hs
      ensures !g.hs[o].logged
    {
      assert HeaderOk(g, o);
    }
  }

  lemma {:induction false} NoBarrierRecounts(w: World, es: seq<Event>, b: nat, l: nat)
    requires Inv(w, false) && Obeys(w, es) && NoBarrier(es) && NothingLogged(w)
    ensures Recounts(w, es, b, l, 0) == 0 && NothingLogged(Run(w, es))
    decreases |es|
  {
    hide Inv, Step, Contract, NothingLogged, LoggedOn;
    if es != [] {
      StepKeeps(w, es[0], false);
      NothingLoggedOn(w, b, l);
      StepLogsNothing(w, es[0]);
      NoBarrierRecounts(Step(w, es[0]), es[1..], b, l);
    }
  }

  /** Without a barrier nothing is ever counted again, so every counter is exact. */
  lemma RunsCountExactlyWithoutBarrier(w: World, data: nat, bound: nat, es: seq<Event>, b: nat, l: nat)
    requires data % BLOCK_SIZE == 0 && After(w, data, bound, es) && NoBarrier(es)
    ensures RecountsOf(data, bound, es, b, l) == 0 && NothingLogged(w)
    ensures b in w.sp.blocks && l < NUM_LINES ==>
      (w.sp.blocks[b].lines[l] ==
       |set o | o in w.bs.Keys && IsGc(w.sp.blocks, o) && !IsNewObject(w.sp.blocks, o) && CoversLine(w.bs, o, b, l)|)
  {
    hide Inv, Obeys, Run, Recounts, NoBarrier;
    EmptyInv(data, bound);
    ExactWeakens(Empty(data, bound), true);
    NoBarrierRecounts(Empty(data, bound), es, b, l);
    hide After, RecountsOf;
    if b in w.sp.blocks && l < NUM_LINES {
      RunsCountLinesExactly(w, data, bound, es, b, l);
    }
  }

  // ---------------------------------------------------------------- what is given back

  /** None of the block's lines has been counted again, nor will be by the next collection. */
  ghost predicate NeverRecounted(w: World, data: nat, bound: nat, es: seq<Event>, b: nat)
    requires data % BLOCK_SIZE == 0
  {
    forall l {:trigger RecountsOf(data, bound, es, b, l)} ::
      0 <= l < NUM_LINES ==> RecountsOf(data, bound, es, b, l) + LoggedOn(w.hs, w.bs, b, l) == 0
  }

  /**
    What counting alone gives back. After a collection without a trace a block can be handed out as a
    whole again if and only if it holds no object and none of its lines has been counted again. So in a
    run without a barrier it is the blocks without survivors that are given back.
   */
  lemma RunsGiveBackByCounting(w: World, data: nat, bound: nat, es: seq<Event>,
      found: seq<Ref>, evac: bool, threshold: Option<nat>, b: nat)
    requires data % BLOCK_SIZE == 0 && After(w, data, bound, es)
    requires Contract(w, Collect(found, evac, false, threshold)) && b in w.sp.blocks
    ensures Inv(w, false)
    ensures var w' := Step(w, Collect(found, evac, false, threshold));
      && (GivenBack(w'.sp, b) <==>
          (forall o :: o in w'.bs && o.Immix? ==> o.block != b) && NeverRecounted(w, data, bound, es, b))
      && (NoBarrier(es) ==>
            (GivenBack(w'.sp, b) <==> forall o :: o in w'.bs && o.Immix? ==> o.block != b))
  {
    hide *;
    AfterInv(w, data, bound, es);
    StepIs(w, found, evac, false, threshold);
    CollectKeeps(w, found, evac, false, threshold, false);
    CollectKeepsBlocks(w, found, evac, false, threshold);
    var w' := Step(w, Collect(found, evac, false, threshold));
    ExactWeakens(w', false && !false);
    forall l
      ensures 0 <= l < NUM_LINES ==>
        SurplusOf(w', b, l) == RecountsOf(data, bound, es, b, l) + LoggedOn(w.hs, w.bs, b, l)
    {
      if 0 <= l < NUM_LINES {
        AfterSurplus(w, data, bound, es, b, l);
        CollectSurplus(w, found, evac, threshold, b, l);
      }
    }
    if GivenBack(w'.sp, b) {
      FreeHoldsNothing(w', b);
      FreeHasNoSurplus(w', b);
    } else {
      EmptiedLists(w, found, evac, false, threshold, b);
      var l := RecycledUsed(w, found, evac, false, threshold, b);
      UsedHasReason(w', b, l);
    }
    RecountedIs(w, w', data, bound, es, b);
    if NoBarrier(es) {
      NeverWithoutBarrier(w, data, bound, es, b);
    }
  }

  lemma FreeHasNoSurplus(w: World, b: nat)
    requires Inv(w, false) && GivenBack(w.sp, b)
    ensures forall l :: 0 <= l < NUM_LINES ==> SurplusOf(w, b, l) == 0
  {
    FreeHoldsNothing(w, b);
    FreeIsZero(w, b);
    IdleFromInv(w);
    OldImmix(GraphOf(w), false);
    hide Inv, Idle, OldSet, GivenBack;
    forall l | 0 <= l < NUM_LINES
      ensures SurplusOf(w, b, l) == 0
    {
      assert (set o | o in OldSet(GraphOf(w)) && CoversLine(GraphOf(w).bs, o, b, l)) == {};
    }
  }

  lemma FreeIsZero(w: World, b: nat)
    requires Inv(w, false) && GivenBack(w.sp, b)
    ensures b in w.sp.blocks && forall l :: 0 <= l < NUM_LINES ==> w.sp.blocks[b].lines[l] == 0
  {
    hide Idle, HeapOk, Conserved;
    assert FreeOk(w.sp.blocks, GraphOf(w).bs, b);
  }

  /** A line in use has an object on it, or a surplus. */
  lemma UsedHasReason(w: World, b: nat, l: nat)
    requires Inv(w, false) && b in w.sp.blocks && l < NUM_LINES && w.sp.blocks[b].lines[l] > 0
    ensures SurplusOf(w, b, l) != 0 || exists o :: o in w.bs && o.Immix? && o.block == b
  {
    IdleFromInv(w);
    OldImmix(GraphOf(w), false);
    hide Inv, Idle, OldSet;
    if SurplusOf(w, b, l) == 0 {
      var on := set o | o in OldSet(GraphOf(w)) && CoversLine(GraphOf(w).bs, o, b, l);
      assert |on| > 0;
      var o :| o in on;
    }
  }

  lemma RecountedIs(w: World, w': World, data: nat, bound: nat, es: seq<Event>, b: nat)
    requires data % BLOCK_SIZE == 0
    requires forall l :: 0 <= l < NUM_LINES ==>
      SurplusOf(w', b, l) == RecountsOf(data, bound, es, b, l) + LoggedOn(w.hs, w.bs, b, l)
    ensures NeverRecounted(w, data, bound, es, b) <==> forall l :: 0 <= l < NUM_LINES ==> SurplusOf(w', b, l) == 0
  {
    hide SurplusOf, RecountsOf, LoggedOn;
  }

  lemma NeverWithoutBarrier(w: World, data: nat, bound: nat, es: seq<Event>, b: nat)
    requires data % BLOCK_SIZE == 0 && After(w, data, bound, es) && NoBarrier(es)
    ensures NeverRecounted(w, data, bound, es, b)
  {
    hide After, RecountsOf, LoggedOn, NoBarrier;
    forall l | 0 <= l < NUM_LINES
      ensures RecountsOf(data, bound, es, b, l) + LoggedOn(w.hs, w.bs, b, l) == 0
    {
      RunsCountExactlyWithoutBarrier(w, data, bound, es, b, l);
      NothingLoggedOn(w, b, l);
    }
  }

  // ---------------------------------------------------------------- candidates

  /** What the collectors do to a block's record leaves the flag for candidates alone. */
  lemma CollectorsKeepFlags(w: World, found: seq<Ref>, evac: bool, immix: bool, threshold: Option<nat>, b: nat)
    requires Inv(w, false) && Contract(w, Collect(found, evac, immix, threshold)) && b in w.sp.blocks
    ensures RcReady(w, found, threshold)
    ensures var g := AfterCollectors(w, found, evac, immix, threshold);
      && b in g.blocks && b in Candidates(w, threshold)
      && g.blocks[b].candidate == Candidates(w, threshold)[b].candidate
  {
    CollectAny(w, found, evac, immix, threshold);
    hide *;
    RcSettles(w, found, evac, threshold, false);
    FoundKnown(w, found, false);
    NewAreRemoved(w, found, threshold, false);
    RcStartIs(w, found, threshold);
    PinnedRoots(w, found, threshold, false);
    PinnedIdle(w, found, threshold, false);
    var g := Pinned(w, found, threshold);
    PinnedFields(w, found, threshold);
    IdleFromInv(w);
    AfterRcIs(w, found, evac, threshold);
    var blocks' := OnBlocks(Candidates(w, threshold), w.all + GetAllBlocks(w.sp), RemoveNew);
    RcCollectionIsSafe(g, blocks', found, evac, false);
    FlagsThrough(w, found, evac, immix, threshold, g, b);
  }

  lemma CollectAny(w: World, found: seq<Ref>, evac: bool, immix: bool, threshold: Option<nat>)
    requires Contract(w, Collect(found, evac, immix, threshold))
    ensures w.raw == {} && w.roots <= RootSet(found) && (threshold.Some? ==> 0 < threshold.value)
    ensures forall o :: o in found ==> IsGc(w.sp.blocks, o) || o in w.los.objects
  {
  }

  lemma FlagsThrough(w: World, found: seq<Ref>, evac: bool, immix: bool, threshold: Option<nat>, g: Rc, b: nat)
    requires RcReady(w, found, threshold) && b in w.sp.blocks
    requires SameShape(g.bs, OnBlocks(Candidates(w, threshold), w.all + GetAllBlocks(w.sp), RemoveNew),
      AfterRc(w, found, evac, threshold).blocks)
    ensures var r := AfterCollectors(w, found, evac, immix, threshold);
      && b in r.blocks && b in Candidates(w, threshold)
      && r.blocks[b].candidate == Candidates(w, threshold)[b].candidate
  {
    hide RcReady, AfterRc, GetAllBlocks, Reachable, HasObject;
  }

  /**
    Which blocks are candidates. After a collection that evacuates, the recyclable blocks with at least as
    many holes before it as the threshold says; after any other, those that were candidates before.
   */
  lemma RunsMarkCandidates(w: World, data: nat, bound: nat, es: seq<Event>,
      found: seq<Ref>, evac: bool, immix: bool, threshold: Option<nat>, b: nat)
    requires data % BLOCK_SIZE == 0 && After(w, data, bound, es)
    requires Contract(w, Collect(found, evac, immix, threshold))
    ensures Inv(w, false)
    ensures var w' := Step(w, Collect(found, evac, immix, threshold));
      b in w'.sp.normal.recyclable ==>
        && b in w.sp.blocks && b in w'.sp.blocks
        && (w'.sp.blocks[b].candidate <==>
            if threshold.Some? then w.sp.blocks[b].holes >= threshold.value else w.sp.blocks[b].candidate)
  {
    hide *;
    AfterInv(w, data, bound, es);
    CollectKeeps(w, found, evac, immix, threshold, false);
    StepIs(w, found, evac, immix, threshold);
    CollectKeepsBlocks(w, found, evac, immix, threshold);
    if b in CollectStep(w, found, evac, immix, threshold).sp.normal.recyclable {
      RecycledGathered(w, found, evac, immix, threshold, b);
      CollectorsKeepFlags(w, found, evac, immix, threshold, b);
      GatheredCandidate(w, threshold, b);
    }
  }

  lemma RecycledGathered(w: World, found: seq<Ref>, evac: bool, immix: bool, threshold: Option<nat>, b: nat)
    requires CollectReady(w, found, evac, immix, threshold)
    requires b in CollectStep(w, found, evac, immix, threshold).sp.normal.recyclable
    ensures RcReady(w, found, threshold)
    ensures var g := AfterCollectors(w, found, evac, immix, threshold);
      var w' := CollectStep(w, found, evac, immix, threshold);
      && b in w.all + GetAllBlocks(w.sp) && b in g.blocks && b in w'.sp.blocks
      && w'.sp.blocks[b].candidate == g.blocks[b].candidate
  {
    hide RcReady, AfterCollectors, HolesFrom, GetAllBlocks;
  }

  lemma GatheredCandidate(w: World, threshold: Option<nat>, b: nat)
    requires b in w.sp.blocks && b in w.all + GetAllBlocks(w.sp)
    ensures b in Candidates(w, threshold)
    ensures Candidates(w, threshold)[b].candidate <==>
      if threshold.Some? then w.sp.blocks[b].holes >= threshold.value else w.sp.blocks[b].candidate
  {
    hide GetAllBlocks;
  }
}
