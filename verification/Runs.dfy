/** Runs: any interleaving of mutator steps that keep the contract with collections of any kind. */
module Runs {
  import opened Constants
  import opened Wrappers
  import opened Objects
  import opened BlockLines
  import opened BlockTables
  import opened Graph
  import opened RcModel
  import opened RcProofs
  import opened RcTheorems
  import opened AllocatorModel
  import opened AllocatorProofs
  import opened SweepModel
  import opened TraceProofs
  import opened TraceTheorems
  import opened SpacesModel
  import opened SpacesProofs
  import opened CollectProofs
  import opened TraceReady

  lemma ExactWeakens(w: World, exact: bool)
    requires Inv(w, exact)
    ensures Inv(w, false)
  {
    hide LinesAtLeast, SpaceInv, IsGc, IsNewObject, Debt, Wf;
  }

  ghost function Step(w: World, e: Event): World
    requires Inv(w, false) && Contract(w, e)
  {
    match e
    case Alloc(size, junk, address) =>
      InvSpace(w, false);
      InvKnown(w.sp, GraphOf(w).bs, w.all);
      AllocStep(w, size, junk, address).0
    case Initialise(o, ms) => InitStep(w, o, ms)
    case Barrier(o) =>
      KeysAgree(w);
      BarrierStep(w, o)
    case Write(o, i, v) => WriteStep(w, o, i, v)
    case SetRoots(rs) => w.(roots := rs)
    case Collect(found, evac, immix, threshold) =>
      CollectKeeps(w, found, evac, immix, threshold, false);
      CollectStep(w, found, evac, immix, threshold)
  }

  lemma KeysAgree(w: World)
    requires Inv(w, false)
    ensures w.hs.Keys == w.bs.Keys
  {
    hide SpaceInv;
    IdleKeys(GraphOf(w), false);
  }

  predicate IsTrace(e: Event) {
    e.Collect? && e.immix
  }

  /** Every step keeps the invariant; only a trace may leave counts that are too high. */
  lemma StepKeeps(w: World, e: Event, exact: bool)
    requires Inv(w, false) && Inv(w, exact) && Contract(w, e)
    ensures Inv(Step(w, e), exact && !IsTrace(e))
    ensures Inv(Step(w, e), false)
  {
    hide Inv, CollectStep, AllocStep, Reachable, IsGc;
    match e {
      case Alloc(size, junk, address) =>
        InvSpace(w, false);
        InvKnown(w.sp, GraphOf(w).bs, w.all);
        if size < LARGE_OBJECT {
          SmallAllocKeeps(w, size, junk, address, exact);
        } else {
          LargeAllocKeeps(w, size, junk, address, exact);
        }
      case Initialise(o, ms) => InitKeeps(w, o, ms, exact);
      case Barrier(o) =>
        KeysAgree(w);
        BarrierStepKeeps(w, o, exact);
      case Write(o, i, v) => WriteKeeps(w, o, i, v, exact);
      case SetRoots(rs) => SetRootsKeeps(w, rs, exact);
      case Collect(found, evac, immix, threshold) =>
        CollectKeeps(w, found, evac, immix, threshold, false);
        CollectKeeps(w, found, evac, immix, threshold, exact);
    }
    ExactWeakens(Step(w, e), exact && !IsTrace(e));
  }

  /** The mutator keeps its side of the bargain all along the run. */
  ghost predicate Obeys(w: World, es: seq<Event>)
    requires Inv(w, false)
    decreases |es|
  {
    es == [] || (Contract(w, es[0]) && (StepKeeps(w, es[0], false); Obeys(Step(w, es[0]), es[1..])))
  }

  ghost function Run(w: World, es: seq<Event>): World
    requires Inv(w, false) && Obeys(w, es)
    decreases |es|
  {
    if es == [] then w
    else
      StepKeeps(w, es[0], false);
      Run(Step(w, es[0]), es[1..])
  }

  predicate NoTrace(es: seq<Event>) {
    forall i :: 0 <= i < |es| ==> !IsTrace(es[i])
  }

  lemma {:induction false} RunKeeps(w: World, es: seq<Event>, exact: bool)
    requires Inv(w, false) && Inv(w, exact) && Obeys(w, es)
    ensures Inv(Run(w, es), exact && NoTrace(es))
    decreases |es|
  {
    hide Inv, Step, Contract;
    if es != [] {
      StepKeeps(w, es[0], false);
      StepKeeps(w, es[0], exact);
      RunKeeps(Step(w, es[0]), es[1..], exact && !IsTrace(es[0]));
      assert NoTrace(es) ==> !IsTrace(es[0]);
      assert NoTrace(es) <==> !IsTrace(es[0]) && NoTrace(es[1..]) by {
        assert forall i :: 1 <= i < |es| ==> es[i] == es[1..][i - 1];
      }
    } else {
      ExactSame(w, exact && NoTrace(es), exact);
    }
  }

  lemma ExactSame(w: World, a: bool, b: bool)
    requires Inv(w, b) && (a ==> b)
    ensures Inv(w, a)
  {
    hide Inv;
    if !a {
      ExactWeakens(w, b);
    }
  }

  /** The state after a run from an empty heap; its first block is aligned wherever the memory map starts. */
  ghost predicate After(w: World, data: nat, bound: nat, es: seq<Event>)
    requires data % BLOCK_SIZE == 0
  {
    EmptyInv(data, bound);
    ExactWeakens(Empty(data, bound), true);
    Obeys(Empty(data, bound), es) && w == Run(Empty(data, bound), es)
  }

  lemma AfterInv(w: World, data: nat, bound: nat, es: seq<Event>)
    requires data % BLOCK_SIZE == 0 && After(w, data, bound, es)
    ensures Inv(w, NoTrace(es)) && Inv(w, false)
  {
    hide Inv, Obeys, Run;
    EmptyInv(data, bound);
    ExactWeakens(Empty(data, bound), true);
    RunKeeps(Empty(data, bound), es, true);
    ExactWeakens(w, NoTrace(es));
  }

  // ---------------------------------------------------------------- what holds after every run

  /**
    Safety: every reference the mutator holds is valid, so is every address it can come to by following
    members, and no initialised valid object has a dangling member. What a path leads to is not looked
    up in the memory, so an object that had been reclaimed would be met here.
   */
  lemma RunsAreSafe(w: World, data: nat, bound: nat, es: seq<Event>)
    requires data % BLOCK_SIZE == 0 && After(w, data, bound, es)
    ensures forall r :: r in w.roots ==> ValidObject(w, r)
    ensures forall r, o :: r in w.roots && Reaches(Masked(w.bs, w.raw), r, o) ==> ValidObject(w, o)
    ensures forall o, c ::
      (ValidObject(w, o) && o !in w.raw && o in w.bs && w.bs[o].Plain? && Some(c) in w.bs[o].members) ==>
        ValidObject(w, c)
  {
    hide IsGc, InRefs, LinesAtLeast, Counts, SpaceInv, IsNewObject, InSpace, After, Reaches;
    AfterInv(w, data, bound, es);
    ReachIsValid(w, false);
    forall o, c | o in w.bs && o !in w.raw && w.bs[o].Plain? && Some(c) in w.bs[o].members
      ensures ValidObject(w, c)
    {
      SlotKnown(w, o, c, false);
      assert c in GraphOf(w).hs;
    }
  }

  /**
    A collection is always allowed when no object waits for its members: whatever addresses lie on the
    stack with the held references among them, keeping those of valid objects loses no held reference.
   */
  lemma RunsMayCollect(w: World, data: nat, bound: nat, es: seq<Event>,
      stack: seq<Ref>, found: seq<Ref>, evac: bool, immix: bool, threshold: Option<nat>)
    requires data % BLOCK_SIZE == 0 && After(w, data, bound, es) && w.raw == {} && w.roots <= RootSet(stack)
    requires forall o :: o in found <==> o in stack && ValidObject(w, o)
    requires threshold.Some? ==> 0 < threshold.value
    ensures w.roots <= RootSet(found) && Contract(w, Collect(found, evac, immix, threshold))
  {
    hide IsGc, After, Inv, Reaches;
    AfterInv(w, data, bound, es);
    ReachIsValid(w, false);
  }

  /**
    No object is ever moved, whatever collection is asked for, as no guard of an evacuation is ever met:
    the reference counting part does not ask for one, and the trace starts without a candidate, so that
    every run of its loop leaves objects, headroom and cursor alone.
   */
  lemma RunsNeverMove(w: World, data: nat, bound: nat, es: seq<Event>,
      found: seq<Ref>, evac: bool, immix: bool, threshold: Option<nat>)
    requires data % BLOCK_SIZE == 0 && After(w, data, bound, es)
    requires Contract(w, Collect(found, evac, immix, threshold))
    ensures RcReady(w, found, threshold)
    ensures !CollectRc(RcStart(w, found, threshold), found, evac).evacTried
    ensures var f := AfterRc(w, found, evac, threshold);
      var s := StartAfter(w, f, found, evac);
      && StartOk(s) && NoCandidates(s)
      && forall t, orig :: Traced(s, t, orig) ==> t.bs == f.bs && t.evac == s.evac
  {
    hide Inv, After, CollectRc, RcStart, RcReady, Settled, StartOk, NoCandidates, Cleared, Traced, Reachable,
      StartAfter, AfterRc, LiveSet, Scope,
      IsGc;
    AfterInv(w, data, bound, es);
    RcSettles(w, found, evac, threshold, false);
    var f := AfterRc(w, found, evac, threshold);
    var s := StartAfter(w, f, found, evac);
    SettledCollected(w, f, found, w.mark, false);
    StartIsOk(w, f, found, evac, false);
    ClearedHasNoCandidates(s);
    StartBodies(w, f, found, evac);
    forall t, orig | Traced(s, t, orig)
      ensures t.bs == f.bs && t.evac == s.evac
    {
      TraceIsExact(s, t, orig);
    }
  }

  lemma StartBodies(w: World, f: Rc, found: seq<Ref>, evac: bool)
    ensures StartAfter(w, f, found, evac).bs == f.bs
  {
  }

  /**
    The deferred, coalesced count invariant: an object's count is at least the number of references to
    it in members of valid objects that are neither new nor logged, plus its places in the buffers;
    and it is exactly that as long as no trace has run.
   */
  lemma RunsCount(w: World, data: nat, bound: nat, es: seq<Event>, o: Ref)
    requires data % BLOCK_SIZE == 0 && After(w, data, bound, es) && o in w.hs
    ensures var owners := set p | p in w.hs.Keys && !w.hs[p].isNew && !w.hs[p].logged;
      && owners <= w.bs.Keys
      && var held := InRefs(w.bs, owners)[o] + multiset(w.oldRoots)[o] + multiset(w.decs)[o];
      w.hs[o].count >= held && (NoTrace(es) ==> w.hs[o].count == held)
  {
    hide IsGc, InRefs, LinesAtLeast, IsNewObject, InSpace, After, SpaceInv, MapsExact, NewExact, NonNull;
    AfterInv(w, data, bound, es);
    var g := GraphOf(w);
    var owners := set p | p in w.hs.Keys && !w.hs[p].isNew && !w.hs[p].logged;
    assert w.hs.Keys == w.bs.Keys by { KeysAgree(w); }
    forall p | p in w.hs
      ensures p in owners <==> p in Contributing(g)
    {
      assert HeaderOk(g, p);
    }
    assert owners == Contributing(g);
    InRefsFrame(w.bs, g.bs, owners);
    assert Counts(g.hs, multiset{}, Debt(g), NoTrace(es));
  }

  /** Disjointness: any two objects of a block are whole inside of it, beyond its first line, and share no byte. */
  lemma RunsKeepBytesApart(w: World, data: nat, bound: nat, es: seq<Event>, o: Ref, p: Ref)
    requires data % BLOCK_SIZE == 0 && After(w, data, bound, es)
    requires o in w.bs && p in w.bs && o.Immix? && p.Immix? && o != p && o.block == p.block
    ensures w.bs[o].Plain? && w.bs[p].Plain?
    ensures LINE_SIZE <= o.offset && o.offset + w.bs[o].size < BLOCK_SIZE
    ensures o.offset + w.bs[o].size <= p.offset || p.offset + w.bs[p].size <= o.offset
  {
    hide IsGc, InRefs, LinesAtLeast, IsNewObject, InSpace, After, Idle, Conserved, ListsOk, OptCursorOk, OldCounted;
    AfterInv(w, data, bound, es);
    KeysAgree(w);
    var bs := GraphOf(w).bs;
    assert o in bs && p in bs;
    assert End(bs, o) <= p.offset || End(bs, p) <= o.offset;
  }

  /** Conservation: every block built so far is in exactly one place, and blocks do not overlap. */
  lemma RunsKeepBlocks(w: World, data: nat, bound: nat, es: seq<Event>)
    requires data % BLOCK_SIZE == 0 && After(w, data, bound, es)
    ensures Stock(w.sp, w.all) == multiset(w.sp.blocks.Keys)
    ensures forall a, b :: a in w.sp.blocks && b in w.sp.blocks && a != b ==> a + BLOCK_SIZE <= b || b + BLOCK_SIZE <= a
    ensures |w.sp.evac.headroom| <= EVAC_HEADROOM && w.all == []
  {
    hide Idle, HeapOk, ListsOk, OptCursorOk, After, Stock;
    AfterInv(w, data, bound, es);
    forall a, b | a in w.sp.blocks && b in w.sp.blocks && a != b
      ensures a + BLOCK_SIZE <= b || b + BLOCK_SIZE <= a
    {
      BlocksDisjoint(w.sp, w.all, a, b);
    }
  }

  // ---------------------------------------------------------------- room for medium objects

  lemma StepStaysToEnd(w: World, e: Event)
    requires Inv(w, false) && Contract(w, e) && OverflowToEnd(w.sp)
    ensures OverflowToEnd(Step(w, e).sp)
  {
    hide Inv, SpaceAllocate, EnterObject, CollectStep, Reachable, Masked;
    StepKeeps(w, e, false);
    match e
    case Alloc(size, junk, address) =>
      InvSpace(w, false);
      InvKnown(w.sp, GraphOf(w).bs, w.all);
      SpaceStaysToEnd(w.sp, size);
    case Collect(found, evac, immix, threshold) =>
      StepIs(w, found, evac, immix, threshold);
      CollectDrains(w, found, evac, immix, threshold);
    case _ =>
  }

  lemma CollectDrains(w: World, found: seq<Ref>, evac: bool, immix: bool, threshold: Option<nat>)
    requires CollectReady(w, found, evac, immix, threshold)
    ensures OverflowToEnd(CollectStep(w, found, evac, immix, threshold).sp)
  {
    hide AfterCollectors, RcReady;
  }

  lemma {:induction false} RunStaysToEnd(w: World, es: seq<Event>)
    requires Inv(w, false) && Obeys(w, es) && OverflowToEnd(w.sp)
    ensures OverflowToEnd(Run(w, es).sp)
    decreases |es|
  {
    hide Inv, Step, Contract, OverflowToEnd;
    if es != [] {
      StepKeeps(w, es[0], false);
      StepStaysToEnd(w, es[0]);
      RunStaysToEnd(Step(w, es[0]), es[1..]);
    }
  }

  /**
    After every run the overflow allocator's hole reaches to the end of its block, so that a medium
    object is refused exactly if it does not fit behind the cursor and no block can be had.
   */
  lemma RunsRefuseMediumExactly(w: World, data: nat, bound: nat, es: seq<Event>, size: nat)
    requires data % BLOCK_SIZE == 0 && After(w, data, bound, es) && MEDIUM_OBJECT <= size < LARGE_OBJECT
    ensures Known(w.sp) && OverflowToEnd(w.sp)
    ensures SpaceAllocate(w.sp, size).1.None? <==>
      && (w.sp.overflow.current.Some? ==> LAST_OFFSET - w.sp.overflow.current.value.low < size)
      && w.sp.ba.free == [] && w.sp.ba.data + BLOCK_SIZE >= w.sp.ba.bound
  {
    hide Inv, Obeys, Run, SpaceAllocate;
    AfterInv(w, data, bound, es);
    EmptyInv(data, bound);
    ExactWeakens(Empty(data, bound), true);
    RunStaysToEnd(Empty(data, bound), es);
    InvSpace(w, false);
    InvKnown(w.sp, GraphOf(w).bs, w.all);
    MediumRefusedExactly(w.sp, size);
  }

  /** Line counters never fall below the number of old objects counted on the line, and the first line stays free. */
  lemma RunsCountLines(w: World, data: nat, bound: nat, es: seq<Event>, b: nat, l: nat)
    requires data % BLOCK_SIZE == 0 && After(w, data, bound, es) && b in w.sp.blocks && l < NUM_LINES
    ensures w.sp.blocks[b].lines[l] >=
      |set o | o in w.bs.Keys && IsGc(w.sp.blocks, o) && !IsNewObject(w.sp.blocks, o) && CoversLine(w.bs, o, b, l)|
    ensures w.sp.blocks[b].lines[0] == 0
  {
    hide InRefs, InSpace, After, SpaceInv, Counts, HeadersOk, ModsOk, Debt, Closed, Covers, Fits;
    AfterInv(w, data, bound, es);
    KeysAgree(w);
    var g := GraphOf(w);
    var s := OldSet(g);
    assert g.blocks[b].lines[l] >= CountOn(g.bs, s, b, l);
    assert (set x | x in s && CoversLine(g.bs, x, b, l)) ==
      set o | o in w.bs.Keys && IsGc(w.sp.blocks, o) && !IsNewObject(w.sp.blocks, o) && CoversLine(w.bs, o, b, l);
  }

  /** The three copies of the live mark agree, and every valid object carries it. */
  lemma RunsAgreeOnMarks(w: World, data: nat, bound: nat, es: seq<Event>)
    requires data % BLOCK_SIZE == 0 && After(w, data, bound, es)
    ensures w.sp.mark == w.mark && w.los.mark == w.mark
    ensures forall o ::
      IsGc(w.sp.blocks, o) || o in w.los.objects ==> o in w.hs && w.hs[o].marked == w.mark && !w.hs[o].pinned
  {
    hide IsGc, InRefs, LinesAtLeast, Counts, IsNewObject, InSpace, After, SpaceInv;
    AfterInv(w, data, bound, es);
  }

  /** An object enters the modified buffer at most once between two drains: it holds exactly the logged objects. */
  lemma RunsBufferOnce(w: World, data: nat, bound: nat, es: seq<Event>)
    requires data % BLOCK_SIZE == 0 && After(w, data, bound, es)
    ensures forall i, j :: 0 <= i < j < |w.mods| ==> w.mods[i] != w.mods[j]
    ensures forall o :: o in w.mods <==> o in w.hs && w.hs[o].logged
    ensures forall o :: o in w.mods ==> !w.hs[o].isNew
  {
    hide IsGc, InRefs, LinesAtLeast, Counts, IsNewObject, InSpace, After, SpaceInv, Closed;
    AfterInv(w, data, bound, es);
    var g := GraphOf(w);
    forall o | o in w.hs
      ensures w.hs[o].logged ==> o in w.mods
    {
      assert HeaderOk(g, o);
    }
  }

  /**
    Completeness of reference counting: after a collection without a trace, in a run without traces,
    every survivor has a count of at least one, and is reached by the roots or lies behind a cycle of
    unreachable survivors. So all acyclic garbage goes in one collection.
   */
  lemma RunsCollectAcyclicGarbage(w: World, data: nat, bound: nat, es: seq<Event>,
      found: seq<Ref>, evac: bool, threshold: Option<nat>, o: Ref)
    requires data % BLOCK_SIZE == 0 && After(w, data, bound, es) && NoTrace(es)
    requires Contract(w, Collect(found, evac, false, threshold))
    ensures Inv(w, false)
    ensures var w' := Step(w, Collect(found, evac, false, threshold));
      o in w'.bs ==>
        && o in w'.hs && w'.hs[o].count >= 1
        && var reached := Reachable(w'.bs, RootSet(found));
        o in reached || BehindCycle(w'.bs, w'.bs.Keys - reached, o)
  {
    hide Inv, After, CollectStep, Contract, BehindCycle, Reachable;
    AfterInv(w, data, bound, es);
    CollectKeeps(w, found, evac, false, threshold, true);
    CollectKeeps(w, found, evac, false, threshold, false);
    var w' := Step(w, Collect(found, evac, false, threshold));
    if o in w'.bs {
      InvIdle(w', true);
      MaskedNothing(w');
      RcCollectionIsComplete(GraphOf(w'), found, o);
    }
  }

  lemma InvIdle(w: World, exact: bool)
    requires Inv(w, exact)
    ensures Idle(GraphOf(w), exact) && w.hs.Keys == w.bs.Keys
  {
    hide SpaceInv;
    IdleKeys(GraphOf(w), exact);
  }

  /** A collection in a run keeps all that the found roots reach; with a trace it keeps nothing else. */
  lemma RunsCollectExactly(w: World, data: nat, bound: nat, es: seq<Event>,
      found: seq<Ref>, evac: bool, immix: bool, threshold: Option<nat>)
    requires data % BLOCK_SIZE == 0 && After(w, data, bound, es)
    requires Contract(w, Collect(found, evac, immix, threshold))
    ensures Inv(w, false)
    ensures var w' := Step(w, Collect(found, evac, immix, threshold));
      && (forall o :: o in found ==> ValidObject(w', o))
      && Reachable(w.bs, RootSet(found)) <= w'.bs.Keys <= w.bs.Keys
      && (forall o :: o in w'.bs ==> w'.bs[o] == w.bs[o])
      && (immix ==> w'.bs.Keys == Reachable(w.bs, RootSet(found)) && TraceExact(w', found))
  {
    hide *;
    AfterInv(w, data, bound, es);
    CollectKeeps(w, found, evac, immix, threshold, false);
    var e := Collect(found, evac, immix, threshold);
    StepIs(w, found, evac, immix, threshold);
    var w' := Step(w, e);
    RootsSurvive(w, w', found, evac, immix, threshold);
    ExactWeakens(w', false && !immix);
    KnownIsValid(w');
    if immix {
      ReachedNowAndThen(w, w', found);
    }
  }

  lemma StepIs(w: World, found: seq<Ref>, evac: bool, immix: bool, threshold: Option<nat>)
    requires Inv(w, false) && Contract(w, Collect(found, evac, immix, threshold))
    ensures CollectReady(w, found, evac, immix, threshold)
    ensures Step(w, Collect(found, evac, immix, threshold)) == CollectStep(w, found, evac, immix, threshold)
  {
    hide Inv, Contract, CollectStep, CollectReady, AllocStep, InitStep, WriteStep, BarrierStep, Known;
    CollectKeeps(w, found, evac, immix, threshold, false);
  }

  /** All objects of the memory are valid. */
  lemma KnownIsValid(w: World)
    requires Inv(w, false)
    ensures forall o :: o in w.bs ==> ValidObject(w, o)
  {
    hide IsGc, InRefs, LinesAtLeast, Counts, SpaceInv, IsNewObject, InSpace;
    forall o | o in w.bs
      ensures ValidObject(w, o)
    {
      assert o in GraphOf(w).hs;
    }
  }

  /** What is reachable afterwards, when nothing else is left, was reachable before. */
  lemma ReachedNowAndThen(w: World, w': World, found: seq<Ref>)
    requires Inv(w', false) && w'.raw == {} && TraceExact(w', found) && RootSet(found) <= w'.bs.Keys
    requires w'.bs.Keys <= w.bs.Keys && forall o :: o in w'.bs ==> w'.bs[o] == w.bs[o]
    ensures w'.bs.Keys == Reachable(w.bs, RootSet(found))
  {
    hide Inv, Reachable, LinesExact, IsGc, MapsHold;
    InvIdle(w', false);
    MaskedNothing(w');
    AllClosed(w');
    ReachableFrame(w'.bs, w.bs, w'.bs.Keys, RootSet(found));
  }

  lemma AllClosed(w: World)
    requires Idle(GraphOf(w), false) && w.raw == {} && GraphOf(w).bs == w.bs
    ensures Closed(w.bs, w.bs.Keys)
  {
    hide LinesAtLeast, Counts, IsGc, IsNewObject;
  }

  lemma RootsSurvive(w: World, w': World, found: seq<Ref>, evac: bool, immix: bool, threshold: Option<nat>)
    requires Inv(w, false) && Contract(w, Collect(found, evac, immix, threshold))
    requires Reachable(w.bs, RootSet(found)) <= w'.bs.Keys
    ensures RootSet(found) <= w'.bs.Keys && forall o :: o in found ==> o in w'.bs
  {
    hide Inv, IsGc, Reachable;
    FoundKnown(w, found, false);
    forall o | o in RootSet(found)
      ensures o in w'.bs
    {
      ReachableRoot(w.bs, RootSet(found), o);
    }
  }

  // ---------------------------------------------------------------- memory given back

  /** The block can be handed out as a whole again. */
  predicate GivenBack(sp: Space, b: nat) {
    b in sp.ba.free || b in sp.evac.headroom
  }

  /** What is not given back after a collection is recyclable. */
  lemma EmptiedLists(w: World, found: seq<Ref>, evac: bool, immix: bool, threshold: Option<nat>, b: nat)
    requires CollectReady(w, found, evac, immix, threshold)
    requires var w' := CollectStep(w, found, evac, immix, threshold);
      Inv(w', false) && b in w'.sp.blocks && !GivenBack(w'.sp, b)
    ensures b in CollectStep(w, found, evac, immix, threshold).sp.normal.recyclable
  {
    hide AfterCollectors, RcReady, Idle, HeapOk, ListsOk, BlocksAligned;
    var w' := CollectStep(w, found, evac, immix, threshold);
    assert Stock(w'.sp, w'.all)[b] == 1;
  }

  /** A recyclable block has a line in use. */
  lemma RecycledUsed(w: World, found: seq<Ref>, evac: bool, immix: bool, threshold: Option<nat>, b: nat)
      returns (l: nat)
    requires CollectReady(w, found, evac, immix, threshold)
    requires b in CollectStep(w, found, evac, immix, threshold).sp.normal.recyclable
    ensures l < NUM_LINES && b in CollectStep(w, found, evac, immix, threshold).sp.blocks
    ensures CollectStep(w, found, evac, immix, threshold).sp.blocks[b].lines[l] > 0
  {
    hide RcReady;
    var g := AfterCollectors(w, found, evac, immix, threshold);
    hide AfterCollectors;
    assert FateOf(g.blocks[b]) == Recycled;
    l :| 0 <= l < NUM_LINES && g.blocks[b].lines[l] != 0;
  }

  /** A line that is in use after a trace has an object of the block. */
  lemma UsedHasObject(w: World, found: seq<Ref>, b: nat, l: nat) returns (o: Ref)
    requires TraceExact(w, found) && b in w.sp.blocks && l < NUM_LINES && w.sp.blocks[b].lines[l] > 0
    ensures o in w.bs && o.Immix? && o.block == b
  {
    hide Reachable, IsGc;
    assert CountOn(w.bs, w.bs.Keys, b, l) > 0;
    o :| o in w.bs.Keys && CoversLine(w.bs, o, b, l);
  }

  /**
    What a collection gives back. A block that can be handed out as a whole afterwards holds no object;
    and after a trace these are exactly the blocks in which nothing is reached from the roots.
   */
  lemma RunsGiveBack(w: World, data: nat, bound: nat, es: seq<Event>,
      found: seq<Ref>, evac: bool, immix: bool, threshold: Option<nat>, b: nat)
    requires data % BLOCK_SIZE == 0 && After(w, data, bound, es)
    requires Contract(w, Collect(found, evac, immix, threshold))
    ensures Inv(w, false)
    ensures var w' := Step(w, Collect(found, evac, immix, threshold));
      w'.sp.blocks.Keys == w.sp.blocks.Keys
    ensures var w' := Step(w, Collect(found, evac, immix, threshold));
      b in w.sp.blocks ==>
        && (GivenBack(w'.sp, b) ==> forall o :: o in w'.bs && o.Immix? ==> o.block != b)
        && (immix ==>
              (GivenBack(w'.sp, b) <==>
               forall o :: o in Reachable(w.bs, RootSet(found)) && o.Immix? ==> o.block != b))
  {
    hide *;
    AfterInv(w, data, bound, es);
    CollectKeeps(w, found, evac, immix, threshold, false);
    StepIs(w, found, evac, immix, threshold);
    CollectKeepsBlocks(w, found, evac, immix, threshold);
    RunsCollectExactly(w, data, bound, es, found, evac, immix, threshold);
    var w' := Step(w, Collect(found, evac, immix, threshold));
    ExactWeakens(w', false && !immix);
    if b in w'.sp.blocks {
      if GivenBack(w'.sp, b) {
        FreeHoldsNothing(w', b);
      } else {
        EmptiedLists(w, found, evac, immix, threshold, b);
        var l := RecycledUsed(w, found, evac, immix, threshold, b);
        if immix {
          var o := UsedHasObject(w', found, b, l);
        }
      }
    }
  }

  /** No block is forgotten or built. */
  lemma CollectKeepsBlocks(w: World, found: seq<Ref>, evac: bool, immix: bool, threshold: Option<nat>)
    requires Inv(w, false) && Contract(w, Collect(found, evac, immix, threshold))
    ensures CollectReady(w, found, evac, immix, threshold)
    ensures CollectStep(w, found, evac, immix, threshold).sp.blocks.Keys == w.sp.blocks.Keys
  {
    hide Inv, RcReady, AfterRc, Settled, GetAllBlocks, CollectRc, RcStart;
    CollectKeeps(w, found, evac, immix, threshold, false);
    RcSettles(w, found, evac, threshold, false);
    SettledCollected(w, AfterRc(w, found, evac, threshold), found, w.mark, false);
  }

  lemma FreeHoldsNothing(w: World, b: nat)
    requires Inv(w, false) && GivenBack(w.sp, b)
    ensures forall o :: o in w.bs && o.Immix? ==> o.block != b
  {
    hide Idle, HeapOk, Conserved;
    assert FreeOk(w.sp.blocks, GraphOf(w).bs, b);
    forall o | o in w.bs && o.Immix?
      ensures o.block != b
    {
      assert !Here(GraphOf(w).bs, o, b);
    }
  }

  /** All lines of the block are free. */
  predicate Unused(blocks: Blocks, b: nat) {
    b in blocks && forall l :: 0 <= l < NUM_LINES ==> blocks[b].lines[l] == 0
  }

  /** What a collection adds to the headroom and, behind that, to the free list. */
  function Added(sp: Space, sp': Space): seq<nat>
    requires |sp.evac.headroom| <= |sp'.evac.headroom| && |sp.ba.free| <= |sp'.ba.free|
  {
    sp'.evac.headroom[|sp.evac.headroom|..] + sp'.ba.free[|sp.ba.free|..]
  }

  /**
    Who gets the freed blocks. The headroom is filled up first: after a collection it has as many blocks
    as it may have, or nothing has been added to the free list. Both grow at their ends, by exactly those
    blocks of the allocators of which all lines are free.
   */
  lemma RunsFillHeadroom(w: World, data: nat, bound: nat, es: seq<Event>,
      found: seq<Ref>, evac: bool, immix: bool, threshold: Option<nat>)
    requires data % BLOCK_SIZE == 0 && After(w, data, bound, es)
    requires Contract(w, Collect(found, evac, immix, threshold))
    ensures Inv(w, false)
    ensures var w' := Step(w, Collect(found, evac, immix, threshold));
      && w.sp.evac.headroom <= w'.sp.evac.headroom && w.sp.ba.free <= w'.sp.ba.free
      && (|w'.sp.evac.headroom| == EVAC_HEADROOM || w'.sp.ba.free == w.sp.ba.free)
      && |w'.sp.evac.headroom| <= EVAC_HEADROOM
      && forall b :: b in Added(w.sp, w'.sp) <==> b in GetAllBlocks(w.sp) && Unused(w'.sp.blocks, b)
  {
    hide *;
    AfterInv(w, data, bound, es);
    CollectKeeps(w, found, evac, immix, threshold, false);
    StepIs(w, found, evac, immix, threshold);
    NothingHeld(w);
    GatheredExist(w, found, evac, immix, threshold);
    HeadroomFilled(w, found, evac, immix, threshold);
  }

  lemma NothingHeld(w: World)
    requires Inv(w, false)
    ensures w.all == [] && |w.sp.evac.headroom| <= EVAC_HEADROOM
  {
    hide Idle, SpaceInv;
  }

  lemma GatheredExist(w: World, found: seq<Ref>, evac: bool, immix: bool, threshold: Option<nat>)
    requires CollectReady(w, found, evac, immix, threshold)
    ensures RcReady(w, found, threshold)
    ensures var g := AfterCollectors(w, found, evac, immix, threshold);
      && (forall b :: b in w.all + GetAllBlocks(w.sp) ==> b in g.blocks)
      && |w.sp.evac.headroom| <= EVAC_HEADROOM
  {
    hide AfterCollectors, RcReady, GetAllBlocks;
  }

  lemma HeadroomFilled(w: World, found: seq<Ref>, evac: bool, immix: bool, threshold: Option<nat>)
    requires CollectReady(w, found, evac, immix, threshold) && w.all == [] && |w.sp.evac.headroom| <= EVAC_HEADROOM
    ensures var w' := CollectStep(w, found, evac, immix, threshold);
      && w.sp.evac.headroom <= w'.sp.evac.headroom && w.sp.ba.free <= w'.sp.ba.free
      && (|w'.sp.evac.headroom| == EVAC_HEADROOM || w'.sp.ba.free == w.sp.ba.free)
      && |w'.sp.evac.headroom| <= EVAC_HEADROOM
      && forall b :: b in Added(w.sp, w'.sp) <==> b in GetAllBlocks(w.sp) && Unused(w'.sp.blocks, b)
  {
    var g := AfterCollectors(w, found, evac, immix, threshold);
    GatheredExist(w, found, evac, immix, threshold);
    var w' := CollectStep(w, found, evac, immix, threshold);
    assert w.all + GetAllBlocks(w.sp) == GetAllBlocks(w.sp);
    var freed := WithFate(GetAllBlocks(w.sp), g.blocks, Freed);
    hide AfterCollectors, RcReady, GetAllBlocks, WithFate, Unused, Added, SweptBlock;
    FilledBy(w.sp, w'.sp, freed);
    assert w'.sp.blocks == OnBlocks(g.blocks, GetAllBlocks(w.sp), SweptBlock);
    SweptUnused(g.blocks, GetAllBlocks(w.sp));
  }

  lemma SweptUnused(blocks: Blocks, all: seq<nat>)
    requires forall b :: b in all ==> b in blocks
    ensures forall b :: b in all ==> (Unused(OnBlocks(blocks, all, SweptBlock), b) <==> FateOf(blocks[b]) == Freed)
  {
  }

  /** The freed blocks, cut where the headroom is full. */
  lemma FilledBy(sp: Space, sp': Space, freed: seq<nat>)
    requires |sp.evac.headroom| <= EVAC_HEADROOM
    requires var n := Min(EVAC_HEADROOM - |sp.evac.headroom|, |freed|);
      && sp'.evac.headroom == sp.evac.headroom + freed[..n] && sp'.ba.free == sp.ba.free + freed[n..]
    ensures sp.evac.headroom <= sp'.evac.headroom && sp.ba.free <= sp'.ba.free && Added(sp, sp') == freed
    ensures |sp'.evac.headroom| == EVAC_HEADROOM || sp'.ba.free == sp.ba.free
    ensures |sp'.evac.headroom| <= EVAC_HEADROOM
  {
  }

  /** After a collection the record of each recyclable block has the hole count of its lines. */
  lemma RunsRecordHoles(w: World, data: nat, bound: nat, es: seq<Event>,
      found: seq<Ref>, evac: bool, immix: bool, threshold: Option<nat>, b: nat)
    requires data % BLOCK_SIZE == 0 && After(w, data, bound, es)
    requires Contract(w, Collect(found, evac, immix, threshold))
    ensures Inv(w, false)
    ensures var w' := Step(w, Collect(found, evac, immix, threshold));
      b in w'.sp.normal.recyclable ==>
        b in w'.sp.blocks && w'.sp.blocks[b].holes == |OddFree(w'.sp.blocks[b].lines)|
  {
    hide *;
    AfterInv(w, data, bound, es);
    CollectKeeps(w, found, evac, immix, threshold, false);
    StepIs(w, found, evac, immix, threshold);
    if b in CollectStep(w, found, evac, immix, threshold).sp.normal.recyclable {
      HolesStored(w, found, evac, immix, threshold, b);
    }
  }

  lemma HolesStored(w: World, found: seq<Ref>, evac: bool, immix: bool, threshold: Option<nat>, b: nat)
    requires CollectReady(w, found, evac, immix, threshold)
    requires b in CollectStep(w, found, evac, immix, threshold).sp.normal.recyclable
    ensures var sp := CollectStep(w, found, evac, immix, threshold).sp;
      b in sp.blocks && sp.blocks[b].holes == |OddFree(sp.blocks[b].lines)|
  {
    hide RcReady, HolesFrom;
    var g := AfterCollectors(w, found, evac, immix, threshold);
    hide AfterCollectors;
    HolesAreOddFree(g.blocks[b].lines);
    assert FateOf(g.blocks[b]) == Recycled;
  }
}
