/**
  A write barrier on objects that no collection has seen yet: exactly what the next collection loses,
  when it loses nothing, and what it leaks.
 */
module YoungTheorems {
  import opened Objects
  import opened BlockTables
  import opened Graph
  import opened RcModel
  import opened RcProofs
  import opened RcTheorems
  import opened YoungProofs

  /** The heap is whole, and roots and new large objects are in it. */
  ghost predicate Ready(h: Rc, young: seq<Ref>, bs': Bodies, blocks': Blocks, roots: seq<Ref>) {
    && (forall o :: o in young ==> o in h.hs && o in h.bs)
    && var g := Written(h, young, bs', blocks');
    Wf(g) && (forall o :: o in roots ==> o in g.bs) && (forall o :: o in g.los.newObjects ==> o in g.bs)
  }

  /** What the next collection makes of the heap; it does not evacuate. */
  ghost function AfterYoung(h: Rc, young: seq<Ref>, bs': Bodies, blocks': Blocks, roots: seq<Ref>): Rc
    requires Ready(h, young, bs', blocks', roots)
  {
    CollectRc(Written(h, young, bs', blocks'), roots, false)
  }

  lemma AfterYoungIs(h: Rc, young: seq<Ref>, bs': Bodies, blocks': Blocks, roots: seq<Ref>)
    requires Ready(h, young, bs', blocks', roots)
    ensures (forall o :: o in young ==> o in h.hs && o in h.bs)
    ensures var g := Written(h, young, bs', blocks');
      && Wf(g) && (forall o :: o in roots ==> o in g.bs) && (forall o :: o in g.los.newObjects ==> o in g.bs)
      && AfterYoung(h, young, bs', blocks', roots) == CollectRc(g, roots, false)
  {
    hide Wf, Written, CollectRc;
  }

  lemma MayCollect(h: Rc, young: seq<Ref>, bs': Bodies, blocks': Blocks, roots: seq<Ref>, exact: bool)
    requires YoungStart(h, young, bs', blocks', exact) && forall o :: o in roots ==> o in bs'
    ensures var g := Written(h, young, bs', blocks');
      && Wf(g) && g.bs == bs' && g.hs.Keys == bs'.Keys && (forall o :: o in young ==> o in bs')
      && (forall o :: o in g.los.newObjects ==> o in g.bs) && Ready(h, young, bs', blocks', roots)
      && Counting(ProcessOldRoots(g), young, multiset{}, Promised(h, young), exact)
      && forall o :: o in h.hs ==> o in g.hs && g.hs[o].pinned == h.hs[o].pinned
  {
    hide *;
    StartFields(h, young, bs', blocks', exact);
    WrittenIs(h, young, bs', blocks', exact);
    StartIdle(h, young, bs', blocks', exact);
    NewKnown(h, exact);
    StartCounts(h, young, bs', blocks', exact);
    ReadyFrom(h, young, bs', blocks', roots);
  }

  lemma StartIdle(h: Rc, young: seq<Ref>, bs': Bodies, blocks': Blocks, exact: bool)
    requires YoungStart(h, young, bs', blocks', exact)
    ensures Idle(h, exact)
  {
  }

  lemma ReadyFrom(h: Rc, young: seq<Ref>, bs': Bodies, blocks': Blocks, roots: seq<Ref>)
    requires (forall o :: o in young ==> o in h.hs && o in h.bs) && Wf(Written(h, young, bs', blocks'))
    requires forall o :: o in roots ==> o in Written(h, young, bs', blocks').bs
    requires forall o :: o in Written(h, young, bs', blocks').los.newObjects ==> o in Written(h, young, bs', blocks').bs
    ensures Ready(h, young, bs', blocks', roots)
  {
    hide Wf, Written;
  }

  lemma NewKnown(h: Rc, exact: bool)
    requires Idle(h, exact)
    ensures forall o :: o in h.los.newObjects ==> o in h.hs && o.Large?
  {
    hide Wf, Counts, LinesAtLeast, MapsExact;
  }

  /**
    Among the objects that the collection counts, a set in which each object is pinned or has more
    references, from the announced objects, from inside of the set, and from the roots, than the barriers
    have promised to take off.
   */
  ghost predicate Holds(h: Rc, young: seq<Ref>, bs': Bodies, roots: seq<Ref>, r: Rc, s: set<Ref>)
    requires forall o :: o in young ==> o in h.bs
  {
    && s <= Old(r.hs) && s <= bs'.Keys && (forall o :: o in young ==> o in bs')
    && forall o :: o in s ==>
      o in h.hs &&
      (h.hs[o].pinned || Promised(h, young)[o] < Kids(bs', young)[o] + InRefs(bs', s)[o] + multiset(roots)[o])
  }

  /** A set that holds is held. */
  lemma HoldsIsHeld(h: Rc, young: seq<Ref>, g: Rc, roots: seq<Ref>, r: Rc, s: set<Ref>)
    requires forall o :: o in young ==> o in h.bs && o in g.bs
    requires g.hs.Keys == g.bs.Keys == h.hs.Keys && forall o :: o in h.hs ==> g.hs[o].pinned == h.hs[o].pinned
    ensures Holds(h, young, g.bs, roots, r, s) <==>
      s <= Old(r.hs) && s <= g.bs.Keys && Held(g, young, Promised(h, young), roots, s)
  {
  }

  /**
    The exact condition. With exact counts, an object that the collection counts survives if and only if
    it belongs to a set that holds: nothing of such a set is the first to be lost, and what is left in
    the end is one.
   */
  lemma BarriersOnNewKeepExactly(h: Rc, young: seq<Ref>, bs': Bodies, blocks': Blocks, roots: seq<Ref>, o: Ref)
    requires YoungStart(h, young, bs', blocks', true) && forall x :: x in roots ==> x in bs'
    ensures Ready(h, young, bs', blocks', roots)
    ensures var r := AfterYoung(h, young, bs', blocks', roots);
      (o in FinishRc(r).bs && o in r.hs && !r.hs[o].isNew) <==> exists s :: o in s && Holds(h, young, bs', roots, r, s)
  {
    hide *;
    MayCollect(h, young, bs', blocks', roots, true);
    AfterYoungIs(h, young, bs', blocks', roots);
    StartFields(h, young, bs', blocks', true);
    var g, extra := Written(h, young, bs', blocks'), Promised(h, young);
    var r := CollectRc(g, roots, false);
    HeldNone(g, young, extra, roots);
    HeldSurvive(g, young, roots, extra, true, {});
    StateKnown(g, r, young, roots, extra, true);
    LeftOver(r);
    var t := Survivors(r);
    StateDrains(g, r, young, roots, extra, true);
    SurvivorsHeld(r, young, extra);
    HeldSame(g, r, young, extra, roots, t);
    HoldsIsHeld(h, young, g, roots, r, t);
    if o in FinishRc(r).bs && o in r.hs && !r.hs[o].isNew {
      assert o in t && Holds(h, young, bs', roots, r, t);
    }
    if exists s :: o in s && Holds(h, young, bs', roots, r, s) {
      var s :| o in s && Holds(h, young, bs', roots, r, s);
      HoldsIsHeld(h, young, g, roots, r, s);
      HeldSurvive(g, young, roots, extra, true, s);
    }
  }

  /** What is left of the memory in the end, and which of it has been counted. */
  lemma LeftOver(r: Rc)
    requires Wf(r)
    ensures forall o :: o in Survivors(r) <==> o in FinishRc(r).bs && o in r.hs && !r.hs[o].isNew
    ensures Survivors(r) <= Old(r.hs) && Survivors(r) <= r.bs.Keys
    ensures forall o :: o in FinishRc(r).bs ==> o in r.bs && FinishRc(r).bs[o] == r.bs[o]
  {
    hide Live, Closed, InSpace;
    LiveKnown(r);
  }

  /** All that the roots reach is counted. */
  lemma ReachedCounted(h: Rc, young: seq<Ref>, bs': Bodies, blocks': Blocks, roots: seq<Ref>, exact: bool)
    requires YoungStart(h, young, bs', blocks', exact) && forall x :: x in roots ==> x in bs'
    ensures Ready(h, young, bs', blocks', roots)
    ensures Reachable(bs', RootSet(roots)) <= Old(AfterYoung(h, young, bs', blocks', roots).hs)
    ensures forall x :: x in h.los.newObjects ==> x in Old(AfterYoung(h, young, bs', blocks', roots).hs)
  {
    MayCollect(h, young, bs', blocks', roots, exact);
    WrittenIs(h, young, bs', blocks', exact);
    var g, extra := Written(h, young, bs', blocks'), Promised(h, young);
    var r := CollectRc(g, roots, false);
    hide *;
    HeldNone(g, young, extra, roots);
    HeldSurvive(g, young, roots, extra, exact, {});
    StateKnown(g, r, young, roots, extra, exact);
    CountedReached(g, r, young, roots, extra, exact);
  }

  lemma CountedReached(g: Rc, r: Rc, young: seq<Ref>, roots: seq<Ref>, extra: multiset<Ref>, exact: bool)
    requires YoungState(g, r, young, roots, extra, exact)
    ensures Reachable(r.bs, RootSet(roots)) <= Old(r.hs)
    ensures forall x :: x in g.los.newObjects ==> x in Old(r.hs)
  {
    hide Draining, Reachable;
    ReachableLeast(r.bs, RootSet(roots), Old(r.hs));
  }

  /** Reached from the roots, directly or from another such object: everything reachable has a reference. */
  lemma ReachedReferred(bs: Bodies, roots: seq<Ref>, o: Ref)
    requires o in Reachable(bs, RootSet(roots)) && Closed(bs, bs.Keys)
    ensures Reachable(bs, RootSet(roots)) <= bs.Keys
    ensures InRefs(bs, Reachable(bs, RootSet(roots)))[o] + multiset(roots)[o] > 0
  {
    var reached := Reachable(bs, RootSet(roots));
    var p :| IsPath(bs, p) && p[0] in RootSet(roots) && p[|p| - 1] == o;
    if |p| == 1 {
      assert o in multiset(roots);
    } else {
      var q := p[|p| - 2];
      PathSlice(bs, p, 0, |p| - 1);
      assert IsPath(bs, p[..|p| - 1]) && p[..|p| - 1][0] == p[0] by { assert p[0..|p| - 1] == p[..|p| - 1]; }
      assert Link(bs, p, |p| - 2);
      assert Reaches(bs, p[0], q);
      assert q in reached;
      InRefsMember(bs, reached, o);
    }
  }

  /**
    When nothing is lost: if no reference that a new object held at the barrier to an object that is
    still reached has been dropped without another one in its place, everything reached survives.
   */
  lemma BarriersOnNewLoseNothing(h: Rc, young: seq<Ref>, bs': Bodies, blocks': Blocks, roots: seq<Ref>, exact: bool)
    requires YoungStart(h, young, bs', blocks', exact) && forall x :: x in roots ==> x in bs'
    requires (forall o :: o in young ==> o in bs') &&
             forall o :: o in Reachable(bs', RootSet(roots)) ==> Promised(h, young)[o] <= Kids(bs', young)[o]
    ensures Ready(h, young, bs', blocks', roots)
    ensures var f := FinishRc(AfterYoung(h, young, bs', blocks', roots));
      && Reachable(bs', RootSet(roots)) <= f.bs.Keys
      && forall o :: o in f.bs ==> o in bs' && f.bs[o] == bs'[o]
  {
    MayCollect(h, young, bs', blocks', roots, exact);
    ReachedCounted(h, young, bs', blocks', roots, exact);
    var g, extra := Written(h, young, bs', blocks'), Promised(h, young);
    var r, reached := CollectRc(g, roots, false), Reachable(bs', RootSet(roots));
    assert reached <= bs'.Keys;
    assert Held(g, young, extra, roots, reached) by {
      GraphClosed(g);
      hide Reachable, InRefs, Kids, Wf, Closed;
      forall o | o in reached && o in g.hs
        ensures extra[o] < Kids(bs', young)[o] + InRefs(bs', reached)[o] + multiset(roots)[o]
      {
        ReachedReferred(bs', roots, o);
      }
    }
    hide *;
    HeldSurvive(g, young, roots, extra, exact, reached);
    StateKnown(g, r, young, roots, extra, exact);
    LeftOver(r);
  }

  lemma GraphClosed(g: Rc)
    requires Wf(g)
    ensures Closed(g.bs, g.bs.Keys)
  {
  }

  /** At least as many references dropped since the barriers as there are left of all kinds. */
  ghost predicate Overdrawn(h: Rc, young: seq<Ref>, bs': Bodies, roots: seq<Ref>, o: Ref) {
    && (forall x :: x in young ==> x in h.bs && x in bs')
    && o in h.hs && !h.hs[o].pinned
    && Promised(h, young)[o] >= Kids(bs', young)[o] + InRefs(bs', bs'.Keys)[o] + multiset(roots)[o]
  }

  /** Such an object is lost for certain, whether it is reached or not. */
  lemma BarriersOnNewLose(h: Rc, young: seq<Ref>, bs': Bodies, blocks': Blocks, roots: seq<Ref>, o: Ref)
    requires YoungStart(h, young, bs', blocks', true) && forall x :: x in roots ==> x in bs'
    requires Overdrawn(h, young, bs', roots, o)
    ensures Ready(h, young, bs', blocks', roots)
    ensures var r := AfterYoung(h, young, bs', blocks', roots);
      o in Old(r.hs) ==> o !in FinishRc(r).bs
  {
    BarriersOnNewKeepExactly(h, young, bs', blocks', roots, o);
    hide CollectRc, FinishRc, Wf, YoungStart, InRefs, Kids, Written;
    var r := AfterYoung(h, young, bs', blocks', roots);
    forall s | o in s && Holds(h, young, bs', roots, r, s)
      ensures false
    {
      InRefsMonotone(bs', s, bs'.Keys);
      assert false;
    }
  }

  lemma AllHold(h: Rc, young: seq<Ref>, bs': Bodies, roots: seq<Ref>, r: Rc)
    requires (forall x :: x in young ==> x in h.bs && x in bs') && bs'.Keys <= Old(r.hs) && bs'.Keys <= h.hs.Keys
    requires forall o :: o in bs' ==> !Overdrawn(h, young, bs', roots, o)
    ensures Holds(h, young, bs', roots, r, bs'.Keys)
  {
  }

  /** Where everything is reached and nothing is overdrawn, everything survives. */
  lemma NoneOverdrawn(h: Rc, young: seq<Ref>, bs': Bodies, blocks': Blocks, roots: seq<Ref>, exact: bool)
    requires YoungStart(h, young, bs', blocks', exact) && forall x :: x in roots ==> x in bs'
    requires Reachable(bs', RootSet(roots)) == bs'.Keys
    requires forall o :: o in bs' ==> !Overdrawn(h, young, bs', roots, o)
    ensures Ready(h, young, bs', blocks', roots)
    ensures bs'.Keys <= FinishRc(AfterYoung(h, young, bs', blocks', roots)).bs.Keys
  {
    hide *;
    StartFields(h, young, bs', blocks', exact);
    MayCollect(h, young, bs', blocks', roots, exact);
    ReachedCounted(h, young, bs', blocks', roots, exact);
    AfterYoungIs(h, young, bs', blocks', roots);
    var g, extra := Written(h, young, bs', blocks'), Promised(h, young);
    var r := CollectRc(g, roots, false);
    AllHold(h, young, bs', roots, r);
    HoldsIsHeld(h, young, g, roots, r, bs'.Keys);
    HeldSurvive(g, young, roots, extra, exact, bs'.Keys);
    StateKnown(g, r, young, roots, extra, exact);
    LeftOver(r);
  }

  /**
    In a heap in which everything is reached, everything survives if and only if no object is overdrawn:
    a condition on the counts of references alone.
   */
  lemma BarriersOnNewLoseExactly(h: Rc, young: seq<Ref>, bs': Bodies, blocks': Blocks, roots: seq<Ref>)
    requires YoungStart(h, young, bs', blocks', true) && forall x :: x in roots ==> x in bs'
    requires Reachable(bs', RootSet(roots)) == bs'.Keys
    ensures Ready(h, young, bs', blocks', roots)
    ensures bs'.Keys <= FinishRc(AfterYoung(h, young, bs', blocks', roots)).bs.Keys <==>
      forall o :: o in bs' ==> !Overdrawn(h, young, bs', roots, o)
  {
    hide *;
    ReachedCounted(h, young, bs', blocks', roots, true);
    if forall o :: o in bs' ==> !Overdrawn(h, young, bs', roots, o) {
      NoneOverdrawn(h, young, bs', blocks', roots, true);
    }
    forall o | o in bs' && Overdrawn(h, young, bs', roots, o)
      ensures o !in FinishRc(AfterYoung(h, young, bs', blocks', roots)).bs
    {
      BarriersOnNewLose(h, young, bs', blocks', roots, o);
    }
  }

  // ---------------------------------------------------------------- what is leaked

  lemma {:induction false} RootsLeave(g: Rc, roots: seq<Ref>, a: Ref)
    requires Wf(g) && (forall o :: o in roots ==> o in g.bs) && a in g.hs && a !in roots
    ensures ProcessRoots(g, roots).hs.Keys == g.hs.Keys && ProcessRoots(g, roots).hs[a] == g.hs[a]
    decreases |roots|
  {
    if roots != [] {
      var g1 := Increment(g, roots[0], false, false);
      var g2 := g1.(oldRoots := g1.oldRoots + [roots[0]]);
      IncrementWf(g, roots[0], false, false);
      OweWf(g1, g2, roots[0]);
      hide Wf;
      RootsLeave(g2, roots[1..], a);
    }
  }

  lemma {:induction false} LargeLeave(g: Rc, objects: seq<Ref>, a: Ref)
    requires Wf(g) && (forall o :: o in objects ==> o in g.bs) && a in g.hs && a !in objects
    ensures ProcessLosNew(g, objects).hs.Keys == g.hs.Keys && ProcessLosNew(g, objects).hs[a] == g.hs[a]
    decreases |objects|
  {
    if objects != [] {
      var g1 := Increment(g, objects[0], false, false);
      var g2 := g1.(decs := g1.decs + [objects[0]]);
      IncrementWf(g, objects[0], false, false);
      OweWf(g1, g2, objects[0]);
      hide Wf;
      LargeLeave(g2, objects[1..], a);
    }
  }

  lemma {:induction false} ChildrenLeave(g: Rc, children: seq<Ref>, a: Ref)
    requires Wf(g) && (forall o :: o in children ==> o in g.bs) && a in g.hs && a !in children
    ensures IncrementChildren(g, children, false).hs.Keys == g.hs.Keys
    ensures IncrementChildren(g, children, false).hs[a] == g.hs[a]
    decreases |children|
  {
    if children != [] {
      var g1 := Increment(g, children[0], true, false);
      IncrementWf(g, children[0], true, false);
      assert children[0] in g.hs;
      hide Wf;
      ChildrenLeave(g1, children[1..], a);
    }
  }

  /** Nothing in the memory refers to the object. */
  predicate Unreferred(bs: Bodies, a: Ref) {
    forall o :: o in bs ==> a !in Children(bs[o])
  }

  lemma {:induction false} ModsLeave(g: Rc, a: Ref)
    requires Wf(g) && a in g.hs && Unreferred(g.bs, a)
    ensures ProcessMods(g, false).hs.Keys == g.hs.Keys && ProcessMods(g, false).hs[a].isNew == g.hs[a].isNew
    decreases |NewObjects(g.hs)| + |g.mods|
  {
    if g.mods != [] {
      var children := Children(g.bs[g.mods[0]]);
      assert forall c :: c in children ==> c in g.bs by { WfChildren(g, g.mods[0]); }
      assert PopMod(g).hs.Keys == g.hs.Keys && PopMod(g).hs[a].isNew == g.hs[a].isNew by { PopModNew(g, a); }
      hide Wf, PopMod;
      ChildrenLeave(PopMod(g), children, a);
      ModsLeave(IncrementChildren(PopMod(g), children, false), a);
    }
  }

  lemma PopModNew(g: Rc, a: Ref)
    requires Wf(g) && g.mods != [] && a in g.hs
    ensures PopMod(g).hs.Keys == g.hs.Keys && PopMod(g).hs[a].isNew == g.hs[a].isNew
  {
    hide Closed, IncLines, SetGc, InSpace;
  }

  lemma PopDecLeaves(g: Rc, a: Ref)
    requires Wf(g) && g.decs != [] && a in g.hs && g.hs[a].count == 0 && IsGc(g.blocks, a)
    ensures PopDec(g).hs.Keys == g.hs.Keys && PopDec(g).hs[a] == g.hs[a] && IsGc(PopDec(g).blocks, a)
  {
    hide Closed, Children;
  }

  lemma {:induction false} DecsLeave(g: Rc, a: Ref)
    requires Wf(g) && a in g.hs && g.hs[a].count == 0 && IsGc(g.blocks, a)
    ensures ProcessDecs(g).hs.Keys == g.hs.Keys && ProcessDecs(g).hs[a] == g.hs[a] && IsGc(ProcessDecs(g).blocks, a)
    decreases SumCounts(g.hs), |g.decs|
  {
    hide Wf, PopDec, IsGc, SumCounts;
    if g.decs != [] {
      PopDecMeasure(g);
      PopDecLeaves(g, a);
      DecsLeave(PopDec(g), a);
    }
  }

  /** The first phase does not touch an object that nothing refers to. */
  lemma PhaseLeaves(g: Rc, roots: seq<Ref>, a: Ref)
    requires Wf(g) && (forall o :: o in roots ==> o in g.bs) && (forall o :: o in g.los.newObjects ==> o in g.bs)
    requires a in g.hs && a !in roots && a !in g.los.newObjects && Unreferred(g.bs, a)
    ensures var m := ProcessMods(EnterRoots(g, roots), false);
      m.hs.Keys == g.hs.Keys && m.hs[a].isNew == g.hs[a].isNew
  {
    EnterRootsIs(g, roots);
    ProcessOldRootsFields(g);
    hide Wf, ProcessRoots, ProcessLosNew, ProcessMods, Unreferred, ProcessOldRoots;
    var g1 := ProcessRoots(ProcessOldRoots(g), roots);
    RootsLeave(ProcessOldRoots(g), roots, a);
    LargeLeave(TakeLosNew(g1), g.los.newObjects, a);
    ModsLeave(ProcessLosNew(TakeLosNew(g1), g.los.newObjects), a);
  }

  /**
    The leak. An announced object of the immix space that the collection does not count is not reclaimed:
    the buffer makes it valid all the same. It stays new and has a count of zero, so that no decrement
    will ever take it out. This happens to every such object that no root and no object refers to.
   */
  lemma BarriersOnNewLeak(h: Rc, young: seq<Ref>, bs': Bodies, blocks': Blocks, roots: seq<Ref>, exact: bool, a: Ref)
    requires YoungStart(h, young, bs', blocks', exact) && forall x :: x in roots ==> x in bs'
    requires a in young && a.Immix?
    ensures Ready(h, young, bs', blocks', roots)
    ensures var r := AfterYoung(h, young, bs', blocks', roots);
      var f := FinishRc(r);
      && (a !in roots && Unreferred(bs', a) ==> a !in Old(r.hs))
      && (a !in Old(r.hs) ==>
            a in f.bs && a in f.hs && IsGc(f.blocks, a) && f.hs[a].isNew && f.hs[a].count == 0)
  {
    hide *;
    MayCollect(h, young, bs', blocks', roots, exact);
    AfterYoungIs(h, young, bs', blocks', roots);
    StartFields(h, young, bs', blocks', exact);
    WrittenIs(h, young, bs', blocks', exact);
    StartIdle(h, young, bs', blocks', exact);
    NewKnown(h, exact);
    var g, extra := Written(h, young, bs', blocks'), Promised(h, young);
    CollectRcIs(g, roots, false);
    PhaseCounts(g, young, roots, extra, exact);
    var m := ProcessMods(EnterRoots(g, roots), false);
    KeptKeys(g.(oldRoots := roots), m);
    if a !in roots && Unreferred(bs', a) {
      PhaseLeaves(g, roots, a);
    }
    if m.hs[a].isNew {
      NewValid(m, young, extra, exact, a);
      DecsLeave(m, a);
      ValidLeft(ProcessDecs(m), a);
    } else {
      DecsKeepOld(m, a);
    }
    InOld(ProcessDecs(m).hs, a);
  }

  lemma KeptKeys(g: Rc, r: Rc)
    requires Kept(g, r)
    ensures r.hs.Keys == g.hs.Keys
  {
  }

  lemma InOld(hs: Headers, a: Ref)
    ensures a in Old(hs) <==> a in hs && !hs[a].isNew
  {
  }

  lemma {:induction false} DecsKeepOld(g: Rc, a: Ref)
    requires Wf(g) && a in g.hs && !g.hs[a].isNew
    ensures a in ProcessDecs(g).hs && !ProcessDecs(g).hs[a].isNew
    decreases SumCounts(g.hs), |g.decs|
  {
    hide Wf, PopDec, SumCounts, Old;
    if g.decs != [] {
      PopDecMeasure(g);
      PopDecKept(g);
      DecsKeepOld(PopDec(g), a);
    }
  }

  lemma NewValid(m: Rc, young: seq<Ref>, extra: multiset<Ref>, exact: bool, a: Ref)
    requires Counting(m, young, multiset{}, extra, exact) && m.mods == []
    requires a in young && a.Immix? && a in m.hs && m.hs[a].isNew
    ensures Wf(m) && IsGc(m.blocks, a) && m.hs[a].count == 0
  {
    hide Wf, Balanced, IsGc, KidsCounted;
  }

  lemma ValidLeft(r: Rc, a: Ref)
    requires Wf(r) && a in r.hs && IsGc(r.blocks, a)
    ensures var f := FinishRc(r);
      a in f.bs && a in f.hs && f.hs[a] == r.hs[a] && f.blocks == r.blocks
  {
    hide Closed, InSpace, InMap;
  }
}
