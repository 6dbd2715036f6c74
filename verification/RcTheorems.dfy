/** What a whole reference counting collection does to a heap that the mutator has left in order. */
module RcTheorems {
  import opened Objects
  import opened BlockTables
  import opened Graph
  import opened RcModel
  import opened RcProofs

  /** A buffered object is logged: together with `HeadersOk`, logged and buffered are the same. */
  ghost predicate ModsLogged(g: Rc)
    requires Wf(g)
  {
    forall o :: o in g.mods ==> g.hs[o].logged
  }

  /** The object maps and the set of large objects hold exactly the objects of the memory. */
  ghost predicate MapsExact(g: Rc) {
    && (forall o :: IsGc(g.blocks, o) ==> o in g.hs)
    && (forall o :: o in g.hs && o.Immix? ==> IsGc(g.blocks, o))
    && LosOk(g)
  }

  /** The sets of new objects hold exactly the objects whose header is new. */
  ghost predicate NewExact(g: Rc) {
    && (forall o :: IsNewObject(g.blocks, o) ==> o in g.hs && g.hs[o].isNew)
    && (forall o :: o in g.hs && o.Immix? && g.hs[o].isNew ==> IsNewObject(g.blocks, o))
    && (forall o :: o in g.los.newObjects ==> o in g.hs && o.Large?)
    && (forall o :: o in g.hs && o.Large? && g.hs[o].isNew ==> o in g.los.newObjects)
  }

  ghost function OldSet(g: Rc): set<Ref> {
    set o | o in g.hs.Keys && IsGc(g.blocks, o) && !g.hs[o].isNew
  }

  /** The state between two collections. */
  ghost predicate Idle(g: Rc, exact: bool) {
    && Wf(g) && ModsOk(g) && HeadersOk(g) && ModsLogged(g)
    && Counts(g.hs, multiset{}, Debt(g), exact)
    && MapsExact(g) && NewExact(g)
    && LinesAtLeast(g.blocks, g.bs, OldSet(g))
    && !g.evacTried
  }

  lemma IdleParts(g: Rc, exact: bool)
    requires Idle(g, exact)
    ensures Wf(g) && ModsOk(g) && HeadersOk(g) && ModsLogged(g) && Counts(g.hs, multiset{}, Debt(g), exact)
    ensures MapsExact(g) && NewExact(g) && LinesAtLeast(g.blocks, g.bs, OldSet(g)) && !g.evacTried
  {
  }

  lemma IdleFrom(g: Rc, exact: bool)
    requires Wf(g) && ModsOk(g) && HeadersOk(g) && ModsLogged(g) && Counts(g.hs, multiset{}, Debt(g), exact)
    requires MapsExact(g) && NewExact(g) && LinesAtLeast(g.blocks, g.bs, OldSet(g)) && !g.evacTried
    ensures Idle(g, exact)
  {
  }

  /** The block records after the new objects have left the object maps. */
  ghost predicate NewRemoved(blocks: Blocks, blocks': Blocks) {
    && blocks'.Keys == blocks.Keys
    && (forall b :: b in blocks ==> blocks'[b].lines == blocks[b].lines && blocks'[b].inUse == blocks[b].inUse)
    && (forall o :: IsGc(blocks', o) <==> IsGc(blocks, o) && !IsNewObject(blocks, o))
    && (forall o :: !IsNewObject(blocks', o))
  }

  /** Frees the large objects of the free buffer; what is no longer valid is forgotten. */
  ghost function FinishRc(g: Rc): Rc {
    g.(hs := Forget(g.hs, Live(g)), bs := Forget(g.bs, Live(g)),
       los := g.los.(objects := (set o | o in g.los.objects && o !in g.los.freeBuffer), freeBuffer := []))
  }

  ghost predicate SamePinsAndMarks(hs: Headers, hs': Headers) {
    forall o :: o in hs && o in hs' ==> hs'[o].pinned == hs[o].pinned && hs'[o].marked == hs[o].marked
  }

  lemma Phase1Begins(g: Rc, blocks': Blocks, exact: bool)
    requires Wf(g.(blocks := blocks')) && Idle(g, exact) && NewRemoved(g.blocks, blocks')
    ensures var r := ProcessOldRoots(g.(blocks := blocks'));
      Phase1(r, multiset{}, exact) && r.oldRoots == []
  {
    var r0 := g.(blocks := blocks');
    BeginStructure(g, blocks');
    var r := ProcessOldRoots(r0);
    BeginDebt(g, r, exact);
    BeginLines(g, blocks');
    hide Wf, ModsOk, HeadersOk, MapOk, LosOk, Counts, Debt, LinesAtLeast, IsGc, OldSet;
    assert GcSet(r.blocks, r.bs) == GcSet(blocks', g.bs);
  }

  lemma BeginStructure(g: Rc, blocks': Blocks)
    requires Wf(g) && ModsOk(g) && HeadersOk(g) && MapsExact(g) && NewExact(g) && NewRemoved(g.blocks, blocks')
    ensures var r0 := g.(blocks := blocks');
      Wf(r0) && ModsOk(r0) && HeadersOk(r0) && MapOk(r0) && LosOk(r0)
    ensures var r := ProcessOldRoots(g.(blocks := blocks'));
      ModsOk(r) && HeadersOk(r) && MapOk(r) && LosOk(r)
  {
    hide Closed, NoDup;
    var r0 := g.(blocks := blocks');
    assert Wf(r0) by {
      hide IsGc, IsNewObject;
    }
    forall x | x in g.hs
      ensures HeaderOk(r0, x) && HeaderOk(ProcessOldRoots(r0), x)
    {
      assert HeaderOk(g, x);
    }
  }

  lemma BeginDebt(g: Rc, r: Rc, exact: bool)
    requires Wf(g) && Wf(r) && Counts(g.hs, multiset{}, Debt(g), exact)
    requires r.hs == g.hs && r.bs == g.bs && r.mods == g.mods && r.oldRoots == [] && r.decs == g.decs + g.oldRoots
    ensures Counts(r.hs, multiset{}, Debt(r), exact)
  {
    hide Wf, InRefs;
    assert Contributing(g) == Contributing(r);
    assert Debt(g) == Debt(r);
  }

  lemma BeginLines(g: Rc, blocks': Blocks)
    requires Wf(g) && MapsExact(g) && NewExact(g) && NewRemoved(g.blocks, blocks')
    requires LinesAtLeast(g.blocks, g.bs, OldSet(g))
    ensures LinesAtLeast(blocks', g.bs, GcSet(blocks', g.bs))
  {
    hide Closed, LinesAtLeast, IsNewObject;
    WfKeys(g);
    assert GcSet(blocks', g.bs) == OldSet(g);
    LinesFrame(g.blocks, blocks', g.bs, g.bs, OldSet(g));
  }

  /** Phase 1 from the idle state to the state in which the decrements are applied. */
  lemma BuffersDrained(g: Rc, blocks': Blocks, roots: seq<Ref>, evac: bool, exact: bool)
    requires Idle(g, exact) && NewRemoved(g.blocks, blocks')
    requires Wf(g.(blocks := blocks'))
    requires forall o :: o in roots ==> o in g.bs
    requires forall o :: o in g.los.newObjects ==> o in g.bs
    requires forall o {:trigger g.hs[o]} :: o in g.hs && g.hs[o].pinned ==> o in roots
    ensures var r := ProcessMods(EnterRoots(g.(blocks := blocks'), roots), evac);
      && Phase2(r, exact) && r.bs == g.bs && r.oldRoots == roots
      && Live(r) == (set o | o in r.hs.Keys && !r.hs[o].isNew)
      && r.hs.Keys == g.hs.Keys
      && SamePinsAndMarks(g.hs, r.hs) && SameShape(g.bs, blocks', r.blocks)
      && r.los == g.los.(newObjects := [])
  {
    var g0 := ProcessOldRoots(g.(blocks := blocks'));
    Phase1Begins(g, blocks', exact);
    hide *;
    ProcessOldRootsFields(g.(blocks := blocks'));
    ProcessRootsKeeps(g0, roots, exact);
    var g1 := ProcessRoots(g0, roots);
    assert g0.oldRoots + roots == roots;
    var g2 := TakeLosNew(g1);
    TakeLosNewKeeps(g1, exact);
    ProcessLosNewKeeps(g2, g.los.newObjects, exact);
    var g3 := ProcessLosNew(g2, g.los.newObjects);
    EnterRootsIs(g.(blocks := blocks'), roots);
    ProcessModsKeeps(g3, evac, exact);
    var r := ProcessMods(g3, evac);
    FrameOf(g0, g1);
    FrameOf(g1, g2);
    FrameOf(g2, g3);
    FrameOf(g3, r);
    FrameTrans(g0, g1, g2);
    FrameTrans(g0, g2, g3);
    FrameTrans(g0, g3, r);
    FrameIs(g0, r);
    SameLos(g0, g1, g2, g3, r);
    LargeCounted(g, g2, g3, r);
    PinsKept(g, r);
    Phase2Begins(r, exact);
  }

  lemma ProcessOldRootsFields(g: Rc)
    requires Wf(g)
    ensures var r := ProcessOldRoots(g);
      r.hs == g.hs && r.blocks == g.blocks && r.los == g.los && r.oldRoots == []
  {
  }

  lemma EnterRootsIs(g: Rc, roots: seq<Ref>)
    requires Wf(g) && (forall o :: o in roots ==> o in g.bs) && (forall o :: o in g.los.newObjects ==> o in g.bs)
    ensures EnterRoots(g, roots) == ProcessLosNew(TakeLosNew(ProcessRoots(ProcessOldRoots(g), roots)), g.los.newObjects)
  {
    hide Wf;
  }

  /** What no step of phase 1 changes. */
  ghost predicate SameFrame(g: Rc, r: Rc) {
    && r.hs.Keys == g.hs.Keys && r.bs == g.bs && SamePinsAndMarks(g.hs, r.hs) && SameShape(g.bs, g.blocks, r.blocks)
    && forall o :: o in g.hs && !g.hs[o].isNew ==> !r.hs[o].isNew
  }

  lemma FrameOf(g: Rc, r: Rc)
    requires SameButCounts(g, r.(oldRoots := g.oldRoots, decs := g.decs, los := g.los))
      || SameButCounts(g, r.(oldRoots := g.oldRoots)) || SameButCounts(g, r.(decs := g.decs))
      || SameButCounts(g, r.(los := g.los)) || SameButCounts(g, r)
    ensures SameFrame(g, r)
  {
  }

  lemma FrameTrans(g: Rc, r: Rc, t: Rc)
    requires SameFrame(g, r) && SameFrame(r, t)
    ensures SameFrame(g, t)
  {
  }

  lemma FrameIs(g: Rc, r: Rc)
    requires SameFrame(g, r)
    ensures r.hs.Keys == g.hs.Keys && r.bs == g.bs && SamePinsAndMarks(g.hs, r.hs)
    ensures SameShape(g.bs, g.blocks, r.blocks)
  {
  }

  lemma SameLos(g0: Rc, g1: Rc, g2: Rc, g3: Rc, r: Rc)
    requires Wf(g1) && g2 == TakeLosNew(g1)
    requires SameButCounts(g0, g1.(oldRoots := g0.oldRoots)) && SameButCounts(g2, g3.(decs := g2.decs))
    requires SameButCounts(g3, r)
    ensures r.los == g0.los.(newObjects := []) && r.oldRoots == g1.oldRoots
  {
  }

  lemma PinsKept(g: Rc, r: Rc)
    requires SamePinsAndMarks(g.hs, r.hs) && r.hs.Keys == g.hs.Keys
    requires forall o {:trigger g.hs[o]} :: o in g.hs && g.hs[o].pinned ==> o in r.oldRoots
    ensures forall o {:trigger r.hs[o]} :: o in r.hs && r.hs[o].pinned ==> o in r.oldRoots
  {
  }

  lemma TakeLosNewKeeps(g: Rc, exact: bool)
    requires Wf(g) && Phase1(g, multiset{}, exact)
    ensures Phase1(TakeLosNew(g), multiset{}, exact)
    ensures SameButCounts(g, TakeLosNew(g).(los := g.los))
  {
    hide Closed, NoDup, InRefs, Children, IsGc, InSpace, LinesAtLeast, Counts;
    var r := TakeLosNew(g);
    assert Contributing(r) == Contributing(g);
    forall x | x in r.hs
      ensures HeaderOk(r, x)
    {
      assert HeaderOk(g, x);
    }
  }

  lemma LargeCounted(g: Rc, g2: Rc, g3: Rc, r: Rc)
    requires Idle(g, true) || Idle(g, false)
    requires forall o :: o in g.los.newObjects ==> o in g3.hs && !g3.hs[o].isNew
    requires SameFrame(g2, g3) && SameFrame(g3, r) && r.los == g.los.(newObjects := [])
    requires g2.hs.Keys == g.hs.Keys && forall o :: o in g.hs && !g.hs[o].isNew ==> !g2.hs[o].isNew
    ensures forall o :: o in r.los.objects ==> o in r.hs && !r.hs[o].isNew
  {
  }

  // ---------------------------------------------------------------- the collection as a whole

  /** No live object has a dead member: a member counts as a debt, and whoever is in debt is live. */
  lemma LiveClosed(g: Rc, exact: bool)
    requires Phase2(g, exact)
    ensures Live(g) <= g.bs.Keys && Closed(g.bs, Live(g))
    ensures forall o :: o in g.oldRoots ==> o in Live(g)
  {
    hide Live, LinesAtLeast, IsGc, LiveOk;
    LiveKnown(g);
    forall o, c | o in Live(g) && c in Children(g.bs[o])
      ensures c in Live(g)
    {
      InRefsMember(g.bs, Live(g), c);
      assert c in LiveDebt(g);
    }
    forall o | o in g.oldRoots
      ensures o in Live(g)
    {
      assert o in multiset(g.oldRoots);
      assert o in LiveDebt(g);
    }
  }

  /** After the last decrement the forgotten rest leaves an idle heap. */
  lemma FinishIsIdle(g: Rc, exact: bool)
    requires Phase2(g, exact) && g.decs == [] && g.los.newObjects == []
    requires forall o :: !IsNewObject(g.blocks, o)
    requires forall o :: o in g.hs && o.Large? ==> o in g.los.objects
    ensures Idle(FinishRc(g), exact)
    ensures FinishRc(g).hs.Keys == Live(g)
  {
    var r := FinishRc(g);
    LiveClosed(g, exact);
    FinishWf(g);
    FinishMaps(g);
    FinishDebt(g, exact);
    FinishLines(g, exact);
    hide Wf, Live, LiveDebt, Counts, Debt, LinesAtLeast, IsGc, MapsExact, NewExact, InSpace;
    LiveKnown(g);
    assert Idle(r, exact) by {
      forall o | o in r.hs
        ensures HeaderOk(r, o)
      {
        assert o in Live(g) && LiveOk(g, o, LiveDebt(g), exact);
      }
      assert ModsLogged(r);
      FinishNew(g, exact);
    }
  }

  lemma FinishWf(g: Rc)
    requires Wf(g) && g.mods == [] && g.decs == []
    requires Live(g) <= g.bs.Keys && Closed(g.bs, Live(g))
    requires forall o :: o in g.oldRoots ==> o in Live(g)
    ensures Wf(FinishRc(g)) && FinishRc(g).hs.Keys == Live(g)
  {
    hide IsGc, InSpace;
  }

  lemma FinishMaps(g: Rc)
    requires Wf(g) && forall o :: IsGc(g.blocks, o) ==> o in g.hs
    requires forall o :: o in g.los.objects ==> o in g.hs && o.Large?
    requires forall o :: o in g.hs && o.Large? ==> o in g.los.objects
    ensures MapsExact(FinishRc(g))
  {
    hide Closed, Children;
  }

  lemma FinishNew(g: Rc, exact: bool)
    requires Phase2(g, exact) && g.los.newObjects == []
    requires forall o :: !IsNewObject(g.blocks, o)
    ensures NewExact(FinishRc(g))
  {
    hide Wf, LiveDebt, LinesAtLeast, IsNewObject;
    var r := FinishRc(g);
    forall o | o in r.hs
      ensures !r.hs[o].isNew
    {
      assert o in Live(g) && LiveOk(g, o, LiveDebt(g), exact);
    }
  }

  lemma FinishDebt(g: Rc, exact: bool)
    requires Phase2(g, exact) && g.decs == [] && Wf(FinishRc(g)) && FinishRc(g).hs.Keys == Live(g)
    ensures Counts(FinishRc(g).hs, multiset{}, Debt(FinishRc(g)), exact)
  {
    hide Wf, InRefs, LinesAtLeast, IsGc;
    var r := FinishRc(g);
    LiveKnown(g);
    forall o | o in r.hs
      ensures !r.hs[o].isNew
    {
      assert o in Live(g) && LiveOk(g, o, LiveDebt(g), exact);
    }
    assert Contributing(r) == Live(g);
    assert Live(g) <= g.bs.Keys by { WfKeys(g); }
    InRefsFrame(g.bs, r.bs, Live(g)) by { WfKeys(g); WfKeys(r); }
    assert Debt(r) == LiveDebt(g);
    forall o | o in r.hs
      ensures r.hs[o].count >= Debt(r)[o] && (exact ==> r.hs[o].count == Debt(r)[o])
    {
      assert o in Live(g) && LiveOk(g, o, LiveDebt(g), exact);
    }
  }

  lemma FinishLines(g: Rc, exact: bool)
    requires Phase2(g, exact) && FinishRc(g).hs.Keys == FinishRc(g).bs.Keys == Live(g)
    ensures LinesAtLeast(FinishRc(g).blocks, FinishRc(g).bs, OldSet(FinishRc(g)))
  {
    hide LiveDebt, LinesAtLeast, Closed, Children;
    var r := FinishRc(g);
    forall o | o in Live(g)
      ensures !r.hs[o].isNew
    {
      assert LiveOk(g, o, LiveDebt(g), exact);
    }
    var s := GcSet(g.blocks, g.bs);
    assert s <= Live(g);
    assert OldSet(r) == s;
    LinesFrame(g.blocks, r.blocks, g.bs, r.bs, s);
  }

  /** The state a collection leaves: idle, nothing new or buffered, and the roots are owed a decrement. */
  ghost predicate Collected(g: Rc, roots: seq<Ref>, exact: bool) {
    && Idle(g, exact)
    && (forall o :: o in g.hs ==> !g.hs[o].isNew)
    && g.mods == [] && g.decs == [] && g.oldRoots == roots && g.los.newObjects == []
  }

  /**
    Safety of a collection: every object reachable from the roots survives with its members, no
    survivor has a dangling member, no evacuation is attempted, and the heap is idle again, with
    exact counts if they were exact before.
   */
  lemma RcCollectionIsSafe(g: Rc, blocks': Blocks, roots: seq<Ref>, evac: bool, exact: bool)
    requires Idle(g, exact) && NewRemoved(g.blocks, blocks')
    requires forall o :: o in roots ==> o in g.bs
    requires forall o {:trigger g.hs[o]} :: o in g.hs && g.hs[o].pinned ==> o in roots
    ensures Wf(g.(blocks := blocks')) && forall o :: o in g.los.newObjects ==> o in g.bs
    ensures var r := CollectRc(g.(blocks := blocks'), roots, evac);
      var f := FinishRc(r);
      && Collected(f, roots, exact) && !r.evacTried
      && f.bs.Keys <= g.bs.Keys && (forall o :: o in f.bs ==> f.bs[o] == g.bs[o])
      && Reachable(g.bs, RootSet(roots)) <= f.bs.Keys
      && SamePinsAndMarks(g.hs, f.hs) && SameShape(g.bs, blocks', f.blocks) && f.los.mark == g.los.mark
  {
    hide *;
    var g0 := g.(blocks := blocks');
    BeginWf(g, blocks');
    BuffersDrained(g, blocks', roots, evac, exact);
    var m := ProcessMods(EnterRoots(g0, roots), evac);
    Phase2Wf(m, exact);
    ProcessDecsKeeps(m, exact);
    var r := ProcessDecs(m);
    CollectRcIs(g0, roots, evac);
    RcCollectionEnds(g, m, r, blocks', roots, exact);
  }

  lemma BeginWf(g: Rc, blocks': Blocks)
    requires Idle(g, true) || Idle(g, false)
    requires NewRemoved(g.blocks, blocks')
    ensures Wf(g.(blocks := blocks')) && forall o :: o in g.los.newObjects ==> o in g.bs
  {
    hide LinesAtLeast, Counts;
    BeginStructure(g, blocks');
    WfKeys(g);
  }

  lemma CollectRcIs(g: Rc, roots: seq<Ref>, evac: bool)
    requires Wf(g) && (forall o :: o in roots ==> o in g.bs) && (forall o :: o in g.los.newObjects ==> o in g.bs)
    ensures CollectRc(g, roots, evac) == ProcessDecs(ProcessMods(EnterRoots(g, roots), evac))
  {
    hide Wf, ProcessDecs, ProcessMods, EnterRoots;
  }

  lemma RcCollectionEnds(g: Rc, m: Rc, r: Rc, blocks': Blocks, roots: seq<Ref>, exact: bool)
    requires Idle(g, exact) && NewRemoved(g.blocks, blocks')
    requires Phase2(r, exact) && r.decs == [] && m.bs == g.bs && m.oldRoots == roots
    requires m.hs.Keys == g.hs.Keys && SamePinsAndMarks(g.hs, m.hs) && SameShape(g.bs, blocks', m.blocks)
    requires m.los == g.los.(newObjects := [])
    requires SameButCounts(m, r.(decs := m.decs, los := m.los))
    requires r.los == m.los.(freeBuffer := r.los.freeBuffer)
    ensures var f := FinishRc(r);
      && Collected(f, roots, exact) && !r.evacTried
      && f.bs.Keys <= g.bs.Keys && (forall o :: o in f.bs ==> f.bs[o] == g.bs[o])
      && Reachable(g.bs, RootSet(roots)) <= f.bs.Keys
      && SamePinsAndMarks(g.hs, f.hs) && SameShape(g.bs, blocks', f.blocks) && f.los.mark == g.los.mark
  {
    hide Idle, Wf, Phase2, LinesAtLeast, IsGc, Children, Live, Reachable, FinishRc, Closed;
    DrainedSame(g, m, r, blocks', roots);
    NothingNew(r, blocks');
    LargeKnown(g, r);
    hide SameButCounts, SameShape, NewRemoved;
    FinishIsIdle(r, exact);
    FinishFields(r, exact);
    LiveClosed(r, exact);
    ReachableLive(r);
  }

  /** What draining the decrement buffer does not change. */
  lemma DrainedSame(g: Rc, m: Rc, r: Rc, blocks': Blocks, roots: seq<Ref>)
    requires m.bs == g.bs && m.oldRoots == roots && m.hs.Keys == g.hs.Keys && SamePinsAndMarks(g.hs, m.hs)
    requires SameShape(g.bs, blocks', m.blocks) && SameButCounts(m, r.(decs := m.decs, los := m.los))
    ensures r.bs == g.bs && r.oldRoots == roots && r.hs.Keys == g.hs.Keys && SamePinsAndMarks(g.hs, r.hs)
    ensures SameShape(g.bs, blocks', r.blocks)
  {
  }

  lemma NothingNew(r: Rc, blocks': Blocks)
    requires SameShape(r.bs, blocks', r.blocks) && forall o :: !IsNewObject(blocks', o)
    ensures forall o :: !IsNewObject(r.blocks, o)
  {
    forall o
      ensures !IsNewObject(r.blocks, o)
    {
      assert !IsNewObject(blocks', o);
    }
  }

  lemma LargeKnown(g: Rc, r: Rc)
    requires Idle(g, true) || Idle(g, false)
    requires r.hs.Keys == g.hs.Keys && r.los.objects == g.los.objects
    ensures forall o :: o in r.hs && o.Large? ==> o in r.los.objects
  {
  }

  /** What the end of a collection does not change. */
  lemma FinishFields(r: Rc, exact: bool)
    requires Phase2(r, exact)
    ensures var f := FinishRc(r);
      && (forall o :: o in f.hs ==> o in r.hs && f.hs[o] == r.hs[o] && !f.hs[o].isNew)
      && f.bs.Keys == Live(r) && (forall o :: o in f.bs ==> o in r.bs && f.bs[o] == r.bs[o])
      && f.oldRoots == r.oldRoots && f.mods == r.mods == [] && f.decs == r.decs && f.blocks == r.blocks
      && f.los.newObjects == r.los.newObjects && f.los.mark == r.los.mark && !r.evacTried
  {
    hide LiveDebt, LinesAtLeast, IsGc, Closed, Children;
    var f := FinishRc(r);
    forall o | o in f.hs
      ensures !f.hs[o].isNew
    {
      assert o in Live(r) && LiveOk(r, o, LiveDebt(r), exact);
    }
  }

  lemma ReachableLive(r: Rc)
    requires Live(r) <= r.bs.Keys && Closed(r.bs, Live(r)) && forall o :: o in r.oldRoots ==> o in Live(r)
    ensures Reachable(r.bs, RootSet(r.oldRoots)) <= Live(r)
  {
    hide Live;
    ReachableLeast(r.bs, RootSet(r.oldRoots), Live(r));
  }

  /**
    Completeness: with exact counts, a collection leaves no acyclic garbage. Every survivor has a
    count of at least one, and one that the roots do not reach lies behind a cycle of such objects.
   */
  lemma RcCollectionIsComplete(f: Rc, roots: seq<Ref>, o: Ref)
    requires Collected(f, roots, true) && o in f.bs
    ensures f.hs[o].count >= 1
    ensures var reached := Reachable(f.bs, RootSet(roots));
      o in reached || BehindCycle(f.bs, f.bs.Keys - reached, o)
  {
    hide LinesAtLeast, IsGc, InRefs, OnCycle;
    var rs := RootSet(roots);
    var reached := Reachable(f.bs, rs);
    var rest := f.bs.Keys - reached;
    assert HeaderOk(f, o);
    forall x {:trigger HasParent(f.bs, rest, x)} | x in rest
      ensures HasParent(f.bs, rest, x)
    {
      assert HeaderOk(f, x);
      assert x in Debt(f);
      if x in roots {
        ReachableRoot(f.bs, rs, x);
      }
      InRefsMember(f.bs, Contributing(f), x);
      var p :| p in Contributing(f) && x in Children(f.bs[p]);
      assert Edge(f.bs, p, x);
      if p in reached {
        ReachableEdge(f.bs, rs, p, x);
      }
    }
    if o !in reached {
      ParentsMeanCycle(f.bs, rest, o);
    }
  }
}
