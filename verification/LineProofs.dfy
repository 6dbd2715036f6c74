/**
  How far line counters are from exact. A counter is never below the number of valid objects that are
  not new and are counted on its line; what it has beyond that is its surplus. An object adds to the
  surplus each time it is drained from the modified buffer although it is valid already, and nothing
  else a reference counting collection does changes it. So a line of which all objects are reclaimed
  is free again, unless one of them has been counted more than once.
 */
module LineProofs {
  import opened Constants
  import opened Objects
  import opened BlockLines
  import opened BlockTables
  import opened Graph
  import opened RcModel
  import opened RcProofs
  import opened RcTheorems

  /** What the counter of a line has beyond the objects of `s` that are counted on the line. */
  ghost function Surplus(blocks: Blocks, bs: Bodies, s: set<Ref>, b: nat, l: nat): int {
    (if b in blocks && l < NUM_LINES then blocks[b].lines[l] else 0) - CountOn(bs, s, b, l)
  }

  /** The buffered objects that will be counted on the line once more. */
  ghost function Again(g: Rc, b: nat, l: nat): nat {
    |set o | o in g.mods && IsGc(g.blocks, o) && CoversLine(g.bs, o, b, l)|
  }

  ghost function GcSurplus(g: Rc, b: nat, l: nat): int {
    Surplus(g.blocks, g.bs, GcSet(g.blocks, g.bs), b, l)
  }

  // ---------------------------------------------------------------- entering and counting

  /** Nothing but new objects is pushed to the modified buffer, and no block is touched. */
  ghost predicate Pushed(g: Rc, r: Rc) {
    && r.blocks == g.blocks && r.bs == g.bs && r.hs.Keys == g.hs.Keys
    && (forall o :: o in g.mods ==> o in r.mods)
    && (forall o :: o in r.mods ==> o in g.mods || (o in g.hs && g.hs[o].isNew))
    && (forall o :: o in g.hs && !g.hs[o].isNew ==> !r.hs[o].isNew)
  }

  lemma PushedTrans(g: Rc, r: Rc, t: Rc)
    requires Pushed(g, r) && Pushed(r, t)
    ensures Pushed(g, t)
  {
  }

  lemma IncrementPushes(g: Rc, o: Ref, tryEvac: bool, evac: bool)
    requires o in g.hs
    ensures Pushed(g, Increment(g, o, tryEvac, evac))
  {
  }

  lemma {:induction false} RootsPush(g: Rc, roots: seq<Ref>)
    requires Wf(g) && forall o :: o in roots ==> o in g.bs
    ensures Pushed(g, ProcessRoots(g, roots))
    decreases |roots|
  {
    hide Pushed, Increment;
    if roots == [] {
      PushedSelf(g);
    } else {
      RootPushes(g, roots[0]);
      var g1 := Increment(g, roots[0], false, false);
      var g2 := g1.(oldRoots := g1.oldRoots + [roots[0]]);
      hide Wf;
      RootsPush(g2, roots[1..]);
      PushedTrans(g, g2, ProcessRoots(g, roots));
    }
  }

  lemma PushedSelf(g: Rc)
    ensures Pushed(g, g)
  {
  }

  lemma RootPushes(g: Rc, o: Ref)
    requires Wf(g) && o in g.bs
    ensures var r := Increment(g, o, false, false);
      && Wf(r.(oldRoots := r.oldRoots + [o])) && Pushed(g, r.(oldRoots := r.oldRoots + [o]))
      && Wf(r.(decs := r.decs + [o])) && Pushed(g, r.(decs := r.decs + [o])) && r.bs == g.bs
  {
    hide Closed, InSpace, Fits;
    IncrementWf(g, o, false, false);
  }

  lemma {:induction false} LargePush(g: Rc, objects: seq<Ref>)
    requires Wf(g) && forall o :: o in objects ==> o in g.bs
    ensures Pushed(g, ProcessLosNew(g, objects))
    decreases |objects|
  {
    hide Pushed, Increment;
    if objects == [] {
      PushedSelf(g);
    } else {
      RootPushes(g, objects[0]);
      var g1 := Increment(g, objects[0], false, false);
      var g2 := g1.(decs := g1.decs + [objects[0]]);
      hide Wf;
      LargePush(g2, objects[1..]);
      PushedTrans(g, g2, ProcessLosNew(g, objects));
    }
  }

  lemma {:induction false} ChildrenPush(g: Rc, children: seq<Ref>, evac: bool)
    requires Wf(g) && forall o :: o in children ==> o in g.bs
    ensures Pushed(g, IncrementChildren(g, children, evac))
    decreases |children|
  {
    hide Pushed, Increment;
    if children == [] {
      PushedSelf(g);
    } else {
      var r := Increment(g, children[0], true, evac);
      WfKeys(g);
      IncrementWf(g, children[0], true, evac);
      IncrementFields(g, children[0], true, evac);
      IncrementPushes(g, children[0], true, evac);
      hide Wf;
      ChildrenPush(r, children[1..], evac);
      PushedTrans(g, r, IncrementChildren(g, children, evac));
    }
  }

  /** New objects are not valid yet, so pushing them changes neither the surplus nor what is to come. */
  lemma PushedSurplus(g: Rc, r: Rc, b: nat, l: nat)
    requires MapOk(g) && Pushed(g, r)
    ensures GcSurplus(r, b, l) == GcSurplus(g, b, l) && Again(r, b, l) == Again(g, b, l)
  {
    hide InSpace, InMap;
    assert (set o | o in r.mods && IsGc(r.blocks, o) && CoversLine(r.bs, o, b, l))
        == set o | o in g.mods && IsGc(g.blocks, o) && CoversLine(g.bs, o, b, l);
  }

  // ---------------------------------------------------------------- draining the modified buffer

  /** A drained object is counted: in place of nothing, or in addition to itself. */
  lemma PopModSurplus(g: Rc, exact: bool, b: nat, l: nat)
    requires Phase1(g, multiset{}, exact) && g.mods != []
    ensures GcSurplus(PopMod(g), b, l) + Again(PopMod(g), b, l) == GcSurplus(g, b, l) + Again(g, b, l)
  {
    PopModMap(g);
    PopModLineIs(g, b, l);
    PopModAgain(g, b, l);
    hide Wf, PopMod, MapOk, LosOk, HeadersOk, Counts, LinesAtLeast, IsGc, CoversLine, ModsOk;
    var o, s := g.mods[0], GcSet(g.blocks, g.bs);
    if o.Immix? && o !in s {
      CountAdd(g.bs, s, o, b, l);
    } else if o.Immix? {
      assert s + {o} == s;
    }
  }

  lemma PopModLineIs(g: Rc, b: nat, l: nat)
    requires Wf(g) && g.mods != []
    ensures PopMod(g).bs == g.bs && PopMod(g).blocks.Keys == g.blocks.Keys && g.mods[0] in g.bs
    ensures b in g.blocks && l < NUM_LINES ==>
      PopMod(g).blocks[b].lines[l] == g.blocks[b].lines[l] + if CoversLine(g.bs, g.mods[0], b, l) then 1 else 0
    ensures CoversLine(g.bs, g.mods[0], b, l) ==> g.mods[0].Immix? && b in g.blocks && l < NUM_LINES
  {
    hide Closed;
    var o := g.mods[0];
    if o.Immix? {
      CountedLinesInBlock(o.offset, g.bs[o].size);
    }
  }

  lemma PopModAgain(g: Rc, b: nat, l: nat)
    requires Wf(g) && ModsOk(g) && g.mods != []
    requires GcSet(PopMod(g).blocks, g.bs) == GcSet(g.blocks, g.bs) + if g.mods[0].Immix? then {g.mods[0]} else {}
    ensures var o := g.mods[0];
      Again(g, b, l) == Again(PopMod(g), b, l) + if IsGc(g.blocks, o) && CoversLine(g.bs, o, b, l) then 1 else 0
    ensures IsGc(g.blocks, g.mods[0]) ==> g.mods[0].Immix?
    ensures IsGc(g.blocks, g.mods[0]) <==> g.mods[0] in GcSet(g.blocks, g.bs)
  {
    var o, r := g.mods[0], PopMod(g);
    PopModRest(g);
    BufferedValid(g);
    BufferedValid(r);
    forall x | x in r.mods
      ensures IsGc(r.blocks, x) <==> IsGc(g.blocks, x)
    {
      assert x in GcSet(r.blocks, r.bs) <==> x in GcSet(g.blocks, g.bs);
    }
    hide *;
    OneLess(g.mods, r.mods, g.blocks, r.blocks, g.bs, o, b, l);
    AgainIs(g, b, l);
    AgainIs(r, b, l);
  }

  lemma AgainIs(g: Rc, b: nat, l: nat)
    ensures Again(g, b, l) == |set x | x in g.mods && IsGc(g.blocks, x) && CoversLine(g.bs, x, b, l)|
  {
  }

  lemma OneLess(mods: seq<Ref>, mods': seq<Ref>, blocks: Blocks, blocks': Blocks, bs: Bodies, o: Ref, b: nat, l: nat)
    requires o !in mods' && forall x :: x in mods <==> x == o || x in mods'
    requires forall x :: x in mods' ==> (IsGc(blocks', x) <==> IsGc(blocks, x))
    ensures |set x | x in mods && IsGc(blocks, x) && CoversLine(bs, x, b, l)|
         == |set x | x in mods' && IsGc(blocks', x) && CoversLine(bs, x, b, l)|
            + if IsGc(blocks, o) && CoversLine(bs, o, b, l) then 1 else 0
  {
    hide IsGc, CoversLine;
    assert (set x | x in mods && IsGc(blocks, x) && CoversLine(bs, x, b, l))
        == (set x | x in mods' && IsGc(blocks', x) && CoversLine(bs, x, b, l))
           + if IsGc(blocks, o) && CoversLine(bs, o, b, l) then {o} else {};
  }

  lemma PopModRest(g: Rc)
    requires Wf(g) && ModsOk(g) && g.mods != []
    ensures var r := PopMod(g);
      r.bs == g.bs && g.mods[0] !in r.mods && forall x :: x in g.mods <==> x == g.mods[0] || x in r.mods
  {
    hide Closed, AddLines;
  }

  lemma BufferedValid(g: Rc)
    requires Wf(g)
    ensures forall x :: x in g.mods ==> (IsGc(g.blocks, x) <==> x in GcSet(g.blocks, g.bs))
    ensures g.mods != [] ==> IsGc(g.blocks, g.mods[0]) ==> g.mods[0].Immix?
  {
    hide Closed;
  }

  lemma {:induction false} ModsSurplus(g: Rc, evac: bool, exact: bool, b: nat, l: nat)
    requires Wf(g) && Phase1(g, multiset{}, exact)
    ensures GcSurplus(ProcessMods(g, evac), b, l) == GcSurplus(g, b, l) + Again(g, b, l)
    decreases |NewObjects(g.hs)| + |g.mods|
  {
    if g.mods == [] {
      assert Again(g, b, l) == 0;
    } else {
      var children := Children(g.bs[g.mods[0]]);
      assert forall c :: c in children ==> c in g.bs by { WfChildren(g, g.mods[0]); }
      hide Phase1, Wf, Children, IncrementChildren, PopMod, GcSurplus, Again;
      var g1 := PopMod(g);
      var g2 := IncrementChildren(g1, children, evac);
      PopModKeeps(g, exact);
      PopModSurplus(g, exact, b, l);
      Phase1Maps(g1, multiset(children), exact);
      ChildrenPush(g1, children, evac);
      PushedSurplus(g1, g2, b, l);
      IncrementChildrenKeeps(g1, children, evac, exact);
      ModsSurplus(g2, evac, exact, b, l);
    }
  }

  lemma Phase1Maps(g: Rc, owed: multiset<Ref>, exact: bool)
    requires Phase1(g, owed, exact)
    ensures MapOk(g)
  {
  }

  // ---------------------------------------------------------------- applying the decrements

  /** A reclaimed object is counted down on its lines, none of which can be at zero. */
  lemma PopDecSurplus(g: Rc, b: nat, l: nat)
    requires Wf(g) && g.decs != [] && LinesAtLeast(g.blocks, g.bs, GcSet(g.blocks, g.bs))
    ensures GcSurplus(PopDec(g), b, l) == GcSurplus(g, b, l)
  {
    PopDecValid(g);
    PopDecLineIs(g, b, l);
    var o, s := g.decs[0], GcSet(g.blocks, g.bs);
    hide Wf, PopDec, IsGc, GcSet;
    if PopDec(g).blocks != g.blocks {
      CountAdd(g.bs, s - {o}, o, b, l);
      assert s - {o} + {o} == s;
    }
  }

  lemma PopDecValid(g: Rc)
    requires Wf(g) && g.decs != []
    ensures PopDec(g).bs == g.bs && PopDec(g).blocks.Keys == g.blocks.Keys
    ensures PopDec(g).blocks != g.blocks ==>
      && g.decs[0] in GcSet(g.blocks, g.bs)
      && GcSet(PopDec(g).blocks, g.bs) == GcSet(g.blocks, g.bs) - {g.decs[0]}
  {
    hide Closed, Children, SubLines;
    var o, r := g.decs[0], PopDec(g);
    if r.blocks != g.blocks {
      assert forall x :: IsGc(r.blocks, x) <==> IsGc(g.blocks, x) && x != o;
    }
  }

  lemma PopDecLineIs(g: Rc, b: nat, l: nat)
    requires Wf(g) && g.decs != [] && LinesAtLeast(g.blocks, g.bs, GcSet(g.blocks, g.bs))
    requires PopDec(g).blocks != g.blocks ==> g.decs[0] in GcSet(g.blocks, g.bs)
    ensures PopDec(g).blocks != g.blocks ==>
      && (b in g.blocks && l < NUM_LINES ==>
        g.blocks[b].lines[l] == PopDec(g).blocks[b].lines[l] + if CoversLine(g.bs, g.decs[0], b, l) then 1 else 0)
      && (CoversLine(g.bs, g.decs[0], b, l) ==> b in g.blocks && l < NUM_LINES)
  {
    hide Closed, Children;
    var o := g.decs[0];
    if PopDec(g).blocks != g.blocks {
      CountedLinesInBlock(o.offset, g.bs[o].size);
      if CoversLine(g.bs, o, b, l) {
        CountedLinesInUse(g.blocks, g.bs, GcSet(g.blocks, g.bs), o, l);
      }
    }
  }

  lemma Phase2Lines(g: Rc, exact: bool)
    requires Phase2(g, exact)
    ensures Wf(g) && LinesAtLeast(g.blocks, g.bs, GcSet(g.blocks, g.bs))
  {
  }

  lemma {:induction false} DecsSurplus(g: Rc, exact: bool, b: nat, l: nat)
    requires Wf(g) && Phase2(g, exact)
    ensures GcSurplus(ProcessDecs(g), b, l) == GcSurplus(g, b, l)
    decreases SumCounts(g.hs), |g.decs|
  {
    hide Wf, Phase2, PopDec, SumCounts, GcSurplus, LinesAtLeast;
    if g.decs != [] {
      Phase2Lines(g, exact);
      PopDecSurplus(g, b, l);
      PopDecKeeps(g, exact);
      PopDecMeasure(g);
      DecsSurplus(PopDec(g), exact, b, l);
    }
  }

  // ---------------------------------------------------------------- the collection as a whole

  ghost function OldSurplus(g: Rc, b: nat, l: nat): int {
    Surplus(g.blocks, g.bs, OldSet(g), b, l)
  }

  /** The logged objects that are counted on the line. */
  ghost function LoggedOn(hs: Headers, bs: Bodies, b: nat, l: nat): nat {
    |set o | o in hs.Keys && hs[o].logged && CoversLine(bs, o, b, l)|
  }

  /** At the start what is to be counted once more are the logged objects. */
  lemma BeginSurplus(g: Rc, blocks': Blocks, exact: bool, b: nat, l: nat)
    requires Idle(g, exact) && NewRemoved(g.blocks, blocks') && Wf(g.(blocks := blocks'))
    ensures var r := ProcessOldRoots(g.(blocks := blocks'));
      && GcSurplus(r, b, l) == OldSurplus(g, b, l) && Again(r, b, l) == LoggedOn(g.hs, g.bs, b, l)
      && MapOk(r)
  {
    IdleParts(g, exact);
    BeginStructure(g, blocks');
    WfKeys(g);
    var r := ProcessOldRoots(g.(blocks := blocks'));
    BeginFields(g.(blocks := blocks'));
    OldAreValid(g, blocks');
    LoggedAreBuffered(g, blocks');
    hide Wf, Idle, MapOk, LosOk, ModsOk, HeadersOk, ModsLogged, Counts, MapsExact, NewExact, LinesAtLeast, OldSet;
    hide NewRemoved, IsGc, ProcessOldRoots, GcSet, Debt;
    assert (set o | o in r.mods && IsGc(r.blocks, o) && CoversLine(r.bs, o, b, l))
        == set o | o in g.hs.Keys && g.hs[o].logged && CoversLine(g.bs, o, b, l);
    SameLines(g.blocks, blocks');
  }

  lemma SameLines(blocks: Blocks, blocks': Blocks)
    requires NewRemoved(blocks, blocks')
    ensures blocks'.Keys == blocks.Keys && forall b :: b in blocks ==> blocks'[b].lines == blocks[b].lines
  {
    hide IsGc, IsNewObject;
  }

  lemma BeginFields(g: Rc)
    requires Wf(g)
    ensures var r := ProcessOldRoots(g);
      r.mods == g.mods && r.blocks == g.blocks && r.bs == g.bs
  {
    hide Wf;
  }

  lemma OldAreValid(g: Rc, blocks': Blocks)
    requires Wf(g) && MapsExact(g) && NewExact(g) && NewRemoved(g.blocks, blocks')
    ensures GcSet(blocks', g.bs) == OldSet(g)
  {
    hide Closed, LinesAtLeast, IsNewObject;
    WfKeys(g);
  }

  lemma LoggedAreBuffered(g: Rc, blocks': Blocks)
    requires Wf(g) && ModsOk(g) && HeadersOk(g) && ModsLogged(g) && MapsExact(g) && NewExact(g)
    requires NewRemoved(g.blocks, blocks')
    ensures forall o :: o in g.mods && o.Immix? ==> IsGc(blocks', o)
    ensures forall o :: o in g.mods <==> o in g.hs && g.hs[o].logged
    ensures forall o :: IsGc(blocks', o) ==> o.Immix?
    ensures forall b, l, o :: CoversLine(g.bs, o, b, l) ==> o.Immix?
  {
    assert forall o :: IsGc(blocks', o) ==> o.Immix?;
    assert forall b, l, o :: CoversLine(g.bs, o, b, l) ==> o.Immix?;
    hide Closed, IsGc, IsNewObject, InSpace, Fits, CoversLine;
    assert forall o :: o in g.hs ==> HeaderOk(g, o);
  }

  /** At the end nothing valid is new, and the surplus is that of the whole heap. */
  lemma EndSurplus(g: Rc, exact: bool, b: nat, l: nat)
    requires Phase2(g, exact) && g.decs == []
    ensures OldSurplus(FinishRc(g), b, l) == GcSurplus(g, b, l)
  {
    OldLeft(g, exact);
    var f, s := FinishRc(g), GcSet(g.blocks, g.bs);
    hide Phase2, FinishRc, IsGc, GcSet, OldSet;
    assert f.blocks == g.blocks;
    CountFrame(g.bs, f.bs, s, b, l);
  }

  lemma OldLeft(g: Rc, exact: bool)
    requires Phase2(g, exact)
    ensures var f, s := FinishRc(g), GcSet(g.blocks, g.bs);
      && f.blocks == g.blocks && OldSet(f) == s && s <= g.bs.Keys && s <= f.bs.Keys
      && forall o :: o in s ==> f.bs[o] == g.bs[o]
  {
    hide LiveDebt, LinesAtLeast, Closed, Children;
    forall o | o in Live(g)
      ensures !g.hs[o].isNew
    {
      assert LiveOk(g, o, LiveDebt(g), exact);
    }
    LiveKnown(g);
  }

  lemma EnteredSurplus(g: Rc, roots: seq<Ref>, objects: seq<Ref>, b: nat, l: nat)
    requires Wf(g) && MapOk(g) && (forall o :: o in roots ==> o in g.bs) && forall o :: o in objects ==> o in g.bs
    ensures Wf(ProcessRoots(g, roots))
    ensures var r := ProcessLosNew(TakeLosNew(ProcessRoots(g, roots)), objects);
      GcSurplus(r, b, l) == GcSurplus(g, b, l) && Again(r, b, l) == Again(g, b, l)
  {
    hide MapOk, Wf, GcSurplus, Again;
    var g1 := ProcessRoots(g, roots);
    RootsPush(g, roots);
    TakenPushes(g1);
    LargePush(TakeLosNew(g1), objects);
    PushedTrans(g, g1, TakeLosNew(g1));
    PushedTrans(g, TakeLosNew(g1), ProcessLosNew(TakeLosNew(g1), objects));
    PushedSurplus(g, ProcessLosNew(TakeLosNew(g1), objects), b, l);
  }

  lemma TakenPushes(g: Rc)
    requires Wf(g)
    ensures Pushed(g, TakeLosNew(g))
  {
    hide Wf;
  }

  /** What a collection does to the surplus of a line: each logged object counted on it adds one. */
  lemma RcSurplus(g: Rc, blocks': Blocks, roots: seq<Ref>, evac: bool, exact: bool, b: nat, l: nat)
    requires Idle(g, exact) && NewRemoved(g.blocks, blocks')
    requires forall o :: o in roots ==> o in g.bs
    requires forall o {:trigger g.hs[o]} :: o in g.hs && g.hs[o].pinned ==> o in roots
    ensures Wf(g.(blocks := blocks')) && forall o :: o in g.los.newObjects ==> o in g.bs
    ensures OldSurplus(FinishRc(CollectRc(g.(blocks := blocks'), roots, evac)), b, l)
         == OldSurplus(g, b, l) + LoggedOn(g.hs, g.bs, b, l)
  {
    hide *;
    var g' := g.(blocks := blocks');
    BeginWf(g, blocks');
    EnterRootsIs(g', roots);
    CollectRcIs(g', roots, evac);
    BuffersDrained(g, blocks', roots, evac, exact);
    Phase1Begins(g, blocks', exact);
    BeginSurplus(g, blocks', exact, b, l);
    var g0 := ProcessOldRoots(g');
    EnteredSurplus(g0, roots, g.los.newObjects, b, l);
    ProcessRootsKeeps(g0, roots, exact);
    TakeLosNewKeeps(ProcessRoots(g0, roots), exact);
    ProcessLosNewKeeps(TakeLosNew(ProcessRoots(g0, roots)), g.los.newObjects, exact);
    var e := EnterRoots(g', roots);
    ModsSurplus(e, evac, exact, b, l);
    var m := ProcessMods(e, evac);
    Phase2Wf(m, exact);
    DecsSurplus(m, exact, b, l);
    ProcessDecsKeeps(m, exact);
    EndSurplus(ProcessDecs(m), exact, b, l);
  }
}
