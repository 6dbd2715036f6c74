/**
  Why the reference counting collection is safe and complete. Phase 1 enters the roots and drains
  the modified buffer, phase 2 drains the decrement buffer; each has an invariant that one step keeps.
 */
module RcProofs {
  import opened Objects
  import opened BlockLines
  import opened BlockTables
  import opened Graph
  import opened RcModel

  ghost predicate NoDup(s: seq<Ref>) {
    forall i, j :: 0 <= i < j < |s| ==> s[i] != s[j]
  }

  /** The counts cover a debt that is still to be raised by `owed`; `exact`: and nothing more. */
  ghost predicate Counts(hs: Headers, owed: multiset<Ref>, debt: multiset<Ref>, exact: bool) {
    forall o {:trigger hs[o]} :: o in hs ==>
      hs[o].count + owed[o] >= debt[o] && (exact ==> hs[o].count + owed[o] == debt[o])
  }

  // ---------------------------------------------------------------- phase 1

  /** The objects whose members have been counted: neither new nor waiting in the modified buffer. */
  ghost function Contributing(g: Rc): set<Ref> {
    set o | o in g.hs.Keys && !g.hs[o].isNew && o !in g.mods
  }

  /** Everything a count has to account for. */
  ghost function Debt(g: Rc): multiset<Ref>
    requires Wf(g)
  {
    InRefs(g.bs, Contributing(g)) + multiset(g.oldRoots) + multiset(g.decs)
  }

  ghost predicate HeaderOk(g: Rc, o: Ref)
    requires o in g.hs
  {
    && (if g.hs[o].isNew then g.hs[o].count == 0 && !g.hs[o].logged else g.hs[o].count >= 1)
    && (g.hs[o].logged ==> o in g.mods)
  }

  /** The object maps hold what contributes, and no new object. */
  ghost predicate MapOk(g: Rc) {
    && (forall o :: IsGc(g.blocks, o) ==> o in g.hs && !g.hs[o].isNew)
    && (forall o :: o in g.hs && o.Immix? && !g.hs[o].isNew && o !in g.mods ==> IsGc(g.blocks, o))
  }

  ghost predicate LosOk(g: Rc) {
    && (forall o :: o in g.los.objects ==> o in g.hs && o.Large?)
    && (forall o :: o in g.hs && o.Large? ==> o in g.los.objects)
    && g.los.freeBuffer == []
  }

  ghost predicate ModsOk(g: Rc) {
    && NoDup(g.mods)
    && (forall o :: o in g.mods ==> o in g.hs && !g.hs[o].isNew)
  }

  ghost predicate HeadersOk(g: Rc) {
    forall o :: o in g.hs ==> HeaderOk(g, o)
  }

  ghost predicate Phase1(g: Rc, owed: multiset<Ref>, exact: bool) {
    && Wf(g)
    && ModsOk(g)
    && HeadersOk(g)
    && Counts(g.hs, owed, Debt(g), exact)
    && MapOk(g)
    && LosOk(g)
    && LinesAtLeast(g.blocks, g.bs, GcSet(g.blocks, g.bs))
    && !g.evacTried
  }

  lemma Phase1Wf(g: Rc, owed: multiset<Ref>, exact: bool)
    requires Phase1(g, owed, exact)
    ensures Wf(g)
  {
  }

  /** What entering roots and draining the modified buffer leave alone. */
  ghost predicate SameButCounts(g: Rc, r: Rc) {
    && r.bs == g.bs && r.oldRoots == g.oldRoots && r.decs == g.decs && r.los == g.los
    && r.hs.Keys == g.hs.Keys
    && SameShape(g.bs, g.blocks, r.blocks)
    && forall o :: o in g.hs ==>
      && r.hs[o].pinned == g.hs[o].pinned && r.hs[o].marked == g.hs[o].marked
      && (!g.hs[o].isNew ==> !r.hs[o].isNew)
  }

  lemma SameTrans(g: Rc, r: Rc, t: Rc)
    requires SameButCounts(g, r) && SameButCounts(r, t)
    ensures SameButCounts(g, t)
  {
  }

  lemma CountsPaid(hs: Headers, o: Ref, h: Header, owed: multiset<Ref>, debt: multiset<Ref>, exact: bool)
    requires Counts(hs, owed, debt, exact) && o in hs && owed[o] > 0 && h.count == hs[o].count + 1
    ensures Counts(hs[o := h], owed - multiset{o}, debt, exact)
  {
  }

  lemma IncrementDebt(g: Rc, o: Ref, tryEvac: bool, evac: bool)
    requires Wf(g) && ModsOk(g) && o in g.hs
    ensures Wf(Increment(g, o, tryEvac, evac))
    ensures Debt(Increment(g, o, tryEvac, evac)) == Debt(g)
  {
    hide Closed, NoDup, InRefs, Children, IsGc, InSpace;
    assert Contributing(Increment(g, o, tryEvac, evac)) == Contributing(g);
  }

  /** An increment pays one reference of what is owed, and never finds a new object in an object map. */
  lemma IncrementPays(g: Rc, o: Ref, owed: multiset<Ref>, tryEvac: bool, evac: bool, exact: bool)
    requires Phase1(g, owed, exact) && o in g.hs && owed[o] > 0
    ensures Phase1(Increment(g, o, tryEvac, evac), owed - multiset{o}, exact)
    ensures SameButCounts(g, Increment(g, o, tryEvac, evac))
    ensures !Increment(g, o, tryEvac, evac).hs[o].isNew
  {
    hide Wf, ModsOk, HeadersOk, MapOk, LosOk, Counts, Debt, LinesAtLeast, IsGc, InSpace, GcSet;
    var r := Increment(g, o, tryEvac, evac);
    IncrementDebt(g, o, tryEvac, evac);
    IncrementStructure(g, o, tryEvac, evac);
    CountsPaid(g.hs, o, r.hs[o], owed, Debt(g), exact);
  }

  lemma IncrementStructure(g: Rc, o: Ref, tryEvac: bool, evac: bool)
    requires Wf(g) && ModsOk(g) && HeadersOk(g) && MapOk(g) && LosOk(g) && o in g.hs && !g.evacTried
    ensures var r := Increment(g, o, tryEvac, evac);
            Wf(r) && ModsOk(r) && HeadersOk(r) && MapOk(r) && LosOk(r) && !r.evacTried
  {
    hide *;
    IncrementWf(g, o, tryEvac, evac);
    IncrementMaps(g, o, tryEvac, evac);
  }

  lemma IncrementWf(g: Rc, o: Ref, tryEvac: bool, evac: bool)
    requires Wf(g) && o in g.hs
    ensures Wf(Increment(g, o, tryEvac, evac))
  {
    hide Closed, IsGc, InSpace, Fits;
  }

  lemma IncrementMaps(g: Rc, o: Ref, tryEvac: bool, evac: bool)
    requires ModsOk(g) && HeadersOk(g) && MapOk(g) && LosOk(g) && o in g.hs && !g.evacTried
    ensures var r := Increment(g, o, tryEvac, evac); ModsOk(r) && HeadersOk(r) && MapOk(r) && LosOk(r) && !r.evacTried
  {
    hide IsGc;
    var r := Increment(g, o, tryEvac, evac);
    forall x | x in r.hs
      ensures HeaderOk(r, x)
    {
      assert HeaderOk(g, x);
    }
  }

  lemma CountsOwed(hs: Headers, o: Ref, owed: multiset<Ref>, debt: multiset<Ref>, exact: bool)
    requires Counts(hs, owed, debt, exact)
    ensures Counts(hs, owed + multiset{o}, debt + multiset{o}, exact)
  {
  }

  lemma OweStructure(g: Rc, r: Rc, o: Ref)
    requires Wf(g) && ModsOk(g) && HeadersOk(g) && MapOk(g) && LosOk(g) && o in g.hs
    requires r == g.(oldRoots := g.oldRoots + [o]) || r == g.(decs := g.decs + [o])
    ensures Wf(r) && ModsOk(r) && HeadersOk(r) && MapOk(r) && LosOk(r)
    ensures Debt(r) == Debt(g) + multiset{o}
  {
    hide *;
    OweRest(g, r, o);
    OweDebt(g, r, o);
  }

  lemma OweRest(g: Rc, r: Rc, o: Ref)
    requires Wf(g) && ModsOk(g) && HeadersOk(g) && MapOk(g) && LosOk(g) && o in g.hs
    requires r == g.(oldRoots := g.oldRoots + [o]) || r == g.(decs := g.decs + [o])
    ensures Wf(r) && ModsOk(r) && HeadersOk(r) && MapOk(r) && LosOk(r)
  {
    hide Closed, NoDup, IsGc, InSpace;
    forall x | x in r.hs
      ensures HeaderOk(r, x)
    {
      assert HeaderOk(g, x);
    }
  }

  lemma OweDebt(g: Rc, r: Rc, o: Ref)
    requires Wf(g) && Wf(r)
    requires r == g.(oldRoots := g.oldRoots + [o]) || r == g.(decs := g.decs + [o])
    ensures Debt(r) == Debt(g) + multiset{o}
  {
    hide Wf, InRefs;
    assert Contributing(r) == Contributing(g);
  }

  /** A reference entered into a buffer that counts is owed. */
  lemma OweMore(g: Rc, r: Rc, o: Ref, exact: bool)
    requires Phase1(g, multiset{}, exact) && o in g.hs
    requires r == g.(oldRoots := g.oldRoots + [o]) || r == g.(decs := g.decs + [o])
    ensures Phase1(r, multiset{o}, exact)
  {
    hide Wf, ModsOk, HeadersOk, MapOk, LosOk, Counts, Debt, LinesAtLeast, IsGc, InSpace, GcSet;
    OweStructure(g, r, o);
    CountsOwed(g.hs, o, multiset{}, Debt(g), exact);
    assert multiset{} + multiset{o} == multiset{o};
  }

  /** One round of the loop over the roots. */
  lemma RootKeeps(g: Rc, o: Ref, exact: bool)
    requires Phase1(g, multiset{}, exact) && o in g.hs
    ensures var r := Increment(g, o, false, false);
      var r' := r.(oldRoots := r.oldRoots + [o]);
      Wf(r') && Phase1(r', multiset{}, exact) && SameButCounts(g, r'.(oldRoots := g.oldRoots))
  {
    hide Phase1, Wf;
    var g1 := g.(oldRoots := g.oldRoots + [o]);
    OweMore(g, g1, o, exact);
    IncrementPays(g1, o, multiset{o}, false, false, exact);
    assert multiset{o} - multiset{o} == multiset{};
    Phase1Wf(Increment(g1, o, false, false), multiset{}, exact);
  }

  /** One round of the loop over the new large objects. */
  lemma LosNewKeeps(g: Rc, o: Ref, exact: bool)
    requires Phase1(g, multiset{}, exact) && o in g.hs
    ensures var r := Increment(g, o, false, false);
      var r' := r.(decs := r.decs + [o]);
      Wf(r') && Phase1(r', multiset{}, exact) && SameButCounts(g, r'.(decs := g.decs)) && !r'.hs[o].isNew
  {
    hide Phase1, Wf;
    var g1 := g.(decs := g.decs + [o]);
    OweMore(g, g1, o, exact);
    IncrementPays(g1, o, multiset{o}, false, false, exact);
    assert multiset{o} - multiset{o} == multiset{};
    Phase1Wf(Increment(g1, o, false, false), multiset{}, exact);
  }

  lemma {:induction false} ProcessRootsKeeps(g: Rc, roots: seq<Ref>, exact: bool)
    requires Wf(g) && Phase1(g, multiset{}, exact) && forall o :: o in roots ==> o in g.bs
    ensures var r := ProcessRoots(g, roots);
      Phase1(r, multiset{}, exact) && r.oldRoots == g.oldRoots + roots && SameButCounts(g, r.(oldRoots := g.oldRoots))
    decreases |roots|
  {
    hide Phase1, Wf, Increment, SameShape;
    if roots != [] {
      WfKeys(g);
      RootKeeps(g, roots[0], exact);
      IncrementFields(g, roots[0], false, false);
      var g1 := Increment(g, roots[0], false, false);
      var g2 := g1.(oldRoots := g1.oldRoots + [roots[0]]);
      ProcessRootsKeeps(g2, roots[1..], exact);
      assert g.oldRoots + roots == g.oldRoots + [roots[0]] + roots[1..];
      SameThrough(g, g2, ProcessRoots(g, roots), g.oldRoots);
    } else {
      ShapeRefl(g.bs, g.blocks);
    }
  }

  lemma SameThrough(g: Rc, g2: Rc, r: Rc, oldRoots: seq<Ref>)
    requires SameButCounts(g, g2.(oldRoots := g.oldRoots)) && SameButCounts(g2, r.(oldRoots := g2.oldRoots))
    requires oldRoots == g.oldRoots
    ensures SameButCounts(g, r.(oldRoots := oldRoots))
  {
    SameTrans(g, g2.(oldRoots := g.oldRoots), r.(oldRoots := g.oldRoots));
  }

  lemma WfKeys(g: Rc)
    requires Wf(g)
    ensures g.bs.Keys == g.hs.Keys
  {
  }

  lemma IncrementFields(g: Rc, o: Ref, tryEvac: bool, evac: bool)
    requires o in g.hs
    ensures var r := Increment(g, o, tryEvac, evac);
      r.oldRoots == g.oldRoots && r.decs == g.decs && r.bs == g.bs && r.los == g.los
  {
  }

  lemma {:induction false} ProcessLosNewKeeps(g: Rc, objects: seq<Ref>, exact: bool)
    requires Wf(g) && Phase1(g, multiset{}, exact) && forall o :: o in objects ==> o in g.bs
    ensures var r := ProcessLosNew(g, objects);
      Phase1(r, multiset{}, exact) && SameButCounts(g, r.(decs := g.decs))
      && forall o :: o in objects ==> !r.hs[o].isNew
    decreases |objects|
  {
    hide Phase1, Wf, Increment;
    if objects != [] {
      assert g.bs.Keys == g.hs.Keys by { WfKeys(g); }
      LosNewKeeps(g, objects[0], exact);
      var g1 := Increment(g, objects[0], false, false);
      var g2 := g1.(decs := g1.decs + [objects[0]]);
      ProcessLosNewKeeps(g2, objects[1..], exact);
    }
  }

  lemma {:induction false} IncrementChildrenKeeps(g: Rc, children: seq<Ref>, evac: bool, exact: bool)
    requires Wf(g) && Phase1(g, multiset(children), exact) && forall o :: o in children ==> o in g.bs
    ensures Phase1(IncrementChildren(g, children, evac), multiset{}, exact)
    ensures SameButCounts(g, IncrementChildren(g, children, evac))
    decreases |children|
  {
    hide Phase1, Wf, Increment, SameButCounts;
    if children == [] {
      assert multiset(children) == multiset{};
      SameRefl(g);
    } else {
      var o, rest := children[0], children[1..];
      assert o in g.hs by { WfKeys(g); }
      var r := Increment(g, o, true, evac);
      assert multiset(children) - multiset{o} == multiset(rest) by { assert children == [o] + rest; }
      IncrementPays(g, o, multiset(children), true, evac, exact);
      Phase1Wf(r, multiset(rest), exact);
      assert r.bs == g.bs by { IncrementFields(g, o, true, evac); }
      IncrementChildrenKeeps(r, rest, evac, exact);
      SameTrans(g, r, IncrementChildren(r, rest, evac));
    }
  }

  lemma PopModKeeps(g: Rc, exact: bool)
    requires Phase1(g, multiset{}, exact) && g.mods != []
    ensures Phase1(PopMod(g), multiset(Children(g.bs[g.mods[0]])), exact)
    ensures SameButCounts(g, PopMod(g))
  {
    hide Wf, ModsOk, HeadersOk, MapOk, LosOk, LinesAtLeast, PopMod, Children, Debt, GcSet;
    var o, r := g.mods[0], PopMod(g);
    PopModStructure(g);
    PopModDebt(g);
  }

  lemma PopModDebt(g: Rc)
    requires Wf(g) && g.mods != [] && Wf(PopMod(g)) && ModsOk(g) && PopMod(g).mods == g.mods[1..]
    requires g.mods[0] !in g.mods[1..]
    ensures g.mods[0] in g.bs
    ensures Debt(PopMod(g)) == Debt(g) + multiset(Children(g.bs[g.mods[0]]))
  {
    hide Closed, NoDup, InRefs, Children, IsGc, InSpace, Fits;
    var o, r := g.mods[0], PopMod(g);
    assert forall x :: x in g.mods <==> x == o || x in r.mods;
    assert Contributing(r) == Contributing(g) + {o};
    InRefsAdd(g.bs, Contributing(g), o);
  }

  lemma PopModStructure(g: Rc)
    requires Wf(g) && ModsOk(g) && HeadersOk(g) && MapOk(g) && LosOk(g) && g.mods != []
    requires LinesAtLeast(g.blocks, g.bs, GcSet(g.blocks, g.bs))
    ensures var r := PopMod(g);
      && Wf(r) && ModsOk(r) && HeadersOk(r) && MapOk(r) && LosOk(r) && SameButCounts(g, r)
      && LinesAtLeast(r.blocks, r.bs, GcSet(r.blocks, r.bs))
      && r.evacTried == g.evacTried && r.mods == g.mods[1..] && g.mods[0] !in r.mods
      && forall x :: x in r.hs ==> r.hs[x].count == g.hs[x].count && r.hs[x].isNew == g.hs[x].isNew
  {
    hide *;
    PopModFields(g);
    PopModHeaders(g);
    PopModMap(g);
    PopModLines(g);
  }

  lemma PopModFields(g: Rc)
    requires Wf(g) && ModsOk(g) && LosOk(g) && g.mods != []
    ensures var r := PopMod(g);
      && Wf(r) && ModsOk(r) && LosOk(r) && SameButCounts(g, r) && r.hs.Keys == g.hs.Keys && r.bs == g.bs
      && r.evacTried == g.evacTried && r.mods == g.mods[1..] && g.mods[0] !in r.mods
      && forall x :: x in r.hs ==> r.hs[x].count == g.hs[x].count && r.hs[x].isNew == g.hs[x].isNew
  {
    hide Closed, IsGc, IncLines, SetGc, InSpace, Fits, SameShape;
    PopModShape(g);
    var r := PopMod(g);
    assert forall x :: x in g.mods <==> x == g.mods[0] || x in r.mods;
  }

  lemma PopModShape(g: Rc)
    requires Wf(g) && g.mods != []
    ensures SameShape(g.bs, g.blocks, PopMod(g).blocks)
  {
    hide Closed, SameShape, IncLines, SetGc, Fits;
    var o := g.mods[0];
    ShapeRefl(g.bs, g.blocks);
    if o.Immix? {
      SetShape(g.bs, g.blocks, o);
    }
  }

  /** Entering and counting an object leaves its block's first line and the blocks of other objects alone. */
  lemma SetShape(bs: Bodies, blocks: Blocks, o: Ref)
    requires o in bs && o.Immix? && o.block in blocks && bs[o].Plain? && Fits(o.offset, bs[o].size)
    ensures SameShape(bs, blocks, IncLines(SetGc(blocks, o), o, bs[o].size))
  {
    CountedLinesInBlock(o.offset, bs[o].size);
    assert HasObject(bs, o.block);
  }

  lemma PopModHeaders(g: Rc)
    requires Wf(g) && ModsOk(g) && HeadersOk(g) && g.mods != [] && PopMod(g).hs.Keys == g.hs.Keys
    ensures HeadersOk(PopMod(g))
  {
    hide Wf, PopMod, HeaderOk;
    forall x | x in PopMod(g).hs
      ensures HeaderOk(PopMod(g), x)
    {
      assert HeaderOk(g, x);
      PopModHeader(g, x);
    }
  }

  lemma PopModHeader(g: Rc, x: Ref)
    requires Wf(g) && g.mods != [] && x in g.hs && HeaderOk(g, x)
    ensures HeaderOk(PopMod(g), x)
  {
    assert x in g.mods <==> x == g.mods[0] || x in g.mods[1..];
  }

  lemma PopModMap(g: Rc)
    requires Wf(g) && ModsOk(g) && MapOk(g) && LosOk(g) && g.mods != []
    ensures MapOk(PopMod(g)) && LosOk(PopMod(g))
    ensures GcSet(PopMod(g).blocks, g.bs) == GcSet(g.blocks, g.bs) + if g.mods[0].Immix? then {g.mods[0]} else {}
  {
    hide Closed, Children, NoDup, AddLines;
    var o, r := g.mods[0], PopMod(g);
    assert forall x :: x in g.mods <==> x == o || x in r.mods;
    assert forall x :: IsGc(r.blocks, x) <==> IsGc(g.blocks, x) || (x == o && o.Immix?);
  }

  lemma PopModLines(g: Rc)
    requires Wf(g) && ModsOk(g) && MapOk(g) && LosOk(g) && g.mods != []
    requires LinesAtLeast(g.blocks, g.bs, GcSet(g.blocks, g.bs))
    ensures LinesAtLeast(PopMod(g).blocks, g.bs, GcSet(PopMod(g).blocks, g.bs))
  {
    hide Closed, LinesAtLeast, Children, IsGc, NoDup, AddLines, ModsOk, MapOk, LosOk;
    PopModMap(g);
    var o, s := g.mods[0], GcSet(g.blocks, g.bs);
    if o.Immix? {
      LinesFrame(g.blocks, SetGc(g.blocks, o), g.bs, g.bs, s);
      IncLinesKeeps(SetGc(g.blocks, o), g.bs, s, o);
    }
  }

  lemma {:induction false} ProcessModsKeeps(g: Rc, evac: bool, exact: bool)
    requires Wf(g) && Phase1(g, multiset{}, exact)
    ensures Phase1(ProcessMods(g, evac), multiset{}, exact)
    ensures SameButCounts(g, ProcessMods(g, evac))
    decreases |NewObjects(g.hs)| + |g.mods|
  {
    hide Phase1, Closed, Increment, SameButCounts, IncrementChildren, IsGc, InSpace;
    if g.mods != [] {
      var children := Children(g.bs[g.mods[0]]);
      assert forall c :: c in children ==> c in g.bs by { WfChildren(g, g.mods[0]); }
      var g1 := PopMod(g);
      var g2 := IncrementChildren(g1, children, evac);
      PopModKeeps(g, exact);
      IncrementChildrenKeeps(g1, children, evac, exact);
      ProcessModsKeeps(g2, evac, exact);
      SameTrans(g, g1, g2);
      SameTrans(g, g2, ProcessMods(g2, evac));
    } else {
      SameRefl(g);
    }
  }

  lemma WfChildren(g: Rc, o: Ref)
    requires Wf(g) && o in g.bs
    ensures forall c :: c in Children(g.bs[o]) ==> c in g.bs
  {
  }

  lemma SameRefl(g: Rc)
    ensures SameButCounts(g, g)
  {
  }

  // ---------------------------------------------------------------- phase 2

  /** The objects that are valid while decrements are applied. */
  ghost function Live(g: Rc): set<Ref> {
    set o | o in g.hs.Keys && (IsGc(g.blocks, o) || (o in g.los.objects && o !in g.los.freeBuffer))
  }

  ghost function LiveDebt(g: Rc): multiset<Ref>
    requires Wf(g)
  {
    InRefs(g.bs, Live(g)) + multiset(g.oldRoots) + multiset(g.decs)
  }

  /** The headers of live objects. */
  ghost predicate LiveOk(g: Rc, o: Ref, debt: multiset<Ref>, exact: bool)
    requires o in g.hs
  {
    && !g.hs[o].isNew && !g.hs[o].logged && g.hs[o].count >= 1
    && g.hs[o].count >= debt[o] && (exact ==> g.hs[o].count == debt[o])
  }

  ghost predicate Phase2(g: Rc, exact: bool) {
    && Wf(g) && g.mods == []
    && (forall o :: o in Live(g) ==> LiveOk(g, o, LiveDebt(g), exact))
    && (forall o :: o in LiveDebt(g) ==> o in Live(g))
    && (forall o {:trigger g.hs[o]} :: o in g.hs && g.hs[o].pinned ==> o in g.oldRoots)
    && (forall o :: IsGc(g.blocks, o) ==> o in g.hs)
    && (forall o :: o in g.los.objects ==> o in g.hs && o.Large?)
    && LinesAtLeast(g.blocks, g.bs, GcSet(g.blocks, g.bs))
    && !g.evacTried
  }

  /** With an empty modified buffer and every large object counted, phase 2 may begin. */
  lemma Phase2Begins(g: Rc, exact: bool)
    requires Phase1(g, multiset{}, exact) && g.mods == []
    requires forall o :: o in g.los.objects ==> !g.hs[o].isNew
    requires forall o {:trigger g.hs[o]} :: o in g.hs && g.hs[o].pinned ==> o in g.oldRoots
    ensures Phase2(g, exact)
    ensures Live(g) == set o | o in g.hs.Keys && !g.hs[o].isNew
  {
    assert Live(g) == Contributing(g);
    assert LiveDebt(g) == Debt(g);
    forall o | o in Live(g)
      ensures LiveOk(g, o, LiveDebt(g), exact)
    {
      assert HeaderOk(g, o);
    }
    forall o | o in LiveDebt(g)
      ensures o in Live(g)
    {
      InRefsMember(g.bs, Live(g), o);
      assert HeaderOk(g, o);
    }
  }

  /** A decrement meets a live object with a positive count; if it was the last, no root holds the object. */
  lemma DecrementMeetsLive(g: Rc, exact: bool)
    requires Phase2(g, exact) && g.decs != []
    ensures var o := g.decs[0];
      && o in Live(g) && LiveOk(g, o, LiveDebt(g), exact)
      && (g.hs[o].count == 1 ==> !g.hs[o].pinned && LiveDebt(g)[o] == 1)
  {
    hide Wf, Live, InRefs, LinesAtLeast, IsGc;
    var o := g.decs[0];
    assert g.decs == [o] + g.decs[1..];
    assert multiset(g.decs)[o] >= 1;
    assert o in LiveDebt(g);
    LiveKnown(g);
    assert LiveOk(g, o, LiveDebt(g), exact);
    if g.hs[o].pinned {
      assert o in g.oldRoots;
      assert multiset(g.oldRoots)[o] >= 1;
    }
  }

  /** A reclaimed object is no longer live. */
  lemma PopDecLive(g: Rc)
    requires Wf(g) && g.decs != [] && g.decs[0] in Live(g) && g.hs[g.decs[0]].count >= 1
    requires forall x :: x in g.los.objects ==> x.Large?
    ensures var o, r := g.decs[0], PopDec(g);
      Live(r) == if g.hs[o].count == 1 && !g.hs[o].pinned then Live(g) - {o} else Live(g)
  {
    hide Closed, Children, SubLines;
    var o, r := g.decs[0], PopDec(g);
    if g.hs[o].count == 1 && !g.hs[o].pinned {
      if IsGc(g.blocks, o) {
        assert forall x :: IsGc(r.blocks, x) <==> IsGc(g.blocks, x) && x != o;
      } else {
        assert forall x :: x in r.los.freeBuffer <==> x in g.los.freeBuffer || x == o;
      }
    }
  }

  /** Every decrement lowers the debt by itself: what a reclaimed object held moves into the buffer. */
  lemma PopDecDebt(g: Rc, exact: bool)
    requires Phase2(g, exact) && g.decs != []
    ensures LiveDebt(PopDec(g)) == LiveDebt(g) - multiset{g.decs[0]}
    ensures Live(PopDec(g)) == if g.hs[g.decs[0]].count == 1 then Live(g) - {g.decs[0]} else Live(g)
  {
    hide LinesAtLeast, InRefs, GcSet, IsGc;
    var o := g.decs[0];
    DecrementMeetsLive(g, exact);
    LiveKnown(g);
    PopDecLive(g);
    DebtShrinks(g);
  }

  lemma DebtShrinks(g: Rc)
    requires Wf(g) && g.decs != [] && g.decs[0] in Live(g) && g.hs[g.decs[0]].count >= 1
    requires g.hs[g.decs[0]].count == 1 ==> !g.hs[g.decs[0]].pinned
    requires Live(PopDec(g)) == if g.hs[g.decs[0]].count == 1 then Live(g) - {g.decs[0]} else Live(g)
    ensures LiveDebt(PopDec(g)) == LiveDebt(g) - multiset{g.decs[0]}
  {
    hide Wf, Live, InRefs, PopDec, Children;
    WfDecs(g);
    LiveKnown(g);
    PopDecShape(g);
    var o := g.decs[0];
    var rest, kids := multiset(g.decs[1..]), multiset(Children(g.bs[o]));
    assert multiset(g.decs) == multiset{o} + rest by { assert g.decs == [o] + g.decs[1..]; }
    if g.hs[o].count == 1 {
      InRefsSplit(g.bs, Live(g), o);
      MoveKids(InRefs(g.bs, Live(g) - {o}), multiset(g.oldRoots), rest, kids, multiset{o});
    } else {
      MoveKids(InRefs(g.bs, Live(g)), multiset(g.oldRoots), rest, multiset{}, multiset{o});
    }
  }

  lemma MoveKids(refs: multiset<Ref>, roots: multiset<Ref>, decs: multiset<Ref>, kids: multiset<Ref>, o: multiset<Ref>)
    ensures refs + roots + (decs + kids) == kids + refs + roots + (o + decs) - o
  {
  }

  lemma PopDecLines(g: Rc)
    requires Wf(g) && g.decs != [] && LinesAtLeast(g.blocks, g.bs, GcSet(g.blocks, g.bs))
    requires forall o :: IsGc(g.blocks, o) ==> o in g.hs
    ensures var r := PopDec(g);
      LinesAtLeast(r.blocks, r.bs, GcSet(r.blocks, r.bs)) && forall o :: IsGc(r.blocks, o) ==> o in r.hs
  {
    hide Closed, LinesAtLeast, Children, SubLines;
    var o, r, s := g.decs[0], PopDec(g), GcSet(g.blocks, g.bs);
    if r.blocks != g.blocks {
      var blocks := DecLines(g.blocks, o, g.bs[o].size);
      DecLinesKeeps(g.blocks, g.bs, s, o);
      assert forall x :: IsGc(r.blocks, x) <==> IsGc(g.blocks, x) && x != o;
      assert GcSet(r.blocks, r.bs) == s - {o};
      LinesFrame(blocks, r.blocks, g.bs, g.bs, s - {o});
    }
  }

  lemma PopDecShape(g: Rc)
    requires Wf(g) && g.decs != [] && g.decs[0] in g.hs
    ensures var o, r := g.decs[0], PopDec(g);
      && r.hs == (if g.hs[o].count == 0 then g.hs else g.hs[o := g.hs[o].(count := g.hs[o].count - 1)])
      && r.bs == g.bs && r.oldRoots == g.oldRoots && r.mods == g.mods && r.evacTried == g.evacTried
      && r.los == g.los.(freeBuffer := r.los.freeBuffer)
      && r.decs == if g.hs[o].count == 1 && !g.hs[o].pinned then g.decs[1..] + Children(g.bs[o]) else g.decs[1..]
  {
    hide Wf, Children, IsGc, DecLines, UnsetGc;
  }

  lemma PopDecBlocks(g: Rc)
    requires Wf(g) && g.decs != []
    ensures SameShape(g.bs, g.blocks, PopDec(g).blocks)
  {
    hide SameShape, Closed, Children, Fits, DecLines, UnsetGc;
    var o := g.decs[0];
    ShapeRefl(g.bs, g.blocks);
    if IsGc(g.blocks, o) {
      UnsetShape(g.bs, g.blocks, o);
    }
  }

  lemma ShapeRefl(bs: Bodies, blocks: Blocks)
    ensures SameShape(bs, blocks, blocks)
  {
  }

  /** Reclaiming an object leaves its block's first line and the blocks of other objects alone. */
  lemma UnsetShape(bs: Bodies, blocks: Blocks, o: Ref)
    requires o in bs && o.Immix? && o.block in blocks && bs[o].Plain? && Fits(o.offset, bs[o].size)
    ensures SameShape(bs, blocks, UnsetGc(DecLines(blocks, o, bs[o].size), o))
  {
    CountedLinesInBlock(o.offset, bs[o].size);
    assert HasObject(bs, o.block);
  }

  lemma PopDecFields(g: Rc)
    requires Wf(g) && g.decs != []
    ensures SameButCounts(g, PopDec(g).(decs := g.decs, los := g.los))
    ensures PopDec(g).los == g.los.(freeBuffer := PopDec(g).los.freeBuffer)
    ensures PopDec(g).mods == g.mods && PopDec(g).evacTried == g.evacTried
    ensures forall x :: x in g.hs ==> PopDec(g).hs[x].isNew == g.hs[x].isNew && PopDec(g).hs[x].logged == g.hs[x].logged
    ensures forall x {:trigger PopDec(g).hs[x]} :: x in g.hs ==>
      PopDec(g).hs[x].count == if x == g.decs[0] && g.hs[x].count > 0 then g.hs[x].count - 1 else g.hs[x].count
  {
    hide Wf, PopDec, SameShape;
    WfDecs(g);
    PopDecShape(g);
    PopDecBlocks(g);
  }

  /** Applying one decrement: the debt shrinks by it, or by what a reclaimed object no longer holds. */
  lemma PopDecKeeps(g: Rc, exact: bool)
    requires Phase2(g, exact) && g.decs != []
    ensures Phase2(PopDec(g), exact)
    ensures Live(PopDec(g)) <= Live(g)
  {
    hide Wf, Live, LiveOk, LiveDebt, LinesAtLeast, IsGc, Children, GcSet, PopDec;
    var o, r := g.decs[0], PopDec(g);
    assert g.hs.Keys == g.bs.Keys by { WfKeys(g); }
    assert o in g.hs by { WfDecs(g); }
    PopDecFields(g);
    DecrementMeetsLive(g, exact);
    PopDecDebt(g, exact);
    PopDecLines(g);
    PopDecCounts(g, exact);
  }

  lemma PopDecCounts(g: Rc, exact: bool)
    requires Phase2(g, exact) && g.decs != []
    ensures forall x :: x in Live(PopDec(g)) ==> LiveOk(PopDec(g), x, LiveDebt(PopDec(g)), exact)
  {
    hide Wf, Live, LiveDebt, LinesAtLeast, IsGc, Children, GcSet, PopDec;
    var r := PopDec(g);
    assert g.hs.Keys == g.bs.Keys by { WfKeys(g); }
    assert g.decs[0] in g.hs by { WfDecs(g); }
    PopDecFields(g);
    DecrementMeetsLive(g, exact);
    PopDecDebt(g, exact);
    LiveKnown(g);
    forall x | x in Live(r)
      ensures LiveOk(r, x, LiveDebt(r), exact)
    {
      assert LiveOk(g, x, LiveDebt(g), exact);
    }
  }

  lemma LiveKnown(g: Rc)
    ensures forall x :: x in Live(g) ==> x in g.hs
    ensures Live(g) <= g.hs.Keys
  {
  }

  lemma WfDecs(g: Rc)
    requires Wf(g) && g.decs != []
    ensures g.decs[0] in g.hs && g.decs[0] in g.bs && g.hs.Keys == g.bs.Keys
  {
  }

  lemma {:induction false} ProcessDecsKeeps(g: Rc, exact: bool)
    requires Phase2(g, exact)
    ensures Phase2(ProcessDecs(g), exact)
    ensures Live(ProcessDecs(g)) <= Live(g)
    ensures SameButCounts(g, ProcessDecs(g).(decs := g.decs, los := g.los))
    ensures ProcessDecs(g).los == g.los.(freeBuffer := ProcessDecs(g).los.freeBuffer)
    decreases SumCounts(g.hs), |g.decs|
  {
    hide Wf, Live, LiveDebt, LiveOk, LinesAtLeast, IsGc, GcSet, PopDec, SumCounts, SameButCounts;
    Phase2Wf(g, exact);
    if g.decs != [] {
      var r := PopDec(g);
      PopDecKeeps(g, exact);
      PopDecFields(g);
      PopDecMeasure(g);
      ProcessDecsKeeps(r, exact);
      var t := ProcessDecs(r);
      SameTrans(g, r.(decs := g.decs, los := g.los), t.(decs := g.decs, los := g.los)) by {
        SameOther(r, t.(decs := r.decs, los := r.los), g.decs, g.los);
      }
    } else {
      SameRefl(g);
    }
  }

  lemma Phase2Wf(g: Rc, exact: bool)
    requires Phase2(g, exact)
    ensures Wf(g)
  {
  }

  lemma SameOther(g: Rc, r: Rc, decs: seq<Ref>, los: Los)
    requires SameButCounts(g, r)
    ensures SameButCounts(g.(decs := decs, los := los), r.(decs := decs, los := los))
  {
  }
}
