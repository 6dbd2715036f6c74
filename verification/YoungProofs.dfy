/**
  What a write barrier on objects that no collection has seen yet does to the next collection. Such an
  object is buffered before it is counted, so what it held at the barrier is owed a decrement, and what
  it holds later is counted once for that entry of the buffer, and once more if the collection meets the
  object. This module follows the imbalance through both phases, for any heap in order, any number of
  such objects, and whatever is written to them after the barrier.
 */
module YoungProofs {
  import opened Objects
  import opened BlockTables
  import opened Graph
  import opened RcModel
  import opened RcProofs
  import opened RcTheorems

  // ---------------------------------------------------------------- the announced heap

  /** One barrier after the other. */
  function Announce(g: Rc, young: seq<Ref>): Rc
    requires forall o :: o in young ==> o in g.hs && o in g.bs
    decreases |young|
  {
    if young == [] then g else Announce(WriteBarrier(g, young[0]), young[1..])
  }

  /** The children of all objects of the sequence, with multiplicity. */
  ghost function Kids(bs: Bodies, s: seq<Ref>): multiset<Ref>
    requires forall o :: o in s ==> o in bs
    decreases |s|
  {
    if s == [] then multiset{} else multiset(Children(bs[s[0]])) + Kids(bs, s[1..])
  }

  lemma {:induction false} KidsConcat(bs: Bodies, s: seq<Ref>, t: seq<Ref>)
    requires forall o :: o in s + t ==> o in bs
    ensures (forall o :: o in s ==> o in bs) && (forall o :: o in t ==> o in bs)
    ensures Kids(bs, s + t) == Kids(bs, s) + Kids(bs, t)
    decreases |s|
  {
    hide Children;
    assert forall o :: o in s || o in t ==> o in s + t;
    if s == [] {
      assert s + t == t;
    } else {
      assert (s + t)[0] == s[0] && (s + t)[1..] == s[1..] + t;
      KidsConcat(bs, s[1..], t);
    }
  }

  lemma KidsPush(bs: Bodies, s: seq<Ref>, o: Ref)
    requires o in bs && forall x :: x in s ==> x in bs
    ensures Kids(bs, s + [o]) == Kids(bs, s) + multiset(Children(bs[o]))
  {
    hide Children;
    KidsConcat(bs, s, [o]);
    assert Kids(bs, [o]) == multiset(Children(bs[o])) + Kids(bs, [o][1..]);
    assert [o][1..] == [];
  }

  lemma {:induction false} KidsFrame(bs: Bodies, bs': Bodies, s: seq<Ref>)
    requires forall o :: o in s ==> o in bs && o in bs' && bs[o] == bs'[o]
    ensures Kids(bs, s) == Kids(bs', s)
    decreases |s|
  {
    if s != [] {
      KidsFrame(bs, bs', s[1..]);
    }
  }

  /** Distinct objects added to a set hold what their sequence holds. */
  lemma {:induction false} InRefsSeq(bs: Bodies, c: set<Ref>, s: seq<Ref>)
    requires c <= bs.Keys && NoDup(s) && forall o :: o in s ==> o in bs && o !in c
    ensures c + RootSet(s) <= bs.Keys && InRefs(bs, c + RootSet(s)) == InRefs(bs, c) + Kids(bs, s)
    decreases |s|
  {
    hide Children, InRefs;
    if s == [] {
      assert c + RootSet(s) == c;
    } else {
      var o := s[0];
      assert s == [o] + s[1..];
      assert RootSet(s) == {o} + RootSet(s[1..]);
      assert c + RootSet(s) == c + RootSet(s[1..]) + {o};
      InRefsSeq(bs, c, s[1..]);
      InRefsAdd(bs, c + RootSet(s[1..]), o);
    }
  }

  /** What the barriers promise to take off is what the objects hold. */
  lemma {:induction false} AnnouncedDecs(g: Rc, young: seq<Ref>)
    requires NoDup(young) && forall o :: o in young ==> o in g.hs && o in g.bs && !g.hs[o].logged
    ensures multiset(Announce(g, young).decs) == multiset(g.decs) + Kids(g.bs, young)
    decreases |young|
  {
    hide Children;
    if young != [] {
      var o := young[0];
      assert young == [o] + young[1..];
      assert Kids(g.bs, young) == multiset(Children(g.bs[o])) + Kids(g.bs, young[1..]);
      hide Kids;
      AnnouncedDecs(WriteBarrier(g, o), young[1..]);
    }
  }

  /** The barriers log and buffer the objects. */
  lemma {:induction false} Announced(g: Rc, young: seq<Ref>)
    requires NoDup(young) && forall o :: o in young ==> o in g.hs && o in g.bs && !g.hs[o].logged
    ensures var r := Announce(g, young);
      && r == g.(hs := r.hs, mods := g.mods + young, decs := r.decs)
      && r.hs.Keys == g.hs.Keys
      && forall o :: o in g.hs ==> r.hs[o] == if o in young then g.hs[o].(logged := true) else g.hs[o]
    decreases |young|
  {
    hide Children;
    if young == [] {
      assert g.mods + young == g.mods;
    } else {
      var o := young[0];
      assert young == [o] + young[1..];
      var g1 := WriteBarrier(g, o);
      Announced(g1, young[1..]);
      assert g.mods + young == g1.mods + young[1..];
    }
  }

  // ---------------------------------------------------------------- counting

  ghost function Old(hs: Headers): set<Ref> {
    set o | o in hs.Keys && !hs[o].isNew
  }

  /** What counts account for: what old objects and the announced ones hold, and the buffers. */
  ghost function Sum(g: Rc, young: seq<Ref>): multiset<Ref>
    requires Wf(g) && forall o :: o in young ==> o in g.bs
  {
    Kids(g.bs, young) + InRefs(g.bs, Old(g.hs)) + multiset(g.oldRoots) + multiset(g.decs)
  }

  /**
    Counts, what is still to be counted, and what is owed too much make up the sum. The members of each
    buffered object are still to be counted, once for each of its places in the buffer.
   */
  ghost predicate Balanced(g: Rc, young: seq<Ref>, owed: multiset<Ref>, extra: multiset<Ref>, exact: bool)
    requires Wf(g) && forall o :: o in young ==> o in g.bs
  {
    Counts(g.hs, owed + (extra + Kids(g.bs, g.mods)), Sum(g, young), exact)
  }

  /** New objects have not been counted, and no old one has a child that has not been and is not to be. */
  ghost predicate Sorted(g: Rc, owed: multiset<Ref>)
    requires Wf(g)
  {
    && NewUncounted(g.hs) && KidsCounted(g, owed)
    && (forall o :: o in g.oldRoots ==> !g.hs[o].isNew || owed[o] > 0)
  }

  ghost predicate NewUncounted(hs: Headers) {
    forall o {:trigger hs[o]} :: o in hs ==> (hs[o].isNew <==> hs[o].count == 0)
  }

  ghost predicate KidsCounted(g: Rc, owed: multiset<Ref>)
    requires Wf(g)
  {
    forall o, c :: o in g.hs && !g.hs[o].isNew && o !in g.mods && c in Children(g.bs[o]) ==>
      !g.hs[c].isNew || owed[c] > 0
  }

  /** What has left the modified buffer is valid, as are all large objects. */
  ghost predicate Mapped(g: Rc, young: seq<Ref>) {
    && (forall o :: o in g.hs && o.Immix? && (!g.hs[o].isNew || o in young) && o !in g.mods ==> IsGc(g.blocks, o))
    && (forall o :: o in g.hs && o.Large? ==> o in g.los.objects)
    && (forall o :: o in g.los.objects ==> o in g.hs && o.Large?)
    && g.los.freeBuffer == []
  }

  /** The invariant of the first phase. */
  ghost predicate Counting(g: Rc, young: seq<Ref>, owed: multiset<Ref>, extra: multiset<Ref>, exact: bool) {
    && Wf(g) && (forall o :: o in young ==> o in g.bs)
    && Balanced(g, young, owed, extra, exact) && Sorted(g, owed) && Mapped(g, young)
  }

  /** What no step of the first phase changes, and what it changes in one direction only. */
  ghost predicate Kept(g: Rc, r: Rc) {
    && r.bs == g.bs && r.hs.Keys == g.hs.Keys && r.oldRoots == g.oldRoots
    && forall o :: o in g.hs ==> r.hs[o].pinned == g.hs[o].pinned && (!g.hs[o].isNew ==> !r.hs[o].isNew)
  }

  lemma KeptTrans(g: Rc, r: Rc, t: Rc)
    requires Kept(g, r) && Kept(r, t)
    ensures Kept(g, t)
  {
  }

  // ---------------------------------------------------------------- the steps of the first phase

  /** A new object that is counted becomes an old one, and its members are to be counted. */
  lemma IncrementSum(g: Rc, young: seq<Ref>, o: Ref)
    requires Wf(g) && o in g.hs && o in g.bs && forall x :: x in young ==> x in g.bs
    ensures var r, kids := Increment(g, o, false, false), multiset(Children(g.bs[o]));
      && Wf(r) && r.bs == g.bs
      && (g.hs[o].isNew ==> Sum(r, young) == Sum(g, young) + kids && Kids(g.bs, r.mods) == Kids(g.bs, g.mods) + kids)
      && (!g.hs[o].isNew ==> Sum(r, young) == Sum(g, young) && r.mods == g.mods)
  {
    hide InRefs, Kids, Children;
    IncrementWf(g, o, false, false);
    var r := Increment(g, o, false, false);
    if g.hs[o].isNew {
      assert Old(r.hs) == Old(g.hs) + {o};
      InRefsAdd(g.bs, Old(g.hs), o);
      KidsPush(g.bs, g.mods, o);
    } else {
      assert Old(r.hs) == Old(g.hs);
    }
  }

  lemma IncrementBalanced(g: Rc, young: seq<Ref>, o: Ref, owed: multiset<Ref>, extra: multiset<Ref>, exact: bool)
    requires Wf(g) && o in g.hs && o in g.bs && owed[o] > 0 && forall x :: x in young ==> x in g.bs
    requires Balanced(g, young, owed, extra, exact)
    ensures var r := Increment(g, o, false, false);
      Wf(r) && r.bs == g.bs && Balanced(r, young, owed - multiset{o}, extra, exact)
  {
    hide InRefs, Kids, Children, Sum, Closed;
    var r := Increment(g, o, false, false);
    IncrementSum(g, young, o);
    assert (forall x :: x in g.mods ==> x in g.bs) && forall x :: x in r.mods ==> x in g.bs;
    hide Wf, Counts;
    var kids := if g.hs[o].isNew then multiset(Children(g.bs[o])) else multiset{};
    var rest := extra + Kids(g.bs, g.mods);
    CountsPaid(g.hs, o, r.hs[o], owed + rest, Sum(g, young), exact);
    CountsMore(r.hs, owed + rest - multiset{o}, Sum(g, young), kids, exact);
    Shuffle(owed, extra, Kids(g.bs, g.mods), kids, o);
  }

  lemma Shuffle(owed: multiset<Ref>, extra: multiset<Ref>, a: multiset<Ref>, kids: multiset<Ref>, o: Ref)
    requires owed[o] > 0
    ensures owed + (extra + a) - multiset{o} + kids == owed - multiset{o} + (extra + (a + kids))
  {
  }

  lemma CountsMore(hs: Headers, owed: multiset<Ref>, debt: multiset<Ref>, more: multiset<Ref>, exact: bool)
    requires Counts(hs, owed, debt, exact)
    ensures Counts(hs, owed + more, debt + more, exact)
  {
  }

  lemma IncrementKids(g: Rc, o: Ref, owed: multiset<Ref>)
    requires Wf(g) && o in g.hs && KidsCounted(g, owed) && Wf(Increment(g, o, false, false))
    ensures KidsCounted(Increment(g, o, false, false), owed - multiset{o})
  {
    WfKeys(g);
    hide Children, Closed, InSpace;
    var r := Increment(g, o, false, false);
    forall x, c | x in r.hs && !r.hs[x].isNew && x !in r.mods && c in Children(r.bs[x])
      ensures c in r.hs && (!r.hs[c].isNew || (owed - multiset{o})[c] > 0)
    {
      WfChildren(g, x);
      assert x !in g.mods;
      assert x == o ==> !g.hs[o].isNew;
    }
  }

  lemma IncrementSorted(g: Rc, o: Ref, owed: multiset<Ref>)
    requires Wf(g) && o in g.hs && Sorted(g, owed)
    ensures var r := Increment(g, o, false, false); Wf(r) && Sorted(r, owed - multiset{o}) && Kept(g, r)
  {
    IncrementWf(g, o, false, false);
    IncrementKids(g, o, owed);
    assert forall x :: x in g.oldRoots ==> x in g.hs;
    hide Wf, KidsCounted;
  }

  /** An increment pays what is owed to the object. */
  lemma IncrementCounts(g: Rc, young: seq<Ref>, o: Ref, owed: multiset<Ref>, extra: multiset<Ref>, exact: bool)
    requires Counting(g, young, owed, extra, exact) && o in g.hs && owed[o] > 0
    ensures var r := Increment(g, o, false, false);
      Counting(r, young, owed - multiset{o}, extra, exact) && Kept(g, r)
  {
    hide Balanced, Sorted, Wf, IsGc, Kept;
    var r := Increment(g, o, false, false);
    WfKeys(g);
    IncrementBalanced(g, young, o, owed, extra, exact);
    IncrementSorted(g, o, owed);
  }

  /** A reference entered into a buffer that counts is owed. */
  lemma OweCounts(g: Rc, r: Rc, young: seq<Ref>, o: Ref, extra: multiset<Ref>, exact: bool)
    requires Counting(g, young, multiset{}, extra, exact) && o in g.hs
    requires r == g.(oldRoots := g.oldRoots + [o]) || r == g.(decs := g.decs + [o])
    ensures Counting(r, young, multiset{o}, extra, exact)
  {
    hide Balanced, Sorted, Wf, IsGc;
    OweWf(g, r, o);
    OweBalanced(g, r, young, o, extra, exact);
    OweSorted(g, r, o);
  }

  lemma OweBalanced(g: Rc, r: Rc, young: seq<Ref>, o: Ref, extra: multiset<Ref>, exact: bool)
    requires Wf(g) && Wf(r) && (forall x :: x in young ==> x in g.bs)
    requires Balanced(g, young, multiset{}, extra, exact)
    requires r == g.(oldRoots := g.oldRoots + [o]) || r == g.(decs := g.decs + [o])
    ensures Balanced(r, young, multiset{o}, extra, exact)
  {
    assert forall x :: x in g.mods ==> x in g.bs;
    OweSum(g, r, young, o);
    hide Kids, Wf, Sum, Counts;
    var rest := extra + Kids(g.bs, g.mods);
    CountsOwed(g.hs, o, multiset{} + rest, Sum(g, young), exact);
    assert multiset{} + rest + multiset{o} == multiset{o} + rest;
  }

  lemma OweSum(g: Rc, r: Rc, young: seq<Ref>, o: Ref)
    requires Wf(g) && Wf(r) && (forall x :: x in young ==> x in g.bs)
    requires r == g.(oldRoots := g.oldRoots + [o]) || r == g.(decs := g.decs + [o])
    ensures Sum(r, young) == Sum(g, young) + multiset{o}
  {
    hide InRefs, Kids, Wf;
  }

  lemma OweSorted(g: Rc, r: Rc, o: Ref)
    requires Wf(g) && Wf(r) && o in g.hs && Sorted(g, multiset{})
    requires r == g.(oldRoots := g.oldRoots + [o]) || r == g.(decs := g.decs + [o])
    ensures Sorted(r, multiset{o})
  {
    hide Children, Closed, InSpace;
  }

  lemma OweWf(g: Rc, r: Rc, o: Ref)
    requires Wf(g) && o in g.hs && (r == g.(oldRoots := g.oldRoots + [o]) || r == g.(decs := g.decs + [o]))
    ensures Wf(r)
  {
    hide Children, InSpace, Closed;
  }

  /** Taking an object off the buffer makes it valid, and its members are owed. */
  lemma PopModCounts(g: Rc, young: seq<Ref>, extra: multiset<Ref>, exact: bool)
    requires Counting(g, young, multiset{}, extra, exact) && g.mods != []
    ensures g.mods[0] in g.bs
    ensures Counting(PopMod(g), young, multiset(Children(g.bs[g.mods[0]])), extra, exact) && Kept(g, PopMod(g))
  {
    hide Balanced, Sorted, Wf, Mapped, Kept, PopMod, Children;
    PopModBalanced(g, young, extra, exact);
    PopModSorted(g);
    PopModMapped(g, young);
  }

  lemma PopModBalanced(g: Rc, young: seq<Ref>, extra: multiset<Ref>, exact: bool)
    requires Wf(g) && g.mods != [] && forall x :: x in young ==> x in g.bs
    requires Balanced(g, young, multiset{}, extra, exact)
    ensures g.mods[0] in g.bs && PopMod(g).bs == g.bs
    ensures Balanced(PopMod(g), young, multiset(Children(g.bs[g.mods[0]])), extra, exact)
  {
    hide InRefs, Children, IncLines, SetGc, Closed, InSpace;
    var r, o := PopMod(g), g.mods[0];
    assert Old(r.hs) == Old(g.hs);
    var kids := multiset(Children(g.bs[o]));
    assert Kids(g.bs, g.mods) == kids + Kids(g.bs, r.mods);
    assert Sum(r, young) == Sum(g, young);
    hide Wf, Sum, Kids;
    assert multiset{} + (extra + Kids(g.bs, g.mods)) == kids + (extra + Kids(g.bs, r.mods));
  }

  lemma PopModSorted(g: Rc)
    requires Wf(g) && g.mods != [] && Sorted(g, multiset{})
    ensures g.mods[0] in g.bs
    ensures Sorted(PopMod(g), multiset(Children(g.bs[g.mods[0]]))) && Kept(g, PopMod(g))
  {
    hide Children, IncLines, SetGc, Closed, InSpace;
    var r, o := PopMod(g), g.mods[0];
    assert forall x :: x in g.mods <==> x == o || x in r.mods;
  }

  lemma PopModMapped(g: Rc, young: seq<Ref>)
    requires Wf(g) && g.mods != [] && Mapped(g, young)
    ensures Mapped(PopMod(g), young)
  {
    hide Closed;
    var r, o := PopMod(g), g.mods[0];
    assert forall x :: x in g.mods <==> x == o || x in r.mods;
    assert forall x :: IsGc(r.blocks, x) <==> IsGc(g.blocks, x) || (x == o && o.Immix?);
  }

  // ---------------------------------------------------------------- the loops of the first phase

  /** A reference is entered and counted. */
  lemma EnterCounts(g: Rc, r: Rc, young: seq<Ref>, o: Ref, extra: multiset<Ref>, exact: bool)
    requires Counting(g, young, multiset{}, extra, exact) && o in g.hs
    requires r == g.(oldRoots := g.oldRoots + [o]) || r == g.(decs := g.decs + [o])
    ensures var t := Increment(r, o, false, false);
      Counting(t, young, multiset{}, extra, exact) && Kept(g.(oldRoots := r.oldRoots), t) && !t.hs[o].isNew
  {
    hide Counting, Wf;
    OweCounts(g, r, young, o, extra, exact);
    IncrementCounts(r, young, o, multiset{o}, extra, exact);
    assert multiset{o} - multiset{o} == multiset{};
  }

  lemma CountingWf(g: Rc, young: seq<Ref>, owed: multiset<Ref>, extra: multiset<Ref>, exact: bool)
    requires Counting(g, young, owed, extra, exact)
    ensures Wf(g) && g.hs.Keys == g.bs.Keys && forall o :: o in young ==> o in g.bs
  {
  }

  /** One round of the loop over the roots. */
  lemma RootCounts(g: Rc, young: seq<Ref>, o: Ref, extra: multiset<Ref>, exact: bool)
    requires Counting(g, young, multiset{}, extra, exact) && o in g.hs
    ensures var r := Increment(g, o, false, false);
      var r' := r.(oldRoots := r.oldRoots + [o]);
      && Wf(r') && Counting(r', young, multiset{}, extra, exact) && Kept(g.(oldRoots := r'.oldRoots), r')
      && r'.oldRoots == g.oldRoots + [o] && r'.los == g.los && r'.bs == g.bs
  {
    hide Counting, Wf, Kept;
    EnterCounts(g, g.(oldRoots := g.oldRoots + [o]), young, o, extra, exact);
    var r := Increment(g, o, false, false);
    CountingWf(r.(oldRoots := r.oldRoots + [o]), young, multiset{}, extra, exact);
  }

  /** One round of the loop over the new large objects. */
  lemma LargeCounts(g: Rc, young: seq<Ref>, o: Ref, extra: multiset<Ref>, exact: bool)
    requires Counting(g, young, multiset{}, extra, exact) && o in g.hs
    ensures var r := Increment(g, o, false, false);
      var r' := r.(decs := r.decs + [o]);
      && Wf(r') && Counting(r', young, multiset{}, extra, exact) && Kept(g, r') && r'.bs == g.bs
      && o in r'.hs && !r'.hs[o].isNew
  {
    hide Counting, Wf;
    EnterCounts(g, g.(decs := g.decs + [o]), young, o, extra, exact);
    var r := Increment(g, o, false, false);
    CountingWf(r.(decs := r.decs + [o]), young, multiset{}, extra, exact);
  }

  lemma KeptRoots(g: Rc, r: Rc, t: Rc, some: seq<Ref>, rest: seq<Ref>)
    requires Kept(g.(oldRoots := r.oldRoots), r) && Kept(r.(oldRoots := r.oldRoots + rest), t)
    requires r.oldRoots == g.oldRoots + some
    ensures Kept(g.(oldRoots := g.oldRoots + (some + rest)), t)
  {
    assert g.oldRoots + (some + rest) == r.oldRoots + rest;
  }

  lemma {:induction false} RootsCount(g: Rc, young: seq<Ref>, roots: seq<Ref>, extra: multiset<Ref>, exact: bool)
    requires Wf(g) && Counting(g, young, multiset{}, extra, exact) && forall o :: o in roots ==> o in g.bs
    ensures var r := ProcessRoots(g, roots);
      && Counting(r, young, multiset{}, extra, exact) && Kept(g.(oldRoots := g.oldRoots + roots), r)
      && r.los == g.los
    decreases |roots|
  {
    hide Counting, Wf, Kept, Increment;
    CountingWf(g, young, multiset{}, extra, exact);
    if roots == [] {
      assert g.oldRoots + roots == g.oldRoots;
      KeptSelf(g);
    } else {
      var o, rest := roots[0], roots[1..];
      RootCounts(g, young, o, extra, exact);
      var g1 := Increment(g, o, false, false);
      var g2 := g1.(oldRoots := g1.oldRoots + [o]);
      RootsCount(g2, young, rest, extra, exact);
      KeptRoots(g, g2, ProcessRoots(g, roots), [o], rest);
      assert [o] + rest == roots;
    }
  }

  lemma KeptSelf(g: Rc)
    ensures Kept(g, g)
  {
  }

  lemma KeptOld(g: Rc, r: Rc, o: Ref)
    requires Kept(g, r) && o in g.hs && !g.hs[o].isNew
    ensures o in r.hs && !r.hs[o].isNew
  {
  }

  lemma {:induction false} LargeCount(g: Rc, young: seq<Ref>, objects: seq<Ref>, extra: multiset<Ref>, exact: bool)
    requires Wf(g) && Counting(g, young, multiset{}, extra, exact) && forall o :: o in objects ==> o in g.bs
    ensures var r := ProcessLosNew(g, objects);
      && Counting(r, young, multiset{}, extra, exact) && Kept(g, r)
      && forall o :: o in objects ==> o in r.hs && !r.hs[o].isNew
    decreases |objects|
  {
    hide Counting, Wf, Kept, Increment;
    CountingWf(g, young, multiset{}, extra, exact);
    if objects == [] {
      KeptSelf(g);
    } else {
      var o, rest := objects[0], objects[1..];
      LargeCounts(g, young, o, extra, exact);
      var g1 := Increment(g, o, false, false);
      var g2 := g1.(decs := g1.decs + [o]);
      LargeCount(g2, young, rest, extra, exact);
      var r := ProcessLosNew(g, objects);
      KeptTrans(g, g2, r);
      KeptOld(g2, r, o);
      assert objects == [o] + rest;
    }
  }

  lemma {:induction false} ChildrenCount(g: Rc, young: seq<Ref>, children: seq<Ref>, extra: multiset<Ref>, exact: bool)
    requires Wf(g) && Counting(g, young, multiset(children), extra, exact) && forall o :: o in children ==> o in g.bs
    ensures var r := IncrementChildren(g, children, false);
      Counting(r, young, multiset{}, extra, exact) && Kept(g, r)
    decreases |children|
  {
    hide Counting, Wf, Increment, Kept;
    CountingWf(g, young, multiset(children), extra, exact);
    if children == [] {
      assert multiset(children) == multiset{};
      KeptSelf(g);
    } else {
      var o, rest := children[0], children[1..];
      var r := Increment(g, o, true, false);
      assert r == Increment(g, o, false, false) by { NoWish(g, o); }
      assert multiset(children) - multiset{o} == multiset(rest) by { assert children == [o] + rest; }
      IncrementCounts(g, young, o, multiset(children), extra, exact);
      CountingWf(r, young, multiset(rest), extra, exact);
      assert r.bs == g.bs by { IncrementFields(g, o, true, false); }
      ChildrenCount(r, young, rest, extra, exact);
      KeptTrans(g, r, IncrementChildren(r, rest, false));
    }
  }

  lemma NoWish(g: Rc, o: Ref)
    requires o in g.hs
    ensures Increment(g, o, true, false) == Increment(g, o, false, false)
  {
  }

  lemma {:induction false} ModsCount(g: Rc, young: seq<Ref>, extra: multiset<Ref>, exact: bool)
    requires Wf(g) && Counting(g, young, multiset{}, extra, exact)
    ensures Counting(ProcessMods(g, false), young, multiset{}, extra, exact) && Kept(g, ProcessMods(g, false))
    decreases |NewObjects(g.hs)| + |g.mods|
  {
    if g.mods != [] {
      var children := Children(g.bs[g.mods[0]]);
      assert forall c :: c in children ==> c in g.bs by { WfChildren(g, g.mods[0]); }
      hide Counting, Wf, Kept, Children;
      var g1 := PopMod(g);
      var g2 := IncrementChildren(g1, children, false);
      PopModCounts(g, young, extra, exact);
      ChildrenCount(g1, young, children, extra, exact);
      ModsCount(g2, young, extra, exact);
      KeptTrans(g, g1, g2);
      KeptTrans(g, g2, ProcessMods(g2, false));
    } else {
      KeptSelf(g);
    }
  }

  /** The first phase as a whole, from the state in which the new objects have left the object maps. */
  lemma PhaseCounts(g: Rc, young: seq<Ref>, roots: seq<Ref>, extra: multiset<Ref>, exact: bool)
    requires Wf(g) && Counting(ProcessOldRoots(g), young, multiset{}, extra, exact)
    requires (forall o :: o in roots ==> o in g.bs) && (forall o :: o in g.los.newObjects ==> o in g.bs)
    ensures var m := ProcessMods(EnterRoots(g, roots), false);
      && Counting(m, young, multiset{}, extra, exact) && Kept(g.(oldRoots := roots), m) && m.mods == []
      && forall o :: o in g.los.newObjects ==> o in m.hs && !m.hs[o].isNew
  {
    EnterRootsIs(g, roots);
    hide *;
    var g0 := ProcessOldRoots(g);
    ProcessOldRootsFields(g);
    RootsCount(g0, young, roots, extra, exact);
    var g1 := ProcessRoots(g0, roots);
    assert g0.oldRoots + roots == roots;
    CountingWf(g1, young, multiset{}, extra, exact);
    var g2 := TakeLosNew(g1);
    TakenCounts(g1, young, extra, exact);
    LargeCount(g2, young, g.los.newObjects, extra, exact);
    var g3 := ProcessLosNew(g2, g.los.newObjects);
    CountingWf(g3, young, multiset{}, extra, exact);
    ModsCount(g3, young, extra, exact);
    var m := ProcessMods(g3, false);
    KeptTrans(g.(oldRoots := roots), g1, g2) by { KeptBegin(g, g0, g1, roots); }
    KeptTrans(g.(oldRoots := roots), g2, g3);
    KeptTrans(g.(oldRoots := roots), g3, m);
    forall o | o in g.los.newObjects
      ensures o in m.hs && !m.hs[o].isNew
    {
      KeptOld(g3, m, o);
    }
  }

  lemma KeptBegin(g: Rc, g0: Rc, g1: Rc, roots: seq<Ref>)
    requires g0.hs == g.hs && g0.bs == g.bs && Kept(g0.(oldRoots := roots), g1)
    ensures Kept(g.(oldRoots := roots), g1)
  {
  }

  lemma TakenCounts(g: Rc, young: seq<Ref>, extra: multiset<Ref>, exact: bool)
    requires Wf(g) && Counting(g, young, multiset{}, extra, exact)
    ensures Counting(TakeLosNew(g), young, multiset{}, extra, exact) && Kept(g, TakeLosNew(g))
  {
    hide Closed, InSpace, InMap, Kids, InRefs;
    assert Sum(TakeLosNew(g), young) == Sum(g, young);
  }

  // ---------------------------------------------------------------- the second phase

  /** The valid objects that have been counted. */
  ghost function Survivors(g: Rc): set<Ref> {
    set o | o in g.hs.Keys && o in Live(g) && !g.hs[o].isNew
  }

  ghost function Debit(g: Rc, young: seq<Ref>): multiset<Ref>
    requires Wf(g) && forall o :: o in young ==> o in g.bs
  {
    Kids(g.bs, young) + InRefs(g.bs, Survivors(g)) + multiset(g.oldRoots) + multiset(g.decs)
  }

  /** A survivor's count; a pinned one may be counted down too far, as zero stays zero. */
  ghost predicate Covered(g: Rc, o: Ref, debit: multiset<Ref>, extra: multiset<Ref>, exact: bool)
    requires o in g.hs
  {
    && g.hs[o].count + extra[o] >= debit[o]
    && (exact && !g.hs[o].pinned ==> g.hs[o].count + extra[o] == debit[o])
    && (!g.hs[o].pinned ==> g.hs[o].count >= 1)
  }

  ghost predicate CountedSurvive(g: Rc) {
    forall o {:trigger g.hs[o]} :: o in g.hs && g.hs[o].count > 0 ==> o in Survivors(g)
  }

  ghost predicate AllCovered(g: Rc, young: seq<Ref>, extra: multiset<Ref>, exact: bool)
    requires Wf(g) && forall o :: o in young ==> o in g.bs
  {
    forall o :: o in Survivors(g) ==> Covered(g, o, Debit(g, young), extra, exact)
  }

  /** The invariant of the second phase. */
  ghost predicate Draining(g: Rc, young: seq<Ref>, extra: multiset<Ref>, exact: bool) {
    && Wf(g) && g.mods == [] && (forall o :: o in young ==> o in g.bs)
    && CountedSurvive(g) && AllCovered(g, young, extra, exact)
    && (forall o :: o in g.los.objects ==> o in g.hs && o.Large?)
  }

  /** Every old object is valid, and no new one has been counted. */
  lemma DrainingBegins(g: Rc, young: seq<Ref>, extra: multiset<Ref>, exact: bool)
    requires Counting(g, young, multiset{}, extra, exact) && g.mods == []
    ensures Draining(g, young, extra, exact) && Survivors(g) == Old(g.hs)
  {
    hide InRefs, IsGc, Closed, InSpace;
    assert Survivors(g) == Old(g.hs);
    assert Debit(g, young) == Sum(g, young);
    assert Kids(g.bs, g.mods) == multiset{};
    hide Wf, Debit, Sum, Live;
    assert multiset{} + (extra + Kids(g.bs, g.mods)) == extra;
    forall o | o in Survivors(g)
      ensures Covered(g, o, Debit(g, young), extra, exact)
    {
      assert g.hs[o].count + extra[o] >= Sum(g, young)[o];
    }
  }

  /** A decrement takes at most the object itself out, and what that held moves into the buffer. */
  lemma PopDecSurvivors(g: Rc, young: seq<Ref>, extra: multiset<Ref>, exact: bool)
    requires Draining(g, young, extra, exact) && g.decs != []
    ensures var o, r := g.decs[0], PopDec(g);
      && o in g.hs && r.hs.Keys == g.hs.Keys && r.bs == g.bs
      && Survivors(r) == (if g.hs[o].count == 1 && !g.hs[o].pinned then Survivors(g) - {o} else Survivors(g))
      && Debit(g, young) == Debit(r, young) + multiset{o}
  {
    hide Closed, InSpace, InRefs, IsGc, Kids, Children, Covered, Debit;
    var o, r := g.decs[0], PopDec(g);
    WfDecs(g);
    PopDecFields(g);
    PopDecShape(g);
    if g.hs[o].count > 0 {
      PopDecLive(g);
    }
    hide PopDec, Live, Wf;
    DebitMoves(g, r, young);
  }

  lemma DebitMoves(g: Rc, r: Rc, young: seq<Ref>)
    requires Wf(g) && Wf(r) && g.decs != [] && forall o :: o in young ==> o in g.bs
    requires r.bs == g.bs && r.hs.Keys == g.hs.Keys && r.oldRoots == g.oldRoots
    requires var o := g.decs[0];
      && o in g.hs && o in g.bs
      && (g.hs[o].count == 1 && !g.hs[o].pinned ==>
            o in Survivors(g) && Survivors(r) == Survivors(g) - {o} && r.decs == g.decs[1..] + Children(g.bs[o]))
      && (!(g.hs[o].count == 1 && !g.hs[o].pinned) ==> Survivors(r) == Survivors(g) && r.decs == g.decs[1..])
    ensures Debit(g, young) == Debit(r, young) + multiset{g.decs[0]}
  {
    hide InRefs, Kids, Children, Live;
    var o := g.decs[0];
    WfKeys(g);
    hide Wf;
    assert g.decs == [o] + g.decs[1..];
    if g.hs[o].count == 1 && !g.hs[o].pinned {
      InRefsSplit(g.bs, Survivors(g), o);
    }
  }

  lemma CoveredStill(g: Rc, r: Rc, o: Ref, x: Ref, debit: multiset<Ref>, debit': multiset<Ref>, extra: multiset<Ref>,
      exact: bool)
    requires x in g.hs && x in r.hs && Covered(g, x, debit, extra, exact)
    requires debit == debit' + multiset{o} && r.hs[x].pinned == g.hs[x].pinned
    requires r.hs[x].count == if x == o && g.hs[x].count > 0 then g.hs[x].count - 1 else g.hs[x].count
    requires !(x == o && g.hs[x].count == 1 && !g.hs[x].pinned)
    ensures Covered(r, x, debit', extra, exact)
  {
  }

  lemma PopDecCovered(g: Rc, young: seq<Ref>, extra: multiset<Ref>, exact: bool, x: Ref)
    requires Draining(g, young, extra, exact) && g.decs != [] && x in Survivors(PopDec(g))
    ensures PopDec(g).bs == g.bs && x in PopDec(g).hs
    ensures Covered(PopDec(g), x, Debit(PopDec(g), young), extra, exact)
  {
    PopDecSurvivors(g, young, extra, exact);
    WfDecs(g);
    PopDecFields(g);
    SurvivorsKnown(g);
    hide Wf, Survivors, Debit, PopDec, Covered, InRefs, Kids, SameShape;
    assert Covered(g, x, Debit(g, young), extra, exact);
    CoveredStill(g, PopDec(g), g.decs[0], x, Debit(g, young), Debit(PopDec(g), young), extra, exact);
  }

  lemma PopDecCounted(g: Rc, young: seq<Ref>, extra: multiset<Ref>, exact: bool)
    requires Draining(g, young, extra, exact) && g.decs != []
    ensures CountedSurvive(PopDec(g))
  {
    PopDecSurvivors(g, young, extra, exact);
    PopDecFields(g);
    hide Wf, Survivors, PopDec, AllCovered, SameShape;
    var o, r := g.decs[0], PopDec(g);
    forall x {:trigger r.hs[x]} | x in r.hs && r.hs[x].count > 0
      ensures x in Survivors(r)
    {
      assert g.hs[x].count > 0;
    }
  }

  lemma PopDecDrains(g: Rc, young: seq<Ref>, extra: multiset<Ref>, exact: bool)
    requires Draining(g, young, extra, exact) && g.decs != []
    ensures Draining(PopDec(g), young, extra, exact)
  {
    PopDecFields(g);
    PopDecCounted(g, young, extra, exact);
    hide Wf, Survivors, Debit, PopDec, Covered, InRefs, Kids, SameShape, CountedSurvive;
    forall x | x in Survivors(PopDec(g))
      ensures x in PopDec(g).hs && Covered(PopDec(g), x, Debit(PopDec(g), young), extra, exact)
    {
      PopDecCovered(g, young, extra, exact, x);
    }
  }

  lemma SurvivorsKnown(g: Rc)
    ensures forall x :: x in Survivors(g) ==> x in g.hs
    ensures Wf(g) ==> Survivors(g) <= g.bs.Keys
  {
  }

  /**
    A set of objects each of which is held: it is pinned, or it has more references than are owed too
    much, counting those of the announced objects, those from inside of the set, and the roots.
   */
  ghost predicate Held(g: Rc, young: seq<Ref>, extra: multiset<Ref>, roots: seq<Ref>, s: set<Ref>)
    requires s <= g.bs.Keys && forall o :: o in young ==> o in g.bs
  {
    forall o :: o in s && o in g.hs ==>
      g.hs[o].pinned || extra[o] < Kids(g.bs, young)[o] + InRefs(g.bs, s)[o] + multiset(roots)[o]
  }

  /** No object of such a set can be the first of it to be reclaimed. */
  lemma PopDecHolds(g: Rc, young: seq<Ref>, extra: multiset<Ref>, exact: bool, s: set<Ref>)
    requires Draining(g, young, extra, exact) && g.decs != []
    requires s <= g.bs.Keys && s <= Survivors(g) && Held(g, young, extra, g.oldRoots, s)
    ensures s <= Survivors(PopDec(g))
  {
    PopDecSurvivors(g, young, extra, exact);
    hide Wf, Survivors, InRefs, Kids, PopDec, Debit, AllCovered, CountedSurvive;
    var o := g.decs[0];
    if o in s {
      HeldLeft(g, young, extra, exact, s, o);
    }
  }

  /** A held object is not reclaimed by a decrement. */
  lemma HeldLeft(g: Rc, young: seq<Ref>, extra: multiset<Ref>, exact: bool, s: set<Ref>, o: Ref)
    requires Draining(g, young, extra, exact) && o in g.decs && o in s && o in g.hs
    requires s <= g.bs.Keys && s <= Survivors(g) && Held(g, young, extra, g.oldRoots, s)
    ensures g.hs[o].count != 1 || g.hs[o].pinned
  {
    SurvivorsKnown(g);
    InRefsMonotone(g.bs, s, Survivors(g));
    hide Wf, Survivors, InRefs, Kids;
    assert o in multiset(g.decs);
    assert Covered(g, o, Debit(g, young), extra, exact);
  }

  lemma PopDecKept(g: Rc)
    requires Wf(g) && g.decs != []
    ensures Kept(g, PopDec(g)) && Old(PopDec(g).hs) == Old(g.hs)
  {
    hide PopDec, Wf, SameShape;
    WfDecs(g);
    PopDecFields(g);
  }

  lemma {:induction false} DecsDrain(g: Rc, young: seq<Ref>, extra: multiset<Ref>, exact: bool, s: set<Ref>)
    requires Wf(g) && Draining(g, young, extra, exact)
    requires s <= g.bs.Keys && s <= Survivors(g) && Held(g, young, extra, g.oldRoots, s)
    ensures var r := ProcessDecs(g);
      Draining(r, young, extra, exact) && Kept(g, r) && Old(r.hs) == Old(g.hs) && s <= Survivors(r)
    decreases SumCounts(g.hs), |g.decs|
  {
    hide Wf, Draining, Survivors, PopDec, SumCounts, Old, InRefs, Kids;
    assert forall o :: o in young ==> o in g.bs by { DrainingYoung(g, young, extra, exact); }
    if g.decs != [] {
      var r := PopDec(g);
      PopDecDrains(g, young, extra, exact);
      PopDecHolds(g, young, extra, exact, s);
      PopDecKept(g);
      PopDecMeasure(g);
      DecsDrain(r, young, extra, exact, s);
    }
  }

  lemma DrainingYoung(g: Rc, young: seq<Ref>, extra: multiset<Ref>, exact: bool)
    requires Draining(g, young, extra, exact)
    ensures forall o :: o in young ==> o in g.bs
    ensures Survivors(g) <= g.bs.Keys
  {
  }

  /** In the end, with exact counts, the survivors are such a set themselves. */
  lemma SurvivorsHeld(g: Rc, young: seq<Ref>, extra: multiset<Ref>)
    requires Draining(g, young, extra, true) && g.decs == []
    ensures Survivors(g) <= g.bs.Keys && (forall o :: o in young ==> o in g.bs)
    ensures Held(g, young, extra, g.oldRoots, Survivors(g))
  {
    DrainingYoung(g, young, extra, true);
    hide Wf, InRefs, Kids, Live;
    forall o | o in Survivors(g)
      ensures g.hs[o].pinned ||
        extra[o] < Kids(g.bs, young)[o] + InRefs(g.bs, Survivors(g))[o] + multiset(g.oldRoots)[o]
    {
      assert Covered(g, o, Debit(g, young), extra, true);
    }
  }

  // ---------------------------------------------------------------- the collection as a whole

  /** The heap a collection starts from: announced objects have been written to, and the maps hold no new ones. */
  function Written(h: Rc, young: seq<Ref>, bs': Bodies, blocks': Blocks): Rc
    requires forall o :: o in young ==> o in h.hs && o in h.bs
  {
    Announce(h, young).(bs := bs', blocks := blocks')
  }

  /**
    A heap in order, in which distinct new objects are announced to the barrier; then their members
    change at will, and nothing else does.
   */
  ghost predicate YoungStart(h: Rc, young: seq<Ref>, bs': Bodies, blocks': Blocks, exact: bool) {
    && Idle(h, exact) && NewRemoved(h.blocks, blocks') && NoDup(young)
    && (forall o :: o in young ==> o in h.hs && o in h.bs && h.hs[o].isNew)
    && bs'.Keys == h.bs.Keys && (forall o :: o in bs' && o !in young ==> bs'[o] == h.bs[o])
    && Wf(Written(h, young, bs', blocks'))
  }

  /** What the barriers have promised to count down: what the new objects held then. */
  ghost function Promised(h: Rc, young: seq<Ref>): multiset<Ref>
    requires forall o :: o in young ==> o in h.bs
  {
    Kids(h.bs, young)
  }

  lemma WrittenIs(h: Rc, young: seq<Ref>, bs': Bodies, blocks': Blocks, exact: bool)
    requires YoungStart(h, young, bs', blocks', exact)
    ensures var g := Written(h, young, bs', blocks');
      && g.hs.Keys == h.hs.Keys && g.bs == bs' && g.blocks == blocks' && g.los == h.los && g.oldRoots == h.oldRoots
      && g.mods == h.mods + young && multiset(g.decs) == multiset(h.decs) + Promised(h, young)
      && forall o :: o in h.hs ==>
        g.hs[o].count == h.hs[o].count && g.hs[o].isNew == h.hs[o].isNew && g.hs[o].pinned == h.hs[o].pinned
  {
    hide Wf, Counts, MapsExact, NewExact, LinesAtLeast, NewRemoved, Debt, NoDup, Kids;
    forall o | o in young
      ensures !h.hs[o].logged
    {
      assert HeaderOk(h, o);
    }
    Announced(h, young);
    AnnouncedDecs(h, young);
  }

  /** What is old and buffered, and what contributes, are all old objects. */
  lemma OldRefs(h: Rc)
    requires Wf(h) && ModsOk(h)
    ensures Old(h.hs) <= h.bs.Keys
    ensures InRefs(h.bs, Old(h.hs)) == InRefs(h.bs, Contributing(h)) + Kids(h.bs, h.mods)
  {
    hide InRefs, Kids, Closed, InSpace;
    assert Old(h.hs) == Contributing(h) + RootSet(h.mods);
    InRefsSeq(h.bs, Contributing(h), h.mods);
  }

  /** Writing to the announced objects changes nothing that has been counted or buffered before. */
  lemma StartFrames(h: Rc, young: seq<Ref>, bs': Bodies)
    requires Wf(h) && ModsOk(h) && bs'.Keys == h.bs.Keys
    requires forall o :: o in young ==> o in h.bs && o in h.hs && h.hs[o].isNew
    requires forall o :: o in bs' && o !in young ==> bs'[o] == h.bs[o]
    ensures Old(h.hs) <= bs'.Keys && (forall o :: o in h.mods ==> o in bs')
    ensures forall o :: o in h.mods + young ==> o in bs'
    ensures InRefs(bs', Old(h.hs)) == InRefs(h.bs, Contributing(h)) + Kids(bs', h.mods)
    ensures Kids(bs', h.mods + young) == Kids(bs', h.mods) + Kids(bs', young)
  {
    hide InRefs, Kids, Closed, InSpace;
    OldRefs(h);
    InRefsFrame(h.bs, bs', Old(h.hs));
    KidsFrame(h.bs, bs', h.mods);
    KidsConcat(bs', h.mods, young);
  }

  lemma StartSum(h: Rc, g: Rc, young: seq<Ref>, extra: multiset<Ref>)
    requires Wf(h) && Wf(g) && ModsOk(h) && g.bs.Keys == h.bs.Keys
    requires forall o :: o in young ==> o in h.bs && o in h.hs && h.hs[o].isNew
    requires forall o :: o in g.bs && o !in young ==> g.bs[o] == h.bs[o]
    requires Old(g.hs) == Old(h.hs) && g.mods == h.mods + young && g.oldRoots == []
    requires multiset(g.decs) == multiset(h.decs) + extra + multiset(h.oldRoots)
    ensures Sum(g, young) == Debt(h) + (extra + Kids(g.bs, g.mods))
  {
    StartFrames(h, young, g.bs);
    hide Wf, InRefs, Kids, Old, Contributing;
  }

  lemma StartBalanced(h: Rc, g: Rc, young: seq<Ref>, extra: multiset<Ref>, exact: bool)
    requires Wf(g) && Wf(h) && Counts(h.hs, multiset{}, Debt(h), exact) && (forall o :: o in young ==> o in g.bs)
    requires g.hs.Keys == h.hs.Keys && forall o :: o in h.hs ==> g.hs[o].count == h.hs[o].count
    requires Sum(g, young) == Debt(h) + (extra + Kids(g.bs, g.mods))
    ensures Balanced(g, young, multiset{}, extra, exact)
  {
    assert forall x :: x in g.mods ==> x in g.bs;
    hide Wf, InRefs, Kids, Debt, Sum;
    CountsMore(h.hs, multiset{}, Debt(h), extra + Kids(g.bs, g.mods), exact);
  }

  lemma StartSorted(h: Rc, g: Rc, young: seq<Ref>, exact: bool)
    requires Wf(g) && Wf(h) && HeadersOk(h) && Counts(h.hs, multiset{}, Debt(h), exact)
    requires g.hs.Keys == h.hs.Keys && g.oldRoots == [] && g.mods == h.mods + young
    requires forall o :: o in h.hs ==> g.hs[o].count == h.hs[o].count && g.hs[o].isNew == h.hs[o].isNew
    requires forall o :: o in g.bs && o !in young ==> o in h.bs && g.bs[o] == h.bs[o]
    ensures Sorted(g, multiset{})
  {
    assert g.hs.Keys == g.bs.Keys && h.hs.Keys == h.bs.Keys;
    assert NewUncounted(g.hs) by {
      hide Wf, Debt, Counts;
      assert forall o :: o in g.hs ==> o in h.hs && HeaderOk(h, o);
    }
    forall o, c | o in g.hs && !g.hs[o].isNew && o !in g.mods && c in Children(g.bs[o])
      ensures c in g.hs && !g.hs[c].isNew
    {
      hide Wf, Debt, Counts, Children;
      assert o !in h.mods && o !in young;
      WfChildren(g, o);
      ChildCounted(h, o, c, exact);
    }
  }

  /** A child of an object that contributes has been counted. */
  lemma ChildCounted(h: Rc, o: Ref, c: Ref, exact: bool)
    requires Wf(h) && HeadersOk(h) && Counts(h.hs, multiset{}, Debt(h), exact)
    requires o in h.hs && o in h.bs && !h.hs[o].isNew && o !in h.mods && c in Children(h.bs[o]) && c in h.hs
    ensures !h.hs[c].isNew
  {
    WfKeys(h);
    hide Wf, InRefs, Children;
    InRefsMember(h.bs, Contributing(h), c);
    assert o in Contributing(h);
    assert h.hs[c].count + multiset{}[c] >= Debt(h)[c] >= 1;
    assert HeaderOk(h, c);
  }

  lemma StartMapped(h: Rc, g: Rc, young: seq<Ref>)
    requires MapsExact(h) && NewExact(h) && NewRemoved(h.blocks, g.blocks) && g.los == h.los
    requires g.hs.Keys == h.hs.Keys && g.mods == h.mods + young
    requires forall o :: o in h.hs ==> g.hs[o].isNew == h.hs[o].isNew
    ensures Mapped(g, young)
  {
    hide IsGc, IsNewObject;
    assert forall o :: o in young ==> o in g.mods;
  }

  /** The state in which the roots are entered, against the heap before the barriers. */
  ghost predicate BegunFrom(h: Rc, g: Rc, young: seq<Ref>, extra: multiset<Ref>) {
    && g.hs.Keys == h.hs.Keys && g.bs.Keys == h.bs.Keys == h.hs.Keys && g.los == h.los
    && g.mods == h.mods + young && g.oldRoots == []
    && multiset(g.decs) == multiset(h.decs) + extra + multiset(h.oldRoots)
    && (forall o :: o in young ==> o in h.bs && o in h.hs && h.hs[o].isNew)
    && (forall o :: o in g.bs && o !in young ==> g.bs[o] == h.bs[o])
    && (forall o :: o in h.hs ==>
          g.hs[o].count == h.hs[o].count && g.hs[o].isNew == h.hs[o].isNew && g.hs[o].pinned == h.hs[o].pinned)
  }

  lemma OldRootsOwed(g: Rc)
    requires Wf(g)
    ensures var r := ProcessOldRoots(g);
      Wf(r) && r == g.(decs := r.decs, oldRoots := []) && multiset(r.decs) == multiset(g.decs) + multiset(g.oldRoots)
  {
    hide Wf;
  }

  lemma StartFields(h: Rc, young: seq<Ref>, bs': Bodies, blocks': Blocks, exact: bool)
    requires YoungStart(h, young, bs', blocks', exact)
    ensures Wf(Written(h, young, bs', blocks')) && h.bs.Keys == h.hs.Keys == bs'.Keys
    ensures forall o :: o in young ==> o in h.bs && o in h.hs && h.hs[o].isNew
    ensures forall o :: o in bs' && o !in young ==> bs'[o] == h.bs[o]
  {
    hide Closed, Counts, MapsExact, NewExact, LinesAtLeast, NewRemoved, Debt, NoDup, ModsOk, HeadersOk, Written;
  }

  lemma Begins(h: Rc, young: seq<Ref>, bs': Bodies, blocks': Blocks, exact: bool)
    requires YoungStart(h, young, bs', blocks', exact)
    ensures var g := ProcessOldRoots(Written(h, young, bs', blocks'));
      Wf(g) && g.bs == bs' && g.blocks == blocks' && BegunFrom(h, g, young, Promised(h, young))
  {
    StartFields(h, young, bs', blocks', exact);
    WrittenIs(h, young, bs', blocks', exact);
    OldRootsOwed(Written(h, young, bs', blocks'));
    hide *;
    BegunParts(h, Written(h, young, bs', blocks'), ProcessOldRoots(Written(h, young, bs', blocks')), young,
      Promised(h, young));
  }

  lemma BegunParts(h: Rc, g0: Rc, g: Rc, young: seq<Ref>, extra: multiset<Ref>)
    requires g == g0.(decs := g.decs, oldRoots := []) && multiset(g.decs) == multiset(g0.decs) + multiset(g0.oldRoots)
    requires g0.hs.Keys == h.hs.Keys && g0.bs.Keys == h.bs.Keys == h.hs.Keys
    requires g0.los == h.los && g0.oldRoots == h.oldRoots
    requires g0.mods == h.mods + young && multiset(g0.decs) == multiset(h.decs) + extra
    requires forall o :: o in young ==> o in h.bs && o in h.hs && h.hs[o].isNew
    requires forall o :: o in g0.bs && o !in young ==> g0.bs[o] == h.bs[o]
    requires forall o :: o in h.hs ==>
      g0.hs[o].count == h.hs[o].count && g0.hs[o].isNew == h.hs[o].isNew && g0.hs[o].pinned == h.hs[o].pinned
    ensures BegunFrom(h, g, young, extra)
  {
  }

  lemma StartCounts(h: Rc, young: seq<Ref>, bs': Bodies, blocks': Blocks, exact: bool)
    requires YoungStart(h, young, bs', blocks', exact)
    ensures Counting(ProcessOldRoots(Written(h, young, bs', blocks')), young, multiset{}, Promised(h, young), exact)
  {
    var g := ProcessOldRoots(Written(h, young, bs', blocks'));
    Begins(h, young, bs', blocks', exact);
    IdleParts(h, exact);
    hide *;
    StartParts(h, g, young, Promised(h, young), exact);
  }

  lemma StartParts(h: Rc, g: Rc, young: seq<Ref>, extra: multiset<Ref>, exact: bool)
    requires Wf(h) && Wf(g) && BegunFrom(h, g, young, extra) && NewRemoved(h.blocks, g.blocks)
    requires ModsOk(h) && HeadersOk(h) && MapsExact(h) && NewExact(h) && Counts(h.hs, multiset{}, Debt(h), exact)
    ensures Counting(g, young, multiset{}, extra, exact)
  {
    hide Wf, Counts, MapsExact, NewExact, NewRemoved, Debt, Sorted, Mapped, Balanced, ModsOk, HeadersOk, Sum, Kids;
    assert Old(g.hs) == Old(h.hs);
    StartSum(h, g, young, extra);
    StartBalanced(h, g, young, extra, exact);
    StartSorted(h, g, young, exact);
    StartMapped(h, g, young);
  }

  /** The second phase, against the heap the collection starts from: what is counted is closed and has the roots. */
  ghost predicate YoungState(g: Rc, r: Rc, young: seq<Ref>, roots: seq<Ref>, extra: multiset<Ref>, exact: bool) {
    && Draining(r, young, extra, exact) && Kept(g.(oldRoots := roots), r)
    && RootSet(roots) <= Old(r.hs) && Old(r.hs) <= r.bs.Keys && Closed(r.bs, Old(r.hs))
    && forall o :: o in g.los.newObjects ==> o in Old(r.hs)
  }

  lemma CountedClosed(m: Rc, young: seq<Ref>, extra: multiset<Ref>, exact: bool)
    requires Counting(m, young, multiset{}, extra, exact) && m.mods == []
    ensures RootSet(m.oldRoots) <= Old(m.hs) && Old(m.hs) <= m.bs.Keys && Closed(m.bs, Old(m.hs))
  {
    hide Balanced, Mapped, Children, InSpace;
    WfKeys(m);
    forall o, c | o in Old(m.hs) && c in Children(m.bs[o])
      ensures c in Old(m.hs)
    {
      WfChildren(m, o);
    }
  }

  lemma YoungMid(g: Rc, young: seq<Ref>, roots: seq<Ref>, extra: multiset<Ref>, exact: bool)
    requires Wf(g) && Counting(ProcessOldRoots(g), young, multiset{}, extra, exact)
    requires (forall o :: o in roots ==> o in g.bs) && (forall o :: o in g.los.newObjects ==> o in g.bs)
    ensures var m := ProcessMods(EnterRoots(g, roots), false);
      YoungState(g, m, young, roots, extra, exact) && Survivors(m) == Old(m.hs)
  {
    PhaseCounts(g, young, roots, extra, exact);
    var m := ProcessMods(EnterRoots(g, roots), false);
    hide Counting, Draining, Closed, Wf, ProcessMods, EnterRoots, Survivors;
    DrainingBegins(m, young, extra, exact);
    CountedClosed(m, young, extra, exact);
  }

  lemma YoungStep(g: Rc, m: Rc, r: Rc, young: seq<Ref>, roots: seq<Ref>, extra: multiset<Ref>, exact: bool)
    requires YoungState(g, m, young, roots, extra, exact) && Kept(m, r) && Old(r.hs) == Old(m.hs)
    requires Draining(r, young, extra, exact)
    ensures YoungState(g, r, young, roots, extra, exact)
  {
    hide Draining;
  }

  lemma StateKnown(g: Rc, r: Rc, young: seq<Ref>, roots: seq<Ref>, extra: multiset<Ref>, exact: bool)
    requires YoungState(g, r, young, roots, extra, exact)
    ensures r.oldRoots == roots && r.bs == g.bs && Wf(r) && (forall o :: o in young ==> o in r.bs)
    ensures forall o :: o in g.hs ==> o in r.hs && r.hs[o].pinned == g.hs[o].pinned
    ensures r.hs.Keys == g.hs.Keys
  {
    hide Wf, AllCovered, CountedSurvive;
  }

  lemma HeldSame(g: Rc, r: Rc, young: seq<Ref>, extra: multiset<Ref>, roots: seq<Ref>, s: set<Ref>)
    requires r.bs == g.bs && r.hs.Keys == g.hs.Keys && forall o :: o in g.hs ==> r.hs[o].pinned == g.hs[o].pinned
    requires s <= g.bs.Keys && forall o :: o in young ==> o in g.bs
    ensures Held(g, young, extra, roots, s) <==> Held(r, young, extra, roots, s)
  {
  }

  /** A held set among the counted objects survives. */
  lemma HeldSurvive(g: Rc, young: seq<Ref>, roots: seq<Ref>, extra: multiset<Ref>, exact: bool, s: set<Ref>)
    requires Wf(g) && Counting(ProcessOldRoots(g), young, multiset{}, extra, exact)
    requires (forall o :: o in roots ==> o in g.bs) && (forall o :: o in g.los.newObjects ==> o in g.bs)
    requires s <= g.bs.Keys && (forall o :: o in young ==> o in g.bs) && Held(g, young, extra, roots, s)
    ensures var r := CollectRc(g, roots, false);
      && YoungState(g, r, young, roots, extra, exact)
      && (s <= Old(r.hs) ==> s <= Survivors(r))
  {
    YoungMid(g, young, roots, extra, exact);
    CollectRcIs(g, roots, false);
    var m := ProcessMods(EnterRoots(g, roots), false);
    var r := ProcessDecs(m);
    hide *;
    StateKnown(g, m, young, roots, extra, exact);
    StateDrains(g, m, young, roots, extra, exact);
    HeldNone(m, young, extra, roots);
    DecsDrain(m, young, extra, exact, {});
    YoungStep(g, m, r, young, roots, extra, exact);
    if s <= Old(r.hs) {
      HeldSame(g, m, young, extra, roots, s);
      DecsDrain(m, young, extra, exact, s);
    }
  }

  lemma StateDrains(g: Rc, r: Rc, young: seq<Ref>, roots: seq<Ref>, extra: multiset<Ref>, exact: bool)
    requires YoungState(g, r, young, roots, extra, exact)
    ensures Draining(r, young, extra, exact)
  {
  }

  lemma HeldNone(g: Rc, young: seq<Ref>, extra: multiset<Ref>, roots: seq<Ref>)
    requires forall o :: o in young ==> o in g.bs
    ensures Held(g, young, extra, roots, {})
  {
  }
}
