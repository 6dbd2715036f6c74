/**
  A write barrier on an object that no collection has seen yet can lose an object. Two young objects
  hold references to a young child; one of them, the holder, is announced to the barrier and loses some
  of its references. The collection owes the child a decrement for every reference the holder had, but
  counts those it still has twice, as the holder is buffered twice. So the child is reclaimed, although
  it is still held, exactly if at least as many references have been removed as there are left.
 */
module YoungBarrier {
  import opened Constants
  import opened BlockInfos
  import opened Wrappers
  import opened Objects
  import opened BlockTables
  import opened Graph
  import opened RcModel
  import opened RcProofs
  import opened RcTheorems
  import opened YoungProofs
  import opened YoungTheorems

  const Holder := Large(0)
  const Child := Large(1)
  const Other := Large(2)

  /** Of `had` references of the holder `kept` are left, and the other object has `held`. */
  datatype Shape = Shape(had: nat, kept: nat, held: nat)

  function Refs(n: nat): seq<Slot> {
    seq(n, _ => Some(Child))
  }

  function Nulls(n: nat): seq<Slot> {
    seq(n, _ => None)
  }

  function Rep(n: nat): seq<Ref> {
    seq(n, _ => Child)
  }

  function Bodies3(members: seq<Slot>, held: nat): Bodies {
    map[Holder := Plain(8192, members), Other := Plain(8192, Refs(held)), Child := Plain(8192, [])]
  }

  /** Three large objects, as they are after their allocation and initialisation. */
  function Young(sh: Shape, mark: bool): Rc {
    Rc(map[Holder := NewHeader(mark), Other := NewHeader(mark), Child := NewHeader(mark)],
      Bodies3(Refs(sh.had), sh.held),
      map[], Los({Holder, Other, Child}, [Holder, Child, Other], [], mark), [], [], [], false)
  }

  /** The holder's members when some references have been overwritten. */
  function Left(sh: Shape): seq<Slot>
    requires sh.kept <= sh.had
  {
    Refs(sh.kept) + Nulls(sh.had - sh.kept)
  }

  /** After the barrier and the writes; the two holders have been found on the stack and pinned. */
  function Announced(sh: Shape, mark: bool): Rc
    requires sh.kept <= sh.had
  {
    var g := WriteBarrier(Young(sh, mark), Holder);
    g.(hs := g.hs[Holder := g.hs[Holder].(pinned := true)][Other := g.hs[Other].(pinned := true)],
       bs := Bodies3(Left(sh), sh.held))
  }

  // ---------------------------------------------------------------- members and children

  lemma {:induction false} RefsAre(n: nat)
    ensures NonNull(Refs(n)) == Rep(n)
    decreases n
  {
    if n > 0 {
      RefsAre(n - 1);
      assert Refs(n)[1..] == Refs(n - 1) && Rep(n) == [Child] + Rep(n - 1);
    }
  }

  lemma {:induction false} NullsAre(n: nat)
    ensures NonNull(Nulls(n)) == []
    decreases n
  {
    if n > 0 {
      NullsAre(n - 1);
      assert Nulls(n)[1..] == Nulls(n - 1);
    }
  }

  lemma KidsAre(sh: Shape)
    requires sh.kept <= sh.had
    ensures NonNull(Refs(sh.had)) == Rep(sh.had) && NonNull(Left(sh)) == Rep(sh.kept)
    ensures NonNull(Refs(sh.held)) == Rep(sh.held)
    ensures NonNull([]) == []
  {
    RefsAre(sh.had);
    RefsAre(sh.kept);
    RefsAre(sh.held);
    NullsAre(sh.had - sh.kept);
    NonNullConcat(Refs(sh.kept), Nulls(sh.had - sh.kept));
  }

  // ---------------------------------------------------------------- the heap in order

  /** The two holders are found on the stack, and pinned. */
  function Found(sh: Shape, mark: bool): Rc {
    var g := Young(sh, mark);
    g.(hs := g.hs[Holder := g.hs[Holder].(pinned := true)][Other := g.hs[Other].(pinned := true)])
  }

  /** Pins are not part of the order. */
  ghost predicate IsYoung(g: Rc, sh: Shape, mark: bool) {
    g == Young(sh, mark) || g == Found(sh, mark)
  }

  lemma YoungIdle(g: Rc, sh: Shape, mark: bool)
    requires IsYoung(g, sh, mark)
    ensures Idle(g, true)
  {
    hide *;
    YoungWf(g, sh, mark);
    YoungMaps(g, sh, mark);
    YoungCounts(g, sh, mark);
    IdleFrom(g, true);
  }

  lemma YoungWf(g: Rc, sh: Shape, mark: bool)
    requires IsYoung(g, sh, mark)
    ensures Wf(g)
  {
    hide NonNull, Refs;
    RefsAre(sh.had);
    RefsAre(sh.held);
    assert forall o :: o in g.bs ==> o == Holder || o == Other || o == Child;
    assert NonNull([]) == [] by { KidsAre(Shape(0, 0, 0)); }
  }

  lemma YoungMaps(g: Rc, sh: Shape, mark: bool)
    requires IsYoung(g, sh, mark) && Wf(g)
    ensures ModsOk(g) && HeadersOk(g) && ModsLogged(g) && MapsExact(g) && NewExact(g) && !g.evacTried
    ensures LinesAtLeast(g.blocks, g.bs, OldSet(g))
  {
    hide *;
    YoungHeaders(g, sh, mark);
    YoungLarge(g, sh, mark);
  }

  lemma YoungHeaders(g: Rc, sh: Shape, mark: bool)
    requires IsYoung(g, sh, mark) && Wf(g)
    ensures ModsOk(g) && HeadersOk(g) && ModsLogged(g) && !g.evacTried
    ensures LinesAtLeast(g.blocks, g.bs, OldSet(g))
  {
    hide Wf, Refs;
  }

  lemma YoungLarge(g: Rc, sh: Shape, mark: bool)
    requires IsYoung(g, sh, mark) && Wf(g)
    ensures MapsExact(g) && NewExact(g)
  {
    hide Wf, Refs;
    assert forall o :: o in g.hs ==> o == Holder || o == Other || o == Child;
  }

  lemma YoungCounts(g: Rc, sh: Shape, mark: bool)
    requires IsYoung(g, sh, mark) && Wf(g)
    ensures Counts(g.hs, multiset{}, Debt(g), true)
  {
    hide InRefs, NonNull, Wf, Refs;
    assert Contributing(g) == {};
    InRefsNone(g.bs);
  }

  // ---------------------------------------------------------------- the instance

  /** The announced heap is one that the general conditions are about. */
  lemma StartsYoung(sh: Shape, mark: bool)
    requires sh.kept <= sh.had
    ensures Holder in Found(sh, mark).hs && Holder in Found(sh, mark).bs
    ensures Written(Found(sh, mark), [Holder], Bodies3(Left(sh), sh.held), map[]) == Announced(sh, mark)
    ensures YoungStart(Found(sh, mark), [Holder], Bodies3(Left(sh), sh.held), map[], true)
  {
    hide Idle, NonNull, Refs, Left, Wf;
    var h, bs' := Found(sh, mark), Bodies3(Left(sh), sh.held);
    YoungIdle(h, sh, mark);
    AnnouncedIs(sh, mark);
    LeftWf(sh, mark);
  }

  lemma AnnouncedIs(sh: Shape, mark: bool)
    requires sh.kept <= sh.had
    ensures Holder in Found(sh, mark).hs && Holder in Found(sh, mark).bs
    ensures Written(Found(sh, mark), [Holder], Bodies3(Left(sh), sh.held), map[]) == Announced(sh, mark)
  {
    hide NonNull, Refs, Left;
    var h := Found(sh, mark);
    var g := WriteBarrier(h, Holder);
    assert [Holder][1..] == [];
    assert Announce(h, [Holder]) == Announce(g, [Holder][1..]) == g;
    assert g.hs == Announced(sh, mark).hs;
  }

  lemma Bodies3Is(members: seq<Slot>, held: nat)
    ensures var bs := Bodies3(members, held);
      && bs.Keys == {Holder, Other, Child}
      && bs[Holder] == Plain(8192, members) && bs[Other] == Plain(8192, Refs(held)) && bs[Child] == Plain(8192, [])
  {
    hide Refs;
  }

  /** What the three objects hold after the writes. */
  lemma LeftKids(sh: Shape)
    requires sh.kept <= sh.had
    ensures var bs' := Bodies3(Left(sh), sh.held);
      && bs'.Keys == {Holder, Other, Child} && (forall o :: o in bs' ==> bs'[o].Plain?)
      && Children(bs'[Holder]) == Rep(sh.kept) && Children(bs'[Other]) == Rep(sh.held) && Children(bs'[Child]) == []
  {
    KidsAre(sh);
    Bodies3Is(Left(sh), sh.held);
    hide NonNull, Refs, Left, Rep, Bodies3;
    assert forall o :: o in Bodies3(Left(sh), sh.held) ==> o == Holder || o == Other || o == Child;
  }

  lemma OnlyChild(n: nat)
    ensures forall o :: o in Rep(n) ==> o == Child
  {
  }

  lemma YoungKids(sh: Shape, mark: bool)
    requires sh.kept <= sh.had
    ensures Holder in Young(sh, mark).bs && Children(Young(sh, mark).bs[Holder]) == Rep(sh.had)
    ensures Found(sh, mark).bs == Young(sh, mark).bs
  {
    KidsAre(sh);
    hide NonNull, Refs, Left, Rep;
  }

  lemma AnnouncedFields(sh: Shape, mark: bool)
    requires sh.kept <= sh.had
    ensures var g := Announced(sh, mark);
      && g.bs == Bodies3(Left(sh), sh.held) && g.hs.Keys == {Holder, Other, Child}
      && g.oldRoots == [] && g.mods == [Holder] && g.decs == Rep(sh.had)
  {
    YoungKids(sh, mark);
    hide Children, Left, Rep, Bodies3;
    assert [] + Rep(sh.had) == Rep(sh.had);
  }

  lemma LeftWf(sh: Shape, mark: bool)
    requires sh.kept <= sh.had
    ensures Wf(Announced(sh, mark))
  {
    LeftKids(sh);
    AnnouncedFields(sh, mark);
    OnlyChild(sh.had);
    OnlyChild(sh.kept);
    OnlyChild(sh.held);
    hide Children, Bodies3, Announced, Rep;
  }

  lemma {:induction false} RepCount(n: nat)
    ensures multiset(Rep(n))[Child] == n
    decreases n
  {
    if n > 0 {
      RepCount(n - 1);
      assert Rep(n) == [Child] + Rep(n - 1);
    }
  }

  lemma ThreeRefs(bs: Bodies)
    requires bs.Keys == {Holder, Other, Child}
    ensures InRefs(bs, bs.Keys)
            == multiset(Children(bs[Holder])) + multiset(Children(bs[Other])) + multiset(Children(bs[Child]))
  {
    hide InRefs, Children;
    InRefsNone(bs);
    InRefsAdd(bs, {}, Holder);
    InRefsAdd(bs, {Holder}, Other);
    InRefsAdd(bs, {Holder, Other}, Child);
    assert {} + {Holder} == {Holder} && {Holder} + {Other} == {Holder, Other};
    assert {Holder, Other} + {Child} == bs.Keys;
  }

  lemma KidsOne(bs: Bodies, o: Ref)
    requires o in bs
    ensures Kids(bs, [o]) == multiset(Children(bs[o]))
  {
    hide Children;
    assert [o][1..] == [];
    assert Kids(bs, [o]) == multiset(Children(bs[o])) + Kids(bs, []);
  }

  /** All references to the child. */
  lemma ChildRefs(sh: Shape, mark: bool)
    requires sh.kept <= sh.had
    ensures var h, bs' := Found(sh, mark), Bodies3(Left(sh), sh.held);
      && Holder in h.bs && Holder in bs'
      && Promised(h, [Holder])[Child] == sh.had && Kids(bs', [Holder])[Child] == sh.kept
      && InRefs(bs', bs'.Keys)[Child] == sh.kept + sh.held
      && multiset([Holder, Other])[Child] == 0
  {
    LeftKids(sh);
    YoungKids(sh, mark);
    RepCount(sh.had);
    RepCount(sh.kept);
    RepCount(sh.held);
    hide Children, Bodies3, Found, InRefs, Rep, Kids;
    var h, bs' := Found(sh, mark), Bodies3(Left(sh), sh.held);
    KidsOne(h.bs, Holder);
    KidsOne(bs', Holder);
    ThreeRefs(bs');
  }

  lemma StillReached(sh: Shape, mark: bool)
    requires sh.kept <= sh.had && sh.kept + sh.held > 0
    ensures Reachable(Announced(sh, mark).bs, RootSet([Holder, Other])) == {Holder, Other, Child}
  {
    hide Reachable, NonNull;
    KidsAre(sh);
    var bs, roots := Announced(sh, mark).bs, RootSet([Holder, Other]);
    var o, n := if sh.kept > 0 then Holder else Other, if sh.kept > 0 then sh.kept else sh.held;
    ReachableRoot(bs, roots, Holder);
    ReachableRoot(bs, roots, Other);
    assert Children(bs[o]) == Rep(n) && Rep(n)[0] == Child;
    assert Edge(bs, o, Child);
    ReachableEdge(bs, roots, o, Child);
    ReachableKnown(bs, roots);
  }

  lemma ReachableKnown(bs: Bodies, roots: set<Ref>)
    ensures Reachable(bs, roots) <= bs.Keys
  {
  }

  /**
    The heap is in order before, and the child is reachable from the roots as long as there is a
    reference to it. The collection loses it if and only if the references that the holder has lost
    since the barrier are as many as all that are left, or more.
   */
  lemma BarrierOnNewLosesExactly(sh: Shape, mark: bool)
    requires sh.kept <= sh.had
    ensures Idle(Young(sh, mark), true)
    ensures var g := Announced(sh, mark);
      && Wf(g) && Holder in g.bs && Other in g.bs && (forall o :: o in g.los.newObjects ==> o in g.bs)
      && (sh.kept + sh.held > 0 ==> Child in Reachable(g.bs, RootSet([Holder, Other])))
      && (Child !in FinishRc(CollectRc(g, [Holder, Other], false)).bs <==> sh.had - sh.kept >= sh.kept + sh.held)
  {
    hide *;
    var h, bs', roots := Found(sh, mark), Bodies3(Left(sh), sh.held), [Holder, Other];
    YoungIs(sh, mark);
    YoungIdle(Young(sh, mark), sh, mark);
    StartsYoung(sh, mark);
    ReachedCounted(h, [Holder], bs', map[], roots, true);
    AfterYoungIs(h, [Holder], bs', map[], roots);
    ChildRefs(sh, mark);
    OverdrawnIs(sh, mark);
    if sh.kept + sh.held > 0 {
      StillReached(sh, mark);
    }
    if sh.had - sh.kept >= sh.kept + sh.held {
      BarriersOnNewLose(h, [Holder], bs', map[], roots, Child);
    } else {
      NoneOverdrawn(h, [Holder], bs', map[], roots, true);
    }
  }

  /** The shapes of the heap before and after. */
  lemma YoungIs(sh: Shape, mark: bool)
    requires sh.kept <= sh.had
    ensures IsYoung(Young(sh, mark), sh, mark)
    ensures var bs' := Bodies3(Left(sh), sh.held);
      && bs'.Keys == {Holder, Other, Child} && Announced(sh, mark).bs == bs'
      && (forall o :: o in [Holder, Other] ==> o in bs')
      && Child in Found(sh, mark).los.newObjects
  {
    hide Refs, Left;
  }

  /** The holders are pinned, and the child is overdrawn exactly if too many references were dropped. */
  lemma OverdrawnIs(sh: Shape, mark: bool)
    requires sh.kept <= sh.had
    ensures var h, bs' := Found(sh, mark), Bodies3(Left(sh), sh.held);
      forall o :: o in bs' ==>
        (Overdrawn(h, [Holder], bs', [Holder, Other], o) <==> o == Child && sh.had - sh.kept >= sh.kept + sh.held)
  {
    ChildRefs(sh, mark);
    hide Refs, Left, Promised, Kids, InRefs;
  }

  /** For example: one of two references is overwritten, and the child is lost while the other is still there. */
  lemma BarrierOnNewLosesChild(mark: bool)
    ensures var g := Announced(Shape(2, 1, 0), mark);
      && Idle(Young(Shape(2, 1, 0), mark), true) && Wf(g) && (forall o :: o in g.los.newObjects ==> o in g.bs)
      && Holder in g.bs && Other in g.bs
      && Child in Reachable(g.bs, RootSet([Holder, Other]))
      && Child !in FinishRc(CollectRc(g, [Holder, Other], false)).bs
  {
    hide *;
    BarrierOnNewLosesExactly(Shape(2, 1, 0), mark);
  }

  // ---------------------------------------------------------------- a leak

  const Lone := Immix(0, LINE_SIZE)

  function LoneBlock(young: set<nat>): Blocks {
    map[0 := EmptyBlock().(inUse := true, objectMap := young, newObjects := young)]
  }

  /** One new object of the immix space. */
  function Alone(mark: bool): Rc {
    Rc(map[Lone := NewHeader(mark)], map[Lone := Plain(16, [])], LoneBlock({LINE_SIZE}), Los({}, [], [], mark),
      [], [], [], false)
  }

  lemma AloneIdle(mark: bool)
    ensures Idle(Alone(mark), true) && Wf(Alone(mark))
  {
    var g := Alone(mark);
    assert Children(g.bs[Lone]) == [];
    assert OldSet(g) == {} && Contributing(g) == {};
    hide InRefs;
    InRefsNone(g.bs);
  }

  lemma AloneStarts(mark: bool)
    ensures Lone.Immix? && Lone in Alone(mark).hs && Lone in Alone(mark).bs
    ensures YoungStart(Alone(mark), [Lone], Alone(mark).bs, LoneBlock({}), true)
    ensures Unreferred(Alone(mark).bs, Lone)
  {
    AloneIdle(mark);
    hide Idle;
    var g := Alone(mark);
    assert [Lone][1..] == [];
    assert Announce(g, [Lone]) == Announce(WriteBarrier(g, Lone), [Lone][1..]) == WriteBarrier(g, Lone);
  }

  /** A new object is announced and dropped, and a collection without roots leaves it in the memory. */
  lemma BarrierOnNewLeaksObject(mark: bool)
    ensures Idle(Alone(mark), true)
    ensures Ready(Alone(mark), [Lone], Alone(mark).bs, LoneBlock({}), [])
    ensures var f := FinishRc(AfterYoung(Alone(mark), [Lone], Alone(mark).bs, LoneBlock({}), []));
      Lone in f.bs && IsGc(f.blocks, Lone) && Lone in f.hs && f.hs[Lone].isNew && f.hs[Lone].count == 0
  {
    hide *;
    AloneIdle(mark);
    AloneStarts(mark);
    BarriersOnNewLeak(Alone(mark), [Lone], Alone(mark).bs, LoneBlock({}), [], true, Lone);
  }
}
