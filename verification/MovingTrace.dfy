/** A heap from which a trace does move an object: the theorems about moving are not about nothing. */
module MovingTrace {
  import opened Wrappers
  import opened Objects
  import opened BlockLines
  import opened BlockInfos
  import opened Graph
  import opened AllocatorModel
  import opened TraceModel
  import opened TraceProofs

  const Root := Large(0)
  const Child := Immix(32768, 256)

  /** A pinned root holds an object of a candidate block, and the headroom has a block. */
  function Example(): Start {
    Start(
      map[Root := Header(1, false, false, true, false), Child := Header(1, false, false, false, false)],
      map[Root := Plain(8192, [Some(Child)]), Child := Plain(64, [])],
      map[32768 := Block(ZeroLines(), {256}, {}, true, 64, true), 65536 := EmptyBlock()],
      Evac([], [65536], None), [Root], true, true)
  }

  lemma ChildReached()
    ensures Scope(Example()) == {Root, Child}
  {
    hide Reachable;
    var bs, roots := Example().bs, RootSet(Example().roots);
    var ms: seq<Slot> := [Some(Child)];
    assert ms[1..] == [] && NonNull(ms) == [Child];
    assert bs[Root] == Plain(8192, ms) && bs[Child] == Plain(64, []);
    ReachableRoot(bs, roots, Root);
    assert Edge(bs, Root, Child);
    ReachableEdge(bs, roots, Root, Child);
    ReachableLeast(bs, roots, {Root, Child});
  }

  /** The trace may start, the child is a candidate, and the step for it moves it to the headroom. */
  lemma MovesChild()
    ensures StartOk(Example()) && Candidate(Example(), Child) && Child in Scope(Example())
    ensures var t := Begin(Example());
      EvacKnown(t.evac, t.blocks) && MaybeEvacuate(t, Child).1 == Some(Immix(65536, 256))
  {
    ChildReached();
    hide Scope;
    var s := Example();
    forall a | a in Scope(s)
      ensures ObjectReady(s, a)
    {
    }
    assert EvacFresh(s.evac, s.blocks, s.bs.Keys);
  }
}
