/** The state a reference counting collection leaves is one a trace can start from. */
module TraceReady {
  import opened Wrappers
  import opened Objects
  import opened BlockLines
  import opened Graph
  import opened RcModel
  import opened RcTheorems
  import opened AllocatorModel
  import opened AllocatorProofs
  import opened TraceModel
  import opened TraceProofs
  import opened TraceTheorems
  import opened SweepModel
  import opened SpacesModel
  import opened SpacesProofs
  import opened CollectProofs

  /** Where the trace starts after `f`, with the records of the gathered blocks cleared. */
  ghost function StartAfter(w: World, f: Rc, found: seq<Ref>, evac: bool): Start {
    Start(f.hs, f.bs, OnBlocks(f.blocks, w.all + GetAllBlocks(w.sp), ClearRecord), Drained(w.sp).evac, found, !w.mark,
      evac)
  }

  /** No block is cleared too few: those that are not gathered hold nothing. */
  lemma AllCleared(w: World, f: Rc, found: seq<Ref>, evac: bool, exact: bool)
    requires Inv(w, exact) && Settled(w, f, found, w.mark, exact)
    ensures Cleared(StartAfter(w, f, found, evac).blocks)
  {
    hide Idle, Inv, Collected, GetAllBlocks, BytesDisjoint, SpaceInv;
    var all := w.all + GetAllBlocks(w.sp);
    forall b | b in f.blocks && b !in all
      ensures f.blocks[b].objectMap == {} && f.blocks[b].lines == ZeroLines()
    {
      NotGathered(w, exact, b);
      FreeIsEmpty(f.blocks, f.bs, b);
    }
  }

  lemma NotGathered(w: World, exact: bool, b: nat)
    requires Inv(w, exact) && b in w.sp.blocks && b !in w.all + GetAllBlocks(w.sp)
    ensures b in w.sp.ba.free || b in w.sp.evac.headroom
  {
    hide Idle, HeapOk, ListsOk, OptCursorOk, GetAllBlocks;
    GatherKeepsStock(w.sp, w.all);
    assert b in Stock(w.sp, w.all);
    assert b in multiset(w.sp.ba.free) + multiset(w.sp.evac.headroom) + multiset(w.all + GetAllBlocks(w.sp));
  }

  /** The headroom consists of different blocks without objects. */
  lemma HeadroomFresh(w: World, f: Rc, found: seq<Ref>, evac: bool, exact: bool)
    requires Inv(w, exact) && Settled(w, f, found, w.mark, exact)
    ensures var s := StartAfter(w, f, found, evac); EvacFresh(s.evac, s.blocks, s.bs.Keys)
  {
    hide Idle, Collected, GetAllBlocks, BytesDisjoint, HeapOk, OptCursorOk, Stock, ClearRecord;
    var s := StartAfter(w, f, found, evac);
    AllCleared(w, f, found, evac, exact);
    forall b | b in s.evac.headroom
      ensures b in s.blocks
      ensures forall k :: k in s.bs.Keys && k.Immix? ==> k.block != b
    {
      assert FreeOk(f.blocks, f.bs, b);
      forall k | k in s.bs.Keys && k.Immix?
        ensures k.block != b
      {
        assert !Here(f.bs, k, b);
      }
    }
    HeadroomDistinct(w.sp, w.all);
  }

  lemma HeadroomDistinct(sp: Space, all: seq<nat>)
    requires Conserved(sp, all)
    ensures forall i, j :: 0 <= i < j < |sp.evac.headroom| ==> sp.evac.headroom[i] != sp.evac.headroom[j]
  {
    var h := sp.evac.headroom;
    forall i, j | 0 <= i < j < |h|
      ensures h[i] != h[j]
    {
      assert h == h[..j] + [h[j]] + h[j + 1..];
      assert multiset(h) == multiset(h[..j]) + multiset{h[j]} + multiset(h[j + 1..]);
      assert h[i] in h[..j];
      assert multiset(h)[h[j]] <= Stock(sp, all)[h[j]] <= 1;
    }
  }

  lemma StartIsOk(w: World, f: Rc, found: seq<Ref>, evac: bool, exact: bool)
    requires Inv(w, exact) && Settled(w, f, found, w.mark, exact)
    requires forall o :: o in found ==> o in f.hs && f.hs[o].pinned
    ensures var s := StartAfter(w, f, found, evac);
      StartOk(s) && Cleared(s.blocks) && Scope(s) == LiveSet(f, found) && s.evac == Drained(w.sp).evac
  {
    hide Inv, Collected, GetAllBlocks, BytesDisjoint, FreeOk, EvacFresh, Reachable, FirstLinesFree, UnusedEmpty,
      Fits, Cleared, NoCandidates;
    var s := StartAfter(w, f, found, evac);
    AllCleared(w, f, found, evac, exact);
    HeadroomFresh(w, f, found, evac, exact);
    ClearedHasNoCandidates(s);
    LiveFacts(f, found, exact);
    forall a | a in Scope(s)
      ensures ObjectReady(s, a)
    {
      forall c | Some(c) in s.bs[a].members
        ensures c in Scope(s)
      {
        NonNullMember(s.bs[a].members, c);
      }
    }
  }
}
