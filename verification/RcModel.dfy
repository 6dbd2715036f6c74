/**
  The reference counting collection as a function on states: each function does what the loop of
  the same name in src/spaces/collector/rc_collector.rs does, one element per call.
 */
module RcModel {
  import opened Objects
  import opened BlockLines
  import opened BlockTables
  import opened Graph

  /** The large object space: its valid objects, the new ones among them, and those to be freed. */
  datatype Los = Los(objects: set<Ref>, newObjects: seq<Ref>, freeBuffer: seq<Ref>, mark: bool)

  /**
    Everything the collection reads and writes. `evacTried` records that an evacuation was asked
    for: the moving branch itself is not part of the state, because the flag never becomes true.
   */
  datatype Rc = Rc(
    hs: Headers,
    bs: Bodies,
    blocks: Blocks,
    los: Los,
    oldRoots: seq<Ref>,
    decs: seq<Ref>,
    mods: seq<Ref>,
    evacTried: bool)

  /** The memory holds whole, unmoved objects, no member dangles, and the buffers hold objects. */
  predicate Wf(g: Rc) {
    && g.hs.Keys == g.bs.Keys
    && (forall o :: o in g.bs ==> g.bs[o].Plain?)
    && Closed(g.bs, g.bs.Keys)
    && (forall o :: o in g.bs && o.Immix? ==> InSpace(g.blocks, o) && Fits(o.offset, g.bs[o].size))
    && (forall o :: o in g.oldRoots ==> o in g.bs)
    && (forall o :: o in g.decs ==> o in g.bs)
    && (forall o :: o in g.mods ==> o in g.bs)
  }

  ghost function NewObjects(hs: Headers): set<Ref> {
    set o | o in hs.Keys && hs[o].isNew
  }

  /** Counts one more reference to `o`; a new object enters the modified buffer. */
  function Increment(g: Rc, o: Ref, tryEvac: bool, evac: bool): Rc
    requires o in g.hs
  {
    var h := g.hs[o];
    if h.isNew then
      g.(hs := g.hs[o := h.(count := h.count + 1, isNew := false)],
         mods := g.mods + [o],
         evacTried := g.evacTried || (tryEvac && evac && IsGc(g.blocks, o)))
    else
      g.(hs := g.hs[o := h.(count := h.count + 1)])
  }

  function ProcessOldRoots(g: Rc): (r: Rc)
    requires Wf(g)
    ensures Wf(r) && r.bs == g.bs
  {
    g.(decs := g.decs + g.oldRoots, oldRoots := [])
  }

  function ProcessRoots(g: Rc, roots: seq<Ref>): (r: Rc)
    requires Wf(g) && forall o :: o in roots ==> o in g.bs
    ensures Wf(r) && r.bs == g.bs
    decreases |roots|
  {
    if roots == [] then g
    else
      var g1 := Increment(g, roots[0], false, false);
      ProcessRoots(g1.(oldRoots := g1.oldRoots + [roots[0]]), roots[1..])
  }

  function ProcessLosNew(g: Rc, objects: seq<Ref>): (r: Rc)
    requires Wf(g) && forall o :: o in objects ==> o in g.bs
    ensures Wf(r) && r.bs == g.bs
    decreases |objects|
  {
    if objects == [] then g
    else
      var g1 := Increment(g, objects[0], false, false);
      ProcessLosNew(g1.(decs := g1.decs + [objects[0]]), objects[1..])
  }

  function IncrementChildren(g: Rc, children: seq<Ref>, evac: bool): (r: Rc)
    requires Wf(g) && forall o :: o in children ==> o in g.bs
    ensures Wf(r) && r.bs == g.bs
    ensures |NewObjects(r.hs)| + |r.mods| == |NewObjects(g.hs)| + |g.mods|
    decreases |children|
  {
    if children == [] then g
    else
      IncrementMovesNew(g, children[0], true, evac);
      IncrementChildren(Increment(g, children[0], true, evac), children[1..], evac)
  }

  /** An increment moves at most one object from the new ones into the modified buffer. */
  lemma IncrementMovesNew(g: Rc, o: Ref, tryEvac: bool, evac: bool)
    requires o in g.hs
    ensures var r := Increment(g, o, tryEvac, evac);
            |NewObjects(r.hs)| + |r.mods| == |NewObjects(g.hs)| + |g.mods|
  {
    var r := Increment(g, o, tryEvac, evac);
    assert NewObjects(r.hs) == NewObjects(g.hs) - {o};
  }

  /** Takes the first object off the modified buffer and makes it a counted, valid object. */
  function PopMod(g: Rc): (r: Rc)
    requires Wf(g) && g.mods != []
    ensures Wf(r) && r.bs == g.bs
    ensures NewObjects(r.hs) == NewObjects(g.hs)
  {
    var o := g.mods[0];
    var blocks := if o.Immix? then IncLines(SetGc(g.blocks, o), o, g.bs[o].size) else g.blocks;
    g.(mods := g.mods[1..], hs := g.hs[o := g.hs[o].(logged := false)], blocks := blocks)
  }

  /**
    The loop pushes while it pops. It ends because each push turns a new object into an old one: new
    objects and buffered objects together become one fewer per round.
   */
  function ProcessMods(g: Rc, evac: bool): (r: Rc)
    requires Wf(g)
    ensures Wf(r) && r.bs == g.bs && r.mods == []
    decreases |NewObjects(g.hs)| + |g.mods|
  {
    if g.mods == [] then g
    else ProcessMods(IncrementChildren(PopMod(g), Children(g.bs[g.mods[0]]), evac), evac)
  }

  /** Takes the first decrement off the buffer; an object whose count drops to zero is reclaimed. */
  function PopDec(g: Rc): (r: Rc)
    requires Wf(g) && g.decs != []
    ensures Wf(r) && r.bs == g.bs
  {
    var o := g.decs[0];
    var h := g.hs[o];
    var g1 := g.(decs := g.decs[1..]);
    if h.count == 0 then g1
    else
      var g2 := g1.(hs := g.hs[o := h.(count := h.count - 1)]);
      if h.count == 1 && !h.pinned then
        var g3 := g2.(decs := g2.decs + Children(g.bs[o]));
        if IsGc(g.blocks, o) then
          g3.(blocks := UnsetGc(DecLines(g.blocks, o, g.bs[o].size), o))
        else if o in g.los.objects then
          g3.(los := g.los.(freeBuffer := g.los.freeBuffer + [o]))
        else g3
      else g2
  }

  /** The sum of all reference counts. */
  ghost function SumCounts(hs: Headers): nat
    decreases |hs.Keys|
  {
    if hs.Keys == {} then 0
    else
      var x :| x in hs.Keys;
      hs[x].count + SumCounts(hs - {x})
  }

  lemma {:induction false} SumSplit(hs: Headers, x: Ref)
    requires x in hs
    ensures SumCounts(hs) == hs[x].count + SumCounts(hs - {x})
    decreases |hs.Keys|
  {
    var y :| y in hs.Keys && SumCounts(hs) == hs[y].count + SumCounts(hs - {y});
    if y != x {
      assert (hs - {y}).Keys == hs.Keys - {y} && (hs - {x}).Keys == hs.Keys - {x};
      SumSplit(hs - {y}, x);
      SumSplit(hs - {x}, y);
      assert hs - {y} - {x} == hs - {x} - {y};
    }
  }

  lemma SumUpdate(hs: Headers, x: Ref, h: Header)
    requires x in hs
    ensures SumCounts(hs[x := h]) == SumCounts(hs) - hs[x].count + h.count
  {
    SumSplit(hs, x);
    SumSplit(hs[x := h], x);
    assert hs[x := h] - {x} == hs - {x};
  }

  /** A reclaimed object pushes its children, but every such push follows a count that went down. */
  lemma PopDecMeasure(g: Rc)
    requires Wf(g) && g.decs != []
    ensures var r := PopDec(g);
      SumCounts(r.hs) < SumCounts(g.hs) || (SumCounts(r.hs) == SumCounts(g.hs) && |r.decs| < |g.decs|)
  {
    var o := g.decs[0];
    if g.hs[o].count > 0 {
      SumUpdate(g.hs, o, g.hs[o].(count := g.hs[o].count - 1));
    }
  }

  function ProcessDecs(g: Rc): (r: Rc)
    requires Wf(g)
    ensures Wf(r) && r.bs == g.bs && r.decs == []
    decreases SumCounts(g.hs), |g.decs|
  {
    if g.decs == [] then g
    else
      PopDecMeasure(g);
      ProcessDecs(PopDec(g))
  }

  function TakeLosNew(g: Rc): (r: Rc)
    requires Wf(g)
    ensures Wf(r) && r.bs == g.bs
  {
    g.(los := g.los.(newObjects := []))
  }

  /** Old roots, current roots and new large objects: the steps before the buffers are drained. */
  function EnterRoots(g: Rc, roots: seq<Ref>): (r: Rc)
    requires Wf(g) && (forall o :: o in roots ==> o in g.bs) && (forall o :: o in g.los.newObjects ==> o in g.bs)
    ensures Wf(r) && r.bs == g.bs
  {
    ProcessLosNew(TakeLosNew(ProcessRoots(ProcessOldRoots(g), roots)), g.los.newObjects)
  }

  /** The whole collection, from the state in which the new objects have left the object maps. */
  function CollectRc(g: Rc, roots: seq<Ref>, evac: bool): (r: Rc)
    requires Wf(g) && (forall o :: o in roots ==> o in g.bs) && (forall o :: o in g.los.newObjects ==> o in g.bs)
    ensures Wf(r) && r.bs == g.bs && r.decs == []
  {
    ProcessDecs(ProcessMods(EnterRoots(g, roots), evac))
  }

  /** The write barrier: an unlogged object is logged, buffered, and its children are owed a decrement. */
  function WriteBarrier(g: Rc, o: Ref): (r: Rc)
    requires o in g.hs && o in g.bs
  {
    if g.hs[o].logged then g
    else
      g.(hs := g.hs[o := g.hs[o].(logged := true)],
         mods := g.mods + [o],
         decs := g.decs + Children(g.bs[o]))
  }
}
