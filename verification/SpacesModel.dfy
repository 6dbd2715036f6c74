/**
  The whole collector as a state machine: what the mutator may do, what a collection does
  (src/spaces/mod.rs, src/spaces/collector/mod.rs, src/spaces/large_object_space.rs), and runs of both.
 */
module SpacesModel {
  import opened Constants
  import opened Wrappers
  import opened Objects
  import opened BlockTables
  import opened Graph
  import opened RcModel
  import opened RcTheorems
  import opened AllocatorModel
  import opened TraceTheorems
  import opened SweepModel

  /**
    The memory, the spaces, the collector's buffers and blocks, the live mark, and, for the mutator,
    the objects it holds and those whose members it has not initialised yet.
   */
  datatype World = World(
    hs: Headers,
    bs: Bodies,
    sp: Space,
    los: Los,
    oldRoots: seq<Ref>,
    decs: seq<Ref>,
    mods: seq<Ref>,
    all: seq<nat>,
    mark: bool,
    roots: set<Ref>,
    raw: set<Ref>)

  datatype Event =
    | Alloc(size: nat, junk: seq<Slot>, address: Ref)
    | Initialise(object: Ref, members: seq<Slot>)
    | Barrier(object: Ref)
    | Write(object: Ref, index: nat, value: Slot)
    | SetRoots(refs: set<Ref>)
    | Collect(found: seq<Ref>, evac: bool, immix: bool, threshold: Option<nat>)

  /** An empty heap whose first block is to be built behind `data`, over a memory map that ends at `bound`. */
  function Empty(data: nat, bound: nat): World {
    World(map[], map[], Space(map[], BlockAlloc(data, bound, []), Normal([], [], None), Overflow([], None),
      Evac([], [], None), false),
      Los({}, [], [], false), [], [], [], [], false, {}, {})
  }

  // ---------------------------------------------------------------- what the mutator sees

  function NullSlots(n: nat): seq<Slot> {
    seq(n, _ => None)
  }

  /** Uninitialised members hold whatever the memory held; nobody may follow them. */
  function Masked(bs: Bodies, raw: set<Ref>): (r: Bodies)
    ensures r.Keys == bs.Keys
  {
    map o | o in bs :: if o in raw && bs[o].Plain? then bs[o].(members := NullSlots(|bs[o].members|)) else bs[o]
  }

  /** The part of the state the collectors work on. */
  function GraphOf(w: World): Rc {
    Rc(w.hs, Masked(w.bs, w.raw), w.sp.blocks, w.los, w.oldRoots, w.decs, w.mods, false)
  }

  /** The address is that of a valid object of one of the spaces. */
  predicate ValidObject(w: World, o: Ref) {
    IsGc(w.sp.blocks, o) || o in w.los.objects
  }

  /** The addresses of the stack that are valid objects, in order. */
  function FoundOn(w: World, stack: seq<Ref>): (r: seq<Ref>)
    ensures forall o :: o in r <==> o in stack && ValidObject(w, o)
    decreases |stack|
  {
    if stack == [] then []
    else
      var n := |stack| - 1;
      assert stack == stack[..n] + [stack[n]];
      FoundOn(w, stack[..n]) + if ValidObject(w, stack[n]) then [stack[n]] else []
  }

  /** What the mutator can reach. */
  ghost function Reach(w: World): set<Ref> {
    Reachable(Masked(w.bs, w.raw), w.roots)
  }

  ghost predicate MayStore(w: World, v: Slot) {
    v.Some? ==> v.value in Reach(w)
  }

  /**
    The mutator's side of the bargain. It touches only what it reaches, initialises all members of a
    fresh object before the next collection, calls the write barrier on an object that a collection
    has seen before changing it, and never calls it on a fresh one. A collection finds at least the
    mutator's roots, and otherwise any valid objects, in any order and number.
   */
  ghost predicate Contract(w: World, e: Event) {
    match e
    case Alloc(size, junk, address) =>
      && 0 < size && size % 8 == 0
      && (size >= LARGE_OBJECT ==> address.Large? && address !in w.hs)
    case Initialise(o, ms) =>
      && o in w.raw && o in w.bs && w.bs[o].Plain? && |ms| == |w.bs[o].members|
      && forall i :: 0 <= i < |ms| ==> MayStore(w, ms[i])
    case Barrier(o) =>
      o in Reach(w) && o in w.hs && !w.hs[o].isNew
    case Write(o, i, v) =>
      && o in Reach(w) && o !in w.raw && o in w.bs && w.bs[o].Plain? && i < |w.bs[o].members|
      && o in w.hs && (w.hs[o].isNew || w.hs[o].logged)
      && MayStore(w, v)
    case SetRoots(rs) =>
      rs <= Reach(w)
    case Collect(found, _, _, threshold) =>
      && w.raw == {} && w.roots <= RootSet(found)
      && (threshold.Some? ==> 0 < threshold.value)
      && forall o :: o in found ==> IsGc(w.sp.blocks, o) || o in w.los.objects
  }

  // ---------------------------------------------------------------- allocation

  /** Objects of at least `LARGE_OBJECT` bytes go to the large object space. */
  function AllocStep(w: World, size: nat, junk: seq<Slot>, address: Ref): (r: (World, Option<Ref>))
    requires Known(w.sp)
  {
    if size < LARGE_OBJECT then
      var (sp, o) := SpaceAllocate(w.sp, size);
      match o
      case None => (w.(sp := sp), None)
      case Some(o) =>
        if o.Immix? && o.block in sp.blocks then
          (w.(hs := w.hs[o := NewHeader(w.sp.mark)], bs := w.bs[o := Plain(size, junk)],
              sp := sp.(blocks := EnterObject(sp.blocks, o)), roots := w.roots + {o}, raw := w.raw + {o}), Some(o))
        else assert false; (w, None)
    else
      (w.(hs := w.hs[address := NewHeader(w.los.mark)], bs := w.bs[address := Plain(size, junk)],
          los := w.los.(objects := w.los.objects + {address}, newObjects := w.los.newObjects + [address]),
          roots := w.roots + {address}, raw := w.raw + {address}), Some(address))
  }

  // ---------------------------------------------------------------- collection

  function SetPins(hs: Headers, objects: seq<Ref>, value: bool): (r: Headers)
    ensures r.Keys == hs.Keys
  {
    map o | o in hs :: if o in objects then hs[o].(pinned := value) else hs[o]
  }

  /** The state in which the reference counting collection starts: pinned roots, no new object valid. */
  function RcStart(w: World, found: seq<Ref>, threshold: Option<nat>): Rc {
    var all := w.all + GetAllBlocks(w.sp);
    var blocks1 :=
      if threshold.Some? then OnBlocks(w.sp.blocks, all, b => MarkCandidate(b, threshold.value)) else w.sp.blocks;
    GraphOf(w).(hs := SetPins(w.hs, found, true), blocks := OnBlocks(blocks1, all, RemoveNew))
  }

  predicate RcReady(w: World, found: seq<Ref>, threshold: Option<nat>) {
    var g := RcStart(w, found, threshold);
    Wf(g) && (forall o :: o in found ==> o in g.bs) && (forall o :: o in g.los.newObjects ==> o in g.bs)
  }

  /** Marked large objects stay. */
  function SweepLos(los: Los, hs: Headers): Los {
    los.(objects := set o | o in los.objects && o in hs && hs[o].marked == !los.mark)
  }

  /**
    The tracing part, from the state the reference counting collection leaves: the records are
    cleared and rebuilt for what the roots reach, and what they do not reach is no object any more.
   */
  ghost function TracePart(f: Rc, all: seq<nat>, found: seq<Ref>, next: bool): Rc {
    var live := Reachable(f.bs, RootSet(found));
    var hs := MarkAll(f.hs, live, next);
    f.(hs := Forget(hs, live), bs := Forget(f.bs, live), los := SweepLos(f.los, hs),
       blocks := TracedBlocks(OnBlocks(f.blocks, all, ClearRecord), f.bs, live))
  }

  predicate SweepReady(sp: Space, blocks: Blocks, all: seq<nat>) {
    |sp.evac.headroom| <= EVAC_HEADROOM && forall b :: b in all ==> b in blocks
  }

  /** After the collectors: the blocks are swept, the roots unpinned, and after a trace the live mark flips. */
  ghost function Complete(w: World, g: Rc, all: seq<nat>, found: seq<Ref>, immix: bool): World
    requires SweepReady(w.sp, g.blocks, all)
  {
    var (sp, all') := Sweep(Drained(w.sp).(blocks := g.blocks), all);
    var mark := if immix then !w.mark else w.mark;
    w.(hs := SetPins(g.hs, found, false), bs := g.bs, sp := sp.(mark := if immix then mark else sp.mark),
       los := if immix then g.los.(mark := mark) else g.los,
       oldRoots := g.oldRoots, decs := g.decs, mods := g.mods, all := all', mark := mark)
  }

  ghost function AfterRc(w: World, found: seq<Ref>, evac: bool, threshold: Option<nat>): Rc
    requires RcReady(w, found, threshold)
  {
    FinishRc(CollectRc(RcStart(w, found, threshold), found, evac))
  }

  ghost function AfterCollectors(w: World, found: seq<Ref>, evac: bool, immix: bool, threshold: Option<nat>): Rc
    requires RcReady(w, found, threshold)
  {
    var f := AfterRc(w, found, evac, threshold);
    if immix then TracePart(f, w.all + GetAllBlocks(w.sp), found, !w.mark) else f
  }

  ghost predicate CollectReady(w: World, found: seq<Ref>, evac: bool, immix: bool, threshold: Option<nat>) {
    && RcReady(w, found, threshold)
    && SweepReady(w.sp, AfterCollectors(w, found, evac, immix, threshold).blocks, w.all + GetAllBlocks(w.sp))
  }

  ghost function CollectStep(w: World, found: seq<Ref>, evac: bool, immix: bool, threshold: Option<nat>): World
    requires CollectReady(w, found, evac, immix, threshold)
  {
    Complete(w, AfterCollectors(w, found, evac, immix, threshold), w.all + GetAllBlocks(w.sp), found, immix)
  }
}
