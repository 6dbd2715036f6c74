/**
  What the trace keeps while it runs, with or without moving objects. The unit of the argument is an
  object of the graph that was reachable at the start: its image is where it lies now.
 */
module TraceProofs {
  import opened Constants
  import opened Wrappers
  import opened Objects
  import opened BlockLines
  import opened BlockInfos
  import opened BlockTables
  import opened Graph
  import opened AllocatorModel
  import opened TraceModel

  /** The heap a trace starts from, its roots, the mark to be set, and whether it may move objects. */
  datatype Start = Start(hs: Headers, bs: Bodies, blocks: Blocks, evac: Evac, roots: seq<Ref>, next: bool, evacOn: bool)

  ghost function Scope(s: Start): set<Ref> {
    Reachable(s.bs, RootSet(s.roots))
  }

  function Begin(s: Start): Tr {
    Tr(s.hs, s.bs, s.blocks, s.evac, s.roots)
  }

  /** The bytes an object takes at its place; an object that had been moved before the trace has no known size. */
  ghost function Extent(s: Start, t: Tr, k: Ref): nat {
    if k in s.bs then if s.bs[k].Plain? then s.bs[k].size else 0
    else if k in t.bs && t.bs[k].Plain? then t.bs[k].size else 0
  }

  ghost function Extents(s: Start, t: Tr): map<Ref, nat> {
    map k | k in t.bs :: Extent(s, t, k)
  }

  /**
    The places objects have been moved to: each is whole inside of a block, behind its first line, and
    shares no byte with any other object, moved or not. The next place will lie behind them.
   */
  ghost predicate BytesOk(s: Start, t: Tr) {
    && EvacBelow(t.evac, Extents(s, t))
    && (forall n :: n in t.bs && n !in s.bs ==>
          n.Immix? && LINE_SIZE <= n.offset && n.offset + Extent(s, t, n) <= LAST_OFFSET)
    && (forall n, k :: n in t.bs && n !in s.bs && k in t.bs && k != n ==> Apart(n, Extent(s, t, n), k, Extent(s, t, k)))
  }

  /** The bytes depend only on the sizes of the moved objects. */
  lemma BytesFrame(s: Start, t: Tr, t': Tr)
    requires BytesOk(s, t) && t'.bs.Keys == t.bs.Keys && (t'.evac == t.evac || t'.evac.current.None?)
    requires forall k :: k in t.bs && k !in s.bs ==> SameExtent(t.bs[k], t'.bs[k])
    ensures BytesOk(s, t')
  {
    hide Apart;
    assert forall k :: k in t.bs ==> Extent(s, t', k) == Extent(s, t, k);
    assert Extents(s, t') == Extents(s, t);
  }

  /** A new place behind all other objects of its block. */
  lemma BytesGrow(s: Start, t: Tr, t': Tr, n: Ref, size: nat)
    requires BytesOk(s, t) && n !in s.bs && n !in t.bs && t'.bs.Keys == t.bs.Keys + {n}
    requires forall k :: k in t.bs && k !in s.bs ==> SameExtent(t.bs[k], t'.bs[k])
    requires t'.bs[n].Plain? && t'.bs[n].size == size
    requires n.Immix? && LINE_SIZE <= n.offset && n.offset + size <= LAST_OFFSET
    requires (forall k :: k in t.bs ==> Apart(n, size, k, Extent(s, t, k)))
    requires EvacBelow(t'.evac, Extents(s, t)[n := size])
    ensures BytesOk(s, t')
  {
    assert forall k :: k in t.bs ==> Extent(s, t', k) == Extent(s, t, k);
    assert Extents(s, t') == Extents(s, t)[n := size];
    forall m, k | m in t'.bs && m !in s.bs && k in t'.bs && k != m
      ensures Apart(m, Extent(s, t', m), k, Extent(s, t', k))
    {
      if m != n && k == n {
        assert Apart(n, size, m, Extent(s, t, m));
      }
    }
  }

  /** A reachable object before the trace: whole, unmarked, and, if objects may move, with its null members last. */
  ghost predicate ObjectReady(s: Start, a: Ref) {
    && a in s.bs && a in s.hs && s.bs[a].Plain? && s.hs[a].marked != s.next
    && (!NoCandidates(s) ==> NonNullFirst(s.bs[a].members))
    && (forall c :: Some(c) in s.bs[a].members ==> c in Scope(s))
    && (a.Immix? ==> InSpace(s.blocks, a) && Fits(a.offset, s.bs[a].size))
  }

  ghost predicate StartOk(s: Start) {
    && s.hs.Keys == s.bs.Keys && EvacFresh(s.evac, s.blocks, s.bs.Keys) && EvacBelow(s.evac, Extents(s, Begin(s)))
    && (forall r :: r in s.roots ==> r in Scope(s) && s.hs[r].pinned)
    && (forall a :: a in Scope(s) ==> ObjectReady(s, a))
  }

  // ---------------------------------------------------------------- the invariant

  ghost predicate Done(s: Start, t: Tr, a: Ref) {
    Img(t.bs, a) in t.hs && t.hs[Img(t.bs, a)].marked == s.next
  }

  ghost predicate Seen(s: Start, t: Tr, a: Ref) {
    Done(s, t, a) || Img(t.bs, a) in t.queue
  }

  /** The guards of an evacuation as they were at the start; they do not change for an unmarked object. */
  ghost predicate Candidate(s: Start, a: Ref) {
    s.evacOn && IsGc(s.blocks, a) && Movable(s.hs, s.blocks, a)
  }

  /**
    An object and its image. The last line is why a queued object is never moved while it waits: it
    was not moved when it was queued, and the reason for that lasts.
   */
  ghost predicate ObjOk(s: Start, t: Tr, orig: map<Ref, Ref>, a: Ref) {
    && var i := Img(t.bs, a);
    && a in t.bs && a in s.bs && a in s.hs && s.bs[a].Plain? && i in t.bs && i in t.hs && t.bs[i].Plain?
    && i in orig && orig[i] == a
    && t.hs[i] == s.hs[a].(marked := t.hs[i].marked)
    && t.bs[i].size == s.bs[a].size && |t.bs[i].members| == |s.bs[a].members|
    && (!Done(s, t, a) ==> t.bs[i] == s.bs[a])
    && (i.Immix? ==> InSpace(t.blocks, i) && Fits(i.offset, t.bs[i].size))
    && (i != a ==> Candidate(s, a) && i !in s.bs && i.Immix? && Seen(s, t, a))
    && (i == a && Seen(s, t, a) ==> !Candidate(s, a) || Exhausted(t.evac))
  }

  /** The members of an object as they are up to `pos` after the update, and unchanged beyond. */
  ghost predicate MembersUpTo(s: Start, t: Tr, a: Ref, pos: nat) {
    && var i := Img(t.bs, a);
    && a in s.bs && s.bs[a].Plain? && i in t.bs && t.bs[i].Plain?
    && var ms := s.bs[a].members;
    && pos <= |ms| && |t.bs[i].members| == |ms|
    && (forall k :: 0 <= k < |ms| ==> t.bs[i].members[k] == if k < pos then MapSlots(t.bs, ms)[k] else ms[k])
    && (forall k :: 0 <= k < pos && ms[k].Some? ==> Seen(s, t, ms[k].value))
  }

  ghost predicate MembersOk(s: Start, t: Tr, a: Ref) {
    Done(s, t, a) ==> a in s.bs && s.bs[a].Plain? && MembersUpTo(s, t, a, |s.bs[a].members|)
  }

  /** Memory and queue outside of single objects. */
  ghost predicate MemoryOk(s: Start, t: Tr, orig: map<Ref, Ref>) {
    && t.hs.Keys == t.bs.Keys && s.bs.Keys <= t.bs.Keys && s.hs.Keys == s.bs.Keys
    && (forall k :: k in t.bs ==> k in s.bs || k in orig)
    && (forall i :: i in orig ==> orig[i] in Scope(s) && Img(t.bs, orig[i]) == i)
    && (forall k :: k in s.bs && k !in Scope(s) ==> t.bs[k] == s.bs[k] && t.hs[k] == s.hs[k])
    && (forall q :: q in t.queue ==> q in orig)
    && (forall r :: r in s.roots ==> Seen(s, t, r))
  }

  ghost predicate SpaceOk(s: Start, t: Tr) {
    && EvacFresh(t.evac, t.blocks, t.bs.Keys) && BytesOk(s, t)
    && t.blocks.Keys == s.blocks.Keys
    && (forall b :: b in s.blocks ==> SameRecord(s.blocks[b], t.blocks[b]))
    && (NoCandidates(s) ==> t.evac == s.evac && forall b :: b in s.blocks ==> t.blocks[b].inUse == s.blocks[b].inUse)
  }

  /** What a trace leaves alone in a block's record. */
  ghost predicate SameRecord(b: Block, b': Block) {
    b'.candidate == b.candidate && b'.newObjects == b.newObjects && b'.holes == b.holes && (b.inUse ==> b'.inUse)
  }

  /** Nothing can be moved; the evacuation allocator will not be asked. */
  ghost predicate NoCandidates(s: Start) {
    forall a :: a in Scope(s) ==> !Candidate(s, a)
  }

  /** The object maps hold what they held, and the images that are done. */
  ghost predicate MapsOk(s: Start, t: Tr, orig: map<Ref, Ref>) {
    forall o :: InMap(t.blocks, o) <==> InMap(s.blocks, o) || (o.Immix? && o in orig && Done(s, t, orig[o]))
  }

  ghost predicate Counted(s: Start, t: Tr, a: Ref, b: nat, l: int) {
    && Done(s, t, a)
    && Img(t.bs, a).Immix? && Img(t.bs, a).block == b
    && a in s.bs && s.bs[a].Plain? && Covers(Img(t.bs, a).offset, s.bs[a].size, l)
  }

  /** How many done images are counted on a line. */
  ghost function Tally(s: Start, t: Tr, b: nat, l: int): nat {
    |set a | a in Scope(s) && Counted(s, t, a, b, l)|
  }

  ghost predicate LinesOk(s: Start, t: Tr) {
    && t.blocks.Keys == s.blocks.Keys
    && forall b, l {:trigger Tally(s, t, b, l)} :: b in s.blocks && 0 <= l < NUM_LINES ==>
      t.blocks[b].lines[l] == s.blocks[b].lines[l] + Tally(s, t, b, l)
  }

  /** Object `x` is being processed and its members below `pos` are done; all others are in order. */
  ghost predicate InProgress(s: Start, t: Tr, orig: map<Ref, Ref>, x: Ref, pos: nat) {
    && StartOk(s) && MemoryOk(s, t, orig) && SpaceOk(s, t) && MapsOk(s, t, orig) && LinesOk(s, t)
    && (forall a :: a in Scope(s) ==> ObjOk(s, t, orig, a))
    && (forall a :: a in Scope(s) && a != x ==> MembersOk(s, t, a))
    && x in Scope(s) && Done(s, t, x) && MembersUpTo(s, t, x, pos)
  }

  /** The invariant of the worklist loop. */
  ghost predicate TraceInv(s: Start, t: Tr, orig: map<Ref, Ref>) {
    && StartOk(s) && MemoryOk(s, t, orig) && SpaceOk(s, t) && MapsOk(s, t, orig) && LinesOk(s, t)
    && (forall a :: a in Scope(s) ==> ObjOk(s, t, orig, a))
    && (forall a :: a in Scope(s) ==> MembersOk(s, t, a))
  }

  // ---------------------------------------------------------------- steps that leave the images in place

  /** The tally depends on the images and on who is done. */
  lemma TallyFrame(s: Start, t: Tr, t': Tr)
    requires LinesOk(s, t)
    requires forall a :: a in Scope(s) ==> (forall b, l :: Counted(s, t, a, b, l) == Counted(s, t', a, b, l))
    requires t'.blocks.Keys == t.blocks.Keys && forall b :: b in t.blocks ==> t'.blocks[b].lines == t.blocks[b].lines
    ensures LinesOk(s, t')
  {
    forall b, l {:trigger Tally(s, t', b, l)} | b in s.blocks && 0 <= l < NUM_LINES
      ensures t'.blocks[b].lines[l] == s.blocks[b].lines[l] + Tally(s, t', b, l)
    {
      assert t.blocks[b].lines[l] == s.blocks[b].lines[l] + Tally(s, t, b, l);
      assert (set a | a in Scope(s) && Counted(s, t, a, b, l)) == set a | a in Scope(s) && Counted(s, t', a, b, l);
    }
  }

  /** Images and marks are the same in both states. */
  ghost predicate SameImages(s: Start, t: Tr, t': Tr) {
    && t'.hs == t.hs
    && forall a :: Img(t'.bs, a) == Img(t.bs, a)
  }

  lemma SameSeen(s: Start, t: Tr, t': Tr, a: Ref)
    requires SameImages(s, t, t') && forall q :: q in t.queue ==> q in t'.queue
    ensures Done(s, t', a) == Done(s, t, a)
    ensures Seen(s, t, a) ==> Seen(s, t', a)
    ensures t'.queue == t.queue ==> Seen(s, t', a) == Seen(s, t, a)
  {
  }

  lemma MemoryFrame(s: Start, t: Tr, t': Tr, orig: map<Ref, Ref>)
    requires MemoryOk(s, t, orig) && SameImages(s, t, t') && t'.bs.Keys == t.bs.Keys
    requires forall q :: q in t.queue ==> q in t'.queue
    requires t'.queue == t.queue || forall q :: q in t'.queue ==> q in orig
    requires forall k :: k in s.bs && k !in Scope(s) ==> t'.bs[k] == t.bs[k]
    ensures MemoryOk(s, t', orig)
  {
    hide Scope;
  }

  lemma MapsFrame(s: Start, t: Tr, t': Tr, orig: map<Ref, Ref>)
    requires MapsOk(s, t, orig) && SameImages(s, t, t')
    requires forall o :: InMap(t'.blocks, o) == InMap(t.blocks, o)
    ensures MapsOk(s, t', orig)
  {
    hide IsGc, InMap;
  }

  /** An image whose contents did not change, or that is done and kept its size, stays in order. */
  lemma ObjFrame(s: Start, t: Tr, t': Tr, orig: map<Ref, Ref>, a: Ref)
    requires ObjOk(s, t, orig, a) && SameImages(s, t, t') && t'.bs.Keys == t.bs.Keys
    requires forall q :: q in t.queue ==> q in t'.queue
    requires var i := Img(t.bs, a);
      && t'.bs[i].Plain? && t'.bs[i].size == t.bs[i].size && |t'.bs[i].members| == |t.bs[i].members|
      && (!Done(s, t, a) ==> t'.bs[i] == t.bs[i])
      && (i.Immix? && InSpace(t.blocks, i) ==> InSpace(t'.blocks, i))
    requires Exhausted(t.evac) ==> Exhausted(t'.evac)
    requires Seen(s, t', a) && !Seen(s, t, a) ==> !Candidate(s, a) || Exhausted(t'.evac)
    ensures ObjOk(s, t', orig, a)
  {
    hide Candidate, InSpace, Exhausted, Fits;
  }

  lemma MembersFrame(s: Start, t: Tr, t': Tr, a: Ref, pos: nat)
    requires MembersUpTo(s, t, a, pos) && SameImages(s, t, t')
    requires forall q :: q in t.queue ==> q in t'.queue
    requires Img(t.bs, a) in t'.bs && t'.bs[Img(t.bs, a)] == t.bs[Img(t.bs, a)]
    ensures MembersUpTo(s, t', a, pos)
  {
  }

  /** Setting the member that is due, to the image of a child that has been seen. */
  lemma MemberSet(s: Start, t: Tr, orig: map<Ref, Ref>, x: Ref, pos: nat)
    requires InProgress(s, t, orig, x, pos) && pos < |s.bs[x].members| && s.bs[x].members[pos].Some?
    requires Seen(s, t, s.bs[x].members[pos].value)
    ensures var c := s.bs[x].members[pos].value;
      var o := Img(t.bs, x);
      && o in t.bs && t.bs[o].Plain? && pos < |t.bs[o].members|
      && InProgress(s, SetMember(t, o, pos, Img(t.bs, c)), orig, x, pos + 1)
  {
    hide Scope, IsGc, InMap, InSpace, Movable, Covers, Fits, EvacFresh, Exhausted, ObjectReady, StartOk, MemoryOk,
      MapsOk, LinesOk,
      SpaceOk, ObjOk, Seen, Candidate;
    var c := s.bs[x].members[pos].value;
    var o := Img(t.bs, x);
    assert ObjOk(s, t, orig, x);
    var t' := SetMember(t, o, pos, Img(t.bs, c));
    assert SameImages(s, t, t');
    assert t'.bs.Keys == t.bs.Keys;
    ImageInScope(s, t, orig, x);
    MemoryFrame(s, t, t', orig);
    MapsFrame(s, t, t', orig);
    SpaceFrame(s, t, t');
    assert forall a, b, l :: Counted(s, t, a, b, l) == Counted(s, t', a, b, l);
    TallyFrame(s, t, t');
    forall a | a in Scope(s)
      ensures ObjOk(s, t', orig, a)
      ensures a != x ==> MembersOk(s, t', a)
    {
      assert ObjOk(s, t, orig, a);
      assert a != x ==> MembersOk(s, t, a);
      SameSeen(s, t, t', a);
      ImagesDiffer(s, t, orig, a, x);
      ObjSetMember(s, t, orig, a, o, pos, Img(t.bs, c));
      if a != x && Done(s, t, a) {
        MembersFrame(s, t, t', a, |s.bs[a].members|);
      }
    }
    MembersExtended(s, t, x, pos);
  }

  /** The image of a reachable object is a new place, or a reachable object. */
  lemma ImageInScope(s: Start, t: Tr, orig: map<Ref, Ref>, a: Ref)
    requires a in Scope(s) && ObjOk(s, t, orig, a)
    ensures Img(t.bs, a) in s.bs ==> Img(t.bs, a) in Scope(s)
  {
    hide Scope;
  }

  lemma ImagesDiffer(s: Start, t: Tr, orig: map<Ref, Ref>, a: Ref, b: Ref)
    requires ObjOk(s, t, orig, a) && ObjOk(s, t, orig, b)
    ensures a != b ==> Img(t.bs, a) != Img(t.bs, b)
    ensures Img(t.bs, a) in t.bs && t.bs[Img(t.bs, a)].Plain? && a in s.bs && s.bs[a].Plain?
    ensures |t.bs[Img(t.bs, a)].members| == |s.bs[a].members|
  {
    hide Candidate, InSpace, Exhausted, Fits, Seen, Done;
  }

  lemma SpaceFrame(s: Start, t: Tr, t': Tr)
    requires SpaceOk(s, t) && t'.bs.Keys == t.bs.Keys && t'.blocks == t.blocks && t'.evac == t.evac
    requires forall k :: k in t.bs && k !in s.bs ==> SameExtent(t.bs[k], t'.bs[k])
    ensures SpaceOk(s, t')
  {
    hide EvacFresh, BytesOk;
    BytesFrame(s, t, t');
  }

  lemma ObjSetMember(s: Start, t: Tr, orig: map<Ref, Ref>, a: Ref, o: Ref, pos: nat, target: Ref)
    requires ObjOk(s, t, orig, a) && o in t.bs && t.bs[o].Plain? && pos < |t.bs[o].members|
    requires SameImages(s, t, SetMember(t, o, pos, target))
    requires o == Img(t.bs, a) ==> Done(s, t, a)
    ensures ObjOk(s, SetMember(t, o, pos, target), orig, a)
  {
    hide Candidate, InSpace, Exhausted, Fits, Seen, SameImages;
    var t' := SetMember(t, o, pos, target);
    SameSeen(s, t, t', a);
    assert Img(t.bs, a) in t.bs && t.bs[Img(t.bs, a)].Plain?;
    ObjFrame(s, t, t', orig, a);
  }

  lemma MembersExtended(s: Start, t: Tr, x: Ref, pos: nat)
    requires MembersUpTo(s, t, x, pos) && pos < |s.bs[x].members| && s.bs[x].members[pos].Some?
    requires Seen(s, t, s.bs[x].members[pos].value)
    requires SameImages(s, t, SetMember(t, Img(t.bs, x), pos, Img(t.bs, s.bs[x].members[pos].value)))
    ensures MembersUpTo(s, SetMember(t, Img(t.bs, x), pos, Img(t.bs, s.bs[x].members[pos].value)), x, pos + 1)
  {
  }

  /** Nothing is to be done for a null member, or for a child that has been seen and has not moved. */
  lemma MemberSkip(s: Start, t: Tr, orig: map<Ref, Ref>, x: Ref, pos: nat)
    requires InProgress(s, t, orig, x, pos) && pos < |s.bs[x].members|
    requires s.bs[x].members[pos].Some? ==>
      var c := s.bs[x].members[pos].value; Img(t.bs, c) == c && Seen(s, t, c)
    ensures InProgress(s, t, orig, x, pos + 1)
  {
    hide Scope, ObjOk, MembersOk, MemoryOk, SpaceOk, MapsOk, LinesOk, StartOk, Seen, Done;
  }

  /** Queueing an object at its place, when nothing can move it any more. */
  lemma PushKeeps(s: Start, t: Tr, orig: map<Ref, Ref>, x: Ref, pos: nat, c: Ref)
    requires InProgress(s, t, orig, x, pos)
    requires c in Scope(s) && Img(t.bs, c) == c && (!Candidate(s, c) || Exhausted(t.evac))
    ensures InProgress(s, t.(queue := t.queue + [c]), orig, x, pos)
    ensures Seen(s, t.(queue := t.queue + [c]), c)
  {
    hide Scope, IsGc, InMap, InSpace, Movable, Covers, Fits, EvacFresh, Exhausted, ObjectReady, StartOk, MemoryOk,
      MapsOk, LinesOk,
      SpaceOk, ObjOk, Candidate, Done, MembersUpTo;
    var t' := t.(queue := t.queue + [c]);
    assert c in t'.queue;
    assert SameImages(s, t, t');
    assert c in orig && orig[c] == c by { OrigOf(s, t, orig, c); }
    QueueGrows(s, t, t', orig, c);
    MapsFrame(s, t, t', orig);
    SpaceFrame(s, t, t');
    CountedFrame(s, t, t');
    TallyFrame(s, t, t');
    forall a | a in Scope(s)
      ensures ObjOk(s, t', orig, a)
      ensures a != x ==> MembersOk(s, t', a)
    {
      assert ObjOk(s, t, orig, a);
      assert a != x ==> MembersOk(s, t, a);
      SameSeen(s, t, t', a);
      ImagesDiffer(s, t, orig, a, x);
      OrigOf(s, t, orig, a);
      ObjFrame(s, t, t', orig, a);
      if a != x && Done(s, t, a) {
        MembersFrame(s, t, t', a, |s.bs[a].members|);
      }
    }
    SameSeen(s, t, t', x);
    ImageKnown(s, t, x, pos);
    MembersFrame(s, t, t', x, pos);
  }

  lemma OrigOf(s: Start, t: Tr, orig: map<Ref, Ref>, a: Ref)
    requires a in Scope(s) && forall b :: b in Scope(s) ==> ObjOk(s, t, orig, b)
    ensures Img(t.bs, a) in orig && orig[Img(t.bs, a)] == a
  {
    hide Scope, Candidate, InSpace, Exhausted, Fits, Seen, Done;
    assert ObjOk(s, t, orig, a);
  }

  lemma ImageKnown(s: Start, t: Tr, x: Ref, pos: nat)
    requires MembersUpTo(s, t, x, pos)
    ensures Img(t.bs, x) in t.bs && x in s.bs && s.bs[x].Plain? && pos <= |s.bs[x].members|
  {
  }

  lemma CountedFrame(s: Start, t: Tr, t': Tr)
    requires SameImages(s, t, t')
    ensures forall a, b, l :: Counted(s, t, a, b, l) == Counted(s, t', a, b, l)
  {
    hide Covers;
  }

  lemma QueueGrows(s: Start, t: Tr, t': Tr, orig: map<Ref, Ref>, c: Ref)
    requires MemoryOk(s, t, orig) && t' == t.(queue := t.queue + [c]) && c in orig
    ensures MemoryOk(s, t', orig)
  {
    assert SameImages(s, t, t');
    MemoryFrame(s, t, t', orig);
  }

  lemma SpaceFails(s: Start, t: Tr, e: Evac)
    requires SpaceOk(s, t) && Exhausted(e) && EvacFresh(e, t.blocks, t.bs.Keys) && !NoCandidates(s)
    ensures SpaceOk(s, t.(evac := e))
  {
    hide EvacFresh, BytesOk, NoCandidates;
    BytesFrame(s, t, t.(evac := e));
  }

  /** An evacuation that finds no headroom leaves the allocator exhausted, and nothing else changes. */
  lemma EvacFailKeeps(s: Start, t: Tr, orig: map<Ref, Ref>, x: Ref, pos: nat, e: Evac)
    requires InProgress(s, t, orig, x, pos)
    requires Exhausted(e) && EvacFresh(e, t.blocks, t.bs.Keys) && !NoCandidates(s)
    ensures InProgress(s, t.(evac := e), orig, x, pos)
  {
    hide Scope, IsGc, InMap, InSpace, Movable, Covers, Fits, EvacFresh, Exhausted, ObjectReady, StartOk, MemoryOk,
      MapsOk, LinesOk,
      ObjOk, Candidate, Done, MembersUpTo, SpaceOk, NoCandidates;
    var t' := t.(evac := e);
    assert SameImages(s, t, t');
    MemoryFrame(s, t, t', orig);
    MapsFrame(s, t, t', orig);
    SpaceFails(s, t, e);
    CountedFrame(s, t, t');
    TallyFrame(s, t, t');
    forall a | a in Scope(s)
      ensures ObjOk(s, t', orig, a)
      ensures a != x ==> MembersOk(s, t', a)
    {
      assert ObjOk(s, t, orig, a);
      assert a != x ==> MembersOk(s, t, a);
      SameSeen(s, t, t', a);
      ImagesDiffer(s, t, orig, a, x);
      ObjFrame(s, t, t', orig, a);
      if a != x && Done(s, t, a) {
        MembersFrame(s, t, t', a, |s.bs[a].members|);
      }
    }
    SameSeen(s, t, t', x);
    ImageKnown(s, t, x, pos);
    MembersFrame(s, t, t', x, pos);
  }

  // ---------------------------------------------------------------- moving an object

  /** An object `c` that has not been seen is copied to unused memory at `n`, which is queued. */
  ghost predicate MovesTo(s: Start, t: Tr, t': Tr, c: Ref, n: Ref) {
    && c in t.bs && c in t.hs && t.bs[c].Plain? && c.Immix? && c.block in t'.blocks
    && n !in t.bs && n.Immix? && InSpace(t'.blocks, n) && Fits(n.offset, t.bs[c].size)
    && t'.hs == t.hs[n := t.hs[c]] && t'.bs == t.bs[n := t.bs[c]][c := Forwarded(n)] && t'.queue == t.queue + [n]
    && EvacFresh(t'.evac, t'.blocks, t'.bs.Keys)
    && LINE_SIZE <= n.offset && n.offset + t.bs[c].size <= LAST_OFFSET
    && EvacBelow(t'.evac, Extents(s, t)[n := t.bs[c].size])
    && (forall k :: k in t.bs ==> Apart(n, t.bs[c].size, k, Extent(s, t, k)))
    && t'.blocks.Keys == t.blocks.Keys
    && (forall b :: b in t.blocks ==> t'.blocks[b].lines == t.blocks[b].lines && SameRecord(t.blocks[b], t'.blocks[b]))
    && (forall o :: InSpace(t.blocks, o) ==> InSpace(t'.blocks, o))
    && (forall o :: InMap(t'.blocks, o) <==> InMap(t.blocks, o) || o == c)
  }

  /** The images after a move: only `c` has a new one. */
  lemma MovedImages(s: Start, t: Tr, t': Tr, c: Ref, n: Ref)
    requires MovesTo(s, t, t', c, n)
    ensures forall a :: Img(t'.bs, a) == if a == c then n else Img(t.bs, a)
  {
    hide InSpace, EvacFresh, IsGc, InMap, Fits;
  }

  /** For other objects nothing has changed. */
  lemma MovedOthers(s: Start, t: Tr, t': Tr, c: Ref, n: Ref, orig: map<Ref, Ref>, a: Ref)
    requires MovesTo(s, t, t', c, n) && ObjOk(s, t, orig, a) && a != c && c in orig && orig[c] == c
    ensures Img(t'.bs, a) == Img(t.bs, a)
    ensures Done(s, t', a) == Done(s, t, a) && Seen(s, t', a) == Seen(s, t, a)
    ensures t'.bs[Img(t.bs, a)] == t.bs[Img(t.bs, a)] && t'.hs[Img(t.bs, a)] == t.hs[Img(t.bs, a)]
    ensures Img(t.bs, a) != c && Img(t.bs, a) != n
  {
    hide InSpace, EvacFresh, IsGc, InMap, Fits, Exhausted, Candidate;
    MovedImages(s, t, t', c, n);
  }

  lemma MovedObj(s: Start, t: Tr, t': Tr, c: Ref, n: Ref, orig: map<Ref, Ref>, a: Ref)
    requires MovesTo(s, t, t', c, n) && ObjOk(s, t, orig, a) && !Exhausted(t.evac)
    requires Img(t.bs, c) == c && !Done(s, t, c) && Candidate(s, c) && n !in s.bs && c in orig && orig[c] == c
    ensures ObjOk(s, t', (orig - {c})[n := c], a)
  {
    hide InSpace, EvacFresh, IsGc, InMap, Fits, Exhausted, Candidate;
    MovedImages(s, t, t', c, n);
    if a != c {
      MovedOthers(s, t, t', c, n, orig, a);
    } else {
      assert n in t'.queue;
    }
  }

  lemma MovedMembers(s: Start, t: Tr, t': Tr, c: Ref, n: Ref, orig: map<Ref, Ref>, a: Ref, pos: nat)
    requires MovesTo(s, t, t', c, n) && ObjOk(s, t, orig, a) && a != c && c in orig && orig[c] == c
    requires MembersUpTo(s, t, a, pos) && !Seen(s, t, c)
    requires forall v :: v in Scope(s) ==> ObjOk(s, t, orig, v)
    requires forall k :: 0 <= k < pos && s.bs[a].members[k].Some? ==> s.bs[a].members[k].value in Scope(s)
    ensures MembersUpTo(s, t', a, pos)
  {
    hide InSpace, EvacFresh, IsGc, InMap, Fits, Exhausted, Candidate, Scope, Done, ObjOk, MovesTo, Seen;
    MovedOthers(s, t, t', c, n, orig, a);
    MovedImages(s, t, t', c, n);
    MovedKeys(s, t, t', c, n);
    forall k | 0 <= k < pos && s.bs[a].members[k].Some?
      ensures Seen(s, t', s.bs[a].members[k].value) && s.bs[a].members[k].value != c
    {
      var v := s.bs[a].members[k].value;
      MovedOthers(s, t, t', c, n, orig, v);
    }
  }

  lemma MovedKeys(s: Start, t: Tr, t': Tr, c: Ref, n: Ref)
    requires MovesTo(s, t, t', c, n)
    ensures t'.bs.Keys == t.bs.Keys + {n} && t'.queue == t.queue + [n] && n !in t.bs
  {
    hide InSpace, EvacFresh, IsGc, InMap, Fits;
  }

  lemma MovedMemory(s: Start, t: Tr, t': Tr, c: Ref, n: Ref, orig: map<Ref, Ref>)
    requires MovesTo(s, t, t', c, n) && MemoryOk(s, t, orig) && c in Scope(s) && c in s.bs && c in orig && orig[c] == c
    requires Img(t.bs, c) == c && !Seen(s, t, c)
    requires forall v :: v in Scope(s) ==> ObjOk(s, t, orig, v)
    requires forall r :: r in s.roots ==> r in Scope(s)
    ensures MemoryOk(s, t', (orig - {c})[n := c])
  {
    hide InSpace, EvacFresh, IsGc, InMap, Fits, Exhausted, Candidate, Scope, ObjOk;
    MovedImages(s, t, t', c, n);
    var orig' := (orig - {c})[n := c];
    forall i | i in orig'
      ensures orig'[i] in Scope(s) && Img(t'.bs, orig'[i]) == i
    {
    }
    forall q | q in t'.queue
      ensures q in orig'
    {
    }
    forall r | r in s.roots
      ensures Seen(s, t', r)
    {
      assert Seen(s, t, r);
      MovedOthers(s, t, t', c, n, orig, r);
    }
  }

  lemma MovedMaps(s: Start, t: Tr, t': Tr, c: Ref, n: Ref, orig: map<Ref, Ref>)
    requires MovesTo(s, t, t', c, n) && MapsOk(s, t, orig) && c in orig && orig[c] == c
    requires Img(t.bs, c) == c && !Done(s, t, c) && InMap(s.blocks, c) && n !in orig
    requires forall i :: i in orig ==> orig[i] in Scope(s)
    requires forall v :: v in Scope(s) ==> ObjOk(s, t, orig, v)
    ensures MapsOk(s, t', (orig - {c})[n := c])
  {
    hide InSpace, EvacFresh, Fits, Exhausted, Candidate, Scope, ObjOk, IsGc, InMap;
    MovedImages(s, t, t', c, n);
    var orig' := (orig - {c})[n := c];
    assert !Done(s, t', c);
    forall o
      ensures InMap(t'.blocks, o) <==> InMap(s.blocks, o) || (o.Immix? && o in orig' && Done(s, t', orig'[o]))
    {
      if o in orig && orig[o] != c {
        assert orig[o] in Scope(s);
        MovedOthers(s, t, t', c, n, orig, orig[o]);
      }
      if o in orig && orig[o] == c && o != c {
        assert !Done(s, t, orig[o]);
      }
    }
  }

  lemma MovedLines(s: Start, t: Tr, t': Tr, c: Ref, n: Ref, orig: map<Ref, Ref>)
    requires MovesTo(s, t, t', c, n) && LinesOk(s, t) && c in orig && orig[c] == c && !Done(s, t, c)
    requires Img(t.bs, c) == c
    requires forall v :: v in Scope(s) ==> ObjOk(s, t, orig, v)
    ensures LinesOk(s, t')
  {
    hide InSpace, EvacFresh, Fits, Exhausted, Candidate, Scope, IsGc, InMap, Covers, ObjOk;
    MovedImages(s, t, t', c, n);
    forall a, b, l | a in Scope(s)
      ensures Counted(s, t, a, b, l) == Counted(s, t', a, b, l)
    {
      if a != c {
        MovedOthers(s, t, t', c, n, orig, a);
      }
    }
    TallyFrame(s, t, t');
  }

  /** A moved object has been seen, and everything else is as it was. */
  lemma MoveKeeps(s: Start, t: Tr, t': Tr, orig: map<Ref, Ref>, x: Ref, pos: nat, c: Ref, n: Ref)
    requires InProgress(s, t, orig, x, pos) && MovesTo(s, t, t', c, n)
    requires c in Scope(s) && Img(t.bs, c) == c && !Seen(s, t, c) && Candidate(s, c) && !Exhausted(t.evac)
    ensures InProgress(s, t', (orig - {c})[n := c], x, pos)
    ensures Seen(s, t', c) && Img(t'.bs, c) == n && Img(t'.bs, x) == Img(t.bs, x)
  {
    hide Scope, IsGc, InMap, InSpace, Movable, Covers, Fits, EvacFresh, Exhausted, StartOk, MapsOk, LinesOk,
      ObjOk, Candidate, MembersUpTo, MovesTo, Done, MemoryOk;
    var orig' := (orig - {c})[n := c];
    OrigOf(s, t, orig, c);
    MovedKeys(s, t, t', c, n);
    NewPlace(s, t, orig, n);
    RootsInScope(s);
    assert c != x;
    ReadyChildren(s, c);
    MovedMemory(s, t, t', c, n, orig);
    CandidateGc(s, c);
    MovedMaps(s, t, t', c, n, orig);
    MovedLines(s, t, t', c, n, orig);
    SomeCandidate(s, c);
    MovedSpace(s, t, t', c, n);
    forall a | a in Scope(s)
      ensures ObjOk(s, t', orig', a)
      ensures a != x ==> MembersOk(s, t', a)
    {
      MovedObj(s, t, t', c, n, orig, a);
      if a != c {
        MovedOthers(s, t, t', c, n, orig, a);
        assert a != x ==> MembersOk(s, t, a);
        if a != x && Done(s, t, a) {
          ReadyChildren(s, a);
          MovedMembers(s, t, t', c, n, orig, a, |s.bs[a].members|);
        }
      } else {
        MovedNotDone(s, t, t', c, n);
      }
    }
    MovedOthers(s, t, t', c, n, orig, x);
    ReadyChildren(s, x);
    ImageKnown(s, t, x, pos);
    MovedMembers(s, t, t', c, n, orig, x, pos);
    MovedSeen(s, t, t', c, n);
  }

  lemma NewPlace(s: Start, t: Tr, orig: map<Ref, Ref>, n: Ref)
    requires MemoryOk(s, t, orig) && n !in t.bs
    requires forall v :: v in Scope(s) ==> ObjOk(s, t, orig, v)
    ensures n !in s.bs && n !in orig
    ensures forall i :: i in orig ==> orig[i] in Scope(s)
  {
    hide Scope, Candidate, InSpace, Exhausted, Fits, Seen, Done;
    forall i | i in orig
      ensures i in t.bs
    {
      assert ObjOk(s, t, orig, orig[i]);
    }
  }

  lemma RootsInScope(s: Start)
    requires StartOk(s)
    ensures forall r :: r in s.roots ==> r in Scope(s)
  {
    hide Scope, ObjectReady;
  }

  lemma ReadyChildren(s: Start, a: Ref)
    requires StartOk(s) && a in Scope(s)
    ensures a in s.bs && s.bs[a].Plain?
    ensures forall k :: 0 <= k < |s.bs[a].members| && s.bs[a].members[k].Some? ==> s.bs[a].members[k].value in Scope(s)
  {
    hide Scope, InSpace, Fits;
    assert ObjectReady(s, a);
    forall k | 0 <= k < |s.bs[a].members| && s.bs[a].members[k].Some?
      ensures s.bs[a].members[k].value in Scope(s)
    {
      assert Some(s.bs[a].members[k].value) in s.bs[a].members;
    }
  }

  lemma SomeCandidate(s: Start, c: Ref)
    requires c in Scope(s) && Candidate(s, c)
    ensures !NoCandidates(s)
  {
    hide Scope, Candidate;
  }

  lemma CandidateGc(s: Start, c: Ref)
    requires Candidate(s, c)
    ensures InMap(s.blocks, c)
  {
  }

  lemma MovedSpace(s: Start, t: Tr, t': Tr, c: Ref, n: Ref)
    requires MovesTo(s, t, t', c, n) && SpaceOk(s, t) && !NoCandidates(s) && c in s.bs && n !in s.bs
    ensures SpaceOk(s, t')
  {
    hide InSpace, EvacFresh, EvacBelow, Apart, Fits, IsGc, InMap, BytesOk;
    assert t'.bs.Keys == t.bs.Keys + {n};
    BytesGrow(s, t, t', n, t.bs[c].size);
  }

  lemma MovedNotDone(s: Start, t: Tr, t': Tr, c: Ref, n: Ref)
    requires MovesTo(s, t, t', c, n) && Img(t.bs, c) == c && !Seen(s, t, c)
    ensures !Done(s, t', c)
  {
    hide InSpace, EvacFresh, Fits, IsGc, InMap;
    MovedImages(s, t, t', c, n);
  }

  lemma MovedSeen(s: Start, t: Tr, t': Tr, c: Ref, n: Ref)
    requires MovesTo(s, t, t', c, n)
    ensures Seen(s, t', c) && Img(t'.bs, c) == n
  {
    hide InSpace, EvacFresh, Fits, IsGc, InMap;
    MovedImages(s, t, t', c, n);
    assert n in t'.queue;
  }

  // ---------------------------------------------------------------- one child

  ghost function DoneSet(s: Start, t: Tr): set<Ref> {
    set a | a in Scope(s) && Done(s, t, a)
  }

  /** What the step needs to know about the child and the object it belongs to. */
  lemma ChildKnown(s: Start, t: Tr, orig: map<Ref, Ref>, x: Ref, pos: nat)
    requires InProgress(s, t, orig, x, pos) && pos < |s.bs[x].members| && s.bs[x].members[pos].Some?
    ensures var c, o := s.bs[x].members[pos].value, Img(t.bs, x);
      && c in Scope(s) && ObjOk(s, t, orig, c)
      && o in t.hs && o in t.bs && t.bs[o].Plain? && pos < |t.bs[o].members| && t.hs[o].marked == s.next
      && t.bs[o].members[pos] == Some(c)
      && c in t.hs && c in t.bs && EvacFresh(t.evac, t.blocks, t.bs.Keys)
      && (t.bs[c].Plain? && c.Immix? ==>
            0 < ObjectSize(t.bs[c].size) <= LAST_OFFSET - LINE_SIZE && Fits(c.offset, t.bs[c].size))
      && (t.bs[c].Plain? ==> Img(t.bs, c) == c) && (t.bs[c].Forwarded? ==> Seen(s, t, c))
  {
    hide Scope, IsGc, InMap, InSpace, Movable, Covers, EvacFresh, Exhausted, Candidate, MapsOk, LinesOk;
    ReadyChildren(s, x);
    var c := s.bs[x].members[pos].value;
    assert ObjOk(s, t, orig, c);
    assert ObjOk(s, t, orig, x);
  }

  /** The guards of an evacuation, asked now, are the guards at the start. */
  lemma GuardsLast(s: Start, t: Tr, orig: map<Ref, Ref>, c: Ref)
    requires ObjOk(s, t, orig, c) && Img(t.bs, c) == c && !Done(s, t, c) && MapsOk(s, t, orig) && SpaceOk(s, t)
    requires ObjectReady(s, c)
    ensures IsGc(t.blocks, c) == IsGc(s.blocks, c)
    ensures Movable(t.hs, t.blocks, c) == Movable(s.hs, s.blocks, c)
    ensures Candidate(s, c) <==> s.evacOn && IsGc(t.blocks, c) && Movable(t.hs, t.blocks, c)
  {
    hide Scope, InSpace, Covers, EvacFresh, Exhausted, Fits;
  }

  /** Processing one child: the member that is due points to the child's place, and the child has been seen. */
  lemma ChildStep(s: Start, t: Tr, orig: map<Ref, Ref>, x: Ref, pos: nat) returns (orig': map<Ref, Ref>)
    requires InProgress(s, t, orig, x, pos) && pos < |s.bs[x].members| && s.bs[x].members[pos].Some?
    ensures var c, o := s.bs[x].members[pos].value, Img(t.bs, x);
      && o in t.hs && o in t.bs && t.bs[o].Plain? && pos < |t.bs[o].members| && t.hs[o].marked == s.next
      && t.bs[o].members[pos] == Some(c)
      && c in t.hs && c in t.bs && EvacFresh(t.evac, t.blocks, t.bs.Keys)
      && (t.bs[c].Plain? && c.Immix? ==> 0 < ObjectSize(t.bs[c].size) <= LAST_OFFSET - LINE_SIZE)
      && var t' := TraceChild(t, o, pos, c, s.next, s.evacOn);
      && InProgress(s, t', orig', x, pos + 1) && Img(t'.bs, x) == o && DoneSet(s, t') == DoneSet(s, t)
  {
    hide Scope, IsGc, InMap, InSpace, Movable, Covers, Fits, EvacFresh, Exhausted, StartOk, MapsOk, LinesOk,
      EvacAllocate,
      ObjOk, Candidate, MembersUpTo, MovesTo, MemoryOk, InProgress, DoneSet, Seen, Done, MaybeEvacuate, SetMember;
    InProgressKnown(s, t, orig, x, pos);
    var c, o := s.bs[x].members[pos].value, Img(t.bs, x);
    ChildKnown(s, t, orig, x, pos);
    orig' := orig;
    if t.bs[c].Forwarded? {
      MemberSet(s, t, orig, x, pos);
      SetMemberFacts(s, t, o, pos, t.bs[c].target, x);
    } else if t.hs[c].marked == s.next {
      MarkedSeen(s, t, c);
      MemberSkip(s, t, orig, x, pos);
    } else {
      UnmarkedNotDone(s, t, c);
      ProgressParts(s, t, orig, x, pos);
      ScopeReady(s, c);
      GuardsLast(s, t, orig, c);
      if s.evacOn && IsGc(t.blocks, c) {
        orig' := EvacChildStep(s, t, orig, x, pos, c, o);
      } else {
        PushStep(s, t, orig, x, pos, c);
      }
    }
  }

  lemma InProgressKnown(s: Start, t: Tr, orig: map<Ref, Ref>, x: Ref, pos: nat)
    requires InProgress(s, t, orig, x, pos)
    ensures x in s.bs && s.bs[x].Plain? && x in Scope(s) && Done(s, t, x)
  {
    hide Scope, IsGc, InMap, MapsOk, LinesOk, ObjOk, MemoryOk, EvacFresh;
  }

  lemma ProgressParts(s: Start, t: Tr, orig: map<Ref, Ref>, x: Ref, pos: nat)
    requires InProgress(s, t, orig, x, pos)
    ensures MapsOk(s, t, orig) && SpaceOk(s, t) && StartOk(s)
  {
    hide Scope, IsGc, InMap, MapsOk, LinesOk, ObjOk, MemoryOk, EvacFresh;
  }

  lemma ScopeReady(s: Start, a: Ref)
    requires StartOk(s) && a in Scope(s)
    ensures ObjectReady(s, a)
  {
    hide Scope, ObjectReady, EvacFresh;
  }

  lemma MarkedSeen(s: Start, t: Tr, c: Ref)
    requires c in t.hs && c in t.bs && t.bs[c].Plain? && t.hs[c].marked == s.next
    ensures Seen(s, t, c) && Img(t.bs, c) == c
  {
  }

  lemma UnmarkedNotDone(s: Start, t: Tr, c: Ref)
    requires c in t.hs && c in t.bs && t.bs[c].Plain? && t.hs[c].marked != s.next
    ensures !Done(s, t, c) && Img(t.bs, c) == c
  {
  }

  lemma SetMemberFacts(s: Start, t: Tr, o: Ref, pos: nat, target: Ref, x: Ref)
    requires o in t.bs && t.bs[o].Plain? && pos < |t.bs[o].members|
    ensures Img(SetMember(t, o, pos, target).bs, x) == Img(t.bs, x)
    ensures DoneSet(s, SetMember(t, o, pos, target)) == DoneSet(s, t)
  {
    hide Scope;
    assert SameImages(s, t, SetMember(t, o, pos, target));
  }

  lemma QueueFacts(s: Start, t: Tr, t': Tr, x: Ref)
    requires t'.hs == t.hs && t'.bs == t.bs
    ensures DoneSet(s, t') == DoneSet(s, t)
    ensures forall a :: Img(t'.bs, a) == Img(t.bs, a) && Done(s, t', a) == Done(s, t, a)
  {
    hide Scope;
  }

  /** The child is queued at its place and the member stays. */
  lemma PushStep(s: Start, t: Tr, orig: map<Ref, Ref>, x: Ref, pos: nat, c: Ref)
    requires InProgress(s, t, orig, x, pos) && pos < |s.bs[x].members| && s.bs[x].members[pos] == Some(c)
    requires c in Scope(s) && Img(t.bs, c) == c && (!Candidate(s, c) || Exhausted(t.evac))
    ensures var t' := t.(queue := t.queue + [c]);
      InProgress(s, t', orig, x, pos + 1) && Img(t'.bs, x) == Img(t.bs, x) && DoneSet(s, t') == DoneSet(s, t)
  {
    hide Scope, InProgress, Candidate, Exhausted, DoneSet, Seen;
    var t' := t.(queue := t.queue + [c]);
    PushKeeps(s, t, orig, x, pos, c);
    QueueFacts(s, t, t', x);
    MemberSkip(s, t', orig, x, pos);
  }

  /** The guard of the evacuation holds for an unmarked child. */
  lemma EvacChildStep(s: Start, t: Tr, orig: map<Ref, Ref>, x: Ref, pos: nat, c: Ref, o: Ref)
      returns (orig': map<Ref, Ref>)
    requires InProgress(s, t, orig, x, pos) && pos < |s.bs[x].members| && s.bs[x].members[pos] == Some(c)
    requires o == Img(t.bs, x)
    requires c in Scope(s) && ObjOk(s, t, orig, c) && Img(t.bs, c) == c && !Done(s, t, c)
    requires s.evacOn && IsGc(t.blocks, c) && (Candidate(s, c) <==> Movable(t.hs, t.blocks, c))
    requires o in t.hs && o in t.bs && t.bs[o].Plain? && pos < |t.bs[o].members| && t.hs[o].marked == s.next
    requires c in t.hs && c in t.bs && t.bs[c].Plain? && t.hs[c].marked != s.next
    requires EvacFresh(t.evac, t.blocks, t.bs.Keys)
    requires c.Immix? ==> 0 < ObjectSize(t.bs[c].size) <= LAST_OFFSET - LINE_SIZE && Fits(c.offset, t.bs[c].size)
    ensures var t' := TraceChild(t, o, pos, c, s.next, s.evacOn);
      InProgress(s, t', orig', x, pos + 1) && Img(t'.bs, x) == o && DoneSet(s, t') == DoneSet(s, t)
  {
    hide Scope, InSpace, Covers, Fits, EvacFresh, Exhausted, StartOk, MapsOk, LinesOk, EvacAllocate,
      ObjOk, Candidate, MembersUpTo, MovesTo, MemoryOk, InProgress, DoneSet, Seen, Done, SetMember;
    orig' := orig;
    if !Movable(t.hs, t.blocks, c) {
      PushStep(s, t, orig, x, pos, c);
    } else {
      var size := ObjectSize(t.bs[c].size);
      BytesKnown(s, t, orig, x, pos);
      SizeIs(c.offset, t.bs[c].size);
      EvacAllocateFresh(t.evac, t.blocks, Extents(s, t), size);
      EvacFreshKnown(t.evac, t.blocks, t.bs.Keys);
      var (e, bl, r) := EvacAllocate(t.evac, t.blocks, size);
      if r.None? {
        var t1 := t.(evac := e);
        SomeCandidate(s, c);
        EvacFailKeeps(s, t, orig, x, pos, e);
        QueueFacts(s, t, t1, x);
        PushStep(s, t1, orig, x, pos, c);
      } else {
        var n := r.value;
        var t1 := MaybeEvacuate(t, c).0;
        var t2 := t1.(queue := t1.queue + [n]);
        MovesToHolds(s, t, c, e, bl, n);
        NotWaiting(s, t, orig, c);
        MoveKeeps(s, t, t2, orig, x, pos, c, n);
        orig' := (orig - {c})[n := c];
        MoveDoneSet(s, t, t2, orig, x, pos, c, n);
        MemberSet(s, t2, orig', x, pos);
        SetMemberFacts(s, t2, o, pos, n, x);
        SetThenPush(t1, o, pos, n);
      }
    }
  }

  lemma BytesKnown(s: Start, t: Tr, orig: map<Ref, Ref>, x: Ref, pos: nat)
    requires InProgress(s, t, orig, x, pos)
    ensures EvacBelow(t.evac, Extents(s, t)) && Extents(s, t).Keys == t.bs.Keys
    ensures forall k :: k in t.bs ==> Extents(s, t)[k] == Extent(s, t, k)
  {
    hide Scope, IsGc, InMap, MapsOk, LinesOk, ObjOk, MemoryOk, EvacFresh, StartOk, MembersOk, MembersUpTo, EvacBelow;
  }

  lemma SizeIs(offset: nat, size: nat)
    requires Fits(offset, size)
    ensures ObjectSize(size) == size
  {
  }

  lemma SetThenPush(t: Tr, o: Ref, pos: nat, n: Ref)
    requires o in t.bs && t.bs[o].Plain? && pos < |t.bs[o].members|
    ensures var t' := SetMember(t, o, pos, n);
      t'.(queue := t'.queue + [n]) == SetMember(t.(queue := t.queue + [n]), o, pos, n)
  {
  }

  /** A candidate for which there is headroom has not been queued before. */
  lemma NotWaiting(s: Start, t: Tr, orig: map<Ref, Ref>, c: Ref)
    requires ObjOk(s, t, orig, c) && Img(t.bs, c) == c && !Done(s, t, c) && Candidate(s, c) && !Exhausted(t.evac)
    ensures !Seen(s, t, c)
  {
    hide InSpace, Fits, Candidate, Exhausted, Done, Seen;
  }

  lemma MovesToHolds(s: Start, t: Tr, c: Ref, e: Evac, bl: Blocks, n: Ref)
    requires c in t.hs && c in t.bs && t.bs[c].Plain? && IsGc(t.blocks, c) && EvacFresh(t.evac, t.blocks, t.bs.Keys)
    requires Movable(t.hs, t.blocks, c) && Fits(c.offset, t.bs[c].size)
    requires EvacAllocate(t.evac, t.blocks, ObjectSize(t.bs[c].size)) == (e, bl, Some(n))
    requires forall b ::
      b in t.blocks ==> bl[b] == t.blocks[b] || (b in t.evac.headroom && bl[b] == t.blocks[b].(inUse := true))
    requires n.Immix? && n !in t.bs && InSpace(bl, n) && LINE_SIZE <= n.offset
    requires n.offset + ObjectSize(t.bs[c].size) <= LAST_OFFSET
    requires EvacFresh(e, bl, t.bs.Keys + {n})
    requires EvacBelow(e, Extents(s, t)[n := t.bs[c].size])
    requires forall k :: k in t.bs ==> Apart(n, t.bs[c].size, k, Extent(s, t, k))
    ensures var t1 := MaybeEvacuate(t, c).0;
      MaybeEvacuate(t, c).1 == Some(n) && MovesTo(s, t, t1.(queue := t1.queue + [n]), c, n)
  {
    hide EvacAllocate, Covers, EvacBelow, Apart, Extent, Extents;
    var t1 := MaybeEvacuate(t, c).0;
    var t2 := t1.(queue := t1.queue + [n]);
    assert t2.bs.Keys == t.bs.Keys + {n};
    assert EvacFresh(t2.evac, t2.blocks, t2.bs.Keys) by {
      assert forall b :: b in bl && b != c.block ==> t2.blocks[b] == bl[b];
      assert t2.blocks[c.block] == bl[c.block].(objectMap := bl[c.block].objectMap + {c.offset});
    }
    forall o
      ensures InSpace(t.blocks, o) ==> InSpace(t2.blocks, o)
      ensures InMap(t2.blocks, o) <==> InMap(t.blocks, o) || o == c
    {
      if o.Immix? && o.block in t.blocks {
        assert bl[o.block] == t.blocks[o.block]
               || (o.block in t.evac.headroom && bl[o.block] == t.blocks[o.block].(inUse := true));
      }
    }
  }

  lemma MoveDoneSet(s: Start, t: Tr, t': Tr, orig: map<Ref, Ref>, x: Ref, pos: nat, c: Ref, n: Ref)
    requires InProgress(s, t, orig, x, pos) && MovesTo(s, t, t', c, n)
    requires c in Scope(s) && Img(t.bs, c) == c && !Seen(s, t, c)
    ensures DoneSet(s, t') == DoneSet(s, t)
  {
    hide Scope, IsGc, InMap, InSpace, Movable, Covers, Fits, EvacFresh, Exhausted, StartOk, MapsOk, LinesOk,
      ObjOk, Candidate, MembersUpTo, MovesTo, Done, MemoryOk;
    OrigOf(s, t, orig, c);
    MovedNotDone(s, t, t', c, n);
    forall a | a in Scope(s)
      ensures Done(s, t', a) == Done(s, t, a)
    {
      if a != c {
        MovedOthers(s, t, t', c, n, orig, a);
      }
    }
  }

  // ---------------------------------------------------------------- the loop

  ghost function Identity(s: Start): map<Ref, Ref> {
    map a | a in Scope(s) :: a
  }

  /** The loop begins with the roots in the queue; being pinned they will not move. */
  lemma TraceBegins(s: Start)
    requires StartOk(s)
    ensures TraceInv(s, Begin(s), Identity(s))
    ensures DoneSet(s, Begin(s)) == {}
  {
    hide Scope, IsGc, InMap, InSpace, Covers, Fits, EvacFresh, Exhausted;
    var t, orig := Begin(s), Identity(s);
    forall a | a in Scope(s)
      ensures ObjOk(s, t, orig, a) && MembersOk(s, t, a) && !Done(s, t, a)
    {
      assert ObjectReady(s, a);
    }
    forall b, l {:trigger Tally(s, t, b, l)} | b in s.blocks && 0 <= l < NUM_LINES
      ensures Tally(s, t, b, l) == 0
    {
      assert (set a | a in Scope(s) && Counted(s, t, a, b, l)) == {};
    }
  }

  /** The first of the queue is the image of a reachable object. */
  lemma QueueHead(s: Start, t: Tr, orig: map<Ref, Ref>)
    requires TraceInv(s, t, orig) && t.queue != []
    ensures var q := t.queue[0];
      && q in orig && orig[q] in Scope(s) && Img(t.bs, orig[q]) == q && ObjOk(s, t, orig, orig[q])
      && q in t.hs && q in t.bs && t.bs[q].Plain?
      && (q.Immix? ==> q.block in t.blocks && InSpace(t.blocks, q) && Fits(q.offset, t.bs[q].size))
      && (t.hs[q].marked == s.next <==> Done(s, t, orig[q]))
      && orig[q] in s.bs && s.bs[orig[q]].Plain? && |t.bs[q].members| == |s.bs[orig[q]].members|
  {
    hide Scope, IsGc, InMap, Covers, Fits, EvacFresh, Exhausted, MapsOk, LinesOk, Candidate;
    var q := t.queue[0];
    assert q in t.queue;
    assert ObjOk(s, t, orig, orig[q]);
  }

  /** An object that is done can leave the queue. */
  lemma DequeueSeen(s: Start, t: Tr, orig: map<Ref, Ref>, a: Ref)
    requires t.queue != [] && (Img(t.bs, a) == t.queue[0] ==> Done(s, t, a))
    ensures var t' := t.(queue := t.queue[1..]);
      Done(s, t', a) == Done(s, t, a) && Seen(s, t', a) == Seen(s, t, a)
  {
    assert forall q :: q in t.queue <==> q == t.queue[0] || q in t.queue[1..];
  }

  lemma PopMarked(s: Start, t: Tr, orig: map<Ref, Ref>)
    requires TraceInv(s, t, orig) && t.queue != [] && t.queue[0] in t.hs && t.hs[t.queue[0]].marked == s.next
    ensures TraceInv(s, t.(queue := t.queue[1..]), orig)
    ensures DoneSet(s, t.(queue := t.queue[1..])) == DoneSet(s, t)
  {
    hide Scope, IsGc, InMap, InSpace, Movable, Covers, Fits, EvacFresh, Exhausted, StartOk, MapsOk, LinesOk,
      ObjOk, Candidate, MembersUpTo, Seen, DoneSet, MemoryOk, SpaceOk, Done;
    var t' := t.(queue := t.queue[1..]);
    assert SameImages(s, t, t');
    forall a
      ensures Done(s, t', a) == Done(s, t, a) && Seen(s, t', a) == Seen(s, t, a)
    {
      HeadDone(s, t, a);
      DequeueSeen(s, t, orig, a);
    }
    RootsInScope(s);
    DequeueMemory(s, t, orig);
    MapsFrame(s, t, t', orig);
    SpaceFrame(s, t, t');
    CountedFrame(s, t, t');
    TallyFrame(s, t, t');
    QueueFacts(s, t, t', t.queue[0]);
    forall a | a in Scope(s)
      ensures ObjOk(s, t', orig, a) && MembersOk(s, t', a)
    {
      DequeueObj(s, t, orig, a);
    }
  }

  lemma HeadDone(s: Start, t: Tr, a: Ref)
    requires t.queue != [] && t.queue[0] in t.hs && t.hs[t.queue[0]].marked == s.next
    ensures Img(t.bs, a) == t.queue[0] ==> Done(s, t, a)
  {
  }

  lemma DequeueMemory(s: Start, t: Tr, orig: map<Ref, Ref>)
    requires MemoryOk(s, t, orig) && t.queue != []
    requires var t' := t.(queue := t.queue[1..]); forall a :: Seen(s, t', a) == Seen(s, t, a)
    ensures MemoryOk(s, t.(queue := t.queue[1..]), orig)
  {
    hide Scope, Seen;
    assert forall q :: q in t.queue[1..] ==> q in t.queue;
  }

  lemma DequeueObj(s: Start, t: Tr, orig: map<Ref, Ref>, a: Ref)
    requires t.queue != [] && ObjOk(s, t, orig, a) && MembersOk(s, t, a)
    requires var t' := t.(queue := t.queue[1..]);
      forall x :: Done(s, t', x) == Done(s, t, x) && Seen(s, t', x) == Seen(s, t, x)
    ensures ObjOk(s, t.(queue := t.queue[1..]), orig, a) && MembersOk(s, t.(queue := t.queue[1..]), a)
  {
    hide InSpace, Fits, Candidate, Exhausted, Seen, Done;
  }

  /** `t'` is `t` with its first queued object `q` taken off the queue, marked, valid and counted. */
  ghost predicate MarksHead(s: Start, t: Tr, t': Tr, q: Ref) {
    && t.queue != [] && q == t.queue[0] && q in t.hs && q in t.bs && t.bs[q].Plain?
    && t'.hs == t.hs[q := t.hs[q].(marked := s.next)] && t'.bs == t.bs && t'.queue == t.queue[1..] && t'.evac == t.evac
    && t'.blocks.Keys == t.blocks.Keys
    && (forall b :: b in t.blocks ==> SameRecord(t.blocks[b], t'.blocks[b]) && t'.blocks[b].inUse == t.blocks[b].inUse)
    && (forall o :: InMap(t'.blocks, o) <==> InMap(t.blocks, o) || (o == q && q.Immix?))
    && (forall b, l :: b in t.blocks && 0 <= l < NUM_LINES ==>
      t'.blocks[b].lines[l] == t.blocks[b].lines[l] + if CoversLine(t.bs, q, b, l) then 1 else 0)
    && (forall b :: b in t.blocks ==> t'.blocks[b].objectMap == t.blocks[b].objectMap || (q.Immix? && q.block == b))
  }

  lemma MarkFacts(s: Start, t: Tr, q: Ref)
    requires t.queue != [] && q == t.queue[0] && q in t.hs && q in t.bs && t.bs[q].Plain?
    requires q.Immix? ==> InSpace(t.blocks, q)
    ensures MarksHead(s, t, MarkObject(t.(queue := t.queue[1..]), q, s.next), q)
  {
    hide Covers;
    var t' := MarkObject(t.(queue := t.queue[1..]), q, s.next);
    forall o
      ensures InMap(t'.blocks, o) <==> InMap(t.blocks, o) || (o == q && q.Immix?)
    {
    }
  }

  lemma MarkSeen(s: Start, t: Tr, t': Tr, orig: map<Ref, Ref>, q: Ref, a: Ref)
    requires MarksHead(s, t, t', q) && ObjOk(s, t, orig, a) && q in orig
    ensures Img(t'.bs, a) == Img(t.bs, a)
    ensures Done(s, t', a) == (Done(s, t, a) || (a == orig[q] && Img(t.bs, a) == q))
    ensures Seen(s, t', a) == Seen(s, t, a)
    ensures Img(t.bs, a) == q ==> a == orig[q]
  {
    hide IsGc, InMap, InSpace, Fits, Candidate, Exhausted, Covers;
    assert forall x :: x in t.queue <==> x == q || x in t.queue[1..];
  }

  lemma MarkObj(s: Start, t: Tr, t': Tr, orig: map<Ref, Ref>, q: Ref, a: Ref)
    requires MarksHead(s, t, t', q) && ObjOk(s, t, orig, a) && q in orig
    ensures ObjOk(s, t', orig, a)
  {
    hide IsGc, InMap, Fits, Candidate, Exhausted, Covers, Seen;
    MarkSeen(s, t, t', orig, q, a);
  }

  lemma MarkMembers(s: Start, t: Tr, t': Tr, orig: map<Ref, Ref>, q: Ref, a: Ref)
    requires MarksHead(s, t, t', q) && ObjOk(s, t, orig, a) && q in orig && MembersOk(s, t, a) && Img(t.bs, a) != q
    requires StartOk(s) && a in Scope(s) && forall v :: v in Scope(s) ==> ObjOk(s, t, orig, v)
    ensures MembersOk(s, t', a)
  {
    hide IsGc, InMap, InSpace, Fits, Candidate, Exhausted, Covers, Seen, Scope, StartOk, Done, ObjOk;
    MarkSeen(s, t, t', orig, q, a);
    ReadyChildren(s, a);
    if Done(s, t, a) {
      forall k | 0 <= k < |s.bs[a].members| && s.bs[a].members[k].Some?
        ensures Seen(s, t', s.bs[a].members[k].value)
      {
        MarkSeen(s, t, t', orig, q, s.bs[a].members[k].value);
      }
    }
  }

  lemma MarkMemory(s: Start, t: Tr, t': Tr, orig: map<Ref, Ref>, q: Ref)
    requires MarksHead(s, t, t', q) && MemoryOk(s, t, orig) && q in orig
    requires forall v :: v in Scope(s) ==> ObjOk(s, t, orig, v)
    requires forall r :: r in s.roots ==> r in Scope(s)
    requires q in s.bs ==> q in Scope(s)
    ensures MemoryOk(s, t', orig)
  {
    hide IsGc, InMap, InSpace, Fits, Candidate, Exhausted, Covers, Scope, ObjOk;
    assert forall x :: x in t'.queue ==> x in t.queue;
    forall r | r in s.roots
      ensures Seen(s, t', r)
    {
      assert Seen(s, t, r);
      MarkSeen(s, t, t', orig, q, r);
    }
  }

  lemma MarkMaps(s: Start, t: Tr, t': Tr, orig: map<Ref, Ref>, q: Ref)
    requires MarksHead(s, t, t', q) && MapsOk(s, t, orig) && q in orig && Img(t.bs, orig[q]) == q
    requires forall i :: i in orig ==> orig[i] in Scope(s) && Img(t.bs, orig[i]) == i
    requires forall v :: v in Scope(s) ==> ObjOk(s, t, orig, v)
    ensures MapsOk(s, t', orig)
  {
    hide IsGc, InMap, InSpace, Fits, Candidate, Exhausted, Covers, Scope, ObjOk, Done;
    forall o
      ensures InMap(t'.blocks, o) <==> InMap(s.blocks, o) || (o.Immix? && o in orig && Done(s, t', orig[o]))
    {
      if o in orig {
        MarkSeen(s, t, t', orig, q, orig[o]);
      }
    }
  }

  lemma MarkLines(s: Start, t: Tr, t': Tr, orig: map<Ref, Ref>, q: Ref)
    requires MarksHead(s, t, t', q) && LinesOk(s, t) && q in orig && orig[q] in Scope(s) && Img(t.bs, orig[q]) == q
    requires !Done(s, t, orig[q])
    requires forall v :: v in Scope(s) ==> ObjOk(s, t, orig, v)
    ensures LinesOk(s, t')
  {
    hide IsGc, InMap, InSpace, Fits, Candidate, Exhausted, Covers, Scope, Done;
    var x := orig[q];
    forall b, l {:trigger Tally(s, t', b, l)} | b in s.blocks && 0 <= l < NUM_LINES
      ensures t'.blocks[b].lines[l] == s.blocks[b].lines[l] + Tally(s, t', b, l)
    {
      assert t.blocks[b].lines[l] == s.blocks[b].lines[l] + Tally(s, t, b, l);
      var before, after :=
        set a | a in Scope(s) && Counted(s, t, a, b, l), set a | a in Scope(s) && Counted(s, t', a, b, l);
      forall a | a in Scope(s)
        ensures Counted(s, t', a, b, l) == (Counted(s, t, a, b, l) || (a == x && CoversLine(t.bs, q, b, l)))
      {
        assert ObjOk(s, t, orig, a);
        MarkSeen(s, t, t', orig, q, a);
      }
      assert after == before + if CoversLine(t.bs, q, b, l) then {x} else {};
      assert x !in before;
    }
  }

  lemma MarkSpace(s: Start, t: Tr, t': Tr, q: Ref)
    requires MarksHead(s, t, t', q) && SpaceOk(s, t)
    ensures SpaceOk(s, t')
  {
    hide IsGc, InMap, InSpace, Covers, BytesOk;
    BytesFrame(s, t, t');
  }

  /** Marking the first of the queue: it becomes valid and counted, and its members are next. */
  lemma PopUnmarked(s: Start, t: Tr, orig: map<Ref, Ref>)
    requires t.queue != [] && t.queue[0] in t.hs && t.hs[t.queue[0]].marked != s.next
    requires TraceInv(s, t, orig)
    ensures var q := t.queue[0];
      && q in orig && q in t.bs && t.bs[q].Plain? && (q.Immix? ==> q.block in t.blocks)
      && var t' := MarkObject(t.(queue := t.queue[1..]), q, s.next);
      && InProgress(s, t', orig, orig[q], 0) && Img(t'.bs, orig[q]) == q
      && DoneSet(s, t') == DoneSet(s, t) + {orig[q]} && orig[q] !in DoneSet(s, t)
  {
    hide Scope, IsGc, InMap, InSpace, Movable, Covers, Fits, EvacFresh, Exhausted, StartOk, MapsOk, LinesOk,
      Candidate, MembersUpTo, Seen, SpaceOk, MarkObject, Done, MarksHead, ObjOk;
    QueueHead(s, t, orig);
    var q := t.queue[0];
    var x := orig[q];
    var t' := MarkObject(t.(queue := t.queue[1..]), q, s.next);
    assert ObjOk(s, t, orig, x);
    MarkFacts(s, t, q);
    MarksHeadIs(s, t, t', q);
    RootsInScope(s);
    ImageInScope(s, t, orig, x);
    MarkMemory(s, t, t', orig, q);
    MarkMaps(s, t, t', orig, q);
    MarkLines(s, t, t', orig, q);
    MarkSpace(s, t, t', q);
    forall a | a in Scope(s)
      ensures ObjOk(s, t', orig, a)
      ensures a != x ==> MembersOk(s, t', a)
      ensures Done(s, t', a) == (Done(s, t, a) || a == x)
    {
      assert ObjOk(s, t, orig, a) && MembersOk(s, t, a);
      MarkObj(s, t, t', orig, q, a);
      MarkSeen(s, t, t', orig, q, a);
      if a != x {
        MarkMembers(s, t, t', orig, q, a);
      }
    }
    FirstMember(s, t, t', orig, x);
  }

  lemma MarksHeadIs(s: Start, t: Tr, t': Tr, q: Ref)
    requires MarksHead(s, t, t', q)
    ensures t'.bs == t.bs
  {
  }

  lemma FirstMember(s: Start, t: Tr, t': Tr, orig: map<Ref, Ref>, x: Ref)
    requires ObjOk(s, t, orig, x) && !Done(s, t, x) && t'.bs == t.bs
    ensures MembersUpTo(s, t', x, 0)
  {
    hide InSpace, Fits, Candidate, Exhausted, Seen;
  }

  /** When all members have been processed, the object is in order like all others. */
  lemma ProgressEnds(s: Start, t: Tr, orig: map<Ref, Ref>, x: Ref)
    requires x in s.bs && s.bs[x].Plain? && InProgress(s, t, orig, x, |s.bs[x].members|)
    ensures TraceInv(s, t, orig)
  {
    hide Scope, IsGc, InMap, Covers, EvacFresh, Exhausted, StartOk, MapsOk, LinesOk, ObjOk, MembersUpTo, SpaceOk,
      MemoryOk, Done;
  }
}
