/** What a finished trace has done: the graph is preserved, and without candidates it is exact. */
module TraceTheorems {
  import opened Constants
  import opened Wrappers
  import opened Objects
  import opened BlockLines
  import opened BlockTables
  import opened Graph
  import opened TraceModel
  import opened TraceProofs

  /** The loop has ended. */
  ghost predicate Traced(s: Start, t: Tr, orig: map<Ref, Ref>) {
    TraceInv(s, t, orig) && t.queue == []
  }

  /** Every reachable object is done: done objects have only children that are done. */
  lemma AllDone(s: Start, t: Tr, orig: map<Ref, Ref>)
    requires Traced(s, t, orig)
    ensures forall a :: a in Scope(s) ==> Done(s, t, a)
  {
    hide Reachable, IsGc, InMap, Covers, EvacFresh, Exhausted, MapsOk, LinesOk, ObjOk, SpaceOk, Done, Edge;
    RootsInScope(s);
    var done := DoneSet(s, t);
    forall r | r in RootSet(s.roots)
      ensures r in done
    {
      assert Seen(s, t, r);
    }
    forall a, b | a in done && Edge(s.bs, a, b)
      ensures b in done
    {
      assert MembersOk(s, t, a);
      ReadyChildren(s, a);
      EdgeIsMember(s.bs, a, b);
      var k :| 0 <= k < |s.bs[a].members| && s.bs[a].members[k] == Some(b);
      assert Seen(s, t, s.bs[a].members[k].value);
    }
    ReachableLeast(s.bs, RootSet(s.roots), done);
  }

  lemma EdgeIsMember(bs: Bodies, a: Ref, b: Ref)
    requires a in bs && bs[a].Plain?
    ensures Edge(bs, a, b) <==> Some(b) in bs[a].members
  {
    NonNullMember(bs[a].members, b);
  }

  /**
    A queued object is never moved while it waits: at its place there is an object, no forwarding
    pointer, and as long as it is not marked its contents are those from before the trace.
   */
  lemma QueuedIsWhole(s: Start, t: Tr, orig: map<Ref, Ref>, q: Ref)
    requires TraceInv(s, t, orig) && q in t.queue
    ensures q in orig && q in t.bs && q in t.hs && t.bs[q].Plain? && orig[q] in Scope(s) && orig[q] in s.bs
    ensures t.hs[q].marked != s.next ==> t.bs[q] == s.bs[orig[q]]
  {
    hide Scope, IsGc, InMap, InSpace, Fits, EvacFresh, Exhausted, MapsOk, LinesOk, SpaceOk, Candidate, MembersOk, Seen;
    assert ObjOk(s, t, orig, orig[q]);
  }

  /** Where the reachable objects are now. */
  ghost function Images(s: Start, t: Tr): set<Ref> {
    set a | a in Scope(s) :: Img(t.bs, a)
  }

  /** A moved object shares no byte with what was there before the trace, whether it is in use or not. */
  ghost predicate NewBytes(s: Start, t: Tr, a: Ref)
    requires a in s.bs && s.bs[a].Plain?
  {
    var i, size := Img(t.bs, a), s.bs[a].size;
    && i.Immix? && LINE_SIZE <= i.offset && i.offset + size <= LAST_OFFSET
    && (forall k :: k in s.bs && s.bs[k].Plain? ==> Apart(i, size, k, s.bs[k].size))
    && forall b :: b in Scope(s) && b != a && b in s.bs && s.bs[b].Plain? ==> Apart(i, size, Img(t.bs, b), s.bs[b].size)
  }

  /**
    One object after a trace that may move: its image carries its header with the new mark, its size,
    and its members, each replaced by the image of what it pointed to; the image has not moved on.
    Only an unpinned object of a candidate block moves, to bytes that are whole inside of a block and
    belong neither to an object that was there before nor to the image of another one.
   */
  lemma ObjectPreserved(s: Start, t: Tr, orig: map<Ref, Ref>, a: Ref)
    requires Traced(s, t, orig) && a in Scope(s)
    ensures a in s.bs && a in s.hs && s.bs[a].Plain?
    ensures var i := Img(t.bs, a);
      && i in t.bs && i in t.hs
      && t.bs[i] == Plain(s.bs[a].size, MapSlots(t.bs, s.bs[a].members))
      && t.hs[i] == s.hs[a].(marked := s.next)
      && (i != a ==> Candidate(s, a) && i !in s.bs && NewBytes(s, t, a))
    ensures forall b :: b in Scope(s) && Img(t.bs, b) == Img(t.bs, a) ==> a == b
  {
    hide Scope, IsGc, InMap, Covers, EvacFresh, Exhausted, MapsOk, LinesOk, SpaceOk, Candidate, InSpace, Fits, NewBytes;
    AllDone(s, t, orig);
    assert ObjOk(s, t, orig, a) && MembersOk(s, t, a);
    var i := Img(t.bs, a);
    assert t.bs[i].members == MapSlots(t.bs, s.bs[a].members);
    forall b | b in Scope(s) && Img(t.bs, b) == Img(t.bs, a)
      ensures a == b
    {
      assert ObjOk(s, t, orig, b);
    }
    if i != a {
      ImageApart(s, t, orig, a);
    }
  }

  /**
    Which objects are moved: exactly those that may be, unless the headroom is used up in the end. An
    object may be moved if the trace is to evacuate, the object is valid before it and not pinned, and
    its block is a candidate.
   */
  lemma MovedExactly(s: Start, t: Tr, orig: map<Ref, Ref>, a: Ref)
    requires Traced(s, t, orig) && a in Scope(s)
    ensures a in s.hs
    ensures var may :=
        && s.evacOn && a.Immix? && a.block in s.blocks && 0 < a.offset < BLOCK_SIZE
        && s.blocks[a.block].inUse && a.offset in s.blocks[a.block].objectMap
        && s.blocks[a.block].candidate && !s.hs[a].pinned;
      && (Img(t.bs, a) != a ==> may)
      && (may ==> Img(t.bs, a) != a || (t.evac.current == None && t.evac.headroom == []))
  {
    hide *;
    AllDone(s, t, orig);
    CandidateIs(s, a);
    TracedObject(s, t, orig, a);
    ObjMoved(s, t, orig, a);
  }

  lemma TracedObject(s: Start, t: Tr, orig: map<Ref, Ref>, a: Ref)
    requires Traced(s, t, orig) && a in Scope(s)
    ensures ObjOk(s, t, orig, a)
  {
    hide Scope, ObjOk, MembersOk, MemoryOk, SpaceOk, MapsOk, LinesOk, StartOk;
  }

  lemma ObjMoved(s: Start, t: Tr, orig: map<Ref, Ref>, a: Ref)
    requires ObjOk(s, t, orig, a) && Done(s, t, a)
    ensures a in s.hs
    ensures Img(t.bs, a) != a ==> Candidate(s, a)
    ensures Candidate(s, a) ==> Img(t.bs, a) != a || (t.evac.current == None && t.evac.headroom == [])
  {
    hide Candidate, InSpace, Fits;
  }

  lemma CandidateIs(s: Start, a: Ref)
    ensures Candidate(s, a) <==>
      && s.evacOn && a.Immix? && a.block in s.blocks && 0 < a.offset < BLOCK_SIZE
      && s.blocks[a.block].inUse && a.offset in s.blocks[a.block].objectMap
      && s.blocks[a.block].candidate && a in s.hs && !s.hs[a].pinned
  {
  }

  lemma ImageApart(s: Start, t: Tr, orig: map<Ref, Ref>, a: Ref)
    requires TraceInv(s, t, orig) && a in Scope(s) && Img(t.bs, a) != a
    ensures a in s.bs && s.bs[a].Plain? && NewBytes(s, t, a)
  {
    hide Scope, IsGc, InMap, Covers, EvacFresh, EvacBelow, Exhausted, MapsOk, LinesOk, Candidate, InSpace, Fits,
      Apart, MembersOk, Done, Seen;
    assert ObjOk(s, t, orig, a);
    var i, size := Img(t.bs, a), s.bs[a].size;
    forall k | k in s.bs && s.bs[k].Plain?
      ensures Apart(i, size, k, s.bs[k].size)
    {
      assert Apart(i, Extent(s, t, i), k, Extent(s, t, k));
    }
    forall b | b in Scope(s) && b != a && b in s.bs && s.bs[b].Plain?
      ensures Apart(i, size, Img(t.bs, b), s.bs[b].size)
    {
      assert ObjOk(s, t, orig, b);
      var j := Img(t.bs, b);
      assert j != i;
      assert Apart(i, Extent(s, t, i), j, Extent(s, t, j));
    }
  }

  /** No two objects of the heap before the trace share a byte. */
  ghost predicate ApartBefore(s: Start) {
    forall a, b ::
      a in Scope(s) && b in Scope(s) && a != b && a in s.bs && b in s.bs && s.bs[a].Plain? && s.bs[b].Plain? ==>
      Apart(a, s.bs[a].size, b, s.bs[b].size)
  }

  /** Moved objects use bytes that nothing used, and if no objects shared a byte before, no images do. */
  ghost predicate BytesKept(s: Start, t: Tr) {
    && (forall a :: a in Scope(s) ==> a in s.bs && s.bs[a].Plain? && (Img(t.bs, a) != a ==> NewBytes(s, t, a)))
    && (ApartBefore(s) ==>
      forall a, b ::
        a in Scope(s) && b in Scope(s) && a != b ==> Apart(Img(t.bs, a), s.bs[a].size, Img(t.bs, b), s.bs[b].size))
  }

  /** Moving keeps the bytes of the reachable objects apart. */
  lemma ImagesApart(s: Start, t: Tr, orig: map<Ref, Ref>, a: Ref, b: Ref)
    requires Traced(s, t, orig) && a in Scope(s) && b in Scope(s) && a != b && ApartBefore(s)
    ensures a in s.bs && b in s.bs && s.bs[a].Plain? && s.bs[b].Plain?
    ensures Apart(Img(t.bs, a), s.bs[a].size, Img(t.bs, b), s.bs[b].size)
  {
    hide Scope, Traced, Candidate, MapSlots;
    ObjectPreserved(s, t, orig, a);
    ObjectPreserved(s, t, orig, b);
  }

  /**
    The evacuating trace preserves the graph: roots stay where they are, following the images is a
    one-to-one map from the objects reachable before onto those reachable afterwards, and it takes
    each object's members to its image's members, so none of them points to a forwarded object. No copy
    overwrites a byte of an object that was there before, reachable or not, or of another copy; so
    objects that shared no byte before share none afterwards.
   */
  lemma GraphPreserved(s: Start, t: Tr, orig: map<Ref, Ref>)
    requires Traced(s, t, orig)
    ensures forall r :: r in s.roots ==> Img(t.bs, r) == r
    ensures Reachable(t.bs, RootSet(s.roots)) == Images(s, t)
    ensures forall i, c :: i in Images(s, t) && Edge(t.bs, i, c) ==> c in Images(s, t) && c in t.bs && t.bs[c].Plain?
    ensures forall a, b ::
      a in Scope(s) && b in Scope(s) ==> (Edge(s.bs, a, b) <==> Edge(t.bs, Img(t.bs, a), Img(t.bs, b)))
    ensures BytesKept(s, t)
  {
    hide *;
    BytesPreserved(s, t, orig);
    forall r | r in s.roots
      ensures r in Scope(s) && Img(t.bs, r) == r
    {
      RootStays(s, t, orig, r);
    }
    forall a, b | a in Scope(s) && b in Scope(s)
      ensures Edge(s.bs, a, b) <==> Edge(t.bs, Img(t.bs, a), Img(t.bs, b))
    {
      EdgesMatch(s, t, orig, a, b);
    }
    forall i, c | i in Images(s, t) && Edge(t.bs, i, c)
      ensures c in Images(s, t) && c in t.bs && t.bs[c].Plain?
    {
      ImageEdge(s, t, orig, i, c);
    }
    RootImages(s, t);
    ReachableLeast(t.bs, RootSet(s.roots), Images(s, t));
    ImagesReachable(s, t, orig);
  }

  lemma EdgesMatch(s: Start, t: Tr, orig: map<Ref, Ref>, a: Ref, b: Ref)
    requires Traced(s, t, orig) && a in Scope(s) && b in Scope(s)
    ensures Edge(s.bs, a, b) <==> Edge(t.bs, Img(t.bs, a), Img(t.bs, b))
  {
    hide Scope, Traced, Edge, NewBytes, MapSlots;
    if Edge(s.bs, a, b) {
      EdgeForth(s, t, orig, a, b);
    }
    if Edge(t.bs, Img(t.bs, a), Img(t.bs, b)) {
      var b' := EdgeBack(s, t, orig, a, Img(t.bs, b));
      ObjectPreserved(s, t, orig, b);
    }
  }

  lemma ImageEdge(s: Start, t: Tr, orig: map<Ref, Ref>, i: Ref, c: Ref)
    requires Traced(s, t, orig) && i in Images(s, t) && Edge(t.bs, i, c)
    ensures c in Images(s, t) && c in t.bs && t.bs[c].Plain?
  {
    hide Scope, Traced, Edge, NewBytes, MapSlots;
    var a :| a in Scope(s) && i == Img(t.bs, a);
    var b := EdgeBack(s, t, orig, a, c);
    ObjectPreserved(s, t, orig, b);
  }

  lemma RootImages(s: Start, t: Tr)
    requires forall r :: r in s.roots ==> r in Scope(s) && Img(t.bs, r) == r
    ensures RootSet(s.roots) <= Images(s, t)
  {
    hide Scope;
    forall r | r in RootSet(s.roots)
      ensures r in Images(s, t)
    {
      assert Img(t.bs, r) == r;
    }
  }

  lemma BytesPreserved(s: Start, t: Tr, orig: map<Ref, Ref>)
    requires Traced(s, t, orig)
    ensures BytesKept(s, t)
  {
    hide Scope, Traced, NewBytes, ApartBefore, Apart, Candidate, MapSlots;
    forall a | a in Scope(s)
      ensures a in s.bs && s.bs[a].Plain? && (Img(t.bs, a) != a ==> NewBytes(s, t, a))
    {
      ObjectPreserved(s, t, orig, a);
    }
    if ApartBefore(s) {
      forall a, b | a in Scope(s) && b in Scope(s) && a != b
        ensures Apart(Img(t.bs, a), s.bs[a].size, Img(t.bs, b), s.bs[b].size)
      {
        ImagesApart(s, t, orig, a, b);
      }
    }
  }

  lemma RootStays(s: Start, t: Tr, orig: map<Ref, Ref>, r: Ref)
    requires Traced(s, t, orig) && r in s.roots
    ensures r in Scope(s) && Img(t.bs, r) == r
  {
    hide Scope, IsGc, InMap, Covers, EvacFresh, Exhausted, MapsOk, LinesOk, SpaceOk, InSpace, Fits;
    RootsInScope(s);
    assert ObjOk(s, t, orig, r);
  }

  lemma EdgeForth(s: Start, t: Tr, orig: map<Ref, Ref>, a: Ref, b: Ref)
    requires Traced(s, t, orig) && a in Scope(s) && Edge(s.bs, a, b)
    ensures Edge(t.bs, Img(t.bs, a), Img(t.bs, b))
  {
    hide Scope, Traced;
    ObjectPreserved(s, t, orig, a);
    EdgeIsMember(s.bs, a, b);
    var ms := s.bs[a].members;
    var k :| 0 <= k < |ms| && ms[k] == Some(b);
    assert MapSlots(t.bs, ms)[k] == Some(Img(t.bs, b));
    EdgeIsMember(t.bs, Img(t.bs, a), Img(t.bs, b));
  }

  lemma EdgeBack(s: Start, t: Tr, orig: map<Ref, Ref>, a: Ref, c: Ref) returns (b: Ref)
    requires Traced(s, t, orig) && a in Scope(s) && Edge(t.bs, Img(t.bs, a), c)
    ensures b in Scope(s) && Edge(s.bs, a, b) && c == Img(t.bs, b)
  {
    hide Scope;
    ObjectPreserved(s, t, orig, a);
    EdgeIsMember(t.bs, Img(t.bs, a), c);
    var ms := s.bs[a].members;
    var k :| 0 <= k < |ms| && MapSlots(t.bs, ms)[k] == Some(c);
    b := ms[k].value;
    EdgeIsMember(s.bs, a, b);
    assert ms[k] == Some(b);
    ReadyChildren(s, a);
  }

  lemma ImagesReachable(s: Start, t: Tr, orig: map<Ref, Ref>)
    requires Traced(s, t, orig)
    ensures Images(s, t) <= Reachable(t.bs, RootSet(s.roots))
  {
    hide Traced, Reachable, Edge;
    var roots := RootSet(s.roots);
    var reached := set a | a in Scope(s) && Img(t.bs, a) in Reachable(t.bs, roots);
    forall r | r in roots
      ensures r in reached
    {
      RootStays(s, t, orig, r);
      ObjectPreserved(s, t, orig, r);
      ReachableRoot(t.bs, roots, r);
    }
    forall a, b | a in reached && Edge(s.bs, a, b)
      ensures b in reached
    {
      EdgeForth(s, t, orig, a, b);
      EdgeInScope(s, t, orig, a, b);
      ObjectPreserved(s, t, orig, b);
      ReachableEdge(t.bs, roots, Img(t.bs, a), Img(t.bs, b));
    }
    ReachableLeast(s.bs, roots, reached);
  }

  lemma EdgeInScope(s: Start, t: Tr, orig: map<Ref, Ref>, a: Ref, b: Ref)
    requires Traced(s, t, orig) && a in Scope(s) && Edge(s.bs, a, b)
    ensures b in Scope(s)
  {
    hide Reachable;
    ReadyChildren(s, a);
    EdgeIsMember(s.bs, a, b);
    var k :| 0 <= k < |s.bs[a].members| && s.bs[a].members[k] == Some(b);
  }

  /** Objects that the roots do not reach are left alone, moving or not. */
  lemma UnreachableUntouched(s: Start, t: Tr, orig: map<Ref, Ref>)
    requires Traced(s, t, orig)
    ensures forall k ::
      k in s.bs && k !in Scope(s) ==> k in t.bs && t.bs[k] == s.bs[k] && k in t.hs && t.hs[k] == s.hs[k]
    ensures t.bs.Keys == s.bs.Keys + Images(s, t)
  {
    hide Scope, IsGc, InMap, Covers, EvacFresh, Exhausted, MapsOk, LinesOk, SpaceOk, ObjOk, MembersOk;
    forall i | i in Images(s, t)
      ensures i in t.bs
    {
      var a :| a in Scope(s) && i == Img(t.bs, a);
      ObjectPreserved(s, t, orig, a);
    }
    forall k | k in t.bs && k !in s.bs
      ensures k in Images(s, t)
    {
      assert Img(t.bs, orig[k]) == k;
    }
  }

  // ---------------------------------------------------------------- the trace that moves nothing

  /** The headers after marking the objects of `live`. */
  ghost function MarkAll(hs: Headers, live: set<Ref>, next: bool): Headers {
    map o | o in hs :: if o in live then hs[o].(marked := next) else hs[o]
  }

  /** The records that say exactly where the objects of `live` are. */
  ghost function TracedBlocks(blocks: Blocks, bs: Bodies, live: set<Ref>): Blocks {
    map b | b in blocks :: blocks[b].(
      objectMap := (set o | o in live && o.Immix? && o.block == b :: o.offset),
      lines := seq(NUM_LINES, l requires 0 <= l < NUM_LINES => CountOn(bs, live, b, l)))
  }

  /** The records with which a trace begins: no object is valid, none is counted. */
  ghost predicate Cleared(blocks: Blocks) {
    forall b :: b in blocks ==> blocks[b].objectMap == {} && blocks[b].lines == ZeroLines()
  }

  /** With cleared object maps the evacuation guard is never met, whatever was asked for. */
  lemma ClearedHasNoCandidates(s: Start)
    requires Cleared(s.blocks)
    ensures NoCandidates(s)
  {
    hide Scope;
  }

  /**
    Exactness: from cleared records a trace marks exactly the reachable objects, makes exactly them
    valid, counts each of them once on each of its lines, moves nothing, and changes nothing else.
   */
  lemma TraceIsExact(s: Start, t: Tr, orig: map<Ref, Ref>)
    requires Traced(s, t, orig) && Cleared(s.blocks)
    ensures t.bs == s.bs && t.evac == s.evac
    ensures t.hs == MarkAll(s.hs, Scope(s), s.next)
    ensures t.blocks == TracedBlocks(s.blocks, s.bs, Scope(s))
  {
    hide Scope, IsGc, InMap, Covers, EvacFresh, Exhausted, TraceInv, Candidate;
    ClearedHasNoCandidates(s);
    forall a | a in Scope(s)
      ensures Img(t.bs, a) == a
    {
      ObjectPreserved(s, t, orig, a);
    }
    assert Images(s, t) == Scope(s);
    UnreachableUntouched(s, t, orig);
    forall a | a in Scope(s)
      ensures a in s.bs && a in s.hs && t.bs[a] == s.bs[a] && a in t.hs && t.hs[a] == s.hs[a].(marked := s.next)
    {
      ObjectPreserved(s, t, orig, a);
      InPlaceMembers(s, t, orig, a);
    }
    assert t.bs.Keys == s.bs.Keys;
    assert t.bs == s.bs;
    KeysMatch(s, t, orig);
    assert t.hs == MarkAll(s.hs, Scope(s), s.next);
    ExactBlocks(s, t, orig);
  }

  lemma InPlaceMembers(s: Start, t: Tr, orig: map<Ref, Ref>, a: Ref)
    requires Traced(s, t, orig) && a in Scope(s) && forall c :: c in Scope(s) ==> Img(t.bs, c) == c
    requires a in s.bs && s.bs[a].Plain?
    ensures MapSlots(t.bs, s.bs[a].members) == s.bs[a].members
  {
    hide Scope;
    ReadyChildren(s, a);
  }

  lemma KeysMatch(s: Start, t: Tr, orig: map<Ref, Ref>)
    requires Traced(s, t, orig)
    ensures t.hs.Keys == t.bs.Keys && s.hs.Keys == s.bs.Keys && t.blocks.Keys == s.blocks.Keys
    ensures NoCandidates(s) ==> t.evac == s.evac && forall b :: b in s.blocks ==>
      SameRecord(s.blocks[b], t.blocks[b]) && t.blocks[b].inUse == s.blocks[b].inUse
  {
    hide Scope, IsGc, InMap, Covers, EvacFresh, Exhausted, MapsOk, LinesOk, ObjOk, MembersOk, NoCandidates;
  }

  lemma ExactBlocks(s: Start, t: Tr, orig: map<Ref, Ref>)
    requires Traced(s, t, orig) && Cleared(s.blocks) && t.bs == s.bs
    requires forall a :: a in Scope(s) ==> Img(t.bs, a) == a
    ensures t.blocks == TracedBlocks(s.blocks, s.bs, Scope(s))
  {
    hide Scope, IsGc, Covers, EvacFresh, Exhausted, ObjOk, MembersOk;
    ClearedHasNoCandidates(s);
    KeysMatch(s, t, orig);
    AllDone(s, t, orig);
    var x := TracedBlocks(s.blocks, s.bs, Scope(s));
    forall b | b in s.blocks
      ensures t.blocks[b] == x[b]
    {
      ExactMap(s, t, orig, b);
      ExactLines(s, t, b);
    }
  }

  lemma ExactMap(s: Start, t: Tr, orig: map<Ref, Ref>, b: nat)
    requires b in s.blocks && b in t.blocks && s.blocks[b].objectMap == {} && MapsOk(s, t, orig) && MemoryOk(s, t, orig)
    requires forall a :: a in Scope(s) ==> Img(t.bs, a) == a && Done(s, t, a) && ObjOk(s, t, orig, a)
    ensures t.blocks[b].objectMap == set o | o in Scope(s) && o.Immix? && o.block == b :: o.offset
  {
    hide Scope, IsGc, Candidate, InSpace, Fits, MapsOk, Done;
    forall off: nat
      ensures off in t.blocks[b].objectMap <==> Immix(b, off) in Scope(s)
    {
      var o := Immix(b, off);
      MapsOkOne(s, t, orig, o);
      if o in Scope(s) {
        assert ObjOk(s, t, orig, o);
      }
    }
    forall off | off in t.blocks[b].objectMap
      ensures off in set o | o in Scope(s) && o.Immix? && o.block == b :: o.offset
    {
      assert Immix(b, off).offset == off;
    }
  }

  lemma MapsOkOne(s: Start, t: Tr, orig: map<Ref, Ref>, o: Ref)
    requires MapsOk(s, t, orig)
    ensures InMap(t.blocks, o) <==> InMap(s.blocks, o) || (o.Immix? && o in orig && Done(s, t, orig[o]))
  {
  }

  lemma ExactLines(s: Start, t: Tr, b: nat)
    requires LinesOk(s, t) && Cleared(s.blocks) && b in s.blocks && t.bs == s.bs
    requires forall a :: a in Scope(s) ==> Img(t.bs, a) == a && Done(s, t, a) 
    ensures b in t.blocks
    ensures t.blocks[b].lines == seq(NUM_LINES, l requires 0 <= l < NUM_LINES => CountOn(s.bs, Scope(s), b, l))
  {
    hide Scope, Covers, Done;
    forall l | 0 <= l < NUM_LINES
      ensures t.blocks[b].lines[l] == CountOn(s.bs, Scope(s), b, l)
    {
      assert t.blocks[b].lines[l] == s.blocks[b].lines[l] + Tally(s, t, b, l);
      assert (set a | a in Scope(s) && Counted(s, t, a, b, l)) == set o | o in Scope(s) && CoversLine(s.bs, o, b, l);
    }
  }

  /** The exact records in terms of single objects and lines. */
  lemma TracedBlocksSay(blocks: Blocks, bs: Bodies, live: set<Ref>)
    requires forall o :: o in live && o.Immix? ==> InSpace(blocks, o)
    ensures forall o :: IsGc(TracedBlocks(blocks, bs, live), o) <==> o in live && o.Immix?
    ensures LinesExact(TracedBlocks(blocks, bs, live), bs, live)
  {
    hide CountOn;
    var x := TracedBlocks(blocks, bs, live);
    forall o
      ensures IsGc(x, o) <==> o in live && o.Immix?
    {
      if IsGc(x, o) {
        assert o.offset in set p | p in live && p.Immix? && p.block == o.block :: p.offset;
      }
    }
  }
}
