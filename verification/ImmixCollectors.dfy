/**
  The tracing collector (src/spaces/collector/immix_collector.rs): the worklist loop over the memory,
  the records and the evacuation allocator, proved against the invariant of `TraceProofs`.
 */
module ImmixCollectors {
  import opened Constants
  import opened Wrappers
  import opened Objects
  import opened ObjectMemory
  import opened BlockLines
  import opened BlockTables
  import opened BlockRecords
  import opened Allocators
  import opened AllocatorModel
  import opened TraceModel
  import opened TraceProofs
  import opened TraceTheorems
  import opened ImmixSpaces

  class ImmixCollector {

    /** One child, the `num`-th that is not null. */
    static method ProcessChild(object': Ref, num: nat, child: Ref, evac: bool, space: ImmixSpace, next: bool,
        queue: seq<Ref>)
      returns (queue': seq<Ref>)
      requires space.Valid()
      requires var t := space.TraceView(queue);
        && object' in t.hs && object' in t.bs && t.bs[object'].Plain? && num < |t.bs[object'].members|
        && t.hs[object'].marked == next
        && child in t.hs && child in t.bs && EvacFresh(t.evac, t.blocks, t.bs.Keys)
        && (t.bs[child].Plain? && child.Immix? ==> 0 < ObjectSize(t.bs[child].size) <= LAST_OFFSET - LINE_SIZE)
      modifies space.memory, space.table.Cells(), space.evacAllocator
      ensures space.Valid()
      ensures space.TraceView(queue') == TraceChild(old(space.TraceView(queue)), object', num, child, next, evac)
    {
      hide BlockTable.Blocks, BlockAllocator.Valid, EvacFresh, EvacKnown, EvacAllocate, SetGc;
      ghost var t := space.TraceView(queue);
      EvacFreshKnown(t.evac, t.blocks, t.bs.Keys);
      var memory := space.memory;
      queue' := queue;
      if memory.bodies[child].Forwarded? {
        memory.SetMember(object', num, Some(memory.bodies[child].target));
        assert space.table.Blocks() == t.blocks;
      } else if memory.headers[child].marked != next {
        var at := child;
        var movable := false;
        if evac {
          movable := space.IsGcObject(child);
        }
        if movable {
          EvacAllocateAddress(t.evac, t.blocks, t.bs.Keys, ObjectSize(t.bs[child].size));
          var moved := space.MaybeEvacuate(child, queue);
          if moved.Some? {
            ghost var t' := space.TraceView(queue);
            memory.SetMember(object', num, Some(moved.value));
            assert space.table.Blocks() == t'.blocks;
            at := moved.value;
          }
        }
        queue' := queue + [at];
      }
    }

    /** All children of a newly marked object, with the index of each among those that are not null. */
    static method ProcessChildren(object': Ref, evac: bool, space: ImmixSpace, next: bool, queue: seq<Ref>,
        ghost s: Start, ghost orig: map<Ref, Ref>, ghost x: Ref)
      returns (queue': seq<Ref>, ghost orig': map<Ref, Ref>)
      requires space.Valid() && s.next == next && s.evacOn == evac
      requires InProgress(s, space.TraceView(queue), orig, x, 0) && Img(space.memory.bodies, x) == object'
      modifies space.memory, space.table.Cells(), space.evacAllocator
      ensures space.Valid() && TraceInv(s, space.TraceView(queue'), orig')
      ensures DoneSet(s, space.TraceView(queue')) == DoneSet(s, old(space.TraceView(queue)))
    {
      hide BlockTable.Blocks, BlockAllocator.Valid, InProgress, TraceInv, DoneSet, TraceChild, Img, EvacFresh, NonNull;
      queue', orig' := queue, orig;
      ghost var before := DoneSet(s, space.TraceView(queue));
      MembersRest(s, space.TraceView(queue), orig, x, 0);
      ghost var ms := s.bs[x].members;
      var iter := new ChildIter(space.memory, object');
      assert space.table.Blocks() == old(space.table.Blocks());
      var num := 0;
      NoneBefore(ms);
      while true
        invariant space.Valid() && iter.Valid() && fresh(iter) && iter.memory == space.memory && iter.parent == object'
        invariant x in s.bs && s.bs[x].Plain? && ms == s.bs[x].members && iter.num <= |ms|
        invariant InProgress(s, space.TraceView(queue'), orig', x, iter.num)
        invariant Img(space.memory.bodies, x) == object' && DoneSet(s, space.TraceView(queue')) == before
        invariant num == |NonNull(ms[..iter.num])|
        decreases |ms| - iter.num
      {
        ghost var t := space.TraceView(queue');
        ghost var from := iter.num;
        MembersRest(s, t, orig', x, from);
        var child := iter.Next();
        assert space.TraceView(queue') == t;
        if child.None? {
          SkipNulls(s, t, orig', x, from, |ms|);
          break;
        }
        ghost var pos := iter.num - 1;
        SkipNulls(s, t, orig', x, from, pos);
        IndexSteps(ms, from, pos);
        IndexMatters(s, t, orig', x, pos);
        ghost var orig'' := ChildStep(s, t, orig', x, pos);
        queue' := ProcessChild(object', num, child.value, evac, space, next, queue');
        orig' := orig'';
        num := num + 1;
        MembersRest(s, space.TraceView(queue'), orig', x, pos + 1);
      }
      ProgressEnds(s, space.TraceView(queue'), orig', x);
    }

    /** Takes an object off the queue; returns whether it has to be processed, being newly marked. */
    static method PopObject(space: ImmixSpace, next: bool, queue: seq<Ref>, ghost s: Start, ghost orig: map<Ref, Ref>)
      returns (object': Ref, queue': seq<Ref>, process: bool)
      requires space.Valid() && s.next == next && queue != [] && TraceInv(s, space.TraceView(queue), orig)
      modifies space.memory, space.table.Cells()
      ensures space.Valid() && object' == queue[0] && object' in orig
      ensures var t, t' := old(space.TraceView(queue)), space.TraceView(queue');
        if process then
          && InProgress(s, t', orig, orig[object'], 0) && Img(t'.bs, orig[object']) == object'
          && DoneSet(s, t') == DoneSet(s, t) + {orig[object']} && orig[object'] !in DoneSet(s, t)
        else TraceInv(s, t', orig) && DoneSet(s, t') == DoneSet(s, t) && |queue'| < |queue|
    {
      hide BlockTable.Blocks, BlockAllocator.Valid, TraceInv, InProgress, DoneSet, Img, InSpace;
      ghost var t := space.TraceView(queue);
      QueueHead(s, t, orig);
      object' := queue[0];
      queue' := queue[1..];
      var same := space.memory.SetMarked(object', next);
      assert space.table.Blocks() == t.blocks;
      process := !same;
      if same {
        assert space.memory.headers == t.hs;
        PopMarked(s, t, orig);
        assert space.TraceView(queue') == t.(queue := t.queue[1..]);
      } else {
        PopUnmarked(s, t, orig);
        var inSpace := space.IsInSpace(object');
        if inSpace {
          space.SetGcObject(object');
          space.IncrementLines(object');
        }
        assert space.TraceView(queue') == MarkObject(t.(queue := t.queue[1..]), object', next);
      }
    }

    /**
      The whole trace. What it has done when it ends, `TraceTheorems` says: the graph is preserved,
      and from cleared records the result is exact.
     */
    static method Collect(evac: bool, roots: seq<Ref>, space: ImmixSpace, next: bool, ghost s: Start)
      returns (ghost orig: map<Ref, Ref>)
      requires space.Valid() && StartOk(s)
      requires s == Start(space.memory.headers, space.memory.bodies, space.table.Blocks(), space.evacAllocator.View(),
        roots, next, evac)
      modifies space.memory, space.table.Cells(), space.evacAllocator
      ensures space.Valid() && Traced(s, space.TraceView([]), orig)
    {
      hide BlockTable.Blocks, BlockAllocator.Valid, TraceInv, InProgress, DoneSet, StartOk, Img;
      var queue := roots;
      orig := Identity(s);
      TraceBegins(s);
      while queue != []
        invariant space.Valid() && TraceInv(s, space.TraceView(queue), orig)
        decreases |Scope(s) - DoneSet(s, space.TraceView(queue))|, |queue|
      {
        ghost var t := space.TraceView(queue);
        QueueHead(s, t, orig);
        var object', rest, process := PopObject(space, next, queue, s, orig);
        queue := rest;
        if process {
          ghost var x := orig[object'];
          queue, orig := ProcessChildren(object', evac, space, next, queue, s, orig, x);
          FewerLeft(s, t, space.TraceView(queue), x);
        }
      }
    }
  }

  /** The members of the image that have not been processed are those of the object. */
  lemma MembersRest(s: Start, t: Tr, orig: map<Ref, Ref>, x: Ref, pos: nat)
    requires InProgress(s, t, orig, x, pos)
    ensures x in s.bs && s.bs[x].Plain?
    ensures var i, ms := Img(t.bs, x), s.bs[x].members;
      && i in t.bs && t.bs[i].Plain? && pos <= |ms| && |t.bs[i].members| == |ms|
      && forall k :: pos <= k < |ms| ==> t.bs[i].members[k] == ms[k]
  {
    hide Scope, MemoryOk, SpaceOk, MapsOk, LinesOk, ObjOk, MembersOk, StartOk, Done, Seen;
  }

  lemma {:induction false} SkipNulls(s: Start, t: Tr, orig: map<Ref, Ref>, x: Ref, pos: nat, end: nat)
    requires x in s.bs && s.bs[x].Plain? && pos <= end <= |s.bs[x].members|
    requires InProgress(s, t, orig, x, pos) && forall k :: pos <= k < end ==> s.bs[x].members[k] == None
    ensures InProgress(s, t, orig, x, end)
    decreases end - pos
  {
    hide InProgress;
    if pos < end {
      MemberSkip(s, t, orig, x, pos);
      SkipNulls(s, t, orig, x, pos + 1, end);
    }
  }

  lemma NoneBefore(ms: seq<Slot>)
    ensures |NonNull(ms[..0])| == 0
  {
  }

  /** The index of a child among those that are not null. */
  function IndexOf(ms: seq<Slot>, pos: nat): nat
    requires pos <= |ms|
  {
    |NonNull(ms[..pos])|
  }

  lemma {:induction false} IndexSteps(ms: seq<Slot>, from: nat, pos: nat)
    requires from <= pos < |ms| && ms[pos].Some? && forall k :: from <= k < pos ==> ms[k] == None
    ensures IndexOf(ms, pos) == IndexOf(ms, from) <= pos && IndexOf(ms, pos + 1) == IndexOf(ms, from) + 1
    decreases pos
  {
    assert ms[..pos + 1] == ms[..pos] + [ms[pos]];
    NonNullPush(ms[..pos], ms[pos]);
    IndexBound(ms, pos);
    SameIndex(ms, from, pos);
  }

  lemma {:induction false} SameIndex(ms: seq<Slot>, from: nat, pos: nat)
    requires from <= pos <= |ms| && forall k :: from <= k < pos ==> ms[k] == None
    ensures IndexOf(ms, pos) == IndexOf(ms, from)
    decreases pos - from
  {
    if from < pos {
      assert ms[..pos] == ms[..pos - 1] + [ms[pos - 1]];
      NonNullPush(ms[..pos - 1], ms[pos - 1]);
      SameIndex(ms, from, pos - 1);
    }
  }

  lemma {:induction false} IndexBound(ms: seq<Slot>, pos: nat)
    requires pos <= |ms|
    ensures IndexOf(ms, pos) <= pos
    ensures IndexOf(ms, pos) == pos <==> forall k :: 0 <= k < pos ==> ms[k].Some?
    decreases pos
  {
    if pos > 0 {
      assert ms[..pos] == ms[..pos - 1] + [ms[pos - 1]];
      NonNullPush(ms[..pos - 1], ms[pos - 1]);
      IndexBound(ms, pos - 1);
    }
  }

  /**
    Members are updated at the index of the child among those that are not null. For all children
    this is the child's own member exactly if the null members come last.
   */
  lemma IndexIsPosition(ms: seq<Slot>)
    ensures (forall pos :: 0 <= pos < |ms| && ms[pos].Some? ==> IndexOf(ms, pos) == pos) <==> NonNullFirst(ms)
  {
    forall pos | 0 <= pos < |ms| && ms[pos].Some?
      ensures IndexOf(ms, pos) == pos <==> forall k :: 0 <= k < pos ==> ms[k].Some?
    {
      IndexBound(ms, pos);
    }
  }

  /** The index does not matter if nothing can be moved, and otherwise it is the position. */
  lemma IndexMatters(s: Start, t: Tr, orig: map<Ref, Ref>, x: Ref, pos: nat)
    requires InProgress(s, t, orig, x, pos) && x in s.bs && s.bs[x].Plain? && pos < |s.bs[x].members|
    requires s.bs[x].members[pos].Some?
    ensures var c, o, num := s.bs[x].members[pos].value, Img(t.bs, x), IndexOf(s.bs[x].members, pos);
      && o in t.hs && o in t.bs && t.bs[o].Plain? && pos < |t.bs[o].members| && num < |t.bs[o].members|
      && t.hs[o].marked == s.next && c in t.hs && c in t.bs && EvacFresh(t.evac, t.blocks, t.bs.Keys)
      && (t.bs[c].Plain? && c.Immix? ==> 0 < ObjectSize(t.bs[c].size) <= LAST_OFFSET - LINE_SIZE)
      && TraceChild(t, o, num, c, s.next, s.evacOn) == TraceChild(t, o, pos, c, s.next, s.evacOn)
  {
    hide InProgress, Scope, ObjOk, MapsOk, SpaceOk, Fits, InSpace, EvacFresh, EvacAllocate, NonNull, Seen;
    var ms := s.bs[x].members;
    ChildKnown(s, t, orig, x, pos);
    IndexBound(ms, pos);
    if NoCandidates(s) {
      NothingMoves(s, t, orig, x, pos);
    } else {
      FirstInProgress(s, t, orig, x, pos);
      IndexIsPosition(ms);
    }
  }

  lemma FirstInProgress(s: Start, t: Tr, orig: map<Ref, Ref>, x: Ref, pos: nat)
    requires InProgress(s, t, orig, x, pos) && !NoCandidates(s)
    ensures x in s.bs && s.bs[x].Plain? && NonNullFirst(s.bs[x].members)
  {
    hide Scope, MemoryOk, SpaceOk, MapsOk, LinesOk, ObjOk, MembersOk, MembersUpTo, Done, Seen, NoCandidates;
    assert ObjectReady(s, x);
  }

  lemma NothingMoves(s: Start, t: Tr, orig: map<Ref, Ref>, x: Ref, pos: nat)
    requires InProgress(s, t, orig, x, pos) && NoCandidates(s) && x in s.bs && s.bs[x].Plain?
    requires pos < |s.bs[x].members| && s.bs[x].members[pos].Some?
    ensures var c := s.bs[x].members[pos].value;
      && c in t.bs && c in t.hs && t.bs[c].Plain?
      && (s.evacOn && t.hs[c].marked != s.next && IsGc(t.blocks, c) ==> !Movable(t.hs, t.blocks, c))
  {
    hide Scope, MapsOk, SpaceOk, Fits, InSpace, EvacFresh, Seen, Movable, IsGc, Candidate, InProgress;
    var c := s.bs[x].members[pos].value;
    ChildKnown(s, t, orig, x, pos);
    assert !Candidate(s, c);
    ImageOfChild(s, t, orig, c);
    ProgressParts(s, t, orig, x, pos);
    ScopeReady(s, c);
    if t.hs[c].marked != s.next {
      UnmarkedNotDone(s, t, c);
      GuardsLast(s, t, orig, c);
    }
  }

  lemma ImageOfChild(s: Start, t: Tr, orig: map<Ref, Ref>, c: Ref)
    requires ObjOk(s, t, orig, c) && !Candidate(s, c)
    ensures Img(t.bs, c) == c && c in t.bs && t.bs[c].Plain?
  {
    hide Candidate, InSpace, Fits, Seen, Done, Exhausted;
  }

  lemma FewerLeft(s: Start, t: Tr, t': Tr, x: Ref)
    requires x in Scope(s) && x !in DoneSet(s, t) && DoneSet(s, t') == DoneSet(s, t) + {x}
    ensures |Scope(s) - DoneSet(s, t')| < |Scope(s) - DoneSet(s, t)|
  {
    hide Scope, DoneSet;
    assert Scope(s) - DoneSet(s, t) == Scope(s) - DoneSet(s, t') + {x};
  }
}
