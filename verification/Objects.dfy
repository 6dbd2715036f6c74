/**
  Objects and references (src/gc_object.rs). A reference is an address: either a block of the immix
  space and an offset in it, or an address handed out by the system allocator for a large object.
 */
module Objects {
  import opened Wrappers
  import BL = BlockLines

  datatype Ref = Immix(block: nat, offset: nat) | Large(id: nat)

  datatype Header = Header(count: nat, logged: bool, marked: bool, pinned: bool, isNew: bool)

  type Slot = Option<Ref>

  /**
    What lies behind the header: the type information with the members, or, once the object has been
    moved, only the forwarding pointer that replaced the type information.
   */
  datatype Body = Plain(size: nat, members: seq<Slot>) | Forwarded(target: Ref)

  type Headers = map<Ref, Header>
  type Bodies = map<Ref, Body>

  /** The header an allocation writes. */
  function NewHeader(mark: bool): Header {
    Header(0, false, mark, false, true)
  }

  /** What the collector knows nothing about is no object any more: the memory keeps live objects only. */
  function Forget<V>(m: map<Ref, V>, live: set<Ref>): map<Ref, V> {
    map o | o in m && o in live :: m[o]
  }

  /** The members that are not null, in order: what the child iterator yields. */
  function NonNull(ms: seq<Slot>): seq<Ref> {
    if ms == [] then []
    else if ms[0].Some? then [ms[0].value] + NonNull(ms[1..])
    else NonNull(ms[1..])
  }

  function Children(b: Body): (r: seq<Ref>) {
    if b.Plain? then NonNull(b.members) else []
  }

  lemma {:induction false} NonNullMember(ms: seq<Slot>, c: Ref)
    ensures c in NonNull(ms) <==> Some(c) in ms
  {
    if ms != [] {
      NonNullMember(ms[1..], c);
      assert Some(c) in ms <==> Some(c) == ms[0] || Some(c) in ms[1..];
    }
  }

  lemma {:induction false} NonNullConcat(a: seq<Slot>, b: seq<Slot>)
    ensures NonNull(a + b) == NonNull(a) + NonNull(b)
  {
    if a == [] {
      assert a + b == b;
    } else {
      NonNullConcat(a[1..], b);
      assert (a + b)[0] == a[0] && (a + b)[1..] == a[1..] + b;
    }
  }

  lemma NonNullPush(a: seq<Slot>, s: Slot)
    ensures NonNull(a + [s]) == NonNull(a) + (if s.Some? then [s.value] else [])
  {
    NonNullConcat(a, [s]);
    assert NonNull([s]) == if s.Some? then [s.value] else [] by { assert [s][1..] == []; }
  }

  /** The lines of its block on which the object is counted. */
  predicate CoversLine(bs: Bodies, o: Ref, block: nat, line: int) {
    && o in bs && o.Immix? && o.block == block && bs[o].Plain?
    && BL.Covers(o.offset, bs[o].size, line)
  }
}

/**
  The bytes of objects: a header word array and what follows it, addressed by reference. The source
  reaches them through raw pointers, so they are one mutable memory here.
 */
module ObjectMemory {
  import opened Wrappers
  import opened Objects

  class Memory {
    var headers: Headers
    var bodies: Bodies

    constructor ()
      ensures headers == map[] && bodies == map[]
    {
      headers, bodies := map[], map[];
    }

    /** Writes a new object: its header, its size, and whatever the memory of its members held. */
    method Write(o: Ref, mark: bool, size: nat, members: seq<Slot>)
      modifies this
      ensures headers == old(headers)[o := NewHeader(mark)]
      ensures bodies == old(bodies)[o := Plain(size, members)]
    {
      headers := headers[o := Header(0, false, mark, false, true)];
      bodies := bodies[o := Plain(size, members)];
    }

    /** Sets the logged state and returns the previous one. */
    method SetLogged(o: Ref, value: bool) returns (was: bool)
      requires o in headers
      modifies this`headers
      ensures was == old(headers[o].logged)
      ensures headers == old(headers)[o := old(headers[o]).(logged := value)]
    {
      was := headers[o].logged;
      headers := headers[o := headers[o].(logged := value)];
    }

    /** Sets the mark and returns whether the object carried it already. */
    method SetMarked(o: Ref, next: bool) returns (unchangedMark: bool)
      requires o in headers
      modifies this`headers
      ensures unchangedMark <==> old(headers[o].marked) == next
      ensures headers == old(headers)[o := old(headers[o]).(marked := next)]
    {
      var was := headers[o].marked;
      headers := headers[o := headers[o].(marked := next)];
      unchangedMark := was == next;
    }

    method SetPinned(o: Ref, value: bool)
      requires o in headers
      modifies this`headers
      ensures headers == old(headers)[o := old(headers[o]).(pinned := value)]
    {
      headers := headers[o := headers[o].(pinned := value)];
    }

    /** Counts one more reference, clears the new state and returns its previous value. */
    method Increment(o: Ref) returns (wasNew: bool)
      requires o in headers
      modifies this`headers
      ensures wasNew == old(headers[o].isNew)
      ensures headers == old(headers)[o := old(headers[o]).(count := old(headers[o].count) + 1, isNew := false)]
    {
      headers := headers[o := headers[o].(count := headers[o].count + 1)];
      wasNew := headers[o].isNew;
      if wasNew {
        headers := headers[o := headers[o].(isNew := false)];
      }
    }

    /** Counts one reference less and returns whether this dropped the count to zero; zero stays zero. */
    method Decrement(o: Ref) returns (dropped: bool)
      requires o in headers
      modifies this`headers
      ensures dropped <==> old(headers[o].count) == 1
      ensures headers == if old(headers[o].count) == 0 then old(headers)
                         else old(headers)[o := old(headers[o]).(count := old(headers[o].count) - 1)]
    {
      if headers[o].count == 0 {
        return false;
      }
      headers := headers[o := headers[o].(count := headers[o].count - 1)];
      dropped := headers[o].count == 0;
    }

    /** Overwrites the type information with a forwarding pointer. */
    method SetForwarded(o: Ref, target: Ref)
      requires o in bodies
      modifies this`bodies
      ensures bodies == old(bodies)[o := Forwarded(target)]
    {
      bodies := bodies[o := Forwarded(target)];
    }

    /** Copies header and contents to another address. */
    method Copy(from: Ref, to: Ref)
      requires from in headers && from in bodies
      modifies this
      ensures headers == old(headers)[to := old(headers[from])]
      ensures bodies == old(bodies)[to := old(bodies[from])]
    {
      headers := headers[to := headers[from]];
      bodies := bodies[to := bodies[from]];
    }

    method SetMember(o: Ref, num: nat, member: Slot)
      requires o in bodies && bodies[o].Plain? && num < |bodies[o].members|
      modifies this`bodies
      ensures bodies == old(bodies)[o := old(bodies[o]).(members := old(bodies[o].members)[num := member])]
    {
      bodies := bodies[o := bodies[o].(members := bodies[o].members[num := member])];
    }

    /** What is no object any more is free memory, of which nothing is known. */
    method Retain(live: set<Ref>)
      modifies this
      ensures headers == Forget(old(headers), live) && bodies == Forget(old(bodies), live)
    {
      headers := map o | o in headers && o in live :: headers[o];
      bodies := map o | o in bodies && o in live :: bodies[o];
    }
  }

  /** Iterates over the members of an object that are not null, reading each one when it is due. */
  class ChildIter {
    const memory: Memory
    const parent: Ref
    var num: nat

    constructor (memory: Memory, parent: Ref)
      ensures this.memory == memory && this.parent == parent && num == 0
    {
      this.memory, this.parent, num := memory, parent, 0;
    }

    ghost predicate Valid()
      reads this, memory
    {
      parent in memory.bodies && memory.bodies[parent].Plain? && num <= |memory.bodies[parent].members|
    }

    method Next() returns (child: Slot)
      requires Valid()
      modifies this
      ensures Valid()
      ensures var ms := memory.bodies[parent].members;
        && NonNull(ms[old(num)..]) == (if child.Some? then [child.value] + NonNull(ms[num..]) else [])
        && (if child.Some? then old(num) < num && ms[num - 1] == child else num == |ms|)
        && forall k :: old(num) <= k < (if child.Some? then num - 1 else num) ==> ms[k] == None
    {
      ghost var ms := memory.bodies[parent].members;
      while num < |memory.bodies[parent].members|
        invariant old(num) <= num <= |ms|
        invariant NonNull(ms[old(num)..]) == NonNull(ms[num..])
        invariant forall k :: old(num) <= k < num ==> ms[k] == None
      {
        child := memory.bodies[parent].members[num];
        num := num + 1;
        assert ms[num - 1..][1..] == ms[num..];
        if child.Some? {
          return;
        }
      }
      child := None;
    }
  }
}
