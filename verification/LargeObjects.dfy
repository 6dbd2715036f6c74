/** The large object space (src/spaces/large_object_space.rs): sets and buffers of addresses. */
module LargeObjects {
  import opened Wrappers
  import opened Objects
  import opened ObjectMemory
  import opened RcModel
  import opened SpacesModel

  class LargeObjectSpace {
    const memory: Memory
    var objects: set<Ref>
    var newObjects: seq<Ref>
    var freeBuffer: seq<Ref>
    var currentLiveMark: bool

    function View(): Los
      reads this
    {
      Los(objects, newObjects, freeBuffer, currentLiveMark)
    }

    constructor (memory: Memory)
      ensures this.memory == memory && View() == Los({}, [], [], false)
    {
      this.memory := memory;
      objects, newObjects, freeBuffer, currentLiveMark := {}, [], [], false;
    }

    method IsGcObject(o: Ref) returns (r: bool)
      ensures r <==> o in objects
    {
      r := o in objects;
    }

    method EnqueueFree(o: Ref)
      modifies this
      ensures View() == old(View()).(freeBuffer := old(freeBuffer) + [o])
    {
      freeBuffer := freeBuffer + [o];
    }

    /** Hands out the new objects and forgets them. */
    method GetNewObjects() returns (r: seq<Ref>)
      modifies this
      ensures r == old(newObjects) && View() == old(View()).(newObjects := [])
    {
      r := newObjects;
      newObjects := [];
    }

    method SetCurrentLiveMark(mark: bool)
      modifies this
      ensures View() == old(View()).(mark := mark)
    {
      currentLiveMark := mark;
    }

    /** What the system allocator has returned: an address that is not in use, or nothing. */
    method Allocate(size: nat, junk: seq<Slot>, address: Option<Ref>) returns (r: Option<Ref>)
      modifies this, memory
      ensures r == address
      ensures match address
        case None =>
          memory.headers == old(memory.headers) && memory.bodies == old(memory.bodies) && View() == old(View())
        case Some(o) =>
          && memory.headers == old(memory.headers)[o := NewHeader(old(currentLiveMark))]
          && memory.bodies == old(memory.bodies)[o := Plain(size, junk)]
          && View() == old(View()).(objects := old(objects) + {o}, newObjects := old(newObjects) + [o])
    {
      r := address;
      if address.Some? {
        memory.Write(address.value, currentLiveMark, size, junk);
        objects := objects + {address.value};
        newObjects := newObjects + [address.value];
      }
    }

    /** Frees what the reference counting collection has put into the buffer, each object once. */
    method ProcessFreeBuffer() returns (freed: seq<Ref>)
      modifies this
      ensures View() == old(View()).(objects := (set o | o in old(objects) && o !in old(freeBuffer)), freeBuffer := [])
      ensures forall o :: o in freed <==> o in old(objects) && o !in objects
      ensures forall i, j :: 0 <= i < j < |freed| ==> freed[i] != freed[j]
    {
      freed := [];
      ghost var done: seq<Ref> := [];
      while freeBuffer != []
        invariant done + freeBuffer == old(freeBuffer)
        invariant View() == old(View()).(objects := (set o | o in old(objects) && o !in done), freeBuffer := freeBuffer)
        invariant forall o :: o in freed <==> o in old(objects) && o in done
        invariant forall i, j :: 0 <= i < j < |freed| ==> freed[i] != freed[j]
        decreases |freeBuffer|
      {
        var o := freeBuffer[0];
        freeBuffer := freeBuffer[1..];
        done := done + [o];
        if o in objects {
          objects := objects - {o};
          freed := freed + [o];
        }
      }
      assert done == old(freeBuffer);
    }

    /** Keeps the objects that carry the next mark and frees the others. */
    method Sweep() returns (freed: set<Ref>)
      requires forall o :: o in objects ==> o in memory.headers
      modifies this
      ensures View() == SweepLos(old(View()), memory.headers)
      ensures freed == old(objects) - objects
    {
      var next := !currentLiveMark;
      var todo, marked := objects, {};
      freed := {};
      while todo != {}
        invariant todo <= objects && objects == old(objects)
        invariant forall o :: o in marked <==> o in objects && o !in todo && memory.headers[o].marked == next
        invariant forall o :: o in freed <==> o in objects && o !in todo && memory.headers[o].marked != next
        decreases |todo|
      {
        var o :| o in todo;
        todo := todo - {o};
        if memory.headers[o].marked == next {
          marked := marked + {o};
        } else {
          freed := freed + {o};
        }
      }
      objects := marked;
    }
  }
}
