/** What the mutator's steps do to an idle heap, and why a barrier on a new object breaks it. */
module MutatorProofs {
  import opened Constants
  import opened Wrappers
  import opened Objects
  import opened BlockLines
  import opened BlockInfos
  import opened BlockTables
  import opened Graph
  import opened RcModel
  import opened RcProofs
  import opened RcTheorems

  // ---------------------------------------------------------------- members

  /** The members of an object that does not contribute may change to any valid objects. */
  lemma MembersMayChange(g: Rc, o: Ref, ms: seq<Slot>, exact: bool)
    requires Idle(g, exact) && o in g.hs && o in g.bs && g.bs[o].Plain? && (g.hs[o].isNew || g.hs[o].logged)
    requires forall c :: Some(c) in ms ==> c in g.bs
    ensures Idle(g.(bs := g.bs[o := Plain(g.bs[o].size, ms)]), exact)
  {
    hide *;
    IdleParts(g, exact);
    MembersWf(g, o, ms);
    MembersDebt(g, o, ms, exact);
    MembersLines(g, o, ms);
    MembersHeaders(g, o, ms);
    IdleFrom(g.(bs := g.bs[o := Plain(g.bs[o].size, ms)]), exact);
  }

  lemma MembersHeaders(g: Rc, o: Ref, ms: seq<Slot>)
    requires Wf(g) && ModsOk(g) && HeadersOk(g) && ModsLogged(g) && MapsExact(g) && NewExact(g)
    requires o in g.bs && g.bs[o].Plain? && Wf(g.(bs := g.bs[o := Plain(g.bs[o].size, ms)]))
    ensures var g' := g.(bs := g.bs[o := Plain(g.bs[o].size, ms)]);
      ModsOk(g') && HeadersOk(g') && ModsLogged(g') && MapsExact(g') && NewExact(g')
  {
    hide Wf, IsGc, IsNewObject;
    var g' := g.(bs := g.bs[o := Plain(g.bs[o].size, ms)]);
    forall x | x in g'.hs
      ensures HeaderOk(g', x)
    {
      assert HeaderOk(g, x);
    }
  }

  lemma MembersWf(g: Rc, o: Ref, ms: seq<Slot>)
    requires Wf(g) && o in g.bs && g.bs[o].Plain? && forall c :: Some(c) in ms ==> c in g.bs
    ensures Wf(g.(bs := g.bs[o := Plain(g.bs[o].size, ms)]))
  {
    hide InSpace, NonNull;
    forall c | c in NonNull(ms)
      ensures c in g.bs
    {
      NonNullMember(ms, c);
    }
  }

  lemma MembersDebt(g: Rc, o: Ref, ms: seq<Slot>, exact: bool)
    requires Wf(g) && HeadersOk(g) && o in g.bs && g.bs[o].Plain? && (g.hs[o].isNew || g.hs[o].logged)
    requires Counts(g.hs, multiset{}, Debt(g), exact)
    ensures var g' := g.(bs := g.bs[o := Plain(g.bs[o].size, ms)]);
      Wf(g') ==> Counts(g'.hs, multiset{}, Debt(g'), exact)
  {
    hide Wf, InRefs, Counts;
    WfKeys(g);
    var g' := g.(bs := g.bs[o := Plain(g.bs[o].size, ms)]);
    if Wf(g') {
      assert HeaderOk(g, o);
      assert o !in Contributing(g);
      assert Contributing(g') == Contributing(g);
      InRefsFrame(g.bs, g'.bs, Contributing(g));
      assert Debt(g') == Debt(g);
    }
  }

  lemma MembersLines(g: Rc, o: Ref, ms: seq<Slot>)
    requires Wf(g) && o in g.bs && g.bs[o].Plain? && LinesAtLeast(g.blocks, g.bs, OldSet(g))
    ensures var g' := g.(bs := g.bs[o := Plain(g.bs[o].size, ms)]); LinesAtLeast(g'.blocks, g'.bs, OldSet(g'))
  {
    hide Closed, LinesAtLeast, IsGc;
    var g' := g.(bs := g.bs[o := Plain(g.bs[o].size, ms)]);
    assert OldSet(g') == OldSet(g);
    LinesFrame(g.blocks, g.blocks, g.bs, g'.bs, OldSet(g));
  }

  // ---------------------------------------------------------------- the write barrier

  /**
    The write barrier keeps the heap in order exactly if the object is not new. For an old object the
    members it held until now move from what it contributes into the decrement buffer; a new object
    would enter the modified buffer a second time when the collector first meets it.
   */
  lemma BarrierKeepsExactlyIfOld(g: Rc, o: Ref, exact: bool)
    requires Idle(g, exact) && o in g.hs && o in g.bs
    ensures Idle(WriteBarrier(g, o), exact) <==> !g.hs[o].isNew
  {
    hide InRefs, LinesAtLeast, IsGc, IsNewObject, Closed, Children;
    assert HeaderOk(g, o);
    var r := WriteBarrier(g, o);
    if g.hs[o].isNew {
      assert !HeaderOk(r, o);
    } else if !g.hs[o].logged {
      BarrierKeeps(g, o, exact);
    }
  }

  lemma BarrierKeeps(g: Rc, o: Ref, exact: bool)
    requires Idle(g, exact) && o in g.hs && o in g.bs && !g.hs[o].isNew && !g.hs[o].logged
    ensures Idle(WriteBarrier(g, o), exact)
  {
    var r := WriteBarrier(g, o);
    BarrierStructure(g, o);
    BarrierDebt(g, o, exact);
    hide Wf, ModsOk, HeadersOk, ModsLogged, MapsExact, NewExact, Counts, Debt, LinesAtLeast, IsGc;
    assert OldSet(r) == OldSet(g);
  }

  lemma BarrierStructure(g: Rc, o: Ref)
    requires Wf(g) && ModsOk(g) && HeadersOk(g) && ModsLogged(g) && MapsExact(g) && NewExact(g)
    requires o in g.hs && o in g.bs && !g.hs[o].isNew && !g.hs[o].logged
    ensures var r := WriteBarrier(g, o);
      Wf(r) && ModsOk(r) && HeadersOk(r) && ModsLogged(r) && MapsExact(r) && NewExact(r)
  {
    hide *;
    BarrierWf(g, o);
    BarrierHeaders(g, o);
    BarrierMaps(g, o);
  }

  lemma BarrierWf(g: Rc, o: Ref)
    requires Wf(g) && o in g.hs && o in g.bs
    ensures Wf(WriteBarrier(g, o))
  {
    hide Closed, InSpace, Fits;
    WfChildren(g, o);
  }

  lemma BarrierHeaders(g: Rc, o: Ref)
    requires Wf(g) && ModsOk(g) && HeadersOk(g) && ModsLogged(g)
    requires o in g.hs && o in g.bs && !g.hs[o].isNew && !g.hs[o].logged && Wf(WriteBarrier(g, o))
    ensures var r := WriteBarrier(g, o); ModsOk(r) && HeadersOk(r) && ModsLogged(r)
  {
    hide Wf, Children;
    var r := WriteBarrier(g, o);
    assert o !in g.mods;
    forall x | x in r.hs
      ensures HeaderOk(r, x)
    {
      assert HeaderOk(g, x);
    }
  }

  lemma BarrierMaps(g: Rc, o: Ref)
    requires MapsExact(g) && NewExact(g) && o in g.hs && o in g.bs
    ensures MapsExact(WriteBarrier(g, o)) && NewExact(WriteBarrier(g, o))
  {
    hide IsGc, IsNewObject, Children;
  }

  lemma BarrierDebt(g: Rc, o: Ref, exact: bool)
    requires Wf(g) && HeadersOk(g) && ModsLogged(g) && Counts(g.hs, multiset{}, Debt(g), exact)
    requires o in g.hs && o in g.bs && !g.hs[o].isNew && !g.hs[o].logged && Wf(WriteBarrier(g, o))
    ensures Counts(WriteBarrier(g, o).hs, multiset{}, Debt(WriteBarrier(g, o)), exact)
  {
    hide InRefs, Children, Closed;
    var r := WriteBarrier(g, o);
    assert o in Contributing(g);
    assert Contributing(r) == Contributing(g) - {o};
    InRefsSplit(g.bs, Contributing(g), o);
    var kids := multiset(Children(g.bs[o]));
    assert Debt(r) == Debt(g);
  }

  // ---------------------------------------------------------------- allocation

  /** A search for room may take an empty block into use, and changes no other record. */
  ghost predicate OnlyEmptyTaken(blocks: Blocks, blocks': Blocks) {
    && blocks.Keys <= blocks'.Keys
    && (forall b :: b in blocks ==>
          blocks'[b] == blocks[b] || (blocks[b] == EmptyBlock() && blocks'[b] == EmptyBlock().(inUse := true)))
    && (forall b :: b in blocks' && b !in blocks ==> blocks'[b] == EmptyBlock().(inUse := true))
  }

  lemma EmptyTakenKeeps(g: Rc, blocks': Blocks, exact: bool)
    requires Idle(g, exact) && OnlyEmptyTaken(g.blocks, blocks')
    ensures Idle(g.(blocks := blocks'), exact)
  {
    hide *;
    IdleParts(g, exact);
    EmptyTakenMaps(g.blocks, blocks');
    EmptyTakenLines(g, blocks');
    RecordsFrame(g, blocks', exact);
    IdleFrom(g.(blocks := blocks'), exact);
  }

  /** An idle heap depends on what records say about its objects. */
  lemma RecordsFrame(g: Rc, blocks': Blocks, exact: bool)
    requires Wf(g) && ModsOk(g) && HeadersOk(g) && ModsLogged(g) && MapsExact(g) && NewExact(g)
    requires Counts(g.hs, multiset{}, Debt(g), exact)
    requires forall o :: IsGc(blocks', o) == IsGc(g.blocks, o)
    requires forall o :: IsNewObject(blocks', o) == IsNewObject(g.blocks, o)
    requires forall o :: o in g.bs && InSpace(g.blocks, o) ==> InSpace(blocks', o)
    ensures var g' := g.(blocks := blocks');
      && Wf(g') && ModsOk(g') && HeadersOk(g') && ModsLogged(g') && MapsExact(g') && NewExact(g')
      && Counts(g'.hs, multiset{}, Debt(g'), exact) && OldSet(g') == OldSet(g)
  {
    hide IsGc, InSpace, IsNewObject, InRefs, Closed, NoDup, Fits;
    var g' := g.(blocks := blocks');
    forall x | x in g'.hs
      ensures HeaderOk(g', x)
    {
      assert HeaderOk(g, x);
    }
    assert Contributing(g') == Contributing(g);
  }

  lemma EmptyTakenMaps(blocks: Blocks, blocks': Blocks)
    requires OnlyEmptyTaken(blocks, blocks')
    ensures forall o :: IsGc(blocks', o) == IsGc(blocks, o)
    ensures forall o :: IsNewObject(blocks', o) == IsNewObject(blocks, o)
    ensures forall o :: InSpace(blocks, o) ==> InSpace(blocks', o)
  {
  }

  lemma EmptyTakenLines(g: Rc, blocks': Blocks)
    requires Wf(g) && MapsExact(g) && OnlyEmptyTaken(g.blocks, blocks') && LinesAtLeast(g.blocks, g.bs, OldSet(g))
    ensures var g' := g.(blocks := blocks'); LinesAtLeast(blocks', g.bs, OldSet(g'))
  {
    hide Closed, Covers, LosOk, Fits;
    EmptyTakenMaps(g.blocks, blocks');
    var g' := g.(blocks := blocks');
    var s := OldSet(g);
    assert OldSet(g') == s;
    forall b, l {:trigger CountOn(g.bs, s, b, l)} | b in blocks' && 0 <= l < NUM_LINES
      ensures blocks'[b].lines[l] >= CountOn(g.bs, s, b, l)
    {
      if b in g.blocks && blocks'[b] == g.blocks[b] {
        assert g.blocks[b].lines[l] >= CountOn(g.bs, s, b, l);
      } else {
        assert (set x | x in s && CoversLine(g.bs, x, b, l)) == {};
      }
    }
  }

  /** A new object with null members, valid and new in its space, leaves the heap idle. */
  lemma NewObjectKeeps(g: Rc, o: Ref, mark: bool, size: nat, n: nat, r: Rc, exact: bool)
    requires Idle(g, exact) && o !in g.hs && o !in g.bs
    requires o.Immix? ==> InSpace(g.blocks, o) && Fits(o.offset, size)
    requires r == g.(hs := g.hs[o := NewHeader(mark)], bs := g.bs[o := Plain(size, seq(n, _ => None))],
      blocks := r.blocks, los := r.los)
    requires if o.Immix? then r.blocks == SetGc(SetNew(g.blocks, o), o) && r.los == g.los
      else r.blocks == g.blocks && r.los == g.los.(objects := g.los.objects + {o}, newObjects := g.los.newObjects + [o])
    ensures Idle(r, exact)
  {
    NewObjectWf(g, o, mark, size, n, r, exact);
    NewObjectMaps(g, o, mark, size, n, r);
    NewObjectDebt(g, o, mark, size, n, r, exact);
    NewObjectLines(g, o, mark, size, n, r);
    hide IsGc, InSpace, IsNewObject, LinesAtLeast, InRefs, Counts, Closed, NoDup, Debt, MapsExact, NewExact, Wf;
  }

  lemma NullChildren(n: nat)
    ensures NonNull(seq(n, _ => None)) == []
  {
    if n > 0 {
      NullChildren(n - 1);
      var s: seq<Slot> := seq(n, _ => None);
      assert s[1..] == seq(n - 1, _ => None);
    }
  }

  lemma NewObjectWf(g: Rc, o: Ref, mark: bool, size: nat, n: nat, r: Rc, exact: bool)
    requires Idle(g, exact) && o !in g.hs && o !in g.bs
    requires o.Immix? ==> InSpace(g.blocks, o) && Fits(o.offset, size)
    requires r == g.(hs := g.hs[o := NewHeader(mark)], bs := g.bs[o := Plain(size, seq(n, _ => None))],
      blocks := r.blocks, los := r.los)
    requires (o.Immix? && o.block in g.blocks && r.blocks == SetGc(SetNew(g.blocks, o), o)) || r.blocks == g.blocks
    ensures Wf(r) && ModsOk(r) && HeadersOk(r) && ModsLogged(r)
  {
    hide IsNewObject, LinesAtLeast, InRefs, Counts, Fits, MapsExact, NewExact, NonNull;
    NullChildren(n);
    assert forall x :: InSpace(g.blocks, x) ==> InSpace(r.blocks, x);
    assert Children(r.bs[o]) == [];
    assert Wf(r) by { hide InSpace; }
    forall x | x in r.hs
      ensures HeaderOk(r, x)
    {
      assert x != o ==> HeaderOk(g, x);
    }
  }

  lemma NewObjectMaps(g: Rc, o: Ref, mark: bool, size: nat, n: nat, r: Rc)
    requires Wf(g) && MapsExact(g) && NewExact(g) && o !in g.hs
    requires o.Immix? ==> InSpace(g.blocks, o)
    requires r == g.(hs := g.hs[o := NewHeader(mark)], bs := r.bs, blocks := r.blocks, los := r.los)
    requires if o.Immix? then r.blocks == SetGc(SetNew(g.blocks, o), o) && r.los == g.los
      else r.blocks == g.blocks && r.los == g.los.(objects := g.los.objects + {o}, newObjects := g.los.newObjects + [o])
    ensures MapsExact(r) && NewExact(r)
  {
    hide Wf, IsGc, IsNewObject, SetGc, SetNew, InSpace;
    if o.Immix? {
      EnteredMaps(g.blocks, o);
    }
  }

  lemma EnteredMaps(blocks: Blocks, o: Ref)
    requires o.Immix? && InSpace(blocks, o)
    ensures o.block in blocks
    ensures var r := SetGc(SetNew(blocks, o), o);
      && (forall x :: IsGc(r, x) <==> IsGc(blocks, x) || x == o)
      && (forall x :: IsNewObject(r, x) <==> IsNewObject(blocks, x) || x == o)
  {
  }

  lemma NewObjectDebt(g: Rc, o: Ref, mark: bool, size: nat, n: nat, r: Rc, exact: bool)
    requires Wf(g) && Wf(r) && HeadersOk(g) && Counts(g.hs, multiset{}, Debt(g), exact) && o !in g.hs && o !in g.bs
    requires r == g.(hs := g.hs[o := NewHeader(mark)], bs := g.bs[o := Plain(size, seq(n, _ => None))],
      blocks := r.blocks, los := r.los)
    ensures Counts(r.hs, multiset{}, Debt(r), exact)
  {
    hide Wf, HeadersOk, Debt;
    NewObjectSameDebt(g, o, mark, size, n, r);
    UnknownNotOwed(g, o);
  }

  lemma NewObjectSameDebt(g: Rc, o: Ref, mark: bool, size: nat, n: nat, r: Rc)
    requires Wf(g) && Wf(r) && o !in g.hs && o !in g.bs
    requires r == g.(hs := g.hs[o := NewHeader(mark)], bs := g.bs[o := Plain(size, seq(n, _ => None))],
      blocks := r.blocks, los := r.los)
    ensures Debt(r) == Debt(g)
  {
    hide InRefs, Wf;
    WfKeys(g);
    assert Contributing(r) == Contributing(g);
    InRefsFrame(g.bs, r.bs, Contributing(g));
  }

  /** Nothing refers to an address at which there is no object. */
  lemma UnknownNotOwed(g: Rc, o: Ref)
    requires Wf(g) && o !in g.bs
    ensures Debt(g)[o] == 0
  {
    hide InRefs;
    InRefsMember(g.bs, Contributing(g), o);
    assert o !in multiset(g.oldRoots) && o !in multiset(g.decs);
    assert o !in InRefs(g.bs, Contributing(g));
  }

  lemma NewObjectLines(g: Rc, o: Ref, mark: bool, size: nat, n: nat, r: Rc)
    requires Wf(g) && MapsExact(g) && LinesAtLeast(g.blocks, g.bs, OldSet(g)) && o !in g.hs && o !in g.bs
    requires r == g.(hs := g.hs[o := NewHeader(mark)], bs := g.bs[o := Plain(size, seq(n, _ => None))],
      blocks := r.blocks, los := r.los)
    requires (o.Immix? && o.block in g.blocks && r.blocks == SetGc(SetNew(g.blocks, o), o)) || r.blocks == g.blocks
    ensures LinesAtLeast(r.blocks, r.bs, OldSet(r))
  {
    hide Closed, LinesAtLeast, LosOk, Fits;
    assert OldSet(r) == OldSet(g);
    LinesFrame(g.blocks, r.blocks, g.bs, r.bs, OldSet(g));
  }
}
