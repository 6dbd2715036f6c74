/** The records of all built blocks and the per-object view of their object maps and line counters. */
module BlockTables {
  import opened Constants
  import opened Objects
  import opened BlockLines
  import opened BlockInfos

  type Blocks = map<nat, Block>

  /** The address lies in a block that is in use. Unbuilt blocks are zeroed memory, hence not in use. */
  predicate InSpace(blocks: Blocks, r: Ref) {
    r.Immix? && r.block in blocks && blocks[r.block].inUse && 0 < r.offset < BLOCK_SIZE
  }

  /** The block's object map holds the address; this counts only while the block is in use. */
  predicate InMap(blocks: Blocks, r: Ref) {
    r.Immix? && r.block in blocks && r.offset in blocks[r.block].objectMap
  }

  predicate IsGc(blocks: Blocks, r: Ref) {
    InSpace(blocks, r) && InMap(blocks, r)
  }

  predicate IsNewObject(blocks: Blocks, r: Ref) {
    r.Immix? && r.block in blocks && r.offset in blocks[r.block].newObjects
  }

  function SetGc(blocks: Blocks, r: Ref): Blocks
    requires r.Immix? && r.block in blocks
  {
    var b := blocks[r.block];
    blocks[r.block := b.(objectMap := b.objectMap + {r.offset})]
  }

  function UnsetGc(blocks: Blocks, r: Ref): Blocks
    requires r.Immix? && r.block in blocks
  {
    var b := blocks[r.block];
    blocks[r.block := b.(objectMap := b.objectMap - {r.offset})]
  }

  function SetNew(blocks: Blocks, r: Ref): Blocks
    requires r.Immix? && r.block in blocks
  {
    var b := blocks[r.block];
    blocks[r.block := b.(newObjects := b.newObjects + {r.offset})]
  }

  function IncLines(blocks: Blocks, r: Ref, size: nat): Blocks
    requires r.Immix? && r.block in blocks
  {
    var b := blocks[r.block];
    blocks[r.block := b.(lines := AddLines(b.lines, r.offset, size))]
  }

  function DecLines(blocks: Blocks, r: Ref, size: nat): Blocks
    requires r.Immix? && r.block in blocks
  {
    var b := blocks[r.block];
    blocks[r.block := b.(lines := SubLines(b.lines, r.offset, size))]
  }

  ghost predicate HasObject(bs: Bodies, b: nat) {
    exists o :: o in bs && o.Immix? && o.block == b
  }

  /**
    Records that differ in object maps and in counters only, and not in the counter of the first line.
    A block without objects keeps its record.
   */
  ghost predicate SameShape(bs: Bodies, blocks: Blocks, blocks': Blocks) {
    && blocks'.Keys == blocks.Keys
    && (forall b :: b in blocks ==>
      && blocks'[b].newObjects == blocks[b].newObjects && blocks'[b].inUse == blocks[b].inUse
      && blocks'[b].holes == blocks[b].holes && blocks'[b].candidate == blocks[b].candidate
      && blocks'[b].lines[0] == blocks[b].lines[0])
    && (forall b :: b in blocks && !HasObject(bs, b) ==> blocks'[b] == blocks[b])
  }

  // ---------------------------------------------------------------- counting objects on lines

  /** The objects of `bs` that the object maps call valid. */
  ghost function GcSet(blocks: Blocks, bs: Bodies): set<Ref> {
    set o | o in bs.Keys && IsGc(blocks, o)
  }

  /** How many objects of `s` are counted on line `line` of block `block`. */
  ghost function CountOn(bs: Bodies, s: set<Ref>, block: nat, line: int): nat {
    |set o | o in s && CoversLine(bs, o, block, line)|
  }

  lemma CountAdd(bs: Bodies, s: set<Ref>, o: Ref, block: nat, line: int)
    requires o !in s
    ensures CountOn(bs, s + {o}, block, line) ==
      CountOn(bs, s, block, line) + (if CoversLine(bs, o, block, line) then 1 else 0)
  {
    var on := set x | x in s && CoversLine(bs, x, block, line);
    var on' := set x | x in s + {o} && CoversLine(bs, x, block, line);
    assert on' == on + if CoversLine(bs, o, block, line) then {o} else {};
  }

  lemma CountFrame(bs: Bodies, bs': Bodies, s: set<Ref>, block: nat, line: int)
    requires s <= bs.Keys && s <= bs'.Keys
    requires forall o :: o in s ==> CoversLine(bs, o, block, line) == CoversLine(bs', o, block, line)
    ensures CountOn(bs, s, block, line) == CountOn(bs', s, block, line)
  {
    assert (set x | x in s && CoversLine(bs, x, block, line)) == set x | x in s && CoversLine(bs', x, block, line);
  }

  lemma CountSubset(bs: Bodies, s: set<Ref>, t: set<Ref>, block: nat, line: int)
    requires s <= t
    ensures CountOn(bs, s, block, line) <= CountOn(bs, t, block, line)
  {
    var on, on' := set x | x in s && CoversLine(bs, x, block, line), set x | x in t && CoversLine(bs, x, block, line);
    SubsetSize(on, on');
  }

  lemma {:induction false} SubsetSize<T>(a: set<T>, b: set<T>)
    requires a <= b
    ensures |a| <= |b|
    decreases |a|
  {
    if a != {} {
      var x :| x in a;
      SubsetSize(a - {x}, b - {x});
    }
  }

  /** Every line counter is at least the number of objects of `s` that are counted on the line. */
  ghost predicate LinesAtLeast(blocks: Blocks, bs: Bodies, s: set<Ref>) {
    forall b, l {:trigger CountOn(bs, s, b, l)} ::
      b in blocks && 0 <= l < NUM_LINES ==> blocks[b].lines[l] >= CountOn(bs, s, b, l)
  }

  /** Every line counter is exactly that number. */
  ghost predicate LinesExact(blocks: Blocks, bs: Bodies, s: set<Ref>) {
    forall b, l {:trigger CountOn(bs, s, b, l)} ::
      b in blocks && 0 <= l < NUM_LINES ==> blocks[b].lines[l] == CountOn(bs, s, b, l)
  }

  /** Counting an object once more keeps the bound, whether it was in the set before or not. */
  lemma IncLinesKeeps(blocks: Blocks, bs: Bodies, s: set<Ref>, o: Ref)
    requires LinesAtLeast(blocks, bs, s)
    requires o.Immix? && o.block in blocks && o in bs && bs[o].Plain?
    ensures LinesAtLeast(IncLines(blocks, o, bs[o].size), bs, s + {o})
    ensures o !in s && LinesExact(blocks, bs, s) ==> LinesExact(IncLines(blocks, o, bs[o].size), bs, s + {o})
  {
    forall b, l | b in blocks && 0 <= l < NUM_LINES
      ensures IncLines(blocks, o, bs[o].size)[b].lines[l] >= CountOn(bs, s + {o}, b, l)
      ensures o !in s && blocks[b].lines[l] == CountOn(bs, s, b, l) ==>
        IncLines(blocks, o, bs[o].size)[b].lines[l] == CountOn(bs, s + {o}, b, l)
    {
      assert blocks[b].lines[l] >= CountOn(bs, s, b, l);
      if o in s {
        assert s + {o} == s;
      } else {
        CountAdd(bs, s, o, b, l);
      }
    }
  }

  /** Counting an object down once and dropping it from the set keeps the bound. */
  lemma DecLinesKeeps(blocks: Blocks, bs: Bodies, s: set<Ref>, o: Ref)
    requires LinesAtLeast(blocks, bs, s) && o in s
    requires o.Immix? && o.block in blocks && o in bs && bs[o].Plain?
    ensures LinesAtLeast(DecLines(blocks, o, bs[o].size), bs, s - {o})
  {
    forall b, l | b in blocks && 0 <= l < NUM_LINES
      ensures DecLines(blocks, o, bs[o].size)[b].lines[l] >= CountOn(bs, s - {o}, b, l)
    {
      assert blocks[b].lines[l] >= CountOn(bs, s, b, l);
      CountAdd(bs, s - {o}, o, b, l);
      assert s - {o} + {o} == s;
    }
  }

  lemma LinesFewer(blocks: Blocks, bs: Bodies, s: set<Ref>, t: set<Ref>)
    requires LinesAtLeast(blocks, bs, t) && s <= t
    ensures LinesAtLeast(blocks, bs, s)
  {
    forall b, l | b in blocks && 0 <= l < NUM_LINES
      ensures blocks[b].lines[l] >= CountOn(bs, s, b, l)
    {
      assert blocks[b].lines[l] >= CountOn(bs, t, b, l);
      CountSubset(bs, s, t, b, l);
    }
  }

  /** The bytes an object takes do not depend on what its members hold. */
  predicate SameExtent(b: Body, b': Body) {
    b == b' || (b.Plain? && b'.Plain? && b.size == b'.size)
  }

  /** The bound depends only on the counters and on the objects of the set. */
  lemma LinesFrame(blocks: Blocks, blocks': Blocks, bs: Bodies, bs': Bodies, s: set<Ref>)
    requires LinesAtLeast(blocks, bs, s) && s <= bs.Keys && s <= bs'.Keys
    requires forall b :: b in blocks' ==> b in blocks && blocks[b].lines == blocks'[b].lines
    requires forall o :: o in s ==> SameExtent(bs[o], bs'[o])
    ensures LinesAtLeast(blocks', bs', s)
    ensures LinesExact(blocks, bs, s) ==> LinesExact(blocks', bs', s)
  {
    forall b, l | b in blocks' && 0 <= l < NUM_LINES
      ensures blocks'[b].lines[l] >= CountOn(bs', s, b, l)
      ensures blocks[b].lines[l] == CountOn(bs, s, b, l) ==> blocks'[b].lines[l] == CountOn(bs', s, b, l)
    {
      assert blocks[b].lines[l] >= CountOn(bs, s, b, l);
      CountFrame(bs, bs', s, b, l);
    }
  }

  /** A counted object of the set has all its lines in use. */
  lemma CountedLinesInUse(blocks: Blocks, bs: Bodies, s: set<Ref>, o: Ref, line: int)
    requires LinesAtLeast(blocks, bs, s) && o in s && o in bs && bs[o].Plain?
    requires o.Immix? && o.block in blocks && 0 <= line < NUM_LINES && Covers(o.offset, bs[o].size, line)
    ensures blocks[o.block].lines[line] > 0
  {
    assert blocks[o.block].lines[line] >= CountOn(bs, s, o.block, line);
    SubsetSize({o}, set x | x in s && CoversLine(bs, x, o.block, line));
  }
}
