/**
  What happens to the blocks around a collection (src/spaces/collector/mod.rs): they are gathered from
  the allocators, swept, and handed out again; and how the evacuation threshold is chosen.
 */
module SweepModel {
  import opened Constants
  import opened Wrappers
  import opened BlockLines
  import opened BlockInfos
  import opened BlockTables
  import opened AllocatorModel

  function CursorBlock(c: Option<Cursor>): seq<nat> {
    if c.Some? then [c.value.block] else []
  }

  /** All blocks of the allocators; the headroom and the free list are not among them. */
  function GetAllBlocks(sp: Space): seq<nat> {
    sp.normal.unavailable + sp.normal.recyclable + CursorBlock(sp.normal.current)
    + (sp.overflow.unavailable + CursorBlock(sp.overflow.current))
    + (sp.evac.unavailable + CursorBlock(sp.evac.current))
  }

  function Drained(sp: Space): Space {
    sp.(normal := Normal([], [], None), overflow := Overflow([], None), evac := Evac([], sp.evac.headroom, None))
  }

  /** Applies a change to the records of all blocks of `all`. */
  function OnBlocks(blocks: Blocks, all: seq<nat>, change: Block -> Block): (r: Blocks)
    ensures r.Keys == blocks.Keys
    ensures forall b :: b in blocks ==> r[b] == if b in all then change(blocks[b]) else blocks[b]
  {
    map b | b in blocks :: if b in all then change(blocks[b]) else blocks[b]
  }

  function RemoveNew(b: Block): Block {
    b.(objectMap := b.objectMap - b.newObjects, newObjects := {})
  }

  function ClearRecord(b: Block): Block {
    b.(lines := ZeroLines(), objectMap := {})
  }

  function MarkCandidate(b: Block, holes: nat): Block {
    b.(candidate := b.holes >= holes)
  }

  /** What a sweep does with a block. */
  datatype Fate = Freed | Full | Recycled

  function FateOf(b: Block): Fate {
    if AllFree(b.lines) then Freed
    else if HolesFrom(b.lines, 0) == 0 then Full
    else Recycled
  }

  function SweptBlock(b: Block): Block {
    if AllFree(b.lines) then ResetBlock(b) else b.(holes := HolesFrom(b.lines, 0))
  }

  /** The blocks of `all` that meet the given fate, in order. */
  function WithFate(all: seq<nat>, blocks: Blocks, fate: Fate): (r: seq<nat>)
    requires forall b :: b in all ==> b in blocks
    ensures forall b :: b in r <==> b in all && FateOf(blocks[b]) == fate
  {
    if all == [] then []
    else
      assert forall b :: b in all <==> b in InitList(all) || b == LastOf(all);
      WithFate(InitList(all), blocks, fate) + if FateOf(blocks[LastOf(all)]) == fate then [LastOf(all)] else []
  }

  function Min(a: nat, b: nat): nat {
    if a <= b then a else b
  }

  /** The sweep: freed blocks fill the headroom first, and recyclable ones go to the normal allocator. */
  function Sweep(sp: Space, all: seq<nat>): (r: (Space, seq<nat>))
    requires forall b :: b in all ==> b in sp.blocks
    requires |sp.evac.headroom| <= EVAC_HEADROOM
  {
    var freed := WithFate(all, sp.blocks, Freed);
    var n := Min(EVAC_HEADROOM - |sp.evac.headroom|, |freed|);
    (sp.(
      blocks := OnBlocks(sp.blocks, all, SweptBlock),
      normal := sp.normal.(recyclable := WithFate(all, sp.blocks, Recycled)),
      evac := sp.evac.(headroom := sp.evac.headroom + freed[..n]),
      ba := sp.ba.(free := sp.ba.free + freed[n..])), WithFate(all, sp.blocks, Full))
  }

  ghost function ByFate(all: seq<nat>, blocks: Blocks): multiset<nat>
    requires forall b :: b in all ==> b in blocks
  {
    multiset(WithFate(all, blocks, Freed)) + multiset(WithFate(all, blocks, Full)) +
      multiset(WithFate(all, blocks, Recycled))
  }

  lemma ByFateStep(all: seq<nat>, blocks: Blocks)
    requires all != [] && forall b :: b in all ==> b in blocks
    ensures forall b :: b in InitList(all) ==> b in blocks
    ensures ByFate(all, blocks) == ByFate(InitList(all), blocks) + multiset{LastOf(all)}
  {
    hide WithFate, FateOf;
    FateStep(all, blocks, Freed);
    FateStep(all, blocks, Full);
    FateStep(all, blocks, Recycled);
    match FateOf(blocks[LastOf(all)]) {
      case Freed =>
      case Full =>
      case Recycled =>
    }
  }

  lemma LastOfBag(all: seq<nat>)
    requires all != []
    ensures multiset(all) == multiset(InitList(all)) + multiset{LastOf(all)}
  {
    assert all == InitList(all) + [LastOf(all)];
  }

  /** Sweeping neither loses nor duplicates a block. */
  lemma {:induction false} FatesPartition(all: seq<nat>, blocks: Blocks)
    requires forall b :: b in all ==> b in blocks
    ensures multiset(all) == ByFate(all, blocks)
    decreases |all|
  {
    hide WithFate, FateOf, InitList, LastOf;
    if all != [] {
      ByFateStep(all, blocks);
      LastOfBag(all);
      InitShorter(all);
      FatesPartition(InitList(all), blocks);
    } else {
      NoFates(blocks);
    }
  }

  lemma InitShorter(all: seq<nat>)
    requires all != []
    ensures |InitList(all)| < |all|
  {
  }

  lemma NoFates(blocks: Blocks)
    ensures ByFate([], blocks) == multiset{}
  {
  }

  lemma FateStep(all: seq<nat>, blocks: Blocks, fate: Fate)
    requires all != [] && forall b :: b in all ==> b in blocks
    ensures forall b :: b in InitList(all) ==> b in blocks
    ensures multiset(WithFate(all, blocks, fate)) ==
      multiset(WithFate(InitList(all), blocks, fate))
      + if FateOf(blocks[LastOf(all)]) == fate then multiset{LastOf(all)} else multiset{}
  {
    hide FateOf;
  }

  /**
    As no object is counted on the first line of a block, a swept block that is not empty has a hole:
    the sweep never sets a block aside as full, and a block is freed exactly if all its lines are free.
   */
  lemma NoBlockIsFull(b: Block)
    requires b.lines[0] == 0
    ensures FateOf(b) == if AllFree(b.lines) then Freed else Recycled
    ensures 0 < HolesFrom(b.lines, 0) <= NUM_LINES / 2
  {
    HoleCountBounds(b.lines);
  }

  // ---------------------------------------------------------------- the evacuation threshold

  /** The sum of `amount` over the blocks of `all` with exactly `h` holes. */
  ghost function SumAt(all: seq<nat>, blocks: Blocks, amount: Block -> nat, h: nat): nat
    requires forall b :: b in all ==> b in blocks
  {
    if all == [] then 0
    else
      SumAt(InitList(all), blocks, amount, h)
      + if blocks[LastOf(all)].holes == h then amount(blocks[LastOf(all)]) else 0
  }

  function AvailableLines(b: Block): nat {
    NUM_LINES - UsedLines(b.lines, NUM_LINES)
  }

  function MarkedLines(b: Block): nat {
    UsedLines(b.lines, NUM_LINES)
  }

  function Get(h: map<nat, nat>, k: nat): nat {
    if k in h then h[k] else 0
  }

  /** The sum of a histogram up to and including `t`. */
  function SumUpTo(h: map<nat, nat>, t: nat): nat {
    Get(h, t) + if t == 0 then 0 else SumUpTo(h, t - 1)
  }

  /** What is left of the headroom's lines after the free lines of blocks with at most `t` holes. */
  function LeftAt(headroom: nat, available: map<nat, nat>, t: nat): nat {
    var total := headroom * (NUM_LINES - 1);
    if SumUpTo(available, t) >= total then 0 else total - SumUpTo(available, t)
  }

  /** The test of the threshold loop. */
  predicate Enough(headroom: nat, marked: map<nat, nat>, available: map<nat, nat>, t: nat) {
    LeftAt(headroom, available, t) <= SumUpTo(marked, t)
  }

  /** The free lines of the blocks of `all` by their number of holes. */
  ghost function AvailableOf(all: seq<nat>, blocks: Blocks): map<nat, nat>
    requires forall b :: b in all ==> b in blocks
  {
    map h: nat | h < NUM_LINES :: SumAt(all, blocks, AvailableLines, h)
  }

  /** The least number of holes, from `from` on, that passes the test; `NUM_LINES` if none does. */
  function HoleThreshold(headroom: nat, marked: map<nat, nat>, available: map<nat, nat>, from: nat): (t: nat)
    requires from <= NUM_LINES
    ensures from <= t <= NUM_LINES
    ensures t < NUM_LINES ==> Enough(headroom, marked, available, t)
    ensures forall u :: from <= u < t ==> !Enough(headroom, marked, available, u)
    decreases NUM_LINES - from
  {
    if from == NUM_LINES || Enough(headroom, marked, available, from) then from
    else HoleThreshold(headroom, marked, available, from + 1)
  }

  /** The test asks only for what blocks with up to `t` holes have. */
  lemma {:induction false} SumSame(h: map<nat, nat>, h': map<nat, nat>, t: nat)
    requires forall k :: 0 <= k <= t ==> Get(h, k) == Get(h', k)
    ensures SumUpTo(h, t) == SumUpTo(h', t)
    decreases t
  {
    if t > 0 {
      SumSame(h, h', t - 1);
    }
  }

  /** The first number that passes the test is the threshold, however the histogram is kept. */
  lemma ThresholdIs(headroom: nat, marked: map<nat, nat>, available: map<nat, nat>, available': map<nat, nat>, t: nat)
    requires t <= NUM_LINES && forall k :: 0 <= k < NUM_LINES ==> Get(available, k) == Get(available', k)
    requires t < NUM_LINES ==> Enough(headroom, marked, available, t)
    requires forall u :: 0 <= u < t ==> !Enough(headroom, marked, available, u)
    ensures t == HoleThreshold(headroom, marked, available', 0)
  {
    var u := HoleThreshold(headroom, marked, available', 0);
    if u < NUM_LINES {
      SumSame(available, available', u);
      assert Enough(headroom, marked, available', u) <==> Enough(headroom, marked, available, u);
    }
    if t < NUM_LINES {
      SumSame(available, available', t);
      assert Enough(headroom, marked, available', t) <==> Enough(headroom, marked, available, t);
    }
  }

  /** Once the test holds it holds for every larger threshold, so the first one found is the only border. */
  lemma {:induction false} EnoughIsMonotone(headroom: nat, marked: map<nat, nat>, available: map<nat, nat>, t: nat,
      u: nat)
    requires t <= u && Enough(headroom, marked, available, t)
    ensures Enough(headroom, marked, available, u)
    decreases u
  {
    if t < u {
      EnoughIsMonotone(headroom, marked, available, t, u - 1);
    }
  }

  // ---------------------------------------------------------------- what the test of the threshold means

  /** The number of lines that are free, or that are in use. */
  ghost function LinesOf(b: Block, free: bool): nat {
    |set l | 0 <= l < NUM_LINES && (b.lines[l] == 0 <==> free)|
  }

  /** The lines of the blocks of `all` with at most `t` holes that are free, or that are in use. */
  ghost function LinesUpTo(all: seq<nat>, blocks: Blocks, t: nat, free: bool): nat
    requires forall b :: b in all ==> b in blocks
    decreases |all|
  {
    if all == [] then 0
    else
      (if blocks[all[0]].holes <= t then LinesOf(blocks[all[0]], free) else 0)
      + LinesUpTo(all[1..], blocks, t, free)
  }

  lemma {:induction false} LinesUpToConcat(all: seq<nat>, more: seq<nat>, blocks: Blocks, t: nat, free: bool)
    requires (forall b :: b in all ==> b in blocks) && forall b :: b in more ==> b in blocks
    ensures LinesUpTo(all + more, blocks, t, free) == LinesUpTo(all, blocks, t, free) + LinesUpTo(more, blocks, t, free)
    decreases |all|
  {
    if all == [] {
      assert all + more == more;
    } else {
      LinesUpToConcat(all[1..], more, blocks, t, free);
      assert (all + more)[0] == all[0] && (all + more)[1..] == all[1..] + more;
    }
  }

  /** The sum over a histogram's first entries is a sum over blocks. */
  ghost function SumTo(all: seq<nat>, blocks: Blocks, amount: Block -> nat, t: nat): nat
    requires forall b :: b in all ==> b in blocks
  {
    SumAt(all, blocks, amount, t) + if t == 0 then 0 else SumTo(all, blocks, amount, t - 1)
  }

  lemma {:induction false} SumToStep(all: seq<nat>, blocks: Blocks, amount: Block -> nat, t: nat)
    requires all != [] && forall b :: b in all ==> b in blocks
    ensures SumTo(all, blocks, amount, t) == SumTo(InitList(all), blocks, amount, t)
      + if blocks[LastOf(all)].holes <= t then amount(blocks[LastOf(all)]) else 0
    decreases t
  {
    if t > 0 {
      SumToStep(all, blocks, amount, t - 1);
    }
  }

  lemma {:induction false} SumToNone(blocks: Blocks, amount: Block -> nat, t: nat)
    ensures SumTo([], blocks, amount, t) == 0
    decreases t
  {
    if t > 0 {
      SumToNone(blocks, amount, t - 1);
    }
  }

  lemma {:induction false} SumToIsLines(all: seq<nat>, blocks: Blocks, amount: Block -> nat, t: nat, free: bool)
    requires forall b :: b in all ==> b in blocks
    requires forall b {:trigger amount(b)} :: amount(b) == LinesOf(b, free)
    ensures SumTo(all, blocks, amount, t) == LinesUpTo(all, blocks, t, free)
    decreases |all|
  {
    hide LinesOf;
    if all == [] {
      SumToNone(blocks, amount, t);
    } else {
      var b := LastOf(all);
      SumToStep(all, blocks, amount, t);
      SumToIsLines(InitList(all), blocks, amount, t, free);
      assert all == InitList(all) + [b];
      LinesUpToConcat(InitList(all), [b], blocks, t, free);
      assert amount(blocks[b]) == LinesOf(blocks[b], free);
      LinesUpToOne(b, blocks, t, free);
    }
  }

  lemma LinesUpToOne(b: nat, blocks: Blocks, t: nat, free: bool)
    requires b in blocks
    ensures LinesUpTo([b], blocks, t, free) ==
      if blocks[b].holes <= t then LinesOf(blocks[b], free) else 0
  {
    hide LinesOf;
    assert [b][1..] == [];
    assert LinesUpTo([b][1..], blocks, t, free) == 0;
  }

  lemma AmountIs(b: Block)
    ensures AvailableLines(b) == LinesOf(b, true) && MarkedLines(b) == LinesOf(b, false)
  {
    UsedLinesAre(b.lines, NUM_LINES);
    FreeLinesAre(b.lines, NUM_LINES);
    assert (set l | 0 <= l < NUM_LINES && (b.lines[l] == 0 <==> true)) == set l | 0 <= l < NUM_LINES && b.lines[l] == 0;
    assert (set l | 0 <= l < NUM_LINES && (b.lines[l] == 0 <==> false)) == set l | 0 <= l < NUM_LINES && b.lines[l] > 0;
  }

  lemma {:induction false} HistogramSums(h: map<nat, nat>, all: seq<nat>, blocks: Blocks, amount: Block -> nat, t: nat)
    requires forall b :: b in all ==> b in blocks
    requires forall k :: 0 <= k <= t ==> Get(h, k) == SumAt(all, blocks, amount, k)
    ensures SumUpTo(h, t) == SumTo(all, blocks, amount, t)
    decreases t
  {
    hide SumAt, Get;
    if t > 0 {
      HistogramSums(h, all, blocks, amount, t - 1);
    }
  }

  /**
    What the test asks: that the lines of the headroom, a whole block less one line each, are made up by
    the free lines of the blocks with at most `t` holes and the lines that were in use in such blocks when
    the last collection had swept them.
   */
  lemma EnoughMeans(headroom: nat, marked: map<nat, nat>, swept: seq<nat>, after: Blocks, all: seq<nat>, blocks: Blocks,
      t: nat)
    requires t < NUM_LINES && (forall b :: b in all ==> b in blocks) && forall b :: b in swept ==> b in after
    requires forall h :: Get(marked, h) == SumAt(swept, after, MarkedLines, h)
    ensures Enough(headroom, marked, AvailableOf(all, blocks), t) <==>
      headroom * (NUM_LINES - 1) <= LinesUpTo(all, blocks, t, true) + LinesUpTo(swept, after, t, false)
  {
    var available := AvailableOf(all, blocks);
    AvailableIs(all, blocks);
    forall b: Block
      ensures AvailableLines(b) == LinesOf(b, true) && MarkedLines(b) == LinesOf(b, false)
    {
      AmountIs(b);
    }
    hide SumAt, AvailableOf, MarkedLines, AvailableLines, LinesOf;
    HistogramSums(available, all, blocks, AvailableLines, t);
    HistogramSums(marked, swept, after, MarkedLines, t);
    SumToIsLines(all, blocks, AvailableLines, t, true);
    SumToIsLines(swept, after, MarkedLines, t, false);
  }

  lemma AvailableIs(all: seq<nat>, blocks: Blocks)
    requires forall b :: b in all ==> b in blocks
    ensures forall h :: 0 <= h < NUM_LINES ==> Get(AvailableOf(all, blocks), h) == SumAt(all, blocks, AvailableLines, h)
  {
    hide SumAt;
  }

  // ---------------------------------------------------------------- the order of the lists

  lemma WithFateStep(all: seq<nat>, blocks: Blocks, fate: Fate)
    requires forall b :: b in all ==> b in blocks
    ensures all == [] ==> WithFate(all, blocks, fate) == []
    ensures all != [] ==>
      && (forall b :: b in InitList(all) ==> b in blocks)
      && WithFate(all, blocks, fate) == WithFate(InitList(all), blocks, fate) +
        if FateOf(blocks[LastOf(all)]) == fate then [LastOf(all)] else []
  {
    hide FateOf;
  }

  lemma WithFateOne(b: nat, blocks: Blocks, fate: Fate)
    requires b in blocks
    ensures WithFate([b], blocks, fate) == if FateOf(blocks[b]) == fate then [b] else []
  {
    WithFateStep([b], blocks, fate);
    assert InitList([b]) == [];
    WithFateStep(InitList([b]), blocks, fate);
  }

  /** Sweeping more blocks extends the lists: they are in the order in which the blocks are gathered. */
  lemma {:induction false} WithFateConcat(all: seq<nat>, more: seq<nat>, blocks: Blocks, fate: Fate)
    requires (forall b :: b in all ==> b in blocks) && forall b :: b in more ==> b in blocks
    ensures WithFate(all + more, blocks, fate) == WithFate(all, blocks, fate) + WithFate(more, blocks, fate)
    decreases |more|
  {
    hide FateOf, WithFate;
    WithFateStep(more, blocks, fate);
    if more == [] {
      assert all + more == all;
    } else {
      WithFateStep(all + more, blocks, fate);
      WithFateConcat(all, InitList(more), blocks, fate);
      assert InitList(all + more) == all + InitList(more) && LastOf(all + more) == LastOf(more);
    }
  }
}
