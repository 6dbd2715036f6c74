/** The management record of one block (src/spaces/immix_space/block_info.rs). */
module BlockInfos {
  import opened Constants
  import opened Wrappers
  import opened BlockLines

  /** A snapshot of a block's record. Offsets stand for the addresses in the object maps. */
  datatype Block = Block(
    lines: Lines,
    objectMap: set<nat>,
    newObjects: set<nat>,
    inUse: bool,
    holes: nat,
    candidate: bool)

  function EmptyBlock(): Block {
    Block(ZeroLines(), {}, {}, false, 0, false)
  }

  /** What `reset` leaves: an empty record, except that the new objects stay as they are. */
  function ResetBlock(b: Block): Block {
    Block(ZeroLines(), {}, b.newObjects, false, 0, false)
  }

  class BlockInfo {
    var lineCounter: Lines
    var objectMap: set<nat>
    var newObjects: set<nat>
    var inUse: bool
    var holeCount: nat
    var evacuationCandidate: bool

    function View(): Block
      reads this
    {
      Block(lineCounter, objectMap, newObjects, inUse, holeCount, evacuationCandidate)
    }

    constructor ()
      ensures View() == EmptyBlock()
    {
      lineCounter := ZeroLines();
      objectMap, newObjects := {}, {};
      inUse, holeCount, evacuationCandidate := false, 0, false;
    }

    method SetAllocated()
      modifies this
      ensures View() == old(View()).(inUse := true)
    {
      inUse := true;
    }

    method SetGcObject(offset: nat)
      modifies this
      ensures View() == old(View()).(objectMap := old(objectMap) + {offset})
    {
      objectMap := objectMap + {offset};
    }

    method UnsetGcObject(offset: nat)
      modifies this
      ensures View() == old(View()).(objectMap := old(objectMap) - {offset})
    {
      objectMap := objectMap - {offset};
    }

    method IsGcObject(offset: nat) returns (r: bool)
      ensures r <==> inUse && 0 < offset < BLOCK_SIZE && offset in objectMap
    {
      r := IsInBlock(offset);
      if r {
        r := offset in objectMap;
      }
    }

    method IsInBlock(offset: nat) returns (r: bool)
      ensures r <==> inUse && 0 < offset < BLOCK_SIZE
    {
      if inUse {
        r := 0 < offset && offset < BLOCK_SIZE;
      } else {
        r := false;
      }
    }

    method SetNewObject(offset: nat)
      modifies this
      ensures View() == old(View()).(newObjects := old(newObjects) + {offset})
    {
      newObjects := newObjects + {offset};
    }

    method RemoveNewObjectsFromMap()
      modifies this
      ensures View() == old(View()).(objectMap := old(objectMap) - old(newObjects), newObjects := {})
    {
      objectMap := objectMap - newObjects;
      newObjects := {};
    }

    method SetEvacuationCandidate(holes: nat)
      modifies this
      ensures View() == old(View()).(candidate := old(holeCount) >= holes)
    {
      evacuationCandidate := holeCount >= holes;
    }

    /** The loop over the counted lines; the subtraction saturates. */
    method UpdateLineNums(offset: nat, size: nat, increment: bool)
      requires Fits(offset, size)
      modifies this
      ensures View() == old(View()).(lines :=
        if increment then AddLines(old(lineCounter), offset, size) else SubLines(old(lineCounter), offset, size))
    {
      CountedLinesInBlock(offset, size);
      var lineNum := offset % BLOCK_SIZE / LINE_SIZE;
      var end := lineNum + ObjectSize(size) / LINE_SIZE + 1;
      ghost var before := lineCounter;
      ghost var after := if increment then AddLines(before, offset, size) else SubLines(before, offset, size);
      CoveredLines(before, offset, size);
      hide AddLines, SubLines, Covers;
      for line := lineNum to end
        invariant View() == old(View()).(lines := lineCounter)
        invariant forall i :: 0 <= i < NUM_LINES ==>
          lineCounter[i] == if lineNum <= i < line then after[i] else before[i]
      {
        var val := lineCounter[line];
        lineCounter := lineCounter[line := if increment then val + 1 else if val == 0 then 0 else val - 1];
      }
      assert lineCounter == after;
    }

    method ClearLineCounts()
      modifies this
      ensures View() == old(View()).(lines := ZeroLines())
    {
      for index := 0 to NUM_LINES
        invariant View() == old(View()).(lines := lineCounter)
        invariant forall i :: 0 <= i < index ==> lineCounter[i] == 0
      {
        lineCounter := lineCounter[index := 0];
      }
      assert lineCounter == ZeroLines();
    }

    method ClearObjectMap()
      modifies this
      ensures View() == old(View()).(objectMap := {})
    {
      objectMap := {};
    }

    method Reset()
      modifies this
      ensures View() == ResetBlock(old(View()))
    {
      ClearLineCounts();
      ClearObjectMap();
      inUse, holeCount, evacuationCandidate := false, 0, false;
    }

    method IsEmpty() returns (r: bool)
      ensures r <==> AllFree(lineCounter)
    {
      r := forall v | v in lineCounter :: v == 0;
      assert forall i :: 0 <= i < NUM_LINES ==> lineCounter[i] in lineCounter;
    }

    /**
      The scan with its rescans past single free lines. What the found hole is, without the loops,
      `BlockLines.HoleIsExact` says.
     */
    method ScanBlock(lastHigh: nat) returns (hole: Option<Hole>)
      ensures hole == FindHole(lineCounter, lastHigh)
      decreases BLOCK_SIZE - lastHigh
    {
      hide FirstPair, NextUsed;
      var lastHighIndex := lastHigh / LINE_SIZE;
      var lowIndex := NUM_LINES - 1;
      var index := lastHighIndex + 1;
      while index < NUM_LINES
        invariant lastHighIndex < index
        invariant lowIndex == NUM_LINES - 1
        invariant UsedBetween(lineCounter, lastHighIndex + 1, index)
      {
        if lineCounter[index] == 0 {
          lowIndex := index + 1;
          break;
        }
        index := index + 1;
      }
      var highIndex := NUM_LINES;
      var index' := lowIndex;
      while index' < NUM_LINES
        invariant lowIndex <= index' && highIndex == NUM_LINES
        invariant FreeBetween(lineCounter, lowIndex, index')
      {
        if lineCounter[index'] != 0 {
          highIndex := index';
          break;
        }
        index' := index' + 1;
      }
      ScanDecides(lineCounter, lastHighIndex + 1, index, lowIndex, highIndex);
      if lowIndex == highIndex && highIndex != NUM_LINES - 1 {
        assert (highIndex * LINE_SIZE - 1) / LINE_SIZE + 1 == highIndex;
        hole := ScanBlock(highIndex * LINE_SIZE - 1);
      } else if lowIndex < NUM_LINES - 1 {
        hole := Some(Hole(lowIndex * LINE_SIZE, highIndex * LINE_SIZE - 1));
      } else {
        hole := None;
      }
    }

    /** The fold that leaves the hole on every second free line. */
    method CountHoles()
      modifies this
      ensures View() == old(View()).(holes := HolesFrom(lineCounter, 0))
      ensures holeCount == |OddFree(lineCounter)|
    {
      HolesAreOddFree(lineCounter);
      var holes, inHole := 0, false;
      for index := 0 to NUM_LINES
        invariant View() == old(View())
        invariant holes + Remaining(lineCounter, index, inHole) == HolesFrom(lineCounter, 0)
      {
        RemainingStep(lineCounter, index, inHole);
        if !inHole && lineCounter[index] == 0 {
          holes, inHole := holes + 1, true;
        } else {
          inHole := false;
        }
      }
      holeCount := holes;
    }

    method CountHolesAndMarkedLines() returns (holes: nat, marked: nat)
      ensures holes == holeCount && marked == UsedLines(lineCounter, NUM_LINES)
      ensures marked == |set i | 0 <= i < NUM_LINES && lineCounter[i] > 0|
    {
      UsedLinesAre(lineCounter, NUM_LINES);
      holes, marked := holeCount, 0;
      for index := 0 to NUM_LINES
        invariant marked == UsedLines(lineCounter, index)
      {
        if lineCounter[index] != 0 {
          marked := marked + 1;
        }
      }
    }

    method CountHolesAndAvailableLines() returns (holes: nat, available: nat)
      ensures holes == holeCount && available == NUM_LINES - UsedLines(lineCounter, NUM_LINES)
      ensures available == |set i | 0 <= i < NUM_LINES && lineCounter[i] == 0|
    {
      FreeLinesAre(lineCounter, NUM_LINES);
      holes, available := holeCount, 0;
      for index := 0 to NUM_LINES
        invariant available == index - UsedLines(lineCounter, index)
      {
        if lineCounter[index] == 0 {
          available := available + 1;
        }
      }
    }
  }

  /** What an update does to each line: a step up or down between the first and the last counted one. */
  lemma CoveredLines(lines: Lines, offset: nat, size: nat)
    requires Fits(offset, size)
    ensures var first := offset % BLOCK_SIZE / LINE_SIZE;
      var last := first + ObjectSize(size) / LINE_SIZE;
      && last < NUM_LINES
      && forall i :: 0 <= i < NUM_LINES ==>
        && AddLines(lines, offset, size)[i] == (if first <= i <= last then lines[i] + 1 else lines[i])
        && SubLines(lines, offset, size)[i] == (if first <= i <= last && lines[i] > 0 then lines[i] - 1 else lines[i])
  {
    CountedLinesInBlock(offset, size);
    assert offset % BLOCK_SIZE == offset;
  }

  /** Lines without a free pair before them can be skipped by the search for one. */
  lemma {:induction false} SkipToPair(lines: Lines, from: nat, to: nat)
    requires from <= to
    requires forall i :: from <= i < to ==> !FreePair(lines, i)
    ensures FirstPair(lines, from) == FirstPair(lines, to)
    decreases NUM_LINES - from
  {
    if from < to && from < NUM_LINES {
      SkipToPair(lines, from + 1, to);
    }
  }

  lemma NextUsedIs(lines: Lines, from: nat, to: nat)
    requires from <= to <= NUM_LINES
    requires forall i :: from <= i < to ==> lines[i] == 0
    requires to == NUM_LINES || lines[to] != 0
    ensures NextUsed(lines, from) == to
  {
  }

  predicate UsedBetween(lines: Lines, from: nat, to: nat) {
    forall i :: from <= i < to && i < NUM_LINES ==> lines[i] != 0
  }

  predicate FreeBetween(lines: Lines, from: nat, to: nat) {
    forall i :: from <= i < to && i < NUM_LINES ==> lines[i] == 0
  }

  /** What the two loops of a scan from line `from` decide about the least free pair. */
  lemma ScanDecides(lines: Lines, from: nat, index: nat, low: nat, high: nat)
    requires 1 <= from <= index && UsedBetween(lines, from, index)
    requires if index < NUM_LINES then lines[index] == 0 && low == index + 1 else low == NUM_LINES - 1
    requires low <= high <= NUM_LINES && FreeBetween(lines, low, high)
    requires high == NUM_LINES || lines[high] != 0
    ensures low == high && high != NUM_LINES - 1 ==> from < high && FirstPair(lines, from) == FirstPair(lines, high)
    ensures !(low == high && high != NUM_LINES - 1) && low < NUM_LINES - 1 ==>
      FirstPair(lines, from) == Some(low - 1) && NextUsed(lines, low) == high
    ensures !(low == high && high != NUM_LINES - 1) && low >= NUM_LINES - 1 ==> FirstPair(lines, from) == None
  {
    SkipToPair(lines, from, index);
    if low == high && high != NUM_LINES - 1 {
      SkipToPair(lines, index, high);
    } else if low < NUM_LINES - 1 {
      NextUsedIs(lines, low, high);
    }
  }

  /** The holes still to be counted when the fold has reached `from` in state `inHole`. */
  ghost function Remaining(lines: Lines, from: nat, inHole: bool): nat
    requires from <= NUM_LINES
  {
    if !inHole then HolesFrom(lines, from)
    else
      var end := NextUsed(lines, from);
      (end - from) / 2 + HolesFrom(lines, end)
  }

  lemma RemainingStep(lines: Lines, from: nat, inHole: bool)
    requires from < NUM_LINES
    ensures Remaining(lines, from, inHole) ==
      (if !inHole && lines[from] == 0 then 1 else 0) + Remaining(lines, from + 1, !inHole && lines[from] == 0)
  {
    if lines[from] == 0 {
      NextUsedIs(lines, from + 1, NextUsed(lines, from));
    }
  }
}
