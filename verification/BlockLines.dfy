/**
  The arithmetic of line counters: which lines an object is counted on, which holes a scan may
  return, and how many holes a block has. Everything here is about one block's 128 counters.
 */
module BlockLines {
  import opened Constants
  import opened Wrappers

  type Lines = s: seq<nat> | |s| == NUM_LINES witness seq(NUM_LINES, _ => 0)

  /** A hole: the lowest and the highest usable offset, both inclusive. */
  datatype Hole = Hole(low: nat, high: nat)

  /** The size the collector works with: the size in the type information plus its remainder. */
  function ObjectSize(size: nat): nat {
    size + size % 8
  }

  /** It is the next multiple of eight exactly for sizes that are multiples of four. */
  lemma RoundsUpExactly(size: nat)
    ensures ObjectSize(size) % 8 == 0 && size <= ObjectSize(size) < size + 8 <==> size % 4 == 0
  {
  }

  /** An object of `size` bytes at `off` is counted on line `l`. */
  predicate Covers(off: nat, size: nat, l: int) {
    off / LINE_SIZE <= l <= off / LINE_SIZE + ObjectSize(size) / LINE_SIZE
  }

  /** The object lies in the block, and so do all the lines it is counted on. */
  predicate Fits(off: nat, size: nat) {
    LINE_SIZE <= off && 0 < size && size % 8 == 0 && off + size <= LAST_OFFSET
  }

  lemma CountedLinesInBlock(off: nat, size: nat)
    requires Fits(off, size)
    ensures 1 <= off / LINE_SIZE
    ensures off / LINE_SIZE + ObjectSize(size) / LINE_SIZE < NUM_LINES
  {
  }

  /**
    An object may touch one line beyond the ones it is counted on, and never more: the last byte
    lies on the last counted line or on the next one. So counting is an under-approximation by at
    most one line.
   */
  lemma UnderMarkedByAtMostOneLine(off: nat, size: nat)
    requires Fits(off, size)
    ensures var counted := off / LINE_SIZE + ObjectSize(size) / LINE_SIZE;
            counted - 1 <= (off + size - 1) / LINE_SIZE <= counted + 1
  {
  }

  /** The bound is reached: here the last byte lies on line 3, but only lines 1 and 2 are counted. */
  lemma UnderMarkingHappens()
    ensures Fits(504, 272)
    ensures !Covers(504, 272, (504 + 272 - 1) / LINE_SIZE)
  {
  }

  /** Counters after an object at `off` has been counted once more. */
  function AddLines(lines: Lines, off: nat, size: nat): (r: Lines)
    ensures forall i :: 0 <= i < NUM_LINES ==> r[i] == lines[i] + (if Covers(off, size, i) then 1 else 0)
  {
    seq(NUM_LINES, i requires 0 <= i < NUM_LINES => if Covers(off, size, i) then lines[i] + 1 else lines[i])
  }

  /** Counters after an object at `off` has been counted down, saturating at zero. */
  function SubLines(lines: Lines, off: nat, size: nat): (r: Lines)
    ensures forall i :: 0 <= i < NUM_LINES ==>
      r[i] == if Covers(off, size, i) && lines[i] > 0 then lines[i] - 1 else lines[i]
  {
    seq(NUM_LINES, i requires 0 <= i < NUM_LINES =>
      if Covers(off, size, i) && lines[i] > 0 then lines[i] - 1 else lines[i])
  }

  function ZeroLines(): (r: Lines)
    ensures forall i :: 0 <= i < NUM_LINES ==> r[i] == 0
  {
    seq(NUM_LINES, _ => 0)
  }

  // ---------------------------------------------------------------- holes

  /** Line `i` and its successor are free and the successor may start a hole (it is not the last line). */
  predicate FreePair(lines: Lines, i: nat) {
    i < NUM_LINES - 2 && lines[i] == 0 && lines[i + 1] == 0
  }

  /** The least free pair at or after `from`. */
  function FirstPair(lines: Lines, from: nat): (r: Option<nat>)
    ensures r.Some? ==> from <= r.value && FreePair(lines, r.value)
    ensures r.Some? ==> forall i :: from <= i < r.value ==> !FreePair(lines, i)
    ensures r.None? ==> forall i :: from <= i ==> !FreePair(lines, i)
    decreases NUM_LINES - from
  {
    if from >= NUM_LINES then None
    else if FreePair(lines, from) then Some(from)
    else FirstPair(lines, from + 1)
  }

  /** The first used line at or after `from`, or the number of lines. */
  function NextUsed(lines: Lines, from: nat): (r: nat)
    requires from <= NUM_LINES
    ensures from <= r <= NUM_LINES
    ensures forall i :: from <= i < r ==> lines[i] == 0
    ensures r < NUM_LINES ==> lines[r] != 0
    decreases NUM_LINES - from
  {
    if from == NUM_LINES || lines[from] != 0 then from else NextUsed(lines, from + 1)
  }

  /** What a scan from `last` has to find: the hole behind the least free pair beyond the line of `last`. */
  function FindHole(lines: Lines, last: nat): (r: Option<Hole>)
    ensures r.Some? ==> last + LINE_SIZE < r.value.low && r.value.low + LINE_SIZE - 1 <= r.value.high <= LAST_OFFSET
  {
    match FirstPair(lines, last / LINE_SIZE + 1)
    case None => None
    case Some(i) => Some(Hole((i + 1) * LINE_SIZE, NextUsed(lines, i + 1) * LINE_SIZE - 1))
  }

  /**
    A scan finds a hole exactly if there is a free pair beyond the line of `last`. The hole starts
    right behind the least such pair's first line, and ends at the byte before the next used line.
   */
  lemma HoleIsExact(lines: Lines, last: nat)
    ensures FindHole(lines, last).Some? <==> exists i :: last / LINE_SIZE < i && FreePair(lines, i)
    ensures FindHole(lines, last).Some? ==>
      var h := FindHole(lines, last).value;
      var i := h.low / LINE_SIZE - 1;
      && h.low % LINE_SIZE == 0 && (h.high + 1) % LINE_SIZE == 0
      && last / LINE_SIZE < i && FreePair(lines, i)
      && (forall j :: last / LINE_SIZE < j < i ==> !FreePair(lines, j))
      && (forall l :: i <= l <= h.high / LINE_SIZE ==> lines[l] == 0)
      && (h.high < LAST_OFFSET ==> lines[(h.high + 1) / LINE_SIZE] != 0)
  {
    var r := FindHole(lines, last);
    if r.Some? {
      var i := FirstPair(lines, last / LINE_SIZE + 1).value;
      assert r.value.low / LINE_SIZE - 1 == i;
      assert (r.value.high + 1) / LINE_SIZE == NextUsed(lines, i + 1);
    }
  }

  /**
    Counting one line too few is made good by skipping the first free line of a hole: no byte of a
    hole belongs to an object all of whose counted lines are in use.
   */
  lemma HoleAvoidsCountedObjects(lines: Lines, last: nat, off: nat, size: nat)
    requires FindHole(lines, last).Some?
    requires Fits(off, size)
    requires forall l :: 0 <= l < NUM_LINES && Covers(off, size, l) ==> lines[l] > 0
    ensures var h := FindHole(lines, last).value; off + size <= h.low || h.high < off
  {
    var i := FirstPair(lines, last / LINE_SIZE + 1).value;
    var first, counted := off / LINE_SIZE, off / LINE_SIZE + ObjectSize(size) / LINE_SIZE;
    CountedLinesInBlock(off, size);
    UnderMarkedByAtMostOneLine(off, size);
    assert Covers(off, size, first);
    if first <= i {
      assert !Covers(off, size, i);
      assert counted < i;
    } else {
      assert NextUsed(lines, i + 1) <= first;
    }
  }

  /** Without the skipped line the same claim is false: here line 3 is free and the object reaches into it. */
  lemma FirstFreeLineIsNotSafe()
    ensures var lines := AddLines(ZeroLines(), 504, 272);
            Fits(504, 272) && lines[3] == 0 && 3 * LINE_SIZE < 504 + 272
  {
  }

  // ---------------------------------------------------------------- counting holes

  /** The sum over the maximal runs of free lines from `from` on of half their length, rounded up. */
  function HolesFrom(lines: Lines, from: nat): (r: nat)
    requires from <= NUM_LINES
    ensures 2 * r <= NUM_LINES - from + 1
    ensures r == 0 <==> forall i :: from <= i < NUM_LINES ==> lines[i] != 0
    decreases NUM_LINES - from
  {
    if from == NUM_LINES then 0
    else if lines[from] != 0 then HolesFrom(lines, from + 1)
    else
      var end := NextUsed(lines, from);
      if end == NUM_LINES then (end - from + 1) / 2
      else (end - from + 1) / 2 + HolesFrom(lines, end + 1)
  }

  predicate AllFree(lines: Lines) {
    forall i :: 0 <= i < NUM_LINES ==> lines[i] == 0
  }

  /** The number of lines below `n` that are in use. */
  function UsedLines(lines: Lines, n: nat): (r: nat)
    requires n <= NUM_LINES
    ensures r <= n
    ensures r == 0 <==> forall i :: 0 <= i < n ==> lines[i] == 0
  {
    if n == 0 then 0 else UsedLines(lines, n - 1) + (if lines[n - 1] != 0 then 1 else 0)
  }

  /** The other lines are free. */
  lemma {:induction false} FreeLinesAre(lines: Lines, n: nat)
    requires n <= NUM_LINES
    ensures n - UsedLines(lines, n) == |set i | 0 <= i < n && lines[i] == 0|
    decreases n
  {
    if n > 0 {
      FreeLinesAre(lines, n - 1);
      assert (set i | 0 <= i < n && lines[i] == 0)
          == (set i | 0 <= i < n - 1 && lines[i] == 0) + if lines[n - 1] == 0 then {n - 1} else {};
    }
  }

  /** The lines with a counter above zero. */
  lemma {:induction false} UsedLinesAre(lines: Lines, n: nat)
    requires n <= NUM_LINES
    ensures UsedLines(lines, n) == |set i | 0 <= i < n && lines[i] > 0|
    decreases n
  {
    if n > 0 {
      UsedLinesAre(lines, n - 1);
      assert (set i | 0 <= i < n && lines[i] > 0)
          == (set i | 0 <= i < n - 1 && lines[i] > 0) + if lines[n - 1] > 0 then {n - 1} else {};
    }
  }

  /** The hole count of a block: at most 64, zero exactly if no line is free. */
  lemma HoleCountBounds(lines: Lines)
    ensures HolesFrom(lines, 0) <= NUM_LINES / 2
    ensures HolesFrom(lines, 0) == 0 <==> forall i :: 0 <= i < NUM_LINES ==> lines[i] != 0
  {
    hide HolesFrom;
    assert 2 * HolesFrom(lines, 0) <= NUM_LINES + 1;
  }

  /** The run of free lines that line `i` belongs to begins at line `s`. */
  predicate RunBegins(lines: Lines, s: nat, i: nat) {
    s <= i < NUM_LINES && (forall k :: s <= k <= i ==> lines[k] == 0) && (s > 0 ==> lines[s - 1] != 0)
  }

  /** The line is free, and the first, third, fifth or so of its run. */
  ghost predicate IsOdd(lines: Lines, i: nat) {
    exists s :: RunBegins(lines, s, i) && (i - s) % 2 == 0
  }

  ghost function OddFree(lines: Lines): set<nat> {
    set i: nat | i < NUM_LINES && IsOdd(lines, i)
  }

  lemma OddAt(lines: Lines, from: nat, i: nat)
    requires RunBegins(lines, from, i)
    ensures IsOdd(lines, i) <==> (i - from) % 2 == 0
  {
    if IsOdd(lines, i) {
      var s :| RunBegins(lines, s, i) && (i - s) % 2 == 0;
      assert s == from;
    }
  }

  lemma UsedNotOdd(lines: Lines, i: nat)
    requires i < NUM_LINES && lines[i] != 0
    ensures !IsOdd(lines, i)
  {
  }

  /** The odd lines from `from` on and below `n`. */
  ghost function OddBetween(lines: Lines, from: nat, n: nat): set<nat> {
    set i: nat | from <= i < n && IsOdd(lines, i)
  }

  lemma OddSplit(lines: Lines, from: nat, mid: nat, n: nat)
    requires from <= mid <= n
    ensures |OddBetween(lines, from, n)| == |OddBetween(lines, from, mid)| + |OddBetween(lines, mid, n)|
  {
    hide IsOdd;
    assert OddBetween(lines, from, n) == OddBetween(lines, from, mid) + OddBetween(lines, mid, n);
  }

  lemma OddOne(lines: Lines, i: nat)
    ensures |OddBetween(lines, i, i + 1)| == if IsOdd(lines, i) then 1 else 0
  {
    hide IsOdd;
    assert OddBetween(lines, i, i + 1) == if IsOdd(lines, i) then {i} else {};
  }

  /** In a run from `from` to `end` every second line counts. */
  lemma {:induction false} OddInRun(lines: Lines, from: nat, end: nat, n: nat)
    requires from <= n <= end <= NUM_LINES && forall k :: from <= k < end ==> lines[k] == 0
    requires from > 0 ==> lines[from - 1] != 0
    ensures |OddBetween(lines, from, n)| == (n - from + 1) / 2
    decreases n
  {
    if n == from {
      assert OddBetween(lines, from, n) == {};
    } else {
      OddInRun(lines, from, end, n - 1);
      OddAt(lines, from, n - 1);
      hide IsOdd, OddBetween;
      OddSplit(lines, from, n - 1, n);
      OddOne(lines, n - 1);
    }
  }

  lemma {:induction false} HolesFromAre(lines: Lines, from: nat)
    requires from <= NUM_LINES && (0 < from ==> lines[from - 1] != 0)
    ensures HolesFrom(lines, from) == |OddBetween(lines, from, NUM_LINES)|
    decreases NUM_LINES - from
  {
    hide IsOdd;
    if from == NUM_LINES {
      assert OddBetween(lines, from, NUM_LINES) == {};
    } else if lines[from] != 0 {
      HolesFromAre(lines, from + 1);
      UsedNotOdd(lines, from);
      OddOne(lines, from);
      hide OddBetween;
      OddSplit(lines, from, from + 1, NUM_LINES);
    } else {
      var end := NextUsed(lines, from);
      OddInRun(lines, from, end, end);
      if end < NUM_LINES {
        HolesFromAre(lines, end + 1);
        UsedNotOdd(lines, end);
        OddOne(lines, end);
        hide OddBetween;
        OddSplit(lines, from, end, NUM_LINES);
        OddSplit(lines, end, end + 1, NUM_LINES);
      }
    }
  }

  /** The hole count is the number of lines that are the first, third, fifth or so of a run of free ones. */
  lemma HolesAreOddFree(lines: Lines)
    ensures HolesFrom(lines, 0) == |OddFree(lines)|
  {
    HolesFromAre(lines, 0);
    hide IsOdd;
    assert OddFree(lines) == OddBetween(lines, 0, NUM_LINES);
  }
}
