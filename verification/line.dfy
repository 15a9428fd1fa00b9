/** One line of the board seen from the edge the tiles slide toward: position 0 is
    the cell at that edge, position p is p cells away from it. All four moves of
    board.c treat each row (left, right) or column (up, down) as such a line.

    This module defines
    - a reference slide (`Slide`): drop the empty cells, pair equal neighbours
      greedily from the edge, pad with empty cells;
    - the source's in-place scan of one line (`Scan`), built from its target
      search (`Target`) and one loop iteration (`Step`);
    and proves that the scan computes the reference slide. */
module Line {

  /** A tile of the slid line: its value, and whether it was formed by a merge. */
  datatype Tile = Tile(value: int, merged: bool)

  /** The occupied (non-zero) values of a line, in order. */
  function Occupied(s: seq<int>): (r: seq<int>)
    ensures |r| <= |s|
    ensures forall i | 0 <= i < |r| :: r[i] != 0
  {
    if |s| == 0 then []
    else Occupied(s[..|s| - 1]) + (if s[|s| - 1] != 0 then [s[|s| - 1]] else [])
  }

  /** Reference merge: the first two values combine when equal, and the
      result never combines again. */
  function Merge(xs: seq<int>): (r: seq<Tile>)
    ensures |r| <= |xs|
    ensures (forall i | 0 <= i < |xs| :: xs[i] != 0) ==> forall i | 0 <= i < |r| :: r[i].value != 0
  {
    if |xs| == 0 then []
    else if |xs| >= 2 && xs[0] == xs[1] then [Tile(2 * xs[0], true)] + Merge(xs[2..])
    else [Tile(xs[0], false)] + Merge(xs[1..])
  }

  /** Reference slide toward position 0. */
  function Slide(line: seq<int>): (r: seq<int>)
    ensures |r| == |line|
  {
    var out := Merge(Occupied(line));
    seq(|line|, i requires 0 <= i < |line| => if i < |out| then out[i].value else 0)
  }

  /** Appending one value to the tiles merged so far: it joins the last tile
      when that tile holds the same value and is not itself a merge result. */
  function Push(out: seq<Tile>, v: int): seq<Tile>
  {
    if |out| > 0 && out[|out| - 1].value == v && !out[|out| - 1].merged
    then out[..|out| - 1] + [Tile(2 * v, true)]
    else out + [Tile(v, false)]
  }

  lemma PushUnderPrefix(t: Tile, out: seq<Tile>, v: int)
    requires |out| > 0 || t.merged || t.value != v
    ensures Push([t] + out, v) == [t] + Push(out, v)
  {
    if |out| > 0 {
      assert ([t] + out)[..|out|] == [t] + out[..|out| - 1];
    }
  }

  /** The front-greedy merge can be computed one value at a time from the front,
      which is the order in which the source scans a line. */
  lemma {:induction false} MergeSnoc(xs: seq<int>, v: int)
    ensures Merge(xs + [v]) == Push(Merge(xs), v)
    decreases |xs|
  {
    if |xs| == 0 {
      assert xs + [v] == [v];
    } else if |xs| == 1 {
      assert xs + [v] == [xs[0], v];
      assert [xs[0], v][2..] == [];
      assert [xs[0], v][1..] == [v];
    } else if xs[0] == xs[1] {
      assert (xs + [v])[2..] == xs[2..] + [v];
      MergeSnoc(xs[2..], v);
      PushUnderPrefix(Tile(2 * xs[0], true), Merge(xs[2..]), v);
    } else {
      assert (xs + [v])[1..] == xs[1..] + [v];
      MergeSnoc(xs[1..], v);
      assert |Merge(xs[1..])| > 0;
      PushUnderPrefix(Tile(xs[0], false), Merge(xs[1..]), v);
    }
  }

  /** The state of one line during the scan: its cells and its row or column of
      `merge_map`. */
  datatype LineState = LineState(cells: seq<int>, marks: seq<bool>)

  /** The loop of the target search: walk toward position 0 over empty cells. */
  function EmptyRunStart(cells: seq<int>, p: int): (s: int)
    requires 0 <= p <= |cells|
    ensures 0 <= s <= p
    ensures forall i | s <= i < p :: cells[i] == 0
    ensures s == 0 || cells[s - 1] != 0
    decreases p
  {
    if p > 0 && cells[p - 1] == 0 then EmptyRunStart(cells, p - 1) else p
  }

  /** Where the tile of value `v` at position `p` lands: the end of the empty run
      in front of it, or one cell further when that cell holds `v` and has not
      received a merge yet. The four conjuncts determine the target uniquely
      (`TargetUnique`). */
  predicate IsTarget(cells: seq<int>, marks: seq<bool>, p: int, v: int, t: int)
    requires |marks| == |cells| && 0 <= p < |cells|
  {
    && 0 <= t <= p
    && (forall i | t < i < p :: cells[i] == 0)
    && (t < p && cells[t] != 0 ==> cells[t] == v && !marks[t])
    && ((t == p || cells[t] == 0) && t > 0 ==> cells[t - 1] != 0 && (cells[t - 1] != v || marks[t - 1]))
  }

  lemma TargetUnique(cells: seq<int>, marks: seq<bool>, p: int, v: int, t1: int, t2: int)
    requires |marks| == |cells| && 0 <= p < |cells|
    requires IsTarget(cells, marks, p, v, t1) && IsTarget(cells, marks, p, v, t2)
    ensures t1 == t2
  {
  }

  /** The empty run in front of `p` is determined by its two ends. */
  lemma EmptyRunStartUnique(cells: seq<int>, p: int, k: int)
    requires 0 <= k <= p <= |cells|
    requires forall i | k <= i < p :: cells[i] == 0
    requires k == 0 || cells[k - 1] != 0
    ensures EmptyRunStart(cells, p) == k
  {
  }

  function Target(cells: seq<int>, marks: seq<bool>, p: int, v: int): (t: int)
    requires |marks| == |cells| && 0 <= p < |cells|
    ensures IsTarget(cells, marks, p, v, t)
  {
    var s := EmptyRunStart(cells, p);
    if s > 0 && cells[s - 1] == v && !marks[s - 1] then s - 1 else s
  }

  /** One iteration of the scan at position `p`: an empty cell is skipped;
      otherwise the tile is cleared from `p` and written to its target, doubled
      and marked when the target was occupied. */
  function Step(st: LineState, p: int): (st': LineState)
    requires |st.marks| == |st.cells| && 0 <= p < |st.cells|
    ensures |st'.cells| == |st.cells| && |st'.marks| == |st.marks|
  {
    var v := st.cells[p];
    if v == 0 then st
    else
      var t := Target(st.cells, st.marks, p, v);
      var isMerge := p != t && st.cells[t] != 0;
      LineState(st.cells[p := 0][t := if isMerge then v * 2 else v],
                if isMerge then st.marks[t := true] else st.marks)
  }

  /** The first `c` iterations of the scan, starting with no marks. */
  function Scan(line: seq<int>, c: int): (st: LineState)
    requires 0 <= c <= |line|
    ensures |st.cells| == |line| && |st.marks| == |line|
  {
    if c == 0 then LineState(line, seq(|line|, _ => false))
    else Step(Scan(line, c - 1), c - 1)
  }

  /** After `c` iterations the first cells hold the merged tiles `out`, the
      rest of the scanned part is empty, the unscanned part is untouched, and
      exactly the merged tiles are marked. */
  ghost predicate ScannedUpTo(st: LineState, line: seq<int>, c: int, out: seq<Tile>)
  {
    && |st.cells| == |line| && |st.marks| == |line| && |out| <= c <= |line|
    && (forall i | 0 <= i < |line| ::
          st.cells[i] == (if i < |out| then out[i].value else if i < c then 0 else line[i]))
    && (forall i | 0 <= i < |line| :: st.marks[i] == (i < |out| && out[i].merged))
  }

  lemma OccupiedSnoc(line: seq<int>, p: int, c: int)
    requires 0 <= p < |line| && c == p + 1
    ensures Occupied(line[..c]) == Occupied(line[..p]) + (if line[p] != 0 then [line[p]] else [])
  {
    assert line[..c][..p] == line[..p];
  }

  lemma ScanNext(line: seq<int>, p: int, c: int)
    requires 0 <= p < |line| && c == p + 1
    ensures Scan(line, c) == Step(Scan(line, p), p)
  {
  }

  lemma {:induction false} ScanInvariant(line: seq<int>, c: int)
    requires 0 <= c <= |line|
    ensures ScannedUpTo(Scan(line, c), line, c, Merge(Occupied(line[..c])))
    decreases c
  {
    if c == 0 {
      assert line[..0] == [];
    } else {
      ScanInvariant(line, c - 1);
      if line[c - 1] != 0 {
        AdvanceOccupied(line, c - 1, c);
      } else {
        AdvanceEmpty(line, c - 1, c);
      }
    }
  }

  /** The invariant survives the step over an occupied cell `p`. */
  lemma AdvanceOccupied(line: seq<int>, p: int, c: int)
    requires 0 <= p < |line| && c == p + 1 && line[p] != 0
    requires ScannedUpTo(Scan(line, p), line, p, Merge(Occupied(line[..p])))
    ensures ScannedUpTo(Scan(line, c), line, c, Merge(Occupied(line[..c])))
  {
    OccupiedSnoc(line, p, c);
    ScanNext(line, p, c);
    var xs := Occupied(line[..p]);
    MergeSnoc(xs, line[p]);
    StepAtFrontier(Scan(line, p), line, p, c, Merge(xs));
  }

  /** The invariant survives the step over an empty cell `p`. */
  lemma AdvanceEmpty(line: seq<int>, p: int, c: int)
    requires 0 <= p < |line| && c == p + 1 && line[p] == 0
    requires ScannedUpTo(Scan(line, p), line, p, Merge(Occupied(line[..p])))
    ensures ScannedUpTo(Scan(line, c), line, c, Merge(Occupied(line[..c])))
  {
    OccupiedSnoc(line, p, c);
    ScanNext(line, p, c);
    var xs := Occupied(line[..p]);
    assert xs + [] == xs;
    StepOverEmpty(Scan(line, p), line, p, c, Merge(xs));
  }

  /** One scan step over an empty cell changes nothing. */
  lemma StepOverEmpty(st: LineState, line: seq<int>, p: int, c: int, out: seq<Tile>)
    requires 0 <= p < |line| && c == p + 1
    requires ScannedUpTo(st, line, p, out)
    requires line[p] == 0
    ensures ScannedUpTo(Step(st, p), line, c, out)
  {
  }

  /** One scan step from a state that holds the merged tiles `out`. */
  lemma StepAtFrontier(st: LineState, line: seq<int>, p: int, c: int, out: seq<Tile>)
    requires 0 <= p < |line| && c == p + 1
    requires ScannedUpTo(st, line, p, out)
    requires forall i | 0 <= i < |out| :: out[i].value != 0
    requires line[p] != 0
    ensures ScannedUpTo(Step(st, p), line, c, Push(out, line[p]))
  {
    var v := line[p];
    var k := |out|;
    assert k == 0 || st.cells[k - 1] == out[k - 1].value;
    EmptyRunStartUnique(st.cells, p, k);
    var t := Target(st.cells, st.marks, p, v);
    var isMerge := p != t && st.cells[t] != 0;
    var mergeable := k > 0 && out[k - 1].value == v && !out[k - 1].merged;
    assert isMerge == mergeable by {
      if !mergeable && k < p {
        assert st.cells[k] == 0;
      }
    }
  }

  /** The source's scan of a whole line computes the reference slide, and marks
      exactly the cells that received a merge. */
  lemma ScanIsSlide(line: seq<int>)
    ensures Scan(line, |line|).cells == Slide(line)
    ensures var out := Merge(Occupied(line));
      forall i | 0 <= i < |line| :: Scan(line, |line|).marks[i] == (i < |out| && out[i].merged)
  {
    ScanInvariant(line, |line|);
    assert line[..|line|] == line;
  }

  /** Slid lines are compacted toward position 0: no empty cell precedes an
      occupied one. */
  lemma SlideCompacted(line: seq<int>)
    ensures forall i, j | 0 <= i < j < |line| :: Slide(line)[i] == 0 ==> Slide(line)[j] == 0
  {
  }

  /** A line without empty cells is its own list of occupied values. */
  lemma {:induction false} OccupiedFull(s: seq<int>)
    requires forall i | 0 <= i < |s| :: s[i] != 0
    ensures Occupied(s) == s
    decreases |s|
  {
    if |s| > 0 {
      OccupiedFull(s[..|s| - 1]);
      assert s[..|s| - 1] + [s[|s| - 1]] == s;
    }
  }

  /** Without two equal neighbours nothing merges. */
  lemma {:induction false} MergeDistinct(xs: seq<int>)
    requires forall i | 0 <= i < |xs| - 1 :: xs[i] != xs[i + 1]
    ensures |Merge(xs)| == |xs|
    ensures forall i | 0 <= i < |xs| :: Merge(xs)[i] == Tile(xs[i], false)
    decreases |xs|
  {
    if |xs| > 0 {
      MergeDistinct(xs[1..]);
    }
  }

  /** Two equal neighbours merge, so the merged line is shorter. */
  lemma {:induction false} MergeShrinks(xs: seq<int>, i: int)
    requires 0 <= i < |xs| - 1 && xs[i] == xs[i + 1]
    ensures |Merge(xs)| < |xs|
    decreases |xs|
  {
    if xs[0] != xs[1] {
      MergeShrinks(xs[1..], i - 1);
    }
  }

  /** A full line in which no two neighbours are equal does not change when
      slid; a full line with two equal neighbours does. */
  lemma SlideFixed(line: seq<int>)
    requires forall i | 0 <= i < |line| :: line[i] != 0
    ensures Slide(line) == line <==> forall i | 0 <= i < |line| - 1 :: line[i] != line[i + 1]
  {
    OccupiedFull(line);
    if forall i | 0 <= i < |line| - 1 :: line[i] != line[i + 1] {
      MergeDistinct(line);
    } else {
      var i :| 0 <= i < |line| - 1 && line[i] == line[i + 1];
      MergeShrinks(line, i);
      assert Slide(line)[|line| - 1] != line[|line| - 1];
    }
  }
}
