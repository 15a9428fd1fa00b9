/** The transition engine of board.c: the four target searches, one iteration
    of a move's scan, and each direction's visiting order. The `Board` module
    wraps these in the source's loops. */
module Engine {
  import opened Grid
  import Line

  datatype Direction = Left | Right | Up | Down

  /** `Move` of animation.h: one per tile visited by a move. */
  datatype MoveRec = MoveRec(from: Pos, to: Pos, number: int, isMerge: bool)

  /** `Merge` of animation.h: the doubled value and where it appears. */
  datatype MergeRec = MergeRec(number: int, at: Pos)

  // ---------------------------------------------------------------------------
  // Target searches (board.c:282-335). Each walks over empty cells toward the
  // edge, then steps onto the next cell if it holds the same value and has not
  // received a merge in this move.

  /** The loop of `CalculateTargetColLeft`. */
  function EmptyRunLeft(g: Cells, row: int, t: int): (s: int)
    requires 0 <= row < Rows && 0 <= t < Cols
    ensures 0 <= s <= t
    ensures forall c | s <= c < t :: IsCellEmpty(At(g, row, c))
    ensures s == 0 || !IsCellEmpty(At(g, row, s - 1))
    decreases t
  {
    if t > 0 && IsCellEmpty(At(g, row, t - 1)) then EmptyRunLeft(g, row, t - 1) else t
  }

  function CalculateTargetColLeft(g: Cells, cell: int, row: int, col: int, mm: MergeMap): (t: int)
    requires 0 <= row < Rows && 0 <= col < Cols
    ensures 0 <= t <= col
    ensures forall c | t < c < col :: IsCellEmpty(At(g, row, c))
    ensures t < col && !IsCellEmpty(At(g, row, t)) ==> At(g, row, t) == cell && !Marked(mm, row, t)
    ensures (t == col || IsCellEmpty(At(g, row, t))) && t > 0 ==>
              !IsCellEmpty(At(g, row, t - 1)) && (At(g, row, t - 1) != cell || Marked(mm, row, t - 1))
  {
    var s := EmptyRunLeft(g, row, col);
    if s > 0 && At(g, row, s - 1) == cell && !Marked(mm, row, s - 1) then s - 1 else s
  }

  /** The loop of `CalculateTargetColRight`. */
  function EmptyRunRight(g: Cells, row: int, t: int): (s: int)
    requires 0 <= row < Rows && 0 <= t < Cols
    ensures t <= s < Cols
    ensures forall c | t < c <= s :: IsCellEmpty(At(g, row, c))
    ensures s == Cols - 1 || !IsCellEmpty(At(g, row, s + 1))
    decreases Cols - t
  {
    if t < Cols - 1 && IsCellEmpty(At(g, row, t + 1)) then EmptyRunRight(g, row, t + 1) else t
  }

  function CalculateTargetColRight(g: Cells, cell: int, row: int, col: int, mm: MergeMap): (t: int)
    requires 0 <= row < Rows && 0 <= col < Cols
    ensures col <= t < Cols
    ensures forall c | col < c < t :: IsCellEmpty(At(g, row, c))
    ensures t > col && !IsCellEmpty(At(g, row, t)) ==> At(g, row, t) == cell && !Marked(mm, row, t)
    ensures (t == col || IsCellEmpty(At(g, row, t))) && t < Cols - 1 ==>
              !IsCellEmpty(At(g, row, t + 1)) && (At(g, row, t + 1) != cell || Marked(mm, row, t + 1))
  {
    var s := EmptyRunRight(g, row, col);
    if s < Cols - 1 && At(g, row, s + 1) == cell && !Marked(mm, row, s + 1) then s + 1 else s
  }

  /** The loop of `CalculateTargetRowUp`. */
  function EmptyRunUp(g: Cells, t: int, col: int): (s: int)
    requires 0 <= t < Rows && 0 <= col < Cols
    ensures 0 <= s <= t
    ensures forall r | s <= r < t :: IsCellEmpty(At(g, r, col))
    ensures s == 0 || !IsCellEmpty(At(g, s - 1, col))
    decreases t
  {
    if t > 0 && IsCellEmpty(At(g, t - 1, col)) then EmptyRunUp(g, t - 1, col) else t
  }

  function CalculateTargetRowUp(g: Cells, cell: int, row: int, col: int, mm: MergeMap): (t: int)
    requires 0 <= row < Rows && 0 <= col < Cols
    ensures 0 <= t <= row
    ensures forall r | t < r < row :: IsCellEmpty(At(g, r, col))
    ensures t < row && !IsCellEmpty(At(g, t, col)) ==> At(g, t, col) == cell && !Marked(mm, t, col)
    ensures (t == row || IsCellEmpty(At(g, t, col))) && t > 0 ==>
              !IsCellEmpty(At(g, t - 1, col)) && (At(g, t - 1, col) != cell || Marked(mm, t - 1, col))
  {
    var s := EmptyRunUp(g, row, col);
    if s > 0 && At(g, s - 1, col) == cell && !Marked(mm, s - 1, col) then s - 1 else s
  }

  /** The loop of `CalculateTargetRowDown`. */
  function EmptyRunDown(g: Cells, t: int, col: int): (s: int)
    requires 0 <= t < Rows && 0 <= col < Cols
    ensures t <= s < Rows
    ensures forall r | t < r <= s :: IsCellEmpty(At(g, r, col))
    ensures s == Rows - 1 || !IsCellEmpty(At(g, s + 1, col))
    decreases Rows - t
  {
    if t < Rows - 1 && IsCellEmpty(At(g, t + 1, col)) then EmptyRunDown(g, t + 1, col) else t
  }

  /** The merge step bounds a row index by `Cols - 1`, as board.c:330 does;
      that is the same bound because the board is square. */
  function CalculateTargetRowDown(g: Cells, cell: int, row: int, col: int, mm: MergeMap): (t: int)
    requires 0 <= row < Rows && 0 <= col < Cols
    ensures row <= t < Rows
    ensures forall r | row < r < t :: IsCellEmpty(At(g, r, col))
    ensures t > row && !IsCellEmpty(At(g, t, col)) ==> At(g, t, col) == cell && !Marked(mm, t, col)
    ensures (t == row || IsCellEmpty(At(g, t, col))) && t < Rows - 1 ==>
              !IsCellEmpty(At(g, t + 1, col)) && (At(g, t + 1, col) != cell || Marked(mm, t + 1, col))
  {
    var s := EmptyRunDown(g, row, col);
    if s < Cols - 1 && At(g, s + 1, col) == cell && !Marked(mm, s + 1, col) then s + 1 else s
  }

  // ---------------------------------------------------------------------------
  // Lines. A move treats each row (Left, Right) or column (Up, Down) as a line
  // whose position 0 is the cell at the edge the tiles move toward.

  /** The line a cell belongs to under direction `d`. */
  function LineIndex(d: Direction, q: Pos): (line: int)
    ensures InBounds(q) ==> 0 <= line < N
  {
    match d
    case Left => q.row
    case Right => q.row
    case Up => q.col
    case Down => q.col
  }

  /** The distance of a cell from the edge `d` moves toward. */
  function LinePos(d: Direction, q: Pos): (p: int)
    ensures InBounds(q) ==> 0 <= p < N
  {
    match d
    case Left => q.col
    case Right => Cols - 1 - q.col
    case Up => q.row
    case Down => Rows - 1 - q.row
  }

  /** The cell at position `p` of line `line`. */
  function CellOf(d: Direction, line: int, p: int): (q: Pos)
    requires 0 <= line < N && 0 <= p < N
    ensures InBounds(q) && LineIndex(d, q) == line && LinePos(d, q) == p
  {
    match d
    case Left => Pos(line, p)
    case Right => Pos(line, Cols - 1 - p)
    case Up => Pos(p, line)
    case Down => Pos(Rows - 1 - p, line)
  }

  lemma CellOfLinePos(d: Direction, q: Pos)
    requires InBounds(q)
    ensures 0 <= LineIndex(d, q) < N && 0 <= LinePos(d, q) < N
    ensures CellOf(d, LineIndex(d, q), LinePos(d, q)) == q
  {
  }

  /** The values of one line, read from the edge inward. */
  function LineOf<T>(m: seq<T>, d: Direction, line: int): (s: seq<T>)
    requires |m| == CellCount && 0 <= line < N
    ensures |s| == N
    ensures forall p | 0 <= p < N :: s[p] == m[Index(CellOf(d, line, p))]
  {
    seq(N, p requires 0 <= p < N => m[Index(CellOf(d, line, p))])
  }

  /** Along every line, no empty cell lies nearer the edge than an occupied one. */
  ghost predicate CompactedToward(g: Cells, d: Direction)
  {
    forall line, p1, p2 | 0 <= line < N && 0 <= p1 < p2 < N ::
      IsCellEmpty(g[Index(CellOf(d, line, p1))]) ==> IsCellEmpty(g[Index(CellOf(d, line, p2))])
  }

  // ---------------------------------------------------------------------------
  // Visiting order. MoveLeft, MoveRight and MoveUp take rows top to bottom,
  // MoveDown bottom to top; MoveRight takes columns right to left, the others
  // left to right. Either way each line is visited from its edge inward.

  /** The iteration at which the scan toward `d` visits cell `q`. */
  function ScanIndex(d: Direction, q: Pos): int
  {
    match d
    case Left => N * LineIndex(d, q) + LinePos(d, q)
    case Right => N * LineIndex(d, q) + LinePos(d, q)
    case Up => N * LinePos(d, q) + LineIndex(d, q)
    case Down => N * LinePos(d, q) + LineIndex(d, q)
  }

  function ScanLine(d: Direction, i: int): (line: int)
    requires 0 <= i < CellCount
    ensures 0 <= line < N
  {
    match d
    case Left => i / N
    case Right => i / N
    case Up => i % N
    case Down => i % N
  }

  function ScanPos(d: Direction, i: int): (p: int)
    requires 0 <= i < CellCount
    ensures 0 <= p < N
  {
    match d
    case Left => i % N
    case Right => i % N
    case Up => i / N
    case Down => i / N
  }

  /** The cell visited at iteration `i`. */
  function ScanCell(d: Direction, i: int): (q: Pos)
    requires 0 <= i < CellCount
    ensures InBounds(q) && ScanIndex(d, q) == i
  {
    CellOf(d, ScanLine(d, i), ScanPos(d, i))
  }

  lemma ScanIndexBounds(d: Direction, q: Pos)
    requires InBounds(q)
    ensures 0 <= ScanIndex(d, q) < CellCount
    ensures ScanCell(d, ScanIndex(d, q)) == q
  {
  }

  /** Distinct cells are visited at distinct iterations. */
  lemma ScanIndexInjective(d: Direction, a: Pos, b: Pos)
    requires InBounds(a) && InBounds(b)
    ensures a != b ==> ScanIndex(d, a) != ScanIndex(d, b)
  {
    match d
    case Left =>
    case Right =>
    case Up =>
    case Down =>
  }

  /** A cell visited later lies on another line, or farther from the edge. */
  lemma ScanIndexOrder(d: Direction, q: Pos, pos: Pos)
    requires InBounds(q) && InBounds(pos) && ScanIndex(d, q) > ScanIndex(d, pos)
    ensures LineIndex(d, q) != LineIndex(d, pos) || LinePos(d, q) > LinePos(d, pos)
  {
  }

  // ---------------------------------------------------------------------------
  // One iteration of a move's inner loop (board.c:342-357 and its mirrors).

  /** The target `q` of the tile of value `cell` at `pos`, described along the
      line: the cells strictly between are empty; an occupied target holds an
      equal, unmarked tile; and when the tile does not merge, the cell in front
      of the target is occupied by a different or already merged tile. */
  ghost predicate IsTargetOf(d: Direction, g: Cells, cell: int, pos: Pos, mm: MergeMap, q: Pos)
    requires InBounds(pos)
  {
    && InBounds(q) && LineIndex(d, q) == LineIndex(d, pos) && LinePos(d, q) <= LinePos(d, pos)
    && (forall i | LinePos(d, q) < i < LinePos(d, pos) :: IsCellEmpty(g[Index(CellOf(d, LineIndex(d, pos), i))]))
    && (q != pos && !IsCellEmpty(g[Index(q)]) ==> g[Index(q)] == cell && !mm[Index(q)])
    && ((q == pos || IsCellEmpty(g[Index(q)])) && LinePos(d, q) > 0 ==>
          var b := CellOf(d, LineIndex(d, pos), LinePos(d, q) - 1);
          !IsCellEmpty(g[Index(b)]) && (g[Index(b)] != cell || mm[Index(b)]))
  }

  /** The target search of direction `d` for the tile at `pos`. */
  function TargetOf(d: Direction, g: Cells, cell: int, pos: Pos, mm: MergeMap): (q: Pos)
    requires InBounds(pos)
    ensures IsTargetOf(d, g, cell, pos, mm, q)
  {
    match d
    case Left => LeftIsTarget(g, cell, pos, mm); Pos(pos.row, CalculateTargetColLeft(g, cell, pos.row, pos.col, mm))
    case Right => RightIsTarget(g, cell, pos, mm); Pos(pos.row, CalculateTargetColRight(g, cell, pos.row, pos.col, mm))
    case Up => UpIsTarget(g, cell, pos, mm); Pos(CalculateTargetRowUp(g, cell, pos.row, pos.col, mm), pos.col)
    case Down => DownIsTarget(g, cell, pos, mm); Pos(CalculateTargetRowDown(g, cell, pos.row, pos.col, mm), pos.col)
  }

  lemma LeftIsTarget(g: Cells, cell: int, pos: Pos, mm: MergeMap)
    requires InBounds(pos)
    ensures IsTargetOf(Left, g, cell, pos, mm, Pos(pos.row, CalculateTargetColLeft(g, cell, pos.row, pos.col, mm)))
  {
    var q := Pos(pos.row, CalculateTargetColLeft(g, cell, pos.row, pos.col, mm));
    forall i | q.col < i < pos.col
      ensures IsCellEmpty(g[Index(CellOf(Left, pos.row, i))])
    {
      assert IsCellEmpty(At(g, pos.row, i));
    }
  }

  lemma RightIsTarget(g: Cells, cell: int, pos: Pos, mm: MergeMap)
    requires InBounds(pos)
    ensures IsTargetOf(Right, g, cell, pos, mm, Pos(pos.row, CalculateTargetColRight(g, cell, pos.row, pos.col, mm)))
  {
    var q := Pos(pos.row, CalculateTargetColRight(g, cell, pos.row, pos.col, mm));
    forall i | LinePos(Right, q) < i < LinePos(Right, pos)
      ensures IsCellEmpty(g[Index(CellOf(Right, pos.row, i))])
    {
      assert IsCellEmpty(At(g, pos.row, Cols - 1 - i));
    }
  }

  lemma UpIsTarget(g: Cells, cell: int, pos: Pos, mm: MergeMap)
    requires InBounds(pos)
    ensures IsTargetOf(Up, g, cell, pos, mm, Pos(CalculateTargetRowUp(g, cell, pos.row, pos.col, mm), pos.col))
  {
    var q := Pos(CalculateTargetRowUp(g, cell, pos.row, pos.col, mm), pos.col);
    forall i | q.row < i < pos.row
      ensures IsCellEmpty(g[Index(CellOf(Up, pos.col, i))])
    {
      assert IsCellEmpty(At(g, i, pos.col));
    }
  }

  lemma DownIsTarget(g: Cells, cell: int, pos: Pos, mm: MergeMap)
    requires InBounds(pos)
    ensures IsTargetOf(Down, g, cell, pos, mm, Pos(CalculateTargetRowDown(g, cell, pos.row, pos.col, mm), pos.col))
  {
    var q := Pos(CalculateTargetRowDown(g, cell, pos.row, pos.col, mm), pos.col);
    forall i | LinePos(Down, q) < i < LinePos(Down, pos)
      ensures IsCellEmpty(g[Index(CellOf(Down, pos.col, i))])
    {
      assert IsCellEmpty(At(g, Rows - 1 - i, pos.col));
    }
  }

  datatype ScanState = ScanState(cells: Cells, mergeMap: MergeMap, moves: seq<MoveRec>, merges: seq<MergeRec>)

  /** Visit `pos`: skip it when empty; otherwise record the tile's move, clear
      `pos` and write the tile, doubled when it merges, at its target. */
  function StepCell(s: ScanState, d: Direction, pos: Pos): (s': ScanState)
    requires InBounds(pos)
    // cells on other lines, and cells farther from the edge on this line, keep their values
    ensures forall q | InBounds(q) && LineIndex(d, q) != LineIndex(d, pos) ::
              s'.cells[Index(q)] == s.cells[Index(q)] && s'.mergeMap[Index(q)] == s.mergeMap[Index(q)]
    ensures forall q | InBounds(q) && LineIndex(d, q) == LineIndex(d, pos) && LinePos(d, q) > LinePos(d, pos) ::
              s'.cells[Index(q)] == s.cells[Index(q)]
    // the tile's value is moved, or combined with an equal one, never created or lost
    ensures Sum(s'.cells) == Sum(s.cells)
    ensures CountNonEmpty(s'.cells) == CountNonEmpty(s.cells) - (|s'.merges| - |s.merges|)
  {
    var cell := s.cells[Index(pos)];
    if IsCellEmpty(cell) then s
    else
      var target := TargetOf(d, s.cells, cell, pos, s.mergeMap);
      var isMerge := pos != target && !IsCellEmpty(s.cells[Index(target)]);
      var cells' := s.cells[Index(pos) := EmptyCell][Index(target) := if isMerge then cell * 2 else cell];
      StepCellSums(s.cells, Index(pos), Index(target), cell, isMerge);
      UntouchedCells(d, pos, target);
      ScanState(cells',
                if isMerge then s.mergeMap[Index(target) := true] else s.mergeMap,
                s.moves + [MoveRec(pos, target, cell, isMerge)],
                if isMerge then s.merges + [MergeRec(cell * 2, target)] else s.merges)
  }

  /** The only cells a step writes are the visited cell and its target. */
  lemma UntouchedCells(d: Direction, pos: Pos, target: Pos)
    requires InBounds(pos) && InBounds(target)
    requires LineIndex(d, target) == LineIndex(d, pos) && LinePos(d, target) <= LinePos(d, pos)
    ensures forall q | InBounds(q) && (LineIndex(d, q) != LineIndex(d, pos) || LinePos(d, q) > LinePos(d, pos)) ::
              Index(q) != Index(pos) && Index(q) != Index(target)
  {
    forall q | InBounds(q) && (LineIndex(d, q) != LineIndex(d, pos) || LinePos(d, q) > LinePos(d, pos))
      ensures Index(q) != Index(pos) && Index(q) != Index(target)
    {
      IndexInjective(q, pos);
      IndexInjective(q, target);
    }
  }

  /** Sum and occupied count after clearing `src` and writing its value, or
      double its value, to `dst`. */
  lemma StepCellSums(g: Cells, src: int, dst: int, cell: int, isMerge: bool)
    requires 0 <= src < CellCount && 0 <= dst < CellCount
    requires g[src] == cell && !IsCellEmpty(cell)
    requires isMerge ==> src != dst && g[dst] == cell
    requires !isMerge ==> src == dst || IsCellEmpty(g[dst])
    ensures var g' := g[src := EmptyCell][dst := if isMerge then cell * 2 else cell];
      Sum(g') == Sum(g) && CountNonEmpty(g') == CountNonEmpty(g) - (if isMerge then 1 else 0)
  {
    var g1 := g[src := EmptyCell];
    SumUpdate(g, src, EmptyCell);
    SumUpdate(g1, dst, if isMerge then cell * 2 else cell);
    CountUpdate(g, src, EmptyCell);
    CountUpdate(g1, dst, if isMerge then cell * 2 else cell);
  }

}
