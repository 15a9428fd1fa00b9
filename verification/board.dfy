/** The board of board.c: its grid, the animation records a move leaves
    behind, and the operations `UpdateBoard` strings together. The four moves
    are the source's nested loops; their invariant is `ScanFacts.ScanInv`. */
module Board {
  import opened Grid
  import opened Engine
  import opened ScanFacts

  /** `Appear` of animation.h: a spawned tile and where it appears. */
  datatype AppearRec = AppearRec(number: int, at: Pos)

  /** `Animation` of animation.h without its frame timer. */
  datatype Animation = Animation(playing: bool, moves: seq<MoveRec>, merges: seq<MergeRec>, appears: seq<AppearRec>)

  /** `Board` of board.h. */
  datatype Board = Board(cells: Cells, animation: Animation)

  /** One iteration of `MoveLeft`'s inner loop (board.c:342-357). */
  method VisitLeft(cells: Cells, mm: MergeMap, moves: seq<MoveRec>, merges: seq<MergeRec>, row: int, col: int)
    returns (cells': Cells, mm': MergeMap, moves': seq<MoveRec>, merges': seq<MergeRec>)
    requires InBounds(Pos(row, col))
    ensures ScanState(cells', mm', moves', merges') == StepCell(ScanState(cells, mm, moves, merges), Left, Pos(row, col))
  {
    cells', mm', moves', merges' := cells, mm, moves, merges;
    var cell := At(cells', row, col);
    if IsCellEmpty(cell) {
      return;
    }
    var targetCol := CalculateTargetColLeft(cells', cell, row, col, mm');
    var isMerge := col != targetCol && !IsCellEmpty(At(cells', row, targetCol));
    moves' := moves' + [MoveRec(Pos(row, col), Pos(row, targetCol), cell, isMerge)];
    if isMerge {
      merges' := merges' + [MergeRec(cell * 2, Pos(row, targetCol))];
      mm' := mm'[Index(Pos(row, targetCol)) := true];
    }
    cells' := cells'[Index(Pos(row, col)) := EmptyCell];
    cells' := cells'[Index(Pos(row, targetCol)) := if isMerge then cell * 2 else cell];
  }

  /** The loops of `MoveLeft` (board.c:337-360): rows top to bottom, columns left to right. */
  method SweepLeft(g0: Cells) returns (cells: Cells, mm: MergeMap, moves: seq<MoveRec>, merges: seq<MergeRec>)
    ensures ScanState(cells, mm, moves, merges) == RunLoops(g0, Left, Rows, 0)
  {
    cells, mm, moves, merges := g0, NoMarks(), [], [];
    var row := 0;
    while row < Rows
      invariant 0 <= row <= Rows
      invariant ScanState(cells, mm, moves, merges) == RunLoops(g0, Left, row, 0)
    {
      var col := 0;
      while col < Cols
        invariant 0 <= col <= Cols
        invariant ScanState(cells, mm, moves, merges) == RunLoops(g0, Left, row, col)
      {
        LoopsStep(g0, Left, row, col, col + 1, Pos(row, col));
        cells, mm, moves, merges := VisitLeft(cells, mm, moves, merges, row, col);
        col := col + 1;
      }
      LoopsNextRow(g0, Left, row, col, row + 1);
      row := row + 1;
    }
  }

  /** `MoveLeft` (board.c:337-360) slides every line toward the left edge. */
  method MoveLeft(g0: Cells) returns (cells: Cells, moves: seq<MoveRec>, merges: seq<MergeRec>)
    ensures cells == SlideGrid(g0, Left)
    ensures Conserved(g0, cells, moves, merges)
    ensures MergesSound(moves)
    ensures RecordsFollowScan(g0, Left, CellCount, moves)
    ensures RecordsLand(cells, moves)
    ensures RecordsOrdered(Left, moves)
    ensures IdleMeansUnchanged(g0, cells, moves)
    ensures CompactedToward(cells, Left)
  {
    var mm;
    cells, mm, moves, merges := SweepLeft(g0);
    LoopsDone(g0, Left, Rows, cells, mm, moves, merges);
  }

  /** One iteration of `MoveRight`'s inner loop (board.c:367-383). */
  method VisitRight(cells: Cells, mm: MergeMap, moves: seq<MoveRec>, merges: seq<MergeRec>, row: int, col: int)
    returns (cells': Cells, mm': MergeMap, moves': seq<MoveRec>, merges': seq<MergeRec>)
    requires InBounds(Pos(row, col))
    ensures ScanState(cells', mm', moves', merges') == StepCell(ScanState(cells, mm, moves, merges), Right, Pos(row, col))
  {
    cells', mm', moves', merges' := cells, mm, moves, merges;
    var cell := At(cells', row, col);
    if IsCellEmpty(cell) {
      return;
    }
    var targetCol := CalculateTargetColRight(cells', cell, row, col, mm');
    var isMerge := col != targetCol && !IsCellEmpty(At(cells', row, targetCol));
    moves' := moves' + [MoveRec(Pos(row, col), Pos(row, targetCol), cell, isMerge)];
    if isMerge {
      merges' := merges' + [MergeRec(cell * 2, Pos(row, targetCol))];
      mm' := mm'[Index(Pos(row, targetCol)) := true];
    }
    cells' := cells'[Index(Pos(row, col)) := EmptyCell];
    cells' := cells'[Index(Pos(row, targetCol)) := if isMerge then cell * 2 else cell];
  }

  /** The loops of `MoveRight` (board.c:362-386): rows top to bottom, columns right to left. */
  method SweepRight(g0: Cells) returns (cells: Cells, mm: MergeMap, moves: seq<MoveRec>, merges: seq<MergeRec>)
    ensures ScanState(cells, mm, moves, merges) == RunLoops(g0, Right, Rows, 0)
  {
    cells, mm, moves, merges := g0, NoMarks(), [], [];
    var row := 0;
    while row < Rows
      invariant 0 <= row <= Rows
      invariant ScanState(cells, mm, moves, merges) == RunLoops(g0, Right, row, 0)
    {
      var col := Cols - 1;
      ghost var c := 0;
      while col >= 0
        invariant -1 <= col < Cols && c == Cols - 1 - col
        invariant ScanState(cells, mm, moves, merges) == RunLoops(g0, Right, row, c)
      {
        LoopsStep(g0, Right, row, c, c + 1, Pos(row, col));
        cells, mm, moves, merges := VisitRight(cells, mm, moves, merges, row, col);
        col := col - 1;
        c := c + 1;
      }
      LoopsNextRow(g0, Right, row, c, row + 1);
      row := row + 1;
    }
  }

  /** `MoveRight` (board.c:362-386) slides every line toward the right edge. */
  method MoveRight(g0: Cells) returns (cells: Cells, moves: seq<MoveRec>, merges: seq<MergeRec>)
    ensures cells == SlideGrid(g0, Right)
    ensures Conserved(g0, cells, moves, merges)
    ensures MergesSound(moves)
    ensures RecordsFollowScan(g0, Right, CellCount, moves)
    ensures RecordsLand(cells, moves)
    ensures RecordsOrdered(Right, moves)
    ensures IdleMeansUnchanged(g0, cells, moves)
    ensures CompactedToward(cells, Right)
  {
    var mm;
    cells, mm, moves, merges := SweepRight(g0);
    LoopsDone(g0, Right, Rows, cells, mm, moves, merges);
  }

  /** One iteration of `MoveUp`'s inner loop (board.c:393-408). */
  method VisitUp(cells: Cells, mm: MergeMap, moves: seq<MoveRec>, merges: seq<MergeRec>, row: int, col: int)
    returns (cells': Cells, mm': MergeMap, moves': seq<MoveRec>, merges': seq<MergeRec>)
    requires InBounds(Pos(row, col))
    ensures ScanState(cells', mm', moves', merges') == StepCell(ScanState(cells, mm, moves, merges), Up, Pos(row, col))
  {
    cells', mm', moves', merges' := cells, mm, moves, merges;
    var cell := At(cells', row, col);
    if IsCellEmpty(cell) {
      return;
    }
    var targetRow := CalculateTargetRowUp(cells', cell, row, col, mm');
    var isMerge := row != targetRow && !IsCellEmpty(At(cells', targetRow, col));
    moves' := moves' + [MoveRec(Pos(row, col), Pos(targetRow, col), cell, isMerge)];
    if isMerge {
      merges' := merges' + [MergeRec(cell * 2, Pos(targetRow, col))];
      mm' := mm'[Index(Pos(targetRow, col)) := true];
    }
    cells' := cells'[Index(Pos(row, col)) := EmptyCell];
    cells' := cells'[Index(Pos(targetRow, col)) := if isMerge then cell * 2 else cell];
  }

  /** The loops of `MoveUp` (board.c:388-411): rows top to bottom, columns left to right. */
  method SweepUp(g0: Cells) returns (cells: Cells, mm: MergeMap, moves: seq<MoveRec>, merges: seq<MergeRec>)
    ensures ScanState(cells, mm, moves, merges) == RunLoops(g0, Up, Rows, 0)
  {
    cells, mm, moves, merges := g0, NoMarks(), [], [];
    var row := 0;
    while row < Rows
      invariant 0 <= row <= Rows
      invariant ScanState(cells, mm, moves, merges) == RunLoops(g0, Up, row, 0)
    {
      var col := 0;
      while col < Cols
        invariant 0 <= col <= Cols
        invariant ScanState(cells, mm, moves, merges) == RunLoops(g0, Up, row, col)
      {
        LoopsStep(g0, Up, row, col, col + 1, Pos(row, col));
        cells, mm, moves, merges := VisitUp(cells, mm, moves, merges, row, col);
        col := col + 1;
      }
      LoopsNextRow(g0, Up, row, col, row + 1);
      row := row + 1;
    }
  }

  /** `MoveUp` (board.c:388-411) slides every line toward the top edge. */
  method MoveUp(g0: Cells) returns (cells: Cells, moves: seq<MoveRec>, merges: seq<MergeRec>)
    ensures cells == SlideGrid(g0, Up)
    ensures Conserved(g0, cells, moves, merges)
    ensures MergesSound(moves)
    ensures RecordsFollowScan(g0, Up, CellCount, moves)
    ensures RecordsLand(cells, moves)
    ensures RecordsOrdered(Up, moves)
    ensures IdleMeansUnchanged(g0, cells, moves)
    ensures CompactedToward(cells, Up)
  {
    var mm;
    cells, mm, moves, merges := SweepUp(g0);
    LoopsDone(g0, Up, Rows, cells, mm, moves, merges);
  }

  /** One iteration of `MoveDown`'s inner loop (board.c:418-433). */
  method VisitDown(cells: Cells, mm: MergeMap, moves: seq<MoveRec>, merges: seq<MergeRec>, row: int, col: int)
    returns (cells': Cells, mm': MergeMap, moves': seq<MoveRec>, merges': seq<MergeRec>)
    requires InBounds(Pos(row, col))
    ensures ScanState(cells', mm', moves', merges') == StepCell(ScanState(cells, mm, moves, merges), Down, Pos(row, col))
  {
    cells', mm', moves', merges' := cells, mm, moves, merges;
    var cell := At(cells', row, col);
    if IsCellEmpty(cell) {
      return;
    }
    var targetRow := CalculateTargetRowDown(cells', cell, row, col, mm');
    var isMerge := row != targetRow && !IsCellEmpty(At(cells', targetRow, col));
    moves' := moves' + [MoveRec(Pos(row, col), Pos(targetRow, col), cell, isMerge)];
    if isMerge {
      merges' := merges' + [MergeRec(cell * 2, Pos(targetRow, col))];
      mm' := mm'[Index(Pos(targetRow, col)) := true];
    }
    cells' := cells'[Index(Pos(row, col)) := EmptyCell];
    cells' := cells'[Index(Pos(targetRow, col)) := if isMerge then cell * 2 else cell];
  }

  /** The loops of `MoveDown` (board.c:413-436): rows bottom to top, columns left to right. */
  method SweepDown(g0: Cells) returns (cells: Cells, mm: MergeMap, moves: seq<MoveRec>, merges: seq<MergeRec>)
    ensures ScanState(cells, mm, moves, merges) == RunLoops(g0, Down, Rows, 0)
  {
    cells, mm, moves, merges := g0, NoMarks(), [], [];
    var row := Rows - 1;
    ghost var r := 0;
    while row >= 0
      invariant -1 <= row < Rows && r == Rows - 1 - row
      invariant ScanState(cells, mm, moves, merges) == RunLoops(g0, Down, r, 0)
    {
      var col := 0;
      while col < Cols
        invariant 0 <= col <= Cols
        invariant ScanState(cells, mm, moves, merges) == RunLoops(g0, Down, r, col)
      {
        LoopsStep(g0, Down, r, col, col + 1, Pos(row, col));
        cells, mm, moves, merges := VisitDown(cells, mm, moves, merges, row, col);
        col := col + 1;
      }
      LoopsNextRow(g0, Down, r, col, r + 1);
      row := row - 1;
      r := r + 1;
    }
  }

  /** `MoveDown` (board.c:413-436) slides every line toward the bottom edge. */
  method MoveDown(g0: Cells) returns (cells: Cells, moves: seq<MoveRec>, merges: seq<MergeRec>)
    ensures cells == SlideGrid(g0, Down)
    ensures Conserved(g0, cells, moves, merges)
    ensures MergesSound(moves)
    ensures RecordsFollowScan(g0, Down, CellCount, moves)
    ensures RecordsLand(cells, moves)
    ensures RecordsOrdered(Down, moves)
    ensures IdleMeansUnchanged(g0, cells, moves)
    ensures CompactedToward(cells, Down)
  {
    var mm;
    cells, mm, moves, merges := SweepDown(g0);
    LoopsDone(g0, Down, Rows, cells, mm, moves, merges);
  }

  // ---------------------------------------------------------------------------
  // After a move

  /** `AnyMoveHappen` (board.c:207-214): some record's tile left its cell. The
      source compares the pixel positions of the records; cells are drawn at
      distinct positions, so comparing rows and columns is equivalent. */
  method AnyMoveHappen(moves: seq<MoveRec>) returns (r: bool)
    ensures r <==> !AllIdle(moves)
  {
    var i := 0;
    while i < |moves|
      invariant 0 <= i <= |moves|
      invariant forall j | 0 <= j < i :: moves[j].from == moves[j].to
    {
      var move := moves[i];
      if move.from.col != move.to.col || move.from.row != move.to.row {
        return true;
      }
      i := i + 1;
    }
    return false;
  }

  /** The empty cells among the first `i` cells in row-major order: the
      positions the first loop of `AddRandomCell` collects. */
  function EmptyOrder(g: Cells, i: int): seq<Pos>
    requires 0 <= i <= CellCount
    decreases i
  {
    if i == 0 then [] else EmptyOrder(g, i - 1) + (if IsCellEmpty(g[i - 1]) then [PosAt(i - 1)] else [])
  }

  lemma {:induction false} EmptyOrderPrefix(g: Cells, i: int)
    requires 0 <= i <= CellCount
    ensures forall j | 0 <= j < |EmptyOrder(g, i)| ::
      InBounds(EmptyOrder(g, i)[j]) && Index(EmptyOrder(g, i)[j]) < i && IsCellEmpty(g[Index(EmptyOrder(g, i)[j])])
    ensures forall j | 0 <= j < i && IsCellEmpty(g[j]) :: PosAt(j) in EmptyOrder(g, i)
    ensures forall a, c | 0 <= a < c < |EmptyOrder(g, i)| :: Index(EmptyOrder(g, i)[a]) < Index(EmptyOrder(g, i)[c])
    ensures |EmptyOrder(g, i)| == i - CountNonEmpty(g[..i])
    decreases i
  {
    if i > 0 {
      EmptyOrderPrefix(g, i - 1);
      assert g[..i][..i - 1] == g[..i - 1];
    }
  }

  /** The collected positions are exactly the empty cells, each once, in
      row-major order, and there are as many as the grid has empty cells. */
  lemma EmptyOrderListsEmptyCells(g: Cells)
    ensures forall p :: p in EmptyOrder(g, CellCount) <==> InBounds(p) && IsCellEmpty(g[Index(p)])
    ensures forall a, c | 0 <= a < c < |EmptyOrder(g, CellCount)| ::
      Index(EmptyOrder(g, CellCount)[a]) < Index(EmptyOrder(g, CellCount)[c])
    ensures |EmptyOrder(g, CellCount)| == CellCount - CountNonEmpty(g)
  {
    EmptyOrderPrefix(g, CellCount);
    assert g[..CellCount] == g;
    forall p | InBounds(p) && IsCellEmpty(g[Index(p)])
      ensures p in EmptyOrder(g, CellCount)
    {
      assert PosAt(Index(p)) == p;
    }
  }

  /** The first loop of `AddRandomCell` (board.c:184-195). */
  method CollectEmpty(g: Cells) returns (empties: seq<Pos>)
    ensures empties == EmptyOrder(g, CellCount)
  {
    empties := [];
    ghost var k := 0;
    var row := 0;
    while row < Rows
      invariant 0 <= row <= Rows && k == row * Cols
      invariant empties == EmptyOrder(g, k)
    {
      var col := 0;
      while col < Cols
        invariant 0 <= col <= Cols && k == row * Cols + col
        invariant empties == EmptyOrder(g, k)
      {
        assert PosAt(k) == Pos(row, col);
        var cell := At(g, row, col);
        if IsCellEmpty(cell) {
          empties := empties + [Pos(row, col)];
        }
        k, col := k + 1, col + 1;
      }
      row := row + 1;
    }
  }

  /** `b'` is `b` with a 2 spawned into the empty cell `p` and its `Appear`
      record appended. */
  ghost predicate Spawned(b: Board, b': Board, p: Pos)
  {
    && InBounds(p) && IsCellEmpty(b.cells[Index(p)])
    && b'.cells == b.cells[Index(p) := 2]
    && b'.animation == b.animation.(appears := b.animation.appears + [AppearRec(2, p)])
  }

  /** Spawning adds one tile and raises the sum by 2. */
  lemma SpawnedCounts(b: Board, b': Board, p: Pos)
    requires Spawned(b, b', p)
    ensures CountNonEmpty(b'.cells) == CountNonEmpty(b.cells) + 1
    ensures Sum(b'.cells) == Sum(b.cells) + 2
    ensures forall q | InBounds(q) && q != p :: b'.cells[Index(q)] == b.cells[Index(q)]
  {
    CountUpdate(b.cells, Index(p), 2);
    SumUpdate(b.cells, Index(p), 2);
    forall q | InBounds(q) && q != p
      ensures b'.cells[Index(q)] == b.cells[Index(q)]
    {
      IndexInjective(p, q);
    }
  }

  /** The cell `AddRandomCell` picks when `rand()` returns `roll`: entry
      `roll % count` of the empty cells in row-major order. */
  function ChosenEmpty(g: Cells, roll: nat): (p: Pos)
    requires CountNonEmpty(g) < CellCount
    ensures InBounds(p) && IsCellEmpty(g[Index(p)])
  {
    EmptyOrderListsEmptyCells(g);
    var empties := EmptyOrder(g, CellCount);
    empties[roll % |empties|]
  }

  /** `AddRandomCell` (board.c:183-205), with `roll` standing for the value
      `rand()` returns. */
  method AddRandomCell(b: Board, roll: nat) returns (b': Board)
    ensures CountNonEmpty(b.cells) == CellCount ==> b' == b
    ensures CountNonEmpty(b.cells) < CellCount ==> Spawned(b, b', ChosenEmpty(b.cells, roll))
  {
    var empties := CollectEmpty(b.cells);
    EmptyOrderListsEmptyCells(b.cells);
    if |empties| == 0 {
      return b;
    }
    var r := roll % |empties|;
    var chosen := empties[r];
    b' := b.(cells := b.cells[Index(chosen) := 2]);
    b' := b'.(animation := b'.animation.(appears := b'.animation.appears + [AppearRec(2, chosen)]));
  }

  /** `InitBoard` (board.c:175-181): a 2 at row 1, column 1 and at row 3,
      column 2, every other cell empty, and no animation. */
  function InitBoard(): (b: Board)
    ensures forall p | InBounds(p) :: b.cells[Index(p)] == (if p == Pos(1, 1) || p == Pos(3, 2) then 2 else EmptyCell)
    ensures b.animation == Animation(false, [], [], [])
  {
    var empty: Cells := seq(CellCount, _ => EmptyCell);
    Board(empty[Index(Pos(1, 1)) := 2][Index(Pos(3, 2)) := 2], Animation(false, [], [], []))
  }

  lemma {:induction false} NoTiles(s: seq<int>)
    requires forall i | 0 <= i < |s| :: IsCellEmpty(s[i])
    ensures CountNonEmpty(s) == 0 && Sum(s) == 0
    decreases |s|
  {
    if |s| > 0 {
      NoTiles(s[..|s| - 1]);
    }
  }

  /** The initial board holds two tiles summing to 4. */
  lemma InitBoardTiles()
    ensures CountNonEmpty(InitBoard().cells) == 2 && Sum(InitBoard().cells) == 4
  {
    var empty: Cells := seq(CellCount, _ => EmptyCell);
    NoTiles(empty);
    var one := empty[Index(Pos(1, 1)) := 2];
    CountUpdate(empty, Index(Pos(1, 1)), 2);
    SumUpdate(empty, Index(Pos(1, 1)), 2);
    CountUpdate(one, Index(Pos(3, 2)), 2);
    SumUpdate(one, Index(Pos(3, 2)), 2);
  }

  /** `ClearAnimations` (board.c:263-268) without the frame timer: the
      records of the previous move are dropped, the playing flag is kept. */
  function ClearAnimations(a: Animation): (r: Animation)
    ensures r.playing == a.playing && r.moves == [] && r.merges == [] && r.appears == []
  {
    a.(moves := [], merges := [], appears := [])
  }

  /** The move toward `d`, dispatched as in `UpdateBoard`. */
  method Move(g0: Cells, d: Direction) returns (cells: Cells, moves: seq<MoveRec>, merges: seq<MergeRec>)
    ensures cells == SlideGrid(g0, d)
    ensures Conserved(g0, cells, moves, merges)
    ensures MergesSound(moves)
    ensures RecordsFollowScan(g0, d, CellCount, moves)
    ensures RecordsLand(cells, moves)
    ensures RecordsOrdered(d, moves)
    ensures IdleMeansUnchanged(g0, cells, moves)
  {
    match d
    case Left => cells, moves, merges := MoveLeft(g0);
    case Right => cells, moves, merges := MoveRight(g0);
    case Up => cells, moves, merges := MoveUp(g0);
    case Down => cells, moves, merges := MoveDown(g0);
  }

  /** One key branch of `UpdateBoard` (board.c:217-223, repeated at 224-247
      for the other keys): clear the records, move, and when a tile moved
      start the animation and spawn a tile. */
  method KeyMove(b: Board, d: Direction, roll: nat) returns (b': Board)
    ensures MoveOutcome(b.cells, d, SlideGrid(b.cells, d), b'.animation.moves, b'.animation.merges)
    ensures SlideGrid(b.cells, d) == b.cells ==>
      b' == Board(b.cells, Animation(b.animation.playing, b'.animation.moves, b'.animation.merges, []))
    ensures SlideGrid(b.cells, d) != b.cells ==>
      && CountNonEmpty(SlideGrid(b.cells, d)) < CellCount
      && Spawned(Board(SlideGrid(b.cells, d), Animation(true, b'.animation.moves, b'.animation.merges, [])), b',
                 ChosenEmpty(SlideGrid(b.cells, d), roll))
    // a key press that changes the grid adds one tile beyond the move's own
    // count and raises the sum by 2
    ensures Sum(b'.cells) == Sum(b.cells) + (if SlideGrid(b.cells, d) != b.cells then 2 else 0)
    ensures CountNonEmpty(b'.cells) ==
      CountNonEmpty(b.cells) - MergeCount(b'.animation.moves) + (if SlideGrid(b.cells, d) != b.cells then 1 else 0)
  {
    var animation := ClearAnimations(b.animation);
    var cells, moves, merges := Move(b.cells, d);
    b' := Board(cells, animation.(moves := moves, merges := merges));
    var moved := AnyMoveHappen(moves);
    if moved {
      b' := b'.(animation := b'.animation.(playing := true));
      ghost var before := b';
      b' := AddRandomCell(b', roll);
      SpawnedCounts(before, b', ChosenEmpty(cells, roll));
    }
  }
}
