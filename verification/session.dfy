/** The game loop of 2048.c: the loss test `check_game_lost`, the tile-based
    `any_move_happen`, the key handler `hanlde_move` and the reset
    `init_game`. 2048.c draws a board of tile records (`tiles`,
    `tiles_count`) over a cell grid (`tiles_map`); that board type and the
    functions `move_tiles` and `add_random_tile` live in files that are not
    part of this model. They are stood in for by board.c's move engine and
    its random-cell rule, with every move record turned into one tile
    record. `EMPTY_TILE_VALUE` is taken to be board.c's empty cell, 0. */
module Session {
  import opened Grid
  import opened Engine
  import opened ScanFacts
  import Line
  import Board

  // ---------------------------------------------------------------------------
  // The loss test.

  /** No cell is empty. */
  predicate Full(g: Cells)
  {
    forall i | 0 <= i < CellCount :: !IsCellEmpty(g[i])
  }

  /** The cell at (row, col) equals its right-hand neighbour. */
  predicate HorizontalTwins(g: Cells, row: int, col: int)
    requires 0 <= row < Rows && 0 <= col < Cols - 1
  {
    At(g, row, col) == At(g, row, col + 1)
  }

  /** The cell at (row, col) equals the one below it. */
  predicate VerticalTwins(g: Cells, row: int, col: int)
    requires 0 <= row < Rows - 1 && 0 <= col < Cols
  {
    At(g, row, col) == At(g, row + 1, col)
  }

  /** The game is lost: the grid is full and no two orthogonal neighbours hold
      the same value, so no move can merge or slide a tile. */
  predicate IsLost(g: Cells)
  {
    && Full(g)
    && (forall row, col | 0 <= row < Rows && 0 <= col < Cols - 1 :: !HorizontalTwins(g, row, col))
    && (forall row, col | 0 <= row < Rows - 1 && 0 <= col < Cols :: !VerticalTwins(g, row, col))
  }

  /** The value the row pass of `check_game_lost` compares (row, col) with:
      the cell to its left, or the sentinel -1 that `prev_value` is reset to
      at the start of every row. */
  function RowPrev(g: Cells, row: int, col: int): int
    requires 0 <= row < Rows && 0 <= col < Cols
  {
    if col == 0 then -1 else At(g, row, col - 1)
  }

  /** The same for the column pass: the cell above, or -1 in row 0. */
  function ColPrev(g: Cells, row: int, col: int): int
    requires 0 <= row < Rows && 0 <= col < Cols
  {
    if row == 0 then -1 else At(g, row - 1, col)
  }

  /** The cell passes the row pass: it is occupied and differs from `RowPrev`. */
  predicate RowPass(g: Cells, row: int, col: int)
    requires 0 <= row < Rows && 0 <= col < Cols
  {
    !IsCellEmpty(At(g, row, col)) && At(g, row, col) != RowPrev(g, row, col)
  }

  /** The cell passes the column pass: it differs from `ColPrev`. */
  predicate ColPass(g: Cells, row: int, col: int)
    requires 0 <= row < Rows && 0 <= col < Cols
  {
    At(g, row, col) != ColPrev(g, row, col)
  }

  /** What `check_game_lost` decides: every cell passes both passes. */
  predicate LostAsWritten(g: Cells)
  {
    && (forall row, col | 0 <= row < Rows && 0 <= col < Cols :: RowPass(g, row, col))
    && (forall row, col | 0 <= row < Rows && 0 <= col < Cols :: ColPass(g, row, col))
  }

  /** No cell of the first column or the first row holds the sentinel -1.
      Tiles are 0 or powers of two, so a grid of the game always satisfies it. */
  predicate NoSentinel(g: Cells)
  {
    && (forall row | 0 <= row < Rows :: At(g, row, 0) != -1)
    && (forall col | 0 <= col < Cols :: At(g, 0, col) != -1)
  }

  /** `check_game_lost` is exactly the loss condition, except that a -1 in the
      first column or first row would be mistaken for the reset sentinel. The
      last cell of a row is never compared with the first cell of the next
      row, nor the bottom cell of a column with the top of the next. */
  lemma LostAsWrittenExact(g: Cells)
    ensures LostAsWritten(g) <==> IsLost(g) && NoSentinel(g)
  {
    if LostAsWritten(g) {
      LostAsWrittenSound(g);
    }
    if IsLost(g) && NoSentinel(g) {
      LostAsWrittenComplete(g);
    }
  }

  lemma LostAsWrittenSound(g: Cells)
    requires LostAsWritten(g)
    ensures IsLost(g) && NoSentinel(g)
  {
    forall i | 0 <= i < CellCount
      ensures !IsCellEmpty(g[i])
    {
      var p := PosAt(i);
      assert RowPass(g, p.row, p.col);
    }
    forall row, col | 0 <= row < Rows && 0 <= col < Cols - 1
      ensures !HorizontalTwins(g, row, col)
    {
      assert RowPass(g, row, col + 1);
    }
    forall row, col | 0 <= row < Rows - 1 && 0 <= col < Cols
      ensures !VerticalTwins(g, row, col)
    {
      assert ColPass(g, row + 1, col);
    }
    forall row | 0 <= row < Rows
      ensures At(g, row, 0) != -1
    {
      assert RowPass(g, row, 0);
    }
    forall col | 0 <= col < Cols
      ensures At(g, 0, col) != -1
    {
      assert ColPass(g, 0, col);
    }
  }

  lemma LostAsWrittenComplete(g: Cells)
    requires IsLost(g) && NoSentinel(g)
    ensures LostAsWritten(g)
  {
    forall row, col | 0 <= row < Rows && 0 <= col < Cols
      ensures RowPass(g, row, col)
    {
      assert !IsCellEmpty(g[Index(Pos(row, col))]);
      if col > 0 {
        assert !HorizontalTwins(g, row, col - 1);
      }
    }
    forall row, col | 0 <= row < Rows && 0 <= col < Cols
      ensures ColPass(g, row, col)
    {
      if row > 0 {
        assert !VerticalTwins(g, row - 1, col);
      }
    }
  }

  /** One row of the row pass of `check_game_lost` (2048.c:56-62), entered
      with `prev_value` at -1. */
  method ScanRow(g: Cells, row: int) returns (ok: bool)
    requires 0 <= row < Rows
    ensures ok <==> forall c | 0 <= c < Cols :: RowPass(g, row, c)
  {
    var prev := -1;
    var col := 0;
    while col < Cols
      invariant 0 <= col <= Cols
      invariant col > 0 ==> prev == At(g, row, col - 1)
      invariant col == 0 ==> prev == -1
      invariant forall c | 0 <= c < col :: RowPass(g, row, c)
    {
      if IsCellEmpty(At(g, row, col)) || At(g, row, col) == prev {
        assert !RowPass(g, row, col);
        return false;
      }
      prev := At(g, row, col);
      col := col + 1;
    }
    return true;
  }

  /** The row pass of `check_game_lost` (2048.c:54-64): `prev_value` is
      reset to -1 after every row. */
  method RowPassLoop(g: Cells) returns (ok: bool)
    ensures ok <==> forall r, c | 0 <= r < Rows && 0 <= c < Cols :: RowPass(g, r, c)
  {
    var row := 0;
    while row < Rows
      invariant 0 <= row <= Rows
      invariant forall r, c | 0 <= r < row && 0 <= c < Cols :: RowPass(g, r, c)
    {
      ok := ScanRow(g, row);
      if !ok {
        return;
      }
      row := row + 1;
    }
    return true;
  }

  /** One column of the column pass of `check_game_lost` (2048.c:68-73),
      entered with `prev_value` at -1. */
  method ScanCol(g: Cells, col: int) returns (ok: bool)
    requires 0 <= col < Cols
    ensures ok <==> forall r | 0 <= r < Rows :: ColPass(g, r, col)
  {
    var prev := -1;
    var row := 0;
    while row < Rows
      invariant 0 <= row <= Rows
      invariant row > 0 ==> prev == At(g, row - 1, col)
      invariant row == 0 ==> prev == -1
      invariant forall r | 0 <= r < row :: ColPass(g, r, col)
    {
      if At(g, row, col) == prev {
        assert !ColPass(g, row, col);
        return false;
      }
      prev := At(g, row, col);
      row := row + 1;
    }
    return true;
  }

  /** The column pass of `check_game_lost` (2048.c:65-75), with the same
      resets between columns. */
  method ColPassLoop(g: Cells) returns (ok: bool)
    ensures ok <==> forall r, c | 0 <= r < Rows && 0 <= c < Cols :: ColPass(g, r, c)
  {
    var col := 0;
    while col < Cols
      invariant 0 <= col <= Cols
      invariant forall r, c | 0 <= r < Rows && 0 <= c < col :: ColPass(g, r, c)
    {
      ok := ScanCol(g, col);
      if !ok {
        return;
      }
      col := col + 1;
    }
    return true;
  }

  /** `check_game_lost` (2048.c:53-76): the row pass, then the column pass. */
  method CheckGameLost(g: Cells) returns (lost: bool)
    ensures lost <==> LostAsWritten(g)
  {
    lost := RowPassLoop(g);
    if lost {
      lost := ColPassLoop(g);
    }
  }

  predicate Even(n: int)
  {
    n % 2 == 0
  }

  /** Neighbouring cells have row + col of opposite parity. */
  lemma EvenFlip(a: int, b: int)
    requires b == a + 1
    ensures Even(a) != Even(b)
  {
  }

  /** The checkerboard value of a cell: 2 where row + col is even, 4 elsewhere. */
  function Shade(p: Pos): int
  {
    if Even(p.row + p.col) then 2 else 4
  }

  /** The 2/4 checkerboard. */
  const Checkerboard: Cells := seq(CellCount, i requires 0 <= i < CellCount => Shade(PosAt(i)))

  lemma CheckerboardAt(row: int, col: int)
    requires 0 <= row < Rows && 0 <= col < Cols
    ensures At(Checkerboard, row, col) == if Even(row + col) then 2 else 4
  {
    var p := Pos(row, col);
    IndexInjective(PosAt(Index(p)), p);
  }

  lemma CheckerboardRows()
    ensures forall row, col | 0 <= row < Rows && 0 <= col < Cols - 1 :: !HorizontalTwins(Checkerboard, row, col)
  {
    forall row, col | 0 <= row < Rows && 0 <= col < Cols - 1
      ensures !HorizontalTwins(Checkerboard, row, col)
    {
      CheckerboardAt(row, col);
      CheckerboardAt(row, col + 1);
      EvenFlip(row + col, row + (col + 1));
    }
  }

  lemma CheckerboardCols()
    ensures forall row, col | 0 <= row < Rows - 1 && 0 <= col < Cols :: !VerticalTwins(Checkerboard, row, col)
  {
    forall row, col | 0 <= row < Rows - 1 && 0 <= col < Cols
      ensures !VerticalTwins(Checkerboard, row, col)
    {
      CheckerboardAt(row, col);
      CheckerboardAt(row + 1, col);
      EvenFlip(row + col, row + 1 + col);
    }
  }

  lemma CheckerboardFull()
    ensures Full(Checkerboard) && NoSentinel(Checkerboard)
  {
    forall row | 0 <= row < Rows
      ensures At(Checkerboard, row, 0) != -1
    {
      CheckerboardAt(row, 0);
    }
    forall col | 0 <= col < Cols
      ensures At(Checkerboard, 0, col) != -1
    {
      CheckerboardAt(0, col);
    }
  }

  /** The checkerboard is lost, and `check_game_lost` says so, although the
      last cell of the first row equals the first cell of the second:
      `prev_value` is reset between rows, so those cells are never compared. */
  lemma CheckerboardLost()
    ensures IsLost(Checkerboard) && LostAsWritten(Checkerboard)
    ensures At(Checkerboard, 0, Cols - 1) == At(Checkerboard, 1, 0)
  {
    CheckerboardRows();
    CheckerboardCols();
    CheckerboardFull();
    LostAsWrittenExact(Checkerboard);
    CheckerboardAt(0, Cols - 1);
    CheckerboardAt(1, 0);
  }

  // ---------------------------------------------------------------------------
  // Loss and the moves of board.c.

  /** Every cell of a full grid is occupied along every line. */
  lemma FullLine(g: Cells, d: Direction, L: int)
    requires Full(g) && 0 <= L < N
    ensures forall p | 0 <= p < N :: LineOf(g, d, L)[p] != 0
  {
    forall p | 0 <= p < N
      ensures LineOf(g, d, L)[p] != 0
    {
      assert !IsCellEmpty(g[Index(CellOf(d, L, p))]);
    }
  }

  /** A lost grid does not change under any move. */
  lemma LostIsStuck(g: Cells, d: Direction)
    requires IsLost(g)
    ensures SlideGrid(g, d) == g
  {
    forall L | 0 <= L < N
      ensures LineOf(g, d, L) == Line.Slide(LineOf(g, d, L))
    {
      var s := LineOf(g, d, L);
      FullLine(g, d, L);
      forall p | 0 <= p < N - 1
        ensures s[p] != s[p + 1]
      {
        match d
        case Left =>
          assert !HorizontalTwins(g, L, p);
        case Right =>
          assert !HorizontalTwins(g, L, Cols - 2 - p);
        case Up =>
          assert !VerticalTwins(g, p, L);
        case Down =>
          assert !VerticalTwins(g, Rows - 2 - p, L);
      }
      Line.SlideFixed(s);
    }
    LinesSlideGrid(g, d, g);
  }

  /** A row compacted both left and right is all occupied once one of its
      cells is. */
  lemma RowSolid(g: Cells, row: int, col: int)
    requires CompactedToward(g, Left) && CompactedToward(g, Right)
    requires 0 <= row < Rows && 0 <= col < Cols && !IsCellEmpty(At(g, row, col))
    ensures forall c | 0 <= c < Cols :: !IsCellEmpty(At(g, row, c))
  {
    forall c | 0 <= c < Cols
      ensures !IsCellEmpty(At(g, row, c))
    {
      if c < col {
        assert CellOf(Left, row, c) == Pos(row, c) && CellOf(Left, row, col) == Pos(row, col);
      } else if c > col {
        assert CellOf(Right, row, Cols - 1 - c) == Pos(row, c);
        assert CellOf(Right, row, Cols - 1 - col) == Pos(row, col);
      }
    }
  }

  /** The same for a column compacted both up and down. */
  lemma ColSolid(g: Cells, row: int, col: int)
    requires CompactedToward(g, Up) && CompactedToward(g, Down)
    requires 0 <= row < Rows && 0 <= col < Cols && !IsCellEmpty(At(g, row, col))
    ensures forall r | 0 <= r < Rows :: !IsCellEmpty(At(g, r, col))
  {
    forall r | 0 <= r < Rows
      ensures !IsCellEmpty(At(g, r, col))
    {
      if r < row {
        assert CellOf(Up, col, r) == Pos(r, col) && CellOf(Up, col, row) == Pos(row, col);
      } else if r > row {
        assert CellOf(Down, col, Rows - 1 - r) == Pos(r, col);
        assert CellOf(Down, col, Rows - 1 - row) == Pos(row, col);
      }
    }
  }

  /** A grid compacted toward all four edges and holding a tile is full:
      the tile's row is full, so every column is. */
  lemma CompactedIsFull(g: Cells)
    requires CountNonEmpty(g) > 0
    requires CompactedToward(g, Left) && CompactedToward(g, Right)
    requires CompactedToward(g, Up) && CompactedToward(g, Down)
    ensures Full(g)
  {
    if forall i | 0 <= i < CellCount :: IsCellEmpty(g[i]) {
      Board.NoTiles(g);
    }
    var i0 :| 0 <= i0 < CellCount && !IsCellEmpty(g[i0]);
    var p0 := PosAt(i0);
    RowSolid(g, p0.row, p0.col);
    forall i | 0 <= i < CellCount
      ensures !IsCellEmpty(g[i])
    {
      var q := PosAt(i);
      ColSolid(g, p0.row, q.col);
      assert At(g, q.row, q.col) == g[i];
    }
  }

  /** A full grid whose rows and columns are unchanged by the slide has no
      two equal neighbours. */
  lemma FixedLinesNoTwins(g: Cells)
    requires Full(g)
    requires forall L | 0 <= L < N :: Line.Slide(LineOf(g, Left, L)) == LineOf(g, Left, L)
    requires forall L | 0 <= L < N :: Line.Slide(LineOf(g, Up, L)) == LineOf(g, Up, L)
    ensures IsLost(g)
  {
    forall row, col | 0 <= row < Rows && 0 <= col < Cols - 1
      ensures !HorizontalTwins(g, row, col)
    {
      var s := LineOf(g, Left, row);
      FullLine(g, Left, row);
      Line.SlideFixed(s);
      assert s[col] == At(g, row, col) && s[col + 1] == At(g, row, col + 1);
    }
    forall row, col | 0 <= row < Rows - 1 && 0 <= col < Cols
      ensures !VerticalTwins(g, row, col)
    {
      var s := LineOf(g, Up, col);
      FullLine(g, Up, col);
      Line.SlideFixed(s);
      assert s[row] == At(g, row, col) && s[row + 1] == At(g, row + 1, col);
    }
  }

  /** Every line of a grid that a move leaves unchanged is its own slide. */
  lemma StuckLines(g: Cells, d: Direction)
    requires SlideGrid(g, d) == g
    ensures CompactedToward(g, d)
    ensures forall L | 0 <= L < N :: Line.Slide(LineOf(g, d, L)) == LineOf(g, d, L)
  {
    SlideGridCompacted(g, d);
    forall L | 0 <= L < N
      ensures Line.Slide(LineOf(g, d, L)) == LineOf(g, d, L)
    {
      SlideGridLines(g, d, L);
    }
  }

  /** A grid holding at least one tile that no move changes is lost. */
  lemma StuckIsLost(g: Cells)
    requires CountNonEmpty(g) > 0
    requires SlideGrid(g, Left) == g && SlideGrid(g, Right) == g
    requires SlideGrid(g, Up) == g && SlideGrid(g, Down) == g
    ensures IsLost(g)
  {
    StuckLines(g, Left);
    StuckLines(g, Right);
    StuckLines(g, Up);
    StuckLines(g, Down);
    CompactedIsFull(g);
    FixedLinesNoTwins(g);
  }

  /** For a grid holding a tile, being lost means exactly that no move
      changes it. */
  lemma LostIffStuck(g: Cells)
    requires CountNonEmpty(g) > 0
    ensures IsLost(g) <==> forall d: Direction :: SlideGrid(g, d) == g
  {
    if IsLost(g) {
      forall d: Direction
        ensures SlideGrid(g, d) == g
      {
        LostIsStuck(g, d);
      }
    }
    if forall d: Direction :: SlideGrid(g, d) == g {
      StuckIsLost(g);
    }
  }

  // ---------------------------------------------------------------------------
  // Tile records.

  /** The tile kinds of 2048.c. */
  datatype TileType = TileAppear | TileMove | TileMerge | TileIdle

  /** A tile record of 2048.c's board, with grid cells for its pixel
      positions and without its animated position and scale. */
  datatype Tile = Tile(kind: TileType, number: int, newNumber: int, from: Pos, to: Pos)

  /** The board 2048.c draws: the cell grid and the tile records of the last
      key press (`tiles_count` is the length of `tiles`). */
  datatype GameBoard = GameBoard(tilesMap: Cells, tiles: seq<Tile>)

  /** The state of 2048.c: the board and the `game_lost` flag. */
  datatype Game = Game(board: GameBoard, lost: bool)

  /** The tile types `any_move_happen` looks for. */
  predicate Moving(t: Tile)
  {
    t.kind == TileMove || t.kind == TileMerge
  }

  /** `any_move_happen` (2048.c:44-51). */
  method AnyMoveHappen(tiles: seq<Tile>) returns (r: bool)
    ensures r <==> exists i | 0 <= i < |tiles| :: Moving(tiles[i])
  {
    var i := 0;
    while i < |tiles|
      invariant 0 <= i <= |tiles|
      invariant forall j | 0 <= j < i :: !Moving(tiles[j])
    {
      if tiles[i].kind == TileMove || tiles[i].kind == TileMerge {
        return true;
      }
      i := i + 1;
    }
    return false;
  }

  /** The tile record standing for one move record: a merge, a plain move
      when the tile left its cell, idle otherwise. */
  function TileOf(m: MoveRec): Tile
  {
    Tile(if m.isMerge then TileMerge else if m.from != m.to then TileMove else TileIdle,
         m.number, if m.isMerge then 2 * m.number else m.number, m.from, m.to)
  }

  function TilesOf(moves: seq<MoveRec>): (ts: seq<Tile>)
    ensures |ts| == |moves|
    ensures forall i | 0 <= i < |moves| :: ts[i] == TileOf(moves[i])
  {
    seq(|moves|, i requires 0 <= i < |moves| => TileOf(moves[i]))
  }

  /** The tile records report a move exactly when some move record's tile
      left its cell, given that merging tiles always leave theirs. */
  lemma TilesReportMoves(moves: seq<MoveRec>)
    requires forall j | 0 <= j < |moves| :: moves[j].isMerge ==> moves[j].from != moves[j].to
    ensures (exists i | 0 <= i < |moves| :: Moving(TilesOf(moves)[i])) <==> !AllIdle(moves)
  {
    if !AllIdle(moves) {
      var j :| 0 <= j < |moves| && moves[j].from != moves[j].to;
      assert Moving(TilesOf(moves)[j]);
    }
  }

  /** The facts about a move that the key handler relies on. */
  lemma OutcomeSummary(g0: Cells, d: Direction, cells: Cells, moves: seq<MoveRec>, merges: seq<MergeRec>)
    requires MoveOutcome(g0, d, cells, moves, merges)
    ensures cells == SlideGrid(g0, d) && Sum(cells) == Sum(g0)
    ensures forall j | 0 <= j < |moves| :: moves[j].isMerge ==> moves[j].from != moves[j].to
    ensures AllIdle(moves) <==> cells == g0
    ensures cells != g0 ==> CountNonEmpty(cells) < CellCount
  {
  }

  /** What a move does to the board 2048.c draws, from grid `g0` toward `d`
      with the tile records cleared first: the grid slides; the sum is kept;
      the records report a move exactly when the grid changed; and a grid
      that changed has an empty cell. */
  ghost predicate MovedBoard(g0: Cells, d: Direction, b1: GameBoard)
  {
    && b1.tilesMap == SlideGrid(g0, d)
    && Sum(b1.tilesMap) == Sum(g0)
    && ((exists i | 0 <= i < |b1.tiles| :: Moving(b1.tiles[i])) <==> b1.tilesMap != g0)
    && (b1.tilesMap != g0 ==> CountNonEmpty(b1.tilesMap) < CellCount)
  }

  /** Stand-in for `move_tiles` on a board whose tile records were just
      cleared: board.c's move, one tile record per move record. */
  method MoveTiles(g0: Cells, d: Direction) returns (b1: GameBoard)
    ensures MovedBoard(g0, d, b1)
  {
    var cells, moves, merges := Board.Move(g0, d);
    OutcomeSummary(g0, d, cells, moves, merges);
    TilesReportMoves(moves);
    b1 := GameBoard(cells, TilesOf(moves));
  }

  /** Stand-in for `add_random_tile`: board.c's choice of an empty cell,
      which receives a 2 and an `Appear` tile record. A full grid is left
      alone. */
  function AddRandomTile(b: GameBoard, roll: nat): (b': GameBoard)
    ensures CountNonEmpty(b.tilesMap) == CellCount ==> b' == b
    ensures CountNonEmpty(b.tilesMap) < CellCount ==>
      var p := Board.ChosenEmpty(b.tilesMap, roll);
      && IsCellEmpty(b.tilesMap[Index(p)]) && b'.tilesMap == b.tilesMap[Index(p) := 2]
      && CountNonEmpty(b'.tilesMap) == CountNonEmpty(b.tilesMap) + 1
      && Sum(b'.tilesMap) == Sum(b.tilesMap) + 2
      && b'.tiles == b.tiles + [Tile(TileAppear, 2, 2, p, p)]
  {
    CountBelowLength(b.tilesMap);
    if CountNonEmpty(b.tilesMap) == CellCount then b
    else
      var p := Board.ChosenEmpty(b.tilesMap, roll);
      CountUpdate(b.tilesMap, Index(p), 2);
      SumUpdate(b.tilesMap, Index(p), 2);
      GameBoard(b.tilesMap[Index(p) := 2], b.tiles + [Tile(TileAppear, 2, 2, p, p)])
  }

  /** A full grid is one whose occupied count is the cell count. */
  lemma FullCount(g: Cells)
    ensures Full(g) <==> CountNonEmpty(g) == CellCount
  {
    CountBelowLength(g);
  }

  /** `hanlde_move` (2048.c:78-89) for a key press toward `d`, with `roll`
      standing for `rand()`: drop the old tile records, move, and if the
      moved grid is lost raise `game_lost` without spawning; otherwise spawn
      a tile when a tile moved. The loss test runs before the spawn, so a
      spawn that fills the grid into a lost position is only noticed on a
      later key press, and then only one that changes nothing. */
  method HandleMove(s: Game, d: Direction, roll: nat) returns (s': Game)
    ensures Handled(s, d, roll, s')
  {
    var board := MoveTiles(s.board.tilesMap, d);
    var lost := CheckGameLost(board.tilesMap);
    if lost {
      LostLeavesGrid(s.board.tilesMap, board.tilesMap);
      HandledLost(s, d, roll, board);
      return Game(board, true);
    }
    var any := AnyMoveHappen(board.tiles);
    if any {
      AppearIsNoMove(board, roll);
      var spawned := AddRandomTile(board, roll);
      HandledSpawn(s, d, roll, board, spawned);
      board := spawned;
    } else {
      HandledStill(s, d, roll, board);
    }
    s' := Game(board, s.lost);
  }

  /** What a key press does to the game, as seen from the grid: with `g1`
      the grid slid toward `d`, `game_lost` is raised exactly when
      `check_game_lost` accepts `g1`, which happens only when the move changed
      nothing; a move that changed the grid spawns a 2 into the chosen empty
      cell of `g1`; the tile records report a move exactly when the grid
      changed; and the sum grows by the spawned 2. */
  ghost predicate Handled(s: Game, d: Direction, roll: nat, s': Game)
  {
    var g0, g1 := s.board.tilesMap, SlideGrid(s.board.tilesMap, d);
    && s'.lost == (s.lost || LostAsWritten(g1))
    && (LostAsWritten(g1) ==> g1 == g0)
    && (g1 == g0 ==> s'.board.tilesMap == g0)
    && (g1 != g0 ==>
          && CountNonEmpty(g1) < CellCount
          && s'.board.tilesMap == g1[Index(Board.ChosenEmpty(g1, roll)) := 2])
    && ((exists i | 0 <= i < |s'.board.tiles| :: Moving(s'.board.tiles[i])) <==> g1 != g0)
    && Sum(s'.board.tilesMap) == Sum(g0) + (if g1 != g0 then 2 else 0)
  }

  lemma HandledLost(s: Game, d: Direction, roll: nat, b1: GameBoard)
    requires MovedBoard(s.board.tilesMap, d, b1) && LostAsWritten(b1.tilesMap) && b1.tilesMap == s.board.tilesMap
    ensures Handled(s, d, roll, Game(b1, true))
  {
  }

  lemma HandledStill(s: Game, d: Direction, roll: nat, b1: GameBoard)
    requires MovedBoard(s.board.tilesMap, d, b1) && !LostAsWritten(b1.tilesMap)
    requires !exists i | 0 <= i < |b1.tiles| :: Moving(b1.tiles[i])
    ensures Handled(s, d, roll, Game(b1, s.lost))
  {
  }

  lemma HandledSpawn(s: Game, d: Direction, roll: nat, b1: GameBoard, b2: GameBoard)
    requires MovedBoard(s.board.tilesMap, d, b1) && !LostAsWritten(b1.tilesMap)
    requires exists i | 0 <= i < |b1.tiles| :: Moving(b1.tiles[i])
    requires b2 == AddRandomTile(b1, roll)
    requires (exists i | 0 <= i < |b2.tiles| :: Moving(b2.tiles[i])) <==> exists i | 0 <= i < |b1.tiles| :: Moving(b1.tiles[i])
    ensures Handled(s, d, roll, Game(b2, s.lost))
  {
  }

  /** A grid `check_game_lost` accepts is full, so a move that produced it
      changed nothing. */
  lemma LostLeavesGrid(g0: Cells, g1: Cells)
    requires LostAsWritten(g1)
    requires g1 != g0 ==> CountNonEmpty(g1) < CellCount
    ensures g1 == g0
  {
    LostAsWrittenExact(g1);
    FullCount(g1);
  }

  /** The record of a spawned tile does not count as a move. */
  lemma AppearIsNoMove(b: GameBoard, roll: nat)
    ensures (exists i | 0 <= i < |AddRandomTile(b, roll).tiles| :: Moving(AddRandomTile(b, roll).tiles[i]))
        <==> exists i | 0 <= i < |b.tiles| :: Moving(b.tiles[i])
  {
    var b' := AddRandomTile(b, roll);
    CountBelowLength(b.tilesMap);
    if CountNonEmpty(b.tilesMap) < CellCount {
      assert b'.tiles[..|b.tiles|] == b.tiles;
      assert !Moving(b'.tiles[|b.tiles|]);
      if exists i | 0 <= i < |b'.tiles| :: Moving(b'.tiles[i]) {
        var i :| 0 <= i < |b'.tiles| && Moving(b'.tiles[i]);
        assert Moving(b.tiles[i]);
      }
      if exists i | 0 <= i < |b.tiles| :: Moving(b.tiles[i]) {
        var i :| 0 <= i < |b.tiles| && Moving(b.tiles[i]);
        assert b'.tiles[i] == b.tiles[i];
      }
    }
  }

  /** In an all-empty grid the empty cells in row-major order are all cells. */
  lemma {:induction false} EmptyOrderAll(g: Cells, i: int)
    requires forall j | 0 <= j < CellCount :: IsCellEmpty(g[j])
    requires 0 <= i <= CellCount
    ensures |Board.EmptyOrder(g, i)| == i
    ensures forall j | 0 <= j < i :: Board.EmptyOrder(g, i)[j] == PosAt(j)
    decreases i
  {
    if i > 0 {
      EmptyOrderAll(g, i - 1);
    }
  }

  /** `init_game` (2048.c:29-42): clear the flag, the tile records and every
      cell, then spawn two tiles, the first at cell `first % 16` in
      row-major order and the second elsewhere. */
  function InitGame(first: nat, second: nat): (s: Game)
    ensures !s.lost
    ensures CountNonEmpty(s.board.tilesMap) == 2 && Sum(s.board.tilesMap) == 4
    ensures s.board.tilesMap[first % CellCount] == 2
    ensures |s.board.tiles| == 2 && s.board.tiles[0].kind == TileAppear && s.board.tiles[1].kind == TileAppear
  {
    var empty := GameBoard(seq(CellCount, _ => EmptyCell), []);
    Board.NoTiles(empty.tilesMap);
    EmptyOrderAll(empty.tilesMap, CellCount);
    var once := AddRandomTile(empty, first);
    assert once.tilesMap[first % CellCount] == 2;
    var twice := AddRandomTile(once, second);
    Game(twice, false)
  }
}
