/** The direction and cell-coordinate algebra of game.c, plus the zero-initialised
    game state that `game_init` produces. */
module Game {

  /** `Dir` is a C enum, so any integer can reach the functions below; the
      source guards with `assert`, which this model turns into preconditions. */
  const DirRight := 0
  const DirUp := 1
  const DirLeft := 2
  const DirDown := 3
  const CountDirs := 4

  predicate ValidDir(d: int)
  {
    0 <= d < CountDirs
  }

  /** The opposite of a direction is two steps further round the enum. */
  function DirOpposite(d: int): (r: int)
    requires ValidDir(d)
    ensures ValidDir(r)
    ensures r != d
  {
    (d + 2) % CountDirs
  }

  lemma DirOppositeInvolution(d: int)
    requires ValidDir(d)
    ensures DirOpposite(DirOpposite(d)) == d
  {
  }

  datatype Cell = Cell(x: int, y: int)

  /** `dir_cell_data`: the unit step of each direction, indexed by `Dir`;
      the fields a designated initialiser leaves out are zero. */
  const DirCellData: seq<Cell> := [Cell(1, 0), Cell(0, -1), Cell(-1, 0), Cell(0, 1)]

  function DirCell(d: int): (c: Cell)
    requires ValidDir(d)
    ensures (c.x == 0) != (c.y == 0)
    ensures -1 <= c.x <= 1 && -1 <= c.y <= 1
  {
    DirCellData[d]
  }

  /** `cell_eq`: the cells are equal. */
  function CellEq(a: Cell, b: Cell): (r: bool)
    ensures r <==> a == b
  {
    a.x == b.x && a.y == b.y
  }

  /** `cell_add`: the result lies `b` away from `a`, component by component,
      so it stays at `a` exactly when `b` is zero. */
  function CellAdd(a: Cell, b: Cell): (r: Cell)
    ensures r.x - a.x == b.x && r.y - a.y == b.y
    ensures r == a <==> b == Cell(0, 0)
  {
    Cell(a.x + b.x, a.y + b.y)
  }

  /** `step_cell`: the result lies one `dir_cell(d)` away from `head`, so it
      is one of the four neighbours of `head`. */
  function StepCell(head: Cell, d: int): (r: Cell)
    requires ValidDir(d)
    ensures r.x - head.x == DirCell(d).x && r.y - head.y == DirCell(d).y
    ensures (r.x == head.x) != (r.y == head.y)
    ensures -1 <= r.x - head.x <= 1 && -1 <= r.y - head.y <= 1
  {
    CellAdd(head, DirCell(d))
  }

  /** `cell_add` is the addition of the coordinate group: commutative,
      associative, with `(0, 0)` as identity and the negated offset as inverse. */
  lemma CellAddGroup(a: Cell, b: Cell, c: Cell)
    ensures CellAdd(a, b) == CellAdd(b, a)
    ensures CellAdd(CellAdd(a, b), c) == CellAdd(a, CellAdd(b, c))
    ensures CellAdd(a, Cell(0, 0)) == a
    ensures CellAdd(CellAdd(a, b), Cell(-b.x, -b.y)) == a
  {
  }

  /** Which neighbour each direction steps to, with `y` growing downwards. */
  lemma StepDirections(head: Cell)
    ensures StepCell(head, DirRight) == Cell(head.x + 1, head.y)
    ensures StepCell(head, DirUp) == Cell(head.x, head.y - 1)
    ensures StepCell(head, DirLeft) == Cell(head.x - 1, head.y)
    ensures StepCell(head, DirDown) == Cell(head.x, head.y + 1)
  {
  }

  /** Opposite directions have opposite unit steps. */
  lemma DirCellOpposite(d: int)
    requires ValidDir(d)
    ensures DirCell(DirOpposite(d)) == Cell(-DirCell(d).x, -DirCell(d).y)
  {
  }

  /** Stepping one cell and then one cell back returns to the start. */
  lemma StepBack(c: Cell, d: int)
    requires ValidDir(d)
    ensures StepCell(StepCell(c, d), DirOpposite(d)) == c
    ensures StepCell(c, d) != c
  {
    DirCellOpposite(d);
  }

  /** `cell_eq` is structural equality, hence an equivalence relation. */
  lemma CellEqIsEquality(a: Cell, b: Cell, c: Cell)
    ensures CellEq(a, b) <==> a == b
    ensures CellEq(a, a)
    ensures CellEq(a, b) ==> CellEq(b, a)
    ensures CellEq(a, b) && CellEq(b, c) ==> CellEq(a, c)
  {
  }

  const Rows := 4
  const Cols := 4
  const BoardCap := Rows * Cols
  const MaxSpawnCount := 2

  newtype u32 = x: int | 0 <= x < 0x1_0000_0000

  datatype State = StateGameplay | StateGameOver

  datatype NewCells = NewCells(cells: seq<Cell>, count: nat)

  /** The game record; `step_cooldown` is a float and is not part of this model. */
  datatype GameRecord = GameRecord(width: u32, height: u32, board: seq<u32>, state: State, newCells: NewCells)

  /** `game_init`: every byte of the game is zeroed, then the size is stored. */
  function GameInit(width: u32, height: u32): (g: GameRecord)
    ensures g.width == width && g.height == height
    ensures |g.board| == BoardCap && forall i | 0 <= i < |g.board| :: g.board[i] == 0
    ensures g.state == StateGameplay
    ensures g.newCells.count == 0 && |g.newCells.cells| == MaxSpawnCount
    ensures forall i | 0 <= i < |g.newCells.cells| :: g.newCells.cells[i] == Cell(0, 0)
  {
    GameRecord(width, height, seq(BoardCap, _ => 0), StateGameplay,
               NewCells(seq(MaxSpawnCount, _ => Cell(0, 0)), 0))
  }
}
