/** The 4x4 grid of board.h: `Cell cells[BOARD_ROWS][BOARD_COLS]` with `Cell`
    an `int` and 0 meaning an empty cell. The grid is stored row-major in one
    sequence, so `cells[row][col]` is element `row * Cols + col`. */
module Grid {

  /** The board is square (BOARD_ROWS == BOARD_COLS); board.c relies on it at
      board.c:330, where a row index is bounded by BOARD_COLS. */
  const N := 4
  const Rows := N
  const Cols := N
  const CellCount := Rows * Cols
  const EmptyCell := 0

  type Cells = g: seq<int> | |g| == CellCount witness seq(CellCount, _ => EmptyCell)

  /** `bool merge_map[BOARD_ROWS][BOARD_COLS]`, stored the same way. */
  type MergeMap = m: seq<bool> | |m| == CellCount witness seq(CellCount, _ => false)

  /** A grid coordinate. The source's `Point` and pixel `Vector2` positions are
      both represented by the row and column they stand for. */
  datatype Pos = Pos(row: int, col: int)

  predicate InBounds(p: Pos)
  {
    0 <= p.row < Rows && 0 <= p.col < Cols
  }

  function Index(p: Pos): (i: int)
    requires InBounds(p)
    ensures 0 <= i < CellCount
  {
    p.row * Cols + p.col
  }

  function PosAt(i: int): (p: Pos)
    requires 0 <= i < CellCount
    ensures InBounds(p) && Index(p) == i
  {
    Pos(i / Cols, i % Cols)
  }

  lemma IndexInjective(p: Pos, q: Pos)
    requires InBounds(p) && InBounds(q)
    ensures Index(p) == Index(q) <==> p == q
  {
  }

  /** `cells[row][col]`. */
  function At(g: Cells, row: int, col: int): int
    requires 0 <= row < Rows && 0 <= col < Cols
  {
    g[Index(Pos(row, col))]
  }

  /** `merge_map[row][col]`. */
  function Marked(m: MergeMap, row: int, col: int): bool
    requires 0 <= row < Rows && 0 <= col < Cols
  {
    m[Index(Pos(row, col))]
  }

  /** `IsCellEmpty` (board.c:63): only the value 0 marks an empty cell;
      every other value is a tile. */
  function IsCellEmpty(cell: int): (r: bool)
    ensures r <==> cell == 0
  {
    cell == EmptyCell
  }

  function NoMarks(): MergeMap
  {
    seq(CellCount, _ => false)
  }

  /** The sum of all cell values. */
  function Sum(s: seq<int>): int
  {
    if |s| == 0 then 0 else Sum(s[..|s| - 1]) + s[|s| - 1]
  }

  /** The number of occupied cells. */
  function CountNonEmpty(s: seq<int>): nat
  {
    if |s| == 0 then 0 else CountNonEmpty(s[..|s| - 1]) + (if IsCellEmpty(s[|s| - 1]) then 0 else 1)
  }

  /** Overwriting one cell changes the sum by the difference of the values. */
  lemma {:induction false} SumUpdate(s: seq<int>, i: int, x: int)
    requires 0 <= i < |s|
    ensures Sum(s[i := x]) == Sum(s) - s[i] + x
    decreases |s|
  {
    var n := |s| - 1;
    if i < n {
      assert s[i := x][..n] == s[..n][i := x];
      SumUpdate(s[..n], i, x);
    } else {
      assert s[i := x][..n] == s[..n];
    }
  }

  /** Overwriting one cell changes the occupied count by at most one, as the
      emptiness of that cell changes. */
  lemma {:induction false} CountUpdate(s: seq<int>, i: int, x: int)
    requires 0 <= i < |s|
    ensures CountNonEmpty(s[i := x]) ==
            CountNonEmpty(s) - (if IsCellEmpty(s[i]) then 0 else 1) + (if IsCellEmpty(x) then 0 else 1)
    decreases |s|
  {
    var n := |s| - 1;
    if i < n {
      assert s[i := x][..n] == s[..n][i := x];
      CountUpdate(s[..n], i, x);
    } else {
      assert s[i := x][..n] == s[..n];
    }
  }

  /** The occupied count falls short of the length exactly when some cell is empty. */
  lemma {:induction false} CountBelowLength(s: seq<int>)
    ensures CountNonEmpty(s) <= |s|
    ensures CountNonEmpty(s) < |s| <==> exists i | 0 <= i < |s| :: IsCellEmpty(s[i])
    decreases |s|
  {
    if |s| > 0 {
      var n := |s| - 1;
      CountBelowLength(s[..n]);
      if exists i | 0 <= i < n :: IsCellEmpty(s[..n][i]) {
        var i :| 0 <= i < n && IsCellEmpty(s[..n][i]);
        assert IsCellEmpty(s[i]);
      }
      if exists i | 0 <= i < |s| :: IsCellEmpty(s[i]) {
        var i :| 0 <= i < |s| && IsCellEmpty(s[i]);
        if i < n {
          assert IsCellEmpty(s[..n][i]);
        }
      }
    }
  }
}
