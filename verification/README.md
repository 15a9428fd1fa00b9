# 2048 board engine — a Dafny model

This project models the core of `raylib-c-2048`, a 2048 game in C:

- board.c: the board transition engine, made of
  - the four target searches `CalculateTarget*`;
  - the four moves `MoveLeft/Right/Up/Down`;
  - `AnyMoveHappen`, `AddRandomCell`, `InitBoard`, `ClearAnimations`;
  - one key branch of `UpdateBoard`.
- 2048.c: the loss test `check_game_lost`, `any_move_happen`, the key handler `hanlde_move` and the reset `init_game`.
- linear.c: the integer helpers and `V2i` vector algebra.
- game.c: the `Dir`/`Cell` direction algebra and `game_init`.

The 4×4 `Cell cells[BOARD_ROWS][BOARD_COLS]` grid is a row-major sequence of 16 integers (`Grid`). 0 is the empty cell. Record positions, which are pixel `Vector2` values in the source, are modelled by the grid cell they stand for.

Modules:

- **`Engine`**
  - The four target searches exactly as written, including the `BOARD_COLS - 1` bound that `CalculateTargetRowDown` puts on a row index.
  - `StepCell`: one iteration of a move's inner loop.
  - Each direction's visiting order.
- **`Board`**
  - The moves as the source's nested loops, one method per direction, calling the literal loop body (`VisitLeft`, …).
  - The loop invariant is `ScanFacts.ScanInv`. It is carried along `ScanFacts.RunLoops`, the iterations in the source's own row/column order.
  - `AddRandomCell` takes the value of `rand()` as a parameter `roll`.
- **`Line`**
  - The classic 2048 slide of one line as a reference: drop empties, merge equal neighbours greedily from the edge, pad.
  - The source's in-place scan of one line.
  - A proof that the scan computes the slide.
- **`ScanFacts`**
  - A move of the whole grid projects onto each row or column as that line scan.
  - A move therefore leaves every line holding its reference slide. The result is `SlideGrid`.
  - Together with the record facts, this is `MoveOutcome`. The move methods state its parts one by one:
    - `Conserved`: sum preserved, occupied count down by the number of merges, `Merge` records matching the merging `Move` records;
    - `MergesSound`: one merge per destination, and `is_merge` implies the tile left its cell;
    - `RecordsFollowScan`: one `Move` record per occupied cell in visiting order;
    - `RecordsLand`: each record's `to` cell ends up holding its `number`, doubled exactly when a merge went there, and every occupied cell is the `to` of exactly one non-merging record;
    - `RecordsOrdered`: along one line no record ends nearer the edge than an earlier record of that line, and every merging record joins a tile whose non-merging record came earlier;
    - `IdleMeansUnchanged`: "no record moved" iff "grid unchanged", and a changed grid has an empty cell.
- **`Session`** (2048.c)
  - `check_game_lost` as its two literal passes, with an exact characterisation that includes the `-1` sentinel.
  - A proof that a grid with a tile is lost iff no move changes it.
  - The key handler.

2048.c drives a tile-record board through `move_tiles` and `add_random_tile`. Neither function is part of this model. They are stood in for by board.c's move and its random-cell rule, with every `Move` record turned into one tile record (a merge, a move when the tile left its cell, idle otherwise). `EMPTY_TILE_VALUE` is taken to be 0.

Order of the key handler:
- `hanlde_move` runs the loss test on the moved grid before spawning (2048.c:82-88).
- `HandleMove` keeps the code's order. `LostLeavesGrid` proves that a grid `check_game_lost` accepts was not changed by the move that produced it.

## Model

| member | source | states |
|---|---|---|
| Grid.Index | board.h:28-31 | `cells[row][col]` of an in-bounds coordinate is one of the 16 grid cells |
| Grid.PosAt | board.h:28-31 | every flat index is the address of exactly one in-bounds coordinate (inverse of `Index`) |
| Grid.IndexInjective | board.h:28-31 | two in-bounds coordinates address the same cell iff they are equal |
| Grid.IsCellEmpty | board.c:63-63 | a cell is empty exactly when it holds 0; every other value is a tile |
| Grid.SumUpdate | board.c:356-357 | overwriting one cell changes the sum of the grid by new value minus old value |
| Grid.CountUpdate | board.c:356-357 | overwriting one cell changes the occupied count only as that cell's emptiness changes |
| Grid.CountBelowLength | board.c:187-198 | the occupied count is below the cell count iff some cell is empty (the case in which `AddRandomCell` spawns) |
| Engine.EmptyRunLeft | board.c:284-287 | the loop stops at column 0 or next to an occupied cell, with only empty cells passed over |
| Engine.CalculateTargetColLeft | board.c:282-294 | the target is in [0, col]; every cell strictly between is empty; an occupied target holds the same value and is unmarked; a non-merging target has an occupied cell or the edge in front of it that is different or already merged |
| Engine.EmptyRunRight | board.c:298-301 | the loop stops at the last column or next to an occupied cell, with only empty cells passed over |
| Engine.CalculateTargetColRight | board.c:296-308 | mirror of the left search: target in [col, 3], empty cells between, merge only onto an equal unmarked tile |
| Engine.EmptyRunUp | board.c:312-315 | the loop stops at row 0 or below an occupied cell, with only empty cells passed over |
| Engine.CalculateTargetRowUp | board.c:310-321 | target in [0, row], empty cells between, merge only onto an equal unmarked tile |
| Engine.EmptyRunDown | board.c:325-328 | the loop stops at the last row or above an occupied cell, with only empty cells passed over |
| Engine.CalculateTargetRowDown | board.c:323-335 | target in [row, 3], empty cells between, merge only onto an equal unmarked tile, with the row bounded by `BOARD_COLS - 1` as written |
| Engine.ScanCell | board.c:340-341 | the cell visited at iteration i is in bounds and its visiting index is i |
| Engine.ScanIndexInjective | board.c:340-341 | two distinct cells are visited at distinct iterations |
| Engine.ScanIndexOrder | board.c:340-341 | a cell visited later than another lies on a different line or farther from the edge |
| Engine.TargetOf | board.c:346-346 | each direction's search yields a target on the tile's own line, no farther out, satisfying the line characterisation `IsTargetOf` |
| Engine.LeftIsTarget | board.c:282-294 | `CalculateTargetColLeft` meets the direction-independent target characterisation |
| Engine.RightIsTarget | board.c:296-308 | `CalculateTargetColRight` meets the direction-independent target characterisation |
| Engine.UpIsTarget | board.c:310-321 | `CalculateTargetRowUp` meets the direction-independent target characterisation |
| Engine.DownIsTarget | board.c:323-335 | `CalculateTargetRowDown` meets the direction-independent target characterisation |
| Engine.StepCell | board.c:342-357 | one visit changes nothing on other lines (grid and `merge_map`) nor farther from the edge on its line, keeps the sum, and lowers the occupied count by the merges it adds |
| Engine.UntouchedCells | board.c:356-357 | the two cells a visit writes are the visited cell and its target, never a cell on another line or farther out |
| Engine.StepCellSums | board.c:347-357 | clearing the source and writing `cell` or `cell*2` (the latter only onto a cell holding `cell`) keeps the sum and removes one occupied cell per merge |
| Line.EmptyRunStart | board.c:285-287 | the target loop ends at the start of the empty run in front of the tile |
| Line.Target | board.c:284-293 | the line target satisfies the four-part target characterisation |
| Line.TargetUnique | board.c:282-294 | at most one position satisfies the target characterisation, so every search that meets it returns the same target |
| Line.MergeSnoc | board.c:289-291 | the front-greedy merge of the reference slide is computed one tile at a time from the edge, joining the last tile only when equal and not itself merged |
| Line.ScanInvariant | board.c:340-358 | after c iterations on one line, the first cells hold the merged prefix, the rest of the scanned part is empty, the unscanned part is untouched, and exactly the merged tiles are marked |
| Line.AdvanceOccupied | board.c:345-357 | visiting an occupied cell extends the merged prefix by that tile |
| Line.AdvanceEmpty | board.c:343-344 | visiting an empty cell keeps the merged prefix |
| Line.StepOverEmpty | board.c:343-344 | a step on an empty cell keeps the line state |
| Line.StepAtFrontier | board.c:346-357 | a step on an occupied cell merges it into the last tile iff that tile is equal and unmerged, else places it right after |
| Line.ScanIsSlide | board.c:337-360 | the source's scan of a line yields the reference slide and marks exactly the merged positions |
| Line.SlideCompacted | board.c:337-360 | a slid line has no empty cell before an occupied one |
| Line.MergeShrinks | board.c:289-291 | two equal neighbours always merge, so the merged line is shorter |
| Line.MergeDistinct | board.c:289-291 | without equal neighbours nothing merges and every tile keeps its value |
| Line.SlideFixed | board.c:282-294 | a full line is unchanged by the slide iff no two neighbours are equal |
| ScanFacts.RecordsSnoc | board.c:351-354 | one more `Move` record adds one to the merge count and one `Merge` record exactly when it merges |
| ScanFacts.StepConserves | board.c:347-357 | each visit keeps the sum, the occupied count equals the original minus the merges so far, and `Merge` records match merging `Move` records |
| ScanFacts.MarksSnoc | board.c:352-355 | `merge_map` marks exactly the cells that received a merge, no cell receives two, and merges always leave their cell |
| ScanFacts.StepMarksMerges | board.c:352-355 | each visit keeps `merge_map` equal to the set of merge destinations |
| ScanFacts.StepIdle | board.c:342-357 | while all records are idle the grid and `merge_map` are unchanged; once a tile moved some cell is empty |
| ScanFacts.IdleSnoc | board.c:356-357 | an idle record leaves grid and map unchanged, a moving one empties its cell |
| ScanFacts.EvidenceSnoc | board.c:347-357 | a plain (non-merge) move of a tile is possible only when the original line had an empty cell in front of an occupied one |
| ScanFacts.StepEvidence | board.c:342-357 | each visit keeps: "some tile moved" implies "a merge happened or the grid was not compacted" |
| ScanFacts.StepAhead | board.c:340-341 | cells the scan has not reached still hold their original values |
| ScanFacts.RecordsSkip | board.c:343-344 | an empty cell adds no record |
| ScanFacts.RecordsSnocFollow | board.c:349-351 | an occupied cell adds its record, keeping one record per visited occupied cell in visiting order |
| ScanFacts.SnocFits | board.c:349-351 | each record names a visited occupied cell, its value, and a destination on its line toward the edge |
| ScanFacts.SnocOrder | board.c:340-341 | the records stay in visiting order |
| ScanFacts.SnocCovers | board.c:342-351 | every visited occupied cell has a record |
| ScanFacts.StepRecords | board.c:342-351 | each visit keeps the records following the scan |
| ScanFacts.LineVisitOrder | board.c:340-341 | every line is visited from its edge inward, once per position |
| ScanFacts.LineOfUpdate | board.c:356-357 | writing a cell of line L writes the matching position of L's view |
| ScanFacts.TargetBridge | board.c:282-294 | the grid target search of every direction agrees with the line target search |
| ScanFacts.StepOnLine | board.c:342-357 | a visit on line L acts on L as one step of the line scan |
| ScanFacts.StepOffLine | board.c:356-357 | a visit on another line leaves line L and its marks alone |
| ScanFacts.StepProjects | board.c:340-358 | after k iterations each line holds the line scan after that line's visits so far |
| ScanFacts.ProjectionStart | board.c:338-338 | the all-false `merge_map` and the original grid project onto the unscanned line |
| ScanFacts.SlideGridLines | board.c:337-360 | the reference result holds the reference slide of every line |
| ScanFacts.SlideGridCompacted | board.c:337-360 | the reference result is compacted toward the move's edge |
| ScanFacts.ScanInvStart | board.c:338-338 | the invariant of a move holds before its first iteration |
| ScanFacts.StepInvAt | board.c:342-357 | every iteration keeps the invariant of a move |
| ScanFacts.ScanInvLine | board.c:337-360 | after all 16 iterations a line holds its reference slide |
| ScanFacts.LinesSlideGrid | board.c:337-360 | a grid whose every line holds its slide is the reference result |
| ScanFacts.ScanInvSlides | board.c:337-360 | after all 16 iterations the grid is the reference result |
| ScanFacts.IdleExactly | board.c:207-214 | after a move, `AnyMoveHappen` is false exactly when the grid is unchanged |
| ScanFacts.ScanInvDone | board.c:337-360 | the invariant after the last iteration gives the full outcome of a move and compaction |
| ScanFacts.LandedOnSnoc | board.c:349-351 | after one more record, some non-merging record ends in q iff one did before or the new one is non-merging and ends in q |
| ScanFacts.NoRecordEndsAt | board.c:342-357 | no record ends in a cell the scan has not reached or in an empty visited cell |
| ScanFacts.LandedSkip | board.c:343-344 | visiting an empty cell keeps every record landed and the occupied visited cells matched to their records |
| ScanFacts.LandsSnoc | board.c:347-357 | after one more tile moves, every record's `to` cell still holds its value, doubled exactly when a merge went there |
| ScanFacts.LandsNew | board.c:352-357 | the tile just visited lands in its target with its value, doubled on a merge |
| ScanFacts.LandsOld | board.c:356-357 | an earlier record still lands after the next tile moves |
| ScanFacts.LandedCellsSnoc | board.c:347-357 | after one more tile moves, a visited cell is occupied exactly when some non-merging record ends there |
| ScanFacts.CellAtVisited | board.c:356-357 | the visited cell receives a landing exactly when its tile stays |
| ScanFacts.CellAtTarget | board.c:357-357 | the target of a moving tile has a non-merging record ending in it |
| ScanFacts.CellAtOther | board.c:356-357 | every other cell keeps its value and its landings |
| ScanFacts.LandedVisited | board.c:356-357 | the visited cell stays occupied exactly when its tile stays |
| ScanFacts.LandedTarget | board.c:357-357 | the target of the visited tile ends occupied |
| ScanFacts.LandedElsewhere | board.c:356-357 | a visit writes no cell other than the visited one and its target |
| ScanFacts.DistinctSnoc | board.c:347-351 | a non-merging tile lands in a cell where no earlier non-merging record ended |
| ScanFacts.StepLanded | board.c:342-357 | every iteration keeps each record landed, the visited occupied cells matched one-to-one with non-merging records |
| ScanFacts.ScanIndexMono | board.c:340-341 | along a line, a cell nearer the edge is visited no later |
| ScanFacts.RecordsLandExample | board.c:337-360 | row `2 . 2 2` moved left gives `4 2 . .`; its records as the loop writes them land, and the same records with a wrong `to` and merge flag do not |
| ScanFacts.LandedDone | board.c:337-360 | after the last iteration the records land in the result grid |
| ScanFacts.OrderedSnoc | board.c:346-351 | one more record keeps the order when it ends no nearer the edge than any record of its line and, when merging, joins a landed tile |
| ScanFacts.NotOvertaken | board.c:284-287 | a record already landed on the visited tile's line ends no farther from the edge than the tile's target, since the tile only passes over empty cells |
| ScanFacts.MergeJoinsLanded | board.c:346-348 | the cell a merging tile joins was reached earlier and a non-merging record ends there |
| ScanFacts.StepOrdered | board.c:342-357 | every iteration keeps the records of each line in order, each merge joining an earlier tile |
| ScanFacts.RecordsOrderedExample | board.c:337-360 | row `2 2 2 2` moved left: the records as the loop writes them are ordered; records where the third tile overtakes the second, or where two equal tiles of `4 . 2 2` swap the merge flag, are not |
| ScanFacts.VisitIndex | board.c:337-436 | the nested-loop iteration (r, c) of each direction visits the cell of scan index 4r + c |
| ScanFacts.LoopsStep | board.c:341-358 | one inner iteration of the nested loops is one visit of the next cell |
| ScanFacts.LoopsNextRow | board.c:340-359 | finishing a row starts the next one with the same state |
| ScanFacts.LoopsStepInv | board.c:341-358 | one inner iteration keeps the invariant indexed by scan position |
| ScanFacts.LoopsRowInv | board.c:340-359 | the invariant carries over from the end of one row to the start of the next |
| ScanFacts.LoopsInv | board.c:340-359 | the invariant holds after every iteration of the nested loops |
| ScanFacts.LoopsInvInner | board.c:341-358 | the invariant holds after every inner iteration |
| ScanFacts.LoopsInvOuter | board.c:340-359 | the invariant holds after every completed row |
| ScanFacts.LoopsDone | board.c:337-360 | the state after all loops satisfies the move outcome and is compacted |
| Board.VisitLeft | board.c:342-357 | the literal loop body of `MoveLeft` is one `StepCell` toward the left |
| Board.SweepLeft | board.c:338-359 | `MoveLeft`'s loops run the iterations in its order |
| Board.MoveLeft | board.c:337-360 | every row slides left, the sum is kept, the count drops by the merges, one merge per destination, one record per tile in scan order, each record's `to` cell holds its `number` (doubled exactly when a merge went there) and every occupied cell received exactly one non-merging record, records of a row never overtake each other and each merge joins a tile recorded earlier, idle iff unchanged, and rows are left-compacted |
| Board.VisitRight | board.c:367-383 | the literal loop body of `MoveRight` is one `StepCell` toward the right |
| Board.SweepRight | board.c:363-385 | `MoveRight`'s loops, columns right to left |
| Board.MoveRight | board.c:362-386 | as `MoveLeft`, mirrored, including where the records land and their order: rows slide right and are right-compacted |
| Board.VisitUp | board.c:393-408 | the literal loop body of `MoveUp` is one `StepCell` upward |
| Board.SweepUp | board.c:389-410 | `MoveUp`'s loops |
| Board.MoveUp | board.c:388-411 | as `MoveLeft`, transposed, including where the records land and their order: columns slide up and are top-compacted |
| Board.VisitDown | board.c:418-433 | the literal loop body of `MoveDown` is one `StepCell` downward |
| Board.SweepDown | board.c:414-435 | `MoveDown`'s loops, rows bottom to top |
| Board.MoveDown | board.c:413-436 | columns slide down and are bottom-compacted, with the same record facts as `MoveLeft`, including where the records land and their order |
| Board.AnyMoveHappen | board.c:207-214 | true iff some record's tile left its cell |
| Board.EmptyOrderPrefix | board.c:187-195 | the positions collected from the first i cells are those empty cells, in row-major order, as many as they have empties |
| Board.EmptyOrderListsEmptyCells | board.c:187-195 | the collected positions are exactly the empty cells, each once, in row-major order, and there are 16 minus the occupied count |
| Board.CollectEmpty | board.c:184-195 | the collection loop gathers the empty cells in row-major order |
| Board.SpawnedCounts | board.c:201-204 | a spawn adds one occupied cell, raises the sum by 2, and changes no other cell |
| Board.ChosenEmpty | board.c:199-200 | the chosen cell is in bounds and empty |
| Board.AddRandomCell | board.c:183-205 | a full board is unchanged; otherwise exactly the chosen empty cell becomes 2 and one `Appear` is appended |
| Board.InitBoard | board.c:175-181 | 2 at (1,1) and (3,2), every other cell empty, no animation records |
| Board.NoTiles | board.c:176-176 | an all-empty grid has no tiles and sum 0 |
| Board.InitBoardTiles | board.c:175-181 | the initial board holds two tiles summing to 4 |
| Board.ClearAnimations | board.c:263-268 | the move, merge and appear lists are emptied; the playing flag is kept |
| Board.Move | board.c:217-247 | the move of each key slides every line toward its direction, keeps the sum, has sound merges and records in scan order, leaves each record's tile in its `to` cell (doubled exactly on a merge) with one non-merging record per occupied cell, keeps the records of each line in order with each merge joining an earlier tile, and is idle exactly when the grid is unchanged |
| Board.KeyMove | board.c:217-223 | a key press slides the grid; if nothing changed no tile spawns, otherwise a 2 spawns into the chosen empty cell and the animation starts; the sum grows by 2 exactly when the grid changed |
| Session.LostAsWrittenExact | 2048.c:53-76 | `check_game_lost`'s decision is exactly "full and no equal orthogonal neighbours", plus "no -1 in row 0 or column 0" |
| Session.LostAsWrittenSound | 2048.c:53-76 | a grid the test accepts is full, has no equal neighbours, and has no sentinel value at a reset point |
| Session.LostAsWrittenComplete | 2048.c:53-76 | every lost grid without sentinel values is accepted |
| Session.ScanRow | 2048.c:56-62 | one row of the first pass fails iff some cell is empty or equals its left neighbour (or -1 in column 0) |
| Session.RowPassLoop | 2048.c:54-64 | the row pass succeeds iff every cell passes it |
| Session.ScanCol | 2048.c:68-73 | one column of the second pass fails iff some cell equals the one above (or -1 in row 0) |
| Session.ColPassLoop | 2048.c:65-75 | the column pass succeeds iff every cell passes it |
| Session.CheckGameLost | 2048.c:53-76 | returns true iff both passes accept every cell |
| Session.CheckerboardRows | 2048.c:55-64 | no two horizontal neighbours of the 2/4 checkerboard are equal |
| Session.CheckerboardCols | 2048.c:66-75 | no two vertical neighbours of the checkerboard are equal |
| Session.CheckerboardFull | 2048.c:57-60 | the checkerboard is full and has no sentinel value |
| Session.CheckerboardLost | 2048.c:53-76 | the checkerboard is lost and the test says so, although the last cell of row 0 equals the first of row 1 |
| Session.LostIsStuck | board.c:337-360 | a lost grid does not change under any move |
| Session.CompactedIsFull | board.c:337-436 | a grid holding a tile that is compacted toward all four edges is full |
| Session.StuckIsLost | board.c:337-436 | a grid with a tile that no move changes is lost |
| Session.LostIffStuck | 2048.c:53-76 | for a grid with a tile, lost iff every move leaves it unchanged |
| Session.AnyMoveHappen | 2048.c:44-51 | true iff some tile record is of type move or merge |
| Session.TilesReportMoves | 2048.c:44-51 | the tile records report a move iff some move record's tile left its cell |
| Session.MoveTiles | 2048.c:81-81 | the moved board holds the slid grid, keeps the sum, reports a move iff the grid changed, and a changed grid has an empty cell |
| Session.AddRandomTile | 2048.c:87-87 | a full grid is unchanged; otherwise the chosen empty cell becomes 2, one tile and 2 of sum are added, and an appear record is appended |
| Session.HandleMove | 2048.c:78-89 | `game_lost` is raised iff the moved grid is accepted by the loss test (and then nothing moved); otherwise a tile spawns iff a tile moved; the sum grows by exactly the spawned 2 |
| Session.HandledLost | 2048.c:82-85 | the lost branch raises the flag without spawning |
| Session.HandledStill | 2048.c:86-86 | a move that changed nothing spawns nothing |
| Session.HandledSpawn | 2048.c:86-88 | a move that changed the grid spawns into the chosen empty cell |
| Session.LostLeavesGrid | 2048.c:82-85 | a grid the loss test accepts was not changed by the move that produced it |
| Session.AppearIsNoMove | 2048.c:44-51 | the record of a spawned tile does not count as a move |
| Session.InitGame | 2048.c:29-42 | not lost, two tiles summing to 4, the first at cell `first % 16`, and two appear records |
| Linear.Mini | linear.c:4-4 | the result is one of the arguments and no larger than either |
| Linear.Maxi | linear.c:6-6 | the result is one of the arguments and no smaller than either |
| Linear.MiniLeMaxi | linear.c:4-6 | `mini(a,b) <= maxi(a,b)` and together they are a and b |
| Linear.Clampi | linear.c:8-8 | for a ≤ b the result lies in [a,b], equals x inside the range and the nearer bound outside; with b < a the upper bound wins |
| Linear.V2iAdd | linear.c:12-12 | subtracting `b` from `v2i_add(a, b)` gives back `a` |
| Linear.V2iSub | linear.c:14-14 | `v2i_sub(a, b)` is what must be added to `b` to reach `a`, component by component |
| Linear.V2iScale | linear.c:16-16 | scaling by 1 keeps the vector, and the result is zero iff the factor or the vector is zero |
| Linear.ScaleLinear | linear.c:16-16 | scaling by 0 gives the zero vector, scaling by s + t adds the two scaled vectors, and scaling twice multiplies the factors; with scale 1 as identity this fixes `v2i_scale(a, n)` as n·a |
| Linear.V2iClamp | linear.c:18-20 | for a non-empty box the result lies in the box and a vector inside is kept; per component, a value below the range rises to the lower bound, one above drops to the upper bound, and an empty range gives the upper bound, as `clampi` does |
| Linear.V2iEq | linear.c:22-22 | true iff the two vectors are equal |
| Linear.ReverseDirection | linear.c:32-32 | the result is the additive inverse of the direction |
| Linear.AddSubRoundTrip | linear.c:12-14 | `v2i_sub(v2i_add(a,b), b) == a` and the other way round |
| Linear.ReverseInvolution | linear.c:32-32 | `reverse_direction` is an involution, `d + reverse(d) == (0,0)`, and scaling by -1 reverses |
| Linear.DirectionsAreUnitSteps | linear.h:28-33 | each direction constant is a unit step, and opposite constants reverse each other |
| Linear.ClampIsClampi | linear.c:18-20 | `v2i_clamp` equals `clampi` applied to each component, for every box including empty ones |
| Linear.ClampComponentwise | linear.c:18-20 | `v2i_clamp` lies in the box [a,b] and is the identity exactly inside it |
| Linear.V2iEqIsEquality | linear.c:22-22 | `v2i_eq` holds iff both components are equal, so it is an equivalence |
| Game.DirOpposite | game.c:26-29 | the opposite of a valid direction is valid and differs from it |
| Game.DirOppositeInvolution | game.c:26-29 | `dir_opposite` is an involution on the four directions |
| Game.DirCell | game.c:83-90 | each direction's step has exactly one non-zero component, which is ±1 |
| Game.DirCellOpposite | game.c:83-88 | the step of the opposite direction is the negated step |
| Game.StepBack | game.c:77-94 | a step and a step in the opposite direction return to the start, and a step always moves |
| Game.CellEq | game.c:73-75 | true iff the two cells are equal |
| Game.CellAdd | game.c:77-81 | the result lies `b` away from `a` in each coordinate, so it stays at `a` iff the offset is zero |
| Game.StepCell | game.c:92-94 | the result lies one `dir_cell(d)` away from the head, hence is one of its four orthogonal neighbours |
| Game.CellAddGroup | game.c:77-81 | `cell_add` is commutative and associative, `(0,0)` is its identity, and adding the negated offset undoes it |
| Game.StepDirections | game.c:83-94 | right steps to x+1, up to y-1, left to x-1, down to y+1 |
| Game.CellEqIsEquality | game.c:73-75 | `cell_eq` holds iff both coordinates match, so it is an equivalence |
| Game.GameInit | game.c:96-100 | size stored, board all zero, state gameplay, no new cells |

## Left out

- Rendering and pixel geometry (`GetCellColor`, `GetCellRect`, `GetCellPosition`, every `Draw*`, `draw_game`). Record positions are grid cells.
- Animation timing: `UpdateAnimation`, the easing functions, `elapsed_time`, the per-frame tile interpolation of `update_game` (2048.c:108-168) and `game_update`'s cooldown. They are floating point and frame-time driven.
- `rand()`. Its value is the parameter `roll`, and the chosen entry is `roll % count` as in the source.
- The `da_append` growth of the record arrays. Records are sequences.
- Key dispatch (`IsKeyPressed`) and the window loop. `Board.KeyMove` and `Session.HandleMove` each model one key press.
- `move_tiles`, `add_random_tile` and 2048.c's tile board type are not part of this model. Stand-ins built from board.c are used, and `EMPTY_TILE_VALUE` is taken as 0.
- C `int` overflow: the model does not wrap. This covers `cell * 2` at board.c:353-357, the `V2i` arithmetic and the sums.
- Board.AnyMoveHappen: compares grid coordinates, not the pixel positions of the records. Cells are drawn at distinct positions, so the two comparisons agree.
- Board.ClearAnimations: does not reset `elapsed_time`, which is a float timer.
- Game.GameInit: `step_cooldown` is a float and is not part of the game record.
- Game.DirOpposite: an out-of-range direction is a precondition violation here, where the source's `assert` aborts.
- Session.InitGame: does not say where the second spawned tile lands. It only says the two tiles are in different cells.
