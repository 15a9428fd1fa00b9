/** What a whole move computes. `ScanInv` is the invariant of a move's loops
    after `k` iterations: every iteration (`StepCell`) preserves it, and after
    all sixteen it says that the grid holds the reference slide of every line
    and that the records describe the move. */
module ScanFacts {
  import opened Grid
  import opened Engine
  import Line

  // ---------------------------------------------------------------------------
  // Summaries of a move's records.

  /** The number of records that merged. */
  function MergeCount(moves: seq<MoveRec>): nat
  {
    if |moves| == 0 then 0
    else MergeCount(moves[..|moves| - 1]) + (if moves[|moves| - 1].isMerge then 1 else 0)
  }

  /** The `Merge` records `AddMergeAnimation` adds alongside `moves`. */
  function MergesOf(moves: seq<MoveRec>): seq<MergeRec>
  {
    if |moves| == 0 then []
    else
      var m := moves[|moves| - 1];
      MergesOf(moves[..|moves| - 1]) + (if m.isMerge then [MergeRec(m.number * 2, m.to)] else [])
  }

  lemma RecordsSnoc(moves: seq<MoveRec>, m: MoveRec)
    ensures MergeCount(moves + [m]) == MergeCount(moves) + (if m.isMerge then 1 else 0)
    ensures MergesOf(moves + [m]) == MergesOf(moves) + (if m.isMerge then [MergeRec(m.number * 2, m.to)] else [])
  {
    assert (moves + [m])[..|moves|] == moves;
  }

  ghost predicate MergedInto(moves: seq<MoveRec>, q: Pos)
  {
    exists j | 0 <= j < |moves| :: moves[j].isMerge && moves[j].to == q
  }

  /** No cell is the destination of two merges. */
  ghost predicate DistinctMergeTargets(moves: seq<MoveRec>)
  {
    forall i, j | 0 <= i < j < |moves| :: moves[i].isMerge && moves[j].isMerge ==> moves[i].to != moves[j].to
  }

  /** Every tile stayed where it was (`AnyMoveHappen` is false). */
  ghost predicate AllIdle(moves: seq<MoveRec>)
  {
    forall j | 0 <= j < |moves| :: moves[j].from == moves[j].to
  }

  /** The records follow the scan: one per cell that was occupied before the
      move, in visiting order, carrying that cell's value, each tile moving
      toward the edge along its own line. Only the cells visited in the first
      `k` iterations are covered. */
  ghost predicate RecordsFollowScan(g0: Cells, d: Direction, k: int, moves: seq<MoveRec>)
  {
    && (forall j | 0 <= j < |moves| :: RecordFits(g0, d, k, moves[j]))
    && InVisitOrder(d, moves)
    && CoversVisited(g0, d, k, moves)
  }

  /** One record: a cell visited in the first `k` iterations, occupied before
      the move, its value, and a destination on its line toward the edge. */
  ghost predicate RecordFits(g0: Cells, d: Direction, k: int, m: MoveRec)
  {
    && InBounds(m.from) && ScanIndex(d, m.from) < k
    && !IsCellEmpty(g0[Index(m.from)]) && m.number == g0[Index(m.from)]
    && InBounds(m.to) && LineIndex(d, m.to) == LineIndex(d, m.from)
    && LinePos(d, m.to) <= LinePos(d, m.from)
  }

  ghost predicate InVisitOrder(d: Direction, moves: seq<MoveRec>)
  {
    forall j1, j2 | 0 <= j1 < j2 < |moves| :: ScanIndex(d, moves[j1].from) < ScanIndex(d, moves[j2].from)
  }

  ghost predicate CoversVisited(g0: Cells, d: Direction, k: int, moves: seq<MoveRec>)
  {
    forall q | InBounds(q) && ScanIndex(d, q) < k && !IsCellEmpty(g0[Index(q)]) ::
      exists j | 0 <= j < |moves| :: moves[j].from == q
  }

  // ---------------------------------------------------------------------------
  // Conservation: the sum is preserved, each merge removes one occupied cell,
  // and the `Merge` records match the merging `Move` records.

  ghost predicate Conserved(g0: Cells, cells: Cells, moves: seq<MoveRec>, merges: seq<MergeRec>)
  {
    && Sum(cells) == Sum(g0)
    && CountNonEmpty(cells) == CountNonEmpty(g0) - MergeCount(moves)
    && merges == MergesOf(moves)
  }

  lemma StepConserves(g0: Cells, s: ScanState, d: Direction, pos: Pos)
    requires InBounds(pos) && Conserved(g0, s.cells, s.moves, s.merges)
    ensures var s' := StepCell(s, d, pos); Conserved(g0, s'.cells, s'.moves, s'.merges)
  {
    var s' := StepCell(s, d, pos);
    if !IsCellEmpty(s.cells[Index(pos)]) {
      var m := s'.moves[|s.moves|];
      assert s'.moves == s.moves + [m];
      RecordsSnoc(s.moves, m);
    }
  }

  // ---------------------------------------------------------------------------
  // `merge_map` marks exactly the cells that received a merge, so no cell
  // receives two, and a merging tile always leaves its cell.

  ghost predicate MarksMerges(mm: MergeMap, moves: seq<MoveRec>)
  {
    && (forall q | InBounds(q) :: mm[Index(q)] <==> MergedInto(moves, q))
    && MergesSound(moves)
  }

  /** No cell receives two merges, and a merging tile always leaves its cell. */
  ghost predicate MergesSound(moves: seq<MoveRec>)
  {
    && DistinctMergeTargets(moves)
    && (forall j | 0 <= j < |moves| :: moves[j].isMerge ==> moves[j].from != moves[j].to)
  }

  /** Recording one more move, and marking its target when it merges. */
  lemma MarksSnoc(mm: MergeMap, moves: seq<MoveRec>, m: MoveRec)
    requires MarksMerges(mm, moves) && InBounds(m.to)
    requires m.isMerge ==> !mm[Index(m.to)] && m.from != m.to
    ensures MarksMerges(if m.isMerge then mm[Index(m.to) := true] else mm, moves + [m])
  {
    var mm' := if m.isMerge then mm[Index(m.to) := true] else mm;
    var moves' := moves + [m];
    forall q | InBounds(q)
      ensures mm'[Index(q)] <==> MergedInto(moves', q)
    {
      IndexInjective(q, m.to);
      if MergedInto(moves', q) {
        var j :| 0 <= j < |moves'| && moves'[j].isMerge && moves'[j].to == q;
        if j < |moves| {
          assert MergedInto(moves, q);
        }
      }
      if mm[Index(q)] {
        var j :| 0 <= j < |moves| && moves[j].isMerge && moves[j].to == q;
        assert moves'[j] == moves[j];
      }
      if m.isMerge && q == m.to {
        assert moves'[|moves|] == m;
      }
    }
  }

  lemma StepMarksMerges(s: ScanState, d: Direction, pos: Pos)
    requires InBounds(pos) && MarksMerges(s.mergeMap, s.moves)
    ensures var s' := StepCell(s, d, pos); MarksMerges(s'.mergeMap, s'.moves)
  {
    var cell := s.cells[Index(pos)];
    if !IsCellEmpty(cell) {
      var s' := StepCell(s, d, pos);
      var m := s'.moves[|s.moves|];
      assert s'.moves == s.moves + [m];
      MarksSnoc(s.mergeMap, s.moves, m);
    }
  }

  // ---------------------------------------------------------------------------
  // Idle moves: when every record is idle the grid and `merge_map` are
  // unchanged; when some tile moved, at least one cell is left empty.

  ghost predicate IdleInvariant(g0: Cells, s: ScanState)
  {
    && (AllIdle(s.moves) ==> forall i | 0 <= i < CellCount :: s.cells[i] == g0[i] && !s.mergeMap[i])
    && (!AllIdle(s.moves) ==> CountNonEmpty(s.cells) < CellCount)
  }

  lemma StepIdle(g0: Cells, s: ScanState, d: Direction, pos: Pos)
    requires InBounds(pos) && IdleInvariant(g0, s)
    ensures IdleInvariant(g0, StepCell(s, d, pos))
  {
    if !IsCellEmpty(s.cells[Index(pos)]) {
      var s' := StepCell(s, d, pos);
      var m := s'.moves[|s.moves|];
      assert s'.moves == s.moves + [m];
      if m.from == m.to {
        assert s'.cells == s.cells && s'.mergeMap == s.mergeMap;
      } else {
        IndexInjective(m.from, m.to);
      }
      IdleSnoc(g0, s, s', m, pos);
    }
  }

  /** The idle facts after one more record, from what the step did to the
      visited cell: an idle record leaves the grid and `merge_map` as they
      were, a moving one empties the visited cell. */
  lemma IdleSnoc(g0: Cells, s: ScanState, s': ScanState, m: MoveRec, pos: Pos)
    requires InBounds(pos) && IdleInvariant(g0, s)
    requires s'.moves == s.moves + [m] && m.from == pos
    requires m.from == m.to ==> s'.cells == s.cells && s'.mergeMap == s.mergeMap
    requires m.from != m.to ==> IsCellEmpty(s'.cells[Index(pos)])
    ensures IdleInvariant(g0, s')
  {
    if AllIdle(s'.moves) {
      assert AllIdle(s.moves) by {
        forall j | 0 <= j < |s.moves|
          ensures s.moves[j].from == s.moves[j].to
        {
          assert s'.moves[j] == s.moves[j];
        }
      }
      assert s'.moves[|s.moves|] == m;
    } else if m.from != m.to {
      CountBelowLength(s'.cells);
    } else {
      CountBelowLength(s.cells);
      assert !AllIdle(s.moves) by {
        var j :| 0 <= j < |s'.moves| && s'.moves[j].from != s'.moves[j].to;
        assert j < |s.moves| && s.moves[j] == s'.moves[j];
      }
    }
  }


  /** A tile that moved without merging left an occupied cell behind an empty
      one on its line, so the original grid was not compacted toward `d`. */
  ghost predicate MovedEvidence(g0: Cells, d: Direction, moves: seq<MoveRec>)
  {
    !AllIdle(moves) ==> MergeCount(moves) > 0 || !CompactedToward(g0, d)
  }

  lemma EvidenceSnoc(g0: Cells, d: Direction, moves: seq<MoveRec>, m: MoveRec)
    requires MovedEvidence(g0, d, moves)
    requires InBounds(m.from) && InBounds(m.to)
    requires LineIndex(d, m.to) == LineIndex(d, m.from) && LinePos(d, m.to) <= LinePos(d, m.from)
    requires AllIdle(moves) && m.from != m.to && !m.isMerge ==>
               IsCellEmpty(g0[Index(m.to)]) && !IsCellEmpty(g0[Index(m.from)])
    ensures MovedEvidence(g0, d, moves + [m])
  {
    var moves' := moves + [m];
    RecordsSnoc(moves, m);
    if !AllIdle(moves') && MergeCount(moves') == 0 {
      if AllIdle(moves) {
        assert m.from != m.to by {
          forall j | 0 <= j < |moves|
            ensures moves'[j].from == moves'[j].to
          {
            assert moves'[j] == moves[j];
          }
          assert moves'[|moves|] == m;
        }
        CellOfLinePos(d, m.to);
        CellOfLinePos(d, m.from);
        var L := LineIndex(d, m.from);
        assert !(IsCellEmpty(g0[Index(CellOf(d, L, LinePos(d, m.to)))]) ==>
                 IsCellEmpty(g0[Index(CellOf(d, L, LinePos(d, m.from)))]));
      } else {
        var j :| 0 <= j < |moves| && moves[j].from != moves[j].to;
        assert moves'[j] == moves[j];
      }
    }
  }

  lemma StepEvidence(g0: Cells, s: ScanState, d: Direction, pos: Pos)
    requires InBounds(pos) && IdleInvariant(g0, s) && MovedEvidence(g0, d, s.moves)
    ensures MovedEvidence(g0, d, StepCell(s, d, pos).moves)
  {
    var cell := s.cells[Index(pos)];
    if !IsCellEmpty(cell) {
      var s' := StepCell(s, d, pos);
      var m := s'.moves[|s.moves|];
      assert s'.moves == s.moves + [m];
      EvidenceSnoc(g0, d, s.moves, m);
    }
  }

  // ---------------------------------------------------------------------------
  // Scan order.

  /** Cells the scan has not reached yet still hold their original values. */
  ghost predicate Ahead(g0: Cells, s: ScanState, d: Direction, k: int)
  {
    forall q | InBounds(q) && ScanIndex(d, q) >= k :: s.cells[Index(q)] == g0[Index(q)]
  }

  lemma StepAhead(g0: Cells, s: ScanState, d: Direction, k: int)
    requires 0 < k <= CellCount && Ahead(g0, s, d, k - 1)
    ensures Ahead(g0, StepCell(s, d, ScanCell(d, k - 1)), d, k)
  {
    var pos := ScanCell(d, k - 1);
    forall q | InBounds(q) && ScanIndex(d, q) >= k
      ensures StepCell(s, d, pos).cells[Index(q)] == g0[Index(q)]
    {
      ScanIndexOrder(d, q, pos);
    }
  }

  /** Visiting an empty cell adds no record. */
  lemma RecordsSkip(g0: Cells, d: Direction, k: int, moves: seq<MoveRec>)
    requires 0 < k <= CellCount && RecordsFollowScan(g0, d, k - 1, moves)
    requires IsCellEmpty(g0[Index(ScanCell(d, k - 1))])
    ensures RecordsFollowScan(g0, d, k, moves)
  {
    forall q | InBounds(q) && ScanIndex(d, q) < k && !IsCellEmpty(g0[Index(q)])
      ensures exists j | 0 <= j < |moves| :: moves[j].from == q
    {
      ScanIndexBounds(d, q);
    }
  }

  /** Visiting an occupied cell adds its record. */
  lemma RecordsSnocFollow(g0: Cells, d: Direction, k: int, moves: seq<MoveRec>, m: MoveRec)
    requires 0 < k <= CellCount && RecordsFollowScan(g0, d, k - 1, moves)
    requires m.from == ScanCell(d, k - 1) && !IsCellEmpty(g0[Index(m.from)]) && m.number == g0[Index(m.from)]
    requires InBounds(m.to) && LineIndex(d, m.to) == LineIndex(d, m.from) && LinePos(d, m.to) <= LinePos(d, m.from)
    ensures RecordsFollowScan(g0, d, k, moves + [m])
  {
    SnocFits(g0, d, k, moves, m);
    SnocOrder(g0, d, k, moves, m);
    SnocCovers(g0, d, k, moves, m);
  }

  lemma SnocFits(g0: Cells, d: Direction, k: int, moves: seq<MoveRec>, m: MoveRec)
    requires forall j | 0 <= j < |moves| :: RecordFits(g0, d, k - 1, moves[j])
    requires RecordFits(g0, d, k, m)
    ensures forall j | 0 <= j < |moves + [m]| :: RecordFits(g0, d, k, (moves + [m])[j])
  {
    forall j | 0 <= j < |moves + [m]|
      ensures RecordFits(g0, d, k, (moves + [m])[j])
    {
      if j < |moves| {
        assert (moves + [m])[j] == moves[j];
      }
    }
  }

  lemma SnocOrder(g0: Cells, d: Direction, k: int, moves: seq<MoveRec>, m: MoveRec)
    requires forall j | 0 <= j < |moves| :: RecordFits(g0, d, k - 1, moves[j])
    requires InVisitOrder(d, moves) && ScanIndex(d, m.from) == k - 1
    ensures InVisitOrder(d, moves + [m])
  {
    var moves' := moves + [m];
    forall j1, j2 | 0 <= j1 < j2 < |moves'|
      ensures ScanIndex(d, moves'[j1].from) < ScanIndex(d, moves'[j2].from)
    {
      assert moves'[j1] == moves[j1];
      assert RecordFits(g0, d, k - 1, moves[j1]);
      if j2 < |moves| {
        assert moves'[j2] == moves[j2];
      }
    }
  }

  lemma SnocCovers(g0: Cells, d: Direction, k: int, moves: seq<MoveRec>, m: MoveRec)
    requires 0 < k <= CellCount && CoversVisited(g0, d, k - 1, moves) && m.from == ScanCell(d, k - 1)
    ensures CoversVisited(g0, d, k, moves + [m])
  {
    var moves' := moves + [m];
    forall q | InBounds(q) && ScanIndex(d, q) < k && !IsCellEmpty(g0[Index(q)])
      ensures exists j | 0 <= j < |moves'| :: moves'[j].from == q
    {
      ScanIndexBounds(d, q);
      if ScanIndex(d, q) < k - 1 {
        var j :| 0 <= j < |moves| && moves[j].from == q;
        assert moves'[j] == moves[j];
      } else {
        assert moves'[|moves|].from == q;
      }
    }
  }

  lemma StepRecords(g0: Cells, s: ScanState, d: Direction, k: int)
    requires 0 < k <= CellCount
    requires Ahead(g0, s, d, k - 1) && RecordsFollowScan(g0, d, k - 1, s.moves)
    ensures RecordsFollowScan(g0, d, k, StepCell(s, d, ScanCell(d, k - 1)).moves)
  {
    var pos := ScanCell(d, k - 1);
    var s' := StepCell(s, d, pos);
    assert s.cells[Index(pos)] == g0[Index(pos)];
    if IsCellEmpty(s.cells[Index(pos)]) {
      RecordsSkip(g0, d, k, s.moves);
    } else {
      var m := s'.moves[|s.moves|];
      assert s'.moves == s.moves + [m];
      RecordsSnocFollow(g0, d, k, s.moves, m);
    }
  }

  // ---------------------------------------------------------------------------
  // Landing: where each record's tile ends up. A tile that does not merge
  // lands in a cell no other non-merging tile lands in, and that cell keeps
  // its value until one merge doubles it; a merging tile's cell holds the
  // doubled value.

  /** Some non-merging record ends in cell `q`. */
  ghost predicate LandedOn(moves: seq<MoveRec>, q: Pos)
  {
    exists j | 0 <= j < |moves| :: !moves[j].isMerge && moves[j].to == q
  }

  /** No cell receives two non-merging tiles. */
  ghost predicate DistinctLandings(moves: seq<MoveRec>)
  {
    forall i, j | 0 <= i < j < |moves| :: !moves[i].isMerge && !moves[j].isMerge ==> moves[i].to != moves[j].to
  }

  /** Record `m` ends in a cell visited in the first `k` iterations, which
      holds its value, doubled when `merge_map` marks the cell. */
  ghost predicate LandsAt(d: Direction, k: int, s: ScanState, m: MoveRec)
  {
    && InBounds(m.to) && ScanIndex(d, m.to) < k && !IsCellEmpty(m.number)
    && s.cells[Index(m.to)] == (if s.mergeMap[Index(m.to)] then m.number * 2 else m.number)
  }

  /** After `k` iterations: every record lands as `LandsAt` says, and a
      visited cell is occupied exactly when one non-merging record ends there. */
  ghost predicate Landed(d: Direction, k: int, s: ScanState)
  {
    && (forall j | 0 <= j < |s.moves| :: LandsAt(d, k, s, s.moves[j]))
    && OccupiedIffLanded(d, k, s.cells, s.moves)
    && DistinctLandings(s.moves)
  }

  ghost predicate OccupiedIffLanded(d: Direction, k: int, cells: Cells, moves: seq<MoveRec>)
  {
    forall q | InBounds(q) && ScanIndex(d, q) < k :: !IsCellEmpty(cells[Index(q)]) <==> LandedOn(moves, q)
  }

  /** What a step at `pos` does when the tile there, recorded as `m`, moves
      or merges into `m.to` (board.c:342-357). */
  ghost predicate StepShape(s: ScanState, s': ScanState, pos: Pos, m: MoveRec)
  {
    && InBounds(pos) && InBounds(m.to) && m.from == pos
    && m.number == s.cells[Index(pos)] && !IsCellEmpty(m.number)
    && (m.isMerge ==> m.to != pos && s.cells[Index(m.to)] == m.number && !s.mergeMap[Index(m.to)])
    && (!m.isMerge ==> m.to == pos || IsCellEmpty(s.cells[Index(m.to)]))
    && s'.cells == s.cells[Index(pos) := EmptyCell][Index(m.to) := if m.isMerge then m.number * 2 else m.number]
    && s'.mergeMap == (if m.isMerge then s.mergeMap[Index(m.to) := true] else s.mergeMap)
    && s'.moves == s.moves + [m]
  }

  lemma LandedOnSnoc(moves: seq<MoveRec>, m: MoveRec, q: Pos)
    ensures LandedOn(moves + [m], q) <==> LandedOn(moves, q) || (!m.isMerge && m.to == q)
  {
    var moves' := moves + [m];
    if LandedOn(moves, q) {
      var j :| 0 <= j < |moves| && !moves[j].isMerge && moves[j].to == q;
      assert moves'[j] == moves[j];
    }
    if !m.isMerge && m.to == q {
      assert moves'[|moves|] == m;
    }
    if LandedOn(moves', q) {
      var j :| 0 <= j < |moves'| && !moves'[j].isMerge && moves'[j].to == q;
      if j < |moves| {
        assert moves'[j] == moves[j];
      }
    }
  }

  /** No record ends in a cell the scan has not reached yet, nor in an empty
      one: records end in visited cells, which hold their tiles. */
  lemma NoRecordEndsAt(d: Direction, k: int, s: ScanState, q: Pos)
    requires forall j | 0 <= j < |s.moves| :: LandsAt(d, k, s, s.moves[j])
    requires InBounds(q) && (ScanIndex(d, q) >= k || IsCellEmpty(s.cells[Index(q)]))
    ensures forall j | 0 <= j < |s.moves| :: s.moves[j].to != q
    ensures !LandedOn(s.moves, q) && !MergedInto(s.moves, q)
  {
    forall j | 0 <= j < |s.moves|
      ensures s.moves[j].to != q
    {
      assert LandsAt(d, k, s, s.moves[j]);
    }
  }

  /** Visiting an empty cell changes nothing, and no record ends there. */
  lemma LandedSkip(d: Direction, k: int, s: ScanState)
    requires 0 < k <= CellCount && Landed(d, k - 1, s)
    requires IsCellEmpty(s.cells[Index(ScanCell(d, k - 1))])
    ensures Landed(d, k, s)
  {
    forall j | 0 <= j < |s.moves|
      ensures LandsAt(d, k, s, s.moves[j])
    {
      assert LandsAt(d, k - 1, s, s.moves[j]);
    }
    forall q | InBounds(q) && ScanIndex(d, q) < k
      ensures !IsCellEmpty(s.cells[Index(q)]) <==> LandedOn(s.moves, q)
    {
      ScanIndexBounds(d, q);
      if ScanIndex(d, q) == k - 1 {
        NoRecordEndsAt(d, k - 1, s, q);
      }
    }
  }

  /** The records keep landing as `LandsAt` says after one more tile moves. */
  lemma LandsSnoc(d: Direction, k: int, s: ScanState, s': ScanState, pos: Pos, m: MoveRec)
    requires 0 < k <= CellCount && StepShape(s, s', pos, m)
    requires ScanIndex(d, pos) == k - 1 && ScanIndex(d, m.to) <= k - 1
    requires MarksMerges(s.mergeMap, s.moves)
    requires forall j | 0 <= j < |s.moves| :: LandsAt(d, k - 1, s, s.moves[j])
    ensures forall j | 0 <= j < |s'.moves| :: LandsAt(d, k, s', s'.moves[j])
  {
    if !m.isMerge {
      NoRecordEndsAt(d, k - 1, s, m.to);
    }
    forall j | 0 <= j < |s'.moves|
      ensures LandsAt(d, k, s', s'.moves[j])
    {
      if j == |s.moves| {
        assert s'.moves[j] == m;
        LandsNew(s, s', pos, m);
      } else {
        assert s'.moves[j] == s.moves[j];
        LandsOld(d, k, s, s', pos, m, s.moves[j]);
      }
    }
  }

  /** The tile just moved lands in its target. */
  lemma LandsNew(s: ScanState, s': ScanState, pos: Pos, m: MoveRec)
    requires StepShape(s, s', pos, m)
    requires !m.isMerge ==> !s.mergeMap[Index(m.to)]
    ensures s'.cells[Index(m.to)] == (if s'.mergeMap[Index(m.to)] then m.number * 2 else m.number)
  {
  }

  /** An earlier record still lands: its cell is untouched, or is the target
      of the merge that doubles it. */
  lemma LandsOld(d: Direction, k: int, s: ScanState, s': ScanState, pos: Pos, m: MoveRec, r: MoveRec)
    requires StepShape(s, s', pos, m) && ScanIndex(d, pos) == k - 1
    requires LandsAt(d, k - 1, s, r)
    ensures LandsAt(d, k, s', r)
  {
    IndexInjective(r.to, pos);
    IndexInjective(r.to, m.to);
  }

  /** After one more tile moves, a visited cell is occupied exactly when one
      non-merging record ends there. The step's effect on the cells is given
      by what it does to the visited cell, to the target, and elsewhere. */
  lemma LandedCellsSnoc(d: Direction, k: int, s: ScanState, s': ScanState, pos: Pos, m: MoveRec)
    requires 0 < k <= CellCount && InBounds(pos) && InBounds(m.to)
    requires ScanIndex(d, pos) == k - 1 && ScanIndex(d, m.to) <= k - 1
    requires s'.moves == s.moves + [m]
    requires OccupiedIffLanded(d, k - 1, s.cells, s.moves)
    requires forall j | 0 <= j < |s.moves| :: LandsAt(d, k - 1, s, s.moves[j])
    requires !IsCellEmpty(s'.cells[Index(pos)]) <==> m.to == pos
    requires !IsCellEmpty(s'.cells[Index(m.to)])
    requires m.isMerge ==> m.to != pos && !IsCellEmpty(s.cells[Index(m.to)])
    requires forall q | InBounds(q) && q != pos && q != m.to :: s'.cells[Index(q)] == s.cells[Index(q)]
    ensures OccupiedIffLanded(d, k, s'.cells, s'.moves)
  {
    ScanIndexInjective(d, m.to, pos);
    forall q | InBounds(q) && ScanIndex(d, q) < k
      ensures !IsCellEmpty(s'.cells[Index(q)]) <==> LandedOn(s'.moves, q)
    {
      ScanIndexInjective(d, q, pos);
      if q == pos {
        NoRecordEndsAt(d, k - 1, s, q);
        CellAtVisited(s, s', pos, m);
      } else if q == m.to {
        assert ScanIndex(d, q) < k - 1;
        CellAtTarget(s, s', m);
      } else {
        assert ScanIndex(d, q) < k - 1;
        CellAtOther(s, s', m, q);
      }
    }
  }

  /** The visited cell receives a landing exactly when its tile stays. */
  lemma CellAtVisited(s: ScanState, s': ScanState, pos: Pos, m: MoveRec)
    requires s'.moves == s.moves + [m] && !LandedOn(s.moves, pos)
    requires m.isMerge ==> m.to != pos
    ensures LandedOn(s'.moves, pos) <==> m.to == pos
  {
    LandedOnSnoc(s.moves, m, pos);
  }

  /** The target holds a landed tile: the new one, or the one a merge joins. */
  lemma CellAtTarget(s: ScanState, s': ScanState, m: MoveRec)
    requires s'.moves == s.moves + [m]
    requires m.isMerge ==> LandedOn(s.moves, m.to)
    ensures LandedOn(s'.moves, m.to)
  {
    LandedOnSnoc(s.moves, m, m.to);
  }

  /** Any other cell keeps its value and its landings. */
  lemma CellAtOther(s: ScanState, s': ScanState, m: MoveRec, q: Pos)
    requires s'.moves == s.moves + [m] && q != m.to && InBounds(q)
    requires s'.cells[Index(q)] == s.cells[Index(q)]
    requires !IsCellEmpty(s.cells[Index(q)]) <==> LandedOn(s.moves, q)
    ensures !IsCellEmpty(s'.cells[Index(q)]) <==> LandedOn(s'.moves, q)
  {
    LandedOnSnoc(s.moves, m, q);
  }

  /** The visited cell keeps its tile exactly when the tile stays. */
  lemma LandedVisited(s: ScanState, s': ScanState, pos: Pos, m: MoveRec)
    requires StepShape(s, s', pos, m)
    ensures !IsCellEmpty(s'.cells[Index(pos)]) <==> m.to == pos
  {
    IndexInjective(pos, m.to);
  }

  /** The target of a moving tile ends occupied. */
  lemma LandedTarget(s: ScanState, s': ScanState, pos: Pos, m: MoveRec)
    requires StepShape(s, s', pos, m)
    ensures !IsCellEmpty(s'.cells[Index(m.to)])
  {
  }

  /** Every other cell keeps its value. */
  lemma LandedElsewhere(s: ScanState, s': ScanState, pos: Pos, m: MoveRec)
    requires StepShape(s, s', pos, m)
    ensures forall q | InBounds(q) && q != pos && q != m.to :: s'.cells[Index(q)] == s.cells[Index(q)]
  {
    forall q | InBounds(q) && q != pos && q != m.to
      ensures s'.cells[Index(q)] == s.cells[Index(q)]
    {
      IndexInjective(q, pos);
      IndexInjective(q, m.to);
    }
  }

  /** A tile that does not merge lands where no earlier one did. */
  lemma DistinctSnoc(d: Direction, k: int, s: ScanState, s': ScanState, pos: Pos, m: MoveRec)
    requires StepShape(s, s', pos, m) && ScanIndex(d, pos) == k - 1
    requires forall j | 0 <= j < |s.moves| :: LandsAt(d, k - 1, s, s.moves[j])
    requires DistinctLandings(s.moves)
    ensures DistinctLandings(s'.moves)
  {
    var moves' := s'.moves;
    forall i, j | 0 <= i < j < |moves'| && !moves'[i].isMerge && !moves'[j].isMerge
      ensures moves'[i].to != moves'[j].to
    {
      assert moves'[i] == s.moves[i];
      assert LandsAt(d, k - 1, s, s.moves[i]);
      if j < |s.moves| {
        assert moves'[j] == s.moves[j];
      } else {
        assert moves'[j] == m;
      }
    }
  }

  /** One iteration of the scan keeps `Landed`. */
  lemma StepLanded(s: ScanState, d: Direction, k: int)
    requires 0 < k <= CellCount && Landed(d, k - 1, s) && MarksMerges(s.mergeMap, s.moves)
    ensures Landed(d, k, StepCell(s, d, ScanCell(d, k - 1)))
  {
    var pos := ScanCell(d, k - 1);
    var cell := s.cells[Index(pos)];
    if IsCellEmpty(cell) {
      LandedSkip(d, k, s);
    } else {
      var s' := StepCell(s, d, pos);
      var t := TargetOf(d, s.cells, cell, pos, s.mergeMap);
      var m := MoveRec(pos, t, cell, pos != t && !IsCellEmpty(s.cells[Index(t)]));
      assert StepShape(s, s', pos, m);
      ScanIndexMono(d, t, pos);
      LandsSnoc(d, k, s, s', pos, m);
      LandedVisited(s, s', pos, m);
      LandedTarget(s, s', pos, m);
      LandedElsewhere(s, s', pos, m);
      LandedCellsSnoc(d, k, s, s', pos, m);
      DistinctSnoc(d, k, s, s', pos, m);
    }
  }

  /** Along a line, a cell nearer the edge is visited no later. */
  lemma ScanIndexMono(d: Direction, a: Pos, b: Pos)
    requires InBounds(a) && InBounds(b)
    requires LineIndex(d, a) == LineIndex(d, b) && LinePos(d, a) <= LinePos(d, b)
    ensures ScanIndex(d, a) <= ScanIndex(d, b)
  {
  }

  /** Where the records end up once the move is over: each record's cell
      holds its value, doubled exactly when a merge went into that cell; a
      cell is occupied exactly when one non-merging record ends there. */
  ghost predicate RecordsLand(cells: Cells, moves: seq<MoveRec>)
  {
    && (forall j | 0 <= j < |moves| ::
          InBounds(moves[j].to) &&
          cells[Index(moves[j].to)] == (if MergedInto(moves, moves[j].to) then moves[j].number * 2 else moves[j].number))
    && (forall q | InBounds(q) :: !IsCellEmpty(cells[Index(q)]) <==> LandedOn(moves, q))
    && DistinctLandings(moves)
  }

  /** Row `2 . 2 2` moved left becomes `4 2 . .`. Its records as board.c
      writes them land in the result, and a set of records that misplaces
      the merge does not. */
  lemma RecordsLandExample()
    ensures var cells: Cells := [4, 2, 0, 0, 0, 0, 0, 0, 0, 0, 0, 0, 0, 0, 0, 0];
      && RecordsLand(cells, [MoveRec(Pos(0, 0), Pos(0, 0), 2, false),
                             MoveRec(Pos(0, 2), Pos(0, 0), 2, true),
                             MoveRec(Pos(0, 3), Pos(0, 1), 2, false)])
      && !RecordsLand(cells, [MoveRec(Pos(0, 0), Pos(0, 0), 2, false),
                              MoveRec(Pos(0, 2), Pos(0, 2), 2, false),
                              MoveRec(Pos(0, 3), Pos(0, 1), 2, true)])
  {
    var cells: Cells := [4, 2, 0, 0, 0, 0, 0, 0, 0, 0, 0, 0, 0, 0, 0, 0];
    var written := [MoveRec(Pos(0, 0), Pos(0, 0), 2, false),
                 MoveRec(Pos(0, 2), Pos(0, 0), 2, true),
                 MoveRec(Pos(0, 3), Pos(0, 1), 2, false)];
    var misplaced := [MoveRec(Pos(0, 0), Pos(0, 0), 2, false),
                 MoveRec(Pos(0, 2), Pos(0, 2), 2, false),
                 MoveRec(Pos(0, 3), Pos(0, 1), 2, true)];
    assert MergedInto(written, Pos(0, 0)) by {
      assert written[1].isMerge && written[1].to == Pos(0, 0);
    }
    assert !MergedInto(written, Pos(0, 1));
    assert LandedOn(written, Pos(0, 0)) by {
      assert !written[0].isMerge && written[0].to == Pos(0, 0);
    }
    assert LandedOn(written, Pos(0, 1)) by {
      assert !written[2].isMerge && written[2].to == Pos(0, 1);
    }
    forall q | InBounds(q)
      ensures !IsCellEmpty(cells[Index(q)]) <==> LandedOn(written, q)
    {
    }
    assert cells[Index(misplaced[1].to)] != misplaced[1].number;
  }

  lemma LandedDone(d: Direction, s: ScanState)
    requires Landed(d, CellCount, s) && MarksMerges(s.mergeMap, s.moves)
    ensures RecordsLand(s.cells, s.moves)
  {
    forall j | 0 <= j < |s.moves|
      ensures InBounds(s.moves[j].to)
      ensures s.cells[Index(s.moves[j].to)] ==
              (if MergedInto(s.moves, s.moves[j].to) then s.moves[j].number * 2 else s.moves[j].number)
    {
      assert LandsAt(d, CellCount, s, s.moves[j]);
    }
    forall q | InBounds(q)
      ensures !IsCellEmpty(s.cells[Index(q)]) <==> LandedOn(s.moves, q)
    {
      ScanIndexBounds(d, q);
    }
  }

  // ---------------------------------------------------------------------------
  // Order: along one line the records never overtake each other, and a merge
  // always joins a tile whose own record came before it.

  /** Some record before record `j` is a non-merging tile that ended in the
      cell record `j` ends in. */
  ghost predicate JoinsEarlier(moves: seq<MoveRec>, j: int)
    requires 0 <= j < |moves|
  {
    exists i | 0 <= i < j :: !moves[i].isMerge && moves[i].to == moves[j].to
  }

  /** The records of one line end no nearer the edge than the records of that
      line before them, and each merging record joins a tile recorded earlier. */
  ghost predicate RecordsOrdered(d: Direction, moves: seq<MoveRec>)
  {
    && (forall i, j | 0 <= i < j < |moves| && LineIndex(d, moves[i].to) == LineIndex(d, moves[j].to) ::
          LinePos(d, moves[i].to) <= LinePos(d, moves[j].to))
    && (forall j | 0 <= j < |moves| && moves[j].isMerge :: JoinsEarlier(moves, j))
  }

  /** One more record keeps the order when it ends no nearer the edge than
      any record of its line, and, when it merges, joins a landed tile. */
  lemma OrderedSnoc(d: Direction, moves: seq<MoveRec>, m: MoveRec)
    requires RecordsOrdered(d, moves)
    requires forall i | 0 <= i < |moves| && LineIndex(d, moves[i].to) == LineIndex(d, m.to) ::
               LinePos(d, moves[i].to) <= LinePos(d, m.to)
    requires m.isMerge ==> LandedOn(moves, m.to)
    ensures RecordsOrdered(d, moves + [m])
  {
    var moves' := moves + [m];
    forall i, j | 0 <= i < j < |moves'| && LineIndex(d, moves'[i].to) == LineIndex(d, moves'[j].to)
      ensures LinePos(d, moves'[i].to) <= LinePos(d, moves'[j].to)
    {
      assert moves'[i] == moves[i];
      if j < |moves| {
        assert moves'[j] == moves[j];
      } else {
        assert moves'[j] == m;
      }
    }
    forall j | 0 <= j < |moves'| && moves'[j].isMerge
      ensures JoinsEarlier(moves', j)
    {
      if j < |moves| {
        assert moves'[j] == moves[j];
        assert JoinsEarlier(moves, j);
        var i :| 0 <= i < j && !moves[i].isMerge && moves[i].to == moves[j].to;
        assert moves'[i] == moves[i];
      } else {
        assert moves'[j] == m;
        var i :| 0 <= i < |moves| && !moves[i].isMerge && moves[i].to == m.to;
        assert moves'[i] == moves[i];
      }
    }
  }

  /** A record that already landed on the line of the visited tile lies no
      farther from the edge than the tile's target: the cells the tile passes
      over are empty, and a landed record's cell is not. */
  lemma NotOvertaken(d: Direction, k: int, s: ScanState, pos: Pos, t: Pos, r: MoveRec)
    requires 0 < k <= CellCount && pos == ScanCell(d, k - 1)
    requires IsTargetOf(d, s.cells, s.cells[Index(pos)], pos, s.mergeMap, t)
    requires LandsAt(d, k - 1, s, r) && LineIndex(d, r.to) == LineIndex(d, t)
    ensures LinePos(d, r.to) <= LinePos(d, t)
  {
    ScanIndexOrder(d, pos, r.to);
    CellOfLinePos(d, r.to);
    assert !IsCellEmpty(s.cells[Index(CellOf(d, LineIndex(d, pos), LinePos(d, r.to)))]);
  }

  /** The cell a merging tile joins was reached earlier and holds a landed tile. */
  lemma MergeJoinsLanded(d: Direction, k: int, s: ScanState, pos: Pos, t: Pos)
    requires 0 < k <= CellCount && pos == ScanCell(d, k - 1)
    requires IsTargetOf(d, s.cells, s.cells[Index(pos)], pos, s.mergeMap, t)
    requires t != pos && !IsCellEmpty(s.cells[Index(t)])
    requires OccupiedIffLanded(d, k - 1, s.cells, s.moves)
    ensures LandedOn(s.moves, t)
  {
    ScanIndexMono(d, t, pos);
    ScanIndexInjective(d, t, pos);
  }

  /** One iteration of the scan keeps the records in order. */
  lemma StepOrdered(s: ScanState, d: Direction, k: int)
    requires 0 < k <= CellCount && Landed(d, k - 1, s) && RecordsOrdered(d, s.moves)
    ensures RecordsOrdered(d, StepCell(s, d, ScanCell(d, k - 1)).moves)
  {
    var pos := ScanCell(d, k - 1);
    var cell := s.cells[Index(pos)];
    if !IsCellEmpty(cell) {
      var t := TargetOf(d, s.cells, cell, pos, s.mergeMap);
      var m := MoveRec(pos, t, cell, pos != t && !IsCellEmpty(s.cells[Index(t)]));
      assert StepCell(s, d, pos).moves == s.moves + [m];
      forall i | 0 <= i < |s.moves| && LineIndex(d, s.moves[i].to) == LineIndex(d, m.to)
        ensures LinePos(d, s.moves[i].to) <= LinePos(d, m.to)
      {
        assert LandsAt(d, k - 1, s, s.moves[i]);
        NotOvertaken(d, k, s, pos, t, s.moves[i]);
      }
      if m.isMerge {
        MergeJoinsLanded(d, k, s, pos, t);
      }
      OrderedSnoc(d, s.moves, m);
    }
  }

  /** Row `2 2 2 2` moved left becomes `4 4 . .`. Its records as board.c
      writes them are in order; records in which the third tile overtakes
      the second, or in which two equal tiles swap the merge, are not. */
  lemma RecordsOrderedExample()
    ensures RecordsOrdered(Left, [MoveRec(Pos(0, 0), Pos(0, 0), 2, false),
                                  MoveRec(Pos(0, 1), Pos(0, 0), 2, true),
                                  MoveRec(Pos(0, 2), Pos(0, 1), 2, false),
                                  MoveRec(Pos(0, 3), Pos(0, 1), 2, true)])
    ensures !RecordsOrdered(Left, [MoveRec(Pos(0, 0), Pos(0, 0), 2, false),
                                   MoveRec(Pos(0, 1), Pos(0, 1), 2, false),
                                   MoveRec(Pos(0, 2), Pos(0, 0), 2, true),
                                   MoveRec(Pos(0, 3), Pos(0, 1), 2, true)])
    ensures !RecordsOrdered(Left, [MoveRec(Pos(0, 0), Pos(0, 0), 4, false),
                                   MoveRec(Pos(0, 2), Pos(0, 1), 2, true),
                                   MoveRec(Pos(0, 3), Pos(0, 1), 2, false)])
  {
    var written := [MoveRec(Pos(0, 0), Pos(0, 0), 2, false),
                    MoveRec(Pos(0, 1), Pos(0, 0), 2, true),
                    MoveRec(Pos(0, 2), Pos(0, 1), 2, false),
                    MoveRec(Pos(0, 3), Pos(0, 1), 2, true)];
    assert JoinsEarlier(written, 1) by {
      assert !written[0].isMerge && written[0].to == written[1].to;
    }
    assert JoinsEarlier(written, 3) by {
      assert !written[2].isMerge && written[2].to == written[3].to;
    }
    var overtaking := [MoveRec(Pos(0, 0), Pos(0, 0), 2, false),
                       MoveRec(Pos(0, 1), Pos(0, 1), 2, false),
                       MoveRec(Pos(0, 2), Pos(0, 0), 2, true),
                       MoveRec(Pos(0, 3), Pos(0, 1), 2, true)];
    assert LinePos(Left, overtaking[1].to) > LinePos(Left, overtaking[2].to);
    var swapped := [MoveRec(Pos(0, 0), Pos(0, 0), 4, false),
                    MoveRec(Pos(0, 2), Pos(0, 1), 2, true),
                    MoveRec(Pos(0, 3), Pos(0, 1), 2, false)];
    assert !JoinsEarlier(swapped, 1) by {
      assert swapped[0].to != swapped[1].to;
    }
  }

  // ---------------------------------------------------------------------------
  // Projection onto one line: what the grid scan does to line `L` is what the
  // line scan of `Line` does to it.

  /** How many of the first `k` iterations visit line `L`: Left and Right
      visit line `L` in iterations `N * L` to `N * L + N - 1`, Up and Down in
      every `N`-th iteration starting at `L`. */
  function LineCount(d: Direction, L: int, k: int): (c: nat)
    requires 0 <= L < N && 0 <= k <= CellCount
    ensures c <= N
  {
    match d
    case Left => if k <= N * L then 0 else if k >= N * L + N then N else k - N * L
    case Right => if k <= N * L then 0 else if k >= N * L + N then N else k - N * L
    case Up => (k + N - 1 - L) / N
    case Down => (k + N - 1 - L) / N
  }

  /** `LineCount` counts the visits of the scan order, and each line is
      visited from its edge inward, once per position. */
  lemma LineVisitOrder(d: Direction, L: int, k: int)
    requires 0 <= L < N && 0 <= k < CellCount
    ensures LineCount(d, L, 0) == 0 && LineCount(d, L, CellCount) == N
    ensures LineCount(d, L, k + 1) == LineCount(d, L, k) + (if ScanLine(d, k) == L then 1 else 0)
    ensures ScanLine(d, k) == L ==> ScanPos(d, k) == LineCount(d, L, k)
  {
  }

  lemma LineOfUpdate<T>(m: seq<T>, d: Direction, L: int, p: int, x: T)
    requires |m| == CellCount && 0 <= L < N && 0 <= p < N
    ensures LineOf(m[Index(CellOf(d, L, p)) := x], d, L) == LineOf(m, d, L)[p := x]
  {
    var a := LineOf(m[Index(CellOf(d, L, p)) := x], d, L);
    var b := LineOf(m, d, L)[p := x];
    forall i | 0 <= i < N
      ensures a[i] == b[i]
    {
      IndexInjective(CellOf(d, L, i), CellOf(d, L, p));
    }
  }

  /** The grid target searches agree with the line target search. */
  lemma TargetBridge(d: Direction, g: Cells, mm: MergeMap, L: int, p: int, v: int)
    requires 0 <= L < N && 0 <= p < N
    ensures TargetOf(d, g, v, CellOf(d, L, p), mm) == CellOf(d, L, Line.Target(LineOf(g, d, L), LineOf(mm, d, L), p, v))
  {
    var q := TargetOf(d, g, v, CellOf(d, L, p), mm);
    var line := LineOf(g, d, L);
    var marks := LineOf(mm, d, L);
    var t := LinePos(d, q);
    CellOfLinePos(d, q);
    assert Line.IsTarget(line, marks, p, v, t);
    Line.TargetUnique(line, marks, p, v, t, Line.Target(line, marks, p, v));
  }

  /** A step on line `L` acts on that line as the line scan's step. */
  lemma StepOnLine(s: ScanState, d: Direction, L: int, p: int)
    requires 0 <= L < N && 0 <= p < N
    ensures var ls := Line.LineState(LineOf(s.cells, d, L), LineOf(s.mergeMap, d, L));
      var s' := StepCell(s, d, CellOf(d, L, p));
      LineOf(s'.cells, d, L) == Line.Step(ls, p).cells && LineOf(s'.mergeMap, d, L) == Line.Step(ls, p).marks
  {
    var pos := CellOf(d, L, p);
    var cell := s.cells[Index(pos)];
    if !IsCellEmpty(cell) {
      var line := LineOf(s.cells, d, L);
      var marks := LineOf(s.mergeMap, d, L);
      TargetBridge(d, s.cells, s.mergeMap, L, p, cell);
      var t := Line.Target(line, marks, p, cell);
      var target := CellOf(d, L, t);
      var isMerge := pos != target && !IsCellEmpty(s.cells[Index(target)]);
      LineOfUpdate(s.cells, d, L, p, EmptyCell);
      LineOfUpdate(s.cells[Index(pos) := EmptyCell], d, L, t, if isMerge then cell * 2 else cell);
      if isMerge {
        LineOfUpdate(s.mergeMap, d, L, t, true);
      }
    }
  }

  /** A step on another line leaves line `L` alone. */
  lemma StepOffLine(s: ScanState, d: Direction, L: int, pos: Pos)
    requires 0 <= L < N && InBounds(pos) && LineIndex(d, pos) != L
    ensures LineOf(StepCell(s, d, pos).cells, d, L) == LineOf(s.cells, d, L)
    ensures LineOf(StepCell(s, d, pos).mergeMap, d, L) == LineOf(s.mergeMap, d, L)
  {
  }

  ghost predicate ProjectsTo(s: ScanState, d: Direction, L: int, ls: Line.LineState)
    requires 0 <= L < N
  {
    LineOf(s.cells, d, L) == ls.cells && LineOf(s.mergeMap, d, L) == ls.marks
  }

  lemma StepProjects(g0: Cells, s: ScanState, d: Direction, L: int, k: int)
    requires 0 <= L < N && 0 < k <= CellCount
    requires ProjectsTo(s, d, L, Line.Scan(LineOf(g0, d, L), LineCount(d, L, k - 1)))
    ensures ProjectsTo(StepCell(s, d, ScanCell(d, k - 1)), d, L, Line.Scan(LineOf(g0, d, L), LineCount(d, L, k)))
  {
    LineVisitOrder(d, L, k - 1);
    if ScanLine(d, k - 1) == L {
      StepOnLine(s, d, L, ScanPos(d, k - 1));
    } else {
      StepOffLine(s, d, L, ScanCell(d, k - 1));
    }
  }

  lemma ProjectionStart(g0: Cells, d: Direction, L: int)
    requires 0 <= L < N
    ensures ProjectsTo(ScanState(g0, NoMarks(), [], []), d, L, Line.Scan(LineOf(g0, d, L), 0))
  {
    assert LineOf(NoMarks(), d, L) == seq(N, _ => false);
  }

  // ---------------------------------------------------------------------------
  // The whole move against the reference.

  /** The reference result of a move toward `d`: every line slid by `Line.Slide`. */
  function SlideGrid(g: Cells, d: Direction): Cells
  {
    seq(CellCount, i requires 0 <= i < CellCount =>
      Line.Slide(LineOf(g, d, LineIndex(d, PosAt(i))))[LinePos(d, PosAt(i))])
  }

  lemma SlideGridLines(g: Cells, d: Direction, L: int)
    requires 0 <= L < N
    ensures LineOf(SlideGrid(g, d), d, L) == Line.Slide(LineOf(g, d, L))
  {
    var a := LineOf(SlideGrid(g, d), d, L);
    var b := Line.Slide(LineOf(g, d, L));
    forall p | 0 <= p < N
      ensures a[p] == b[p]
    {
      var q := CellOf(d, L, p);
      IndexInjective(PosAt(Index(q)), q);
    }
  }


  lemma SlideGridCompacted(g: Cells, d: Direction)
    ensures CompactedToward(SlideGrid(g, d), d)
  {
    var e := SlideGrid(g, d);
    forall L, p1, p2 | 0 <= L < N && 0 <= p1 < p2 < N
      ensures IsCellEmpty(e[Index(CellOf(d, L, p1))]) ==> IsCellEmpty(e[Index(CellOf(d, L, p2))])
    {
      SlideGridLines(g, d, L);
      Line.SlideCompacted(LineOf(g, d, L));
      assert e[Index(CellOf(d, L, p1))] == LineOf(e, d, L)[p1];
      assert e[Index(CellOf(d, L, p2))] == LineOf(e, d, L)[p2];
    }
  }

  // ---------------------------------------------------------------------------
  // The loop invariant of a move.

  /** After the first `k` iterations of the scan toward `d` from grid `g0`. */
  ghost predicate ScanInv(g0: Cells, d: Direction, k: int, s: ScanState)
  {
    && 0 <= k <= CellCount
    && Conserved(g0, s.cells, s.moves, s.merges)
    && MarksMerges(s.mergeMap, s.moves)
    && IdleInvariant(g0, s)
    && MovedEvidence(g0, d, s.moves)
    && Ahead(g0, s, d, k)
    && RecordsFollowScan(g0, d, k, s.moves)
    && Landed(d, k, s)
    && RecordsOrdered(d, s.moves)
    && forall L | 0 <= L < N :: ProjectsTo(s, d, L, Line.Scan(LineOf(g0, d, L), LineCount(d, L, k)))
  }

  /** The state a move starts from: the grid, an all-false `merge_map`, no records. */
  function ScanStart(g0: Cells): ScanState
  {
    ScanState(g0, NoMarks(), [], [])
  }

  lemma ScanInvStart(g0: Cells, d: Direction)
    ensures ScanInv(g0, d, 0, ScanStart(g0))
  {
    var s := ScanStart(g0);
    forall L | 0 <= L < N
      ensures ProjectsTo(s, d, L, Line.Scan(LineOf(g0, d, L), LineCount(d, L, 0)))
    {
      LineVisitOrder(d, L, 0);
      ProjectionStart(g0, d, L);
    }
  }

  /** Iteration `k - 1` of the scan keeps the invariant. */
  lemma StepInvAt(g0: Cells, d: Direction, k: int, s: ScanState, pos: Pos, x: ScanState)
    requires 0 < k <= CellCount && ScanInv(g0, d, k - 1, s) && pos == ScanCell(d, k - 1)
    requires x == StepCell(s, d, pos)
    ensures ScanInv(g0, d, k, x)
  {
    StepConserves(g0, s, d, pos);
    StepMarksMerges(s, d, pos);
    StepIdle(g0, s, d, pos);
    StepEvidence(g0, s, d, pos);
    StepAhead(g0, s, d, k);
    StepRecords(g0, s, d, k);
    StepLanded(s, d, k);
    StepOrdered(s, d, k);
    forall L | 0 <= L < N
      ensures ProjectsTo(StepCell(s, d, pos), d, L, Line.Scan(LineOf(g0, d, L), LineCount(d, L, k)))
    {
      StepProjects(g0, s, d, L, k);
    }
  }

  /** After all sixteen iterations a line holds its reference slide. */
  lemma ScanInvLine(g0: Cells, d: Direction, s: ScanState, L: int)
    requires 0 <= L < N && ScanInv(g0, d, CellCount, s)
    ensures LineOf(s.cells, d, L) == Line.Slide(LineOf(g0, d, L))
  {
    LineVisitOrder(d, L, 0);
    Line.ScanIsSlide(LineOf(g0, d, L));
  }

  /** A grid whose every line holds the reference slide is the reference result. */
  lemma LinesSlideGrid(g0: Cells, d: Direction, c: Cells)
    requires forall L | 0 <= L < N :: LineOf(c, d, L) == Line.Slide(LineOf(g0, d, L))
    ensures c == SlideGrid(g0, d)
  {
    var e := SlideGrid(g0, d);
    forall i | 0 <= i < CellCount
      ensures c[i] == e[i]
    {
      var q := PosAt(i);
      var L := LineIndex(d, q);
      CellOfLinePos(d, q);
      SlideGridLines(g0, d, L);
      assert c[i] == LineOf(c, d, L)[LinePos(d, q)];
      assert e[i] == LineOf(e, d, L)[LinePos(d, q)];
    }
  }

  /** After all sixteen iterations every line holds its reference slide. */
  lemma ScanInvSlides(g0: Cells, d: Direction, s: ScanState)
    requires ScanInv(g0, d, CellCount, s)
    ensures s.cells == SlideGrid(g0, d)
  {
    forall L | 0 <= L < N
      ensures LineOf(s.cells, d, L) == Line.Slide(LineOf(g0, d, L))
    {
      ScanInvLine(g0, d, s, L);
    }
    LinesSlideGrid(g0, d, s.cells);
  }

  /** What a whole move toward `d` promises about its result grid and its
      records: every line holds its reference slide; the sum is kept and each
      merge removes one occupied cell; the `Merge` records match the merging
      `Move` records; no cell receives two merges and a merging tile always
      leaves its cell; there is one record per occupied cell in visiting
      order; each record's tile ends in its `to` cell, the records of a line
      never overtake each other, and each merge joins an earlier tile; the
      records are all idle exactly when the grid is unchanged; and a
      move that changed the grid left at least one cell empty. */
  ghost predicate MoveOutcome(g0: Cells, d: Direction, cells: Cells, moves: seq<MoveRec>, merges: seq<MergeRec>)
  {
    && cells == SlideGrid(g0, d)
    && Conserved(g0, cells, moves, merges)
    && MergesSound(moves)
    && RecordsFollowScan(g0, d, CellCount, moves)
    && RecordsLand(cells, moves)
    && RecordsOrdered(d, moves)
    && IdleMeansUnchanged(g0, cells, moves)
  }

  /** The records are all idle exactly when the grid is unchanged, and a
      move that changed the grid left at least one cell empty. */
  ghost predicate IdleMeansUnchanged(g0: Cells, cells: Cells, moves: seq<MoveRec>)
  {
    && (AllIdle(moves) <==> cells == g0)
    && (!AllIdle(moves) ==> CountNonEmpty(cells) < CellCount)
  }

  /** Once the grid is compacted, its records are all idle exactly when it
      is unchanged: a merge lowers the occupied count, and a plain move can
      only happen in a grid that was not compacted. */
  lemma IdleExactly(g0: Cells, d: Direction, s: ScanState)
    requires IdleInvariant(g0, s) && MovedEvidence(g0, d, s.moves) && CompactedToward(s.cells, d)
    requires CountNonEmpty(s.cells) == CountNonEmpty(g0) - MergeCount(s.moves)
    ensures AllIdle(s.moves) <==> s.cells == g0
  {
    if AllIdle(s.moves) {
      assert s.cells == g0;
    }
  }

  /** The invariant after the last iteration gives the outcome of the move. */
  lemma ScanInvDone(g0: Cells, d: Direction, s: ScanState)
    requires ScanInv(g0, d, CellCount, s)
    ensures MoveOutcome(g0, d, s.cells, s.moves, s.merges)
    ensures CompactedToward(s.cells, d)
  {
    ScanInvSlides(g0, d, s);
    SlideGridCompacted(g0, d);
    IdleExactly(g0, d, s);
    LandedDone(d, s);
  }

  // ---------------------------------------------------------------------------
  // The iterations of a move. The move functions visit cells in nested
  // row/column loops; the invariant above is indexed by the scan position.

  /** The row visited in outer iteration `r` of a move's loops, and the column
      visited in inner iteration `c`: `MoveDown` runs its rows upward and
      `MoveRight` its columns leftward. */
  function VisitRow(d: Direction, r: int): int
  {
    if d == Down then Rows - 1 - r else r
  }

  function VisitCol(d: Direction, c: int): int
  {
    if d == Right then Cols - 1 - c else c
  }

  /** The state of a move's loops after the first `r` outer iterations and
      the first `c` inner iterations of outer iteration `r`. */
  function RunLoops(g0: Cells, d: Direction, r: int, c: int): ScanState
    requires 0 <= r <= Rows && 0 <= c <= Cols && (r == Rows ==> c == 0)
    decreases r, c
  {
    if c > 0 then StepCell(RunLoops(g0, d, r, c - 1), d, Pos(VisitRow(d, r), VisitCol(d, c - 1)))
    else if r > 0 then RunLoops(g0, d, r - 1, Cols)
    else ScanStart(g0)
  }

  lemma VisitIndex(d: Direction, r: int, c: int, k: int)
    requires 0 <= r < Rows && 0 <= c < Cols && k == Cols * r + c
    ensures ScanCell(d, k) == Pos(VisitRow(d, r), VisitCol(d, c))
  {
    ScanIndexBounds(d, Pos(VisitRow(d, r), VisitCol(d, c)));
  }

  /** One inner iteration of a move's loops: iteration `c` of outer
      iteration `r` visits `pos`. */
  lemma LoopsStep(g0: Cells, d: Direction, r: int, c: int, c': int, pos: Pos)
    requires 0 <= r < Rows && 0 <= c < Cols && c' == c + 1
    requires pos == Pos(VisitRow(d, r), VisitCol(d, c))
    ensures InBounds(pos)
    ensures RunLoops(g0, d, r, c') == StepCell(RunLoops(g0, d, r, c), d, pos)
  {
  }

  /** The end of outer iteration `r` is the start of the next one. */
  lemma LoopsNextRow(g0: Cells, d: Direction, r: int, c: int, r': int)
    requires 0 <= r < Rows && c == Cols && r' == r + 1
    ensures RunLoops(g0, d, r', 0) == RunLoops(g0, d, r, c)
  {
  }

  /** One inner iteration of a move's loops keeps the loop invariant. */
  lemma LoopsStepInv(g0: Cells, d: Direction, r: int, c: int, k: int)
    requires 0 <= r < Rows && 0 < c <= Cols && k == Cols * r + c
    requires ScanInv(g0, d, k - 1, RunLoops(g0, d, r, c - 1))
    ensures ScanInv(g0, d, k, RunLoops(g0, d, r, c))
  {
    VisitIndex(d, r, c - 1, k - 1);
    StepInvAt(g0, d, k, RunLoops(g0, d, r, c - 1), Pos(VisitRow(d, r), VisitCol(d, c - 1)), RunLoops(g0, d, r, c));
  }

  /** Moving on to the next outer iteration keeps the loop invariant. */
  lemma LoopsRowInv(g0: Cells, d: Direction, r: int, k: int)
    requires 0 < r <= Rows && ScanInv(g0, d, k, RunLoops(g0, d, r - 1, Cols))
    ensures ScanInv(g0, d, k, RunLoops(g0, d, r, 0))
  {
  }

  /** The invariant speaks of the state and the iteration count only. */
  lemma InvSame(g0: Cells, d: Direction, j: int, k: int, s: ScanState, x: ScanState)
    requires j == k && s == x && ScanInv(g0, d, j, s)
    ensures ScanInv(g0, d, k, x)
  {
  }

  /** The scan index where outer iteration `r` starts. */
  lemma RowIndex(r: int, k: int)
    requires k == Cols * r
    ensures k == Cols * (r - 1) + Cols
  {
  }

  /** The nested loops visit the cells in scan order, so the loop invariant
      holds after every iteration. */
  lemma {:induction false} LoopsInv(g0: Cells, d: Direction, r: int, c: int, k: int)
    requires 0 <= r <= Rows && 0 <= c <= Cols && (r == Rows ==> c == 0)
    requires k == Cols * r + c
    ensures ScanInv(g0, d, k, RunLoops(g0, d, r, c))
    decreases r, c, 1
  {
    if c > 0 {
      LoopsInvInner(g0, d, r, c, k);
    } else if r > 0 {
      RowIndex(r, k);
      LoopsInvOuter(g0, d, r, k);
    } else {
      ScanInvStart(g0, d);
      InvSame(g0, d, 0, k, ScanStart(g0), RunLoops(g0, d, r, c));
    }
  }

  lemma {:induction false} LoopsInvInner(g0: Cells, d: Direction, r: int, c: int, k: int)
    requires 0 <= r < Rows && 0 < c <= Cols && k == Cols * r + c
    ensures ScanInv(g0, d, k, RunLoops(g0, d, r, c))
    decreases r, c, 0
  {
    LoopsInv(g0, d, r, c - 1, k - 1);
    LoopsStepInv(g0, d, r, c, k);
  }

  lemma {:induction false} LoopsInvOuter(g0: Cells, d: Direction, r: int, k: int)
    requires 0 < r <= Rows && k == Cols * (r - 1) + Cols
    ensures ScanInv(g0, d, k, RunLoops(g0, d, r, 0))
    decreases r - 1, Cols, 2
  {
    LoopsInv(g0, d, r - 1, Cols, k);
    LoopsRowInv(g0, d, r, k);
  }

  /** The variables of a move's loops after all their iterations. */
  lemma LoopsDone(g0: Cells, d: Direction, r: int, cells: Cells, mm: MergeMap, moves: seq<MoveRec>, merges: seq<MergeRec>)
    requires r == Rows && ScanState(cells, mm, moves, merges) == RunLoops(g0, d, r, 0)
    ensures MoveOutcome(g0, d, cells, moves, merges) && CompactedToward(cells, d)
  {
    LoopsInv(g0, d, Rows, 0, CellCount);
    ScanInvDone(g0, d, RunLoops(g0, d, Rows, 0));
  }
}
