/** Two runs on which `localAlignment` as written goes wrong because its
    walk starts with the bottom-right element but moves the best cell's
    coordinates, each next to what the intended traceback reports. */
module Findings {
  import opened Wrappers
  import opened Cells
  import opened Scoring
  import opened Recurrence
  import opened Filling
  import opened Locate
  import opened Traceback
  import opened Align

  /** "A" against "C" with match 5, mismatch -3 and gap 0. */
  const PanicRun := Session([0x41], [0x43], Constants(5, -3), 0, Local)

  /** Its matrix: no cell is positive, so the best cell is (0, 0), while
      the bottom-right cell points left. */
  const PanicGrid: Grid := [
    [ZeroCell, Cell(0, Left, Sym(0x41), Empty)],
    [Cell(0, Up, Empty, Sym(0x43)), Cell(0, Left, Sym(0x41), Gap)]
  ]

  lemma PanicGridIsMatrix()
    ensures Scorable(PanicRun) && RunMatrix(PanicRun, PanicGrid)
    ensures Matrix(PanicRun) == PanicGrid
  {
    var s, g := PanicRun, PanicGrid;
    assert Scorable(s) by {
      assert PairScorable(s, 0, 0);
    }
    assert Recurrent(s, g) by {
      assert Follows(s, g, 1, 1);
    }
    MatrixUnique(s, g);
  }

  /** As written, the walk steps left from column 0 of the best cell and
      indexes column -1: the run panics. The intended traceback from the
      best cell reports the empty alignment of score 0. */
  lemma LocalAsWrittenPanics()
    ensures Scorable(PanicRun)
    ensures LocalAlignmentAsWritten(PanicRun) == None
    ensures LocalAlignment(PanicRun) == Some(Alignment(0, [], [], []))
  {
    PanicGridIsMatrix();
    assert FindHighestValue(PanicGrid).value == 0;
  }

  /** "AC" against "A" with match 5, mismatch -3 and gap -4. */
  const SkewRun := Session([0x41, 0x43], [0x41], Constants(5, -3), -4, Local)

  /** Its matrix: the best cell (1, 1) matches the two A's with score 5,
      while the bottom-right cell (1, 2) points left over the C. */
  const SkewGrid: Grid := [
    [ZeroCell, Cell(0, Left, Sym(0x41), Empty), Cell(0, Left, Sym(0x43), Empty)],
    [Cell(0, Up, Empty, Sym(0x41)), Cell(5, Diagonal, Sym(0x41), Sym(0x41)), Cell(1, Left, Sym(0x43), Gap)]
  ]

  lemma SkewGridIsMatrix()
    ensures Scorable(SkewRun) && RunMatrix(SkewRun, SkewGrid)
    ensures Matrix(SkewRun) == SkewGrid
  {
    var s, g := SkewRun, SkewGrid;
    assert Scorable(s) by {
      assert PairScorable(s, 0, 0) && PairScorable(s, 0, 1);
    }
    assert Recurrent(s, g) by {
      assert Follows(s, g, 1, 1) && Follows(s, g, 1, 2);
    }
    MatrixUnique(s, g);
  }

  /** The best cell of the matrix is (1, 1), holding 5. */
  lemma SkewBest()
    ensures FindHighestValue(SkewGrid) == Best(5, 1, 1)
  {
    var b := FindHighestValue(SkewGrid);
    assert SkewGrid[1][1].value == 5;
  }

  /** The as-written walk moves (1, 1) left by the bottom-right cell's
      pointer and stops on the border after one column. */
  lemma SkewAsWritten()
    ensures RunMatrix(SkewRun, SkewGrid)
    ensures LocalTracebackAsWritten(SkewRun, SkewGrid) == Some(Alignment(5, [Sym(0x43)], [' '], [Gap]))
  {
    SkewGridIsMatrix();
    SkewBest();
    assert Walk(SkewGrid, SkewGrid[1][0], 1, 0) == Some(Trace([], [], [], 1, 0));
    assert Step(SkewGrid[1][2]) == Move(0, 1, ' ');
    WalkUnfold(SkewGrid, SkewGrid[1][2], 1, 1, Trace([], [], [], 1, 0));
    assert Extend(Trace([], [], [], 1, 0), SkewGrid[1][2]) == Trace([Sym(0x43)], [' '], [Gap], 1, 0);
  }

  /** The intended walk from (1, 1) takes the diagonal to the corner. */
  lemma SkewIntended()
    ensures RunMatrix(SkewRun, SkewGrid)
    ensures LocalTraceback(SkewRun, SkewGrid) == Alignment(5, [Sym(0x41)], ['|'], [Sym(0x41)])
  {
    SkewGridIsMatrix();
    SkewBest();
    assert Walk(SkewGrid, SkewGrid[0][0], 0, 0) == Some(Trace([], [], [], 0, 0));
    assert Step(SkewGrid[1][1]) == Move(1, 1, '|');
    WalkUnfold(SkewGrid, SkewGrid[1][1], 1, 1, Trace([], [], [], 0, 0));
    assert Extend(Trace([], [], [], 0, 0), SkewGrid[1][1]) == Trace([Sym(0x41)], ['|'], [Sym(0x41)], 0, 0);
  }

  /** As written, the run reports score 5 with the single column C over a
      gap, a column that scores -4; the intended traceback reports the
      A-A match that earned the 5. */
  lemma LocalAsWrittenMisreports()
    ensures Scorable(SkewRun)
    ensures LocalAlignmentAsWritten(SkewRun) == Some(Alignment(5, [Sym(0x43)], [' '], [Gap]))
    ensures AlignmentScore(SkewRun, [Sym(0x43)], [Gap]) == -4
    ensures LocalAlignment(SkewRun) == Some(Alignment(5, [Sym(0x41)], ['|'], [Sym(0x41)]))
    ensures AlignmentScore(SkewRun, [Sym(0x41)], [Sym(0x41)]) == 5
  {
    SkewGridIsMatrix();
    SkewAsWritten();
    SkewIntended();
  }
}
