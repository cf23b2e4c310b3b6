/** Exchanging the two sequences. With a symmetric scoring context the
    matrix of the exchanged run is the transpose of the original's, value
    for value, so both runs report the same total score. The directions
    are not transposed: on a tie between up and left both runs go left
    (`Recurrence.ChooseTransposes`). */
module Symmetry {
  import opened Wrappers
  import opened Cells
  import opened Scoring
  import opened Recurrence
  import opened Filling
  import opened Locate
  import opened Align

  /** The run with `s1` and `s2` exchanged. */
  function Swap(s: Session): Session
  {
    s.(s1 := s.s2, s2 := s.s1)
  }

  /** Constant scoring, or a table symmetric on its defined entries. */
  ghost predicate SymmetricScoring(sc: Scoring)
  {
    sc.Table? ==> SymmetricTable(sc.table)
  }

  /** With symmetric scoring, the exchanged run looks up the same scores. */
  lemma SwapScorable(s: Session)
    requires Scorable(s) && SymmetricScoring(s.scoring)
    ensures Scorable(Swap(s))
    ensures forall i, j :: 1 <= i <= |s.s2| && 1 <= j <= |s.s1| ==> Sub(Swap(s), j, i) == Sub(s, i, j)
  {
    forall i, j | 0 <= i < |s.s1| && 0 <= j < |s.s2|
      ensures PairScorable(Swap(s), i, j)
    {
      assert PairScorable(s, j, i);
      SubstitutionSymmetric(s.scoring, s.s1[i], s.s2[j]);
    }
    forall i, j | 1 <= i <= |s.s2| && 1 <= j <= |s.s1|
      ensures Sub(Swap(s), j, i) == Sub(s, i, j)
    {
      SubstitutionSymmetric(s.scoring, s.s1[j-1], s.s2[i-1]);
    }
  }

  /** Cell (j, i) of the exchanged run's matrix holds the value of cell
      (i, j) of the original's. */
  lemma {:induction false} SwapCell(s: Session, g: Grid, h: Grid, i: nat, j: nat)
    requires RunMatrix(s, g) && RunMatrix(Swap(s), h) && SymmetricScoring(s.scoring)
    requires i <= |s.s2| && j <= |s.s1|
    ensures h[j][i].value == g[i][j].value
    decreases i + j
  {
    if i == 0 || j == 0 {
      BorderCharge(s, g, i, j);
      BorderCharge(Swap(s), h, j, i);
    } else {
      SwapCell(s, g, h, i - 1, j);
      SwapCell(s, g, h, i, j - 1);
      SwapCell(s, g, h, i - 1, j - 1);
      SwapScorable(s);
      StepConsistent(s, g, i, j);
      StepConsistent(Swap(s), h, j, i);
    }
  }

  /** The exchanged run's matrix is the transpose of the original's, value
      for value. */
  lemma SwapTransposes(s: Session, g: Grid, h: Grid)
    requires RunMatrix(s, g) && RunMatrix(Swap(s), h) && SymmetricScoring(s.scoring)
    ensures forall i, j :: 0 <= i <= |s.s2| && 0 <= j <= |s.s1| ==> h[j][i].value == g[i][j].value
  {
    forall i, j | 0 <= i <= |s.s2| && 0 <= j <= |s.s1|
      ensures h[j][i].value == g[i][j].value
    {
      SwapCell(s, g, h, i, j);
    }
  }

  /** With symmetric scoring, exchanging the sequences leaves the global
      total score unchanged. */
  lemma GlobalSwapScore(s: Session)
    requires s.mode == Global && SymmetricScoring(s.scoring)
    ensures GlobalAlignment(Swap(s)).Some? <==> GlobalAlignment(s).Some?
    ensures GlobalAlignment(s).Some? ==> GlobalAlignment(Swap(s)).value.totalScore == GlobalAlignment(s).value.totalScore
  {
    if Scorable(s) {
      SwapScorable(s);
      SwapCell(s, Matrix(s), Matrix(Swap(s)), |s.s2|, |s.s1|);
    } else if Scorable(Swap(s)) {
      assert Swap(Swap(s)) == s;
      SwapScorable(Swap(s));
    }
  }

  /** The exchanged run's matrix has the same largest cell value. */
  lemma SwapBest(s: Session, g: Grid, h: Grid)
    requires RunMatrix(s, g) && RunMatrix(Swap(s), h) && SymmetricScoring(s.scoring)
    ensures FindHighestValue(h).value == FindHighestValue(g).value
  {
    SwapTransposes(s, g, h);
    var b, b' := FindHighestValue(g), FindHighestValue(h);
    if b.value > 0 {
      assert h[b.col][b.row].value == b.value;
    }
    if b'.value > 0 {
      assert g[b'.col][b'.row].value == b'.value;
    }
  }

  /** With symmetric scoring, exchanging the sequences leaves the local
      total score, the largest cell value, unchanged. */
  lemma LocalSwapScore(s: Session)
    requires s.mode == Local && SymmetricScoring(s.scoring)
    ensures LocalAlignment(Swap(s)).Some? <==> LocalAlignment(s).Some?
    ensures LocalAlignment(s).Some? ==> LocalAlignment(Swap(s)).value.totalScore == LocalAlignment(s).value.totalScore
  {
    if Scorable(s) {
      SwapScorable(s);
      SwapBest(s, Matrix(s), Matrix(Swap(s)));
    } else if Scorable(Swap(s)) {
      assert Swap(Swap(s)) == s;
      SwapScorable(Swap(s));
    }
  }
}
