/** Filling the interior of the matrix. The Go code evaluates the cells of
    each anti-diagonal concurrently and waits between anti-diagonals; every
    cell reads only its upper, left and upper-left neighbours, so filling
    in row-major order produces the same matrix (see `RecurrenceDeterminesGrid`). */
module Filling {
  import opened Wrappers
  import opened Cells
  import opened Scoring
  import opened Recurrence

  /** Everything one alignment run reads: the two sequences, the scoring
      context, the gap score and the alignment mode. */
  datatype Session = Session(s1: seq<byte>, s2: seq<byte>, scoring: Scoring, gap: int, mode: Mode)

  /** Every pair of symbols the fill looks up has a score: the run does not
      panic on the substitution table. */
  predicate Scorable(s: Session)
  {
    forall i, j :: 0 <= i < |s.s2| && 0 <= j < |s.s1| ==> PairScorable(s, i, j)
  }

  /** `s1[j]` against `s2[i]` has a score. */
  predicate PairScorable(s: Session, i: nat, j: nat)
    requires i < |s.s2| && j < |s.s1|
  {
    Substitution(s.scoring, s.s1[j], s.s2[i]).Some?
  }

  /** A grid of the shape `main` allocates: `|s2|+1` rows of `|s1|+1` cells. */
  predicate Shaped(s: Session, g: Grid)
  {
    IsRect(g, |s.s2| + 1, |s.s1| + 1)
  }

  /** The substitution score of cell (i, j): `s1[j-1]` against `s2[i-1]`. */
  function Sub(s: Session, i: nat, j: nat): int
    requires Scorable(s) && 1 <= i <= |s.s2| && 1 <= j <= |s.s1|
  {
    assert PairScorable(s, i - 1, j - 1);
    Substitution(s.scoring, s.s1[j-1], s.s2[i-1]).value
  }

  /** Cell (i, j) computed from its upper, left and upper-left neighbours. */
  function Eval(s: Session, i: nat, j: nat, up: Cell, left: Cell, diag: Cell): Cell
    requires Scorable(s) && 1 <= i <= |s.s2| && 1 <= j <= |s.s1|
  {
    ScoreCell(s.mode, up.value + s.gap, left.value + s.gap, diag.value + Sub(s, i, j), s.s1[j-1], s.s2[i-1])
  }

  /** Cell (i, j) of `g` is what the recurrence makes of its upper, left
      and upper-left neighbours. */
  ghost predicate Follows(s: Session, g: Grid, i: nat, j: nat)
    requires Scorable(s) && IsRect(g, |g|, |s.s1| + 1)
    requires 1 <= i < |g| && i <= |s.s2| && 1 <= j <= |s.s1|
  {
    g[i][j] == Eval(s, i, j, g[i-1][j], g[i][j-1], g[i-1][j-1])
  }

  /** Every interior cell of `g` follows the recurrence. */
  ghost predicate Recurrent(s: Session, g: Grid)
    requires Scorable(s) && Shaped(s, g)
  {
    forall i, j :: 1 <= i <= |s.s2| && 1 <= j <= |s.s1| ==> Follows(s, g, i, j)
  }

  /** `g` and `h` agree on row 0 and column 0. */
  ghost predicate SameBorder(s: Session, g: Grid, h: Grid)
    requires Shaped(s, g) && Shaped(s, h)
  {
    && (forall j :: 0 <= j <= |s.s1| ==> g[0][j] == h[0][j])
    && (forall i :: 0 <= i <= |s.s2| ==> g[i][0] == h[i][0])
  }

  /** Cell j of `row` (row i) is the recurrence applied to the row above. */
  ghost predicate RowFollows(s: Session, prev: seq<Cell>, row: seq<Cell>, i: nat, j: nat)
    requires Scorable(s) && 1 <= i <= |s.s2| && |prev| == |s.s1| + 1
    requires 1 <= j < |row| && j <= |s.s1|
  {
    row[j] == Eval(s, i, j, prev[j], row[j-1], prev[j-1])
  }

  /** The first `n` cells of row `i`, given the finished row `prev` above it
      and the border cell `first` of row `i`. */
  function FillRow(s: Session, prev: seq<Cell>, first: Cell, i: nat, n: nat): (row: seq<Cell>)
    requires Scorable(s) && 1 <= i <= |s.s2| && |prev| == |s.s1| + 1 && 1 <= n <= |s.s1| + 1
    ensures |row| == n && row[0] == first
    ensures forall j :: 1 <= j < n ==> RowFollows(s, prev, row, i, j)
    decreases n
  {
    if n == 1 then [first]
    else
      var r := FillRow(s, prev, first, i, n - 1);
      var row := r + [Eval(s, i, n - 1, prev[n - 1], r[n - 2], prev[n - 2])];
      assert forall j :: 1 <= j < n - 1 ==> RowFollows(s, prev, row, i, j) by {
        forall j | 1 <= j < n - 1
          ensures RowFollows(s, prev, row, i, j)
        {
          assert RowFollows(s, prev, r, i, j);
        }
      }
      row
  }

  /** The first `m` rows of the filled grid; the border cells come from `g`. */
  function FillRows(s: Session, g: Grid, m: nat): (rows: Grid)
    requires Scorable(s) && Shaped(s, g) && 1 <= m <= |s.s2| + 1
    ensures IsRect(rows, m, |s.s1| + 1)
    ensures rows[0] == g[0]
    ensures forall i :: 1 <= i < m ==> rows[i][0] == g[i][0]
    ensures forall i, j :: 1 <= i < m && 1 <= j <= |s.s1| ==> Follows(s, rows, i, j)
    decreases m
  {
    if m == 1 then [g[0]]
    else
      var r := FillRows(s, g, m - 1);
      var last := FillRow(s, r[m - 2], g[m - 1][0], m - 1, |s.s1| + 1);
      var rows := r + [last];
      assert forall i, j :: 1 <= i < m && 1 <= j <= |s.s1| ==> Follows(s, rows, i, j) by {
        forall i, j | 1 <= i < m && 1 <= j <= |s.s1|
          ensures Follows(s, rows, i, j)
        {
          if i < m - 1 {
            assert Follows(s, r, i, j);
          } else {
            assert RowFollows(s, r[m - 2], last, m - 1, j);
          }
        }
      }
      rows
  }

  /** The filled matrix: the border of `g` kept, every interior cell
      computed by the recurrence. */
  function Fill(s: Session, g: Grid): (r: Grid)
    requires Scorable(s) && Shaped(s, g)
    ensures Shaped(s, r)
    ensures SameBorder(s, r, g)
    ensures Recurrent(s, r)
  {
    FillRows(s, g, |s.s2| + 1)
  }

  /** The border and the recurrence fix every cell: any evaluation order in
      which each cell is computed after its three neighbours (row-major, or
      anti-diagonal by anti-diagonal as the Go workers do) yields this grid. */
  lemma {:induction false} RecurrenceDeterminesGrid(s: Session, g: Grid, h: Grid)
    requires Scorable(s) && Shaped(s, g) && Shaped(s, h)
    requires SameBorder(s, g, h) && Recurrent(s, g) && Recurrent(s, h)
    ensures g == h
  {
    forall i | 0 <= i <= |s.s2|
      ensures g[i] == h[i]
    {
      forall j | 0 <= j <= |s.s1|
        ensures g[i][j] == h[i][j]
      {
        CellsAgree(s, g, h, i, j);
      }
    }
  }

  lemma {:induction false} CellsAgree(s: Session, g: Grid, h: Grid, i: nat, j: nat)
    requires Scorable(s) && Shaped(s, g) && Shaped(s, h)
    requires SameBorder(s, g, h) && Recurrent(s, g) && Recurrent(s, h)
    requires i <= |s.s2| && j <= |s.s1|
    ensures g[i][j] == h[i][j]
    decreases i + j
  {
    if i > 0 && j > 0 {
      CellsAgree(s, g, h, i - 1, j);
      CellsAgree(s, g, h, i, j - 1);
      CellsAgree(s, g, h, i - 1, j - 1);
      assert Follows(s, g, i, j) && Follows(s, h, i, j);
    }
  }

  /** Each interior cell of a filled grid is its predecessor's value plus the
      step's score, and its bases record the step taken: an up step consumes
      `s2[i-1]` against a gap, a left step `s1[j-1]` against a gap, a diagonal
      step both symbols. A floored cell exists only in local mode. */
  lemma StepConsistent(s: Session, g: Grid, i: nat, j: nat)
    requires Scorable(s) && Shaped(s, g) && Recurrent(s, g)
    requires 1 <= i <= |s.s2| && 1 <= j <= |s.s1|
    ensures g[i][j].dir == Up ==>
      g[i][j].value == g[i-1][j].value + s.gap && g[i][j].topBase == Gap && g[i][j].leftBase == Sym(s.s2[i-1])
    ensures g[i][j].dir == Left ==>
      g[i][j].value == g[i][j-1].value + s.gap && g[i][j].topBase == Sym(s.s1[j-1]) && g[i][j].leftBase == Gap
    ensures g[i][j].dir == Diagonal ==>
      g[i][j].value == g[i-1][j-1].value + Sub(s, i, j)
      && g[i][j].topBase == Sym(s.s1[j-1]) && g[i][j].leftBase == Sym(s.s2[i-1])
    ensures g[i][j].dir == Nothing ==>
      s.mode == Local && g[i][j] == Cell(0, Nothing, Empty, Empty)
      && g[i-1][j].value + s.gap < 0 && g[i][j-1].value + s.gap < 0 && g[i-1][j-1].value + Sub(s, i, j) < 0
    ensures s.mode == Global ==>
      g[i][j].value == Max3(g[i-1][j].value + s.gap, g[i][j-1].value + s.gap, g[i-1][j-1].value + Sub(s, i, j))
    ensures s.mode == Local ==>
      g[i][j].value == Max(0, Max3(g[i-1][j].value + s.gap, g[i][j-1].value + s.gap, g[i-1][j-1].value + Sub(s, i, j)))
  {
    assert Follows(s, g, i, j);
  }
}
