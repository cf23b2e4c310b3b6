/** `findHighestValue`: a row-major scan for the largest cell value, which
    starts from value 0 at (0, 0) and moves only on a strictly larger value. */
module Locate {
  import opened Cells

  datatype Best = Best(value: int, row: nat, col: nat)

  /** (p, q) comes before (x, y) in row-major order. */
  predicate Before(p: int, q: int, x: int, y: int)
  {
    p < x || (p == x && q < y)
  }

  /** (p, q) is a cell of `g` visited before position (i, n) of the scan. */
  predicate Visited(g: Grid, p: int, q: int, i: int, n: int)
  {
    0 <= p < |g| && 0 <= q < |g[p]| && Before(p, q, i, n)
  }

  /** `b` is what the scan holds once it has visited the cells before (i, n):
      a value no smaller than 0 or than any visited cell, located at the first
      visited cell holding it, or (0, 0, 0) when no visited cell is positive. */
  ghost predicate ScanState(g: Grid, b: Best, i: int, n: int)
  {
    && b.value >= 0
    && (forall p, q :: Visited(g, p, q, i, n) ==> g[p][q].value <= b.value)
    && (b.value > 0 ==>
          && Visited(g, b.row, b.col, i, n)
          && g[b.row][b.col].value == b.value
          && forall p, q :: Visited(g, p, q, b.row, b.col) ==> g[p][q].value < b.value)
    && (b.value == 0 ==> b.row == 0 && b.col == 0)
  }

  /** One comparison of the inner loop. */
  function Consider(b: Best, v: int, i: nat, j: nat): Best
  {
    if v > b.value then Best(v, i, j) else b
  }

  /** The scan over the first `n` cells of row `i`, starting from `acc`. */
  function ScanRow(g: Grid, acc: Best, i: nat, n: nat): (b: Best)
    requires i < |g| && n <= |g[i]|
    requires ScanState(g, acc, i, 0)
    ensures ScanState(g, b, i, n)
    decreases n
  {
    if n == 0 then acc
    else
      var b := ScanRow(g, acc, i, n - 1);
      Consider(b, g[i][n - 1].value, i, n - 1)
  }

  /** The scan over the first `m` rows. */
  function ScanRows(g: Grid, m: nat): (b: Best)
    requires m <= |g|
    ensures ScanState(g, b, m, 0)
    decreases m
  {
    if m == 0 then Best(0, 0, 0)
    else
      var b := ScanRow(g, ScanRows(g, m - 1), m - 1, |g[m - 1]|);
      assert forall p, q :: Visited(g, p, q, m, 0) <==> Visited(g, p, q, m - 1, |g[m - 1]|);
      b
  }

  /** `findHighestValue`: the largest value, never below 0, at the first
      cell in row-major order that holds it; (0, 0, 0) when no cell is positive. */
  function FindHighestValue(g: Grid): (b: Best)
    ensures b.value >= 0
    ensures forall p, q :: 0 <= p < |g| && 0 <= q < |g[p]| ==> g[p][q].value <= b.value
    ensures b.value > 0 ==> b.row < |g| && b.col < |g[b.row]| && g[b.row][b.col].value == b.value
    ensures b.value > 0 ==> forall p, q ::
      0 <= p < |g| && 0 <= q < |g[p]| && Before(p, q, b.row, b.col) ==> g[p][q].value < b.value
    ensures b.value == 0 ==> b.row == 0 && b.col == 0
  {
    var b := ScanRows(g, |g|);
    assert forall p, q :: 0 <= p < |g| && 0 <= q < |g[p]| ==> Visited(g, p, q, |g|, 0);
    b
  }
}
