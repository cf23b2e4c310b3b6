/** The cells of the dynamic-programming matrix (the Go `score` struct and
    its `directions` enum) and the matrix itself (`[][]score`). */
module Cells {

  /** One byte of a Go string: the sequences are indexed byte by byte. */
  newtype byte = x: int | 0 <= x < 0x100

  /** The move that produced a cell. `Up` is the zero value of the Go enum,
      so a freshly allocated cell points up. `Nothing` marks a cell that the
      local recurrence floored to zero. */
  datatype Dir = Up | Left | Diagonal | Nothing

  /** The strings stored in `topBase` and `leftBase`: the empty string, the
      gap string "-", or the one-symbol string made from a sequence byte. */
  datatype Base = Empty | Gap | Sym(symbol: byte)

  datatype Cell = Cell(value: int, dir: Dir, topBase: Base, leftBase: Base)

  /** Rows of cells; row i belongs to the second sequence, column j to the first. */
  type Grid = seq<seq<Cell>>

  /** The Go zero value of `score`. */
  const ZeroCell := Cell(0, Up, Empty, Empty)

  /** `g` has exactly `rows` rows, each of exactly `cols` cells. */
  predicate IsRect(g: Grid, rows: nat, cols: nat)
  {
    |g| == rows && forall i :: 0 <= i < |g| ==> |g[i]| == cols
  }

  /** A non-empty grid whose rows all have the length of the first. */
  predicate Rectangular(g: Grid)
  {
    |g| > 0 && IsRect(g, |g|, |g[0]|)
  }

  /** `makeMatrix(x, y)`: `y` rows of `x` zero cells. (The Go doc comment
      calls `x` the number of rows; the code makes `x` the row length.) */
  function MakeMatrix(x: nat, y: nat): (g: Grid)
    ensures IsRect(g, y, x)
    ensures forall i, j :: 0 <= i < y && 0 <= j < x ==> g[i][j] == ZeroCell
  {
    seq(y, _ => seq(x, _ => ZeroCell))
  }
}
