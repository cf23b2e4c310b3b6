/** The per-cell recurrence shared by `scoreCells` (global) and
    `smScoreCells` (local), with its exact tie-break order. */
module Recurrence {
  import opened Cells

  datatype Mode = Global | Local

  function Max(a: int, b: int): int
  {
    if a >= b then a else b
  }

  function Max3(a: int, b: int, c: int): int
  {
    Max(a, Max(b, c))
  }

  /** The tie-break: the diagonal wins only when it beats both gap moves
      strictly; otherwise up wins only when it beats left strictly; every
      remaining case, a tie between up and left included, goes left. */
  function Choose(up: int, left: int, diag: int): (d: Dir)
    ensures d != Nothing
    ensures d == Diagonal ==> diag > up && diag > left
    ensures d == Up ==> up > left && up >= diag
    ensures d == Left ==> left >= up && left >= diag
  {
    if diag > up && left < diag then Diagonal
    else if up > left then Up
    else Left
  }

  /** Reference rule: among the moves reaching the maximum, prefer left,
      then up, then the diagonal. */
  function PreferLeftThenUp(up: int, left: int, diag: int): Dir
  {
    var m := Max3(up, left, diag);
    if left == m then Left else if up == m then Up else Diagonal
  }

  lemma ChooseIsPreferLeftThenUp(up: int, left: int, diag: int)
    ensures Choose(up, left, diag) == PreferLeftThenUp(up, left, diag)
  {
  }

  /** A direction with rows and columns exchanged. */
  function Transposed(d: Dir): Dir
  {
    match d
    case Up => Left
    case Left => Up
    case _ => d
  }

  /** Exchanging the up and left candidates transposes the chosen direction
      except on a tie between them that the diagonal does not beat: that tie
      goes left either way, so the tie-break is not symmetric. */
  lemma ChooseTransposes(up: int, left: int, diag: int)
    ensures Choose(left, up, diag) == Transposed(Choose(up, left, diag)) <==> !(up == left && up >= diag)
    ensures up == left && up >= diag ==> Choose(up, left, diag) == Choose(left, up, diag) == Left
  {
  }

  /** The value a move carries. */
  function MoveValue(d: Dir, up: int, left: int, diag: int): int
  {
    match d
    case Up => up
    case Left => left
    case _ => diag
  }

  /** One cell from its three candidate scores `up`, `left`, `diag` and the
      symbols `a` (first sequence, column j) and `b` (second sequence, row i)
      it would consume. */
  function ScoreCell(mode: Mode, up: int, left: int, diag: int, a: byte, b: byte): (c: Cell)
    ensures mode == Global ==> c.value == Max3(up, left, diag)
    ensures mode == Local ==> c.value == Max(0, Max3(up, left, diag))
    ensures c.dir == Nothing <==> mode == Local && diag < 0 && up < 0 && left < 0
    ensures c.dir == Nothing ==> c == Cell(0, Nothing, Empty, Empty)
    ensures c.dir != Nothing ==> c.dir == Choose(up, left, diag) && c.value == MoveValue(c.dir, up, left, diag)
    ensures c.dir == Up ==> c.topBase == Gap && c.leftBase == Sym(b)
    ensures c.dir == Left ==> c.topBase == Sym(a) && c.leftBase == Gap
    ensures c.dir == Diagonal ==> c.topBase == Sym(a) && c.leftBase == Sym(b)
  {
    if mode == Local && diag < 0 && up < 0 && left < 0 then
      Cell(0, Nothing, Empty, Empty)
    else if diag > up && left < diag then
      Cell(diag, Diagonal, Sym(a), Sym(b))
    else if up > left then
      Cell(up, Up, Gap, Sym(b))
    else
      Cell(left, Left, Sym(a), Gap)
  }

  /** Outside the floor case a local cell is exactly the global cell. */
  lemma LocalFollowsGlobal(up: int, left: int, diag: int, a: byte, b: byte)
    requires !(diag < 0 && up < 0 && left < 0)
    ensures ScoreCell(Local, up, left, diag, a, b) == ScoreCell(Global, up, left, diag, a, b)
  {
  }
}
