/** The traceback loop shared by `globalAlignment` and `localAlignment`:
    follow direction pointers back from a start cell, prepending each
    cell's bases and a match mark, until a cell with an empty base. */
module Traceback {
  import opened Wrappers
  import opened Cells

  /** The loop's output: `topSeq`, `matcher` and `leftSeq` in alignment
      order, and the loop's final coordinates (`currX`, `currY`). */
  datatype Trace = Trace(topSeq: seq<Base>, matcher: seq<char>, leftSeq: seq<Base>, endRow: nat, endCol: nat)

  /** One step of the loop: the row and column decrements and the match mark. */
  datatype Move = Move(dx: nat, dy: nat, mark: char)

  /** The step taken from cell `c`. Any direction other than up or left
      steps diagonally, as the Go `else` does. */
  function Step(c: Cell): Move
  {
    match c.dir
    case Up => Move(1, 0, ' ')
    case Left => Move(0, 1, ' ')
    case _ => Move(1, 1, if c.leftBase == c.topBase then '|' else ':')
  }

  /** A column of the output as the loop can produce it. */
  predicate MarkAgrees(top: Base, m: char, left: Base)
  {
    && top != Empty && left != Empty
    && (m == ' ' || m == '|' || m == ':')
    && (m == '|' ==> top == left)
    && (m == ':' ==> top != left)
  }

  /** The walk's output after one more (earlier) element `c` is prepended. */
  function Extend(t: Trace, c: Cell): Trace
  {
    Trace(t.topSeq + [c.topBase], t.matcher + [Step(c).mark], t.leftSeq + [c.leftBase], t.endRow, t.endCol)
  }

  /** The walk from the current element `cur` at coordinates (x, y). The
      element is passed apart from the coordinates because the local run
      starts with the bottom-right element but with the coordinates of the
      best cell. `None` is the panic of indexing the matrix at -1. */
  function Walk(g: Grid, cur: Cell, x: nat, y: nat): (r: Option<Trace>)
    requires Rectangular(g) && x < |g| && y < |g[0]|
    ensures r.Some? ==> |r.value.topSeq| == |r.value.matcher| == |r.value.leftSeq|
    ensures r.Some? ==> forall k :: 0 <= k < |r.value.matcher| ==>
      MarkAgrees(r.value.topSeq[k], r.value.matcher[k], r.value.leftSeq[k])
    ensures r.Some? ==> r.value.endRow <= x && r.value.endCol <= y
    ensures cur.topBase == Empty || cur.leftBase == Empty <==> r == Some(Trace([], [], [], x, y))
    decreases x + y
  {
    if cur.topBase == Empty || cur.leftBase == Empty then
      Some(Trace([], [], [], x, y))
    else
      var m := Step(cur);
      if x < m.dx || y < m.dy then None
      else
        match Walk(g, g[x - m.dx][y - m.dy], x - m.dx, y - m.dy)
        case None => None
        case Some(t) => Some(Extend(t, cur))
  }

  /** The walk from a cell with both bases is the walk from the cell its
      step leads to, extended by the cell. */
  lemma WalkUnfold(g: Grid, cur: Cell, x: nat, y: nat, t: Trace)
    requires Rectangular(g) && x < |g| && y < |g[0]|
    requires cur.topBase != Empty && cur.leftBase != Empty
    requires Step(cur).dx <= x && Step(cur).dy <= y
    requires Walk(g, g[x - Step(cur).dx][y - Step(cur).dy], x - Step(cur).dx, y - Step(cur).dy) == Some(t)
    ensures Walk(g, cur, x, y) == Some(Extend(t, cur))
  {
  }

  /** Every cell that has both bases lies off the border, so each step the
      walk takes from it stays inside the matrix. */
  ghost predicate BorderStops(g: Grid)
    requires Rectangular(g)
  {
    forall i, j :: 0 <= i < |g| && 0 <= j < |g[0]| && g[i][j].topBase != Empty && g[i][j].leftBase != Empty
      ==> 1 <= i && 1 <= j
  }

  /** The walk from cell (x, y) with the panic cut off: a step that would
      leave the matrix ends the walk instead. On a matrix where no step
      leaves it, this is what `Walk` returns (`WalkDefined`). */
  ghost function Path(g: Grid, x: nat, y: nat): (t: Trace)
    requires Rectangular(g) && x < |g| && y < |g[0]|
    ensures |t.topSeq| == |t.matcher| == |t.leftSeq|
    ensures t.endRow <= x && t.endCol <= y
    decreases x + y
  {
    var c := g[x][y];
    if c.topBase == Empty || c.leftBase == Empty || x < Step(c).dx || y < Step(c).dy then
      Trace([], [], [], x, y)
    else
      Extend(Path(g, x - Step(c).dx, y - Step(c).dy), c)
  }

  /** On a matrix where every cell with both bases lies off the border, the
      walk from any cell never panics: it follows `Path` and stops at a
      cell with an empty base. */
  lemma {:induction false} WalkDefined(g: Grid, x: nat, y: nat) returns (t: Trace)
    requires Rectangular(g) && BorderStops(g) && x < |g| && y < |g[0]|
    ensures Walk(g, g[x][y], x, y) == Some(t) && t == Path(g, x, y)
    ensures g[t.endRow][t.endCol].topBase == Empty || g[t.endRow][t.endCol].leftBase == Empty
    decreases x + y
  {
    var c := g[x][y];
    if c.topBase != Empty && c.leftBase != Empty {
      var t' := WalkDefined(g, x - Step(c).dx, y - Step(c).dy);
      assert Path(g, x, y) == Extend(t', c);
      WalkUnfold(g, c, x, y, t');
      t := Extend(t', c);
    } else {
      t := Trace([], [], [], x, y);
    }
  }
}
