/** Border initialisation: `initGlobalMatrix` and `initLocalMatrix`. Both
    write row 0 and column 0 only and leave every other cell as it was. */
module Init {
  import opened Cells

  /** What the Go functions need of their arguments: a matrix with a first
      cell, and sequences long enough for every border index. */
  predicate Initialisable(g: Grid, s1: seq<byte>, s2: seq<byte>)
  {
    Rectangular(g) && |g[0]| >= 1 && |g[0]| - 1 <= |s1| && |g| - 1 <= |s2|
  }

  /** Row 0 gets value `j * w`, direction left and top symbol `s1[j-1]`;
      column 0 gets `i * w`, direction up and left symbol `s2[i-1]`; the
      corner gets value 0. Fields the Go code does not assign keep their
      old contents. */
  ghost predicate BorderWritten(g: Grid, r: Grid, w: int, s1: seq<byte>, s2: seq<byte>)
    requires Initialisable(g, s1, s2)
  {
    && IsRect(r, |g|, |g[0]|)
    && r[0][0] == g[0][0].(value := 0)
    && (forall j :: 1 <= j < |g[0]| ==>
          r[0][j] == g[0][j].(value := j * w, dir := Left, topBase := Sym(s1[j-1])))
    && (forall i :: 1 <= i < |g| ==>
          r[i][0] == g[i][0].(value := i * w, dir := Up, leftBase := Sym(s2[i-1])))
    && (forall i, j :: 1 <= i < |g| && 1 <= j < |g[0]| ==> r[i][j] == g[i][j])
  }

  /** `initGlobalMatrix`: border values are multiples of the gap score. */
  function InitGlobal(g: Grid, gap: int, s1: seq<byte>, s2: seq<byte>): (r: Grid)
    requires Initialisable(g, s1, s2)
    ensures BorderWritten(g, r, gap, s1, s2)
  {
    seq(|g|, i requires 0 <= i < |g| =>
      seq(|g[0]|, j requires 0 <= j < |g[0]| =>
        if i == 0 && j == 0 then g[0][0].(value := 0)
        else if i == 0 then g[0][j].(value := j * gap, dir := Left, topBase := Sym(s1[j-1]))
        else if j == 0 then g[i][0].(value := i * gap, dir := Up, leftBase := Sym(s2[i-1]))
        else g[i][j]))
  }

  /** `initLocalMatrix`: border values are all zero. */
  function InitLocal(g: Grid, s1: seq<byte>, s2: seq<byte>): (r: Grid)
    requires Initialisable(g, s1, s2)
    ensures BorderWritten(g, r, 0, s1, s2)
  {
    seq(|g|, i requires 0 <= i < |g| =>
      seq(|g[0]|, j requires 0 <= j < |g[0]| =>
        if i == 0 && j == 0 then g[0][0].(value := 0)
        else if i == 0 then g[0][j].(value := 0, dir := Left, topBase := Sym(s1[j-1]))
        else if j == 0 then g[i][0].(value := 0, dir := Up, leftBase := Sym(s2[i-1]))
        else g[i][j]))
  }

  /** The local initialisation is the global one with a zero gap score. */
  lemma LocalIsGlobalWithZeroGap(g: Grid, s1: seq<byte>, s2: seq<byte>)
    requires Initialisable(g, s1, s2)
    ensures InitLocal(g, s1, s2) == InitGlobal(g, 0, s1, s2)
  {
    var l, r := InitLocal(g, s1, s2), InitGlobal(g, 0, s1, s2);
    forall i | 0 <= i < |g|
      ensures l[i] == r[i]
    {
    }
  }

  /** The border of an initialised fresh matrix of `|s2|+1` rows and
      `|s1|+1` columns, as `main` allocates it: the corner is a zero cell,
      row-0 cells carry only a top symbol and column-0 cells only a left
      symbol, with values `k * w`. */
  ghost predicate FreshBorder(r: Grid, w: int, s1: seq<byte>, s2: seq<byte>)
  {
    && IsRect(r, |s2| + 1, |s1| + 1)
    && r[0][0] == ZeroCell
    && (forall j :: 1 <= j <= |s1| ==> r[0][j] == Cell(j * w, Left, Sym(s1[j-1]), Empty))
    && (forall i :: 1 <= i <= |s2| ==> r[i][0] == Cell(i * w, Up, Empty, Sym(s2[i-1])))
  }

  lemma {:induction false} InitGlobalBorder(gap: int, s1: seq<byte>, s2: seq<byte>)
    ensures Initialisable(MakeMatrix(|s1| + 1, |s2| + 1), s1, s2)
    ensures FreshBorder(InitGlobal(MakeMatrix(|s1| + 1, |s2| + 1), gap, s1, s2), gap, s1, s2)
  {
  }

  lemma {:induction false} InitLocalBorder(s1: seq<byte>, s2: seq<byte>)
    ensures Initialisable(MakeMatrix(|s1| + 1, |s2| + 1), s1, s2)
    ensures FreshBorder(InitLocal(MakeMatrix(|s1| + 1, |s2| + 1), s1, s2), 0, s1, s2)
  {
  }
}
