/** The alignment runs: allocate the matrix as `main` does, initialise its
    border for the mode, fill it, then trace back (global: from the
    bottom-right cell; local: see `LocalAlignmentAsWritten` and
    `LocalAlignment`). */
module Align {
  import opened Wrappers
  import opened Cells
  import opened Scoring
  import opened Recurrence
  import opened Init
  import opened Filling
  import opened Locate
  import opened Traceback

  /** What the run reports: the total score and the three output lines. */
  datatype Alignment = Alignment(totalScore: int, topSeq: seq<Base>, matcher: seq<char>, leftSeq: seq<Base>)

  /** The sequence symbols of the first `n` columns of an output line,
      gaps dropped. */
  function Symbols(bs: seq<Base>, n: nat): seq<byte>
    requires n <= |bs|
  {
    if n == 0 then [] else Symbols(bs, n - 1) + (if bs[n - 1].Sym? then [bs[n - 1].symbol] else [])
  }

  /** The sequence symbols of an output line, gaps dropped. */
  function Ungapped(bs: seq<Base>): seq<byte>
  {
    Symbols(bs, |bs|)
  }

  /** The score of one output column under the session's scoring. */
  function ColumnScore(s: Session, top: Base, left: Base): int
  {
    if top == Gap || left == Gap then s.gap
    else if top.Sym? && left.Sym? then
      match Substitution(s.scoring, top.symbol, left.symbol)
      case Some(v) => v
      case None => 0
    else 0
  }

  /** The score of the first `n` columns of an alignment. */
  function PrefixScore(s: Session, tops: seq<Base>, lefts: seq<Base>, n: nat): int
    requires n <= |tops| == |lefts|
  {
    if n == 0 then 0 else PrefixScore(s, tops, lefts, n - 1) + ColumnScore(s, tops[n - 1], lefts[n - 1])
  }

  /** The score of an alignment, column by column. */
  function AlignmentScore(s: Session, tops: seq<Base>, lefts: seq<Base>): int
    requires |tops| == |lefts|
  {
    PrefixScore(s, tops, lefts, |tops|)
  }

  /** A column of a filled matrix's traceback: a blank mark pairs a symbol
      with a gap, a `|` or `:` pairs two symbols. */
  predicate ColumnShape(top: Base, m: char, left: Base)
  {
    && (m == ' ' ==> (top == Gap) != (left == Gap) && top != Empty && left != Empty)
    && (m != ' ' ==> top.Sym? && left.Sym?)
  }

  predicate IsSuffix(u: seq<byte>, v: seq<byte>)
  {
    |u| <= |v| && u == v[|v| - |u|..]
  }

  /** The border value step `w` of the mode: the gap score for a global
      run, 0 for a local one. */
  function BorderStep(s: Session): int
  {
    if s.mode == Global then s.gap else 0
  }

  /** `g` is a filled matrix of the run: the shape `main` allocates, the
      mode's border, and every interior cell computed by the recurrence. */
  ghost predicate RunMatrix(s: Session, g: Grid)
  {
    Scorable(s) && Shaped(s, g) && Recurrent(s, g) && FreshBorder(g, BorderStep(s), s.s1, s.s2)
  }

  /** The filled matrix of a run: `makeMatrix(len(s1)+1, len(s2)+1)`, the
      mode's border initialisation, then the fill. */
  function Matrix(s: Session): (g: Grid)
    requires Scorable(s)
    ensures RunMatrix(s, g)
  {
    var g0 := MakeMatrix(|s.s1| + 1, |s.s2| + 1);
    InitGlobalBorder(s.gap, s.s1, s.s2);
    InitLocalBorder(s.s1, s.s2);
    var g1 := if s.mode == Global then InitGlobal(g0, s.gap, s.s1, s.s2) else InitLocal(g0, s.s1, s.s2);
    var g := Fill(s, g1);
    assert FreshBorder(g, BorderStep(s), s.s1, s.s2) by {
      assert SameBorder(s, g, g1);
    }
    g
  }

  /** The fresh border and the recurrence fix the matrix: any grid that has
      them is the run's matrix, whatever order its cells were computed in. */
  lemma MatrixUnique(s: Session, g: Grid)
    requires RunMatrix(s, g)
    ensures g == Matrix(s)
  {
    var h := Matrix(s);
    assert SameBorder(s, g, h) by {
      forall j | 0 <= j <= |s.s1|
        ensures g[0][j] == h[0][j]
      {
      }
      forall i | 0 <= i <= |s.s2|
        ensures g[i][0] == h[i][0]
      {
      }
    }
    RecurrenceDeterminesGrid(s, g, h);
  }

  /** The initialised border ends every walk: row-0 cells lack a left base
      and column-0 cells a top base. */
  lemma MatrixBorderStops(s: Session, g: Grid)
    requires RunMatrix(s, g)
    ensures Rectangular(g) && BorderStops(g)
  {
    forall i: int, j: int | 0 <= i < |g| && 0 <= j < |g[0]|
      ensures g[i][j].topBase != Empty && g[i][j].leftBase != Empty ==> 1 <= i && 1 <= j
    {
      if i == 0 && j > 0 {
        assert g[0][j].leftBase == Empty;
      } else if j == 0 {
        assert g[i][0].topBase == Empty;
      }
    }
  }

  /** The first `n` bases of `line`, gaps dropped, spell `u[lo..hi]`:
      a recursive reading of `Symbols(line, n) == u[lo..hi]` that takes the
      symbols off the end one at a time. */
  predicate Spells(line: seq<Base>, n: nat, u: seq<byte>, lo: nat, hi: nat)
    requires n <= |line|
  {
    if n == 0 then lo == hi
    else if line[n - 1].Sym? then
      lo < hi <= |u| && u[hi - 1] == line[n - 1].symbol && Spells(line, n - 1, u, lo, hi - 1)
    else Spells(line, n - 1, u, lo, hi)
  }

  lemma {:induction false} SpellsSnoc(line: seq<Base>, b: Base, n: nat, u: seq<byte>, lo: nat, hi: nat)
    requires n <= |line|
    ensures Spells(line + [b], n, u, lo, hi) == Spells(line, n, u, lo, hi)
    decreases n
  {
    if n > 0 {
      assert (line + [b])[n - 1] == line[n - 1];
      if line[n - 1].Sym? && lo < hi {
        SpellsSnoc(line, b, n - 1, u, lo, hi - 1);
      } else if !line[n - 1].Sym? {
        SpellsSnoc(line, b, n - 1, u, lo, hi);
      }
    }
  }

  /** The recursive reading agrees with the sequence one. */
  lemma {:induction false} SpellsSymbols(line: seq<Base>, n: nat, u: seq<byte>, lo: nat, hi: nat)
    requires n <= |line| && hi <= |u|
    requires Spells(line, n, u, lo, hi)
    ensures lo <= hi && Symbols(line, n) == u[lo..hi]
    decreases n
  {
    if n > 0 {
      if line[n - 1].Sym? {
        SpellsSymbols(line, n - 1, u, lo, hi - 1);
        assert u[lo..hi] == u[lo..hi - 1] + [u[hi - 1]];
      } else {
        SpellsSymbols(line, n - 1, u, lo, hi);
      }
    }
  }

  lemma {:induction false} PrefixScoreSnoc(s: Session, tops: seq<Base>, lefts: seq<Base>, t: Base, l: Base, n: nat)
    requires n <= |tops| == |lefts|
    ensures PrefixScore(s, tops + [t], lefts + [l], n) == PrefixScore(s, tops, lefts, n)
  {
    if n > 0 {
      PrefixScoreSnoc(s, tops, lefts, t, l, n - 1);
    }
  }

  lemma AlignmentScoreSnoc(s: Session, tops: seq<Base>, lefts: seq<Base>, t: Base, l: Base)
    requires |tops| == |lefts|
    ensures AlignmentScore(s, tops + [t], lefts + [l]) == AlignmentScore(s, tops, lefts) + ColumnScore(s, t, l)
  {
    PrefixScoreSnoc(s, tops, lefts, t, l, |tops|);
  }

  /** A step from cell (x, y) of `g` stays in the matrix and emits a column
      of the expected shape. */
  ghost predicate ShapeStep(g: Grid, x: nat, y: nat)
    requires Rectangular(g) && x < |g| && y < |g[0]|
  {
    var c := g[x][y];
    c.topBase != Empty && c.leftBase != Empty ==>
      Step(c).dx <= x && Step(c).dy <= y && ColumnShape(c.topBase, Step(c).mark, c.leftBase)
  }

  /** A step from cell (x, y) of `g` consumes `s1[y-1]` on top when it
      moves left, and emits a gap on top when it does not. */
  ghost predicate TopStep(s1: seq<byte>, g: Grid, x: nat, y: nat)
    requires Rectangular(g) && |g[0]| == |s1| + 1 && x < |g| && y <= |s1|
  {
    var c := g[x][y];
    c.topBase != Empty && c.leftBase != Empty ==>
      && Step(c).dx <= x && 1 <= y
      && (if Step(c).dy == 1 then c.topBase == Sym(s1[y - 1]) else c.topBase == Gap)
  }

  /** A step from cell (x, y) of `g` consumes `s2[x-1]` on the left when it
      moves up, and emits a gap on the left when it does not. */
  ghost predicate LeftStep(s2: seq<byte>, g: Grid, x: nat, y: nat)
    requires Rectangular(g) && |g| == |s2| + 1 && x <= |s2| && y < |g[0]|
  {
    var c := g[x][y];
    c.topBase != Empty && c.leftBase != Empty ==>
      && 1 <= x && Step(c).dy <= y
      && (if Step(c).dx == 1 then c.leftBase == Sym(s2[x - 1]) else c.leftBase == Gap)
  }

  /** The value of cell (x, y) of `g` is the value of the cell its step
      leads to plus the score of the column it emits. */
  ghost predicate ScoreStep(s: Session, g: Grid, x: nat, y: nat)
    requires Rectangular(g) && x < |g| && y < |g[0]|
  {
    var c := g[x][y];
    c.topBase != Empty && c.leftBase != Empty ==>
      && Step(c).dx <= x && Step(c).dy <= y
      && c.value == g[x - Step(c).dx][y - Step(c).dy].value + ColumnScore(s, c.topBase, c.leftBase)
  }

  /** Every cell of a run's matrix satisfies the three step predicates. */
  lemma RunMatrixSteps(s: Session, g: Grid)
    requires RunMatrix(s, g)
    ensures Rectangular(g) && BorderStops(g)
    ensures forall i, j :: 0 <= i <= |s.s2| && 0 <= j <= |s.s1| ==> ShapeStep(g, i, j)
    ensures forall i, j :: 0 <= i <= |s.s2| && 0 <= j <= |s.s1| ==> TopStep(s.s1, g, i, j) && LeftStep(s.s2, g, i, j)
    ensures forall i, j :: 0 <= i <= |s.s2| && 0 <= j <= |s.s1| ==> ScoreStep(s, g, i, j)
  {
    MatrixBorderStops(s, g);
    forall i, j | 0 <= i <= |s.s2| && 0 <= j <= |s.s1|
      ensures ShapeStep(g, i, j) && TopStep(s.s1, g, i, j) && LeftStep(s.s2, g, i, j) && ScoreStep(s, g, i, j)
    {
      CellSteps(s, g, i, j);
    }
  }

  /** One cell of a run's matrix satisfies the three step predicates. */
  lemma CellSteps(s: Session, g: Grid, i: nat, j: nat)
    requires RunMatrix(s, g) && Rectangular(g) && BorderStops(g) && i <= |s.s2| && j <= |s.s1|
    ensures ShapeStep(g, i, j) && TopStep(s.s1, g, i, j) && LeftStep(s.s2, g, i, j) && ScoreStep(s, g, i, j)
  {
    var c := g[i][j];
    if c.topBase != Empty && c.leftBase != Empty {
      assert 1 <= i && 1 <= j;
      StepConsistent(s, g, i, j);
      assert PairScorable(s, i - 1, j - 1);
    }
  }

  /** Every column the walk emits has the expected shape. */
  lemma {:induction false} PathColumns(g: Grid, x: nat, y: nat)
    requires Rectangular(g) && x < |g| && y < |g[0]|
    requires forall i, j :: 0 <= i < |g| && 0 <= j < |g[0]| ==> ShapeStep(g, i, j)
    ensures forall k :: 0 <= k < |Path(g, x, y).matcher| ==>
      ColumnShape(Path(g, x, y).topSeq[k], Path(g, x, y).matcher[k], Path(g, x, y).leftSeq[k])
    decreases x + y
  {
    var c := g[x][y];
    if c.topBase != Empty && c.leftBase != Empty {
      assert ShapeStep(g, x, y);
      var t' := Path(g, x - Step(c).dx, y - Step(c).dy);
      PathColumns(g, x - Step(c).dx, y - Step(c).dy);
      var t := Path(g, x, y);
      assert t == Extend(t', c);
      forall k | 0 <= k < |t.matcher|
        ensures ColumnShape(t.topSeq[k], t.matcher[k], t.leftSeq[k])
      {
        if k < |t'.matcher| {
          assert t.topSeq[k] == t'.topSeq[k] && t.matcher[k] == t'.matcher[k] && t.leftSeq[k] == t'.leftSeq[k];
        } else {
          assert t.topSeq[k] == c.topBase && t.matcher[k] == Step(c).mark && t.leftSeq[k] == c.leftBase;
        }
      }
    }
  }

  /** The walk from cell (x, y) emits exactly the symbols `s1[endCol..y]`
      on top, in order. */
  lemma {:induction false} PathTop(s1: seq<byte>, g: Grid, x: nat, y: nat)
    requires Rectangular(g) && |g[0]| == |s1| + 1 && x < |g| && y <= |s1|
    requires forall i, j :: 0 <= i < |g| && 0 <= j <= |s1| ==> TopStep(s1, g, i, j)
    ensures Spells(Path(g, x, y).topSeq, |Path(g, x, y).topSeq|, s1, Path(g, x, y).endCol, y)
    decreases x + y
  {
    var c := g[x][y];
    if c.topBase != Empty && c.leftBase != Empty {
      assert TopStep(s1, g, x, y);
      PathTop(s1, g, x - Step(c).dx, y - Step(c).dy);
      TopExtend(s1, g, x, y);
    }
  }

  /** The inductive step of `PathTop`: one more column on top. */
  lemma TopExtend(s1: seq<byte>, g: Grid, x: nat, y: nat)
    requires Rectangular(g) && |g[0]| == |s1| + 1 && x < |g| && y <= |s1|
    requires TopStep(s1, g, x, y) && g[x][y].topBase != Empty && g[x][y].leftBase != Empty
    requires var t' := Path(g, x - Step(g[x][y]).dx, y - Step(g[x][y]).dy);
      Spells(t'.topSeq, |t'.topSeq|, s1, t'.endCol, y - Step(g[x][y]).dy)
    ensures Spells(Path(g, x, y).topSeq, |Path(g, x, y).topSeq|, s1, Path(g, x, y).endCol, y)
  {
    var c := g[x][y];
    var t' := Path(g, x - Step(c).dx, y - Step(c).dy);
    assert Path(g, x, y) == Extend(t', c);
    LineStep(s1, t'.topSeq, c.topBase, t'.endCol, y, Step(c).dy);
  }

  /** The walk from cell (x, y) emits exactly the symbols `s2[endRow..x]`
      on the left, in order. */
  lemma {:induction false} PathLeft(s2: seq<byte>, g: Grid, x: nat, y: nat)
    requires Rectangular(g) && |g| == |s2| + 1 && x <= |s2| && y < |g[0]|
    requires forall i, j :: 0 <= i <= |s2| && 0 <= j < |g[0]| ==> LeftStep(s2, g, i, j)
    ensures Spells(Path(g, x, y).leftSeq, |Path(g, x, y).leftSeq|, s2, Path(g, x, y).endRow, x)
    decreases x + y
  {
    var c := g[x][y];
    if c.topBase != Empty && c.leftBase != Empty {
      assert LeftStep(s2, g, x, y);
      PathLeft(s2, g, x - Step(c).dx, y - Step(c).dy);
      LeftExtend(s2, g, x, y);
    }
  }

  /** The inductive step of `PathLeft`: one more column on the left. */
  lemma LeftExtend(s2: seq<byte>, g: Grid, x: nat, y: nat)
    requires Rectangular(g) && |g| == |s2| + 1 && x <= |s2| && y < |g[0]|
    requires LeftStep(s2, g, x, y) && g[x][y].topBase != Empty && g[x][y].leftBase != Empty
    requires var t' := Path(g, x - Step(g[x][y]).dx, y - Step(g[x][y]).dy);
      Spells(t'.leftSeq, |t'.leftSeq|, s2, t'.endRow, x - Step(g[x][y]).dx)
    ensures Spells(Path(g, x, y).leftSeq, |Path(g, x, y).leftSeq|, s2, Path(g, x, y).endRow, x)
  {
    var c := g[x][y];
    var t' := Path(g, x - Step(c).dx, y - Step(c).dy);
    assert Path(g, x, y) == Extend(t', c);
    LineStep(s2, t'.leftSeq, c.leftBase, t'.endRow, x, Step(c).dx);
  }

  /** One output line: appending the base of a step that consumes `d`
      symbols of `u` extends the spelled substring `u[lo..hi-d]` to
      `u[lo..hi]`. */
  lemma LineStep(u: seq<byte>, line: seq<Base>, b: Base, lo: nat, hi: nat, d: nat)
    requires d <= 1 && lo + d <= hi
    requires Spells(line, |line|, u, lo, hi - d)
    requires if d == 1 then hi <= |u| && b == Sym(u[hi - 1]) else b == Gap
    ensures Spells(line + [b], |line| + 1, u, lo, hi)
  {
    SpellsSnoc(line, b, |line|, u, lo, hi - d);
  }

  /** Prepending a column adds its score. */
  lemma ScoreChain(s: Session, t': Trace, c: Cell, next: int, end: int)
    requires |t'.topSeq| == |t'.leftSeq|
    requires c.value == next + ColumnScore(s, c.topBase, c.leftBase)
    requires next == end + AlignmentScore(s, t'.topSeq, t'.leftSeq)
    ensures c.value == end + AlignmentScore(s, Extend(t', c).topSeq, Extend(t', c).leftSeq)
  {
    AlignmentScoreSnoc(s, t'.topSeq, t'.leftSeq, c.topBase, c.leftBase);
  }

  /** The value of the start cell is the value of the cell where the walk
      stops plus the score of the columns it emitted. */
  lemma {:induction false} PathScore(s: Session, g: Grid, x: nat, y: nat)
    requires Rectangular(g) && x < |g| && y < |g[0]|
    requires forall i, j :: 0 <= i < |g| && 0 <= j < |g[0]| ==> ScoreStep(s, g, i, j)
    ensures g[x][y].value == g[Path(g, x, y).endRow][Path(g, x, y).endCol].value + AlignmentScore(s, Path(g, x, y).topSeq, Path(g, x, y).leftSeq)
    decreases x + y
  {
    var c := g[x][y];
    if c.topBase != Empty && c.leftBase != Empty {
      assert ScoreStep(s, g, x, y);
      var t' := Path(g, x - Step(c).dx, y - Step(c).dy);
      PathScore(s, g, x - Step(c).dx, y - Step(c).dy);
      assert Path(g, x, y) == Extend(t', c);
      ScoreChain(s, t', c, g[x - Step(c).dx][y - Step(c).dy].value, g[t'.endRow][t'.endCol].value);
    }
  }

  /** What the traceback of a run's matrix from cell (x, y) emits: columns
      of the expected shape, the symbols `s1[endCol..y]` and
      `s2[endRow..x]`, a score that makes up the difference between the
      start and end cells, and an end on the border or, locally, on a
      floored cell. */
  lemma TraceFacts(s: Session, g: Grid, x: nat, y: nat) returns (t: Trace)
    requires RunMatrix(s, g) && x <= |s.s2| && y <= |s.s1|
    ensures Walk(g, g[x][y], x, y) == Some(t)
    ensures forall k :: 0 <= k < |t.matcher| ==> ColumnShape(t.topSeq[k], t.matcher[k], t.leftSeq[k])
    ensures Ungapped(t.topSeq) == s.s1[t.endCol..y] && Ungapped(t.leftSeq) == s.s2[t.endRow..x]
    ensures g[x][y].value == g[t.endRow][t.endCol].value + AlignmentScore(s, t.topSeq, t.leftSeq)
    ensures t.endRow == 0 || t.endCol == 0 || (s.mode == Local && g[t.endRow][t.endCol].value == 0)
  {
    RunMatrixSteps(s, g);
    t := WalkDefined(g, x, y);
    PathColumns(g, x, y);
    PathTop(s.s1, g, x, y);
    PathLeft(s.s2, g, x, y);
    SpellsSymbols(t.topSeq, |t.topSeq|, s.s1, t.endCol, y);
    SpellsSymbols(t.leftSeq, |t.leftSeq|, s.s2, t.endRow, x);
    PathScore(s, g, x, y);
    if t.endRow > 0 && t.endCol > 0 {
      StepConsistent(s, g, t.endRow, t.endCol);
    }
  }

  /** A border cell (i, j) of a run's matrix holds the border step once
      for each symbol before it: the gap score in a global run, 0 in a
      local one. */
  lemma BorderCharge(s: Session, g: Grid, i: nat, j: nat)
    requires RunMatrix(s, g) && i <= |s.s2| && j <= |s.s1|
    ensures i == 0 || j == 0 ==> g[i][j].value == BorderStep(s) * (j + i)
  {
    if i == 0 && j > 0 {
      assert g[0][j].value == j * BorderStep(s);
    } else if i > 0 {
      assert g[i][0].value == i * BorderStep(s);
    }
  }

  /** The global traceback from the bottom-right cell of a run's matrix: it
      stops at the first border cell, so it covers a suffix of each
      sequence, one of them in full, and the leading symbols it leaves out
      are charged one gap score each. */
  lemma GlobalTrace(s: Session, g: Grid)
    requires RunMatrix(s, g) && s.mode == Global
    ensures Walk(g, g[|s.s2|][|s.s1|], |s.s2|, |s.s1|).Some?
    ensures forall k :: 0 <= k < |Walk(g, g[|s.s2|][|s.s1|], |s.s2|, |s.s1|).value.matcher| ==>
      ColumnShape(Walk(g, g[|s.s2|][|s.s1|], |s.s2|, |s.s1|).value.topSeq[k],
        Walk(g, g[|s.s2|][|s.s1|], |s.s2|, |s.s1|).value.matcher[k],
        Walk(g, g[|s.s2|][|s.s1|], |s.s2|, |s.s1|).value.leftSeq[k])
    ensures IsSuffix(Ungapped(Walk(g, g[|s.s2|][|s.s1|], |s.s2|, |s.s1|).value.topSeq), s.s1)
    ensures IsSuffix(Ungapped(Walk(g, g[|s.s2|][|s.s1|], |s.s2|, |s.s1|).value.leftSeq), s.s2)
    ensures Ungapped(Walk(g, g[|s.s2|][|s.s1|], |s.s2|, |s.s1|).value.topSeq) == s.s1
      || Ungapped(Walk(g, g[|s.s2|][|s.s1|], |s.s2|, |s.s1|).value.leftSeq) == s.s2
    ensures g[|s.s2|][|s.s1|].value
      == AlignmentScore(s, Walk(g, g[|s.s2|][|s.s1|], |s.s2|, |s.s1|).value.topSeq, Walk(g, g[|s.s2|][|s.s1|], |s.s2|, |s.s1|).value.leftSeq)
      + s.gap * ((|s.s1| - |Ungapped(Walk(g, g[|s.s2|][|s.s1|], |s.s2|, |s.s1|).value.topSeq)|)
        + (|s.s2| - |Ungapped(Walk(g, g[|s.s2|][|s.s1|], |s.s2|, |s.s1|).value.leftSeq)|))
  {
    var t := GlobalWalk(s, g);
    assert Walk(g, g[|s.s2|][|s.s1|], |s.s2|, |s.s1|).value == t;
  }

  /** `GlobalTrace` for the walk's output `t`. */
  lemma GlobalWalk(s: Session, g: Grid) returns (t: Trace)
    requires RunMatrix(s, g) && s.mode == Global
    ensures Walk(g, g[|s.s2|][|s.s1|], |s.s2|, |s.s1|) == Some(t)
    ensures forall k :: 0 <= k < |t.matcher| ==> ColumnShape(t.topSeq[k], t.matcher[k], t.leftSeq[k])
    ensures IsSuffix(Ungapped(t.topSeq), s.s1) && IsSuffix(Ungapped(t.leftSeq), s.s2)
    ensures Ungapped(t.topSeq) == s.s1 || Ungapped(t.leftSeq) == s.s2
    ensures g[|s.s2|][|s.s1|].value == AlignmentScore(s, t.topSeq, t.leftSeq)
      + s.gap * ((|s.s1| - |Ungapped(t.topSeq)|) + (|s.s2| - |Ungapped(t.leftSeq)|))
  {
    t := TraceFacts(s, g, |s.s2|, |s.s1|);
    assert g[t.endRow][t.endCol].value == s.gap * (t.endCol + t.endRow) by {
      BorderCharge(s, g, t.endRow, t.endCol);
    }
    assert IsSuffix(Ungapped(t.topSeq), s.s1) && t.endCol == |s.s1| - |Ungapped(t.topSeq)|
      && (t.endCol == 0 ==> Ungapped(t.topSeq) == s.s1)
    by {
      SuffixFrom(s.s1, t.endCol, Ungapped(t.topSeq));
    }
    assert IsSuffix(Ungapped(t.leftSeq), s.s2) && t.endRow == |s.s2| - |Ungapped(t.leftSeq)|
      && (t.endRow == 0 ==> Ungapped(t.leftSeq) == s.s2)
    by {
      SuffixFrom(s.s2, t.endRow, Ungapped(t.leftSeq));
    }
    assert (|s.s1| - |Ungapped(t.topSeq)|) + (|s.s2| - |Ungapped(t.leftSeq)|) == t.endCol + t.endRow;
  }

  /** `u[c..]` is the suffix of `u` that leaves out `c` symbols. */
  lemma SuffixFrom(u: seq<byte>, c: nat, w: seq<byte>)
    requires c <= |u| && w == u[c..|u|]
    ensures IsSuffix(w, u) && c == |u| - |w| && (c == 0 ==> w == u)
  {
  }

  /** The global run's output: the bottom-right value and the traceback
      from the bottom-right cell. */
  function GlobalTraceback(s: Session, g: Grid): (a: Alignment)
    requires RunMatrix(s, g) && s.mode == Global
    ensures a.totalScore == g[|s.s2|][|s.s1|].value
    ensures |a.topSeq| == |a.matcher| == |a.leftSeq|
    ensures forall k :: 0 <= k < |a.matcher| ==> ColumnShape(a.topSeq[k], a.matcher[k], a.leftSeq[k])
    ensures IsSuffix(Ungapped(a.topSeq), s.s1) && IsSuffix(Ungapped(a.leftSeq), s.s2)
    ensures Ungapped(a.topSeq) == s.s1 || Ungapped(a.leftSeq) == s.s2
    ensures a.totalScore == AlignmentScore(s, a.topSeq, a.leftSeq)
      + s.gap * ((|s.s1| - |Ungapped(a.topSeq)|) + (|s.s2| - |Ungapped(a.leftSeq)|))
  {
    GlobalTrace(s, g);
    var t := Walk(g, g[|s.s2|][|s.s1|], |s.s2|, |s.s1|).value;
    Alignment(g[|s.s2|][|s.s1|].value, t.topSeq, t.matcher, t.leftSeq)
  }

  /** Some cell's lookup falls outside the substitution table: filling the
      matrix panics. Constant scoring never does. */
  predicate TablePanics(s: Session)
  {
    exists i, j :: 0 <= i < |s.s2| && 0 <= j < |s.s1| && Substitution(s.scoring, s.s1[j], s.s2[i]).None?
  }

  /** A run can fill its matrix exactly when no lookup panics. */
  lemma TablePanicsExactly(s: Session)
    ensures TablePanics(s) <==> !Scorable(s)
    ensures s.scoring.Constants? ==> Scorable(s)
  {
    if !Scorable(s) {
      var i, j :| 0 <= i < |s.s2| && 0 <= j < |s.s1| && !PairScorable(s, i, j);
      assert Substitution(s.scoring, s.s1[j], s.s2[i]).None?;
    } else {
      forall i, j | 0 <= i < |s.s2| && 0 <= j < |s.s1|
        ensures Substitution(s.scoring, s.s1[j], s.s2[i]).Some?
      {
        assert PairScorable(s, i, j);
      }
    }
  }

  /** The global run of `main`: allocate, initialise, fill and trace back.
      `None` is the panic of a table lookup out of range. */
  function GlobalAlignment(s: Session): (r: Option<Alignment>)
    requires s.mode == Global
    ensures r.None? <==> TablePanics(s)
    ensures s.scoring.Constants? ==> r.Some?
    ensures r.Some? ==> Scorable(s) && r.value == GlobalTraceback(s, Matrix(s))
  {
    TablePanicsExactly(s);
    if Scorable(s) then Some(GlobalTraceback(s, Matrix(s))) else None
  }

  /** `localAlignment` as written, on a run's matrix: the best cell is
      located, but the walk starts with the bottom-right element and moves
      the best cell's coordinates. `None` is the panic when those
      coordinates go below 0. */
  function LocalTracebackAsWritten(s: Session, g: Grid): (r: Option<Alignment>)
    requires RunMatrix(s, g) && s.mode == Local
    ensures r.Some? ==> r.value.totalScore == FindHighestValue(g).value
    ensures r.Some? ==> |r.value.topSeq| == |r.value.matcher| == |r.value.leftSeq|
    ensures g[|s.s2|][|s.s1|].topBase == Empty || g[|s.s2|][|s.s1|].leftBase == Empty ==>
      r == Some(Alignment(FindHighestValue(g).value, [], [], []))
  {
    var b := FindHighestValue(g);
    match Walk(g, g[|s.s2|][|s.s1|], b.row, b.col)
    case None => None
    case Some(t) => Some(Alignment(b.value, t.topSeq, t.matcher, t.leftSeq))
  }

  /** The local run of `main` as written. `None` is either panic: a table
      lookup out of range while filling, or the walk indexing at -1. */
  function LocalAlignmentAsWritten(s: Session): (r: Option<Alignment>)
    requires s.mode == Local
    ensures TablePanics(s) ==> r.None?
    ensures Scorable(s) ==> r == LocalTracebackAsWritten(s, Matrix(s))
    ensures r.Some? ==> Scorable(s) && r == LocalTracebackAsWritten(s, Matrix(s))
  {
    TablePanicsExactly(s);
    if Scorable(s) then LocalTracebackAsWritten(s, Matrix(s)) else None
  }

  /** With zero borders and the floor, no cell of a local run's matrix is
      negative. */
  lemma LocalNonNegative(s: Session, g: Grid)
    requires RunMatrix(s, g) && s.mode == Local
    ensures forall i, j :: 0 <= i <= |s.s2| && 0 <= j <= |s.s1| ==> g[i][j].value >= 0
  {
    forall i, j | 0 <= i <= |s.s2| && 0 <= j <= |s.s1|
      ensures g[i][j].value >= 0
    {
      if i >= 1 && j >= 1 {
        StepConsistent(s, g, i, j);
      } else {
        BorderCharge(s, g, i, j);
      }
    }
  }

  /** The local traceback from the best cell of a run's matrix ends on a
      cell of value 0, so the columns it emits score exactly the best
      value. */
  lemma LocalTrace(s: Session, g: Grid)
    requires RunMatrix(s, g) && s.mode == Local
    ensures var b := FindHighestValue(g);
      && b.row <= |s.s2| && b.col <= |s.s1| && g[b.row][b.col].value == b.value
      && Walk(g, g[b.row][b.col], b.row, b.col).Some?
    ensures var b := FindHighestValue(g); var t := Walk(g, g[b.row][b.col], b.row, b.col).value;
      && (forall k :: 0 <= k < |t.matcher| ==> ColumnShape(t.topSeq[k], t.matcher[k], t.leftSeq[k]))
      && IsSuffix(Ungapped(t.topSeq), s.s1[..b.col]) && IsSuffix(Ungapped(t.leftSeq), s.s2[..b.row])
      && b.value == AlignmentScore(s, t.topSeq, t.leftSeq)
  {
    var b := FindHighestValue(g);
    var t := TraceFacts(s, g, b.row, b.col);
    BorderCharge(s, g, t.endRow, t.endCol);
  }

  /** `localAlignment` with the walk started at the located best cell, as
      Smith-Waterman intends: the total score is the largest cell value
      (never negative), the output is a substring of each sequence ending at
      the best cell, and its column scores add up to the total. */
  function LocalTraceback(s: Session, g: Grid): (a: Alignment)
    requires RunMatrix(s, g) && s.mode == Local
    ensures a.totalScore == FindHighestValue(g).value && a.totalScore >= 0
    ensures forall i, j :: 0 <= i <= |s.s2| && 0 <= j <= |s.s1| ==> g[i][j].value <= a.totalScore
    ensures g[FindHighestValue(g).row][FindHighestValue(g).col].value == a.totalScore
    ensures |a.topSeq| == |a.matcher| == |a.leftSeq|
    ensures forall k :: 0 <= k < |a.matcher| ==> ColumnShape(a.topSeq[k], a.matcher[k], a.leftSeq[k])
    ensures IsSuffix(Ungapped(a.topSeq), s.s1[..FindHighestValue(g).col])
    ensures IsSuffix(Ungapped(a.leftSeq), s.s2[..FindHighestValue(g).row])
    ensures a.totalScore == AlignmentScore(s, a.topSeq, a.leftSeq)
  {
    var b := FindHighestValue(g);
    LocalTrace(s, g);
    var t := Walk(g, g[b.row][b.col], b.row, b.col).value;
    Alignment(b.value, t.topSeq, t.matcher, t.leftSeq)
  }

  /** Where the best cell is the bottom-right cell the quirk is invisible:
      the as-written traceback is the intended one. */
  lemma AsWrittenAtCorner(s: Session, g: Grid)
    requires RunMatrix(s, g) && s.mode == Local
    requires FindHighestValue(g).row == |s.s2| && FindHighestValue(g).col == |s.s1|
    ensures LocalTracebackAsWritten(s, g) == Some(LocalTraceback(s, g))
  {
    LocalTrace(s, g);
  }

  /** The local run with the walk started at the best cell, as
      Smith-Waterman intends. `None` is the panic of a table lookup out of
      range; the walk itself never panics. */
  function LocalAlignment(s: Session): (r: Option<Alignment>)
    requires s.mode == Local
    ensures r.None? <==> TablePanics(s)
    ensures s.scoring.Constants? ==> r.Some?
    ensures r.Some? ==> Scorable(s) && r.value == LocalTraceback(s, Matrix(s))
  {
    TablePanicsExactly(s);
    if Scorable(s) then Some(LocalTraceback(s, Matrix(s))) else None
  }
}
