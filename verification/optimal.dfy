/** Optimality of the filled matrix: the value of a cell bounds the score
    of every alignment the cell stands for. In a global run that is every
    alignment of `s1[..j]` with `s2[..i]`; in a local run it is every
    alignment of a substring ending at column j with a substring ending
    at row i. */
module Optimal {
  import opened Wrappers
  import opened Cells
  import opened Scoring
  import opened Recurrence
  import opened Init
  import opened Filling
  import opened Locate
  import opened Traceback
  import opened Align

  /** A column of an alignment: each side a symbol or a gap, never two gaps. */
  predicate AlignColumn(top: Base, left: Base)
  {
    && (top.Sym? || top == Gap)
    && (left.Sym? || left == Gap)
    && !(top == Gap && left == Gap)
  }

  /** `tops` over `lefts` is an alignment: two equally long lines of
      alignment columns. */
  predicate IsAlignment(tops: seq<Base>, lefts: seq<Base>)
  {
    |tops| == |lefts| && forall k :: 0 <= k < |tops| ==> AlignColumn(tops[k], lefts[k])
  }

  /** A line whose first `n` symbols are `u[lo..hi]` spells that slice. */
  lemma {:induction false} SymbolsSpells(line: seq<Base>, n: nat, u: seq<byte>, lo: nat, hi: nat)
    requires n <= |line| && lo <= hi <= |u|
    requires Symbols(line, n) == u[lo..hi]
    ensures Spells(line, n, u, lo, hi)
    decreases n
  {
    if n > 0 {
      var w := Symbols(line, n - 1);
      if line[n - 1].Sym? {
        assert w + [line[n - 1].symbol] == u[lo..hi];
        assert w == u[lo..hi][..|w|];
        assert u[lo..hi][..|w|] == u[lo..hi - 1];
        SymbolsSpells(line, n - 1, u, lo, hi - 1);
      } else {
        SymbolsSpells(line, n - 1, u, lo, hi);
      }
    }
  }

  /** The first `n` columns of an alignment spelling `s1[a..j]` over
      `s2[b..i]` score at most cell (i, j). A global run counts from the
      start of both sequences; a local run needs a gap score of at most 0,
      since its zero border does not charge leading gap columns. */
  lemma {:induction false} CellBound(s: Session, g: Grid, tops: seq<Base>, lefts: seq<Base>, n: nat, a: nat, b: nat, i: nat, j: nat)
    requires RunMatrix(s, g) && IsAlignment(tops, lefts) && n <= |tops|
    requires i <= |s.s2| && j <= |s.s1|
    requires s.mode == Global ==> a == 0 && b == 0
    requires s.mode == Local ==> s.gap <= 0
    requires Spells(tops, n, s.s1, a, j) && Spells(lefts, n, s.s2, b, i)
    ensures PrefixScore(s, tops, lefts, n) <= g[i][j].value
    decreases n
  {
    if n == 0 {
      if s.mode == Local {
        LocalNonNegative(s, g);
      }
    } else {
      var t, l := tops[n - 1], lefts[n - 1];
      assert AlignColumn(t, l);
      if t.Sym? && l.Sym? {
        CellBound(s, g, tops, lefts, n - 1, a, b, i - 1, j - 1);
        assert PairScorable(s, i - 1, j - 1);
        StepConsistent(s, g, i, j);
      } else if t.Sym? {
        CellBound(s, g, tops, lefts, n - 1, a, b, i, j - 1);
        if i >= 1 {
          StepConsistent(s, g, i, j);
        } else {
          BorderCharge(s, g, 0, j);
          BorderCharge(s, g, 0, j - 1);
        }
      } else {
        CellBound(s, g, tops, lefts, n - 1, a, b, i - 1, j);
        if j >= 1 {
          StepConsistent(s, g, i, j);
        } else {
          BorderCharge(s, g, i, 0);
          BorderCharge(s, g, i - 1, 0);
        }
      }
    }
  }

  /** Needleman-Wunsch optimality on a run's matrix: no alignment of all of
      `s1` with all of `s2` scores more than the bottom-right cell. */
  lemma GlobalBound(s: Session, g: Grid, tops: seq<Base>, lefts: seq<Base>)
    requires RunMatrix(s, g) && s.mode == Global
    requires IsAlignment(tops, lefts) && Ungapped(tops) == s.s1 && Ungapped(lefts) == s.s2
    ensures AlignmentScore(s, tops, lefts) <= g[|s.s2|][|s.s1|].value
  {
    assert s.s1[0..|s.s1|] == s.s1 && s.s2[0..|s.s2|] == s.s2;
    SymbolsSpells(tops, |tops|, s.s1, 0, |s.s1|);
    SymbolsSpells(lefts, |lefts|, s.s2, 0, |s.s2|);
    CellBound(s, g, tops, lefts, |tops|, 0, 0, |s.s2|, |s.s1|);
  }

  /** Needleman-Wunsch optimality of the run: no alignment of all of `s1`
      with all of `s2` scores more than the reported global total. */
  lemma GlobalOptimal(s: Session, tops: seq<Base>, lefts: seq<Base>)
    requires s.mode == Global
    requires IsAlignment(tops, lefts) && Ungapped(tops) == s.s1 && Ungapped(lefts) == s.s2
    ensures GlobalAlignment(s).Some? ==> AlignmentScore(s, tops, lefts) <= GlobalAlignment(s).value.totalScore
  {
    if Scorable(s) {
      GlobalBound(s, Matrix(s), tops, lefts);
    }
  }

  /** Smith-Waterman optimality on a run's matrix: with a gap score of at
      most 0, no alignment of a substring of `s1` with a substring of `s2`
      scores more than the largest cell value. */
  lemma LocalBound(s: Session, g: Grid, tops: seq<Base>, lefts: seq<Base>, a: nat, j: nat, b: nat, i: nat)
    requires RunMatrix(s, g) && s.mode == Local && s.gap <= 0
    requires IsAlignment(tops, lefts)
    requires a <= j <= |s.s1| && b <= i <= |s.s2|
    requires Ungapped(tops) == s.s1[a..j] && Ungapped(lefts) == s.s2[b..i]
    ensures AlignmentScore(s, tops, lefts) <= FindHighestValue(g).value
  {
    SymbolsSpells(tops, |tops|, s.s1, a, j);
    SymbolsSpells(lefts, |lefts|, s.s2, b, i);
    CellBound(s, g, tops, lefts, |tops|, a, b, i, j);
  }

  /** Smith-Waterman optimality of the run: with a gap score of at most 0,
      no alignment of a substring of `s1` with a substring of `s2` scores
      more than the reported local total. */
  lemma LocalOptimal(s: Session, tops: seq<Base>, lefts: seq<Base>, a: nat, j: nat, b: nat, i: nat)
    requires s.mode == Local && s.gap <= 0
    requires IsAlignment(tops, lefts)
    requires a <= j <= |s.s1| && b <= i <= |s.s2|
    requires Ungapped(tops) == s.s1[a..j] && Ungapped(lefts) == s.s2[b..i]
    ensures LocalAlignment(s).Some? ==> AlignmentScore(s, tops, lefts) <= LocalAlignment(s).value.totalScore
  {
    if Scorable(s) {
      LocalBound(s, Matrix(s), tops, lefts, a, j, b, i);
    }
  }

  /** `n` gap entries. */
  function Gaps(n: nat): seq<Base>
  {
    seq(n, _ => Gap)
  }

  /** The first `n` symbols of `u` as a line. */
  function SymLine(u: seq<byte>, n: nat): seq<Base>
    requires n <= |u|
  {
    seq(n, k requires 0 <= k < n => Sym(u[k]))
  }

  /** Whether a line spells a slice in its first `n` entries does not
      depend on what follows them. */
  lemma {:induction false} SpellsPrefix(x: seq<Base>, y: seq<Base>, n: nat, u: seq<byte>, lo: nat, hi: nat)
    requires n <= |x|
    ensures Spells(x + y, n, u, lo, hi) == Spells(x, n, u, lo, hi)
    decreases n
  {
    if n > 0 {
      assert (x + y)[n - 1] == x[n - 1];
      SpellsPrefix(x, y, n - 1, u, lo, hi);
      if hi > 0 {
        SpellsPrefix(x, y, n - 1, u, lo, hi - 1);
      }
    }
  }

  /** A spelled slice runs forwards. */
  lemma {:induction false} SpellsOrdered(line: seq<Base>, n: nat, u: seq<byte>, lo: nat, hi: nat)
    requires n <= |line| && Spells(line, n, u, lo, hi)
    ensures lo <= hi
    decreases n
  {
    if n > 0 {
      if line[n - 1].Sym? {
        SpellsOrdered(line, n - 1, u, lo, hi - 1);
      } else {
        SpellsOrdered(line, n - 1, u, lo, hi);
      }
    }
  }

  /** A line spelling `u[lo..mid]` followed by one spelling `u[mid..hi]`
      spells `u[lo..hi]`. */
  lemma {:induction false} SpellsConcat(x: seq<Base>, y: seq<Base>, m: nat, u: seq<byte>, lo: nat, mid: nat, hi: nat)
    requires m <= |y|
    requires Spells(x, |x|, u, lo, mid) && Spells(y, m, u, mid, hi)
    ensures Spells(x + y, |x| + m, u, lo, hi)
    decreases m
  {
    if m == 0 {
      SpellsPrefix(x, y, |x|, u, lo, hi);
    } else {
      assert (x + y)[|x| + m - 1] == y[m - 1];
      if y[m - 1].Sym? {
        SpellsOrdered(x, |x|, u, lo, mid);
        SpellsOrdered(y, m - 1, u, mid, hi - 1);
        SpellsConcat(x, y, m - 1, u, lo, mid, hi - 1);
      } else {
        SpellsConcat(x, y, m - 1, u, lo, mid, hi);
      }
    }
  }

  lemma {:induction false} SymLineSpells(u: seq<byte>, n: nat, k: nat)
    requires k <= n <= |u|
    ensures Spells(SymLine(u, n), k, u, 0, k)
    decreases k
  {
    if k > 0 {
      SymLineSpells(u, n, k - 1);
    }
  }

  lemma {:induction false} GapsSpell(n: nat, k: nat, u: seq<byte>, lo: nat)
    requires k <= n
    ensures Spells(Gaps(n), k, u, lo, lo)
    decreases k
  {
    if k > 0 {
      GapsSpell(n, k - 1, u, lo);
    }
  }

  /** The score of the first `n` columns does not depend on what follows
      them. */
  lemma {:induction false} ScorePrefix(s: Session, x1: seq<Base>, y1: seq<Base>, x2: seq<Base>, y2: seq<Base>, n: nat)
    requires |x1| == |y1| && |x2| == |y2| && n <= |x1|
    ensures PrefixScore(s, x1 + x2, y1 + y2, n) == PrefixScore(s, x1, y1, n)
    decreases n
  {
    if n > 0 {
      assert (x1 + x2)[n - 1] == x1[n - 1] && (y1 + y2)[n - 1] == y1[n - 1];
      ScorePrefix(s, x1, y1, x2, y2, n - 1);
    }
  }

  /** The score of two alignments side by side is the sum of their scores. */
  lemma {:induction false} ScoreConcat(s: Session, x1: seq<Base>, y1: seq<Base>, x2: seq<Base>, y2: seq<Base>, m: nat)
    requires |x1| == |y1| && |x2| == |y2| && m <= |x2|
    ensures PrefixScore(s, x1 + x2, y1 + y2, |x1| + m) == AlignmentScore(s, x1, y1) + PrefixScore(s, x2, y2, m)
    decreases m
  {
    if m == 0 {
      ScorePrefix(s, x1, y1, x2, y2, |x1|);
    } else {
      assert (x1 + x2)[|x1| + m - 1] == x2[m - 1] && (y1 + y2)[|x1| + m - 1] == y2[m - 1];
      ScoreConcat(s, x1, y1, x2, y2, m - 1);
    }
  }

  /** Columns with a gap on one side score the gap score each. */
  lemma {:induction false} GapColumnsScore(s: Session, x: seq<Base>, y: seq<Base>, k: nat)
    requires |x| == |y| && k <= |x|
    requires forall i :: 0 <= i < k ==> x[i] == Gap || y[i] == Gap
    ensures PrefixScore(s, x, y, k) == k * s.gap
    decreases k
  {
    if k > 0 {
      GapColumnsScore(s, x, y, k - 1);
    }
  }

  /** A lead line spelling `u[..k]` followed by a line spelling `u[k..hi]`
      spells `u[..hi]`. */
  lemma LeadLine(u: seq<byte>, lead: seq<Base>, k: nat, line: seq<Base>, hi: nat)
    requires k <= hi <= |u|
    requires Spells(lead, |lead|, u, 0, k) && Ungapped(line) == u[k..hi]
    ensures Ungapped(lead + line) == u[..hi]
  {
    SymbolsSpells(line, |line|, u, k, hi);
    SpellsConcat(lead, line, |line|, u, 0, k, hi);
    SpellsSymbols(lead + line, |lead + line|, u, 0, hi);
  }

  /** The lead of the top line: `s1[..c]` over gaps, then `r` gaps. */
  lemma TopLead(u: seq<byte>, c: nat, r: nat)
    requires c <= |u|
    ensures Spells(SymLine(u, c) + Gaps(r), c + r, u, 0, c)
  {
    SymLineSpells(u, c, c);
    GapsSpell(r, r, u, c);
    SpellsConcat(SymLine(u, c), Gaps(r), r, u, 0, c, c);
  }

  /** The lead of the left line: `c` gaps, then `s2[..r]`. */
  lemma LeftLead(u: seq<byte>, c: nat, r: nat)
    requires r <= |u|
    ensures Spells(Gaps(c) + SymLine(u, r), c + r, u, 0, r)
  {
    GapsSpell(c, c, u, 0);
    SymLineSpells(u, r, r);
    SpellsConcat(Gaps(c), SymLine(u, r), r, u, 0, 0, r);
  }

  /** The lead columns are alignment columns scoring one gap each, so the
      whole alignment scores `(c + r) * gap` plus the traced columns. */
  lemma LeadScore(s: Session, c: nat, r: nat, t: Trace)
    requires c <= |s.s1| && r <= |s.s2| && |t.topSeq| == |t.matcher| == |t.leftSeq|
    requires forall k :: 0 <= k < |t.matcher| ==> ColumnShape(t.topSeq[k], t.matcher[k], t.leftSeq[k])
    ensures IsAlignment(SymLine(s.s1, c) + Gaps(r) + t.topSeq, Gaps(c) + SymLine(s.s2, r) + t.leftSeq)
    ensures AlignmentScore(s, SymLine(s.s1, c) + Gaps(r) + t.topSeq, Gaps(c) + SymLine(s.s2, r) + t.leftSeq)
      == s.gap * (c + r) + AlignmentScore(s, t.topSeq, t.leftSeq)
  {
    var lt, ll := SymLine(s.s1, c) + Gaps(r), Gaps(c) + SymLine(s.s2, r);
    var tops, lefts := lt + t.topSeq, ll + t.leftSeq;
    forall k | 0 <= k < |tops|
      ensures AlignColumn(tops[k], lefts[k])
    {
      if k >= |lt| {
        assert ColumnShape(t.topSeq[k - |lt|], t.matcher[k - |lt|], t.leftSeq[k - |lt|]);
      }
    }
    GapColumnsScore(s, lt, ll, |lt|);
    assert |lt| * s.gap == s.gap * (c + r);
    ScoreConcat(s, lt, ll, t.topSeq, t.leftSeq, |t.topSeq|);
  }

  /** `s1[..c]` against gaps, then `r` gaps, then a line spelling `s1[c..]`
      spells all of `s1`. */
  lemma TopLine(u: seq<byte>, c: nat, r: nat, line: seq<Base>)
    requires c <= |u| && Ungapped(line) == u[c..]
    ensures Ungapped(SymLine(u, c) + Gaps(r) + line) == u
  {
    TopLead(u, c, r);
    assert u[c..] == u[c..|u|] && u[..|u|] == u;
    LeadLine(u, SymLine(u, c) + Gaps(r), c, line, |u|);
  }

  /** `c` gaps, then `s2[..r]`, then a line spelling `s2[r..]` spells all
      of `s2`. */
  lemma LeftLine(u: seq<byte>, c: nat, r: nat, line: seq<Base>)
    requires r <= |u| && Ungapped(line) == u[r..]
    ensures Ungapped(Gaps(c) + SymLine(u, r) + line) == u
  {
    LeftLead(u, c, r);
    assert u[r..] == u[r..|u|] && u[..|u|] == u;
    LeadLine(u, Gaps(c) + SymLine(u, r), r, line, |u|);
  }

  /** A traced alignment of `s1[c..]` with `s2[r..]`, preceded by `s1[..c]`
      against gaps and then gaps against `s2[..r]`, is an alignment of all
      of `s1` with all of `s2` scoring `c + r` gap scores more. */
  lemma Completion(s: Session, t: Trace) returns (tops: seq<Base>, lefts: seq<Base>)
    requires t.endCol <= |s.s1| && t.endRow <= |s.s2| && |t.topSeq| == |t.matcher| == |t.leftSeq|
    requires forall k :: 0 <= k < |t.matcher| ==> ColumnShape(t.topSeq[k], t.matcher[k], t.leftSeq[k])
    requires Ungapped(t.topSeq) == s.s1[t.endCol..] && Ungapped(t.leftSeq) == s.s2[t.endRow..]
    ensures IsAlignment(tops, lefts) && Ungapped(tops) == s.s1 && Ungapped(lefts) == s.s2
    ensures AlignmentScore(s, tops, lefts) == s.gap * (t.endCol + t.endRow) + AlignmentScore(s, t.topSeq, t.leftSeq)
    ensures |t.topSeq| <= |tops| && tops[|tops| - |t.topSeq|..] == t.topSeq
    ensures |t.leftSeq| <= |lefts| && lefts[|lefts| - |t.leftSeq|..] == t.leftSeq
  {
    var lt := SymLine(s.s1, t.endCol) + Gaps(t.endRow);
    var ll := Gaps(t.endCol) + SymLine(s.s2, t.endRow);
    tops, lefts := lt + t.topSeq, ll + t.leftSeq;
    assert Ungapped(tops) == s.s1 by { TopLine(s.s1, t.endCol, t.endRow, t.topSeq); }
    assert Ungapped(lefts) == s.s2 by { LeftLine(s.s2, t.endCol, t.endRow, t.leftSeq); }
    assert IsAlignment(tops, lefts)
      && AlignmentScore(s, tops, lefts) == s.gap * (t.endCol + t.endRow) + AlignmentScore(s, t.topSeq, t.leftSeq)
    by {
      LeadScore(s, t.endCol, t.endRow, t);
    }
    TailOf(lt, t.topSeq);
    TailOf(ll, t.leftSeq);
  }

  /** The reported global run is the bottom-right value with the lines of
      the walk `t` from the bottom-right cell. */
  lemma GlobalLines(s: Session, g: Grid, t: Trace)
    requires RunMatrix(s, g) && s.mode == Global
    requires Walk(g, g[|s.s2|][|s.s1|], |s.s2|, |s.s1|) == Some(t)
    ensures GlobalTraceback(s, g).totalScore == g[|s.s2|][|s.s1|].value
    ensures GlobalTraceback(s, g).topSeq == t.topSeq && GlobalTraceback(s, g).leftSeq == t.leftSeq
  {
    GlobalTrace(s, g);
  }

  /** `y` is the tail of `x + y`. */
  lemma TailOf(x: seq<Base>, y: seq<Base>)
    ensures |y| <= |x + y| && (x + y)[|x + y| - |y|..] == y
  {
    assert (x + y)[|x|..] == y;
  }

  /** The walk from the bottom-right cell, preceded by one column for each
      leading symbol it skipped, is an alignment of all of `s1` with all
      of `s2` that scores the bottom-right cell. */
  lemma WalkCompletes(s: Session, g: Grid) returns (tops: seq<Base>, lefts: seq<Base>, t: Trace)
    requires RunMatrix(s, g) && s.mode == Global
    ensures Walk(g, g[|s.s2|][|s.s1|], |s.s2|, |s.s1|) == Some(t)
    ensures IsAlignment(tops, lefts) && Ungapped(tops) == s.s1 && Ungapped(lefts) == s.s2
    ensures AlignmentScore(s, tops, lefts) == g[|s.s2|][|s.s1|].value
    ensures |t.topSeq| <= |tops| && tops[|tops| - |t.topSeq|..] == t.topSeq
    ensures |t.leftSeq| <= |lefts| && lefts[|lefts| - |t.leftSeq|..] == t.leftSeq
  {
    t := TraceFacts(s, g, |s.s2|, |s.s1|);
    assert g[t.endRow][t.endCol].value == s.gap * (t.endCol + t.endRow) by {
      BorderCharge(s, g, t.endRow, t.endCol);
    }
    assert s.s1[t.endCol..|s.s1|] == s.s1[t.endCol..] && s.s2[t.endRow..|s.s2|] == s.s2[t.endRow..];
    tops, lefts := Completion(s, t);
  }

  /** The global total is achieved: the reported lines, preceded by one
      column for each leading symbol the walk skipped (that symbol against a
      gap), form an alignment of all of `s1` with all of `s2` whose score
      is the reported total. With `GlobalBound`, the global total is the
      best score of any alignment. */
  lemma GlobalAchieved(s: Session, g: Grid) returns (tops: seq<Base>, lefts: seq<Base>)
    requires RunMatrix(s, g) && s.mode == Global
    ensures IsAlignment(tops, lefts) && Ungapped(tops) == s.s1 && Ungapped(lefts) == s.s2
    ensures AlignmentScore(s, tops, lefts) == GlobalTraceback(s, g).totalScore
    ensures |GlobalTraceback(s, g).topSeq| <= |tops|
    ensures tops[|tops| - |GlobalTraceback(s, g).topSeq|..] == GlobalTraceback(s, g).topSeq
    ensures lefts[|lefts| - |GlobalTraceback(s, g).leftSeq|..] == GlobalTraceback(s, g).leftSeq
  {
    var t;
    tops, lefts, t := WalkCompletes(s, g);
    assert GlobalTraceback(s, g).totalScore == g[|s.s2|][|s.s1|].value
      && GlobalTraceback(s, g).topSeq == t.topSeq && GlobalTraceback(s, g).leftSeq == t.leftSeq
    by {
      GlobalLines(s, g, t);
    }
  }

  /** The local total is achieved: the reported lines are an alignment of
      a substring of `s1` with a substring of `s2`, both ending at the best
      cell, whose score is the total. With `LocalBound`, the local total is
      the best score of any such alignment when the gap score is at most 0. */
  lemma LocalAchieved(s: Session, g: Grid)
    requires RunMatrix(s, g) && s.mode == Local
    ensures IsAlignment(LocalTraceback(s, g).topSeq, LocalTraceback(s, g).leftSeq)
    ensures AlignmentScore(s, LocalTraceback(s, g).topSeq, LocalTraceback(s, g).leftSeq) == LocalTraceback(s, g).totalScore
    ensures IsSuffix(Ungapped(LocalTraceback(s, g).topSeq), s.s1[..FindHighestValue(g).col])
    ensures IsSuffix(Ungapped(LocalTraceback(s, g).leftSeq), s.s2[..FindHighestValue(g).row])
  {
    var a := LocalTraceback(s, g);
    forall k | 0 <= k < |a.topSeq|
      ensures AlignColumn(a.topSeq[k], a.leftSeq[k])
    {
      assert ColumnShape(a.topSeq[k], a.matcher[k], a.leftSeq[k]);
    }
  }

  /** "" against "A" with a gap score of 1. */
  const GapRun := Session([], [0x41], Constants(5, -3), 1, Local)

  /** On the matrix of that run every cell is 0, so the local total is 0. */
  lemma GapRunTotal(g: Grid)
    requires RunMatrix(GapRun, g)
    ensures LocalTraceback(GapRun, g).totalScore == 0
  {
    assert g[0][0].value == 0 && g[1][0].value == 0;
    assert FindHighestValue(g).value == 0;
  }

  /** A gap over "A" is a one-column alignment of the empty substring of
      `s1` with "A"; under a gap score of 1 it scores 1. */
  lemma GapRunColumn()
    ensures IsAlignment([Gap], [Sym(0x41)])
    ensures Ungapped([Gap]) == GapRun.s1[0..0] && Ungapped([Sym(0x41)]) == GapRun.s2[0..1]
    ensures AlignmentScore(GapRun, [Gap], [Sym(0x41)]) == 1
  {
    assert Symbols([Sym(0x41)], 1) == [0x41];
  }

  /** With a positive gap score the local bound fails: the one-column
      alignment of the empty substring of `s1` with "A" scores 1, while
      the local total is 0. */
  lemma PositiveGapBeatsLocal()
    ensures LocalAlignment(GapRun).Some? && LocalAlignment(GapRun).value.totalScore == 0
    ensures IsAlignment([Gap], [Sym(0x41)])
    ensures Ungapped([Gap]) == GapRun.s1[0..0] && Ungapped([Sym(0x41)]) == GapRun.s2[0..1]
    ensures AlignmentScore(GapRun, [Gap], [Sym(0x41)]) == 1
  {
    assert Scorable(GapRun);
    GapRunTotal(Matrix(GapRun));
    GapRunColumn();
  }
}
