# Sequence alignment engine of bioFinalCode, in Dafny

This project models the dynamic-programming core of `main.go`. It covers
Needleman-Wunsch global alignment and Smith-Waterman local alignment of two
byte sequences `s1` (the top sequence, columns) and `s2` (the left sequence,
rows).

The model follows the program's own steps:

- A fresh matrix of `score` cells (`Cells`).
- Border initialisation for each mode (`Init`).
- The per-cell recurrence with its exact tie-break and the local zero floor
  (`Recurrence`). Substitution scores come from a table plus symbol map, or
  from the match/mismatch constants (`Scoring`).
- A row-major fill of the interior (`Filling`).
- The best-cell scan (`Locate`).
- The traceback loop that follows each cell's direction (`Traceback`).
- The two alignment runs (`Align`).
- Optimality of the filled matrix against every alignment (`Optimal`).
- Exchanging the two sequences (`Symmetry`).

Go panics are modelled as `None`. There are two of them. The first is a
substitution table indexed out of range: `Align.GlobalAlignment` and
`Align.LocalAlignment` return `None` exactly when some pair of symbols hits
it. The second is a traceback that indexes the matrix at -1, which only the
as-written local traceback can reach.

With a symmetric scoring context, exchanging `s1` and `s2` transposes the
matrix values and keeps both totals. The reported lines are not simply
transposed, though. On a tie between the up and the left move the cell
always goes left (main.go:267-283), so the exchanged run can trace a
different alignment of the same score.

The Go program fills each anti-diagonal concurrently.
`Filling.RecurrenceDeterminesGrid` shows that the border and the recurrence
fix every cell. Any order that computes a cell after its three neighbours
therefore yields the grid `Filling.Fill` builds in row-major order.
`Align.MatrixUnique` states the same fact for the run's matrix.

In two places the code departs from textbook Needleman-Wunsch and
Smith-Waterman, and the model follows the code:

- **End of the global traceback.** The loop stops at the first cell with an
  empty base. Row-0 cells have no left base and column-0 cells have no top
  base, so the global walk stops at any border cell, not at the origin.
  `Align.GlobalTraceback` therefore covers a suffix of each sequence, one of
  them in full. The leading symbols it skips are still charged in the total
  score, one gap each.
- **Start of the local traceback.** The walk starts with the bottom-right
  element but moves the coordinates of the best cell. It does not start
  from the best cell. See "Findings".

## Model

| member | source | states |
|---|---|---|
| Cells.MakeMatrix | main.go:63-70 | `makeMatrix(x, y)` has `y` rows of exactly `x` cells, all the zero `score` (value 0, direction up, empty bases) |
| Scoring.UpperRune | main.go:255-256 | `strings.ToUpper` of a one-byte string maps exactly the ASCII small letters to their capitals and leaves other ASCII bytes alone; the result is an ASCII capital exactly when the byte is a letter of either case |
| Scoring.Substitution | main.go:254-265 | with constants: `matchScore` for equal bytes and `misMatchScore` otherwise, never a panic; with a table: the entry at the map indices of the upper-cased symbols, and a panic exactly when those indices fall outside the table |
| Scoring.TableIgnoresCase | main.go:254-258 | with a table, a lower-case ASCII letter scores exactly like its capital, on either side |
| Scoring.ConstantsAreCaseSensitive | main.go:259-265 | with constants, a letter against its own capital is a mismatch |
| Scoring.SubstitutionSymmetric | main.go:254-265 | swapping the two symbols does not change the score, for constants and for a table symmetric on its defined entries |
| Recurrence.Choose | main.go:267-283 | the diagonal wins only when strictly above both gap moves; up wins only when strictly above left; the chosen move always carries a maximal candidate |
| Recurrence.ChooseTransposes | main.go:267-283 | exchanging the up and left candidates exchanges the chosen up and left moves exactly when there is no up/left tie at or above the diagonal; on such a tie both orders choose left |
| Recurrence.ChooseIsPreferLeftThenUp | main.go:267-283 | the tie-break equals the independent rule "among the maximal moves prefer left, then up, then the diagonal" |
| Recurrence.ScoreCell | main.go:455-475 | a global cell holds the maximum of the three candidates; a local cell holds `max(0, ...)`; the floor cell (0, nothing, empty bases) appears exactly when all three local candidates are negative; the bases match the move |
| Recurrence.LocalFollowsGlobal | main.go:455-475 | outside the floor case a local cell is exactly the global cell |
| Init.InitGlobal | main.go:77-93 | row 0 gets `j*gap`, direction left and top symbol `s1[j-1]`; column 0 gets `i*gap`, direction up and left symbol `s2[i-1]`; the corner value becomes 0; nothing else changes |
| Init.InitLocal | main.go:100-116 | the same border writes with every border value 0; nothing else changes |
| Init.LocalIsGlobalWithZeroGap | main.go:77-116 | the local initialisation is the global one with a zero gap score |
| Init.InitGlobalBorder | main.go:654-658 | on the matrix `main` allocates, global initialisation gives the fresh border: a zero corner, row-0 cells with only a top symbol and column-0 cells with only a left symbol, values `k*gap` |
| Init.InitLocalBorder | main.go:654-663 | on the matrix `main` allocates, local initialisation gives the fresh border with values 0 |
| Filling.FillRow | main.go:250-283 | every cell of the row after the border is the recurrence applied to its upper, left and upper-left neighbours |
| Filling.FillRows | main.go:250-283 | every interior cell of the filled rows follows the recurrence, and the border cells are kept |
| Filling.Fill | main.go:250-283 | the filled matrix keeps its border and every interior cell follows the recurrence |
| Filling.RecurrenceDeterminesGrid | main.go:250-253 | two grids with the same border that both follow the recurrence are equal, so the concurrent wavefront order and the row-major order fill the same matrix |
| Filling.StepConsistent | main.go:252-283 | each interior cell's value is its predecessor's value plus the gap for up/left, or plus the substitution score for the diagonal; its bases follow the move; the floor happens only in local mode with all candidates negative |
| Locate.ScanRow | main.go:417-425 | after scanning part of a row, the running best is not below any visited cell, holds a visited cell's value, and is the first maximum in row-major order |
| Locate.ScanRows | main.go:416-426 | after scanning whole rows, the same holds for every visited cell |
| Locate.FindHighestValue | main.go:414-428 | the result is at least 0 and at least every cell value; when positive it sits at a cell holding it, and every earlier cell in row-major order is smaller; otherwise it is (0, 0, 0) |
| Traceback.Walk | main.go:371-390 | the three output lines have equal length; each column is a gap move marked `' '` or a diagonal marked `|` for equal bases and `:` otherwise; the walk ends at or before its start; it emits nothing exactly when the start cell has an empty base |
| Traceback.WalkDefined | main.go:371-390 | on a matrix whose cells with both bases lie off the border, the walk never indexes at -1 and stops at a cell with an empty base |
| Align.Matrix | main.go:654-663 | the run's matrix has `len(s2)+1` rows of `len(s1)+1` cells, the fresh border of its mode, and an interior that follows the recurrence |
| Align.MatrixUnique | main.go:654-664 | any grid with the fresh border and the recurrence is the run's matrix |
| Align.TraceFacts | main.go:371-390 | the walk from any cell of the run's matrix emits columns of the expected shape and spells `s1[endCol..y]` on top and `s2[endRow..x]` on the left, gaps dropped; the start value equals the end value plus the column scores; it ends on the border or, locally, on a 0 cell |
| Align.GlobalTrace | main.go:365-390 | the global walk from the bottom-right cell covers a suffix of each sequence, one in full; the bottom-right value equals its column scores plus one gap per skipped leading symbol |
| Align.GlobalTraceback | main.go:365-390 | the global run reports the bottom-right value as total, three equal-length lines of the expected shape covering a suffix of each sequence (one in full), and a total that equals the column scores plus the skipped leading symbols' gaps |
| Align.LocalTracebackAsWritten | main.go:571-594 | the code as written: the reported total is the best value, the lines have equal length, and a bottom-right cell with an empty base gives the empty alignment |
| Align.LocalNonNegative | main.go:455-475 | no cell of a local run's matrix is negative |
| Align.LocalTrace | main.go:571-594 | the walk from the best cell never panics, covers a substring of each sequence ending at the best cell, and its column scores add up to the best value |
| Align.LocalTraceback | main.go:571-594 | the intended local run: the total is the value `findHighestValue` locates, at least 0 and at least every cell value; the lines have equal length and the expected shape; they cover substrings ending at the best cell; the column scores add up to the total |
| Align.AsWrittenAtCorner | main.go:571-573 | when the best cell is the bottom-right cell, the as-written local run returns the intended alignment |
| Align.TablePanicsExactly | main.go:254-265 | a run panics on the substitution table exactly when some pair of symbols of `s1` and `s2` indexes outside the table; with constants it never does |
| Align.GlobalAlignment | main.go:654-660 | the global run from the fresh matrix: `None` exactly when the table panics (never with constants); otherwise the global traceback of the run's matrix |
| Align.LocalAlignmentAsWritten | main.go:661-664 | the local run as written: `None` whenever the table panics; for every session that does not, exactly the as-written traceback of the run's matrix, which may itself be `None` when the walk indexes at -1 |
| Align.LocalAlignment | main.go:661-664 | the intended local run: `None` exactly when the table panics (never with constants); otherwise the intended traceback of the run's matrix |
| Optimal.CellBound | main.go:267-283 | every alignment of `s1[a..j]` with `s2[b..i]` scores at most cell (i, j): globally with `a = b = 0`, locally for any start when the gap score is at most 0 |
| Optimal.GlobalBound | main.go:365-369 | every alignment of all of `s1` with all of `s2` scores at most the bottom-right cell |
| Optimal.GlobalOptimal | main.go:365-369 | every alignment of all of `s1` with all of `s2` scores at most the reported global total |
| Optimal.GlobalAchieved | main.go:365-390 | the reported global lines, preceded by one gap column per skipped leading symbol, are an alignment of all of `s1` with all of `s2` that scores the reported total, so the total is the best global score |
| Optimal.LocalBound | main.go:455-475 | with a gap score of at most 0, every alignment of a substring of `s1` with a substring of `s2` scores at most the value `findHighestValue` locates |
| Optimal.LocalOptimal | main.go:571-594 | with a gap score of at most 0, every alignment of substrings scores at most the intended local total |
| Optimal.LocalAchieved | main.go:571-594 | the intended local lines are an alignment of substrings ending at the best cell that scores the total, so, when the gap score is at most 0, the total is the best local score |
| Optimal.PositiveGapBeatsLocal | main.go:100-116 | with a positive gap score the bound fails: "" against "A" with gap 1 reports 0, while the single column A-over-gap scores 1 |
| Symmetry.SwapScorable | main.go:254-265 | with symmetric scoring, the exchanged run never panics when the original does not, and looks up the same substitution score for each transposed pair |
| Symmetry.SwapCell | main.go:77-116 | with symmetric scoring, cell (j, i) of the exchanged run's matrix holds the value of cell (i, j) of the original's |
| Symmetry.SwapTransposes | main.go:267-283 | with symmetric scoring, the exchanged run's matrix is the transpose of the original's, value for value |
| Symmetry.GlobalSwapScore | main.go:365-369 | with symmetric scoring, the exchanged global run panics exactly when the original does and reports the same total |
| Symmetry.SwapBest | main.go:414-428 | with symmetric scoring, the exchanged matrix has the same located best value |
| Symmetry.LocalSwapScore | main.go:571 | with symmetric scoring, the exchanged local run panics exactly when the original does and reports the same total |
| Findings.LocalAsWrittenPanics | main.go:571-594 | on "A" against "C" (match 5, mismatch -3, gap 0) the as-written local run panics, while the intended run reports the empty alignment of score 0 |
| Findings.LocalAsWrittenMisreports | main.go:571-594 | on "AC" against "A" (match 5, mismatch -3, gap -4) the as-written local run reports total 5 for the single column C over a gap, which scores -4; the intended run reports the A-A match, which scores 5 |

## Left out

- Wavefront scheduling (goroutines, `sync.WaitGroup`, batch index arithmetic using floating-point `math.Ceil`): a row-major fill replaces it. `Filling.RecurrenceDeterminesGrid` shows that the order does not change the matrix. The model does not check whether the batches cover every cell.
- Command-line flags, global variables and `main`: sequences, gap, mode and scoring context are explicit parameters. `main`'s choice of mode is not modelled. That includes the fact that an unknown scoring-matrix name only prints an error and falls back to the constants. An unknown alignment type exits.
- FASTA detection and reading (`isFasta`, `extractFasta`): file I/O.
- `readScoringMatrix` and `sliceAtoi`: file I/O and `strconv.Atoi`. The table and the symbol map are inputs. Map keys longer than one rune can never be looked up, so the map is keyed by single code points.
- `printMatrix` and the 50-column report printing: output only.
- Empty sequences: the model gives a matrix with no interior cells. The concurrent driver's behaviour on them is not modelled.
- Integer overflow: Go's `int` is 64 bits; the model uses unbounded integers. This matters only for scores beyond 2^63.
- Strings: `topBase`/`leftBase` hold the empty string, `"-"` or `string(b)` for a sequence byte `b`. The model keeps these as `Empty`, `Gap` and `Sym(b)`. It does not model two ways in which Go's strings differ:
  - A byte of 0x80 or more becomes the two-byte UTF-8 encoding of that code point. The conversion is still one-to-one on bytes.
  - A `'-'` byte in a sequence becomes `"-"`, the same string as a gap. The model keeps `Sym(0x2D)` and `Gap` apart.
  Neither changes the walk. The loop test compares a base with the empty string only, and the match marker compares two bases only in the diagonal branch (main.go:383 and main.go:587), where both are symbols. The one visible difference would be in printing, which is not modelled.
- Optimal.LocalBound, Optimal.LocalOptimal: require a gap score of at most 0. With a positive gap the zero border does not charge leading gap columns, and the bound fails (`Optimal.PositiveGapBeatsLocal`).
- Symmetry.GlobalSwapScore, Symmetry.LocalSwapScore: state equal totals, not transposed lines. On an up/left tie both runs go left (`Recurrence.ChooseTransposes`), so the lines can differ.

## Findings

| source | as written | input that shows it | evidently intended | confidence | as-written member | corrected member |
|---|---|---|---|---|---|---|
| main.go:571-594 | the local traceback starts with `matrix[rows-1][cols-1]` but moves the coordinates of the best cell, so it walks a mix of two paths; it panics at index -1 when the best cell is on the border and the bottom-right pointer leads off it | "A" vs "C", match 5, mismatch -3, gap 0: panics. "AC" vs "A", gap -4: reports total 5 for a C-over-gap column that scores -4 | start the walk from the best cell, as Smith-Waterman does | not executed | Findings.LocalAsWrittenPanics | Align.LocalTraceback |
| main.go:571-594 | (same defect, wrong output rather than a panic) | "AC" vs "A", match 5, mismatch -3, gap -4 | the A-A match of score 5 | not executed | Findings.LocalAsWrittenMisreports | Align.LocalTraceback |
