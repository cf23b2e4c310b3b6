/** The substitution score of two sequence bytes: either a lookup in a
    symbol-indexed table or the match/mismatch constants. */
module Scoring {
  import opened Wrappers
  import opened Cells

  /** The scoring context. `Table` is the Go case `misMatchMap != nil`:
      `index` maps the code point of an upper-case symbol to its row and
      column in `table`. Header entries longer than one rune can never be
      looked up, so the map is keyed by single code points. */
  datatype Scoring =
    | Constants(matchScore: int, misMatchScore: int)
    | Table(index: map<int, int>, table: seq<seq<int>>)

  /** Code point of `strings.ToUpper(string(b))`. The conversion turns byte
      `b` into the rune U+00bb; Go's simple upper-case mapping then moves
      ASCII and Latin-1 small letters to their capitals. */
  function UpperRune(b: byte): (r: int)
    ensures 0x61 <= b <= 0x7A ==> r == b as int - 0x20
    ensures b < 0x80 && !(0x61 <= b <= 0x7A) ==> r == b as int
    ensures 0x41 <= r <= 0x5A <==> (0x41 <= b <= 0x5A || 0x61 <= b <= 0x7A)
  {
    if 0x61 <= b <= 0x7A then b as int - 0x20
    else if 0xE0 <= b <= 0xFE && b != 0xF7 then b as int - 0x20
    else if b == 0xB5 then 0x39C
    else if b == 0xFF then 0x178
    else b as int
  }

  /** Reading a Go map: a missing key yields the zero value. */
  function Lookup(index: map<int, int>, key: int): int
  {
    if key in index then index[key] else 0
  }

  /** Both table coordinates can be indexed without a panic. */
  predicate InTable(table: seq<seq<int>>, p: int, q: int)
  {
    0 <= p < |table| && 0 <= q < |table[p]|
  }

  /** The score of aligning `a` (from the first sequence) with `b` (from the
      second). `None` is the index-out-of-range panic of a table whose rows
      or columns do not reach the looked-up position. */
  function Substitution(sc: Scoring, a: byte, b: byte): (r: Option<int>)
    ensures sc.Constants? ==> r.Some?
    ensures sc.Constants? && a == b ==> r.value == sc.matchScore
    ensures sc.Constants? && a != b ==> r.value == sc.misMatchScore
    ensures sc.Table? ==>
      var p := Lookup(sc.index, UpperRune(a));
      var q := Lookup(sc.index, UpperRune(b));
      (r.Some? <==> InTable(sc.table, p, q)) && (r.Some? ==> r.value == sc.table[p][q])
  {
    match sc
    case Constants(m, mis) => if a == b then Some(m) else Some(mis)
    case Table(index, table) =>
      var p := Lookup(index, UpperRune(a));
      var q := Lookup(index, UpperRune(b));
      if InTable(table, p, q) then Some(table[p][q]) else None
  }

  /** With a table, a lower-case ASCII letter scores exactly like its capital. */
  lemma TableIgnoresCase(sc: Scoring, a: byte, b: byte)
    requires sc.Table?
    requires 0x61 <= a <= 0x7A
    ensures Substitution(sc, a, b) == Substitution(sc, a - 0x20, b)
    ensures Substitution(sc, b, a) == Substitution(sc, b, a - 0x20)
  {
  }

  /** With constants, bytes are compared as they are: a letter and its capital
      mismatch. */
  lemma ConstantsAreCaseSensitive(m: int, mis: int, a: byte)
    requires 0x61 <= a <= 0x7A
    ensures Substitution(Constants(m, mis), a, a - 0x20) == Some(mis)
  {
  }

  /** A table symmetric on its defined entries gives a symmetric score, and
      the constants always do. */
  ghost predicate SymmetricTable(table: seq<seq<int>>)
  {
    forall p, q :: InTable(table, p, q) ==> InTable(table, q, p) && table[p][q] == table[q][p]
  }

  lemma SubstitutionSymmetric(sc: Scoring, a: byte, b: byte)
    requires sc.Table? ==> SymmetricTable(sc.table)
    ensures Substitution(sc, a, b) == Substitution(sc, b, a)
  {
  }
}
