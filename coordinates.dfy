/** Conversion of a square index to the (column, row) position shown in the
    move list. */
module Coordinates {

  datatype Position = Position(col: nat, row: nat)

  /** The column and row of square i: column i mod 3, row the floor of i / 3.
      Indices are never negative, so Dafny's division agrees with the
      `Math.floor(i / 3)` of `calculateColRow`. */
  function ColRow(i: nat): (p: Position)
    ensures p.col < 3 && 3 * p.row + p.col == i
    ensures i < 9 ==> p.row < 3
  {
    Position(i % 3, i / 3)
  }

  /** The row-major index of a position on the board. */
  function IndexOf(p: Position): (i: nat)
    requires p.col < 3 && p.row < 3
    ensures i < 9
  {
    3 * p.row + p.col
  }

  /** ColRow inverts IndexOf on the board. */
  lemma ColRowOfIndexOf(p: Position)
    requires p.col < 3 && p.row < 3
    ensures ColRow(IndexOf(p)) == p
  {
  }

  /** IndexOf inverts ColRow on the board, so distinct squares are reported
      at distinct positions. */
  lemma IndexOfColRow(i: nat)
    requires i < 9
    ensures IndexOf(ColRow(i)) == i
  {
  }
}
