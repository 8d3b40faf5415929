/** The shape table: for each of the 7 piece types and 4 rotation states, a 4 x 4
    matrix whose entries are 0 (empty), 1 (block) or 2 (block that is the rotation
    pivot). The concrete catalogue is not part of this model: every operation takes
    the table as a parameter and relies only on these dimensions and entry values. */
module Shapes {
  import opened Cells

  /** PIECE_SIZE: side of a shape's bounding box. */
  const PieceSize: int := 4

  type Entry = e: int | 0 <= e <= 2
  type ShapeRow = s: seq<Entry> | |s| == 4 witness [0, 0, 0, 0]
  type Variant = s: seq<ShapeRow> | |s| == 4 witness BlankVariant
  type Rotations = s: seq<Variant> | |s| == 4 witness BlankRotations
  /** Indexed as table[type][rotation][row][col]. */
  type Table = s: seq<Rotations> | |s| == 7 witness BlankTable

  /** All-empty values; they only show that the types above are inhabited. */
  const BlankRow: ShapeRow := [0, 0, 0, 0]
  const BlankVariant: seq<ShapeRow> := seq(4, _ => BlankRow)
  const BlankRotations: seq<Variant> := seq(4, _ => BlankVariant)
  const BlankTable: seq<Rotations> := seq(7, _ => BlankRotations)

  type PieceType = k: int | 0 <= k < 7
  type Rotation = r: int | 0 <= r < 4

  predicate IsBlock(e: Entry) { e != 0 }
  predicate IsPivot(e: Entry) { e == 2 }

  /** A position inside the 4 x 4 bounding box. */
  predicate InBox(c: Cell) { 0 <= c.row < PieceSize && 0 <= c.col < PieceSize }

  /** c comes strictly before (row, col) in a row-major scan. */
  predicate ScannedBefore(c: Cell, row: int, col: int) {
    c.row < row || (c.row == row && c.col < col)
  }

  /** The row-major scan for the pivot, resumed at (row, col). */
  function PivotFrom(v: Variant, row: int, col: int): (c: Cell)
    requires 0 <= row <= PieceSize && 0 <= col <= PieceSize
    ensures InBox(c)
    decreases PieceSize - row, PieceSize - col
  {
    if row == PieceSize then Cell(0, 0)
    else if col == PieceSize then PivotFrom(v, row + 1, 0)
    else if IsPivot(v[row][col]) then Cell(row, col)
    else PivotFrom(v, row, col + 1)
  }

  /** The scan resumed at (row, col) yields the first pivot at or after (row, col),
      or (0, 0) when the rest of the scan holds no pivot. */
  lemma {:induction false} PivotFromFindsFirst(v: Variant, row: int, col: int)
    requires 0 <= row <= PieceSize && 0 <= col <= PieceSize
    ensures var c := PivotFrom(v, row, col);
      || (&& !ScannedBefore(c, row, col)
          && IsPivot(v[c.row][c.col])
          && forall i, j | 0 <= i < PieceSize && 0 <= j < PieceSize
               && !ScannedBefore(Cell(i, j), row, col) && ScannedBefore(Cell(i, j), c.row, c.col)
               :: !IsPivot(v[i][j]))
      || (&& c == Cell(0, 0)
          && forall i, j | 0 <= i < PieceSize && 0 <= j < PieceSize && !ScannedBefore(Cell(i, j), row, col)
               :: !IsPivot(v[i][j]))
    decreases PieceSize - row, PieceSize - col
  {
    if row == PieceSize {
    } else if col == PieceSize {
      PivotFromFindsFirst(v, row + 1, 0);
    } else if IsPivot(v[row][col]) {
    } else {
      PivotFromFindsFirst(v, row, col + 1);
    }
  }
}
