/** A (row, column) position, shared by the grid and the 4 x 4 shape boxes: main.c
    uses the same `Cell` struct for both. */
module Cells {
  /** Row 0 is the top (of the grid, or of a shape box); columns grow to the right. */
  datatype Cell = Cell(row: int, col: int)
}
