# Falling-block game engine, modelled in Dafny

This project models the non-I/O core of a small falling-block puzzle game written
in C (`main.c`): the 25 x 15 grid of frozen cells, tetromino-like pieces placed on
it, and the steps of the game that change them.

- **Cells** (`cells.dfy`): the `(row, column)` position that the grid and the
  4 x 4 shape boxes share, as `main.c` uses one `Cell` struct for both.
- **Grid** (`grid.dfy`): the board is an immutable `seq` of 25 rows of 15 integers.
  A cell value of 0 is empty and any other value is frozen (`IsFrozen`);
  `IsCellFrozen` models `is_cell_frozen`, that test applied to one grid cell. The module models the reset (`init_game_grid`), the
  row-compaction primitive (`shift_game_grid_down_from`) and full-line clearing
  with its score and line counters (`clear_lines`). Every C loop becomes a method
  that updates a local board cell by cell and returns it. Each method is proved
  against a pure reference. For clearing, the reference is `Compacted`: the
  non-full rows in their original order, bottom-aligned under empty rows. A full
  row is re-examined at the same index after the shift. The loop still ends,
  because each removal adds one empty row to the kept rows and they can never
  outnumber the grid's 25 rows.
- **Shapes** (`shapes.dfy`): the shape table `pieces[type][rotation][row][col]`
  from `pieces.h`. Its contents are not part of this model. It is a parameter of
  type `Table`: 7 types x 4 rotations x 4 x 4 entries, each 0 (empty), 1 (block)
  or 2 (block that is the pivot). The row-major pivot scan lives here.
- **Pieces** (`pieces.dfy`): a piece `{type, rotation, x, y}` is an immutable
  datatype. The module models `piece_has_block_at`, the per-cell collision rule,
  whole-piece validity, the rotation centre, guarded translation, rotation about
  the pivot, and stamping a landed piece into the grid.
- **Game** (`game.dfy`): spawning, the game-over test, the landing step, the
  start of a game, and the dispatch of one key press.

Behaviour of the code worth noting:

- On landing, the preview piece becomes the current piece without being moved.
  It was spawned as a preview, so it sits at x = 0, y = 0. The game-over test is
  made there, not at the centred spawn position with row -2.
- `freeze_piece` drops covered cells that are outside the grid in either
  direction, not only vertically.
- `shift_game_grid_down_from(r)` keeps the rows below `r` (higher indices). Row
  `i` takes row `i - 1` for `1 <= i <= r`, and row 0 becomes empty.

`FROZEN_COLOR` is `RED` from `primlib.h`, which is not part of this model. Freezing
takes the colour as a parameter. The lemmas that need it to mark a cell as frozen
require it to be non-zero.

## Model

| member | source | states |
|---|---|---|
| Grid.IsCellFrozen | main.c:120-122 | a grid cell is frozen iff its value is non-zero; every cell of a full row is frozen |
| Grid.FullIffCountIsWidth | main.c:187-194 | a row's frozen-cell count equals its width iff every cell of the row is frozen |
| Grid.InitGameGrid | main.c:172-176 | every cell of the returned grid is 0, whatever the grid held before |
| Grid.ShiftDownFrom | main.c:178-184 | row 0 becomes empty, row i takes old row i-1 for 1 <= i <= start, rows after start are unchanged; for start >= 0 the result is the old grid with row start removed and an empty row put on top |
| Grid.RowIsFull | main.c:187-194 | the early-exit scan of a row answers true exactly when every cell of the row is frozen |
| Grid.ClearLines | main.c:186-202 | the loop terminates; the resulting grid is exactly the reference result of clearing the grid it was given; lines_cleared grows by the number k of rows full on entry and score by 100 k; the flags are unchanged |
| Grid.CompactedShape | main.c:186-202 | in the reference result of clearing, no row is full, the top k rows are empty, and the rows below them are the non-full rows of the original grid in their original order, where k is the number of full rows |
| Grid.ClearedCellCount | main.c:186-202 | clearing removes exactly 15 frozen cells per cleared line and keeps every other frozen cell |
| Grid.ClearingIsIdempotent | main.c:186-202 | a cleared grid has no full line, so clearing it again changes nothing |
| Grid.RemoveFullRow | main.c:195-197 | shifting down from a full row leaves the rows below it unchanged and adds one empty row in front of the kept non-full rows |
| Grid.ShiftRemovesFullRow | main.c:195-199 | shifting down from a full row adds one empty row in front of the kept rows, removes one full row and removes exactly 15 frozen cells |
| Grid.NonFullRowsCount | main.c:187-199 | every row of a grid is either kept by clearing or counted as a cleared line |
| Grid.NonFullRowsNotFull | main.c:187-199 | no row kept by clearing is full |
| Pieces.PieceHasBlockAt | main.c:124-126 | a box cell of the piece holds a block iff its shape entry is 1 (plain block) or 2 (pivot) |
| Pieces.IsCollisionAt | main.c:205-216 | a box cell collides iff its grid column is outside [0, 15), or its grid row is at least 25, or its grid row is non-negative and that grid cell is frozen; a cell above the top in a valid column never collides |
| Pieces.IsValidPosition | main.c:219-230 | the scan returns true iff no block (entry 1 or 2) of the shape collides, that is iff every block lies in the grid's columns, above its bottom, and on an empty cell when its row is non-negative |
| Pieces.FindRotationCenter | main.c:232-241 | the rotation centre is a cell of the 4 x 4 box |
| Shapes.PivotFromFindsFirst | main.c:233-240 | the resumed scan returns the first pivot entry at or after its starting point in row-major order, or (0, 0) when there is none |
| Pieces.FindRotationCenterIsFirstPivot | main.c:232-241 | the rotation centre is the first pivot of the variant in row-major order, or (0, 0) when the variant has no pivot |
| Pieces.UniquePivotIsCenter | main.c:232-241 | when the variant has exactly one pivot, the rotation centre is that pivot |
| Pieces.RotatePieceAroundPivot | main.c:243-259 | the result is either the piece unchanged or a valid piece of the same type in rotation (r+1) % 4 whose pivot is on the same grid cell as before; it is that piece exactly when that piece is valid; a valid piece stays valid |
| Pieces.CommittedRotation | main.c:243-259 | a rotation that changes the piece turns it one rotation state with the pivot kept in place |
| Pieces.PivotChainInvariant | main.c:245-254 | along n successive pivot rotations the type is kept, the rotation advances by n modulo 4, and the pivot stays on its grid cell |
| Pieces.FourRotationsRestore | main.c:245-254 | four successive pivot rotations give back the original piece, position included |
| Pieces.FourCommittedRotationsRestore | main.c:243-259 | four rotation attempts in a row give back the original piece, position included, unless one of the attempts was refused and left its piece unchanged |
| Pieces.MovePiece | main.c:261-270 | the move returns true iff the displaced piece is valid, and then the piece is displaced by (dx, dy); otherwise it returns false and the piece is unchanged; type and rotation never change; a valid piece stays valid |
| Pieces.MoveUndo | main.c:261-270 | a committed move of a valid piece is undone by the opposite move |
| Pieces.MoveOffGridFails | main.c:261-270 | a move that would put a block left or right of the grid or below its last row fails and leaves the piece unchanged, whatever the grid holds |
| Pieces.FreezePiece | main.c:272-284 | exactly the grid cells under a block of the piece take the frozen colour; covered cells outside the grid are dropped; every other cell keeps its value |
| Pieces.FrozenPieceBlocksItself | main.c:272-284 | after freezing with a non-zero colour, a piece with a block inside the grid is no longer valid where it stands |
| Pieces.FreezeFillsOnlyEmptyCells | main.c:272-284 | freezing a valid piece changes only cells that were empty |
| Game.SpawnNewPiece | main.c:287-294 | a spawned piece has the given type and rotation 0; a preview piece is at the grid origin; a falling piece is at row -2 and horizontally centred, its box's left and right margins differing by at most one column |
| Game.SpawnValidOnEmptyBoard | main.c:287-294 | both spawn positions are valid on an empty grid for every shape |
| Game.CheckGameOver | main.c:296-298 | the game is over iff some block of the piece collides where it stands |
| Game.InitGame | main.c:354-364 | a new game has an empty grid, a falling piece that is exactly the spawned piece at column 5 and row -2, and a preview that is exactly the spawned preview at the origin, both in rotation 0, and neither piece collides; init_game does not write the game state, so its zero counters and cleared flags are those of the static initializer at main.c:38 |
| Game.HandlePieceLanding | main.c:317-324 | the grid becomes the cleared result of freezing the current piece into it, and the counters grow by the number of full rows after freezing; the old preview piece becomes current unmoved, and the new preview has rotation 0 at (0, 0); game_over is set iff the new current piece is invalid on the new grid; quit is unchanged |
| Game.HandleInput | main.c:326-340 | left, right and down move the piece one cell exactly when the moved piece is valid and otherwise leave it unchanged; space turns it to the pivot rotation exactly when that rotation is valid and otherwise leaves it unchanged; Escape and Return set quit; other keys do nothing; the type never changes and a valid piece stays valid |

## Left out

- Drawing (`draw_square`, `render_*`, `draw_piece`, `draw_next_piece`, `render_score`, `draw_borders`, `render_game`, `show_game_over_message`): these only produce graphics output.
- Key polling and `clear_input`: `HandleInput` takes the polled key as a parameter, and draining the event queue has no effect on the model's state.
- `game_loop`, `main`, `SDL_GetTicks` and `SDL_Delay`: the fall timer and the busy loop depend on the clock.
- `rand()` and `srand(time(NULL))`: the piece type is a parameter in 0..6.
- `gfx_init`, the screen geometry in `init_game`, and pixel coordinates (`grid_top_left`, `SQUARE_SIZE`): display set-up only.
- The contents of `pieces.h`: only the table's dimensions and entry values are used. "Exactly one pivot per variant" is not assumed. The rotation centre is modelled with the code's fallback to (0, 0), and `UniquePivotIsCenter` states what holds when that assumption is met.
- `FROZEN_COLOR` and the other colour constants of `primlib.h`: the frozen colour is a parameter.
- The unused `win` flag of the game state and the unused `Point` type.
- Grid.ClearLines: score and line counts are unbounded integers. The C `int` counters would overflow only after about 21 million cleared lines.
- Pieces.MovePiece: piece coordinates are unbounded integers. C `int` overflow of `x + dx` cannot happen from the game's own moves of one cell.
