/** The game grid: a 25 x 15 matrix of cells that are either empty (0) or frozen
    (any other value, the colour of a landed block), its reset, the row-compaction
    primitive and full-line clearing with the score and line counters. */
module Grid {
  import opened Cells

  /** GAME_GRID_WIDTH and GAME_GRID_HEIGHT. */
  const W: int := 15
  const H: int := 25

  /** Points added to the score for each cleared line. */
  const LineBonus: int := 100


  /** One grid row, left to right. */
  type Row = r: seq<int> | |r| == W witness seq(15, _ => 0)

  /** The whole grid, top row first. */
  type Board = b: seq<Row> | |b| == H witness seq(25, _ => EmptyRow)

  const EmptyRow: Row := seq(W, _ => 0)
  const EmptyBoard: Board := seq(H, _ => EmptyRow)

  /** The counters and flags of the game state that the engine updates
      (the unused `win` flag is not modelled). */
  datatype GameState = GameState(score: int, linesCleared: int, quit: bool, gameOver: bool)

  const InitialState: GameState := GameState(0, 0, false, false)

  /** A cell value denotes a frozen block iff it is not 0. */
  predicate IsFrozen(v: int) { v != 0 }

  predicate InGrid(c: Cell) { 0 <= c.row < H && 0 <= c.col < W }

  /** is_cell_frozen: the grid cell holds a non-zero value; every cell of a full
      row is frozen. */
  function IsCellFrozen(b: Board, c: Cell): (frozen: bool)
    requires InGrid(c)
    ensures frozen <==> b[c.row][c.col] != 0
    ensures Full(b[c.row]) ==> frozen
  {
    IsFrozen(b[c.row][c.col])
  }

  /** A row is full when every one of its cells is frozen. */
  predicate Full(r: Row) {
    forall col | 0 <= col < W :: IsFrozen(r[col])
  }

  /** Number of frozen cells in a row. */
  function RowFrozenCount(r: seq<int>): (n: nat)
    ensures n <= |r|
  {
    if |r| == 0 then 0 else (if IsFrozen(r[0]) then 1 else 0) + RowFrozenCount(r[1..])
  }

  /** Number of frozen cells in a sequence of rows. */
  function FrozenCount(rows: seq<Row>): nat {
    if |rows| == 0 then 0 else RowFrozenCount(rows[0]) + FrozenCount(rows[1..])
  }

  /** Number of full rows in a sequence of rows. */
  function FullRows(rows: seq<Row>): (k: nat)
    ensures k <= |rows|
  {
    if |rows| == 0 then 0 else (if Full(rows[0]) then 1 else 0) + FullRows(rows[1..])
  }

  /** The rows that are not full, in their original order. */
  function NonFullRows(rows: seq<Row>): (kept: seq<Row>)
    ensures |kept| <= |rows|
  {
    if |rows| == 0 then []
    else (if Full(rows[0]) then [] else [rows[0]]) + NonFullRows(rows[1..])
  }

  /** Every row is either kept or counted as full. */
  lemma {:induction false} NonFullRowsCount(rows: seq<Row>)
    ensures |NonFullRows(rows)| + FullRows(rows) == |rows|
  {
    if |rows| > 0 {
      NonFullRowsCount(rows[1..]);
    }
  }

  /** No row kept by the filtering is full. */
  lemma {:induction false} NonFullRowsNotFull(rows: seq<Row>)
    ensures forall i | 0 <= i < |NonFullRows(rows)| :: !Full(NonFullRows(rows)[i])
  {
    if |rows| > 0 {
      NonFullRowsNotFull(rows[1..]);
      var head: seq<Row> := if Full(rows[0]) then [] else [rows[0]];
      assert NonFullRows(rows) == head + NonFullRows(rows[1..]);
    }
  }

  /** n empty rows. */
  function Pad(n: nat): seq<Row> {
    seq(n, _ => EmptyRow)
  }

  /** Reference result of clearing every full line: the non-full rows in their
      original order, bottom-aligned, under as many empty rows as were removed. */
  function Compacted(b: Board): Board {
    Pad(H - |NonFullRows(b)|) + NonFullRows(b)
  }

  /** init_game_grid: every cell of the grid becomes empty, whatever it held. */
  method InitGameGrid(b: Board) returns (g: Board)
    ensures forall row, col | 0 <= row < H && 0 <= col < W :: g[row][col] == 0
    ensures g == EmptyBoard
  {
    g := b;
    var row := 0;
    while row < H
      invariant 0 <= row <= H
      invariant forall i, j | 0 <= i < row && 0 <= j < W :: g[i][j] == 0
    {
      var col := 0;
      while col < W
        invariant 0 <= col <= W
        invariant forall i, j | 0 <= i < row && 0 <= j < W :: g[i][j] == 0
        invariant forall j | 0 <= j < col :: g[row][j] == 0
      {
        g := g[row := g[row][col := 0]];
        col := col + 1;
      }
      row := row + 1;
    }
    BoardsEqual(g, EmptyBoard);
  }

  /** Two boards with the same cell values are equal. */
  lemma BoardsEqual(a: Board, c: Board)
    requires forall row, col | 0 <= row < H && 0 <= col < W :: a[row][col] == c[row][col]
    ensures a == c
  {
    forall row | 0 <= row < H
      ensures a[row] == c[row]
    {
      assert forall col | 0 <= col < W :: a[row][col] == c[row][col];
    }
  }

  /** shift_game_grid_down_from: every row from `start` up to row 1 receives the
      row above it, row 0 becomes empty, rows below `start` are untouched; in other
      words row `start` is removed and an empty row enters at the top. */
  method ShiftDownFrom(b: Board, start: int) returns (g: Board)
    requires start < H
    ensures g[0] == EmptyRow
    ensures forall i | 1 <= i <= start :: g[i] == b[i - 1]
    ensures forall i | 0 < i < H && start < i :: g[i] == b[i]
    ensures 0 <= start ==> g == [EmptyRow] + b[..start] + b[start + 1..]
  {
    g := b;
    var row := start;
    while row > 0
      invariant row <= start && row < H
      invariant forall i | 0 <= i <= row :: g[i] == b[i]
      invariant forall i | 0 < i && row < i <= start :: g[i] == b[i - 1]
      invariant forall i | 0 <= i && start < i < H :: g[i] == b[i]
    {
      ghost var before := g;
      var col := 0;
      while col < W
        invariant 0 <= col <= W
        invariant forall i | 0 <= i < H && i != row :: g[i] == before[i]
        invariant forall j | 0 <= j < col :: g[row][j] == b[row - 1][j]
        invariant forall j | col <= j < W :: g[row][j] == b[row][j]
      {
        g := g[row := g[row][col := g[row - 1][col]]];
        col := col + 1;
      }
      assert g[row] == b[row - 1];
      row := row - 1;
    }
    ghost var before := g;
    var col := 0;
    while col < W
      invariant 0 <= col <= W
      invariant forall i | 0 < i < H :: g[i] == before[i]
      invariant forall j | 0 <= j < col :: g[0][j] == 0
    {
      g := g[0 := g[0][col := 0]];
      col := col + 1;
    }
    assert g[0] == EmptyRow;
    if 0 <= start {
      var spliced := [EmptyRow] + b[..start] + b[start + 1..];
      assert forall i | 0 <= i < H :: g[i] == spliced[i];
    }
  }

  /** The scan of one row in clear_lines: stops at the first empty cell. */
  method RowIsFull(r: Row) returns (full: bool)
    ensures full <==> Full(r)
  {
    full := true;
    var col := 0;
    while col < W
      invariant 0 <= col <= W
      invariant full
      invariant forall j | 0 <= j < col :: IsFrozen(r[j])
    {
      if r[col] == 0 {
        full := false;
        break;
      }
      col := col + 1;
    }
  }

  /** A row is full exactly when its frozen-cell count is its width. */
  lemma {:induction false} FullIffCountIsWidth(r: seq<int>)
    ensures RowFrozenCount(r) == |r| <==> forall i | 0 <= i < |r| :: IsFrozen(r[i])
  {
    if |r| > 0 {
      FullIffCountIsWidth(r[1..]);
      if IsFrozen(r[0]) {
        forall i | 0 <= i < |r| - 1
          ensures r[1..][i] == r[i + 1]
        {
        }
        assert (forall i | 0 <= i < |r| :: IsFrozen(r[i]))
          <==> (forall i | 0 <= i < |r| - 1 :: IsFrozen(r[1..][i]));
      }
    }
  }

  lemma {:induction false} FullRowCount(r: seq<int>)
    requires forall i | 0 <= i < |r| :: IsFrozen(r[i])
    ensures RowFrozenCount(r) == |r|
  {
    if |r| > 0 {
      FullRowCount(r[1..]);
    }
  }

  lemma {:induction false} EmptyRowCount(r: seq<int>)
    requires forall i | 0 <= i < |r| :: r[i] == 0
    ensures RowFrozenCount(r) == 0
  {
    if |r| > 0 {
      EmptyRowCount(r[1..]);
    }
  }

  /** Counting and filtering rows distribute over concatenation. */
  lemma {:induction false} RowsAppend(a: seq<Row>, c: seq<Row>)
    ensures NonFullRows(a + c) == NonFullRows(a) + NonFullRows(c)
    ensures FullRows(a + c) == FullRows(a) + FullRows(c)
    ensures FrozenCount(a + c) == FrozenCount(a) + FrozenCount(c)
  {
    if |a| > 0 {
      assert (a + c)[1..] == a[1..] + c;
      RowsAppend(a[1..], c);
    } else {
      assert a + c == c;
    }
  }

  /** A sequence with no full row is its own filtering. */
  lemma {:induction false} NoFullRowsKept(rows: seq<Row>)
    requires forall i | 0 <= i < |rows| :: !Full(rows[i])
    ensures NonFullRows(rows) == rows
  {
    if |rows| > 0 {
      NoFullRowsKept(rows[1..]);
    }
  }

  lemma EmptyRowNotFull()
    ensures !Full(EmptyRow)
    ensures RowFrozenCount(EmptyRow) == 0
  {
    assert !IsFrozen(EmptyRow[0]);
    EmptyRowCount(EmptyRow);
  }

  /** Dropping a full row from between a and c. */
  lemma DropFullRow(a: seq<Row>, full: Row, c: seq<Row>)
    requires Full(full)
    ensures NonFullRows(a + [full] + c) == NonFullRows(a) + NonFullRows(c)
    ensures FullRows(a + [full] + c) == FullRows(a) + 1 + FullRows(c)
    ensures FrozenCount(a + [full] + c) == FrozenCount(a) + W + FrozenCount(c)
  {
    RowsAppend(a + [full], c);
    RowsAppend(a, [full]);
    FullRowCount(full);
    assert [full][1..] == [];
  }

  /** Putting an empty row in front of a and c. */
  lemma PrependEmptyRow(a: seq<Row>, c: seq<Row>)
    ensures NonFullRows([EmptyRow] + a + c) == [EmptyRow] + (NonFullRows(a) + NonFullRows(c))
    ensures FullRows([EmptyRow] + a + c) == FullRows(a) + FullRows(c)
    ensures FrozenCount([EmptyRow] + a + c) == FrozenCount(a) + FrozenCount(c)
  {
    assert [EmptyRow] + a + c == [EmptyRow] + (a + c);
    RowsAppend([EmptyRow], a + c);
    RowsAppend(a, c);
    EmptyRowNotFull();
    assert [EmptyRow][1..] == [];
  }

  /** Replacing the full row between a and c by an empty row on top. */
  lemma ShiftStep(a: seq<Row>, full: Row, c: seq<Row>)
    requires Full(full)
    ensures NonFullRows([EmptyRow] + a + c) == [EmptyRow] + NonFullRows(a + [full] + c)
    ensures FullRows([EmptyRow] + a + c) + 1 == FullRows(a + [full] + c)
    ensures FrozenCount([EmptyRow] + a + c) + W == FrozenCount(a + [full] + c)
  {
    DropFullRow(a, full, c);
    PrependEmptyRow(a, c);
  }

  /** Removing a full row and adding an empty one on top puts one more empty row
      in front of the kept rows, removes one full row, and removes exactly W
      frozen cells. */
  lemma ShiftRemovesFullRow(g: seq<Row>, row: int, g2: seq<Row>)
    requires 0 <= row < |g| && Full(g[row])
    requires g2 == [EmptyRow] + g[..row] + g[row + 1..]
    ensures NonFullRows(g2) == [EmptyRow] + NonFullRows(g)
    ensures FullRows(g2) + 1 == FullRows(g)
    ensures FrozenCount(g2) + W == FrozenCount(g)
  {
    var a, c := g[..row], g[row + 1..];
    assert g == a + [g[row]] + c;
    ShiftStep(a, g[row], c);
  }

  /** One more empty row in front of the padded kept rows is one more row of padding. */
  lemma PadCons(n: nat, kept: seq<Row>, g: seq<Row>, g2: seq<Row>)
    requires NonFullRows(g) == Pad(n) + kept
    requires NonFullRows(g2) == [EmptyRow] + NonFullRows(g)
    ensures NonFullRows(g2) == Pad(n + 1) + kept
  {
    assert [EmptyRow] + Pad(n) == Pad(n + 1);
    assert [EmptyRow] + (Pad(n) + kept) == ([EmptyRow] + Pad(n)) + kept;
  }

  /** Shape of the reference result: the k = FullRows(b) top rows are empty,
      the rest are the non-full rows of b in order, and no row is full. */
  lemma CompactedShape(b: Board)
    ensures forall i | 0 <= i < FullRows(b) :: Compacted(b)[i] == EmptyRow
    ensures Compacted(b)[FullRows(b)..] == NonFullRows(b)
    ensures forall i | 0 <= i < H :: !Full(Compacted(b)[i])
  {
    EmptyRowNotFull();
    NonFullRowsNotFull(b);
    NonFullRowsCount(b);
    var k := FullRows(b);
    assert Compacted(b)[k..] == NonFullRows(b);
  }

  /** Filtering out the full rows removes exactly W frozen cells per full row. */
  lemma {:induction false} NonFullRowsFrozen(rows: seq<Row>)
    ensures FrozenCount(NonFullRows(rows)) + W * FullRows(rows) == FrozenCount(rows)
  {
    if |rows| > 0 {
      NonFullRowsFrozen(rows[1..]);
      if Full(rows[0]) {
        FullRowCount(rows[0]);
        assert NonFullRows(rows) == NonFullRows(rows[1..]);
      } else {
        RowsAppend([rows[0]], NonFullRows(rows[1..]));
        assert [rows[0]][1..] == [];
      }
    }
  }

  lemma {:induction false} PadFrozen(n: nat)
    ensures FrozenCount(Pad(n)) == 0
  {
    if n > 0 {
      assert Pad(n)[1..] == Pad(n - 1);
      EmptyRowNotFull();
      PadFrozen(n - 1);
    }
  }

  /** Clearing the full lines removes exactly W frozen cells per cleared line and
      leaves every other frozen cell on the grid. */
  lemma ClearedCellCount(b: Board)
    ensures FrozenCount(Compacted(b)) + W * FullRows(b) == FrozenCount(b)
  {
    NonFullRowsCount(b);
    RowsAppend(Pad(FullRows(b)), NonFullRows(b));
    PadFrozen(FullRows(b));
    NonFullRowsFrozen(b);
  }

  /** A grid without full lines is its own cleared result. */
  lemma NothingToClear(g: Board)
    requires forall i | 0 <= i < H :: !Full(g[i])
    ensures FullRows(g) == 0 && Compacted(g) == g
  {
    NoFullRowsKept(g);
    NonFullRowsCount(g);
    assert Pad(0) + g == g;
  }

  /** Clearing is idempotent: a cleared grid has no full line, so clearing it again
      changes nothing. */
  lemma ClearingIsIdempotent(b: Board)
    ensures FullRows(Compacted(b)) == 0
    ensures Compacted(Compacted(b)) == Compacted(b)
  {
    CompactedShape(b);
    NothingToClear(Compacted(b));
  }

  /** The full-row branch of clear_lines: shifting down from a full row leaves the
      rows below it in place and adds an empty row in front of the kept rows
      (ShiftRemovesFullRow states the counts). */
  method RemoveFullRow(g: Board, row: int) returns (g2: Board)
    requires 0 <= row < H && Full(g[row])
    ensures forall i | row < i < H :: g2[i] == g[i]
    ensures NonFullRows(g2) == [EmptyRow] + NonFullRows(g)
  {
    g2 := ShiftDownFrom(g, row);
    ShiftRemovesFullRow(g, row, g2);
  }

  /** clear_lines: scans rows bottom-up; a full row is removed by shifting the rows
      above it down, and the same row index is examined again; each removal adds one
      line and LineBonus points. Terminates because each removal adds one empty row
      to the kept rows, which cannot outnumber the grid's rows, while the row index
      stays put. */
  method ClearLines(b: Board, s: GameState) returns (g: Board, s': GameState)
    ensures g == Compacted(b)
    ensures s'.linesCleared == s.linesCleared + FullRows(b)
    ensures s'.score == s.score + LineBonus * FullRows(b)
    ensures s'.quit == s.quit && s'.gameOver == s.gameOver
  {
    g, s' := b, s;
    ghost var k: nat := 0;
    var row := H - 1;
    while row >= 0
      invariant -1 <= row < H
      invariant NonFullRows(g) == Pad(k) + NonFullRows(b)
      invariant s'.linesCleared == s.linesCleared + k
      invariant s'.score == s.score + LineBonus * k
      invariant s'.quit == s.quit && s'.gameOver == s.gameOver
      invariant forall i | row < i < H :: !Full(g[i])
      decreases row + 1, H - k
    {
      var full := RowIsFull(g[row]);
      if full {
        var g2 := RemoveFullRow(g, row);
        PadCons(k, NonFullRows(b), g, g2);
        g := g2;
        k := k + 1;
        row := row + 1;
        s' := s'.(linesCleared := s'.linesCleared + 1, score := s'.score + LineBonus);
      }
      row := row - 1;
    }
    NoFullRowsKept(g);
    NonFullRowsCount(b);
  }
}
