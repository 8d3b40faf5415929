/** A placed piece and its geometry against the grid: the per-cell collision rule,
    whole-piece validity, guarded translation, rotation about the pivot cell, and
    stamping a landed piece into the grid. */
module Pieces {
  import opened Cells
  import opened Grid
  import opened Shapes

  /** A piece: its shape variant and the grid position (column x, row y) of the
      top-left corner of its 4 x 4 box; y is negative while it enters from above. */
  datatype Piece = Piece(kind: PieceType, rotation: Rotation, x: int, y: int)

  /** A displacement in columns (dx) and rows (dy). */
  datatype Vector = Vector(dx: int, dy: int)

  /** piece_has_block_at: the piece's shape has a block at box cell c, that is a
      plain block (1) or the pivot (2); position plays no part. */
  function PieceHasBlockAt(t: Table, p: Piece, c: Cell): (hasBlock: bool)
    requires InBox(c)
    ensures hasBlock <==> t[p.kind][p.rotation][c.row][c.col] == 1 || t[p.kind][p.rotation][c.row][c.col] == 2
  {
    IsBlock(t[p.kind][p.rotation][c.row][c.col])
  }

  /** The grid cell under box cell c of p. */
  function Absolute(p: Piece, c: Cell): Cell {
    Cell(p.y + c.row, p.x + c.col)
  }

  /** is_collision_at: box cell c of p, placed on the grid, lies left or right of
      the grid, below its last row, or on a frozen cell; rows above the top are free. */
  function IsCollisionAt(b: Board, p: Piece, c: Cell): (hit: bool)
    ensures var a := Absolute(p, c);
      hit <==> (a.col < 0 || W <= a.col || H <= a.row || (0 <= a.row && IsFrozen(b[a.row][a.col])))
    ensures var a := Absolute(p, c); 0 <= a.col < W && a.row < 0 ==> !hit
  {
    var gridColumn := p.x + c.col;
    var gridRow := p.y + c.row;
    if gridColumn < 0 || gridColumn >= W || gridRow >= H then true
    else if gridRow >= 0 && IsCellFrozen(b, Cell(gridRow, gridColumn)) then true
    else false
  }

  /** No block of the piece collides. */
  predicate Valid(b: Board, t: Table, p: Piece) {
    forall row, col | 0 <= row < PieceSize && 0 <= col < PieceSize ::
      PieceHasBlockAt(t, p, Cell(row, col)) ==> !IsCollisionAt(b, p, Cell(row, col))
  }

  /** is_valid_position: scans the box row by row and rejects at the first block
      that collides. */
  method IsValidPosition(b: Board, t: Table, p: Piece) returns (ok: bool)
    ensures ok <==> Valid(b, t, p)
    ensures ok <==> forall row, col | 0 <= row < PieceSize && 0 <= col < PieceSize && PieceHasBlockAt(t, p, Cell(row, col)) ::
      var a := Absolute(p, Cell(row, col));
      0 <= a.col < W && a.row < H && (0 <= a.row ==> !IsFrozen(b[a.row][a.col]))
  {
    var row := 0;
    while row < PieceSize
      invariant 0 <= row <= PieceSize
      invariant forall i, j | 0 <= i < row && 0 <= j < PieceSize ::
        PieceHasBlockAt(t, p, Cell(i, j)) ==> !IsCollisionAt(b, p, Cell(i, j))
    {
      var col := 0;
      while col < PieceSize
        invariant 0 <= col <= PieceSize
        invariant forall i, j | 0 <= i < row && 0 <= j < PieceSize ::
          PieceHasBlockAt(t, p, Cell(i, j)) ==> !IsCollisionAt(b, p, Cell(i, j))
        invariant forall j | 0 <= j < col ::
          PieceHasBlockAt(t, p, Cell(row, j)) ==> !IsCollisionAt(b, p, Cell(row, j))
      {
        var cell := Cell(row, col);
        if PieceHasBlockAt(t, p, cell) {
          if IsCollisionAt(b, p, cell) {
            return false;
          }
        }
        col := col + 1;
      }
      row := row + 1;
    }
    return true;
  }

  /** find_rotation_center: scans the piece's variant row by row for the pivot. */
  function FindRotationCenter(t: Table, p: Piece): (c: Cell)
    ensures InBox(c)
  {
    PivotFrom(t[p.kind][p.rotation], 0, 0)
  }

  /** The rotation centre is the first pivot entry of the variant in row-major
      order, or (0, 0) when the variant has no pivot at all. */
  lemma FindRotationCenterIsFirstPivot(t: Table, p: Piece)
    ensures var v, c := t[p.kind][p.rotation], FindRotationCenter(t, p);
      || (&& IsPivot(v[c.row][c.col])
          && forall i, j | 0 <= i < PieceSize && 0 <= j < PieceSize && ScannedBefore(Cell(i, j), c.row, c.col)
               :: !IsPivot(v[i][j]))
      || (&& c == Cell(0, 0)
          && forall i, j | 0 <= i < PieceSize && 0 <= j < PieceSize :: !IsPivot(v[i][j]))
  {
    PivotFromFindsFirst(t[p.kind][p.rotation], 0, 0);
  }

  /** When a variant has exactly one pivot, that is the rotation centre. */
  lemma UniquePivotIsCenter(t: Table, p: Piece, pivot: Cell)
    requires InBox(pivot) && IsPivot(t[p.kind][p.rotation][pivot.row][pivot.col])
    requires forall i, j | 0 <= i < PieceSize && 0 <= j < PieceSize && IsPivot(t[p.kind][p.rotation][i][j]) ::
      Cell(i, j) == pivot
    ensures FindRotationCenter(t, p) == pivot
  {
    FindRotationCenterIsFirstPivot(t, p);
  }

  /** Grid position of the piece's rotation centre. */
  function AbsolutePivot(t: Table, p: Piece): Cell {
    Absolute(p, FindRotationCenter(t, p))
  }

  /** q is p turned to its next rotation state with the rotation centre kept on the
      same grid cell. */
  predicate PivotRotationOf(t: Table, p: Piece, q: Piece) {
    && q.kind == p.kind
    && q.rotation == (p.rotation + 1) % 4
    && AbsolutePivot(t, q) == AbsolutePivot(t, p)
  }

  /** rotate_piece_around_pivot: the next rotation state, shifted so that the pivot
      stays on its grid cell, is committed when it is valid; otherwise the piece is
      left as it was. */
  function RotatePieceAroundPivot(b: Board, t: Table, p: Piece): (r: Piece)
    ensures r == p || (PivotRotationOf(t, p, r) && Valid(b, t, r))
    ensures forall q | PivotRotationOf(t, p, q) :: Valid(b, t, q) <==> r == q
    ensures Valid(b, t, p) ==> Valid(b, t, r)
  {
    var turned := p.(rotation := (p.rotation + 1) % 4);
    var currentPivot := FindRotationCenter(t, p);
    var newPivot := FindRotationCenter(t, turned);
    var horizontalShift := currentPivot.col - newPivot.col;
    var verticalShift := currentPivot.row - newPivot.row;
    var candidate := turned.(x := turned.x + horizontalShift, y := turned.y + verticalShift);
    assert PivotRotationOf(t, p, candidate);
    assert forall q | PivotRotationOf(t, p, q) :: q == candidate by {
      forall q | PivotRotationOf(t, p, q)
        ensures q == candidate
      {
        assert FindRotationCenter(t, q) == newPivot;
      }
    }
    if Valid(b, t, candidate) then candidate else p
  }

  /** The rotation attempt changes the piece. */
  predicate Commits(b: Board, t: Table, p: Piece) {
    RotatePieceAroundPivot(b, t, p) != p
  }

  /** A committed rotation advances one rotation state and keeps the pivot in place. */
  lemma CommittedRotation(b: Board, t: Table, p: Piece)
    requires Commits(b, t, p)
    ensures PivotRotationOf(t, p, RotatePieceAroundPivot(b, t, p))
  {
  }

  /** Each piece of ps is a pivot rotation of the one before it. */
  predicate PivotChain(t: Table, ps: seq<Piece>)
    decreases |ps|
  {
    |ps| <= 1 || (PivotRotationOf(t, ps[0], ps[1]) && PivotChain(t, ps[1..]))
  }

  /** Along a chain of n pivot rotations the piece type is kept, the rotation state
      advances by n modulo 4 and the rotation centre stays on the same grid cell. */
  lemma {:induction false} PivotChainInvariant(t: Table, ps: seq<Piece>)
    requires |ps| >= 1 && PivotChain(t, ps)
    ensures ps[|ps| - 1].kind == ps[0].kind
    ensures ps[|ps| - 1].rotation == (ps[0].rotation + |ps| - 1) % 4
    ensures AbsolutePivot(t, ps[|ps| - 1]) == AbsolutePivot(t, ps[0])
    decreases |ps|
  {
    if |ps| > 1 {
      var rest := ps[1..];
      assert rest[0] == ps[1] && rest[|rest| - 1] == ps[|ps| - 1];
      assert PivotRotationOf(t, ps[0], ps[1]) && PivotChain(t, rest);
      PivotChainInvariant(t, rest);
      RotationAdvance(ps[0].rotation, ps[1].rotation, |ps| - 2, ps[|ps| - 1].rotation);
    }
  }

  /** One more step of the rotation counter modulo 4. */
  lemma RotationAdvance(r: Rotation, next: Rotation, k: nat, last: Rotation)
    requires next == (r + 1) % 4 && last == (next + k) % 4
    ensures last == (r + k + 1) % 4
  {
    if r == 3 {
      assert (4 + k) % 4 == k % 4;
    }
  }

  /** Four pivot rotations in a row, as four committed rotation attempts produce
      (CommittedRotation), bring the piece back exactly where it started. */
  lemma FourRotationsRestore(t: Table, p: Piece, p1: Piece, p2: Piece, p3: Piece, p4: Piece)
    requires PivotRotationOf(t, p, p1) && PivotRotationOf(t, p1, p2)
    requires PivotRotationOf(t, p2, p3) && PivotRotationOf(t, p3, p4)
    ensures p4 == p
  {
    var ps := [p, p1, p2, p3, p4];
    assert PivotChain(t, ps[3..]);
    assert PivotChain(t, ps[2..]);
    assert PivotChain(t, ps[1..]);
    PivotChainInvariant(t, ps);
    assert ps[|ps| - 1] == p4 && ps[0] == p;
    FullTurn(p.rotation, p4.rotation);
    SameVariantSameCenter(t, p4, p);
  }

  /** Four rotation attempts in a row restore the piece, unless one of them was
      refused and left its piece unchanged. */
  lemma FourCommittedRotationsRestore(b: Board, t: Table, p: Piece)
    ensures var p1 := RotatePieceAroundPivot(b, t, p);
            var p2 := RotatePieceAroundPivot(b, t, p1);
            var p3 := RotatePieceAroundPivot(b, t, p2);
            var p4 := RotatePieceAroundPivot(b, t, p3);
            p1 == p || p2 == p1 || p3 == p2 || p4 == p3 || p4 == p
  {
    var p1 := RotatePieceAroundPivot(b, t, p);
    var p2 := RotatePieceAroundPivot(b, t, p1);
    var p3 := RotatePieceAroundPivot(b, t, p2);
    var p4 := RotatePieceAroundPivot(b, t, p3);
    if p1 != p && p2 != p1 && p3 != p2 && p4 != p3 {
      CommittedRotation(b, t, p);
      CommittedRotation(b, t, p1);
      CommittedRotation(b, t, p2);
      CommittedRotation(b, t, p3);
      FourRotationsRestore(t, p, p1, p2, p3, p4);
    }
  }

  lemma FullTurn(r: Rotation, last: Rotation)
    requires last == (r + 5 - 1) % 4
    ensures last == r
  {
  }

  lemma SameVariantSameCenter(t: Table, p: Piece, q: Piece)
    requires p.kind == q.kind && p.rotation == q.rotation
    ensures FindRotationCenter(t, p) == FindRotationCenter(t, q)
  {
  }

  /** move_piece: the piece displaced by v is committed, with result true, when it
      is valid; otherwise the result is false and the piece is unchanged. */
  function MovePiece(b: Board, t: Table, p: Piece, v: Vector): (r: (bool, Piece))
    ensures r.1.kind == p.kind && r.1.rotation == p.rotation
    ensures r.0 ==> r.1.x == p.x + v.dx && r.1.y == p.y + v.dy && Valid(b, t, r.1)
    ensures !r.0 ==> r.1 == p
    ensures Valid(b, t, p.(x := p.x + v.dx, y := p.y + v.dy)) ==> r.0
    ensures Valid(b, t, p) ==> Valid(b, t, r.1)
  {
    var moved := p.(x := p.x + v.dx, y := p.y + v.dy);
    if Valid(b, t, moved) then (true, moved) else (false, p)
  }

  /** A committed move of a valid piece is undone by the opposite move. */
  lemma MoveUndo(b: Board, t: Table, p: Piece, v: Vector)
    requires Valid(b, t, p) && MovePiece(b, t, p, v).0
    ensures MovePiece(b, t, MovePiece(b, t, p, v).1, Vector(-v.dx, -v.dy)) == (true, p)
  {
    var q := MovePiece(b, t, p, v).1;
    assert q.(x := q.x - v.dx, y := q.y - v.dy) == p;
  }

  /** A move that would put a block beside the grid or below its last row fails,
      whatever the grid holds: in particular moving left when a block is in column 0. */
  lemma MoveOffGridFails(b: Board, t: Table, p: Piece, v: Vector, c: Cell)
    requires InBox(c) && PieceHasBlockAt(t, p, c)
    requires var a := Absolute(p, c);
      a.col + v.dx < 0 || W <= a.col + v.dx || H <= a.row + v.dy
    ensures MovePiece(b, t, p, v) == (false, p)
  {
    var moved := p.(x := p.x + v.dx, y := p.y + v.dy);
    assert PieceHasBlockAt(t, moved, Cell(c.row, c.col)) && IsCollisionAt(b, moved, Cell(c.row, c.col));
  }

  /** The grid cell a lies under a block of p. */
  predicate Covers(t: Table, p: Piece, a: Cell) {
    var local := Cell(a.row - p.y, a.col - p.x);
    InBox(local) && PieceHasBlockAt(t, p, local)
  }

  /** Covers, restricted to box cells that a row-major scan has passed before (row, col). */
  predicate CoveredBefore(t: Table, p: Piece, a: Cell, row: int, col: int) {
    Covers(t, p, a) && ScannedBefore(Cell(a.row - p.y, a.col - p.x), row, col)
  }

  /** The grid with every cell under a block of p set to color. */
  function Stamped(b: Board, t: Table, p: Piece, color: int): Board {
    seq(H, row requires 0 <= row < H =>
      seq(W, col requires 0 <= col < W =>
        if Covers(t, p, Cell(row, col)) then color else b[row][col]))
  }

  /** freeze_piece: each grid cell under a block of the piece takes the frozen
      colour; blocks outside the grid are dropped; every other cell keeps its value. */
  method FreezePiece(b: Board, t: Table, p: Piece, frozenColor: int) returns (g: Board)
    ensures forall row, col | 0 <= row < H && 0 <= col < W ::
      g[row][col] == if Covers(t, p, Cell(row, col)) then frozenColor else b[row][col]
  {
    g := b;
    var row := 0;
    while row < PieceSize
      invariant 0 <= row <= PieceSize
      invariant forall i, j | 0 <= i < H && 0 <= j < W ::
        g[i][j] == if CoveredBefore(t, p, Cell(i, j), row, 0) then frozenColor else b[i][j]
    {
      var col := 0;
      while col < PieceSize
        invariant 0 <= col <= PieceSize
        invariant forall i, j | 0 <= i < H && 0 <= j < W ::
          g[i][j] == if CoveredBefore(t, p, Cell(i, j), row, col) then frozenColor else b[i][j]
      {
        var cell := Cell(row, col);
        if PieceHasBlockAt(t, p, cell) {
          var gridColumn := p.x + cell.col;
          var gridRow := p.y + cell.row;
          if gridRow >= 0 && gridRow < H && gridColumn >= 0 && gridColumn < W {
            g := g[gridRow := g[gridRow][gridColumn := frozenColor]];
          }
        }
        col := col + 1;
      }
      row := row + 1;
    }
  }

  /** Once frozen with a non-zero colour, a piece with a block inside the grid
      is no longer valid where it stands. */
  lemma FrozenPieceBlocksItself(b: Board, t: Table, p: Piece, color: int, c: Cell)
    requires IsFrozen(color)
    requires InBox(c) && PieceHasBlockAt(t, p, c) && InGrid(Absolute(p, c))
    ensures !Valid(Stamped(b, t, p, color), t, p)
  {
    var a := Absolute(p, c);
    assert Cell(a.row - p.y, a.col - p.x) == c;
    assert Stamped(b, t, p, color)[a.row][a.col] == color;
    assert IsCollisionAt(Stamped(b, t, p, color), p, Cell(c.row, c.col));
  }

  /** Freezing a valid piece only fills cells that were empty. */
  lemma FreezeFillsOnlyEmptyCells(b: Board, t: Table, p: Piece, color: int)
    requires Valid(b, t, p)
    ensures forall row, col | 0 <= row < H && 0 <= col < W && Stamped(b, t, p, color)[row][col] != b[row][col] ::
      b[row][col] == 0
  {
    forall row, col | 0 <= row < H && 0 <= col < W && Stamped(b, t, p, color)[row][col] != b[row][col]
      ensures b[row][col] == 0
    {
      var local := Cell(row - p.y, col - p.x);
      assert Covers(t, p, Cell(row, col));
      assert Absolute(p, local) == Cell(row, col);
      assert !IsCollisionAt(b, p, Cell(local.row, local.col));
    }
  }
}
