/** The game-level steps built on the grid and the piece geometry: spawning a
    piece, the game-over test, the landing step (freeze, clear, promote the preview,
    make a new preview, test for game over), game start, and the dispatch of one
    key to a move, a rotation or quitting. The piece type that `rand() % 7` would
    draw, and the key that polling would return, are parameters. */
module Game {
  import opened Cells
  import opened Grid
  import opened Shapes
  import opened Pieces

  /** spawn_new_piece: rotation 0 and, for the preview piece, the grid origin; for a
      falling piece, the horizontally centred column (W - PieceSize) / 2 and row -2. */
  function SpawnNewPiece(kind: PieceType, isPreview: bool): (p: Piece)
    ensures p.kind == kind && p.rotation == 0
    ensures isPreview ==> p.x == 0 && p.y == 0
    ensures !isPreview ==> p.y == -2 && 0 <= (W - (p.x + PieceSize)) - p.x <= 1
  {
    Piece(kind, 0, if isPreview then 0 else (W - PieceSize) / 2, if isPreview then 0 else -2)
  }

  /** Both spawn positions are valid on an empty grid, whatever the shape. */
  lemma SpawnValidOnEmptyBoard(t: Table, kind: PieceType, isPreview: bool)
    ensures Valid(EmptyBoard, t, SpawnNewPiece(kind, isPreview))
  {
    var p := SpawnNewPiece(kind, isPreview);
    forall row, col | 0 <= row < PieceSize && 0 <= col < PieceSize
      ensures !IsCollisionAt(EmptyBoard, p, Cell(row, col))
    {
      var a := Absolute(p, Cell(row, col));
      if 0 <= a.row {
        assert EmptyBoard[a.row][a.col] == 0;
      }
    }
  }

  /** check_game_over: some block of the piece collides where it stands. */
  method CheckGameOver(b: Board, t: Table, p: Piece) returns (over: bool)
    ensures over <==> !Valid(b, t, p)
    ensures over <==> exists row, col | 0 <= row < PieceSize && 0 <= col < PieceSize ::
      PieceHasBlockAt(t, p, Cell(row, col)) && IsCollisionAt(b, p, Cell(row, col))
  {
    var ok := IsValidPosition(b, t, p);
    over := !ok;
  }

  /** init_game without the display set-up and the seeding: an empty grid, a
      falling piece at the spawn position and a preview piece. init_game does not
      touch the game state: its zero counters and cleared flags are the static
      initializer of game_state, and game_loop clears game_over again on entry.
      Neither piece collides. */
  method InitGame(t: Table, b0: Board, currentKind: PieceType, nextKind: PieceType)
    returns (b: Board, s: GameState, current: Piece, next: Piece)
    ensures b == EmptyBoard && s == InitialState
    ensures current == SpawnNewPiece(currentKind, false) && next == SpawnNewPiece(nextKind, true)
    ensures current.kind == currentKind && current.rotation == 0 && current.x == 5 && current.y == -2
    ensures next.kind == nextKind && next.rotation == 0 && next.x == 0 && next.y == 0
    ensures Valid(b, t, current) && Valid(b, t, next)
  {
    b := InitGameGrid(b0);
    current := SpawnNewPiece(currentKind, false);
    next := SpawnNewPiece(nextKind, true);
    s := InitialState;
    SpawnValidOnEmptyBoard(t, currentKind, false);
    SpawnValidOnEmptyBoard(t, nextKind, true);
  }

  /** handle_piece_landing: the current piece is frozen into the grid, full lines
      are cleared and counted, the preview piece becomes the current piece where it
      stands (the preview position, the grid origin), a new preview piece of the
      given type is made, and the game is over exactly when the promoted piece
      collides on the resulting grid. */
  method HandlePieceLanding(t: Table, b: Board, s: GameState, current: Piece, next: Piece,
                            newKind: PieceType, frozenColor: int)
    returns (b': Board, s': GameState, current': Piece, next': Piece)
    ensures b' == Compacted(Stamped(b, t, current, frozenColor))
    ensures forall i | 0 <= i < H :: !Full(b'[i])
    ensures s'.linesCleared == s.linesCleared + FullRows(Stamped(b, t, current, frozenColor))
    ensures s'.score == s.score + LineBonus * FullRows(Stamped(b, t, current, frozenColor))
    ensures s'.quit == s.quit
    ensures current' == next
    ensures next'.kind == newKind && next'.rotation == 0 && next'.x == 0 && next'.y == 0
    ensures s'.gameOver <==> !Valid(b', t, current')
  {
    var frozen := FreezePiece(b, t, current, frozenColor);
    BoardsEqual(frozen, Stamped(b, t, current, frozenColor));
    b', s' := ClearLines(frozen, s);
    CompactedShape(frozen);
    current' := next;
    next' := SpawnNewPiece(newKind, true);
    var over := CheckGameOver(b', t, current');
    s' := s'.(gameOver := over);
  }

  /** The keys handle_input distinguishes; any other key is ignored. */
  datatype Key = Left | Right | Down | Space | Escape | Return | OtherKey

  /** handle_input for one polled key: the arrows try a one-cell move, space tries
      a rotation, Escape and Return ask to quit. */
  function HandleInput(b: Board, t: Table, s: GameState, p: Piece, key: Key): (r: (GameState, Piece))
    ensures r.0 == if key == Escape || key == Return then s.(quit := true) else s
    ensures r.1.kind == p.kind
    ensures key == Left ==> r.1 == p || r.1 == p.(x := p.x - 1)
    ensures key == Right ==> r.1 == p || r.1 == p.(x := p.x + 1)
    ensures key == Down ==> r.1 == p || r.1 == p.(y := p.y + 1)
    ensures key == Space ==> r.1 == p || PivotRotationOf(t, p, r.1)
    ensures key == Escape || key == Return || key == OtherKey ==> r.1 == p
    ensures key == Left ==> (r.1 == p.(x := p.x - 1) <==> Valid(b, t, p.(x := p.x - 1)))
    ensures key == Right ==> (r.1 == p.(x := p.x + 1) <==> Valid(b, t, p.(x := p.x + 1)))
    ensures key == Down ==> (r.1 == p.(y := p.y + 1) <==> Valid(b, t, p.(y := p.y + 1)))
    ensures key == Space ==> forall q | PivotRotationOf(t, p, q) :: r.1 == q <==> Valid(b, t, q)
    ensures Valid(b, t, p) ==> Valid(b, t, r.1)
  {
    match key
    case Left => (s, MovePiece(b, t, p, Vector(-1, 0)).1)
    case Right => (s, MovePiece(b, t, p, Vector(1, 0)).1)
    case Down => (s, MovePiece(b, t, p, Vector(0, 1)).1)
    case Space => (s, RotatePieceAroundPivot(b, t, p))
    case Escape => (s.(quit := true), p)
    case Return => (s.(quit := true), p)
    case OtherKey => (s, p)
  }
}
