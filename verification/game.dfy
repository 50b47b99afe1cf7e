/** The game loop: state, construction, hard drop, and one iteration of the
    main loop as a pure step function. Keyboard polling and the random piece
    draw are parameters of the step. */
module GameLoop {
  import opened Pieces
  import opened Board

  /** Column of a freshly spawned piece's matrix, centring it. */
  const SpawnX := Width / 2 - 2
  const SpawnY := 0

  /** Gravity moves the piece once every this many loop iterations. */
  const GravityInterval := 10

  /** Horizontal offsets tried, in order, when a rotation does not fit. */
  const Kicks: seq<int> := [-1, 1, -2, 2, -3, 3]

  /** The loop's state. `board` is the grid as left by the last iteration,
      with the falling piece drawn into it as overlay cells. */
  datatype Game = Game(board: Grid, current: Tetromino, next: Tetromino, gameOver: bool, tick: nat)

  /** What keyboard polling yields in one iteration: nothing, or one key. */
  datatype Input = NoKey | Key(c: char)

  /** `next` placed at the spawn anchor. */
  function Spawn(t: Tetromino): (r: Tetromino)
    ensures r.shape == t.shape && r.x == SpawnX && r.y == SpawnY
  {
    t.(x := SpawnX, y := SpawnY)
  }

  /** The state built by the constructor from the two random draws. */
  function NewGame(first: ShapeIndex, second: ShapeIndex): (s: Game)
    ensures s.current == Tetromino(Templates[first], 3, 0)
    ensures s.next == Tetromino(Templates[second], 0, 0)
    ensures !s.gameOver && s.tick == 0
    ensures forall y, x :: 0 <= y < Height && 0 <= x < Width ==> s.board[y][x] == Empty
  {
    Game(EmptyGrid(), Spawn(CreatePiece(first)), CreatePiece(second), false, 0)
  }

  /** Every template fits at the spawn anchor of an empty board. */
  lemma SpawnFitsEmptyBoard(k: ShapeIndex)
    ensures !Collides(EmptyGrid(), Spawn(CreatePiece(k)))
  {
    CollidesIff(EmptyGrid(), Spawn(CreatePiece(k)));
  }

  function Shift(t: Tetromino, dx: int, dy: int): Tetromino {
    t.(x := t.x + dx, y := t.y + dy)
  }

  /** The translation keys and their (dx, dy). */
  const Moves: map<char, (int, int)> := map['a' := (-1, 0), 'd' := (1, 0), 's' := (0, 1)]

  /** A translation is committed only when the moved piece fits. */
  function TryMove(g: Grid, t: Tetromino, dx: int, dy: int): (r: Tetromino)
    ensures !Collides(g, Shift(t, dx, dy)) ==> r == Shift(t, dx, dy)
    ensures Collides(g, Shift(t, dx, dy)) ==> r == t
  {
    var moved := Shift(t, dx, dy);
    if Collides(g, moved) then t else moved
  }

  /** The rotated candidate shifted by the kick at position `m` of `Kicks`. */
  function Kicked(rot: Tetromino, m: int): Tetromino
    requires 0 <= m < |Kicks|
  {
    Shift(rot, Kicks[m], 0)
  }

  /** The position of the first kick from `k` on whose candidate fits, or
      `|Kicks|` when none does. */
  function FirstKick(g: Grid, rot: Tetromino, k: nat): (m: nat)
    requires k <= |Kicks|
    ensures k <= m <= |Kicks|
    ensures m < |Kicks| ==> !Collides(g, Kicked(rot, m))
    ensures forall m' :: k <= m' < m ==> Collides(g, Kicked(rot, m'))
    decreases |Kicks| - k
  {
    if k == |Kicks| then k
    else if !Collides(g, Kicked(rot, k)) then k
    else FirstKick(g, rot, k + 1)
  }

  /** Rotation with wall kicks: the plain rotation if it fits, else the first
      kicked rotation in `Kicks` order that fits, else the piece unchanged. */
  function RotateWithKicks(g: Grid, t: Tetromino): (r: Tetromino)
    ensures !Collides(g, RotatePiece(t)) ==> r == RotatePiece(t)
    ensures Collides(g, RotatePiece(t)) ==>
      forall m :: 0 <= m < |Kicks| && !Collides(g, Kicked(RotatePiece(t), m)) &&
                  (forall m' :: 0 <= m' < m ==> Collides(g, Kicked(RotatePiece(t), m')))
                  ==> r == Kicked(RotatePiece(t), m)
    ensures Collides(g, RotatePiece(t)) && (forall m :: 0 <= m < |Kicks| ==> Collides(g, Kicked(RotatePiece(t), m))) ==>
      r == t
    ensures r == t || !Collides(g, r)
    ensures Ones(r.shape) == Ones(t.shape)
  {
    RotatePreservesCells(t.shape);
    var rot := RotatePiece(t);
    if !Collides(g, rot) then rot
    else
      var m := FirstKick(g, rot, 0);
      if m < |Kicks| then Kicked(rot, m) else t
  }

  /** The hard-drop landing position: the piece moves down row by row while
      the next row still fits. It stops at the first row from which one
      more step down collides. An empty shape would never stop; the source
      only ever drops tetrominoes. */
  function DropTarget(g: Grid, t: Tetromino): (r: Tetromino)
    requires Ones(t.shape) > 0
    ensures r.shape == t.shape && r.x == t.x && r.y >= t.y
    ensures Collides(g, Shift(r, 0, 1))
    decreases Height - t.y
  {
    var below := Shift(t, 0, 1);
    if Collides(g, below) then t
    else
      FitsAboveFloor(g, below);
      DropTarget(g, below)
  }

  /** Every row the hard drop passes on the way down, the landing row
      included, fits. */
  lemma {:induction false} DropPathFits(g: Grid, t: Tetromino, y: int)
    requires Ones(t.shape) > 0
    requires t.y < y <= DropTarget(g, t).y
    ensures !Collides(g, Tetromino(t.shape, t.x, y))
    decreases Height - t.y
  {
    var below := Shift(t, 0, 1);
    assert !Collides(g, below);
    FitsAboveFloor(g, below);
    if y > below.y {
      DropPathFits(g, below, y);
    }
  }

  /** The whole drop path at once: every row strictly below the start, down
      to the landing row, fits. */
  lemma DropPathAllFits(g: Grid, t: Tetromino)
    requires Ones(t.shape) > 0
    ensures forall y :: t.y < y <= DropTarget(g, t).y ==> !Collides(g, Tetromino(t.shape, t.x, y))
  {
    forall y | t.y < y <= DropTarget(g, t).y
      ensures !Collides(g, Tetromino(t.shape, t.x, y))
    {
      DropPathFits(g, t, y);
    }
  }

  /** A piece that fits before the drop fits where it lands. */
  lemma DropLandsFitting(g: Grid, t: Tetromino)
    requires Ones(t.shape) > 0
    ensures !Collides(g, t) ==> !Collides(g, DropTarget(g, t))
  {
    var landed := DropTarget(g, t);
    if landed.y > t.y {
      DropPathFits(g, t, landed.y);
    }
  }

  /** A non-empty piece that fits has its anchor row above the floor. */
  lemma FitsAboveFloor(g: Grid, t: Tetromino)
    requires Ones(t.shape) > 0 && !Collides(g, t)
    ensures t.y < Height
  {
    CollidesIff(g, t);
    OccupiedCellExists(t.shape);
    var i, j :| 0 <= i < 4 && 0 <= j < 4 && t.shape[i][j] == 1;
    assert !Hits(g, t, i, j);
  }

  /** The outcome of a hard drop: the grid afterwards and where the piece landed. */
  datatype Dropped = Dropped(grid: Grid, landed: Tetromino)

  /** Hard drop: the piece falls straight down to the first row from which
      one more step would collide, is locked there, and full rows are
      removed. A piece that fits lands on a position that fits. */
  function HardDrop(g: Grid, t: Tetromino): (r: Dropped)
    requires Ones(t.shape) > 0
    ensures r.landed.shape == t.shape && r.landed.x == t.x && r.landed.y >= t.y
    ensures Collides(g, Shift(r.landed, 0, 1))
    ensures forall y :: t.y < y <= r.landed.y ==> !Collides(g, Tetromino(t.shape, t.x, y))
    ensures !Collides(g, t) ==> !Collides(g, r.landed)
    ensures r.grid == ClearLines(Lock(g, r.landed)).grid
  {
    var landed := DropTarget(g, t);
    DropPathAllFits(g, t);
    DropLandsFitting(g, t);
    Dropped(ClearLines(Lock(g, landed)).grid, landed)
  }

  /** The respawn: `next` becomes the current piece at the spawn anchor, a
      new `next` is drawn, and the game is over once the spawned piece does
      not fit. The flag is only ever raised, never lowered. */
  function Respawn(s: Game, draw: ShapeIndex): (r: Game)
    ensures r.current == Tetromino(s.next.shape, 3, 0) && r.next == CreatePiece(draw)
    ensures r.gameOver <==> s.gameOver || Collides(s.board, r.current)
    ensures r.board == s.board && r.tick == s.tick
  {
    var spawned := Spawn(s.next);
    s.(current := spawned, next := CreatePiece(draw), gameOver := s.gameOver || Collides(s.board, spawned))
  }

  /** Applies one key to a state whose `board` holds no overlay. Movement
      and rotation change only the current piece; a hard drop locks the
      piece where it lands, removes full rows and respawns. */
  function HandleKey(s: Game, c: char, draw: ShapeIndex): (r: Game)
    requires Ones(s.current.shape) > 0
    ensures c !in Moves && c != 'w' && c != ' ' ==> r == s
    ensures c in Moves ==> r == s.(current := r.current)
    ensures c in Moves ==>
      var moved := Shift(s.current, Moves[c].0, Moves[c].1);
      (!Collides(s.board, moved) ==> r.current == moved) && (Collides(s.board, moved) ==> r.current == s.current)
    ensures c == 'w' ==> r == s.(current := RotateWithKicks(s.board, s.current))
    ensures c == ' ' ==>
      && r.board == HardDrop(s.board, s.current).grid
      && r.current == Tetromino(s.next.shape, 3, 0) && r.next == CreatePiece(draw) && r.tick == s.tick
      && (r.gameOver <==> s.gameOver || Collides(r.board, r.current))
    // what the loop relies on
    ensures !s.gameOver && !Collides(s.board, s.current) && !r.gameOver ==> !Collides(r.board, r.current)
    ensures NoFalling(s.board) ==> NoFalling(r.board)
    ensures Ones(s.current.shape) == 4 && Ones(s.next.shape) == 4 ==>
      Ones(r.current.shape) == 4 && Ones(r.next.shape) == 4
  {
    if c in Moves then s.(current := TryMove(s.board, s.current, Moves[c].0, Moves[c].1))
    else if c == 'w' then s.(current := RotateWithKicks(s.board, s.current))
    else if c == ' ' then Respawn(s.(board := HardDrop(s.board, s.current).grid), draw)
    else s
  }

  /** Gravity on a state whose `board` holds no overlay: on every tenth tick
      the piece moves down one row if that fits; otherwise it is locked, full
      rows are removed and the next piece spawns, all in the same iteration. */
  function Gravity(s: Game, draw: ShapeIndex): (r: Game)
    ensures s.tick % GravityInterval != 0 ==> r == s
    ensures s.tick % GravityInterval == 0 && !Collides(s.board, Shift(s.current, 0, 1)) ==>
      r == s.(current := Shift(s.current, 0, 1))
    ensures s.tick % GravityInterval == 0 && Collides(s.board, Shift(s.current, 0, 1)) ==>
      && r.board == ClearLines(Lock(s.board, s.current)).grid
      && r.current == Tetromino(s.next.shape, 3, 0) && r.next == CreatePiece(draw) && r.tick == s.tick
      && (r.gameOver <==> s.gameOver || Collides(r.board, r.current))
    // what the loop relies on
    ensures !s.gameOver && !Collides(s.board, s.current) && !r.gameOver ==> !Collides(r.board, r.current)
    ensures s.gameOver ==> r.gameOver
    ensures NoFalling(s.board) ==> NoFalling(r.board)
    ensures Ones(s.current.shape) == 4 && Ones(s.next.shape) == 4 ==>
      Ones(r.current.shape) == 4 && Ones(r.next.shape) == 4
  {
    if s.tick % GravityInterval != 0 then s
    else
      var below := Shift(s.current, 0, 1);
      if !Collides(s.board, below) then s.(current := below)
      else Respawn(s.(board := ClearLines(Lock(s.board, s.current)).grid), draw)
  }

  /** The part of one loop iteration before drawing: the overlay is removed,
      at most one key is applied and gravity runs. A hard drop and a gravity
      lock can both respawn in the same iteration: `first` is the draw for
      the first respawn, `second` for the one after a hard drop. Gravity
      still runs in an iteration whose hard drop ended the game. */
  function Settle(s: Game, input: Input, first: ShapeIndex, second: ShapeIndex): (r: Game)
    requires Ones(s.current.shape) > 0
    ensures NoFalling(r.board) && r.tick == s.tick
    ensures !s.gameOver && !Collides(ClearPiece(s.board), s.current) && !r.gameOver ==>
      !Collides(r.board, r.current)
    ensures Ones(s.current.shape) == 4 && Ones(s.next.shape) == 4 ==>
      Ones(r.current.shape) == 4 && Ones(r.next.shape) == 4
  {
    var s0 := s.(board := ClearPiece(s.board));
    var s1 := match input
      case NoKey => s0
      case Key(c) => HandleKey(s0, c, first);
    assert NoFalling(s1.board) && s1.tick == s.tick;
    assert !s.gameOver && !Collides(s0.board, s0.current) && !s1.gameOver ==> !Collides(s1.board, s1.current);
    Gravity(s1, if input == Key(' ') then second else first)
  }

  /** One iteration of the main loop: `Settle`, then the current piece is
      drawn as overlay and the tick advances. */
  function Step(s: Game, input: Input, first: ShapeIndex, second: ShapeIndex): (r: Game)
    requires !s.gameOver && Ones(s.current.shape) > 0
    ensures r.tick == s.tick + 1
  {
    var s2 := Settle(s, input, first, second);
    s2.(board := DrawPiece(s2.board, s2.current), tick := s2.tick + 1)
  }

  /** What holds at the top of every loop iteration: both pieces are
      tetrominoes, and while the game runs the current piece fits the grid
      that remains once the overlay is removed. */
  predicate Invariant(s: Game) {
    && Ones(s.current.shape) == 4 && Ones(s.next.shape) == 4
    && (!s.gameOver ==> !Collides(ClearPiece(s.board), s.current))
  }

  /** The constructor establishes the invariant. */
  lemma NewGameInvariant(first: ShapeIndex, second: ShapeIndex)
    ensures Invariant(NewGame(first, second))
  {
    ClearPieceNoFalling(EmptyGrid());
    SpawnFitsEmptyBoard(first);
  }

  /** Each iteration keeps the invariant. While the game runs, the grid it
      leaves is the overlay-free grid with exactly the current piece drawn. */
  lemma StepPreservesInvariant(s: Game, input: Input, first: ShapeIndex, second: ShapeIndex)
    requires Invariant(s) && !s.gameOver
    ensures Invariant(Step(s, input, first, second))
    ensures var r := Step(s, input, first, second);
      !r.gameOver ==> ClearPiece(r.board) == Settle(s, input, first, second).board &&
                      r.board == DrawPiece(ClearPiece(r.board), r.current)
  {
    var s2 := Settle(s, input, first, second);
    var r := Step(s, input, first, second);
    if !r.gameOver {
      assert !Collides(s2.board, s2.current);
      DrawThenClear(s2.board, s2.current);
    }
  }

  /** The main loop from state `s`: one iteration per input while the game
      is not over; `draws[k]` are the two random draws available to
      iteration `k`. */
  function Play(s: Game, inputs: seq<Input>, draws: seq<(ShapeIndex, ShapeIndex)>): (r: Game)
    requires Invariant(s) && |draws| == |inputs|
    ensures Invariant(r)
    ensures s.tick <= r.tick <= s.tick + |inputs|
    ensures !r.gameOver ==> r.tick == s.tick + |inputs|
    ensures s.gameOver ==> r == s
    decreases |inputs|
  {
    if s.gameOver || |inputs| == 0 then s
    else
      StepPreservesInvariant(s, inputs[0], draws[0].0, draws[0].1);
      Play(Step(s, inputs[0], draws[0].0, draws[0].1), inputs[1..], draws[1..])
  }

  /** A whole session: construct the game from two draws, then run the loop. */
  function Run(first: ShapeIndex, second: ShapeIndex, inputs: seq<Input>, draws: seq<(ShapeIndex, ShapeIndex)>): (r: Game)
    requires |draws| == |inputs|
    ensures Invariant(r)
    ensures !r.gameOver ==> r.tick == |inputs|
  {
    NewGameInvariant(first, second);
    Play(NewGame(first, second), inputs, draws)
  }
}
