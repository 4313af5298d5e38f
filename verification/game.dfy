/**
 The game itself: the settled field, the falling piece, score and level,
 and the steps that change them. Every step is a pure function from the
 old state to the new one. The random choice of the next piece is a
 `Draw` passed in by the caller.

 The game has no game-over state: when a freshly spawned piece does not
 fit, `PlaceShape` reports it through its boolean result and play goes on.
 */
module Game {
  import opened Catalog
  import opened Rotation
  import opened Grid
  import opened Scoring
  import opened Lines

  /** The falling piece: its shape as currently turned, its colour, and the field position of its top-left corner. */
  datatype Piece = Piece(shape: Matrix, colour: ColourIndex, x: int, y: int)

  /** The outcome of the random choice of the next piece. */
  datatype Draw = Draw(shape: ShapeIndex, colour: ColourIndex)

  datatype State = State(board: Board, piece: Piece, progress: Progress)

  /** The keys the game reacts to, and everything else. */
  datatype Key = ArrowLeft | ArrowRight | ArrowDown | ArrowUp | OtherKey

  /** The state after a lock, and whether the new piece fits where it spawned. */
  datatype Placed = Placed(state: State, fits: bool)

  /** One input: a key press, or a tick of the game clock (which moves the piece down). */
  datatype Event = Press(key: Key, draw: Draw) | Tick(draw: Draw)

  /** The invariant of every reachable state. */
  predicate Valid(s: State) {
    && WellFormedBoard(s.board)
    && WellFormedShape(s.piece.shape)
    && s.piece.y >= 0
    && InBounds(s.piece.x, s.piece.y, s.piece.shape)
    && Consistent(s.progress)
  }

  /** What the steps need of a state to be defined at all. */
  predicate Placeable(s: State) {
    && Framed(s.board)
    && Rectangular(s.piece.shape)
    && s.piece.y >= 0
    && InBounds(s.piece.x, s.piece.y, s.piece.shape)
  }

  /** Column of a new piece: half the field width less half the shape width, both rounded down. */
  function SpawnX(s: Matrix): int
    requires |s| > 0
  {
    COLS / 2 - Width(s) / 2
  }

  /** A new piece of the drawn shape and colour, centred at the top of the field. */
  function Spawn(d: Draw): (p: Piece)
    ensures p.shape == Shapes[d.shape] && p.colour == d.colour
    ensures WellFormedShape(p.shape)
    ensures p.x == COLS / 2 - Width(p.shape) / 2 && p.y == 0
    ensures InBounds(p.x, p.y, p.shape)
  {
    CatalogShapes(d.shape);
    Piece(Shapes[d.shape], d.colour, SpawnX(Shapes[d.shape]), 0)
  }

  /** A new game: empty field, score 0, level 1, and the drawn piece at its spawn position, where it fits. */
  function Start(d: Draw): (s: State)
    ensures s.piece == Spawn(d)
    ensures Valid(s)
    ensures s.progress.score == 0 && s.progress.level == 1
    ensures forall i, j :: 0 <= i < ROWS && 0 <= j < COLS ==> s.board[i][j] == 0
    ensures !Collides(s.board, s.piece.x, s.piece.y, s.piece.shape)
  {
    var s := State(EmptyBoard(), Spawn(d), Fresh);
    EmptyBoardCollision(s.piece.x, s.piece.y, s.piece.shape);
    s
  }

  /**
   Sideways move by `dx` (-1 for left, +1 for right): taken only when the
   shifted piece does not collide; nothing but the column changes.
   */
  function Shift(s: State, dx: int): (r: State)
    requires Framed(s.board) && s.piece.y >= 0
    requires dx == -1 || dx == 1
    ensures r.board == s.board && r.progress == s.progress
    ensures r.piece.shape == s.piece.shape && r.piece.colour == s.piece.colour && r.piece.y == s.piece.y
    ensures r.piece.x == s.piece.x || r.piece.x == s.piece.x + dx
    ensures r.piece.x == s.piece.x + dx <==> !Collides(s.board, s.piece.x + dx, s.piece.y, s.piece.shape)
  {
    if !Collides(s.board, s.piece.x + dx, s.piece.y, s.piece.shape) then
      s.(piece := s.piece.(x := s.piece.x + dx))
    else
      s
  }

  /**
   Rotation: the piece takes its quarter-turned shape only when that shape
   does not collide at the same position; there is no wall kick.
   */
  function TurnPiece(s: State): (r: State)
    requires Framed(s.board) && s.piece.y >= 0 && Rectangular(s.piece.shape)
    ensures r.board == s.board && r.progress == s.progress
    ensures r.piece.colour == s.piece.colour && r.piece.x == s.piece.x && r.piece.y == s.piece.y
    ensures !Collides(s.board, s.piece.x, s.piece.y, Rotate(s.piece.shape)) ==> r.piece.shape == Rotate(s.piece.shape)
    ensures Collides(s.board, s.piece.x, s.piece.y, Rotate(s.piece.shape)) ==> r.piece.shape == s.piece.shape
  {
    var turned := Rotate(s.piece.shape);
    if !Collides(s.board, s.piece.x, s.piece.y, turned) then
      s.(piece := s.piece.(shape := turned))
    else
      s
  }

  /**
   Locks the piece, clears rows once, books the points and spawns the drawn
   piece at the top. `fits` is false exactly when the new piece collides
   where it spawned.
   */
  function PlaceShape(s: State, d: Draw): (r: Placed)
    requires Placeable(s)
    ensures Framed(r.state.board)
    ensures r.state.piece.shape == Shapes[d.shape] && r.state.piece.colour == d.colour
    ensures r.state.piece.x == COLS / 2 - Width(Shapes[d.shape]) / 2 && r.state.piece.y == 0
    ensures r.fits <==> !Collides(r.state.board, r.state.piece.x, 0, r.state.piece.shape)
    ensures var locked := Lock(s.board, s.piece.x, s.piece.y, s.piece.shape, s.piece.colour);
      && r.state.board == Zeros(CountBelow(locked, ROWS)) + KeptFrom(locked, 0)
      && r.state.progress.score == s.progress.score + RowPoints * CountBelow(locked, ROWS)
    ensures var locked := Lock(s.board, s.piece.x, s.piece.y, s.piece.shape, s.piece.colour);
      r.state.progress == AddRows(s.progress, CountBelow(locked, ROWS))
  {
    var locked := Lock(s.board, s.piece.x, s.piece.y, s.piece.shape, s.piece.colour);
    var settled := ClearLines(locked, s.progress);
    ClearLinesKeepsFramed(locked, s.progress);
    var next := Spawn(d);
    Placed(State(settled.board, next, settled.progress), !Collides(settled.board, next.x, next.y, next.shape))
  }

  /**
   One step down: taken when the piece does not collide one row lower;
   otherwise the piece is locked and the next one spawned. Whether the new
   piece fits is not looked at.
   */
  function MoveDown(s: State, d: Draw): (r: State)
    requires Placeable(s)
    ensures !Collides(s.board, s.piece.x, s.piece.y + 1, s.piece.shape) ==>
      r.board == s.board && r.progress == s.progress && r.piece == s.piece.(y := s.piece.y + 1)
    ensures Collides(s.board, s.piece.x, s.piece.y + 1, s.piece.shape) ==> r == PlaceShape(s, d).state
    ensures r.progress.score >= s.progress.score
  {
    if !Collides(s.board, s.piece.x, s.piece.y + 1, s.piece.shape) then
      s.(piece := s.piece.(y := s.piece.y + 1))
    else
      PlaceShape(s, d).state
  }

  /** The key handler: left, right, down and rotate; any other key changes nothing. */
  function HandleKey(s: State, key: Key, d: Draw): (r: State)
    requires Placeable(s)
    ensures key == ArrowLeft ==> r == Shift(s, -1)
    ensures key == ArrowRight ==> r == Shift(s, 1)
    ensures key == ArrowDown ==> r == MoveDown(s, d)
    ensures key == ArrowUp ==> r == TurnPiece(s)
    ensures key == OtherKey ==> r == s
    ensures key != ArrowDown ==> r.board == s.board && r.progress == s.progress
    ensures r.progress.score >= s.progress.score
  {
    match key
    case ArrowLeft => Shift(s, -1)
    case ArrowRight => Shift(s, 1)
    case ArrowDown => MoveDown(s, d)
    case ArrowUp => TurnPiece(s)
    case OtherKey => s
  }

  /** The valid state invariant implies what the steps need. */
  lemma ValidIsPlaceable(s: State)
    requires Valid(s)
    ensures Placeable(s)
  {
  }

  /** A sideways move keeps the state invariant: the piece stays inside the field. */
  lemma ShiftKeepsValid(s: State, dx: int)
    requires Valid(s) && (dx == -1 || dx == 1)
    ensures Valid(Shift(s, dx))
  {
    if !Collides(s.board, s.piece.x + dx, s.piece.y, s.piece.shape) {
      NoCollisionInBounds(s.board, s.piece.x + dx, s.piece.y, s.piece.shape);
    }
  }

  /** A rotation keeps the state invariant. */
  lemma TurnKeepsValid(s: State)
    requires Valid(s)
    ensures Valid(TurnPiece(s))
  {
    var turned := Rotate(s.piece.shape);
    RotateWellFormed(s.piece.shape);
    if !Collides(s.board, s.piece.x, s.piece.y, turned) {
      NoCollisionInBounds(s.board, s.piece.x, s.piece.y, turned);
    }
  }

  /** Locking, clearing and respawning keep the state invariant, whether or not the new piece fits. */
  lemma PlaceShapeKeepsValid(s: State, d: Draw)
    requires Valid(s)
    ensures Valid(PlaceShape(s, d).state)
  {
    var locked := Lock(s.board, s.piece.x, s.piece.y, s.piece.shape, s.piece.colour);
    LockKeepsWellFormed(s.board, s.piece.x, s.piece.y, s.piece.shape, s.piece.colour);
    ClearLinesKeepsWellFormed(locked, s.progress);
    AddRowsKeepsConsistent(s.progress, CountBelow(locked, ROWS));
  }

  /** A step down keeps the state invariant. */
  lemma MoveDownKeepsValid(s: State, d: Draw)
    requires Valid(s)
    ensures Valid(MoveDown(s, d))
  {
    if !Collides(s.board, s.piece.x, s.piece.y + 1, s.piece.shape) {
      NoCollisionInBounds(s.board, s.piece.x, s.piece.y + 1, s.piece.shape);
    } else {
      PlaceShapeKeepsValid(s, d);
    }
  }

  /** One input, as the game loop and the key handler dispatch it. */
  function Step(s: State, e: Event): (r: State)
    requires Valid(s)
    ensures Valid(r)
    ensures e.Tick? ==> Placeable(s) && r == MoveDown(s, e.draw)
    ensures e.Press? ==> Placeable(s) && r == HandleKey(s, e.key, e.draw)
    ensures r.progress.score >= s.progress.score
  {
    match e
    case Tick(d) =>
      MoveDownKeepsValid(s, d);
      MoveDown(s, d)
    case Press(key, d) =>
      match key
      case ArrowLeft => ShiftKeepsValid(s, -1); HandleKey(s, key, d)
      case ArrowRight => ShiftKeepsValid(s, 1); HandleKey(s, key, d)
      case ArrowDown => MoveDownKeepsValid(s, d); HandleKey(s, key, d)
      case ArrowUp => TurnKeepsValid(s); HandleKey(s, key, d)
      case OtherKey => HandleKey(s, key, d)
  }

  /**
   A whole session of inputs: the state invariant holds throughout (the field
   stays ROWS x COLS with cells in 0..7, the piece stays inside the field,
   level == 1 + score / 300) and the score never goes down.
   */
  function Run(s: State, events: seq<Event>): (r: State)
    requires Valid(s)
    ensures Valid(r)
    ensures r.progress.score >= s.progress.score
    decreases |events|
  {
    if |events| == 0 then s else Run(Step(s, events[0]), events[1..])
  }

  /** Every state reachable from a new game satisfies the invariant. */
  lemma ReachableStatesValid(d: Draw, events: seq<Event>)
    ensures Valid(Run(Start(d), events))
    ensures Run(Start(d), events).progress.score % RowPoints == 0
    ensures Run(Start(d), events).progress.level == 1 + Run(Start(d), events).progress.score / PointsPerLevel
  {
  }

  /**
   On the empty field an O piece (2 x 2) spawned at the top falls one row per
   step while its top row is above row 18; at row 18 it rests on the floor,
   and the next step locks it.
   */
  lemma OPieceFallsToFloor(s: State, d: Draw)
    requires s.board == EmptyBoard() && s.piece.shape == Shapes[4] && s.piece.x == SpawnX(Shapes[4])
    requires 0 <= s.piece.y <= ROWS - 2
    ensures Placeable(s)
    ensures s.piece.y < ROWS - 2 ==> MoveDown(s, d).piece.y == s.piece.y + 1
    ensures s.piece.y == ROWS - 2 ==> MoveDown(s, d) == PlaceShape(s, d).state
  {
    OPieceDrop(s.piece.y);
    MoveDownCases(s, d);
  }

  /** The two outcomes of a step down, as facts about the piece row and the placed state. */
  lemma MoveDownCases(s: State, d: Draw)
    requires Placeable(s)
    ensures !Collides(s.board, s.piece.x, s.piece.y + 1, s.piece.shape) ==> MoveDown(s, d).piece.y == s.piece.y + 1
    ensures Collides(s.board, s.piece.x, s.piece.y + 1, s.piece.shape) ==> MoveDown(s, d) == PlaceShape(s, d).state
  {
  }

  /** The O piece at its spawn column on the empty field collides one row lower exactly when it rests on the floor. */
  lemma OPieceDrop(y: int)
    requires 0 <= y <= ROWS - 2
    ensures SpawnX(Shapes[4]) == 6 && Rectangular(Shapes[4]) && InBounds(6, y, Shapes[4])
    ensures Collides(EmptyBoard(), 6, y + 1, Shapes[4]) <==> y == ROWS - 2
  {
    var o := Shapes[4];
    assert o == [[1, 1], [1, 1]];
    EmptyBoardCollision(6, y + 1, o);
    if y == ROWS - 2 {
      assert o[1][0] != 0;
    } else {
      assert InBounds(6, y + 1, o);
    }
  }
}
