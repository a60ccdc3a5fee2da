/**
 * The rules of the snake game as functions on values: the board, the grid
 * cells, the head step, the direction rule, and one game tick on an abstract
 * state whose snake is a sequence of cells (head first). The array-based
 * engine in module SnakeEngine is proved to implement these functions.
 */
module SnakeRules {
  import Pigeonhole

  const BoardWidth: int := 800
  const BoardHeight: int := 600
  const UnitSize: int := 25
  /** Points added to the score for each food eaten. */
  const Reward: int := 10
  /** Length of the snake when a round starts. */
  const StartLength: int := 3

  /** Number of grid columns and rows: the ranges of the two random draws. */
  const Cols: int := BoardWidth / UnitSize
  const Rows: int := BoardHeight / UnitSize
  /** Length of each of the engine's two segment arrays. */
  const Capacity: int := BoardWidth * BoardHeight / UnitSize

  /** A column or row index as the random draw of food placement yields it. */
  type Col = i: int | 0 <= i < Cols
  type Row = j: int | 0 <= j < Rows

  /** A pixel position: the top-left corner of a segment or of the food. */
  datatype Cell = Cell(x: int, y: int)

  datatype Direction = Up | Down | Left | Right

  /** The keys the game reacts to; every other key is `OtherKey`. */
  datatype Key = LeftKey | RightKey | UpKey | DownKey | EnterKey | OtherKey

  /** The abstract game state; `body[0]` is the head, `|body|` the snake length. */
  datatype State = State(
    body: seq<Cell>,
    food: Cell,
    score: int,
    direction: Direction,
    running: bool,
    gameOver: bool)

  predicate OnBoard(c: Cell) {
    0 <= c.x < BoardWidth && 0 <= c.y < BoardHeight
  }

  predicate Aligned(c: Cell) {
    c.x % UnitSize == 0 && c.y % UnitSize == 0
  }

  /** A cell of the grid: on the board and at a multiple of the unit size. */
  predicate OnGrid(c: Cell) {
    OnBoard(c) && Aligned(c)
  }

  function Opposite(d: Direction): Direction {
    match d
    case Up => Down
    case Down => Up
    case Left => Right
    case Right => Left
  }

  predicate IsArrow(k: Key) {
    k.LeftKey? || k.RightKey? || k.UpKey? || k.DownKey?
  }

  function KeyDirection(k: Key): Direction
    requires IsArrow(k)
  {
    match k
    case LeftKey => Left
    case RightKey => Right
    case UpKey => Up
    case DownKey => Down
  }

  /** The food cell for a random column and row. Every grid cell is one of these (FoodCellOnto). */
  function FoodCell(col: Col, row: Row): (c: Cell)
    ensures OnGrid(c)
    ensures c.x / UnitSize == col && c.y / UnitSize == row
  {
    Cell(col * UnitSize, row * UnitSize)
  }

  /** Food placement can reach every cell of the grid. */
  lemma FoodCellOnto(c: Cell) returns (col: Col, row: Row)
    requires OnGrid(c)
    ensures FoodCell(col, row) == c
  {
    col, row := c.x / UnitSize, c.y / UnitSize;
  }

  /** One step of the head: one unit along the axis of `d`. */
  function Advance(c: Cell, d: Direction): (r: Cell)
    ensures (d == Left || d == Right) ==> r.y == c.y && (r.x - c.x == UnitSize || c.x - r.x == UnitSize)
    ensures (d == Up || d == Down) ==> r.x == c.x && (r.y - c.y == UnitSize || c.y - r.y == UnitSize)
    ensures (d == Right ==> r.x > c.x) && (d == Left ==> r.x < c.x)
    ensures (d == Down ==> r.y > c.y) && (d == Up ==> r.y < c.y)
    ensures Aligned(c) ==> Aligned(r)
  {
    match d
    case Right => Cell(c.x + UnitSize, c.y)
    case Left => Cell(c.x - UnitSize, c.y)
    case Up => Cell(c.x, c.y - UnitSize)
    case Down => Cell(c.x, c.y + UnitSize)
  }

  /**
   * The direction after an arrow key is pressed during a round: the key's
   * direction, unless it is the reverse of the current one.
   */
  function Turn(current: Direction, k: Key): (next: Direction)
    ensures next != Opposite(current)
    ensures IsArrow(k) && KeyDirection(k) != Opposite(current) ==> next == KeyDirection(k)
    ensures !IsArrow(k) || KeyDirection(k) == Opposite(current) ==> next == current
  {
    match k
    case LeftKey => if current != Right then Left else current
    case RightKey => if current != Left then Right else current
    case UpKey => if current != Down then Up else current
    case DownKey => if current != Up then Down else current
    case EnterKey => current
    case OtherKey => current
  }

  /** The cells the start of a round lays out, head first, from right to left. */
  function StartBody(): (b: seq<Cell>)
    ensures |b| == StartLength
    ensures forall i :: 0 <= i < |b| ==> OnGrid(b[i])
    ensures Pigeonhole.Distinct(b)
    ensures forall i :: 0 <= i < |b| ==> b[i] == Cell(50 - i * UnitSize, 50)
  {
    [Cell(50, 50), Cell(25, 50), Cell(0, 50)]
  }

  /** A new round, with the food at the drawn cell. */
  function Start(col: Col, row: Row): (s: State)
    ensures Inv(s)
    ensures |s.body| == StartLength && s.score == 0 && s.direction == Right
    ensures s.running && !s.gameOver
  {
    State(StartBody(), FoodCell(col, row), 0, Right, true, false)
  }

  /** The head occupies the cell of some other segment. */
  predicate HitsBody(body: seq<Cell>)
    requires |body| >= 1
  {
    exists i :: 1 <= i < |body| && body[i] == body[0]
  }

  /**
   * One tick of the game loop: move, then eat, then the wall and body
   * checks. `col` and `row` are the draw used if the food is re-placed.
   */
  function Tick(s: State, col: Col, row: Row): (r: State)
    requires |s.body| >= 1
    ensures !s.running ==> r == s
    ensures |r.body| == |s.body| || |r.body| == |s.body| + 1
    ensures r.score - s.score == Reward * (|r.body| - |s.body|)
    ensures |r.body| == |s.body| + 1 <==> s.running && Advance(s.body[0], s.direction) == s.food
    ensures r.direction == s.direction
    ensures s.running && r.body[0] != s.food ==> r.food == s.food
    ensures s.running ==> r.body[0] == Advance(s.body[0], s.direction)
    ensures s.running ==> forall i :: 1 <= i < |r.body| ==> r.body[i] == s.body[i - 1]
    ensures |r.body| == |s.body| + 1 ==> r.body[|s.body|] == s.body[|s.body| - 1]
    ensures r.running ==> s.running
    ensures s.running ==> (!r.running <==> !OnBoard(r.body[0]) || HitsBody(r.body))
  {
    if !s.running then s
    else
      var head := Advance(s.body[0], s.direction);
      var eats := head == s.food;
      var body := if eats then [head] + s.body else [head] + s.body[..|s.body| - 1];
      var dead := !OnBoard(head) || HitsBody(body);
      State(
        body,
        if eats then FoodCell(col, row) else s.food,
        if eats then s.score + Reward else s.score,
        s.direction,
        s.running && !dead,
        s.gameOver || dead)
  }

  /**
   * A key press: during a round an arrow may turn the snake; after a game over
   * Enter starts a new round; everything else is ignored.
   */
  function OnKey(s: State, k: Key, col: Col, row: Row): (r: State)
    ensures s.running ==> r.(direction := s.direction) == s
    ensures s.running ==> r.direction != Opposite(s.direction)
    ensures s.running && IsArrow(k) && KeyDirection(k) != Opposite(s.direction) ==> r.direction == KeyDirection(k)
    ensures s.running && !IsArrow(k) ==> r == s
    ensures !s.running && s.gameOver && k == EnterKey ==> r == Start(col, row)
    ensures !s.running && !(s.gameOver && k == EnterKey) ==> r == s
  {
    if s.running then s.(direction := Turn(s.direction, k))
    else if s.gameOver && k == EnterKey then Start(col, row)
    else s
  }

  /** The snake's cells are grid cells, no two the same. */
  ghost predicate Healthy(body: seq<Cell>) {
    (forall i :: 0 <= i < |body| ==> OnGrid(body[i])) && Pigeonhole.Distinct(body)
  }

  /**
   * The invariant every reachable state satisfies: the round flags agree, the
   * score pays for exactly the growth so far, the food is on the grid, and
   * during a round the snake is a set of distinct grid cells.
   */
  ghost predicate Inv(s: State) {
    StartLength <= |s.body| <= Cols * Rows + 1
    && s.running == !s.gameOver
    && s.score == Reward * (|s.body| - StartLength)
    && OnGrid(s.food)
    && (s.running ==> Healthy(s.body))
  }

  /** Numbers the grid cells 0 .. Cols * Rows - 1, row by row. */
  function CellIndex(c: Cell): (k: int)
    ensures OnGrid(c) ==> 0 <= k < Cols * Rows
  {
    var col, row := c.x / UnitSize, c.y / UnitSize;
    assert OnGrid(c) ==> 0 <= col < 32 && 0 <= row < 24;
    col + 32 * row
  }

  lemma CellIndexInjective(a: Cell, b: Cell)
    requires OnGrid(a) && OnGrid(b)
    requires CellIndex(a) == CellIndex(b)
    ensures a == b
  {
    RowMajorUnique(a.x / UnitSize, a.y / UnitSize, b.x / UnitSize, b.y / UnitSize);
    MultipleOfUnit(a.x);
    MultipleOfUnit(a.y);
    MultipleOfUnit(b.x);
    MultipleOfUnit(b.y);
  }

  lemma RowMajorUnique(c1: int, r1: int, c2: int, r2: int)
    requires 0 <= c1 < 32 && 0 <= c2 < 32
    requires c1 + 32 * r1 == c2 + 32 * r2
    ensures c1 == c2 && r1 == r2
  {
  }

  lemma MultipleOfUnit(v: int)
    requires v % 25 == 0
    ensures v == 25 * (v / 25)
  {
  }

  /** A healthy snake cannot be longer than the board has cells. */
  lemma HealthyBounded(body: seq<Cell>)
    requires Healthy(body)
    ensures |body| <= Cols * Rows
  {
    var codes := seq(|body|, i requires 0 <= i < |body| => CellIndex(body[i]));
    forall i, j | 0 <= i < j < |codes|
      ensures codes[i] != codes[j]
    {
      if codes[i] == codes[j] {
        CellIndexInjective(body[i], body[j]);
      }
    }
    Pigeonhole.DistinctBelowBounded(codes, Cols * Rows);
  }

  /** During a round the engine's shift, which writes index |body|, stays inside its arrays. */
  lemma RunningFitsCapacity(s: State)
    requires Inv(s) && s.running
    ensures |s.body| < Capacity
  {
    HealthyBounded(s.body);
  }

  lemma TickPreservesInv(s: State, col: Col, row: Row)
    requires Inv(s)
    ensures Inv(Tick(s, col, row))
  {
    if s.running {
      HealthyBounded(s.body);
      var r := Tick(s, col, row);
      if r.running {
        var head := r.body[0];
        assert OnGrid(head) by {
          assert OnGrid(s.body[0]);
        }
        forall i, j | 0 <= i < j < |r.body|
          ensures r.body[i] != r.body[j]
        {
          if i > 0 {
            assert s.body[i - 1] != s.body[j - 1];
          }
        }
        forall i | 0 <= i < |r.body|
          ensures OnGrid(r.body[i])
        {
          if i > 0 {
            assert OnGrid(s.body[i - 1]);
          }
        }
      }
    }
  }

  lemma OnKeyPreservesInv(s: State, k: Key, col: Col, row: Row)
    requires Inv(s)
    ensures Inv(OnKey(s, k, col, row))
  {
  }

  /**
   * Food is placed without looking at the snake. Eating it keeps the round
   * going exactly when it was not lying on the snake: the grown body still
   * holds every old cell, so the head lands on one of them.
   */
  lemma EatingContinuesIffFoodOffBody(s: State, col: Col, row: Row)
    requires Inv(s) && s.running
    requires Advance(s.body[0], s.direction) == s.food
    ensures Tick(s, col, row).running <==> s.food !in s.body
  {
    var r := Tick(s, col, row);
    if s.food in s.body {
      var j :| 0 <= j < |s.body| && s.body[j] == s.food;
      assert r.body[j + 1] == r.body[0];
    } else {
      forall i | 1 <= i < |r.body|
        ensures r.body[i] != r.body[0]
      {
        assert r.body[i] == s.body[i - 1];
      }
    }
  }

  /** A snake whose head is in the rightmost column and heads right leaves the board on the next tick. */
  lemma RightWallEndsRound(s: State, col: Col, row: Row)
    requires Inv(s) && s.running && s.direction == Right
    requires s.body[0].x == BoardWidth - UnitSize
    ensures Tick(s, col, row).gameOver && !Tick(s, col, row).running
  {
  }
}
