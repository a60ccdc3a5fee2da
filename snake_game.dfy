/**
 * The game-state engine of the snake game: two fixed-capacity coordinate
 * arrays holding the segments (head at index 0) and the scalar fields of the
 * round, updated in place. Each method follows the engine's code; `View`
 * abstracts the state to a SnakeRules.State, and `Tick` and `HandleKey` are
 * proved to implement SnakeRules.Tick and SnakeRules.OnKey.
 */
module SnakeEngine {
  import opened SnakeRules

  /** Pairs two coordinate sequences into cells. */
  function Cells(xs: seq<int>, ys: seq<int>): seq<Cell>
    requires |xs| == |ys|
  {
    seq(|xs|, i requires 0 <= i < |xs| => Cell(xs[i], ys[i]))
  }

  /**
   * The arrays after the shift and head step, read up to the new length,
   * hold the body that SnakeRules.Tick computes.
   */
  lemma ShiftMatchesTick(s: State, ox: seq<int>, oy: seq<int>, nx: seq<int>, ny: seq<int>, n: int, col: Col, row: Row)
    requires |ox| == |oy| == |nx| == |ny| == Capacity
    requires s.running && 1 <= |s.body| < Capacity
    requires s.body == Cells(ox[..|s.body|], oy[..|s.body|])
    requires Cell(nx[0], ny[0]) == Advance(s.body[0], s.direction)
    requires forall k :: 1 <= k <= |s.body| ==> nx[k] == ox[k - 1] && ny[k] == oy[k - 1]
    requires n == |s.body| + (if Cell(nx[0], ny[0]) == s.food then 1 else 0)
    ensures Cells(nx[..n], ny[..n]) == SnakeRules.Tick(s, col, row).body
    ensures HitsBody(SnakeRules.Tick(s, col, row).body) <==> exists k :: 1 <= k < n && nx[k] == nx[0] && ny[k] == ny[0]
  {
    var body := SnakeRules.Tick(s, col, row).body;
    var cells := Cells(nx[..n], ny[..n]);
    assert |body| == n == |cells|;
    forall k | 1 <= k < n
      ensures cells[k] == body[k]
    {
      assert body[k] == s.body[k - 1];
    }
    assert cells == body;
    assert cells[0] == Cell(nx[0], ny[0]);
    if HitsBody(body) {
      var k :| 1 <= k < n && body[k] == body[0];
      assert cells[k] == Cell(nx[k], ny[k]);
    } else {
      forall k | 1 <= k < n
        ensures nx[k] != nx[0] || ny[k] != ny[0]
      {
        assert cells[k] == Cell(nx[k], ny[k]);
      }
    }
  }

  class SnakeGame {
    const x: array<int>
    const y: array<int>
    var snakeLength: int
    var foodX: int
    var foodY: int
    var score: int
    var direction: Direction
    var running: bool
    var gameOver: bool

    /** Both arrays have one slot per unit of board area, and they are two arrays. */
    ghost predicate Allocated() {
      x.Length == Capacity && y.Length == Capacity && x != y
    }

    /** The state as a value: the first `snakeLength` segments, the food and the round fields. */
    ghost function View(): State
      reads this, x, y
      requires Allocated() && 0 <= snakeLength <= Capacity
    {
      State(Cells(x[..snakeLength], y[..snakeLength]), Cell(foodX, foodY), score, direction, running, gameOver)
    }

    ghost predicate Valid()
      reads this, x, y
    {
      Allocated() && 0 <= snakeLength <= Capacity && Inv(View())
    }

    /** Creating the game starts the first round. */
    constructor (col: Col, row: Row)
      ensures Valid() && fresh(x) && fresh(y)
      ensures View() == Start(col, row)
    {
      x := new int[Capacity];
      y := new int[Capacity];
      new;
      StartGame(col, row);
    }

    /**
     * Resets the round from any prior state: three segments at (50,50),
     * (25,50), (0,50) heading right, score 0, running, food at the drawn cell.
     * Array slots from index 3 on keep whatever they held.
     */
    method StartGame(col: Col, row: Row)
      requires Allocated()
      modifies this, x, y
      ensures Valid()
      ensures View() == Start(col, row)
      ensures forall k :: StartLength <= k < Capacity ==> x[k] == old(x[k]) && y[k] == old(y[k])
    {
      snakeLength := 3;
      direction := Right;
      score := 0;
      running := true;
      gameOver := false;
      var i := 0;
      while i < snakeLength
        modifies x, y
        invariant 0 <= i <= snakeLength == StartLength
        invariant forall k :: 0 <= k < i ==> x[k] == 50 - k * UnitSize && y[k] == 50
        invariant forall k :: StartLength <= k < Capacity ==> x[k] == old(x[k]) && y[k] == old(y[k])
      {
        x[i] := 50 - i * UnitSize;
        y[i] := 50;
        i := i + 1;
      }
      PlaceFood(col, row);
      ghost var body := Cells(x[..snakeLength], y[..snakeLength]);
      forall k | 0 <= k < StartLength
        ensures body[k] == StartBody()[k]
      {
      }
      assert body == StartBody();
    }

    /** Puts the food at the grid cell of the drawn column and row. */
    method PlaceFood(col: Col, row: Row)
      modifies this`foodX, this`foodY
      ensures Cell(foodX, foodY) == FoodCell(col, row)
      ensures OnGrid(Cell(foodX, foodY))
    {
      foodX := col * UnitSize;
      foodY := row * UnitSize;
    }

    /** When the head is on the food: one more segment, Reward more points, and new food. */
    method CheckFoodCollision(col: Col, row: Row)
      requires Allocated()
      modifies this`snakeLength, this`score, this`foodX, this`foodY
      ensures var eats := x[0] == old(foodX) && y[0] == old(foodY);
        && snakeLength == old(snakeLength) + (if eats then 1 else 0)
        && score == old(score) + (if eats then Reward else 0)
        && Cell(foodX, foodY) == (if eats then FoodCell(col, row) else Cell(old(foodX), old(foodY)))
    {
      if x[0] == foodX && y[0] == foodY {
        snakeLength := snakeLength + 1;
        score := score + Reward;
        PlaceFood(col, row);
      }
    }

    /** Ends the round exactly when the head has left the board. */
    method CheckWallCollision()
      requires Allocated()
      modifies this`running, this`gameOver
      ensures var out := !OnBoard(Cell(x[0], y[0]));
        running == (old(running) && !out) && gameOver == (old(gameOver) || out)
    {
      if x[0] < 0 || x[0] >= BoardWidth || y[0] < 0 || y[0] >= BoardHeight {
        running := false;
        gameOver := true;
      }
    }

    /** Ends the round exactly when the head shares its cell with segment 1 .. snakeLength - 1. */
    method CheckBodyCollision()
      requires Allocated() && snakeLength <= Capacity
      modifies this`running, this`gameOver
      ensures var hit := exists k :: 1 <= k < snakeLength && x[k] == x[0] && y[k] == y[0];
        running == (old(running) && !hit) && gameOver == (old(gameOver) || hit)
    {
      var i := 1;
      while i < snakeLength
        invariant 1 <= i <= if snakeLength < 1 then 1 else snakeLength
        invariant var hit := exists k :: 1 <= k < i && x[k] == x[0] && y[k] == y[0];
          running == (old(running) && !hit) && gameOver == (old(gameOver) || hit)
      {
        if x[0] == x[i] && y[0] == y[i] {
          running := false;
          gameOver := true;
        }
        i := i + 1;
      }
    }

    /**
     * Shifts segments 0 .. snakeLength - 1 one slot toward the tail, writing
     * slot snakeLength, then steps the head one unit in the current direction.
     */
    method Move()
      requires Allocated() && 0 <= snakeLength < Capacity
      modifies x, y
      ensures Cell(x[0], y[0]) == Advance(Cell(old(x[0]), old(y[0])), direction)
      ensures forall k :: 1 <= k <= snakeLength ==> x[k] == old(x[k - 1]) && y[k] == old(y[k - 1])
      ensures forall k :: snakeLength < k < Capacity ==> x[k] == old(x[k]) && y[k] == old(y[k])
    {
      var i := snakeLength;
      while i > 0
        invariant 0 <= i <= snakeLength
        invariant forall k :: 0 <= k <= i ==> x[k] == old(x[k]) && y[k] == old(y[k])
        invariant forall k :: i < k <= snakeLength ==> x[k] == old(x[k - 1]) && y[k] == old(y[k - 1])
        invariant forall k :: snakeLength < k < Capacity ==> x[k] == old(x[k]) && y[k] == old(y[k])
      {
        x[i] := x[i - 1];
        y[i] := y[i - 1];
        i := i - 1;
      }
      match direction
      case Right => x[0] := x[0] + UnitSize;
      case Left => x[0] := x[0] - UnitSize;
      case Up => y[0] := y[0] - UnitSize;
      case Down => y[0] := y[0] + UnitSize;
    }

    /** One pass of the game loop: while the round runs, move and then the three checks. */
    method Tick(col: Col, row: Row)
      requires Valid()
      modifies this, x, y
      ensures Valid()
      ensures View() == SnakeRules.Tick(old(View()), col, row)
      ensures !old(running) ==> unchanged(this, x, y)
    {
      if running {
        ghost var before := View();
        ghost var ox, oy := x[..], y[..];
        RunningFitsCapacity(before);
        Move();
        CheckFoodCollision(col, row);
        CheckWallCollision();
        CheckBodyCollision();
        ShiftMatchesTick(before, ox, oy, x[..], y[..], snakeLength, col, row);
        TickPreservesInv(before, col, row);
        assert View() == SnakeRules.Tick(before, col, row);
      }
    }

    /**
     * A key press: during a round an arrow turns the snake unless it asks
     * for the reverse direction; after a game over Enter restarts.
     */
    method HandleKey(k: Key, col: Col, row: Row)
      requires Valid()
      modifies this, x, y
      ensures Valid()
      ensures View() == OnKey(old(View()), k, col, row)
      ensures !(!old(running) && old(gameOver) && k == EnterKey) ==> unchanged(x, y)
    {
      if running {
        match k
        case LeftKey => if direction != Right { direction := Left; }
        case RightKey => if direction != Left { direction := Right; }
        case UpKey => if direction != Down { direction := Up; }
        case DownKey => if direction != Up { direction := Down; }
        case EnterKey =>
        case OtherKey =>
      } else if gameOver && k == EnterKey {
        StartGame(col, row);
      }
    }
  }
}
