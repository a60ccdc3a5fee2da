# Snake game engine, modelled in Dafny

This project models the game-state engine of a single-player snake game (the
class `SnakeGameAWT`). The board is 800 × 600 pixels, cut into 25-pixel cells.
The snake is stored in two parallel integer arrays `x` and `y`, with the head at
index 0. Each array has 800·600/25 = 19200 slots. The scalar state is
`snakeLength`, the food position `foodX`/`foodY`, `score`, `direction`, and the
two round flags `running` and `gameOver`.

The project has three modules:

- `SnakeEngine` (snake_game.dfy) holds the class `SnakeGame`. It has the same
  fields and one method per engine operation: `StartGame`, `PlaceFood`, `Move`,
  the three collision checks, `Tick` (the body of the game loop) and
  `HandleKey` (the key handler). Each method updates the arrays and fields in
  place, as the engine's code does. The ghost function `View()` turns the object
  into a `SnakeRules.State`. It keeps only the first `snakeLength` array slots.
- `SnakeRules` (snake_rules.dfy) gives the reference rules as functions on
  values: `Start`, `Tick` and `OnKey` on a `State` whose snake is a sequence of
  cells. It also defines the invariant `Inv` and the lemmas about these
  functions.
- `Pigeonhole` (pigeonhole.dfy) proves the counting fact behind the bounds
  proof: pairwise distinct integers in [0, n) number at most n.

`SnakeGame.Tick` and `SnakeGame.HandleKey` are proved to turn `View()` into
`SnakeRules.Tick(old(View()), …)` and `SnakeRules.OnKey(old(View()), …)`. Both
keep the class invariant `Valid()`, which holds `Inv(View())`.

`Move` writes array slot `snakeLength`, so it needs `snakeLength < 19200`. The
engine never checks this. The model proves it must hold. During a round the
snake's cells are grid cells, and no two are the same (`Healthy`). The grid has
32 · 24 = 768 cells, so the pigeonhole lemma bounds the length by 768
(`HealthyBounded`, `RunningFitsCapacity`).

Food is placed with no check against the snake. The model keeps that behaviour,
and `EatingContinuesIffFoodOffBody` proves what follows from it: eating food
that lies on the snake's body ends the round on that same tick.

The random draw of food placement is a pair of parameters, `col: Col` in
0..31 and `row: Row` in 0..23. Every method that may place food takes the pair:
`StartGame`, `CheckFoodCollision`, `Tick`, `HandleKey` and the constructor. The
pair is used only if food is actually placed. The `char` direction becomes the
enumeration `Direction`, so "direction stays in {R, L, U, D}" holds by typing.
Key codes become the datatype `Key`. `OtherKey` stands for every key the
handler ignores.

## Model

| member | source | states |
|---|---|---|
| SnakeEngine.SnakeGame.constructor | SnakeGameAWT.java:22-31 | a new game holds two fresh, distinct arrays of 19200 slots and is in the start state `Start(col, row)` |
| SnakeEngine.SnakeGame.StartGame | SnakeGameAWT.java:41-54 | from any prior state: length 3, direction Right, score 0, running and not game over, segments (50,50), (25,50), (0,50), food at the drawn cell; slots from index 3 on are untouched; the invariant holds afterwards |
| SnakeEngine.SnakeGame.PlaceFood | SnakeGameAWT.java:63-67 | the food is put at `FoodCell(col, row)`, a grid cell; no other field changes |
| SnakeEngine.SnakeGame.CheckFoodCollision | SnakeGameAWT.java:69-75 | if the head is on the food: length +1, score +10, food re-placed at the drawn cell; otherwise length, score and food are unchanged |
| SnakeEngine.SnakeGame.CheckWallCollision | SnakeGameAWT.java:77-82 | `running` is cleared and `gameOver` set exactly when the head is outside [0,800)×[0,600); nothing else changes |
| SnakeEngine.SnakeGame.CheckBodyCollision | SnakeGameAWT.java:84-91 | `running` is cleared and `gameOver` set exactly when some segment 1..snakeLength-1 has the head's coordinates; the arrays are not modified |
| SnakeEngine.SnakeGame.Move | SnakeGameAWT.java:93-104 | requires snakeLength < 19200; new slot k equals old slot k-1 for 1 ≤ k ≤ snakeLength; slots above snakeLength unchanged; the head takes one `Advance` step in `direction` |
| SnakeEngine.SnakeGame.Tick | SnakeGameAWT.java:107-115 | keeps the invariant; the new view is `SnakeRules.Tick` of the old view; nothing at all changes when not running |
| SnakeEngine.SnakeGame.HandleKey | SnakeGameAWT.java:157-179 | keeps the invariant; the new view is `SnakeRules.OnKey` of the old view; the arrays change only on a restart |
| SnakeEngine.ShiftMatchesTick | SnakeGameAWT.java:93-97 | after the shift, the arrays read up to the new length are the body of `SnakeRules.Tick`: the head step, then the old segments, so a grown snake's new last segment is the old tail; the array scan of the body check is `HitsBody` on that body |
| SnakeRules.FoodCell | SnakeGameAWT.java:65-66 | the drawn food cell is on the board and a multiple of 25 in both coordinates, and its column and row are the drawn ones |
| SnakeRules.FoodCellOnto | SnakeGameAWT.java:65-66 | every grid cell is the food cell of some draw |
| SnakeRules.Advance | SnakeGameAWT.java:98-103 | the head moves exactly 25 along the axis of the direction (R: +x, L: −x, U: −y, D: +y), the other coordinate is kept, and grid alignment is preserved |
| SnakeRules.Turn | SnakeGameAWT.java:160-173 | the new direction is never the reverse of the current one; a non-reverse arrow is applied; any other key leaves the direction unchanged |
| SnakeRules.StartBody | SnakeGameAWT.java:49-52 | three cells, segment i at (50 − 25·i, 50), all on the grid and pairwise distinct |
| SnakeRules.Start | SnakeGameAWT.java:41-47 | the start state satisfies the invariant, with length 3, score 0, direction Right, running and not game over |
| SnakeRules.Tick | SnakeGameAWT.java:109-113 | no-op when not running; length grows by exactly one, and only when the stepped head meets the food; score grows by 10 per segment gained; segment i of the new body is segment i-1 of the old; the round ends exactly when the head is off the board or on another segment; a stopped round stays stopped |
| SnakeRules.OnKey | SnakeGameAWT.java:158-178 | while running, only the direction can change, never to its reverse, and a non-reverse arrow is applied; when not running, Enter restarts only after a game over, and every other key is ignored |
| SnakeRules.TickPreservesInv | SnakeGameAWT.java:69-91 | a tick keeps `running == !gameOver`, `score == 10·(length − 3)`, length between 3 and 769, the food on the grid and, during a round, the snake on distinct grid cells |
| SnakeRules.OnKeyPreservesInv | SnakeGameAWT.java:158-178 | a key press keeps the same invariant |
| SnakeRules.HealthyBounded | SnakeGameAWT.java:10-11 | a snake of distinct grid cells has at most 768 segments |
| SnakeRules.RunningFitsCapacity | SnakeGameAWT.java:94-96 | in every reachable running state the length is below 19200, so the shift's write to slot `snakeLength` is in bounds |
| SnakeRules.EatingContinuesIffFoodOffBody | SnakeGameAWT.java:63-75 | when the head steps onto the food, the round continues exactly when the food was not lying on the snake |
| SnakeRules.RightWallEndsRound | SnakeGameAWT.java:77-82 | a running snake in the rightmost column heading right ends the round on the next tick |

## Left out

- Window setup, window listener and `System.exit` (SnakeGameAWT.java:22-39, except the call to `startGame`): user-interface plumbing.
- `paint` (SnakeGameAWT.java:126-155) and every `repaint()` call: drawing only, with no effect on the game state.
- The game thread, `Thread.sleep(100)` and the endless loop in `run` (SnakeGameAWT.java:56-60, 107-123): timing and concurrency. One pass of the loop is `Tick`. A key press is a separate atomic `HandleKey`, so the interleaving of the key thread and the game thread is not modelled.
- `java.util.Random` (SnakeGameAWT.java:64-66): a foreign library. The draw is the caller-supplied `col`/`row` pair, whose types give the same ranges as `nextInt(32)` and `nextInt(24)`. Uniformity is not modelled.
- `KeyEvent` decoding: keys arrive already decoded as `Key`. `keyReleased`, `keyTyped` and `main` do nothing to the game state.
- Java's 32-bit `int`: not modelled. Under the invariant every coordinate stays within [−25, 800] and the score stays at most 7660, so no value comes near wrap-around.
- The `char` direction: modelled as an enumeration. A direction outside R, L, U, D, which the `switch` in `move` would pass over, cannot occur.
