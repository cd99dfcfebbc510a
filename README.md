# Snake game simulation, verified in Dafny

This project models the simulation core of a browser Snake game (`game.js`). A snake
moves on a square field of `tileCount` x `tileCount` cells. The walls let it pass through
to the opposite edge. Each timer tick moves its head one cell in the pending direction.
Running into its own body ends the game. Eating the food grows the snake by one cell,
adds 10 points, places new food and may raise the high score. Direction keys and
on-screen buttons change the pending direction but cannot ask for its exact reverse. A
start button resets the game, a pause button freezes it, and a difficulty selector
changes the tick period.

Files:

- `grid.dfy`, module `Grid`: cells, the field, and the pass-through walls (`Wrap`, `Step`).
- `rules.dfy`, module `Rules`: the game's variables as one value (`State`). It also holds
  the effect of every entry point as a pure function (`Tick`, `StartGame`, `InitGame`,
  `GameOver`, `TogglePause`, `ChangeDifficulty`, `Turn`, `PlacedFood`) and the invariant
  every reachable state keeps (`Inv`). The lemmas prove the game's properties about these
  functions.
- `game.dfy`, module `SnakeGame`: the class `Game`, whose fields are the script's
  module-level variables. It has one method per entry point and one per script function
  they call. The entry points are the constructor, `StartGame`, `TogglePause`,
  `ChangeDifficulty`, `Steer` and `Update`; the script functions are `PlaceFood`,
  `InitGame` and `GameOver`. They are written step by step as the script does: the wrap
  ifs, the `for…of` collision scan, `unshift`/`pop` on the body, and the retrying food
  placement. Each method is proved to produce the state the matching `Rules` function
  gives. The entry points and `GameOver` also keep `Inv` (through `Valid()`). `PlaceFood`
  and `InitGame` run in the middle of an entry point, where the invariant may be broken,
  so they only promise the state their `Rules` function gives.
- `scenarios.dfy`, module `Scenarios`: concrete runs on a 20 x 20 field.

The invariant `Rules.Inv` says the following:

- a paused game is running;
- a game runs exactly when an update timer is set;
- `0 <= score <= highScore`;
- the pending direction is a unit move, or (0, 0) before the first game;
- once a game has started, every segment and the food lie on the field;
- no segment repeats, and the food is off the snake;
- `score` is a multiple of 10 and `|snake| == 3 + score / 10`, so the length is at least 3.

Randomness is a parameter. Each call that may place food receives `draws`, the cells
`Math.random` would produce in order. Each draw is assumed to lie on the field, because
`Math.floor(Math.random() * tileCount)` does. Placement is required to meet a free draw
eventually. The script itself retries without bound, so it never returns when no free
cell comes up.

The direction test is against the pending direction, as `game.js:192-207` and
`game.js:223-226` write it. The evident intent is that the snake never turns back onto
the cell it has just left. A test against the pending direction does not guarantee that,
and the model follows the code. `Rules.PendingCheckAllowsReversal` and
`Scenarios.QuickReversalEndsGame` show what the code allows: moving right, pressing Up
then Left before the next tick reverses the snake into its own neck, and that tick ends
the game.

## Model

| member | source | states |
|---|---|---|
| Grid.Wrap | game.js:124-127 | the wrapped coordinate always lies in [0, tileCount); within one step of the field it is the coordinate modulo tileCount (-1 goes to tileCount-1, tileCount goes to 0), and a coordinate on the field is unchanged |
| Grid.Step | game.js:121-127 | the new head is always on the field; from a cell on the field with a move of at most 1 per axis it is the toroidal neighbour ((x+dx) mod n, (y+dy) mod n) |
| SnakeGame.Occupies | game.js:130-135 | the segment scan reports a hit exactly when the cell is one of the body's cells |
| Rules.FirstFree | game.js:37-48 | the retrying placement settles on a draw that misses the body, and every draw before it hit the body |
| Rules.PlacedFoodIsFree | game.js:37-48 | placed food lies on the field, off the body, and is the first such draw |
| SnakeGame.Game.PlaceFood | game.js:37-48 | the recursive retry leaves `food` at the first draw off the snake and changes nothing else |
| SnakeGame.Game.constructor | game.js:12-20 | the load state: no snake, food at (10,10), direction (0,0), score 0, stored high score, stopped, unpaused, no timer; it satisfies the invariant |
| Rules.LoadedInv | game.js:12-20 | the load state satisfies the invariant |
| SnakeGame.Game.InitGame | game.js:24-35 | snake becomes [(10,10),(9,10),(8,10)], score 0, direction (1,0), food placed against that snake; nothing else changes |
| SnakeGame.Game.StartGame | game.js:164-172 | start does exactly what `Rules.StartGame` gives and keeps the invariant |
| Rules.StartResets | game.js:164-172 | start is a no-op while running; otherwise the starting snake heading right, score 0, food on the field off the snake, running, unpaused, a timer of the chosen period, high score kept |
| Rules.StartKeepsInv | game.js:164-172 | start keeps the invariant |
| SnakeGame.Game.GameOver | game.js:158-162 | from a valid unpaused state (the only state `update` calls it in), game over clears `isRunning` and the timer, changes nothing else, and keeps the invariant |
| Rules.GameOverStops | game.js:158-160 | game over leaves the game stopped with no timer, snake and score unchanged, and keeps the invariant |
| SnakeGame.Game.TogglePause | game.js:174-178 | pause does exactly what `Rules.TogglePause` gives and keeps the invariant |
| Rules.TogglePauseFlips | game.js:174-178 | pause is a no-op unless running; while running it flips `isPaused` and nothing else; two toggles undo each other; the invariant is kept |
| SnakeGame.Game.ChangeDifficulty | game.js:214-220 | a difficulty change does exactly what `Rules.ChangeDifficulty` gives and keeps the invariant |
| Rules.ChangeDifficultyKeepsRunState | game.js:214-220 | a difficulty change never alters `isRunning` or `isPaused`; a running game (paused or not) gets one timer of the new period; a stopped game is untouched |
| SnakeGame.Game.Steer | game.js:188-209 | a direction key or button sets (dx, dy) to `Rules.Turn` of the pending direction and keeps the invariant |
| Rules.TurnRejectsOnlyReversal | game.js:192-207 | for a unit (or not yet set) pending direction, a request is ignored exactly when it is the reverse of the pending direction, and otherwise becomes the pending direction |
| Rules.TurnKeepsUnit | game.js:223-226 | after any request the pending direction is one of the four unit moves |
| Rules.ReversalRequestsIgnored | game.js:192-207 | any number of requests for the reverse of the pending direction leave it unchanged |
| Rules.PendingCheckAllowsReversal | game.js:192-207 | moving right, Up then Left before a tick leave (-1,0) pending: the exact reverse of the direction the last tick used |
| SnakeGame.Game.Update | game.js:118-156 | a tick does exactly what `Rules.Tick` gives and keeps the invariant |
| Rules.IdleTick | game.js:119 | a tick while paused or stopped changes nothing |
| Rules.CollisionEndsGame | game.js:129-135 | a wrapped head on any segment stops the game and clears the timer; snake, score, food, high score and direction are unchanged; this check comes before the food check |
| Rules.TailCollisionEndsGame | game.js:130-135 | a head landing on the current tail cell is a collision, although the tail would have moved away |
| Rules.PlainTickShifts | game.js:137-153 | with no collision and no food, the snake becomes the new head followed by the old snake minus its tail; length, score, food and high score are unchanged |
| Rules.EatingTickGrows | game.js:137-150 | eating prepends the head and keeps the tail: length +1, score +10, new food from the draws, on the field and off the grown snake, high score = max(old high score, new score) |
| Rules.TickKeepsInv | game.js:118-153 | every tick keeps the invariant (cells on the field, no repeats, food off the snake, length and score in lockstep, run/pause/timer flags consistent) and never lowers the high score |
| Scenarios.FirstTickMoves | game.js:121-153 | from the starting snake heading right with no food at (11,10), one tick gives [(11,10),(10,10),(9,10)] and score 0 |
| Scenarios.FirstTickEats | game.js:137-150 | from the starting snake with food at (11,10), one tick gives [(11,10),(10,10),(9,10),(8,10)], score 10, high score 10, new food off those cells |
| Scenarios.WrapIntoBodyEndsGame | game.js:121-135 | heading left from (0,10) on a 20-wide field, the head wraps to (19,10), which is a segment, so the game ends with the snake unchanged |
| Scenarios.QuickReversalEndsGame | game.js:192-202 | at the start (heading right from initGame), an Up request then a Left request before the first tick leave (-1,0) pending; that tick's wrapped head, computed as game.js:121-135 does, lands on the neck (9,10), so the game ends |

## Left out

- `draw` (game.js:50-116) and the initial draw (game.js:229): canvas rendering with floating-point colour values. No game state changes.
- DOM element lookups and `textContent` writes (game.js:1-7, 22, 33, 142, 148, 177): presentation only.
- `localStorage` (game.js:13, 149): the stored high score is a constructor argument, and writing it back is not modelled. The real read returns a string that JavaScript coerces in `score > highScore`. The model takes an integer of at least 0 instead.
- `setInterval`/`clearInterval` (game.js:160, 170, 216-218): the timer is modelled as its state only, `Cleared` or `Interval(ms)`, not as a handle. A tick is an explicit call of `Update`. `parseInt` of the selector value is the integer argument `speed`, and a `NaN` period is not modelled.
- `alert` (game.js:161): a blocking message box with no effect on game state.
- `Math.random` (game.js:38-39): replaced by the sequence `draws` of drawn cells.
- SnakeGame.Game.PlaceFood: requires some draw to miss the snake, because the script's retry never returns otherwise. The depth limit of the JavaScript call stack, which would end the recursion with an error, is not modelled.
- Key-name matching and `preventDefault` (game.js:182-186): all direction entry points, the keys of the keydown handler and the four on-screen buttons (game.js:223-226), become the one method `Steer` with a `Dir` argument.
- `tileCount` is `canvas.width / gridSize` (game.js:10). The model takes it as an integer greater than 10, so the starting snake lies on the field.
