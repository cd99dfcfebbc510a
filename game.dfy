/** The game as the page runs it: one object holding the game's variables, with
    a method per entry point (page load, start button, pause button, timer tick,
    direction keys and buttons, difficulty selector) and per script function
    they call (`placeFood`, `initGame`, `gameOver`). Each method is proved to do
    what the matching function of module Rules says. The entry points and
    `gameOver` also keep Rules.Inv; `placeFood` and `initGame` run in the middle
    of an entry point, where the invariant may be broken. */
module SnakeGame {
  import opened Grid
  import opened Rules

  /** The `for…of` scan of the body for a cell, as `update` runs it against
      the new head and `placeFood` against a drawn food cell. */
  method Occupies(body: seq<Cell>, c: Cell) returns (hit: bool)
    ensures hit <==> c in body
  {
    hit := false;
    var i := 0;
    while i < |body|
      invariant 0 <= i <= |body|
      invariant c !in body[..i]
    {
      if body[i].x == c.x && body[i].y == c.y {
        return true;
      }
      i := i + 1;
    }
    assert body[..i] == body;
  }

  class Game {
    /** Cells per side of the field. */
    const tileCount: int

    var snake: seq<Cell>
    var food: Cell
    var dx: int
    var dy: int
    var score: int
    var highScore: int
    var isRunning: bool
    var isPaused: bool
    var gameLoop: Timer

    /** The object's variables as one value. */
    ghost function Model(): State
      reads this
    {
      State(snake, food, dx, dy, score, highScore, isRunning, isPaused, gameLoop)
    }

    ghost predicate Valid()
      reads this
    {
      Inv(Model(), tileCount)
    }

    /** Page load: no snake yet, food at (10, 10), no direction, no timer, and
        the high score read from storage. */
    constructor (tileCount: int, storedHighScore: int)
      requires tileCount > 10 && storedHighScore >= 0
      ensures Valid() && this.tileCount == tileCount
      ensures Model() == Loaded(storedHighScore)
    {
      this.tileCount := tileCount;
      score := 0;
      highScore := storedHighScore;
      snake := [];
      food := Cell(10, 10);
      dx, dy := 0, 0;
      gameLoop := Cleared;
      isRunning := false;
      isPaused := false;
      new;
      LoadedInv(storedHighScore, tileCount);
    }

    /** `placeFood`: take the next draw; if the snake covers it, try again with
        the draws that follow. */
    method PlaceFood(draws: seq<Cell>)
      requires FoodAvailable(snake, draws)
      modifies this`food
      ensures food == PlacedFood(snake, draws)
      decreases |draws|
    {
      food := draws[0];
      var hit := Occupies(snake, food);
      if hit {
        ghost var k :| 0 <= k < |draws| && draws[k] !in snake;
        assert draws[1..][k - 1] == draws[k];
        PlaceFood(draws[1..]);
      }
    }

    /** `initGame`. */
    method InitGame(draws: seq<Cell>)
      requires FoodAvailable(StartSnake, draws)
      modifies this
      ensures Model() == Rules.InitGame(old(Model()), draws)
    {
      snake := StartSnake;
      score := 0;
      dx, dy := 1, 0;
      PlaceFood(draws);
    }

    /** `startGame`, with `speed` the selected difficulty's period. */
    method StartGame(speed: int, draws: seq<Cell>)
      requires Valid() && AllOnGrid(draws, tileCount)
      requires !isRunning ==> FoodAvailable(StartSnake, draws)
      modifies this
      ensures Valid()
      ensures Model() == Rules.StartGame(old(Model()), speed, draws)
    {
      StartKeepsInv(Model(), speed, draws, tileCount);
      if isRunning {
        return;
      }
      InitGame(draws);
      isRunning := true;
      isPaused := false;
      gameLoop := Interval(speed);
    }

    /** `gameOver`: the final score stays on show; the timer is cleared. */
    method GameOver()
      requires Valid() && !isPaused
      modifies this`isRunning, this`gameLoop
      ensures Valid()
      ensures Model() == Rules.GameOver(old(Model()))
    {
      GameOverStops(Model(), tileCount);
      isRunning := false;
      gameLoop := Cleared;
    }

    /** `togglePause`. */
    method TogglePause()
      requires Valid()
      modifies this`isPaused
      ensures Valid()
      ensures Model() == Rules.TogglePause(old(Model()))
    {
      if !isRunning {
        return;
      }
      isPaused := !isPaused;
    }

    /** The difficulty selector's change handler. */
    method ChangeDifficulty(speed: int)
      requires Valid()
      modifies this`gameLoop
      ensures Valid()
      ensures Model() == Rules.ChangeDifficulty(old(Model()), speed)
    {
      if isRunning {
        gameLoop := Interval(speed);
      }
    }

    /** A direction request from a key or an on-screen button. */
    method Steer(d: Dir)
      requires Valid()
      modifies this`dx, this`dy
      ensures Valid()
      ensures (dx, dy) == Turn(old(dx), old(dy), d)
    {
      TurnKeepsUnit(dx, dy, d);
      match d
      case Up => if dy != 1 { dx, dy := 0, -1; }
      case Down => if dy != -1 { dx, dy := 0, 1; }
      case Left => if dx != 1 { dx, dy := -1, 0; }
      case Right => if dx != -1 { dx, dy := 1, 0; }
    }

    /** `update`: one timer tick. */
    method Update(draws: seq<Cell>)
      requires Valid() && AllOnGrid(draws, tileCount)
      requires Tickable(Model(), tileCount, draws)
      modifies this
      ensures Valid()
      ensures Model() == Tick(old(Model()), tileCount, draws)
    {
      TickKeepsInv(Model(), tileCount, draws);
      if isPaused || !isRunning {
        return;
      }

      var head := Cell(snake[0].x + dx, snake[0].y + dy);
      if head.x < 0 { head := head.(x := tileCount - 1); }
      if head.x >= tileCount { head := head.(x := 0); }
      if head.y < 0 { head := head.(y := tileCount - 1); }
      if head.y >= tileCount { head := head.(y := 0); }
      assert head == NextHead(Model(), tileCount);

      var hit := Occupies(snake, head);
      if hit {
        GameOver();
        return;
      }

      snake := [head] + snake;
      if head.x == food.x && head.y == food.y {
        score := score + Reward;
        PlaceFood(draws);
        if score > highScore {
          highScore := score;
        }
      } else {
        snake := snake[..|snake| - 1];
      }
    }
  }
}
