/** The rules of the game as pure functions on a snapshot of the game's state:
    what one tick, a start, a pause toggle, a direction request and a difficulty
    change do, the invariant every reachable state keeps, and the properties the
    game promises. The `Game` class in module SnakeGame is proved against these. */
module Rules {
  import opened Grid

  /** A direction request, from an arrow key, W/A/S/D or an on-screen button. */
  datatype Dir = Up | Down | Left | Right

  /** The update timer: cleared, or firing every `ms` milliseconds. */
  datatype Timer = Cleared | Interval(ms: int)

  /** The game's variables. `snake[0]` is the head, the last cell the tail;
      (dx, dy) is the pending direction the next tick will use. */
  datatype State = State(
    snake: seq<Cell>,
    food: Cell,
    dx: int,
    dy: int,
    score: int,
    highScore: int,
    isRunning: bool,
    isPaused: bool,
    gameLoop: Timer)

  /** Points per food eaten. */
  const Reward := 10

  /** The snake every game starts with: three cells heading right along row 10. */
  const StartSnake := [Cell(10, 10), Cell(9, 10), Cell(8, 10)]

  /** The state when the page has loaded, with the high score read from storage. */
  function Loaded(storedHighScore: int): State {
    State([], Cell(10, 10), 0, 0, 0, storedHighScore, false, false, Cleared)
  }

  /** Some draw misses the body, so the retrying food placement stops. */
  predicate FoodAvailable(body: seq<Cell>, draws: seq<Cell>) {
    exists i :: 0 <= i < |draws| && draws[i] !in body
  }

  /** The number of draws food placement rejects before it finds a cell off the
      body: the draw it settles on is free, and every earlier draw was taken. */
  function FirstFree(body: seq<Cell>, draws: seq<Cell>): (i: nat)
    requires FoodAvailable(body, draws)
    ensures i < |draws| && draws[i] !in body
    ensures forall j :: 0 <= j < i ==> draws[j] in body
    decreases |draws|
  {
    if draws[0] !in body then 0
    else
      var k :| 0 <= k < |draws| && draws[k] !in body;
      assert draws[1..][k - 1] == draws[k];
      1 + FirstFree(body, draws[1..])
  }

  /** The cell food placement settles on. */
  function PlacedFood(body: seq<Cell>, draws: seq<Cell>): Cell
    requires FoodAvailable(body, draws)
  {
    draws[FirstFree(body, draws)]
  }

  /** `initGame`: the starting snake, score 0, heading right, fresh food. */
  function InitGame(s: State, draws: seq<Cell>): State
    requires FoodAvailable(StartSnake, draws)
  {
    s.(snake := StartSnake, score := 0, dx := 1, dy := 0,
       food := PlacedFood(StartSnake, draws))
  }

  /** `startGame`: ignored while a game runs; otherwise a new game that is
      running, unpaused and ticking every `speed` milliseconds. */
  function StartGame(s: State, speed: int, draws: seq<Cell>): State
    requires !s.isRunning ==> FoodAvailable(StartSnake, draws)
  {
    if s.isRunning then s
    else InitGame(s, draws).(isRunning := true, isPaused := false, gameLoop := Interval(speed))
  }

  /** `gameOver`: stop the game and clear the timer; nothing else changes. */
  function GameOver(s: State): State {
    s.(isRunning := false, gameLoop := Cleared)
  }

  /** `togglePause`: ignored unless a game runs. */
  function TogglePause(s: State): State {
    if !s.isRunning then s else s.(isPaused := !s.isPaused)
  }

  /** The difficulty selector's change handler: a running game (paused or not)
      gets a timer with the new period. */
  function ChangeDifficulty(s: State, speed: int): State {
    if s.isRunning then s.(gameLoop := Interval(speed)) else s
  }

  /** The unit move a request asks for. */
  function Vector(d: Dir): (int, int) {
    match d
    case Up => (0, -1)
    case Down => (0, 1)
    case Left => (-1, 0)
    case Right => (1, 0)
  }

  function Opposite(d: Dir): Dir {
    match d
    case Up => Down
    case Down => Up
    case Left => Right
    case Right => Left
  }

  /** A direction request against the pending direction (dx, dy): each request
      looks at one component only. */
  function Turn(dx: int, dy: int, d: Dir): (int, int) {
    match d
    case Up => if dy != 1 then (0, -1) else (dx, dy)
    case Down => if dy != -1 then (0, 1) else (dx, dy)
    case Left => if dx != 1 then (-1, 0) else (dx, dy)
    case Right => if dx != -1 then (1, 0) else (dx, dy)
  }

  /** A run of requests made between two ticks, applied in order. */
  function TurnAll(dx: int, dy: int, ds: seq<Dir>): (int, int)
    decreases |ds|
  {
    if ds == [] then (dx, dy)
    else
      var v := Turn(dx, dy, ds[0]);
      TurnAll(v.0, v.1, ds[1..])
  }

  /** Ticks happen only while a game runs and is not paused. */
  predicate Active(s: State) {
    s.isRunning && !s.isPaused
  }

  /** Where the head goes on the next tick. */
  function NextHead(s: State, n: int): Cell
    requires n > 0 && s.snake != []
  {
    Step(s.snake[0], s.dx, s.dy, n)
  }

  /** The next tick eats: the new head misses the body and lands on the food. */
  predicate Eats(s: State, n: int)
    requires n > 0 && (Active(s) ==> s.snake != [])
  {
    Active(s) && NextHead(s, n) !in s.snake && NextHead(s, n) == s.food
  }

  /** What one tick needs: a body to move when it runs, and, when it eats, a
      random source that eventually draws a cell off the grown snake. */
  predicate Tickable(s: State, n: int, draws: seq<Cell>) {
    n > 0 && (Active(s) ==> s.snake != []) &&
    (Eats(s, n) ==> FoodAvailable([s.food] + s.snake, draws))
  }

  /** `update`: one tick of the game. */
  function Tick(s: State, n: int, draws: seq<Cell>): State
    requires Tickable(s, n, draws)
  {
    if !Active(s) then s
    else
      var head := NextHead(s, n);
      if head in s.snake then GameOver(s)
      else if head == s.food then
        var body := [head] + s.snake;
        var score := s.score + Reward;
        s.(snake := body, score := score, food := PlacedFood(body, draws),
           highScore := if score > s.highScore then score else s.highScore)
      else
        s.(snake := [head] + s.snake[..|s.snake| - 1])
  }

  /** The board part of the invariant: the snake lies on the field without
      repeated cells, the food lies on the field off the snake, and every
      segment beyond the first three was paid for with exactly one reward. */
  predicate Board(s: State, n: int) {
    AllOnGrid(s.snake, n) && Distinct(s.snake) &&
    OnGrid(s.food, n) && s.food !in s.snake &&
    s.score % Reward == 0 && |s.snake| == 3 + s.score / Reward
  }

  /** What holds of every state the game can reach once the page has loaded. */
  predicate Inv(s: State, n: int) {
    n > 10 &&
    (s.isPaused ==> s.isRunning) &&
    (s.isRunning <==> s.gameLoop.Interval?) &&
    0 <= s.score <= s.highScore &&
    (IsUnit(s.dx, s.dy) || (s.snake == [] && s.dx == 0 && s.dy == 0)) &&
    (s.snake == [] ==> !s.isRunning && s.score == 0) &&
    (s.snake != [] ==> Board(s, n))
  }

  // ---------------------------------------------------------------------------
  // Food placement

  /** Placement yields a cell on the field off the body, and it is the first
      such draw: every draw before it was rejected. */
  lemma PlacedFoodIsFree(body: seq<Cell>, draws: seq<Cell>, n: int)
    requires FoodAvailable(body, draws) && AllOnGrid(draws, n)
    ensures PlacedFood(body, draws) !in body && OnGrid(PlacedFood(body, draws), n)
    ensures exists i :: 0 <= i < |draws| && draws[i] == PlacedFood(body, draws) &&
              forall j :: 0 <= j < i ==> draws[j] in body
  {
    var i := FirstFree(body, draws);
    assert draws[i] == PlacedFood(body, draws);
  }

  // ---------------------------------------------------------------------------
  // Ticks

  /** A tick is a no-op while paused or while no game runs. */
  lemma IdleTick(s: State, n: int, draws: seq<Cell>)
    requires Tickable(s, n, draws) && !Active(s)
    ensures Tick(s, n, draws) == s
  {
  }

  /** A head that lands on any segment, the tail included although the tail
      would have moved on, ends the game; snake, score, food and direction are
      left as they were. This check comes before the food check. */
  lemma CollisionEndsGame(s: State, n: int, draws: seq<Cell>)
    requires Tickable(s, n, draws) && Active(s) && NextHead(s, n) in s.snake
    ensures var r := Tick(s, n, draws);
      !r.isRunning && r.gameLoop == Cleared &&
      r.snake == s.snake && r.score == s.score && r.food == s.food &&
      r.highScore == s.highScore && (r.dx, r.dy) == (s.dx, s.dy)
  {
  }

  /** Moving onto the cell the tail occupies is a collision. */
  lemma TailCollisionEndsGame(s: State, n: int, draws: seq<Cell>)
    requires Tickable(s, n, draws) && Active(s) && NextHead(s, n) == s.snake[|s.snake| - 1]
    ensures !Tick(s, n, draws).isRunning && Tick(s, n, draws).snake == s.snake
  {
    assert NextHead(s, n) in s.snake;
  }

  /** A tick that neither collides nor eats moves the snake by one cell: the new
      head in front, the old tail dropped; length, score and food stay. */
  lemma PlainTickShifts(s: State, n: int, draws: seq<Cell>)
    requires Tickable(s, n, draws) && Active(s)
    requires NextHead(s, n) !in s.snake && NextHead(s, n) != s.food
    ensures var r := Tick(s, n, draws);
      r.snake == [NextHead(s, n)] + s.snake[..|s.snake| - 1] &&
      |r.snake| == |s.snake| && r.score == s.score && r.food == s.food &&
      r.highScore == s.highScore && r.isRunning
  {
  }

  /** An eating tick grows the snake by its new head, adds exactly one reward,
      places the food off the grown snake and raises the high score to the
      score when it passes it. */
  lemma EatingTickGrows(s: State, n: int, draws: seq<Cell>)
    requires Tickable(s, n, draws) && Eats(s, n) && AllOnGrid(draws, n)
    ensures var r := Tick(s, n, draws);
      r.snake == [s.food] + s.snake && |r.snake| == |s.snake| + 1 &&
      r.score == s.score + Reward &&
      r.food !in r.snake && r.food in draws && OnGrid(r.food, n) &&
      r.highScore == (if r.score > s.highScore then r.score else s.highScore) &&
      r.isRunning
  {
    var body := [s.food] + s.snake;
    PlacedFoodIsFree(body, draws, n);
  }

  /** Every tick keeps the invariant, and the high score never falls. */
  lemma TickKeepsInv(s: State, n: int, draws: seq<Cell>)
    requires Inv(s, n) && Tickable(s, n, draws) && AllOnGrid(draws, n)
    ensures Inv(Tick(s, n, draws), n)
    ensures Tick(s, n, draws).highScore >= s.highScore
  {
    if Active(s) {
      var head := NextHead(s, n);
      if head !in s.snake {
        if head == s.food {
          var body := [head] + s.snake;
          PrependDistinct(head, s.snake);
          PlacedFoodIsFree(body, draws, n);
          assert (s.score + Reward) / Reward == s.score / Reward + 1;
        } else {
          var body := [head] + s.snake[..|s.snake| - 1];
          PrefixDistinct(s.snake, |s.snake| - 1);
          PrependDistinct(head, s.snake[..|s.snake| - 1]);
          assert s.food !in body;
        }
      }
    }
  }

  // ---------------------------------------------------------------------------
  // Lifecycle

  /** Starting while a game runs changes nothing; otherwise the game is reset to
      the starting snake heading right, score 0, food off the snake, running
      and unpaused on a timer of the chosen period. The high score is kept. */
  lemma StartResets(s: State, speed: int, draws: seq<Cell>, n: int)
    requires (!s.isRunning ==> FoodAvailable(StartSnake, draws)) && AllOnGrid(draws, n)
    ensures s.isRunning ==> StartGame(s, speed, draws) == s
    ensures !s.isRunning ==>
      var r := StartGame(s, speed, draws);
      r.snake == StartSnake && r.score == 0 && (r.dx, r.dy) == (1, 0) &&
      r.isRunning && !r.isPaused && r.gameLoop == Interval(speed) &&
      r.food !in StartSnake && OnGrid(r.food, n) && r.highScore == s.highScore
  {
    if !s.isRunning {
      PlacedFoodIsFree(StartSnake, draws, n);
    }
  }

  /** Starting keeps the invariant. */
  lemma StartKeepsInv(s: State, speed: int, draws: seq<Cell>, n: int)
    requires Inv(s, n) && (!s.isRunning ==> FoodAvailable(StartSnake, draws))
    requires AllOnGrid(draws, n)
    ensures Inv(StartGame(s, speed, draws), n)
  {
    if !s.isRunning {
      PlacedFoodIsFree(StartSnake, draws, n);
    }
  }

  /** The page-load state satisfies the invariant. */
  lemma LoadedInv(storedHighScore: int, n: int)
    requires n > 10 && storedHighScore >= 0
    ensures Inv(Loaded(storedHighScore), n)
  {
  }

  /** Game over stops the game and clears the timer, and keeps the invariant. */
  lemma GameOverStops(s: State, n: int)
    requires Inv(s, n) && !s.isPaused
    ensures !GameOver(s).isRunning && GameOver(s).gameLoop == Cleared
    ensures GameOver(s).snake == s.snake && GameOver(s).score == s.score
    ensures Inv(GameOver(s), n)
  {
  }

  /** Pausing flips the pause flag of a running game and nothing else, leaves a
      stopped game alone, undoes itself, and keeps the invariant. */
  lemma TogglePauseFlips(s: State, n: int)
    requires Inv(s, n)
    ensures s.isRunning ==> TogglePause(s) == s.(isPaused := !s.isPaused)
    ensures !s.isRunning ==> TogglePause(s) == s
    ensures TogglePause(TogglePause(s)) == s
    ensures Inv(TogglePause(s), n)
  {
  }

  /** A difficulty change never starts, stops, pauses or resumes the game; a
      running game gets exactly one timer, of the new period. */
  lemma ChangeDifficultyKeepsRunState(s: State, speed: int, n: int)
    requires Inv(s, n)
    ensures var r := ChangeDifficulty(s, speed);
      r.isRunning == s.isRunning && r.isPaused == s.isPaused &&
      (s.isRunning ==> r.gameLoop == Interval(speed)) &&
      (!s.isRunning ==> r == s) && Inv(r, n)
  {
  }

  // ---------------------------------------------------------------------------
  // Direction requests

  /** For a unit pending direction, the component test rejects a request
      exactly when it asks for the reverse of the pending direction; before any
      game the pending direction is (0, 0) and every request is taken. */
  lemma TurnRejectsOnlyReversal(dx: int, dy: int, d: Dir)
    requires IsUnit(dx, dy) || (dx == 0 && dy == 0)
    ensures Turn(dx, dy, d) == if (dx, dy) == Vector(Opposite(d)) then (dx, dy) else Vector(d)
  {
  }

  /** The pending direction stays a unit move once it is one, and becomes one
      on the first request. */
  lemma TurnKeepsUnit(dx: int, dy: int, d: Dir)
    requires IsUnit(dx, dy) || (dx == 0 && dy == 0)
    ensures IsUnit(Turn(dx, dy, d).0, Turn(dx, dy, d).1)
  {
  }

  /** Requests for the reverse of the pending direction, however many, leave
      it unchanged. */
  lemma {:induction false} ReversalRequestsIgnored(d: Dir, k: nat)
    ensures var v := Vector(Opposite(d)); TurnAll(v.0, v.1, seq(k, _ => d)) == v
  {
    var v := Vector(Opposite(d));
    if k > 0 {
      assert seq(k, _ => d)[1..] == seq(k - 1, _ => d);
      assert Turn(v.0, v.1, d) == v;
      ReversalRequestsIgnored(d, k - 1);
    }
  }

  /** The test is against the pending direction, not the one the last tick
      used: moving right, Up then Left before the next tick turns the snake
      straight back on itself. */
  lemma PendingCheckAllowsReversal()
    ensures TurnAll(1, 0, [Up, Left]) == (-1, 0)
  {
    assert [Up, Left][1..] == [Left];
  }
}
