/** Concrete runs on a 20 x 20 field, from the starting position. */
module Scenarios {
  import opened Grid
  import opened Rules

  /** A game just started, heading right, with the food at `food`. */
  function Started(food: Cell): State {
    State(StartSnake, food, 1, 0, 0, 0, true, false, Interval(100))
  }

  /** With no food ahead, one tick moves the snake one cell to the right. */
  lemma FirstTickMoves(food: Cell, draws: seq<Cell>)
    requires food != Cell(11, 10)
    ensures Tickable(Started(food), 20, draws)
    ensures Tick(Started(food), 20, draws).snake == [Cell(11, 10), Cell(10, 10), Cell(9, 10)]
    ensures Tick(Started(food), 20, draws).score == 0
  {
    assert NextHead(Started(food), 20) == Cell(11, 10);
  }

  /** With the food just ahead, one tick eats it: four cells, score 10, and
      new food off all four. */
  lemma FirstTickEats(draws: seq<Cell>)
    requires FoodAvailable([Cell(11, 10)] + StartSnake, draws) && AllOnGrid(draws, 20)
    ensures Tickable(Started(Cell(11, 10)), 20, draws)
    ensures var r := Tick(Started(Cell(11, 10)), 20, draws);
      r.snake == [Cell(11, 10), Cell(10, 10), Cell(9, 10), Cell(8, 10)] &&
      r.score == 10 && r.highScore == 10 && r.food !in r.snake
  {
    var s := Started(Cell(11, 10));
    assert NextHead(s, 20) == Cell(11, 10);
    EatingTickGrows(s, 20, draws);
  }

  /** Heading left from column 0 re-enters at column 19, where the body is:
      the game is over. */
  lemma WrapIntoBodyEndsGame(draws: seq<Cell>)
    ensures var s := State([Cell(0, 10), Cell(19, 10), Cell(18, 10)], Cell(5, 5), -1, 0,
                           0, 0, true, false, Interval(100));
      Tickable(s, 20, draws) && NextHead(s, 20) == Cell(19, 10) &&
      !Tick(s, 20, draws).isRunning && Tick(s, 20, draws).snake == s.snake
  {
    var s := State([Cell(0, 10), Cell(19, 10), Cell(18, 10)], Cell(5, 5), -1, 0,
                   0, 0, true, false, Interval(100));
    assert NextHead(s, 20) == Cell(19, 10);
    assert s.snake[1] == Cell(19, 10);
  }

  /** Up then Left pressed before the first tick turns the snake back into its
      own neck, and that tick ends the game. */
  lemma QuickReversalEndsGame(food: Cell, draws: seq<Cell>)
    ensures var v := TurnAll(1, 0, [Up, Left]);
      var s := Started(food).(dx := v.0, dy := v.1);
      Tickable(s, 20, draws) && !Tick(s, 20, draws).isRunning
  {
    PendingCheckAllowsReversal();
    var s := Started(food).(dx := -1, dy := 0);
    assert NextHead(s, 20) == Cell(9, 10) == s.snake[1];
  }
}
