/** Properties of whole plays, and worked examples on the 40 x 30 grid. */
module Scenarios {
  import opened Grid
  import opened Snakes
  import opened Controls
  import opened Game

  /** A snake whose target length is at most two cannot run into itself:
      after the move the list is the new head and at most the old head,
      which is one cell away. */
  lemma ShortSnakeSurvives(g: GameState, spawn: Cell)
    requires Valid(g) && InBounds(spawn) && !g.gameOver
    requires g.snake.length <= 2
    ensures !Tick(g, spawn).gameOver
  {
  }

  /** Heading right from the centre, three updates put the head at columns
      21, 22 and 23 of row 15 while the list keeps one cell. */
  lemma ThreeStepsFromCentre()
    ensures Update(NewSnake()).positions == [Cell(21, 15)]
    ensures Update(Update(NewSnake())).positions == [Cell(22, 15)]
    ensures Update(Update(Update(NewSnake()))).positions == [Cell(23, 15)]
  {
  }

  /** Moving right off the last column re-enters at column 0. */
  lemma WrapRightEdge()
    ensures Step(Cell(39, 15), Right) == Cell(0, 15)
    ensures Step(Cell(0, 15), Left) == Cell(39, 15)
    ensures Step(Cell(7, 0), Up) == Cell(7, 29)
    ensures Step(Cell(7, 29), Down) == Cell(7, 0)
  {
  }

  /** Food just ahead of a new snake is eaten on the next tick: score 10,
      target length 2, and the food goes wherever the spawn says, which may
      be the very cell just eaten, now under the head. */
  lemma EatAhead(spawn: Cell)
    requires InBounds(spawn)
    ensures Tick(NewGame(Cell(21, 15)), spawn).score == 10
    ensures Tick(NewGame(Cell(21, 15)), spawn).snake.length == 2
    ensures Tick(NewGame(Cell(21, 15)), spawn).food == spawn
    ensures spawn == Cell(21, 15) ==>
      Tick(NewGame(Cell(21, 15)), spawn).food == Tick(NewGame(Cell(21, 15)), spawn).snake.positions[0]
  {
  }

  /** A key press in a finished game restarts it, and the same frame then
      ticks: the fresh snake moves from the centre to (21, 15), and the game
      is running. */
  lemma RestartThenTick(g: GameState, k: Key, spawn: Cell, tickSpawn: Cell)
    requires g.gameOver && |g.snake.positions| > 0
    requires InBounds(spawn) && InBounds(tickSpawn)
    ensures Frame(g, [KeyDown(k)], [spawn], tickSpawn).snake.positions == [Cell(21, 15)]
    ensures !Frame(g, [KeyDown(k)], [spawn], tickSpawn).gameOver
  {
    assert HandleEvents(g, [KeyDown(k)], [spawn]) == NewGame(spawn) by {
      assert [KeyDown(k)][1..] == [] && [spawn][1..] == [];
    }
  }

  /** A three-cell snake heading right, with room around it. */
  function Hook(): (g: GameState)
    ensures Valid(g) && !g.gameOver && g.snake.direction == Right
  {
    var g := GameState(Snake([Cell(5, 5), Cell(4, 5), Cell(3, 5)], Right, 3), Cell(0, 0), 20, false);
    assert Adjacent(Cell(5, 5), Cell(4, 5)) by { assert Cell(5, 5) == Step(Cell(4, 5), Right); }
    assert Adjacent(Cell(4, 5), Cell(3, 5)) by { assert Cell(4, 5) == Step(Cell(3, 5), Right); }
    g
  }

  /** The reversal guard checks each key press against the heading left by
      the previous one, so Up then Left in a single frame turns a snake
      heading right straight back: its head lands on its own neck and the
      game ends on that very tick. A following frame without key presses
      changes nothing. */
  lemma ReversalWithinOneFrame()
    ensures HandleEvents(Hook(), [KeyDown(ArrowUp), KeyDown(ArrowLeft)], [Cell(0, 0), Cell(0, 0)]).snake.direction
            == Opposite(Hook().snake.direction)
    ensures Frame(Hook(), [KeyDown(ArrowUp), KeyDown(ArrowLeft)], [Cell(0, 0), Cell(0, 0)], Cell(0, 0)).gameOver
    ensures var over := Frame(Hook(), [KeyDown(ArrowUp), KeyDown(ArrowLeft)], [Cell(0, 0), Cell(0, 0)], Cell(0, 0));
      Frame(over, [OtherEvent], [Cell(0, 0)], Cell(0, 0)) == over
  {
    var g := Hook();
    var es := [KeyDown(ArrowUp), KeyDown(ArrowLeft)];
    var sp := [Cell(0, 0), Cell(0, 0)];
    var g1 := HandleEvent(g, es[0], sp[0]);
    assert g1.snake.direction == Up;
    var g2 := HandleEvent(g1, es[1], sp[1]);
    assert g2.snake.direction == Left;
    assert HandleEvents(g, es, sp) == HandleEvents(g1, es[1..], sp[1..]);
    assert es[1..][1..] == [] && sp[1..][1..] == [];
    assert HandleEvents(g1, es[1..], sp[1..]) == g2;
    var t := Tick(g2, Cell(0, 0));
    assert t.snake.positions == [Cell(4, 5), Cell(5, 5), Cell(4, 5)];
    assert t.snake.positions[1..][1] == Cell(4, 5);
  }
}
