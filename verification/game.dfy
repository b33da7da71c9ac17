/** The game: a snake, one food cell, a score and the game-over flag,
    driven frame by frame: first every pending event, then one tick. */
module Game {
  import opened Grid
  import opened Snakes
  import opened Controls

  /** The points one piece of food is worth. */
  const FoodScore: int := 10

  /** An input event: a key press, or anything else (which the game ignores). */
  datatype Event = KeyDown(key: Key) | OtherEvent

  datatype GameState = GameState(snake: Snake, food: Cell, score: int, gameOver: bool)

  /** What every reachable state satisfies: the list is non-empty and within
      the target length, it lies on the grid as a chain of neighbouring
      cells, the food is on the grid, and the score pays 10 for every cell
      the target length has grown by. */
  predicate Valid(g: GameState) {
    && 0 < |g.snake.positions| <= g.snake.length
    && AllInBounds(g.snake.positions)
    && Connected(g.snake.positions)
    && InBounds(g.food)
    && g.score == FoodScore * (g.snake.length - 1)
  }

  /** The state at start-up; `food` is the cell the first spawn picked at
      random, which lies on the grid. */
  function NewGame(food: Cell): (g: GameState)
    requires InBounds(food)
    ensures Valid(g)
    ensures g.snake == NewSnake() && g.food == food
    ensures g.score == 0 && !g.gameOver
  {
    GameState(NewSnake(), food, 0, false)
  }

  /** The self-collision test: the head lies on a later cell of the list,
      that is, some cell at index 1 or beyond equals the head. */
  predicate HitsItself(s: Snake)
    requires |s.positions| > 0
    ensures HitsItself(s) <==> exists i :: 1 <= i < |s.positions| && s.positions[i] == s.positions[0]
  {
    s.positions[0] in s.positions[1..]
  }

  /** One event. After game over any key press restarts the game (with
      `spawn` as the freshly placed food); while playing a key press may
      change the heading under the reversal guard. Other events do nothing. */
  function HandleEvent(g: GameState, e: Event, spawn: Cell): (r: GameState)
    requires InBounds(spawn)
    ensures e.OtherEvent? ==> r == g
    ensures e.KeyDown? && g.gameOver ==> r == NewGame(spawn)
    ensures e.KeyDown? && !g.gameOver ==>
      && r.snake.positions == g.snake.positions && r.snake.length == g.snake.length
      && r.food == g.food && r.score == g.score && !r.gameOver
      && r.snake.direction == ApplyKey(g.snake.direction, e.key)
      && r.snake.direction != Opposite(g.snake.direction)
    ensures Valid(g) ==> Valid(r)
  {
    match e
    case OtherEvent => g
    case KeyDown(k) =>
      if g.gameOver then
        g.(snake := Reset(g.snake), food := spawn, score := 0, gameOver := false)
      else
        g.(snake := g.snake.(direction := ApplyKey(g.snake.direction, k)))
  }

  /** Every food cell supplied for a spawn lies on the grid. */
  predicate SpawnsInBounds(spawns: seq<Cell>) {
    forall i :: 0 <= i < |spawns| ==> InBounds(spawns[i])
  }

  /** The events of one frame in arrival order; `spawns[i]` is the food cell
      used should event i restart the game. */
  function HandleEvents(g: GameState, events: seq<Event>, spawns: seq<Cell>): (r: GameState)
    requires |spawns| == |events| && SpawnsInBounds(spawns)
    ensures Valid(g) ==> Valid(r)
    ensures |g.snake.positions| > 0 ==> |r.snake.positions| > 0
    // no key press, no change: in particular a finished game stays finished
    ensures (forall i :: 0 <= i < |events| ==> events[i].OtherEvent?) ==> r == g
    // a game that is running stays running for the rest of the frame's events,
    // and its key presses change only the heading
    ensures !g.gameOver ==> !r.gameOver
    ensures !g.gameOver ==>
      && r.snake.positions == g.snake.positions && r.snake.length == g.snake.length
      && r.food == g.food && r.score == g.score
    // a finished game is restarted by any key press in the frame
    ensures g.gameOver && (exists i :: 0 <= i < |events| && events[i].KeyDown?) ==> !r.gameOver
    decreases |events|
  {
    if |events| == 0 then g
    else
      var next := HandleEvent(g, events[0], spawns[0]);
      assert g.gameOver && events[0].OtherEvent? && (exists i :: 0 <= i < |events| && events[i].KeyDown?) ==>
        exists i :: 0 <= i < |events[1..]| && events[1..][i].KeyDown? by {
        if g.gameOver && events[0].OtherEvent? && (exists i :: 0 <= i < |events| && events[i].KeyDown?) {
          var i :| 0 <= i < |events| && events[i].KeyDown?;
          assert events[1..][i - 1].KeyDown?;
        }
      }
      HandleEvents(next, events[1..], spawns[1..])
  }

  /** The frame's events are handled one after another in arrival order:
      handling one more event at the end is one more `HandleEvent` on the
      state the earlier events left, so the reversal guard of each press
      sees the heading the previous press set. */
  lemma {:induction false} HandleEventsSnoc(g: GameState, events: seq<Event>, spawns: seq<Cell>, e: Event, spawn: Cell)
    requires |spawns| == |events| && SpawnsInBounds(spawns) && InBounds(spawn)
    ensures SpawnsInBounds(spawns + [spawn])
    ensures HandleEvents(g, events + [e], spawns + [spawn]) == HandleEvent(HandleEvents(g, events, spawns), e, spawn)
    decreases |events|
  {
    assert SpawnsInBounds(spawns + [spawn]) by {
      forall i | 0 <= i < |spawns + [spawn]|
        ensures InBounds((spawns + [spawn])[i])
      {
        if i < |spawns| { assert (spawns + [spawn])[i] == spawns[i]; }
      }
    }
    if |events| == 0 {
      assert (events + [e])[1..] == [] && (spawns + [spawn])[1..] == [];
    } else {
      assert (events + [e])[1..] == events[1..] + [e];
      assert (spawns + [spawn])[1..] == spawns[1..] + [spawn];
      HandleEventsSnoc(HandleEvent(g, events[0], spawns[0]), events[1..], spawns[1..], e, spawn);
    }
  }

  /** One tick. Unless the game is over: update the snake, then eat the food
      if the head is on it (grow by one, score 10, new food at `spawn`), then
      end the game if the head hit the body. */
  function Tick(g: GameState, spawn: Cell): (r: GameState)
    requires InBounds(spawn) && |g.snake.positions| > 0
    ensures g.gameOver ==> r == g
    ensures !g.gameOver ==>
      && r.snake.positions == Update(g.snake).positions
      && r.snake.direction == g.snake.direction
    // eating: the head after the move is on the food
    ensures !g.gameOver && Update(g.snake).positions[0] == g.food ==>
      && r.snake.length == g.snake.length + 1
      && r.score == g.score + FoodScore
      && r.food == spawn
    ensures !g.gameOver && Update(g.snake).positions[0] != g.food ==>
      && r.snake.length == g.snake.length
      && r.score == g.score
      && r.food == g.food
    // game over exactly when the moved head lies on the rest of the body
    ensures !g.gameOver ==> |r.snake.positions| > 0 && (r.gameOver <==> HitsItself(r.snake))
  {
    if g.gameOver then g
    else
      var moved := Update(g.snake);
      var ate := Head(moved) == g.food;
      var s := if ate then moved.(length := moved.length + 1) else moved;
      GameState(s,
                if ate then spawn else g.food,
                if ate then g.score + FoodScore else g.score,
                HitsItself(s))
  }

  /** The tick keeps every part of the invariant; in particular eating
      raises the target length and the score in step. */
  lemma TickKeepsValid(g: GameState, spawn: Cell)
    requires Valid(g) && InBounds(spawn)
    ensures Valid(Tick(g, spawn))
  {
  }

  /** One pass of the main loop: the frame's events, then the tick. */
  function Frame(g: GameState, events: seq<Event>, spawns: seq<Cell>, tickSpawn: Cell): (r: GameState)
    requires |spawns| == |events| && SpawnsInBounds(spawns) && InBounds(tickSpawn)
    requires |g.snake.positions| > 0
    ensures Valid(g) ==> Valid(r)
    ensures g.gameOver && (forall i :: 0 <= i < |events| ==> events[i].OtherEvent?) ==> r == g
    // a game running after the events, whether it ran before or a key press
    // just restarted it, ticks once: the snake makes one update
    ensures !HandleEvents(g, events, spawns).gameOver ==>
      r.snake.positions == Update(HandleEvents(g, events, spawns).snake).positions
    // a game running from the start moves its head one step in the heading the events left
    ensures !g.gameOver ==>
      r.snake.positions[0] == Step(g.snake.positions[0], HandleEvents(g, events, spawns).snake.direction)
  {
    var h := HandleEvents(g, events, spawns);
    if Valid(g) then TickKeepsValid(h, tickSpawn); Tick(h, tickSpawn)
    else Tick(h, tickSpawn)
  }

  /** What the outside world feeds one frame: its events, a food cell for
      each event in case it restarts the game, and one for the tick. */
  datatype FrameInput = FrameInput(events: seq<Event>, spawns: seq<Cell>, tickSpawn: Cell)

  predicate WellFormed(f: FrameInput) {
    |f.spawns| == |f.events| && SpawnsInBounds(f.spawns) && InBounds(f.tickSpawn)
  }

  /** A whole session: the frames in order. */
  function Run(g: GameState, frames: seq<FrameInput>): (r: GameState)
    requires Valid(g)
    requires forall i :: 0 <= i < |frames| ==> WellFormed(frames[i])
    ensures Valid(r)
    // the score pays 10 for each cell the snake has grown by since the last restart
    ensures r.snake.length == 1 + r.score / FoodScore
    decreases |frames|
  {
    if |frames| == 0 then g
    else
      var f := frames[0];
      assert WellFormed(f);
      Run(Frame(g, f.events, f.spawns, f.tickSpawn), frames[1..])
  }
}
