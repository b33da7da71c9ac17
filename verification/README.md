# Snake game state machine

A Dafny model of the game logic of `snake-game2.py`, a single-file pygame
snake game. The field is a 40 x 30 grid (an 800 x 600 window in 20-pixel
cells) whose edges wrap around. The snake is a head-first list of cells
with a heading and a target length. Every frame the game first handles the
pending events: a key press restarts a finished game, and otherwise may
turn the snake, except straight back. Then, unless the game is over, it
ticks: the snake moves one cell, eats the food if its head lands on it
(growing by one and scoring 10), and the game ends if the head lands on
the body.

Modules, following the parts of the script:

- `Grid` (`grid.dfy`): the grid constants, `Cell`, `Direction`, and the
  head move `Step` with its wraparound. The grid size is written out as
  40 x 30, so that arithmetic modulo it stays linear for the solver;
  `GridFromWindow` proves it equal to the window size divided by the cell
  size.
- `Snakes` (`snakes.dfy`): the `Snake` record, `NewSnake`, `Update` and `Reset`.
- `Controls` (`controls.dfy`): the keys (arrows and W/A/S/D) and the
  reversal guard `ApplyKey`.
- `Game` (`game.dfy`): `GameState` (snake, food, score, game-over flag),
  the invariant `Valid`, and `HandleEvent(s)`, `Tick`, `Frame` and `Run`.
- `Scenarios` (`scenarios.dfy`): whole-play properties and worked examples.

The random food placement is a parameter: each operation that may place
food takes the cell the random draw produced, and requires it to be on the
grid, which is the range of the two `randint` calls.

Behaviours of the code worth knowing, each proved about the model:

- The reversal guard is checked per key press, against the heading the
  previous press left behind. So Up then Left in one frame does reverse
  a snake heading right, and a three-cell snake dies on that tick
  (`Scenarios.ReversalWithinOneFrame`).
- Food is drawn from the whole grid, so it may respawn on the snake or
  on the cell just eaten (`Scenarios.EatAhead`).
- Only key presses restart a finished game; other events are ignored
  (`Game.HandleEvents`).
- The wraparound clamps both coordinates on every move. So the new head
  is on the grid whatever the old head was, not only when the old head
  was on the grid (`Grid.Step`).

## Model

| member | source | states |
|---|---|---|
| `Grid.GridFromWindow` | snake-game2.py:9-13 | the grid is 40 columns by 30 rows: the 800 x 600 window divided by the 20-pixel cell size |
| `Grid.Opposite` | snake-game2.py:99-106 | the forbidden turn of each heading is a different heading that undoes its move offset on both axes, so Up/Down and Left/Right pair up |
| `Grid.WrapX` | snake-game2.py:47-50 | the column after a move is always on the grid, and for a column at most one off the grid it is that column modulo the width |
| `Grid.WrapY` | snake-game2.py:51-54 | the same for rows against the height |
| `Grid.Step` | snake-game2.py:35-54 | the next head is on the grid for any starting cell, and from an on-grid cell exactly the coordinate along the heading's axis changes |
| `Grid.StepModulo` | snake-game2.py:38-54 | from an on-grid cell a move is the one-cell step in the heading taken modulo the grid size (a torus) |
| `Grid.StepBack` | snake-game2.py:38-54 | a step followed by the opposite step returns to the starting cell |
| `Grid.StepMoves` | snake-game2.py:38-54 | a move from an on-grid cell always leaves that cell |
| `Grid.StepsModulo` | snake-game2.py:38-54 | k moves in one heading from an on-grid cell shift the coordinate along that axis by k, modulo the grid size, and leave the other coordinate alone |
| `Grid.FullLap` | snake-game2.py:38-54 | 40 moves left or right, or 30 moves up or down, bring the head back to its cell |
| `Snakes.NewSnake` | snake-game2.py:26-29 | a new snake is the single cell (20, 15), heading right, target length 1 |
| `Snakes.Head` | snake-game2.py:31-32 | the head is the first cell of the list, and a cell the snake occupies |
| `Snakes.Update` | snake-game2.py:34-58 | heading and target length are unchanged; the new head is the wrapped step of the old head; the list grows by one unless that would exceed the target length, in which case its size stays; behind the head the old list follows in order, minus at most its last cell |
| `Snakes.Reset` | snake-game2.py:60-63 | reset gives exactly the freshly constructed snake, whatever the snake was before |
| `Snakes.ResetIdempotent` | snake-game2.py:60-63 | resetting twice equals resetting once, and equals construction |
| `Snakes.UpdateLength` | snake-game2.py:56-58 | from a list within the target length, the update gives size min(old size + 1, target length), so the list stays non-empty and within the target length |
| `Snakes.UpdateCells` | snake-game2.py:56-58 | every cell of the updated snake is the new head or a cell the snake already occupied |
| `Snakes.UpdateKeepsShape` | snake-game2.py:34-58 | an on-grid list of neighbouring cells stays on the grid and stays a chain of neighbours after the update |
| `Snakes.UpdateN` | snake-game2.py:34-58 | repeated updates keep the heading and target length and never empty the list |
| `Snakes.UpdateNHead` | snake-game2.py:34-58 | after k updates with a fixed heading the head is k steps from where it was, and the list has grown by k cells capped at the target length |
| `Controls.Requested` | snake-game2.py:99-106 | exactly the arrow and W/A/S/D keys request a heading |
| `Controls.ApplyKey` | snake-game2.py:99-106 | one key press never sets the heading opposite to the one held at that moment; any other requested heading is taken; a reversal request or a non-direction key leaves the heading as it was |
| `Controls.ApplyKeyNoOp` | snake-game2.py:99-106 | a key press leaves the heading alone if and only if it requests nothing, a reversal, or the current heading |
| `Game.NewGame` | snake-game2.py:76-79 | the start state is the new snake, the given on-grid food, score 0, playing, and satisfies the invariant |
| `Game.HitsItself` | snake-game2.py:118 | the collision test holds exactly when some cell at index 1 or beyond equals the head |
| `Game.HandleEvent` | snake-game2.py:91-106 | a non-key event changes nothing; a key press after game over gives exactly the start state with the new food (score 0, playing, snake reset); a key press while playing only changes the heading, under the reversal guard; the invariant is kept |
| `Game.HandleEvents` | snake-game2.py:87-106 | handling a frame's events in order keeps the invariant and a non-empty list, and changes nothing without a key press; in a running game the key presses change only the heading (cells, target length, food and score stay) and the game stays running; a finished game is restarted by any key press in the frame |
| `Game.HandleEventsSnoc` | snake-game2.py:87-106 | the frame's events are handled in arrival order: one more event at the end is one more single-event step on the state the earlier ones left, so each press's reversal guard sees the heading the previous press set |
| `Game.Tick` | snake-game2.py:108-119 | a finished game is left unchanged; otherwise the snake is updated; if the moved head is on the food, the target length grows by exactly 1, the score by exactly 10, and the food moves to the spawned cell; otherwise all three stay; the game ends exactly when the moved head lies on the rest of the list |
| `Game.TickKeepsValid` | snake-game2.py:108-119 | a tick keeps the invariant: list non-empty and within the target length, on the grid, a chain of neighbours, food on the grid, score equal to 10 times (target length - 1) |
| `Game.Frame` | snake-game2.py:86-119 | a frame keeps the invariant; a finished game with no key press stays exactly as it was; a game running after the events makes one update, including a frame whose key press restarts a finished game, which also ticks; a game running from the start moves its head one step in the heading the frame's events left |
| `Game.Run` | snake-game2.py:86-119 | from a valid state any sequence of frames ends in a valid state whose target length is 1 plus the score divided by 10 |
| `Scenarios.ShortSnakeSurvives` | snake-game2.py:108-119 | a snake whose target length is at most 2 cannot collide with itself |
| `Scenarios.ThreeStepsFromCentre` | snake-game2.py:34-58 | from the centre heading right, three updates give heads (21, 15), (22, 15) and (23, 15) with a one-cell list |
| `Scenarios.WrapRightEdge` | snake-game2.py:47-54 | (39, 15) moving right becomes (0, 15), and the other three edges wrap the same way |
| `Scenarios.EatAhead` | snake-game2.py:112-115 | food just ahead of a new snake gives score 10 and target length 2 after one tick; the new food is the spawned cell, which may be the cell under the head |
| `Scenarios.RestartThenTick` | snake-game2.py:92-109 | a key press in a finished game restarts it and the same frame ticks the fresh snake to (21, 15), with the game running |
| `Scenarios.ReversalWithinOneFrame` | snake-game2.py:99-106 | Up then Left in one frame turns a right-heading snake straight back, a three-cell snake then ends the game on that tick, and a following frame without key presses leaves the finished game unchanged |

## Left out

- Window, drawing, fonts, `display.flip` and the cell-to-pixel mapping: these are calls into pygame (snake-game2.py:6, 22-23, 121-157).
- Frame pacing (`clock.tick(10)`) and the five-second controls overlay, which depend on the wall clock (snake-game2.py:84, 140, 158).
- The QUIT event and process exit, which are I/O (snake-game2.py:88-90). Events other than key presses are modelled as one ignored `OtherEvent`.
- Randomness in `Food.spawn`: the drawn cell is a parameter required to be on the grid (snake-game2.py:71-72). `Food.__init__` placing food at (0, 0) before its first spawn is not observable and is not modelled.
- `Snakes.Update` requires a non-empty list: the source would fail indexing an empty list. The invariant `Game.Valid` shows this never happens.
- Headings are a closed enumeration, so the source's fall-through for an unknown heading string (no move) cannot occur.
