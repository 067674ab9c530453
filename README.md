# Block-stack and snake engines, modelled and verified in Dafny

This project models the two game engines of a browser arcade: the
block-stack engine (`TetrisGame`) and the snake engine (`SnakeGame`). Each
engine is a class whose fields change one discrete step at a time.

- **Block-stack.** The engine keeps a 20x10 board of cells. Each cell is
  empty or holds a colour tag. It has one falling piece (a kind, a 4x4 0/1
  shape and an anchor), plus score, level, lines, running and paused flags,
  the tick timer and the high score. The rules are:
  - placement validity;
  - guarded moves;
  - clockwise rotation with an ordered list of wall kicks;
  - locking a piece into the board;
  - line clearing by a bottom-up scan that re-examines an index after each removal;
  - the scoring and level table;
  - the landing sequence (lock, clear, score, spawn, game over);
  - the hard drop.
- **Snake.** The engine keeps a 20x20 grid, a snake (head first), one food
  cell, the committed and the queued direction, score, tick speed, running
  and paused flags, the timer and the high score. The rules are:
  - the tick: commit the direction, step the head, check for a collision, then grow or shift;
  - collision against the walls and the pre-move body;
  - the speed staircase;
  - the rule that input never reverses the committed direction;
  - bounded-retry food placement.

Files:

- `shared.dfy` (module `Shared`): the optional value, the sound cues and `Max`.
- `tetris_rules.dfy` (module `TetrisRules`): the block-stack rules as pure
  definitions over values. `Fits` is placement validity, `Rotated` and
  `RotateAttempt` are rotation with kicks, `Locked` is locking, `Cleared` is
  the cleared board, and `LinePoints`, `ClearScore`, `LevelFor` and
  `Interval` are the tables. The engine snapshot is `TetrisState` with its
  invariant `Inv`. The landing sequence is `Landed`, then `Spawned`, which
  together make `Settle`; `Dropped` is the hard drop before it lands.
- `tetris_game.dfy` (module `Tetris`): class `TetrisGame`. Its board is a
  `seq` field that the methods reassign. The loops (placement check, lock,
  clearing scan, kick search, hard-drop loop) are `while` loops proved
  against the functions above.
- `snake_rules.dfy` (module `SnakeRules`): the snake rules as pure
  definitions. They cover the grid, `Collides`, `SpeedFor`, `FreeDraw` and
  `PlacedFood` (food placement), and the snapshot `SnakeState` with its
  invariant `Inv`. The tick is `Tick`, with `Advanced` and `Fed` as its
  parts.
- `snake_game.dfy` (module `Snake`): class `SnakeGame`. The retry loop of
  food placement is a `while` loop proved against `PlacedFood`.

Each class has a ghost snapshot `State()` and the invariant `Valid()`
(`Inv(State())`). Composite steps are proved equal to a pure reference
function applied to the old snapshot, for example
`State() == Settle(old(State()), roll)` and
`State() == Tick(old(State()), draws)`. The lemmas in the rules modules then
state what the engines promise about those functions.

Environment inputs become parameters:

- The random piece index is `roll` (below 7, an index into the list of
  piece names).
- The random food cells are `draws`: at least 401 in-grid cells, because the
  retry loop draws at most 401 times.
- The high score read from persistent storage is a constructor argument.
- Whether the snake page is showing at reset is the flag `showing`.

The scheduled tick timer is modelled as its period (`timer`, `None` when
cleared). Sound cues are an appended log (`cues`).

Some behaviour of the code is easy to miss; the model follows the code:

- When placement of new food gives up, the code leaves the food as it was
  and does not clear it (`PlacedFood`).
- A level-up in either engine calls `startGame`. That restarts the timer at
  the new interval inside the engine, and also marks the game running and
  unpaused (`ScoreLines`, `Fed`).
- A snake tick with no food on the board fails in the code after the new
  head has been prepended. The model stops the step at that point
  (`Advance`, `Advanced`).
- The hard drop has no running or paused guard, only the check for a piece
  (`HardDrop`).
- The snake reset starts the game only when the snake page is showing
  (`ResetGame`).

## Model

| member | source | states |
|---|---|---|
| TetrisRules.Spawn | tetris_game.js:199-211 | a spawned piece is the template of the rolled kind, anchored at (3, 0), with a 4x4 shape holding an occupied cell |
| TetrisRules.TemplateIsShape | tetris_game.js:166-195 | every one of the seven templates is a 4x4 matrix with at least one occupied cell |
| TetrisRules.SpawnFitsEmptyBoard | tetris_game.js:199-234 | every freshly spawned piece is in a valid position on an empty board |
| TetrisRules.FitsShifted | tetris_game.js:214-234 | validity at an offset equals validity of the piece translated by that offset |
| TetrisRules.FitsAboveFloor | tetris_game.js:222 | a piece that is valid at a vertical offset has its anchor above the bottom row, so a fall is bounded |
| Tetris.TetrisGame.IsValidPosition | tetris_game.js:214-234 | the nested scan returns true exactly when every occupied cell is inside columns 0..9, above row 20, and on an empty cell or above the board |
| Tetris.TetrisGame.MovePiece | tetris_game.js:236-243 | moves by exactly the offset and returns true when the translated piece is valid; otherwise returns false and leaves the piece and board unchanged |
| TetrisRules.Rotated | tetris_game.js:250-253 | gathering each column across the rows and reversing it gives a 4x4 matrix whose cell (i, j) is cell (3 - j, i) of the original: the clockwise quarter turn |
| TetrisRules.Reversed | tetris_game.js:252 | the reversed sequence has the same length and entry k is entry length - 1 - k of the input |
| TetrisRules.RotateFourTimes | tetris_game.js:250-253 | four rotations give back the original shape |
| TetrisRules.RotatedHasCell | tetris_game.js:250-253 | rotation keeps an occupied cell |
| TetrisRules.RotateO | tetris_game.js:171-173 | the O template is fixed by rotation |
| TetrisRules.FirstFit | tetris_game.js:259-270 | the index found is the first kick at which the piece fits: none before it fits, and it fits when one exists |
| TetrisRules.RotateAttempt | tetris_game.js:245-279 | any rotation the attempt commits keeps the kind, has the clockwise-rotated shape and is at a valid position |
| TetrisRules.RotateAttemptSpec | tetris_game.js:245-279 | a rotation either yields the rotated shape at the original anchor when valid there, or at the first valid kick offset, otherwise no change; any committed result is valid |
| Tetris.TetrisGame.RotatePiece | tetris_game.js:245-279 | the piece becomes the result of the rotation attempt with the rotate cue, or, when neither place nor kick works, shape and anchor are the originals and no cue fires; the invariant is kept |
| TetrisRules.Locked | tetris_game.js:281-299 | locking keeps a 20x10 board |
| TetrisRules.LockedCells | tetris_game.js:281-299 | a board cell holds the piece's colour after locking exactly when an occupied shape cell maps onto it; every other cell is unchanged |
| Tetris.TetrisGame.LockPiece | tetris_game.js:281-299 | the nested write loop produces exactly the locked board; with no piece the board is unchanged |
| TetrisRules.Cleared | tetris_game.js:301-313 | the cleared board has as many rows as the board it came from |
| TetrisRules.ClearedFacts | tetris_game.js:301-313 | clearing keeps 20 rows of 10, leaves no complete row, puts one empty row on top per complete row, and keeps the surviving rows in their original order; a board with no complete row is unchanged |
| TetrisRules.KeptLength | tetris_game.js:301-313 | every row is either kept or counted as complete |
| TetrisRules.KeptRows | tetris_game.js:305 | each kept row is incomplete and keeps its width |
| TetrisRules.ScanStep | tetris_game.js:304-312 | one step of the bottom-up scan either splices out a complete original row and puts an empty row on top, or passes an incomplete or empty row |
| Tetris.TetrisGame.ClearLines | tetris_game.js:301-339 | the in-place scan leaves the cleared board and returns the number of complete rows; score, lines, level, cues, flags and timer change as the scoring table says |
| TetrisRules.LinePoints | tetris_game.js:317 | the points table pays a multiple of 100, nothing exactly when no row went, and at least 100 per row otherwise |
| TetrisRules.LevelFor | tetris_game.js:321 | the level a line count earns is at least 1 and is the level whose band of ten lines contains the count: floor(lines/10)+1 |
| TetrisRules.LockedFullRows | tetris_game.js:317-318 | on a board without complete rows, locking a piece completes at most 4 rows, so the points table index stays in range |
| Tetris.TetrisGame.ScoreLines | tetris_game.js:315-327 | n cleared rows add LinePoints(n) times the level to the score and n to the lines; the level rises to floor(lines/10)+1 when that is higher, with the level-up cue and a restart at the new interval |
| TetrisRules.Interval | tetris_game.js:127 | the interval is a multiple of 100 ms, at least 100, 1000 or more at level 1 and below, and exactly 100 from level 10 on |
| TetrisRules.IntervalFacts | tetris_game.js:127 | the tick interval stays between 100 and 1000 ms and never grows with the level |
| Tetris.TetrisGame.StartGame | tetris_game.js:121-129 | the game runs unpaused with the timer at the interval for the current level |
| Tetris.TetrisGame.TogglePause | tetris_game.js:131-140 | the pause flag flips only while running |
| Tetris.TetrisGame.ResetGame | tetris_game.js:96-119 | empty board, score 0, level 1, lines 0, a spawned piece, running and unpaused at the level-1 interval; high score and cues untouched |
| Tetris.TetrisGame.constructor | tetris_game.js:3-17 | no board, no piece, nothing running, the stored high score |
| Tetris.TetrisGame.SpawnNewPiece | tetris_game.js:199-211 | the current piece is the spawned template for the roll |
| Tetris.TetrisGame.GameOver | tetris_game.js:415-425 | both flags off, the timer cleared, the high score replaced when beaten |
| Tetris.TetrisGame.SaveHighScore | tetris_game.js:35-46 | reports whether the score beat the high score and leaves the maximum of the two |
| TetrisRules.LandedKeepsInv | tetris_game.js:147-152 | locking and clearing keep the invariant: a 20x10 board with no complete row and a well-formed piece |
| TetrisRules.SettleKeepsInv | tetris_game.js:147-159 | the whole landing sequence keeps the invariant |
| TetrisRules.SettleScoring | tetris_game.js:147-148 | a landing that completes n rows has n at most 4, earns LinePoints(n) times the old level, adds n lines, and sets the level from the lines so that it never decreases; the board keeps no complete row |
| TetrisRules.SettleGameOver | tetris_game.js:154-159 | after a landing in a running game the new piece is the spawned one at (3, 0), and the game stays running exactly when it is valid; otherwise the timer is cleared, both flags are off, the high score is recorded and the game-over cue is the last cue |
| Tetris.TetrisGame.LandPiece | tetris_game.js:147-152 | locking, clearing and the line-clear cue give exactly the landed state |
| Tetris.TetrisGame.SpawnNext | tetris_game.js:154-159 | spawning and the game-over check give exactly the spawned state |
| Tetris.TetrisGame.SettlePiece | tetris_game.js:147-159 | the landing sequence gives exactly the settled state and keeps the invariant |
| Tetris.TetrisGame.GameLoop | tetris_game.js:142-163 | stopped or paused: nothing changes; otherwise the piece moves down when that is valid, else the landing sequence runs |
| TetrisRules.DropDistance | tetris_game.js:344-347 | the counted fall is positive exactly when one move down is valid, and a positive fall ends with the anchor above the bottom row |
| TetrisRules.DropDistanceSpec | tetris_game.js:344-347 | every move down along the drop is valid and the one after the last is not |
| TetrisRules.Dropped | tetris_game.js:341-350 | the dropped state keeps the invariant |
| TetrisRules.DroppedRests | tetris_game.js:341-350 | the dropped piece rests where a move down fails, every row of the fall was valid, and the score grew by exactly twice the distance; nothing else changes |
| Tetris.TetrisGame.HardDrop | tetris_game.js:341-369 | the counting loop drops the piece by its drop distance and adds twice that distance, then the landing sequence runs; with no piece nothing changes |
| Tetris.KeyCommand | tetris_game.js:444-495 | a key maps to a command exactly when it is one of the twelve control keys: the arrows and w, a, s, d in either case |
| Tetris.TetrisGame.HandleInput | tetris_game.js:440-500 | stopped, paused or an unknown key: nothing changes; left and right move when valid, with the move cue only then; down moves when valid without locking; up is a rotation attempt |
| SnakeRules.Opposite | snake_game.js:292-305 | a direction is never its own opposite |
| SnakeRules.SpeedFor | snake_game.js:176-177 | the staircase speed is a multiple of 10 ms, 150 below 50 points and 50 from 500 points on |
| SnakeRules.SpeedBounds | snake_game.js:99 | the speed staircase stays between 50 and 150 ms |
| SnakeRules.SpeedStep | snake_game.js:176-177 | on a score in steps of ten, ten more points move the speed one 10 ms step down, floored at 50, exactly at a multiple of 50, and leave it alone otherwise |
| SnakeRules.FreeDraw | snake_game.js:213-227 | the index found is the first of the first 400 draws that is off the body; every earlier draw is on the body; 400 when all are |
| SnakeRules.PlacedFood | snake_game.js:208-230 | the food either stays as it was or moves to a cell off the body taken from the first 400 draws |
| SnakeRules.PlacedFoodSpec | snake_game.js:208-230 | placement either puts the food on an in-grid cell off the body taken from the first 400 draws, or, when all of those are on the body, leaves the food as it was |
| Snake.SnakeGame.SpawnFood | snake_game.js:208-230 | the do-while retry loop leaves exactly the placed food |
| SnakeRules.ResetInv | snake_game.js:92-101 | the reset state satisfies the invariant |
| Snake.SnakeGame.ResetGame | snake_game.js:92-120 | snake [(10,10)], both directions right, score 0, speed 150, unpaused, food placed, running with the timer at 150 exactly when the page shows; the invariant holds |
| Snake.SnakeGame.constructor | snake_game.js:4-24 | the stored high score, no cues, then the reset |
| Snake.SnakeGame.StartGame | snake_game.js:122-129 | running, unpaused, timer at the current speed |
| Snake.SnakeGame.TogglePause | snake_game.js:131-140 | the pause flag flips only while running |
| SnakeRules.CollidesCases | snake_game.js:195-206 | a head off the grid collides, and so does the cell the tail still occupies, since the check runs against the whole pre-move body |
| SnakeRules.Tick | snake_game.js:142-193 | a tick keeps a non-empty snake and the queued direction, adds 0 or 10 points, never lowers the high score, only appends cues, and changes nothing unless the game runs unpaused |
| SnakeRules.TickKeepsInv | snake_game.js:142-193 | a tick keeps the segments pairwise distinct and inside the grid, the queued direction not the reverse of the committed one, and the speed on its staircase |
| SnakeRules.AdvancedKeepsInv | snake_game.js:164-190 | moving onto an in-grid head off the body keeps the invariant, whether the snake eats or shifts |
| SnakeRules.FedKeepsInv | snake_game.js:168-184 | eating keeps the invariant: distinct in-grid segments and the speed on its staircase for the new score |
| SnakeRules.TickMovesHead | snake_game.js:146-155 | a running tick commits the queued direction, and without a collision the new head is exactly one cell from the old head |
| SnakeRules.TickCollision | snake_game.js:158-162 | a running game stops on a tick exactly when the new head leaves the grid or hits a pre-move segment; then snake, food and score are unchanged, the timer is cleared, the high score is recorded and the game-over cue fires |
| SnakeRules.TickLength | snake_game.js:165-190 | away from the food the head is prepended and the tail dropped, keeping the length and the score; on the food the snake grows by exactly one segment and scores exactly ten |
| SnakeRules.TickSpeed | snake_game.js:176-177 | after a tick the speed is within [50, 150]; it drops by 10 (floored at 50) exactly when eating reaches a multiple of 50, and stays otherwise |
| Snake.SnakeGame.GameLoop | snake_game.js:142-193 | the tick gives exactly the state `Tick` describes and keeps the invariant |
| Snake.SnakeGame.Advance | snake_game.js:164-190 | prepending the head, then eating (score, eat cue, speed step with level-up cue and restart, food placement) or dropping the tail, gives exactly the advanced state |
| Snake.SnakeGame.GameOver | snake_game.js:263-273 | both flags off, the timer cleared, the high score replaced when beaten |
| Snake.SnakeGame.SaveHighScore | snake_game.js:34-45 | reports whether the score beat the high score and leaves the maximum of the two |
| SnakeRules.KeyDirection | snake_game.js:292-307 | a key asks for a direction exactly when it is one of the twelve control keys: the arrows and w, a, s, d in either case |
| Snake.SnakeGame.HandleInput | snake_game.js:288-312 | while running unpaused, a direction key queues its direction with the move cue unless it reverses the committed direction; otherwise nothing changes; the queued direction is never the reverse of the committed one |

## Left out

- Rendering: the board and score displays, the display updates and the
  game-over screens. They carry none of the rules.
- Keyboard listener set-up. The Space key toggles pause, and every other key
  goes to `handleInput`; only `handleInput` and `togglePause` are modelled.
- Persistence: reading and writing the high score in local storage. The
  stored value is a constructor argument, and only the comparison and the
  update are kept.
- Timer scheduling. Only the period of the scheduled interval is modelled
  (`timer`); the asynchronous calls of the tick are not.
- `destroy`: it only clears the timer and removes the key listener.
- The randomness of `Math.random`. The piece index and the food cells are
  parameters, so the model is not uniform over them.
- The page manager (navigation, touch buttons, the escape dialog) and the
  sound synthesis. The page manager also passes every key but Escape to the current
  game's `handleInput` (game_manager.js:138-140), alongside the game's own
  listener, so one press reaches `handleInput` twice and a Tetris piece
  moves two columns; the model describes a single call. A requested sound is an entry in the cue log.
- Tetris.TetrisGame: `nextPiece` is declared in the source but never
  assigned, so it is not modelled.
- Tetris.TetrisGame.LandPiece, Tetris.TetrisGame.SpawnNext,
  Tetris.TetrisGame.ScoreLines and Snake.SnakeGame.Advance: these are inline
  code in the source (in `gameLoop`, `hardDrop` and `clearLines`), split out
  here as helper methods so that each proof stays small.
- Snake.SnakeGame.Advance: the failure of the source on a tick with no food
  is modelled as the step that stops after the head is prepended. The
  thrown exception itself is not modelled.
- The colour of a locked cell is its piece kind, since each kind has exactly
  one colour tag.
