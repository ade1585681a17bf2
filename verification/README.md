# BrickGame in Dafny

BrickGame is a C++ engine for two falling-block style games, Snake and Tetris. Both sit behind one
C API (`userInput`, `updateCurrentState`). Every game is a six-state machine (GameStart, Spawn,
Moving, Shifting, Attaching, GameOver), driven one step per `updateCurrentState` call and
rendered from a `GameInfo_t` snapshot. This project models that engine as pure Dafny
functions over immutable values:

- `Defs`: the shared constants, the action enum and the snapshot record.
- `Grid`: boards as sequences of rows.
- `CInt`: C++ truncating `/` and `%`.
- `Timer`: the step timer. The clock reading `now` is a parameter.
- `GameCore`: the shared part of a game, `fsm()` dispatch, `set_user_action`, `matrix_init`.
- `SnakeCells`: the board cells and `get_free_cells`.
- `Snake`: the whole Snake game. It has its six state handlers and all their helpers, a
  validity invariant kept by every step, and the body-connectedness property.
- `Engine`: the game factory and the two API functions. The C++ singletons and statics are
  fields of one `Engine` value.
- `TetrisBoard`: the Tetris brick helpers (wall checks, shifting, shape recognition, collision
  checks, painting, levels, the top-row test, copying, the shape pick).
- `RowClear`: Tetris full-row clearing. It is a loop proved equal to a functional compaction.
- `Decimal`: decimal text (`std::to_string` and reading digits back).
- `Frontend`: `is_end`, the terminal's `score_to_string` and the desktop's `format_score`.

Randomness and the clock are inputs of a step (`Snake.Inputs`: the current time in ms, the
random free-cell index, and the high score read from the record file, if any). Two pieces of
state are held explicitly:

- The snake's coordinate array is the fixed 200-slot array with a separate size. That makes
  "slots past the size are untouched" expressible.
- A `Brick` is the eight-int array `y0,x0,...,y3,x3`.

The source file `brick_game/tetris/tetris.cpp` is not part of this model. Only its header and
its unit tests (`tests/tetris_tests.cpp`) are. So each Tetris helper here is the simplest
rule that agrees with its declaration and with every assertion its tests make, and its row
cites those test lines.

## Model

| member | source | states |
|---|---|---|
| CInt.Div | brick_game/brick_game_single.cpp:96-99 | C++ `/` truncates toward zero: for a divisor of either sign, the remainder `a - b*q` has the dividend's sign and is smaller than the divisor in magnitude, and the quotient is at least 0 when a non-negative dividend meets a positive divisor or a negative one meets a negative divisor, and at most 0 otherwise |
| CInt.Mod | gui/cli/frontend.cpp:36-38 | C++ `%`: for a divisor of either sign, the remainder has the dividend's sign and is smaller than the divisor in magnitude, and for a positive divisor and a non-negative dividend it agrees with the Euclidean `%` |
| CInt.TruncationCases | gui/cli/frontend.cpp:36-38 | the four sign combinations of 7 and 2 give the C++ quotients and remainders (`-7 / 2` is -3, `-7 % 2` is -1, `7 / -2` is -3) |
| CInt.DivMonotone | brick_game/brick_game_single.cpp:96-99 | truncating division by a positive divisor is monotone in the dividend |
| GameCore.Dispatch | brick_game/brick_game_single.cpp:52-62 | `fsm()` runs exactly the handler of the current state and nothing else |
| GameCore.SetUserAction | brick_game/brick_game_single.cpp:31 | storing an action changes only the pending action |
| GameCore.MatrixInit | brick_game/brick_game_single.cpp:35-43 | a rows x cols board of zeros; a non-positive size is an error |
| Timer.StartTimer | brick_game/brick_game_single.cpp:65-67 | a freshly started timer has zero elapsed time |
| Timer.DelayEndpoints | brick_game/brick_game_single.cpp:96-99 | the step delay is the maximum delay at speed 1 and the minimum delay at the top speed |
| Timer.DelayNonIncreasing | brick_game/brick_game_single.cpp:96-99 | a higher speed never gives a longer delay (C++ truncating division) |
| Timer.TimerCheck | brick_game/brick_game_single.cpp:69-78 | the timer fires exactly when the elapsed time reaches the delay for the speed |
| Timer.Milliseconds | brick_game/brick_game_single.cpp:80-82 | the millisecond part of the elapsed time is in 0..999 |
| Timer.Seconds | brick_game/brick_game_single.cpp:84-86 | the seconds part is in 0..59 |
| Timer.Minutes | brick_game/brick_game_single.cpp:88-90 | the minutes part is in 0..59 |
| Timer.ClockDecomposition | brick_game/brick_game_single.cpp:80-94 | hours, minutes, seconds and milliseconds recombine into the elapsed time |
| SnakeCells.GetFreeCells | brick_game/snake/snake.cpp:243-258 | a cell is free iff it is on the board and not under one of the first `size` segments; the list is in row-major order without repeats; at most `size` cells are missing |
| SnakeCells.EraseAll | brick_game/snake/snake.cpp:249-257 | erasing the segments keeps row-major order and removes exactly the segment cells |
| SnakeCells.AllCells | brick_game/snake/snake.cpp:244-248 | the first loop lists every board cell once, in row-major order |
| Snake.CoordValidCheck | brick_game/snake/snake.cpp:117-125 | true iff the coordinate lies on the 20 x 10 board |
| Snake.CheckRotateHead | brick_game/snake/snake.cpp:388-398 | a turn is allowed iff the action names a direction perpendicular to the current one |
| Snake.SetDirection | brick_game/snake/snake.cpp:406-422 | the direction changes iff the turn is allowed, and then to the requested one; a reversal is ignored |
| Snake.RotateHead | brick_game/snake/snake.cpp:344-354 | the head moves one cell in the current direction; every other slot is untouched |
| Snake.ShiftToHead | brick_game/snake/snake.cpp:375-379 | each live segment takes its predecessor's position; the head and the unused slots stay |
| Snake.CheckCollideBodyHead | brick_game/snake/snake.cpp:329-337 | true iff the head lies on one of the other live segments |
| Snake.PositionUpdate | brick_game/snake/snake.cpp:432-445 | erasing clears every segment cell, drawing paints the body and the head colours; cells off the snake are unchanged |
| Snake.PositionUpdatePaints | brick_game/snake/snake.cpp:432-445 | every cell is either unchanged or holds the empty, body or head colour |
| Snake.SpawnApple | brick_game/snake/snake.cpp:468-480 | the apple lands on a board cell off the snake, is painted there, and no other cell or field changes |
| Snake.SpawnPaintsOneApple | brick_game/snake/snake.cpp:468-480 | after spawning, the apple colour sits at the apple and is not on any snake cell |
| Snake.InitStatistic | brick_game/snake/snake.cpp:225-233 | a four-segment vertical snake with its head at (9, 4) heading up, not colliding with itself, apple off the snake |
| Snake.UpdateScoreGame | brick_game/snake/snake.cpp:454-460 | the score goes up by one and the high score is the larger of the two |
| Snake.UpdateLevelSpeed | brick_game/snake/snake.cpp:265-272 | the level (and the speed with it) rises by one iff it is below 10 and the new score is a multiple of 5; never past 10; nothing else changes |
| Snake.PauseGame | brick_game/snake/snake.cpp:361-367 | pause toggles between on and off |
| Snake.PauseInvolution | brick_game/snake/snake.cpp:361-367 | toggling pause twice restores it |
| Snake.StartingGame | brick_game/snake/snake.cpp:99-108 | Start sets up the snake at level 1 with the record as high score and goes to Spawn; Terminate goes to GameOver; any other action changes nothing |
| Snake.SpawnStep | brick_game/snake/snake.cpp:134-138 | the apple lands on a free board cell, is painted, and the game moves to Moving with the snake unchanged |
| Snake.MovingStep | brick_game/snake/snake.cpp:150-169 | Pause toggles pause; unpaused, a valid turn, Action or a fired timer moves the game to Shifting with the timer restarted and the direction updated; otherwise Terminate ends the game; the action is consumed |
| Snake.ShiftingStep | brick_game/snake/snake.cpp:179-192 | the body follows the head, the head steps once, and the game keeps Moving iff the new head is on the board, off the apple and off the body; after a move the head shows the head colour, and a stop at Attaching leaves the old snake erased |
| Snake.ShiftingRepaints | brick_game/snake/snake.cpp:179-190 | after a move every body segment shows the body colour, and every cell under neither the old nor the new snake (the apple's included) keeps its value |
| Snake.AttachingStep | brick_game/snake/snake.cpp:203-218 | a wall or body hit ends the game; eating the apple at full size ends it too, short of full size the snake grows; without the apple nothing changes |
| Snake.Grow | brick_game/snake/snake.cpp:207-215 | growth copies the old tail into the next slot and leaves the rest of the array alone, redraws the longer snake (body segments in the body colour, the head in the head colour unless a body segment covers it, every cell off the snake unchanged), adds one point, raises the high score to at least the score, asks for a new apple, and keeps pause and the next-brick field |
| Snake.GameOverStep | brick_game/snake/snake.cpp:490-496 | the level becomes the win code iff the snake reached 200 segments, the lose code otherwise |
| Snake.Fsm | brick_game/brick_game_single.cpp:52-62 | from a valid state every step reaches a valid state, and GameOver is final |
| Snake.AttachingKeepsValid | brick_game/snake/snake.cpp:203-218 | attaching keeps the snake within size bounds and on the board |
| Snake.FsmKeepsConnected | brick_game/snake/snake.cpp:179-218 | while the game runs, consecutive live segments stay orthogonal neighbours |
| Snake.ShiftingKeepsConnected | brick_game/snake/snake.cpp:179-192 | shifting keeps the segments orthogonally connected |
| Snake.AttachingKeepsConnected | brick_game/snake/snake.cpp:203-218 | growing by the old tail keeps the segments connected |
| Snake.StartSetsLevelOne | tests/tests.cpp:116-124 | after Start from a fresh game the level is 1, the size 4, the board empty and at least 196 cells free |
| Snake.SpawnLeavesOneApple | tests/tests.cpp:126-140 | a spawn step leaves exactly the chosen apple painted |
| Snake.TerminateBeforeStartLoses | brick_game/snake/snake.cpp:99-108 | Terminate on a fresh game leads to GameOver and then the lose code |
| Snake.TerminateWhileRunningLoses | tests/tests.cpp:220-230 | Terminate pending in Spawn survives the spawn step; the Moving step then ends the game unless the timer fires on an unpaused snake (which shifts instead); from GameOver the next step gives the lose code |
| Engine.SetGame | brick_game/brick_game_single.cpp:8-16 | codes 1 and 2 select Tetris and Snake and change nothing else; any other code is an error |
| Engine.SetGameRoundTrip | brick_game/brick_game_single.cpp:8-18 | selecting a game by its code makes `get_game` return that game |
| Engine.StoreAction | brick_game/brick_game_single.cpp:115-118 | the action reaches the selected game only; with no game selected nothing changes |
| Engine.UserInput | brick_game/brick_game_single.cpp:104-119 | the first call selects the game its action code names and submits Start; later calls forward the action unchanged |
| Engine.LaterInputsKeepSelection | brick_game/brick_game_single.cpp:104-119 | after the first call, input never changes the selection and always reaches the selected game |
| Engine.UpdateCurrentState | brick_game/brick_game_single.cpp:121-129 | steps only the selected game and returns its snapshot; with none selected it returns the zero snapshot |
| Engine.NoGameGivesZeroSnapshot | tests/tests.cpp:71-83 | before any selection the state update returns an all-zero snapshot |
| Engine.FirstInputSelects | brick_game/brick_game_single.cpp:107-112 | first inputs 1 and 2 select Tetris and Snake; 0 is refused |
| TetrisBoard.RotateCheckDownWall | tests/tetris_tests.cpp:69-89 | true iff no cell is below the last row |
| TetrisBoard.RotateCheckUpWall | tests/tetris_tests.cpp:69-89 | true iff no cell is above the first row |
| TetrisBoard.RotateCheckLeftWall | tests/tetris_tests.cpp:69-89 | true iff no cell is left of the first column |
| TetrisBoard.RotateCheckRightWall | tests/tetris_tests.cpp:69-89 | true iff no cell is right of the last column |
| TetrisBoard.WallChecksMeanOnBoard | tests/tetris_tests.cpp:69-89 | the four wall checks together pass iff the brick lies on the board |
| TetrisBoard.CoordShift | tests/tetris_tests.cpp:55-66 | every cell moves by the shift along the chosen axis and keeps the other coordinate |
| TetrisBoard.CoordShiftInverse | tests/tetris_tests.cpp:55-66 | shifting back by the opposite amount restores the brick |
| TetrisBoard.IsSmashboy | tests/tetris_tests.cpp:26-40 | true iff the cells form a 2 x 2 square |
| TetrisBoard.IsHero | tests/tetris_tests.cpp:41-52 | true iff the cells form a straight line of four, across or down |
| TetrisBoard.SmashboyIsNotHero | tests/tetris_tests.cpp:26-52 | no brick is both a square and a line |
| TetrisBoard.ShapeCases | tests/tetris_tests.cpp:26-52 | the square, broken square and two lines among the cases in tests/tetris_tests.cpp are classified as those cases expect |
| TetrisBoard.ShiftCases | tests/tetris_tests.cpp:53-66 | the shifts among the cases in tests/tetris_tests.cpp give the coordinates those cases expect |
| TetrisBoard.CheckDown | tests/tetris_tests.cpp:168-174 | true iff the cell below every brick cell is on the board and empty |
| TetrisBoard.CheckLeft | tests/tetris_tests.cpp:161-166 | true iff every cell moved left by the shift is on the board and empty |
| TetrisBoard.CheckRight | tests/tetris_tests.cpp:161-166 | true iff every cell moved right by the shift is on the board and empty |
| TetrisBoard.SideChecksOnEmptyBoard | tests/tetris_tests.cpp:161-166 | on an empty board the side checks reduce to bounds checks |
| TetrisBoard.RotateCheckField | tests/tetris_tests.cpp:209-219 | true iff no on-board cell of the brick covers an occupied cell |
| TetrisBoard.BrickMove | tests/tetris_tests.cpp:182-207 | Left and Right move the brick one column iff the target cells are vacant, otherwise it stays |
| TetrisBoard.CheckAttaching | tests/tetris_tests.cpp:373-410 | the brick attaches iff it cannot move down; otherwise it falls one row |
| TetrisBoard.SpawnBrick | tests/tetris_tests.cpp:146-153 | the four brick cells take the colour and every other cell is unchanged |
| TetrisBoard.Despawn | tests/tetris_tests.cpp:155-159 | the four brick cells are cleared and every other cell is unchanged |
| TetrisBoard.DespawnUndoesSpawn | tests/tetris_tests.cpp:146-159 | drawing a brick over empty cells and then erasing it gives the board back |
| TetrisBoard.CheckLevel | tests/tetris_tests.cpp:243-254 | the level and the speed rise by one iff below 10 and the score reached 600 per next level; nothing else changes. The test fixes only 0 to 1 at 600 points and the cap at 10; the 600-per-level threshold above level 1 is this model's choice |
| TetrisBoard.LevelCases | tests/tetris_tests.cpp:243-254 | 600 points lift level 0 to 1 with speed 1; level 10 stays at 10 |
| TetrisBoard.CheckGameover | tests/tetris_tests.cpp:261-264 | true iff some cell is in the top row |
| TetrisBoard.GameoverCases | tests/tetris_tests.cpp:261-264 | the bricks among the cases in tests/tetris_tests.cpp, with and without a top-row cell, are classified as those cases expect |
| TetrisBoard.BrickCopy | tests/tetris_tests.cpp:256-259 | the destination equals the source element by element |
| TetrisBoard.NewBrick | tests/tetris_tests.cpp:267-298 | codes outside 1..7 leave the brick unchanged; codes 1..7 pick the given table's entry |
| RowClear.CheckFullRow | tests/tetris_tests.cpp:300-371 | returns the number of full rows and the board with them removed, survivors kept in order and empty rows on top |
| RowClear.KeptPlusFull | tests/tetris_tests.cpp:300-371 | every row is either removed or kept, so the board keeps its height |
| RowClear.RowDrops | tests/tetris_tests.cpp:300-346 | a surviving row moves down by the number of full rows below it |
| RowClear.NoFullRowUnchanged | tests/tetris_tests.cpp:348-371 | a board without a full row is returned unchanged |
| RowClear.ClearedHasNoFullRow | tests/tetris_tests.cpp:300-371 | no row of the cleared board is full |
| Decimal.NatToStringRoundTrip | gui/desktop/gtk_frontend.cpp:277 | reading back the decimal form of n gives n |
| Decimal.ValueInjective | gui/cli/frontend.cpp:32-41 | digit strings of one length with equal values are equal |
| Frontend.RunningSnakeNotEnded | gui/cli/frontend.cpp:67-69 | while the snake game runs, `is_end` is false |
| Frontend.GameOverEndsLoop | gui/cli/frontend.cpp:49-61 | the step out of GameOver makes `is_end` true, with the win code iff the snake is full |
| Frontend.FormatScore | gui/desktop/gtk_frontend.cpp:276-280 | the label has length max(7, length of the decimal form) and is zeros followed by the decimal form |
| Frontend.FormatScoreRoundTrip | gui/desktop/gtk_frontend.cpp:276-280 | a non-negative score's label is all digits and reads back as the score |
| Frontend.FormatScoreWidth | gui/desktop/gtk_frontend.cpp:276-280 | scores up to 9999999 give labels of exactly seven characters |
| Frontend.ScoreToString | gui/cli/frontend.cpp:32-41 | a score in 0..9999999 becomes its seven zero-padded digits, equal to the desktop label; a larger score leaves the buffer alone; a negative one writes characters at or below '0' that mirror its magnitude; nothing past index 6 changes |

## Left out

- File I/O: `read_record_file`, `write_record_file` and `init_record` reading the record file. The record read at start is an input (`Option<int>`); the record write is left out.
- `get_random_index` and `rand()`: the random free-cell index is an input of the step.
- The clock: `std::chrono` readings are an input `now` in milliseconds.
- Heap management: `matrix_free`, the destructors, `new`/`delete`. Boards are values.
- The singletons and statics (`current_game`, `first_call`, the game instances) are fields of `Engine.Engine`.
- The `hold` parameter of `userInput`, which the engine ignores.
- Tetris's state handlers (`starting_game` ... `game_over`), rotation, `fix_brick_coord`, the seven shape tables, `score_write`, `stats_init`, `init_score`, `init_matrix`, `fill_array_zero`: their code is not part of this model. `Engine.UpdateCurrentState` takes the Tetris step as a parameter.
- The `default` branch of `fsm()`: the state type has exactly six values, so it cannot be reached.
- The terminal and desktop user interfaces (ncurses and GTK drawing, key mapping, menus, dialogs).
- The test helpers in `tests/test_helpers.cpp`.
- `int` overflow: scores, levels and coordinates are unbounded integers; no step of the games comes near 2^31.
- TetrisBoard.BrickMove: covers Left and Right only; rotation (Action) and dropping (Down) depend on the rotation tables, which are not part of this model.
- Snake.SpawnStep: states where the apple goes and that the snake is unchanged, but not the colour of every body cell after the step; `Snake.PositionUpdate` states the colours.
- Snake.FsmKeepsConnected: claims connectedness only while the game is not over; the winning step's GameOver state is not covered.
