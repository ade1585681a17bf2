/** The declarations shared by both games and the front-ends. */
module Defs {
  import opened Grid

  /** Board size, preview size and the two end-of-game level codes. */
  const WindowHeight: int := 20
  const WindowWidth: int := 10
  const NextSize: int := 7
  const WinLvl: int := 200
  const LoseLvl: int := -1

  /** The eight player actions, in enumerator order (Start = 0 ... Action = 7). */
  datatype UserAction = Start | Pause | Terminate | Left | Right | Up | Down | Action

  /** The enumerator value of an action, as the C++ cast `int(action)` reads it. */
  function ActionCode(a: UserAction): int {
    match a
    case Start => 0
    case Pause => 1
    case Terminate => 2
    case Left => 3
    case Right => 4
    case Up => 5
    case Down => 6
    case Action => 7
  }

  /** The six states of the game state machine shared by both games. */
  datatype Phase = GameStart | Spawn | Moving | Shifting | Attaching | GameOver

  /** The render snapshot handed to the front-ends. */
  datatype GameInfo = GameInfo(
    field: Matrix,
    next: Matrix,
    score: int,
    highScore: int,
    level: int,
    speed: int,
    pause: int)

  /** A value-initialised snapshot: null matrices and every number zero. */
  const EmptyInfo: GameInfo := GameInfo([], [], 0, 0, 0, 0, 0)
}
