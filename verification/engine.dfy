/**
 The engine shell around the two games: the factory that selects the
 current game, and the two C API entry points `userInput` and
 `updateCurrentState`. The singletons and statics of the C++ code (the
 current-game pointer, the first-call flag, the two game instances) are
 fields of one `Engine` value.
 */
module Engine {
  import opened Wrappers
  import opened Grid
  import opened Defs
  import GameCore
  import Snake
  import SnakeCells

  /** The `GameName` enumerators: EmptyGame = 0, Tetris = 1, Snake = 2. */
  const EmptyGameCode: int := 0
  const TetrisCode: int := 1
  const SnakeCode: int := 2

  /** What the current-game pointer points at. */
  datatype Selection = NoGame | TetrisSelected | SnakeSelected

  datatype SelectError = NoSuchGame

  /**
   The whole engine: whether the next `userInput` is the first one, the
   current game, and the two game instances. Tetris's own state is only
   the part every game shares.
   */
  datatype Engine = Engine(
    firstCall: bool,
    current: Selection,
    tetris: GameCore.Core,
    snake: Snake.Game)

  /** The enumerator value that selects a game. */
  function GameCode(s: Selection): int {
    match s
    case NoGame => EmptyGameCode
    case TetrisSelected => TetrisCode
    case SnakeSelected => SnakeCode
  }

  /** `get_game`: the selected game, if any. */
  function GetGame(e: Engine): Option<Selection> {
    if e.current == NoGame then None else Some(e.current)
  }

  /**
   `set_game`: select Tetris or Snake by enumerator value; any other value,
   EmptyGame included, is an error that leaves the selection as it was.
   */
  function SetGame(e: Engine, name: int): (r: Result<Engine, SelectError>)
    ensures r.Success? <==> name == TetrisCode || name == SnakeCode
    ensures r.Success? ==> GetGame(r.value).Some? && GameCode(r.value.current) == name
    ensures r.Success? ==> r.value == e.(current := r.value.current)
  {
    if name == TetrisCode then Success(e.(current := TetrisSelected))
    else if name == SnakeCode then Success(e.(current := SnakeSelected))
    else Failure(NoSuchGame)
  }

  /** Selecting a game by its own code selects exactly that game. */
  lemma SetGameRoundTrip(e: Engine, s: Selection)
    requires s != NoGame
    ensures SetGame(e, GameCode(s)) == Success(e.(current := s))
    ensures GetGame(SetGame(e, GameCode(s)).value) == Some(s)
  {
  }

  /** The pending action of the selected game, if a game is selected. */
  function Pending(e: Engine): Option<UserAction> {
    match e.current
    case NoGame => None
    case TetrisSelected => Some(e.tetris.action)
    case SnakeSelected => Some(e.snake.action)
  }

  /** `set_user_action` on the selected game; nothing without one. */
  function StoreAction(e: Engine, a: UserAction): (r: Engine)
    ensures r.firstCall == e.firstCall && r.current == e.current
    ensures e.current != NoGame ==> Pending(r) == Some(a)
    ensures e.current == NoGame ==> r == e
    ensures e.current != TetrisSelected ==> r.tetris == e.tetris
    ensures e.current != SnakeSelected ==> r.snake == e.snake
    ensures r.tetris == GameCore.SetUserAction(e.tetris, r.tetris.action)
    ensures r.snake == e.snake.(action := r.snake.action)
  {
    match e.current
    case NoGame => e
    case TetrisSelected => e.(tetris := GameCore.SetUserAction(e.tetris, a))
    case SnakeSelected => e.(snake := e.snake.(action := a))
  }

  /**
   `userInput`: the first call reads its action as a game number, selects
   that game and submits Start in its place; every later call hands the
   action to the selected game unchanged. A first call naming no game fails
   before the first-call flag is cleared, so the next call is a first call
   again.
   */
  function UserInput(e: Engine, input: UserAction): (r: Result<Engine, SelectError>)
    ensures !e.firstCall ==> r == Success(StoreAction(e, input))
    ensures e.firstCall ==> (r.Success? <==> ActionCode(input) == TetrisCode || ActionCode(input) == SnakeCode)
    ensures e.firstCall && r.Success? ==>
      && !r.value.firstCall
      && GameCode(r.value.current) == ActionCode(input)
      && Pending(r.value) == Some(Start)
  {
    if e.firstCall then
      match SetGame(e, ActionCode(input))
      case Failure(err) => Failure(err)
      case Success(selected) => Success(StoreAction(selected.(firstCall := false), Start))
    else
      Success(StoreAction(e, input))
  }

  /** A later call never changes the selection and is never refused. */
  lemma LaterInputsKeepSelection(e: Engine, input: UserAction)
    requires !e.firstCall
    ensures UserInput(e, input).Success?
    ensures UserInput(e, input).value.current == e.current
    ensures e.current != NoGame ==> Pending(UserInput(e, input).value) == Some(input)
  {
  }

  /** The engine states reachable from start-up: the snake obeys its invariant. */
  predicate Valid(e: Engine) {
    Snake.Valid(e.snake)
  }

  /** What one `updateCurrentState` needs from outside: a free-cell index if the snake spawns. */
  predicate StepReady(e: Engine, inp: Snake.Inputs) {
    e.current == SnakeSelected && e.snake.phase == Spawn ==>
      && 0 <= e.snake.size <= |e.snake.coords|
      && 0 <= inp.appleIndex < |SnakeCells.GetFreeCells(e.snake.coords, e.snake.size)|
  }

  /**
   `updateCurrentState`: with no game selected, step nothing and return the
   value-initialised snapshot; otherwise run one `fsm()` step of the
   selected game and return its snapshot. Tetris's handlers are not part of
   this model, so its step is a parameter.
   */
  function UpdateCurrentState(e: Engine, inp: Snake.Inputs, tetrisStep: GameCore.Core -> GameCore.Core): (r: (Engine, GameInfo))
    requires Valid(e) && StepReady(e, inp)
    ensures Valid(r.0)
    ensures r.0.firstCall == e.firstCall && r.0.current == e.current
    ensures e.current == NoGame ==> r == (e, EmptyInfo)
    ensures e.current == SnakeSelected ==> r.1 == r.0.snake.info && r.0.tetris == e.tetris
    ensures e.current == TetrisSelected ==> r.1 == r.0.tetris.info && r.0.snake == e.snake
  {
    match e.current
    case NoGame => (e, EmptyInfo)
    case TetrisSelected =>
      var t := tetrisStep(e.tetris);
      (e.(tetris := t), t.info)
    case SnakeSelected =>
      var s := Snake.Fsm(e.snake, inp);
      (e.(snake := s), s.info)
  }

  /** The shared part of a freshly constructed game: zeroed board and preview. */
  function InitialCore(): (c: GameCore.Core)
    ensures IsGrid(c.info.field, WindowHeight, WindowWidth) && IsGrid(c.info.next, NextSize, NextSize)
    ensures c.phase == GameStart && c.action == Start
  {
    GameCore.Core(GameInfo(Zeros(WindowHeight, WindowWidth), Zeros(NextSize, NextSize), 0, 0, 0, 0, 0), Start, GameStart)
  }

  /** The engine at program start: no game selected, the next input is the first. */
  function Initial(now: int): (e: Engine)
    ensures Valid(e) && e.firstCall && GetGame(e) == None
  {
    Engine(true, NoGame, InitialCore(), Snake.Initial(now))
  }

  /** Before any game is chosen, a state update returns the all-zero snapshot. */
  lemma NoGameGivesZeroSnapshot(now: int, inp: Snake.Inputs, tetrisStep: GameCore.Core -> GameCore.Core)
    ensures var (e, info) := UpdateCurrentState(Initial(now), inp, tetrisStep);
      && e == Initial(now)
      && info.field == [] && info.next == []
      && info.score == 0 && info.highScore == 0 && info.level == 0 && info.speed == 0 && info.pause == 0
  {
  }

  /**
   The front-end's first input is the game number: Terminate (2) starts the
   snake, Pause (1) starts Tetris, and Start (0) names no game and is
   refused.
   */
  lemma FirstInputSelects(now: int)
    ensures UserInput(Initial(now), Terminate).Success?
    ensures UserInput(Initial(now), Terminate).value.current == SnakeSelected
    ensures UserInput(Initial(now), Pause).value.current == TetrisSelected
    ensures UserInput(Initial(now), Start) == Failure(NoSuchGame)
  {
  }
}
