/**
 The abstract `Game` base class: the state both games share, the one-step
 dispatch over the six state handlers, and matrix allocation.
 */
module GameCore {
  import opened Wrappers
  import opened Grid
  import opened Defs

  /** The fields every game inherits: snapshot, pending action, current state. */
  datatype Core = Core(info: GameInfo, action: UserAction, phase: Phase)

  /**
   The six handlers a concrete game supplies. A handler may demand something
   of the state it is run on (the snake's spawn needs a free cell), hence the
   partial arrows.
   */
  datatype Handlers<!G> = Handlers(
    startingGame: G --> G,
    spawn: G --> G,
    moving: G --> G,
    shifting: G --> G,
    attaching: G --> G,
    gameOver: G --> G)

  /** The handler selected by phase `p` accepts the state `g`. */
  ghost predicate Ready<G>(p: Phase, g: G, h: Handlers<G>) {
    match p
    case GameStart => h.startingGame.requires(g)
    case Spawn => h.spawn.requires(g)
    case Moving => h.moving.requires(g)
    case Shifting => h.shifting.requires(g)
    case Attaching => h.attaching.requires(g)
    case GameOver => h.gameOver.requires(g)
  }

  /** `fsm()`: run exactly the handler belonging to the current state, once. */
  function Dispatch<G>(p: Phase, g: G, h: Handlers<G>): (r: G)
    requires Ready(p, g, h)
    ensures p == GameStart ==> r == h.startingGame(g)
    ensures p == Spawn ==> r == h.spawn(g)
    ensures p == Moving ==> r == h.moving(g)
    ensures p == Shifting ==> r == h.shifting(g)
    ensures p == Attaching ==> r == h.attaching(g)
    ensures p == GameOver ==> r == h.gameOver(g)
  {
    match p
    case GameStart => h.startingGame(g)
    case Spawn => h.spawn(g)
    case Moving => h.moving(g)
    case Shifting => h.shifting(g)
    case Attaching => h.attaching(g)
    case GameOver => h.gameOver(g)
  }

  /** `set_user_action`: record the pending action, unchecked. */
  function SetUserAction(c: Core, a: UserAction): (r: Core)
    ensures r.action == a && r.info == c.info && r.phase == c.phase
  {
    c.(action := a)
  }

  datatype InitError = NonPositiveSize

  /**
   `matrix_init`: a `rows` x `cols` matrix of zeros, or an error for a
   non-positive dimension.
   */
  function MatrixInit(rows: int, cols: int): (r: Result<Matrix, InitError>)
    ensures r.Failure? <==> rows <= 0 || cols <= 0
    ensures r.Success? ==> IsGrid(r.value, rows, cols)
    ensures r.Success? ==> forall y, x :: 0 <= y < rows && 0 <= x < cols ==> r.value[y][x] == 0
  {
    if rows <= 0 || cols <= 0 then Failure(NonPositiveSize)
    else Success(Zeros(rows, cols))
  }
}
