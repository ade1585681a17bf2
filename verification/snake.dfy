/**
 The snake game: a six-state machine over integer board coordinates. Each
 C++ handler becomes a pure function from the game state to the next one;
 the clock reading, the random apple index and the stored high score enter
 as arguments.
 */
module Snake {
  import opened Wrappers
  import opened Grid
  import opened Defs
  import opened SnakeCells
  import Timer
  import GameCore

  const SnakeMaxSize: int := 200
  const SnakeStartSize: int := 4
  const MidFieldY: int := WindowHeight / 2 - 1
  const MidFieldX: int := WindowWidth / 2 - 1
  const StartY: int := 0
  const StartX: int := 0

  /** Values of the pause flag. */
  const PauseOn: int := 1
  const PauseOff: int := 0

  /** Cell values painted on the board. */
  const EmptyColor: int := 0
  const AppleColor: int := 2
  const BodyColor: int := 3
  const HeadColor: int := 4

  /** Step-timer settings and levelling. */
  const TimerMaxDelay: int := 1000
  const TimerMinDelay: int := 200
  const TimerMaxSpeed: int := 10
  const MaxLevel: int := 10
  const PointsForNextLevel: int := 5

  datatype Direction = DirUp | DirDown | DirLeft | DirRight

  /** The two uses of `snake_position_update`: erase (DESPAWN) or draw (SPAWN). */
  datatype Paint = Erase | Draw

  /**
   The snake's state. `coords` is the fixed 200-slot coordinate array; only
   the first `size` slots are segments, slot 0 being the head.
   */
  datatype Game = Game(
    info: GameInfo,
    action: UserAction,
    phase: Phase,
    coords: seq<Coord>,
    size: int,
    apple: Coord,
    dir: Direction,
    timer: Timer.Timer)

  /** What one step may consult outside the game: clock, random index, record. */
  datatype Inputs = Inputs(now: int, appleIndex: int, record: Option<int>)

  function Max(a: int, b: int): int {
    if a >= b then a else b
  }

  /** The board has its fixed size. */
  predicate IsBoard(m: Matrix) {
    IsGrid(m, WindowHeight, WindowWidth)
  }

  function At(m: Matrix, c: Coord): int
    requires IsBoard(m) && InBoard(c)
  {
    m[c.0][c.1]
  }

  /** Painting one board cell changes that cell and no other. */
  lemma SetAt(m: Matrix, c: Coord, v: int)
    requires IsBoard(m) && InBoard(c)
    ensures IsBoard(SetCell(m, c.0, c.1, v))
    ensures At(SetCell(m, c.0, c.1, v), c) == v
    ensures forall d :: InBoard(d) && d != c ==> At(SetCell(m, c.0, c.1, v), d) == At(m, d)
  {
  }

  predicate SegmentsInBoard(coords: seq<Coord>, lo: int, hi: int)
    requires 0 <= lo && hi <= |coords|
  {
    forall i :: lo <= i < hi ==> InBoard(coords[i])
  }

  // ---------------------------------------------------------------- geometry

  /** `coord_valid_check`: the coordinate is on the board. */
  function CoordValidCheck(c: Coord): (ok: bool)
    ensures ok <==> 0 <= c.0 < WindowHeight && 0 <= c.1 < WindowWidth
  {
    if c.0 >= WindowHeight || c.1 >= WindowWidth then false
    else if c.0 < StartY || c.1 < StartX then false
    else true
  }

  predicate Vertical(d: Direction) {
    d == DirUp || d == DirDown
  }

  /** The direction an arrow action asks for, if it is an arrow. */
  function Requested(a: UserAction): Option<Direction> {
    match a
    case Up => Some(DirUp)
    case Down => Some(DirDown)
    case Left => Some(DirLeft)
    case Right => Some(DirRight)
    case _ => None
  }

  function Opposite(d: Direction): Direction {
    match d
    case DirUp => DirDown
    case DirDown => DirUp
    case DirLeft => DirRight
    case DirRight => DirLeft
  }

  /**
   `check_rotate_head`: the pending action is a 90-degree turn, that is, an
   arrow perpendicular to the current direction.
   */
  function CheckRotateHead(dir: Direction, a: UserAction): (turn: bool)
    ensures turn <==> Requested(a).Some? && Vertical(Requested(a).value) != Vertical(dir)
  {
    if dir == DirUp || dir == DirDown then a == Left || a == Right
    else if dir == DirLeft || dir == DirRight then a == Up || a == Down
    else false
  }

  /**
   `set_direction`: take the requested direction exactly when it is a
   90-degree turn; a reversal or any other action keeps the direction.
   */
  function SetDirection(dir: Direction, a: UserAction): (d: Direction)
    ensures d != dir <==> CheckRotateHead(dir, a)
    ensures CheckRotateHead(dir, a) ==> d == Requested(a).value
    ensures Requested(a) == Some(Opposite(dir)) ==> d == dir
  {
    if dir == DirUp || dir == DirDown then
      if a == Left then DirLeft
      else if a == Right then DirRight
      else dir
    else if dir == DirLeft || dir == DirRight then
      if a == Up then DirUp
      else if a == Down then DirDown
      else dir
    else dir
  }

  /** The direction of a unit move from `a` to `b`, if it is one. */
  function Heading(a: Coord, b: Coord): Option<Direction> {
    if b == (a.0 - 1, a.1) then Some(DirUp)
    else if b == (a.0 + 1, a.1) then Some(DirDown)
    else if b == (a.0, a.1 - 1) then Some(DirLeft)
    else if b == (a.0, a.1 + 1) then Some(DirRight)
    else None
  }

  /** `rotate_head`: move the head one cell along `dir`; nothing else moves. */
  function RotateHead(coords: seq<Coord>, dir: Direction): (r: seq<Coord>)
    requires |coords| >= 1
    ensures |r| == |coords|
    ensures Heading(coords[0], r[0]) == Some(dir)
    ensures forall i :: 1 <= i < |coords| ==> r[i] == coords[i]
  {
    var h := coords[0];
    match dir
    case DirUp => coords[0 := (h.0 - 1, h.1)]
    case DirLeft => coords[0 := (h.0, h.1 - 1)]
    case DirDown => coords[0 := (h.0 + 1, h.1)]
    case DirRight => coords[0 := (h.0, h.1 + 1)]
  }

  /**
   `shift_to_head`: every segment but the head takes its predecessor's old
   coordinate; the head and the unused slots keep theirs.
   */
  function ShiftToHead(coords: seq<Coord>, size: int): (r: seq<Coord>)
    requires 0 <= size <= |coords|
    ensures |r| == |coords|
    ensures size >= 1 ==> r[0] == coords[0]
    ensures forall i :: 1 <= i < size ==> r[i] == coords[i - 1]
    ensures forall i :: size <= i < |coords| ==> r[i] == coords[i]
  {
    if size <= 1 then coords
    else [coords[0]] + coords[..size - 1] + coords[size..]
  }

  /** `check_collide_body_head`: some non-head segment sits on the head. */
  function CheckCollideBodyHead(coords: seq<Coord>, size: int): (hit: bool)
    requires 1 <= size <= |coords|
    ensures hit <==> coords[0] in coords[1..size]
  {
    exists i :: 1 <= i < size && coords[i] == coords[0]
  }

  // ---------------------------------------------------------------- drawing

  function SegmentColor(paint: Paint, i: int): int {
    if paint == Erase then EmptyColor
    else if i == 0 then HeadColor
    else BodyColor
  }

  /**
   `snake_position_update` over the first `n` segments, in index order: erase
   them, or draw the head and the body. Later segments overwrite earlier
   ones, so the head colour survives only if no body segment shares its cell.
   */
  function PositionUpdate(field: Matrix, coords: seq<Coord>, n: int, paint: Paint): (r: Matrix)
    requires IsBoard(field)
    requires 0 <= n <= |coords| && SegmentsInBoard(coords, 0, n)
    ensures IsBoard(r) && Painted(field, coords, n, paint, r)
    decreases n
  {
    if n == 0 then field
    else
      var c, v := coords[n - 1], SegmentColor(paint, n - 1);
      var before := PositionUpdate(field, coords, n - 1, paint);
      PaintStep(field, coords, n, paint, before);
      SetCell(before, c.0, c.1, v)
  }

  /**
   What painting the first `n` segments leaves on the board: cells off the
   snake unchanged; after an erase every segment empty; after a draw every
   body segment in body colour, and the head in head colour unless a body
   segment shares its cell.
   */
  ghost predicate Painted(field: Matrix, coords: seq<Coord>, n: int, paint: Paint, r: Matrix)
    requires IsBoard(field) && IsBoard(r)
    requires 0 <= n <= |coords| && SegmentsInBoard(coords, 0, n)
  {
    && (forall c :: InBoard(c) && c !in coords[..n] ==> At(r, c) == At(field, c))
    && (paint == Erase ==> forall i :: 0 <= i < n ==> At(r, coords[i]) == EmptyColor)
    && (paint == Draw ==> forall i :: 1 <= i < n ==> At(r, coords[i]) == BodyColor)
    && (paint == Draw && n >= 1 && coords[0] !in coords[1..n] ==> At(r, coords[0]) == HeadColor)
  }

  /** Painting segment `n - 1` over the first `n - 1` extends `Painted` to `n`. */
  lemma PaintStep(field: Matrix, coords: seq<Coord>, n: int, paint: Paint, before: Matrix)
    requires IsBoard(field) && IsBoard(before)
    requires 1 <= n <= |coords| && SegmentsInBoard(coords, 0, n)
    requires Painted(field, coords, n - 1, paint, before)
    ensures var c := coords[n - 1]; var r := SetCell(before, c.0, c.1, SegmentColor(paint, n - 1));
      IsBoard(r) && Painted(field, coords, n, paint, r)
  {
    var c, v := coords[n - 1], SegmentColor(paint, n - 1);
    var r := SetCell(before, c.0, c.1, v);
    SetAt(before, c, v);
    assert coords[..n] == coords[..n - 1] + [c];
    forall d | InBoard(d) && d !in coords[..n]
      ensures At(r, d) == At(field, d)
    {
      assert d != c && d !in coords[..n - 1];
    }
    if paint == Erase {
      forall i | 0 <= i < n
        ensures At(r, coords[i]) == EmptyColor
      {
        if coords[i] != c {
          assert At(before, coords[i]) == EmptyColor;
        }
      }
    } else {
      forall i | 1 <= i < n
        ensures At(r, coords[i]) == BodyColor
      {
        if coords[i] != c {
          assert At(before, coords[i]) == BodyColor;
        }
      }
      if n >= 2 && coords[0] !in coords[1..n] {
        assert coords[1..n] == coords[1..n - 1] + [c];
        assert coords[0] != c && coords[0] !in coords[1..n - 1];
        assert At(before, coords[0]) == HeadColor;
      }
    }
  }

  // ---------------------------------------------------------------- apple

  /**
   `spawn_apple`: put the apple on the `index`-th free cell and paint it.
   The C++ code throws if that cell is off the board; the free-cell list
   holds board cells only, so that branch is dead.
   */
  function SpawnApple(g: Game, index: int): (r: Game)
    requires IsBoard(g.info.field)
    requires 0 <= g.size <= |g.coords|
    requires 0 <= index < |GetFreeCells(g.coords, g.size)|
    ensures InBoard(r.apple) && r.apple !in g.coords[..g.size]
    ensures IsBoard(r.info.field)
    ensures At(r.info.field, r.apple) == AppleColor
    ensures forall c :: InBoard(c) && c != r.apple ==> At(r.info.field, c) == At(g.info.field, c)
    ensures r.coords == g.coords && r.size == g.size && r.dir == g.dir && r.timer == g.timer
    ensures r.action == g.action && r.phase == g.phase && r.info == g.info.(field := r.info.field)
  {
    var free := GetFreeCells(g.coords, g.size);
    var apple := free[index];
    assert apple in free;
    if CoordValidCheck(apple) then
      SetAt(g.info.field, apple, AppleColor);
      var field := SetCell(g.info.field, apple.0, apple.1, AppleColor);
      g.(apple := apple, info := g.info.(field := field))
    else
      assert false; g
  }

  // ---------------------------------------------------------------- stats

  /** `init_statistic`: the start snake, four cells tall at mid-board, heading up. */
  function InitStatistic(g: Game): (r: Game)
    requires |g.coords| >= SnakeStartSize
    ensures r.size == SnakeStartSize && r.dir == DirUp && r.apple == (StartY, StartX)
    ensures |r.coords| == |g.coords| && r.coords[SnakeStartSize..] == g.coords[SnakeStartSize..]
    ensures SegmentsInBoard(r.coords, 0, SnakeStartSize)
    ensures forall i :: 1 <= i < SnakeStartSize ==> Heading(r.coords[i - 1], r.coords[i]) == Some(DirDown)
    ensures r.coords[0].1 == MidFieldX && r.coords[0].0 == MidFieldY
    ensures !CheckCollideBodyHead(r.coords, SnakeStartSize)
    ensures r.apple !in r.coords[..SnakeStartSize]
    ensures r.info == g.info && r.action == g.action && r.phase == g.phase && r.timer == g.timer
  {
    var start := StartSnake();
    var r := g.(apple := (StartY, StartX), size := SnakeStartSize, dir := DirUp,
                coords := start + g.coords[SnakeStartSize..]);
    assert r.coords[..SnakeStartSize] == start;
    assert r.coords[1..SnakeStartSize] == start[1..];
    r
  }

  /** The start snake's cells, head first: a vertical line growing downward from mid-board. */
  function StartSnake(): (s: seq<Coord>)
    ensures |s| == SnakeStartSize && s[0] == (MidFieldY, MidFieldX)
    ensures SegmentsInBoard(s, 0, SnakeStartSize)
    ensures forall i :: 1 <= i < SnakeStartSize ==> Heading(s[i - 1], s[i]) == Some(DirDown)
    ensures s[0] !in s[1..] && (StartY, StartX) !in s
  {
    seq(SnakeStartSize, i => (MidFieldY + i, MidFieldX))
  }

  /** `init_record` without the file: a readable record replaces the high score. */
  function InitRecord(highScore: int, record: Option<int>): int {
    match record
    case Some(n) => n
    case None => highScore
  }

  /** `update_score_game` without the file write: one point, high score kept at the maximum. */
  function UpdateScoreGame(info: GameInfo): (r: GameInfo)
    ensures r.score == info.score + 1
    ensures r.highScore == Max(info.highScore, info.score + 1)
    ensures r == info.(score := r.score, highScore := r.highScore)
  {
    var scored := info.(score := info.score + 1);
    if scored.score > scored.highScore then scored.(highScore := scored.score)
    else scored
  }

  /**
   `update_level_speed`: below the top level, every fifth point raises level
   and speed together by one. The level never passes `MaxLevel`.
   */
  function UpdateLevelSpeed(info: GameInfo): (r: GameInfo)
    ensures r.level - info.level == r.speed - info.speed
    ensures r.level == info.level + 1 <==> info.level < MaxLevel && info.score % PointsForNextLevel == 0
    ensures r.level == info.level || r.level == info.level + 1
    ensures info.level <= MaxLevel ==> r.level <= MaxLevel
    ensures r == info.(level := r.level, speed := r.speed)
  {
    if info.level < MaxLevel then
      if info.score % PointsForNextLevel == 0 then info.(speed := info.speed + 1, level := info.level + 1)
      else info
    else info
  }

  /** `pause_game`: toggle the flag between 0 and 1; any other value stays. */
  function PauseGame(pause: int): (r: int)
    ensures pause == PauseOff ==> r == PauseOn
    ensures pause == PauseOn ==> r == PauseOff
    ensures pause != PauseOff && pause != PauseOn ==> r == pause
  {
    if pause == PauseOff then PauseOn
    else if pause == PauseOn then PauseOff
    else pause
  }

  /** Pausing twice changes nothing. */
  lemma PauseInvolution(pause: int)
    ensures PauseGame(PauseGame(pause)) == pause
  {
  }

  // ---------------------------------------------------------------- handlers

  /**
   `starting_game`: on Start, set up the snake, load the record and go to
   Spawn at level 1; on Terminate, end the game; otherwise wait.
   */
  function StartingGame(g: Game, record: Option<int>): (r: Game)
    requires |g.coords| >= SnakeStartSize
    ensures g.action == Start ==> r.phase == Spawn && r.info.level == 1 && r.size == SnakeStartSize
    ensures g.action == Start ==> r.info == g.info.(highScore := InitRecord(g.info.highScore, record), level := 1)
    ensures g.action == Start ==> r.action == Start && r.timer == g.timer
    ensures g.action == Terminate ==> r == g.(phase := GameOver)
    ensures g.action != Start && g.action != Terminate ==> r == g
  {
    if g.action == Start then
      var s := InitStatistic(g);
      s.(info := s.info.(highScore := InitRecord(s.info.highScore, record), level := 1), phase := Spawn)
    else if g.action == Terminate then g.(phase := GameOver)
    else g
  }

  /** What `spawn` needs: a board, the segments on it, and a valid free-cell index. */
  predicate SpawnReady(g: Game, index: int) {
    && IsBoard(g.info.field)
    && 0 <= g.size <= |g.coords|
    && SegmentsInBoard(g.coords, 0, g.size)
    && 0 <= index < |GetFreeCells(g.coords, g.size)|
  }

  /** `spawn`: place and paint an apple off the body, draw the snake, go to Moving. */
  function SpawnStep(g: Game, index: int): (r: Game)
    requires SpawnReady(g, index)
    ensures r.phase == Moving
    ensures r.coords == g.coords && r.size == g.size && r.dir == g.dir && r.timer == g.timer && r.action == g.action
    ensures InBoard(r.apple) && r.apple !in g.coords[..g.size]
    ensures IsBoard(r.info.field)
    ensures At(r.info.field, r.apple) == AppleColor
    ensures r.info == g.info.(field := r.info.field)
  {
    var s := SpawnApple(g, index);
    var field := PositionUpdate(s.info.field, g.coords, g.size, Draw);
    s.(info := s.info.(field := field), phase := Moving)
  }

  /** One of the three events that make `moving` advance the snake. */
  predicate Fires(g: Game, now: int) {
    || CheckRotateHead(g.dir, g.action)
    || Timer.TimerCheck(g.timer, now, g.info.speed, TimerMaxDelay, TimerMinDelay, TimerMaxSpeed)
    || g.action == Action
  }

  /**
   `moving`: Pause toggles the flag and Terminate ends the game; then, unless
   paused, a turn, an expired timer or Action restarts the timer, commits the
   direction and moves on to Shifting (overriding a Terminate of the same
   call). The pending action is always reset to Start.
   */
  function MovingStep(g: Game, now: int): (r: Game)
    requires g.phase == Moving
    ensures r.action == Start
    ensures r.info.pause == (if g.action == Pause then PauseGame(g.info.pause) else g.info.pause)
    ensures r.phase == Shifting <==> r.info.pause != PauseOn && Fires(g, now)
    ensures r.phase != Shifting ==> r.phase == (if g.action == Terminate then GameOver else Moving)
    ensures r.phase == Shifting ==> r.timer == Timer.StartTimer(now) && r.dir == SetDirection(g.dir, g.action)
    ensures r.phase != Shifting ==> r.timer == g.timer && r.dir == g.dir
    ensures r.coords == g.coords && r.size == g.size && r.apple == g.apple
    ensures r.info == g.info.(pause := r.info.pause)
  {
    var paused := if g.action == Pause then PauseGame(g.info.pause) else g.info.pause;
    var phase := if g.action == Pause then g.phase else if g.action == Terminate then GameOver else g.phase;
    var s := g.(info := g.info.(pause := paused), phase := phase);
    var t := if paused != PauseOn && Fires(g, now) then
               s.(timer := Timer.StartTimer(now), dir := SetDirection(g.dir, g.action), phase := Shifting)
             else s;
    t.(action := Start)
  }

  /** What `shifting` needs: a board and a whole snake on it. */
  predicate ShiftReady(g: Game) {
    && IsBoard(g.info.field)
    && 1 <= g.size <= |g.coords|
    && SegmentsInBoard(g.coords, 0, g.size)
  }

  /**
   `shifting`: erase the snake, pull the body one place toward the head and
   advance the head one cell. If the new head is on the board, not on the
   apple and not on the body, draw the snake and return to Moving;
   otherwise go to Attaching.
   */
  function ShiftingStep(g: Game): (r: Game)
    requires ShiftReady(g)
    ensures |r.coords| == |g.coords| && r.size == g.size
    ensures Heading(g.coords[0], r.coords[0]) == Some(g.dir)
    ensures forall i :: 1 <= i < g.size ==> r.coords[i] == g.coords[i - 1]
    ensures forall i :: g.size <= i < |g.coords| ==> r.coords[i] == g.coords[i]
    ensures r.phase == Moving <==> InBoard(r.coords[0]) && r.coords[0] != g.apple && r.coords[0] !in r.coords[1..r.size]
    ensures r.phase == Moving || r.phase == Attaching
    ensures IsBoard(r.info.field)
    ensures r.phase == Moving ==> At(r.info.field, r.coords[0]) == HeadColor
    ensures r.phase == Attaching ==> forall i :: 0 <= i < g.size ==> At(r.info.field, g.coords[i]) == EmptyColor
    ensures r.apple == g.apple && r.dir == g.dir && r.action == g.action && r.timer == g.timer
    ensures r.info == g.info.(field := r.info.field)
  {
    var erased := PositionUpdate(g.info.field, g.coords, g.size, Erase);
    var moved := Advance(g.coords, g.size, g.dir);
    if CoordValidCheck(moved[0]) && moved[0] != g.apple && !CheckCollideBodyHead(moved, g.size) then
      BodyFollows(g.coords, moved, g.size);
      var drawn := PositionUpdate(erased, moved, g.size, Draw);
      assert At(drawn, moved[0]) == HeadColor;
      g.(coords := moved, info := g.info.(field := drawn), phase := Moving)
    else
      g.(coords := moved, info := g.info.(field := erased), phase := Attaching)
  }

  /** The snake's cells after one step: the body follows, the head advances. */
  function Advance(coords: seq<Coord>, size: int, dir: Direction): (moved: seq<Coord>)
    requires 1 <= size <= |coords|
    ensures |moved| == |coords|
    ensures Heading(coords[0], moved[0]) == Some(dir)
    ensures forall i :: 1 <= i < size ==> moved[i] == coords[i - 1]
    ensures forall i :: size <= i < |coords| ==> moved[i] == coords[i]
  {
    RotateHead(ShiftToHead(coords, size), dir)
  }

  /**
   The board after `shifting`: a snake that moved on shows its body in body
   colour, and every cell under neither the old nor the new snake (the
   apple's among them) keeps what it showed.
   */
  lemma ShiftingRepaints(g: Game)
    requires ShiftReady(g)
    ensures var r := ShiftingStep(g);
      r.phase == Moving ==> forall i :: 1 <= i < r.size ==> At(r.info.field, r.coords[i]) == BodyColor
    ensures var r := ShiftingStep(g);
      forall c :: InBoard(c) && c !in g.coords[..g.size] && c !in r.coords[..r.size] ==> At(r.info.field, c) == At(g.info.field, c)
  {
    var r := ShiftingStep(g);
    var erased := PositionUpdate(g.info.field, g.coords, g.size, Erase);
    var moved := Advance(g.coords, g.size, g.dir);
    if CoordValidCheck(moved[0]) && moved[0] != g.apple && !CheckCollideBodyHead(moved, g.size) {
      BodyFollows(g.coords, moved, g.size);
      var drawn := PositionUpdate(erased, moved, g.size, Draw);
      assert r.coords == moved && r.info.field == drawn && r.size == g.size;
      RedrawFrame(g.info.field, erased, drawn, g.coords, moved, g.size);
    } else {
      assert r.coords == moved && r.info.field == erased && r.phase == Attaching;
    }
  }

  /** Erasing one snake and drawing another leaves every cell under neither as it was. */
  lemma RedrawFrame(f0: Matrix, f1: Matrix, f2: Matrix, a: seq<Coord>, b: seq<Coord>, n: int)
    requires IsBoard(f0) && IsBoard(f1) && IsBoard(f2)
    requires 0 <= n <= |a| && n <= |b| && SegmentsInBoard(a, 0, n) && SegmentsInBoard(b, 0, n)
    requires Painted(f0, a, n, Erase, f1) && Painted(f1, b, n, Draw, f2)
    ensures forall c :: InBoard(c) && c !in a[..n] && c !in b[..n] ==> At(f2, c) == At(f0, c)
  {
  }

  /** With the head on the board, a body that follows a snake on the board is on the board. */
  lemma BodyFollows(coords: seq<Coord>, moved: seq<Coord>, size: int)
    requires 1 <= size <= |coords| == |moved| && SegmentsInBoard(coords, 0, size)
    requires InBoard(moved[0]) && forall i :: 1 <= i < size ==> moved[i] == coords[i - 1]
    ensures SegmentsInBoard(moved, 0, size)
  {
    forall i | 0 <= i < size
      ensures InBoard(moved[i])
    {
      if i > 0 {
        assert InBoard(coords[i - 1]);
      }
    }
  }

  /** What `attaching` needs: a board, the body on it, a slot for the new tail. */
  predicate AttachReady(g: Game) {
    && IsBoard(g.info.field)
    && |g.coords| == SnakeMaxSize
    && 1 <= g.size <= SnakeMaxSize
    && SegmentsInBoard(g.coords, 1, g.size)
  }

  /**
   `attaching`: a head off the board or on the body ends the game. A head on
   the apple grows the snake by a copy of its tail; at the maximum size the
   game ends (a win), otherwise the snake is redrawn, the score and level
   are updated and a new apple is due.
   */
  function AttachingStep(g: Game): (r: Game)
    requires AttachReady(g)
    ensures !InBoard(g.coords[0]) || g.coords[0] in g.coords[1..g.size] ==> r == g.(phase := GameOver)
    ensures InBoard(g.coords[0]) && g.coords[0] !in g.coords[1..g.size] && g.coords[0] == g.apple ==>
      r.size == g.size + 1 && (r.size >= SnakeMaxSize ==> r == g.(size := r.size, phase := GameOver))
    ensures |r.coords| == |g.coords|
    ensures InBoard(g.coords[0]) && g.coords[0] !in g.coords[1..g.size] && g.coords[0] == g.apple && g.size + 1 < SnakeMaxSize ==>
      r == Grow(g)
    ensures InBoard(g.coords[0]) && g.coords[0] !in g.coords[1..g.size] && g.coords[0] != g.apple ==> r == g
  {
    if !CoordValidCheck(g.coords[0]) || CheckCollideBodyHead(g.coords, g.size) then
      g.(phase := GameOver)
    else if g.coords[0] == g.apple then
      if g.size + 1 >= SnakeMaxSize then
        g.(size := g.size + 1, phase := GameOver)
      else
        Grow(g)
    else
      g
  }

  /**
   The growing branch of `attaching`: the tail is doubled into the next
   slot, the snake is redrawn, the score and level are updated and a new
   apple is due.
   */
  function Grow(g: Game): (r: Game)
    requires AttachReady(g) && InBoard(g.coords[0]) && g.coords[0] !in g.coords[1..g.size]
    requires g.size + 1 < SnakeMaxSize
    ensures r.phase == Spawn && r.size == g.size + 1 && |r.coords| == |g.coords|
    ensures r.coords[..r.size] == g.coords[..g.size] + [g.coords[g.size - 1]]
    ensures r.coords[r.size..] == g.coords[r.size..]
    ensures r.info.score == g.info.score + 1
    ensures r.info.highScore == Max(g.info.highScore, g.info.score + 1)
    ensures r.info.level == UpdateLevelSpeed(g.info.(score := g.info.score + 1)).level
    ensures r.info.speed == UpdateLevelSpeed(g.info.(score := g.info.score + 1)).speed
    ensures IsBoard(r.info.field)
    ensures g.size >= 2 ==> At(r.info.field, g.coords[0]) == HeadColor
    ensures SegmentsInBoard(r.coords, 0, r.size) && Painted(g.info.field, r.coords, r.size, Draw, r.info.field)
    ensures r.info.pause == g.info.pause && r.info.next == g.info.next
    ensures r.apple == g.apple && r.dir == g.dir && r.timer == g.timer && r.action == g.action
  {
    var size := g.size + 1;
    var coords := g.coords[g.size := g.coords[g.size - 1]];
    GrownBody(g);
    var field := PositionUpdate(g.info.field, coords, size, Draw);
    var info := UpdateLevelSpeed(UpdateScoreGame(g.info.(field := field)));
    g.(size := size, coords := coords, info := info, phase := Spawn)
  }

  /**
   The grown array: the old snake plus a copy of its tail, all on the board,
   the slots past it untouched, and the head on no other segment when the
   snake had a body.
   */
  lemma GrownBody(g: Game)
    requires AttachReady(g) && InBoard(g.coords[0]) && g.coords[0] !in g.coords[1..g.size]
    requires g.size + 1 < SnakeMaxSize
    ensures var coords := g.coords[g.size := g.coords[g.size - 1]];
      && SegmentsInBoard(coords, 0, g.size + 1)
      && coords[..g.size + 1] == g.coords[..g.size] + [g.coords[g.size - 1]]
      && coords[g.size + 1..] == g.coords[g.size + 1..]
      && (g.size >= 2 ==> coords[0] !in coords[1..g.size + 1])
  {
    var coords := g.coords[g.size := g.coords[g.size - 1]];
    forall i | 0 <= i <= g.size
      ensures InBoard(coords[i])
    {
      if i == g.size {
        assert coords[i] == g.coords[g.size - 1];
      }
    }
    assert coords[..g.size + 1] == g.coords[..g.size] + [g.coords[g.size - 1]];
    if g.size >= 2 {
      assert coords[1..g.size + 1] == g.coords[1..g.size] + [g.coords[g.size - 1]];
      assert g.coords[1..g.size][g.size - 2] == g.coords[g.size - 1];
    }
  }

  /** `game_over`: the win code if the snake reached full size, the lose code otherwise. */
  function GameOverStep(g: Game): (r: Game)
    ensures r.info.level == WinLvl <==> g.size >= SnakeMaxSize
    ensures r.info.level == WinLvl || r.info.level == LoseLvl
    ensures r == g.(info := g.info.(level := r.info.level))
  {
    if g.size >= SnakeMaxSize then g.(info := g.info.(level := WinLvl))
    else g.(info := g.info.(level := LoseLvl))
  }

  // ---------------------------------------------------------------- machine

  /**
   The states a running snake can be in: the array and board have their
   fixed sizes, every live segment is on the board (the head may be off it
   only in Attaching, right after hitting a wall), the snake is short of full
   size until the game ends, and the level stays in range until then.
   */
  predicate Valid(g: Game) {
    && |g.coords| == SnakeMaxSize
    && IsBoard(g.info.field)
    && 0 <= g.size <= SnakeMaxSize
    && (g.phase != GameOver ==> 0 <= g.info.level <= MaxLevel)
    && (g.phase in {Spawn, Moving, Shifting, Attaching} ==> 1 <= g.size < SnakeMaxSize && SegmentsInBoard(g.coords, 1, g.size))
    && (g.phase in {Spawn, Moving, Shifting} ==> InBoard(g.coords[0]))
  }

  /**
   The snake as constructed: zeroed board and preview, a value-initialised
   coordinate array and snapshot, the timer started at `now`.
   */
  function Initial(now: int): (g: Game)
    ensures Valid(g) && g.phase == GameStart && g.action == Start
  {
    Game(GameInfo(Zeros(WindowHeight, WindowWidth), Zeros(NextSize, NextSize), 0, 0, 0, 0, 0),
         Start, GameStart, seq(SnakeMaxSize, _ => (0, 0)), 0, (0, 0), DirUp, Timer.Timer(now))
  }

  /** The snake's six handlers, with this step's inputs bound in. */
  function SnakeHandlers(inp: Inputs): GameCore.Handlers<Game> {
    GameCore.Handlers(
      (s: Game) requires |s.coords| >= SnakeStartSize => StartingGame(s, inp.record),
      (s: Game) requires SpawnReady(s, inp.appleIndex) => SpawnStep(s, inp.appleIndex),
      (s: Game) requires s.phase == Moving => MovingStep(s, inp.now),
      (s: Game) requires ShiftReady(s) => ShiftingStep(s),
      (s: Game) requires AttachReady(s) => AttachingStep(s),
      (s: Game) => GameOverStep(s))
  }

  /**
   `fsm()` on the snake: one handler run. From a valid state it reaches a
   valid state; in Spawn the random index must name one of the free cells,
   of which there is always at least one.
   */
  function Fsm(g: Game, inp: Inputs): (r: Game)
    requires Valid(g)
    requires g.phase == Spawn ==> 0 <= inp.appleIndex < |GetFreeCells(g.coords, g.size)|
    ensures Valid(r)
    ensures g.phase == GameOver ==> r.phase == GameOver
  {
    StepKeepsValid(g, inp);
    GameCore.Dispatch(g.phase, g, SnakeHandlers(inp))
  }

  /** Each handler, run through the dispatch, accepts a valid state and keeps it valid. */
  lemma StepKeepsValid(g: Game, inp: Inputs)
    requires Valid(g)
    requires g.phase == Spawn ==> 0 <= inp.appleIndex < |GetFreeCells(g.coords, g.size)|
    ensures GameCore.Ready(g.phase, g, SnakeHandlers(inp))
    ensures Valid(GameCore.Dispatch(g.phase, g, SnakeHandlers(inp)))
    ensures g.phase == GameOver ==> GameCore.Dispatch(g.phase, g, SnakeHandlers(inp)).phase == GameOver
  {
    match g.phase
    case GameStart => DispatchStarting(g, inp);
    case Spawn => DispatchSpawn(g, inp);
    case Moving => DispatchMoving(g, inp);
    case Shifting => DispatchShifting(g, inp);
    case Attaching => DispatchAttaching(g, inp);
    case GameOver => DispatchGameOver(g, inp);
  }

  lemma DispatchStarting(g: Game, inp: Inputs)
    requires Valid(g) && g.phase == GameStart
    ensures GameCore.Ready(g.phase, g, SnakeHandlers(inp))
    ensures GameCore.Dispatch(g.phase, g, SnakeHandlers(inp)) == StartingGame(g, inp.record)
    ensures Valid(StartingGame(g, inp.record))
  {
    assert SnakeHandlers(inp).startingGame.requires(g);
    StartingKeepsValid(g, inp.record);
  }

  lemma DispatchSpawn(g: Game, inp: Inputs)
    requires Valid(g) && g.phase == Spawn && 0 <= inp.appleIndex < |GetFreeCells(g.coords, g.size)|
    ensures GameCore.Ready(g.phase, g, SnakeHandlers(inp))
    ensures GameCore.Dispatch(g.phase, g, SnakeHandlers(inp)) == SpawnStep(g, inp.appleIndex)
    ensures Valid(SpawnStep(g, inp.appleIndex))
  {
    SpawnKeepsValid(g, inp.appleIndex);
    var h := SnakeHandlers(inp);
    assert h.spawn.requires(g);
    assert h.spawn(g) == SpawnStep(g, inp.appleIndex);
  }

  lemma DispatchMoving(g: Game, inp: Inputs)
    requires Valid(g) && g.phase == Moving
    ensures GameCore.Ready(g.phase, g, SnakeHandlers(inp))
    ensures GameCore.Dispatch(g.phase, g, SnakeHandlers(inp)) == MovingStep(g, inp.now)
    ensures Valid(MovingStep(g, inp.now))
  {
    assert SnakeHandlers(inp).moving.requires(g);
    MovingKeepsValid(g, inp.now);
  }

  lemma DispatchShifting(g: Game, inp: Inputs)
    requires Valid(g) && g.phase == Shifting
    ensures GameCore.Ready(g.phase, g, SnakeHandlers(inp))
    ensures GameCore.Dispatch(g.phase, g, SnakeHandlers(inp)) == ShiftingStep(g)
    ensures Valid(ShiftingStep(g))
  {
    assert SnakeHandlers(inp).shifting.requires(g);
    ShiftingKeepsValid(g);
  }

  lemma DispatchAttaching(g: Game, inp: Inputs)
    requires Valid(g) && g.phase == Attaching
    ensures GameCore.Ready(g.phase, g, SnakeHandlers(inp))
    ensures GameCore.Dispatch(g.phase, g, SnakeHandlers(inp)) == AttachingStep(g)
    ensures Valid(AttachingStep(g))
  {
    assert SnakeHandlers(inp).attaching.requires(g);
    AttachingKeepsValid(g);
  }

  lemma DispatchGameOver(g: Game, inp: Inputs)
    requires Valid(g) && g.phase == GameOver
    ensures GameCore.Ready(g.phase, g, SnakeHandlers(inp))
    ensures GameCore.Dispatch(g.phase, g, SnakeHandlers(inp)) == GameOverStep(g)
    ensures Valid(GameOverStep(g))
  {
    assert SnakeHandlers(inp).gameOver.requires(g);
  }

  lemma StartingKeepsValid(g: Game, record: Option<int>)
    requires Valid(g) && g.phase == GameStart
    ensures Valid(StartingGame(g, record))
  {
  }

  lemma SpawnKeepsValid(g: Game, index: int)
    requires Valid(g) && g.phase == Spawn && 0 <= index < |GetFreeCells(g.coords, g.size)|
    ensures SpawnReady(g, index)
    ensures Valid(SpawnStep(g, index))
  {
    assert SegmentsInBoard(g.coords, 0, g.size) by {
      forall i | 0 <= i < g.size
        ensures InBoard(g.coords[i])
      {
        if i > 0 {
          assert 1 <= i < g.size;
        }
      }
    }
    var r := SpawnStep(g, index);
    assert r.coords == g.coords && r.size == g.size && r.phase == Moving;
    assert r.info.level == g.info.level && IsBoard(r.info.field);
  }

  lemma MovingKeepsValid(g: Game, now: int)
    requires Valid(g) && g.phase == Moving
    ensures Valid(MovingStep(g, now))
  {
  }

  lemma ShiftingKeepsValid(g: Game)
    requires Valid(g) && g.phase == Shifting
    ensures ShiftReady(g)
    ensures Valid(ShiftingStep(g))
  {
    var r := ShiftingStep(g);
    assert r.info.level == g.info.level;
    forall i | 1 <= i < r.size
      ensures InBoard(r.coords[i])
    {
      assert r.coords[i] == g.coords[i - 1];
    }
  }

  lemma AttachingKeepsValid(g: Game)
    requires Valid(g) && g.phase == Attaching
    ensures Valid(AttachingStep(g))
  {
    var head := g.coords[0];
    if !InBoard(head) || head in g.coords[1..g.size] {
      assert AttachingStep(g) == g.(phase := GameOver);
    } else if head != g.apple {
      assert AttachingStep(g) == g;
    } else if g.size + 1 >= SnakeMaxSize {
      assert AttachingStep(g) == g.(size := g.size + 1, phase := GameOver);
    } else {
      GrowingKeepsValid(g);
    }
  }

  /** Eating an apple short of full size gives a valid state in Spawn. */
  lemma GrowingKeepsValid(g: Game)
    requires Valid(g) && g.phase == Attaching
    requires InBoard(g.coords[0]) && g.coords[0] !in g.coords[1..g.size] && g.coords[0] == g.apple
    requires g.size + 1 < SnakeMaxSize
    ensures Valid(AttachingStep(g))
  {
    var r := Grow(g);
    assert AttachingStep(g) == r;
    var u := UpdateLevelSpeed(g.info.(score := g.info.score + 1));
    assert r.info.level == u.level && 0 <= u.level <= MaxLevel;
    assert SegmentsInBoard(r.coords, 0, r.size);
  }

  /** With fewer than 200 segments on a 200-cell board, Spawn always finds a free cell. */
  lemma SpawnHasFreeCell(g: Game)
    requires Valid(g) && g.phase == Spawn
    ensures |GetFreeCells(g.coords, g.size)| >= 1
  {
  }

  // ---------------------------------------------------------------- properties

  /** Consecutive segments sit on the same cell or on neighbouring cells. */
  predicate Connected(coords: seq<Coord>, size: int)
    requires 0 <= size <= |coords|
  {
    forall i :: 1 <= i < size ==> coords[i - 1] == coords[i] || Heading(coords[i - 1], coords[i]).Some?
  }

  /**
   Every handler keeps the snake a connected chain: shifting pulls each
   segment onto its neighbour's cell and moves the head one step, and growth
   doubles the tail in place.
   */
  lemma FsmKeepsConnected(g: Game, inp: Inputs)
    requires Valid(g) && Connected(g.coords, g.size)
    requires g.phase == Spawn ==> 0 <= inp.appleIndex < |GetFreeCells(g.coords, g.size)|
    ensures Fsm(g, inp).phase != GameOver ==> Connected(Fsm(g, inp).coords, Fsm(g, inp).size)
  {
    var r := Fsm(g, inp);
    match g.phase
    case GameStart =>
      assert r == StartingGame(g, inp.record);
      StartingKeepsConnected(g, inp.record);
    case Shifting =>
      assert r == ShiftingStep(g);
      ShiftingKeepsConnected(g);
    case Attaching =>
      assert r == AttachingStep(g);
      AttachingKeepsConnected(g);
    case Spawn =>
      assert r == SpawnStep(g, inp.appleIndex);
    case Moving =>
      assert r == MovingStep(g, inp.now);
    case GameOver =>
  }

  lemma StartingKeepsConnected(g: Game, record: Option<int>)
    requires |g.coords| >= SnakeStartSize && 0 <= g.size <= |g.coords| && Connected(g.coords, g.size)
    ensures var r := StartingGame(g, record); 0 <= r.size <= |r.coords| && Connected(r.coords, r.size)
  {
  }

  lemma ShiftingKeepsConnected(g: Game)
    requires ShiftReady(g) && Connected(g.coords, g.size)
    ensures Connected(ShiftingStep(g).coords, g.size)
  {
    var r := ShiftingStep(g);
    forall i | 1 <= i < r.size
      ensures r.coords[i - 1] == r.coords[i] || Heading(r.coords[i - 1], r.coords[i]).Some?
    {
      if i == 1 {
        assert r.coords[1] == g.coords[0];
        HeadingBack(g.coords[0], r.coords[0], g.dir);
      } else {
        assert r.coords[i - 1] == g.coords[i - 2] && r.coords[i] == g.coords[i - 1];
        assert g.coords[i - 2] == g.coords[i - 1] || Heading(g.coords[i - 2], g.coords[i - 1]).Some?;
      }
    }
  }

  lemma AttachingKeepsConnected(g: Game)
    requires AttachReady(g) && Connected(g.coords, g.size)
    ensures var r := AttachingStep(g); r.phase != GameOver ==> Connected(r.coords, r.size)
  {
    if InBoard(g.coords[0]) && g.coords[0] !in g.coords[1..g.size] && g.coords[0] == g.apple && g.size + 1 < SnakeMaxSize {
      var r := Grow(g);
      assert AttachingStep(g) == r;
      ConnectedRepeatTail(g.coords, r.coords, g.size);
    }
  }

  /** Repeating the last segment of a connected chain keeps it connected. */
  lemma ConnectedRepeatTail(s: seq<Coord>, t: seq<Coord>, n: int)
    requires 1 <= n < |t| && n <= |s| && Connected(s, n)
    requires t[..n + 1] == s[..n] + [s[n - 1]]
    ensures Connected(t, n + 1)
  {
    forall i | 1 <= i < n + 1
      ensures t[i - 1] == t[i] || Heading(t[i - 1], t[i]).Some?
    {
      assert t[i] == t[..n + 1][i] && t[i - 1] == t[..n + 1][i - 1];
      if i == n {
        assert t[i] == s[n - 1] && t[i - 1] == s[n - 1];
      } else {
        assert t[i] == s[i] && t[i - 1] == s[i - 1];
      }
    }
  }

  /** A unit step read backwards is a unit step the opposite way. */
  lemma HeadingBack(a: Coord, b: Coord, d: Direction)
    requires Heading(a, b) == Some(d)
    ensures Heading(b, a) == Some(Opposite(d))
  {
  }

  /** `snake_position_update` paints only empty, body or head colour. */
  lemma PositionUpdatePaints(field: Matrix, coords: seq<Coord>, n: int, paint: Paint, c: Coord)
    requires IsBoard(field) && 0 <= n <= |coords| && SegmentsInBoard(coords, 0, n) && InBoard(c)
    ensures var r := PositionUpdate(field, coords, n, paint);
      At(r, c) == At(field, c) || At(r, c) == EmptyColor || At(r, c) == BodyColor || At(r, c) == HeadColor
  {
    var r := PositionUpdate(field, coords, n, paint);
    PaintedColours(field, coords, n, paint, r, c);
  }

  /** On a `Painted` board a cell keeps its value or shows empty, body or head colour. */
  lemma PaintedColours(field: Matrix, coords: seq<Coord>, n: int, paint: Paint, r: Matrix, c: Coord)
    requires IsBoard(field) && IsBoard(r) && 0 <= n <= |coords| && SegmentsInBoard(coords, 0, n) && InBoard(c)
    requires Painted(field, coords, n, paint, r)
    ensures At(r, c) == At(field, c) || At(r, c) == EmptyColor || At(r, c) == BodyColor || At(r, c) == HeadColor
  {
    if c in coords[..n] {
      var k := IndexIn(coords[..n], c);
      assert coords[k] == c;
      if paint == Erase {
        assert At(r, coords[k]) == EmptyColor;
      } else if k >= 1 {
        assert At(r, coords[k]) == BodyColor;
      } else if coords[0] in coords[1..n] {
        var j := IndexIn(coords[1..n], coords[0]);
        assert coords[j + 1] == c;
        assert At(r, coords[j + 1]) == BodyColor;
      } else {
        assert At(r, coords[0]) == HeadColor;
      }
    }
  }

  lemma IndexIn<T>(s: seq<T>, x: T) returns (k: int)
    requires x in s
    ensures 0 <= k < |s| && s[k] == x
  {
    k :| 0 <= k < |s| && s[k] == x;
  }

  /** On a board without an apple, `spawn` leaves exactly one apple cell. */
  lemma SpawnPaintsOneApple(g: Game, index: int)
    requires SpawnReady(g, index)
    requires forall c :: InBoard(c) ==> At(g.info.field, c) != AppleColor
    ensures var r := SpawnStep(g, index);
      forall c :: InBoard(c) ==> (At(r.info.field, c) == AppleColor <==> c == r.apple)
  {
    var s := SpawnApple(g, index);
    var r := SpawnStep(g, index);
    assert r.info.field == PositionUpdate(s.info.field, g.coords, g.size, Draw);
    forall c | InBoard(c)
      ensures At(r.info.field, c) == AppleColor <==> c == r.apple
    {
      PositionUpdatePaints(s.info.field, g.coords, g.size, Draw, c);
    }
  }

  /** A new game: Start sets level 1, places the start snake and asks for an apple. */
  lemma StartSetsLevelOne(now: int, inp: Inputs)
    ensures var g := Fsm(Initial(now), inp);
      && g.phase == Spawn && g.info.level == 1 && g.size == SnakeStartSize
      && |GetFreeCells(g.coords, g.size)| >= WindowHeight * WindowWidth - SnakeStartSize
      && forall c :: InBoard(c) ==> At(g.info.field, c) == EmptyColor
  {
    var g0 := Initial(now);
    var g := Fsm(g0, inp);
    assert g == StartingGame(g0, inp.record);
    assert g.info.field == g0.info.field;
    assert g.size == SnakeStartSize && |g.coords| == SnakeMaxSize;
    var free := GetFreeCells(g.coords, g.size);
    InitialBoardEmpty(now);
  }

  lemma InitialBoardEmpty(now: int)
    ensures forall c :: InBoard(c) ==> At(Initial(now).info.field, c) == EmptyColor
  {
  }

  /** From an apple-free board, one step in Spawn leaves exactly one apple cell. */
  lemma SpawnLeavesOneApple(g: Game, inp: Inputs)
    requires Valid(g) && g.phase == Spawn
    requires 0 <= inp.appleIndex < |GetFreeCells(g.coords, g.size)|
    requires forall c :: InBoard(c) ==> At(g.info.field, c) != AppleColor
    ensures var r := Fsm(g, inp);
      r.phase == Moving && forall c :: InBoard(c) ==> (At(r.info.field, c) == AppleColor <==> c == r.apple)
  {
    assert Fsm(g, inp) == SpawnStep(g, inp.appleIndex);
    SpawnPaintsOneApple(g, inp.appleIndex);
  }

  /** Terminate before starting ends the game, and the next step reports a loss. */
  lemma TerminateBeforeStartLoses(now: int, first: Inputs, second: Inputs)
    ensures var g1 := Fsm(Initial(now).(action := Terminate), first);
      g1.phase == GameOver && Fsm(g1, second).info.level == LoseLvl
  {
    var g0 := Initial(now).(action := Terminate);
    var g1 := Fsm(g0, first);
    assert g1 == StartingGame(g0, first.record);
    assert Fsm(g1, second) == GameOverStep(g1);
  }

  /**
   Terminate pressed while a game runs: the Spawn step keeps the request and
   moves on; in Moving it ends the game unless the timer fires on an unpaused
   snake, which moves it on to Shifting instead; the step out of GameOver
   then reports a loss.
   */
  lemma TerminateWhileRunningLoses(g: Game, first: Inputs, second: Inputs, third: Inputs)
    requires Valid(g) && g.phase == Spawn && g.action == Terminate
    requires 0 <= first.appleIndex < |GetFreeCells(g.coords, g.size)|
    ensures Fsm(g, first) == SpawnStep(g, first.appleIndex)
    ensures var g1 := Fsm(g, first);
      g1.phase == Moving && g1.action == Terminate && Fsm(g1, second) == MovingStep(g1, second.now)
    ensures var g2 := Fsm(Fsm(g, first), second);
      && g2.phase == (if g.info.pause != PauseOn && Timer.TimerCheck(g.timer, second.now, g.info.speed, TimerMaxDelay, TimerMinDelay, TimerMaxSpeed)
                      then Shifting else GameOver)
      && (g2.phase == GameOver ==> Fsm(g2, third).info.level == LoseLvl)
  {
    DispatchSpawn(g, first);
    assert Fsm(g, first) == GameCore.Dispatch(Spawn, g, SnakeHandlers(first));
    var g1 := SpawnStep(g, first.appleIndex);
    assert g1.action == Terminate && g1.timer == g.timer && g1.info == g.info.(field := g1.info.field);
    DispatchMoving(g1, second);
    assert Fsm(g1, second) == GameCore.Dispatch(Moving, g1, SnakeHandlers(second));
    var g2 := MovingStep(g1, second.now);
    assert !CheckRotateHead(g1.dir, Terminate);
    assert Fires(g1, second.now) == Timer.TimerCheck(g.timer, second.now, g.info.speed, TimerMaxDelay, TimerMinDelay, TimerMaxSpeed);
    assert g2.info.pause == g.info.pause && g2.size == g.size;
    if g2.phase == GameOver {
      DispatchGameOver(g2, third);
      assert Fsm(g2, third) == GameCore.Dispatch(GameOver, g2, SnakeHandlers(third));
    }
  }
}
