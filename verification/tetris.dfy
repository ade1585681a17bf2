/**
 Tetris board helpers. A brick is eight integers, the (y, x) pairs of its
 four cells; the board is the 20 x 10 field. The Tetris implementation file
 is not part of this model: each helper's behaviour is the one its unit
 tests pin down, stated as a definition over the cells.
 */
module TetrisBoard {
  import opened Grid
  import opened Defs

  const BrickSize: int := 8
  const CellCount: int := 4
  /** Points per level in `check_level`, and the level cap. */
  const LevelStep: int := 600
  const MaxLevel: int := 10
  /** Number of brick shapes `new_brick` knows (codes 1 to 7). */
  const ShapeCount: int := 7

  type Brick = b: seq<int> | |b| == 8 witness [0, 0, 0, 0, 0, 0, 0, 0]

  /** Row and column of cell `k` (0 to 3). */
  function Y(b: Brick, k: int): int
    requires 0 <= k < CellCount
  {
    b[2 * k]
  }

  function X(b: Brick, k: int): int
    requires 0 <= k < CellCount
  {
    b[2 * k + 1]
  }

  predicate OnBoard(y: int, x: int) {
    0 <= y < WindowHeight && 0 <= x < WindowWidth
  }

  predicate IsBoard(m: Matrix) {
    IsGrid(m, WindowHeight, WindowWidth)
  }

  /** The cell exists on the board and holds nothing. */
  predicate Vacant(m: Matrix, y: int, x: int)
    requires IsBoard(m)
  {
    OnBoard(y, x) && m[y][x] == 0
  }

  predicate BrickOnBoard(b: Brick) {
    forall k :: 0 <= k < CellCount ==> OnBoard(Y(b, k), X(b, k))
  }

  // ---------------------------------------------------------------- walls

  /** The four sides of the board a rotated brick must stay within. */
  datatype Wall = Bottom | Top | LeftSide | RightSide

  predicate Inside(w: Wall, y: int, x: int) {
    match w
    case Bottom => y < WindowHeight
    case Top => y >= 0
    case LeftSide => x >= 0
    case RightSide => x < WindowWidth
  }

  /** Cells `k` to 3 are on the inner side of wall `w`. */
  function InsideFrom(b: Brick, w: Wall, k: int): (ok: bool)
    requires 0 <= k <= CellCount
    ensures ok <==> forall j :: k <= j < CellCount ==> Inside(w, Y(b, j), X(b, j))
    decreases CellCount - k
  {
    if k == CellCount then true
    else Inside(w, Y(b, k), X(b, k)) && InsideFrom(b, w, k + 1)
  }

  /** `rotate_check_down_wall`: no cell below the last row. */
  function RotateCheckDownWall(b: Brick): (ok: bool)
    ensures ok <==> forall k :: 0 <= k < CellCount ==> Y(b, k) < WindowHeight
  {
    InsideFrom(b, Bottom, 0)
  }

  /** `rotate_check_up_wall`: no cell above the first row. */
  function RotateCheckUpWall(b: Brick): (ok: bool)
    ensures ok <==> forall k :: 0 <= k < CellCount ==> Y(b, k) >= 0
  {
    InsideFrom(b, Top, 0)
  }

  /** `rotate_check_left_wall`: no cell left of the first column. */
  function RotateCheckLeftWall(b: Brick): (ok: bool)
    ensures ok <==> forall k :: 0 <= k < CellCount ==> X(b, k) >= 0
  {
    InsideFrom(b, LeftSide, 0)
  }

  /** `rotate_check_right_wall`: no cell right of the last column. */
  function RotateCheckRightWall(b: Brick): (ok: bool)
    ensures ok <==> forall k :: 0 <= k < CellCount ==> X(b, k) < WindowWidth
  {
    InsideFrom(b, RightSide, 0)
  }

  /** The four wall checks together pass exactly for a brick inside the board. */
  lemma WallChecksMeanOnBoard(b: Brick)
    ensures BrickOnBoard(b) <==>
      RotateCheckDownWall(b) && RotateCheckUpWall(b) && RotateCheckLeftWall(b) && RotateCheckRightWall(b)
  {
  }

  // ---------------------------------------------------------------- shifting

  /** The coordinate `coord_shift` moves: 0 selects rows, 1 columns. */
  datatype Axis = Rows | Cols

  /** `coord_shift`: add `shift` to one coordinate of every cell. */
  function CoordShift(b: Brick, axis: Axis, shift: int): (r: Brick)
    ensures forall k :: 0 <= k < CellCount ==> Y(r, k) == Y(b, k) + (if axis == Rows then shift else 0)
    ensures forall k :: 0 <= k < CellCount ==> X(r, k) == X(b, k) + (if axis == Cols then shift else 0)
  {
    var dy := if axis == Rows then shift else 0;
    var dx := if axis == Cols then shift else 0;
    var r := [b[0] + dy, b[1] + dx, b[2] + dy, b[3] + dx, b[4] + dy, b[5] + dx, b[6] + dy, b[7] + dx];
    CellwiseShift(b, r, dy, dx);
    r
  }

  /** An eight-int update that moves each pair by (dy, dx) moves every cell by it. */
  lemma CellwiseShift(b: Brick, r: Brick, dy: int, dx: int)
    requires forall i :: 0 <= i < BrickSize && i % 2 == 0 ==> r[i] == b[i] + dy
    requires forall i :: 0 <= i < BrickSize && i % 2 == 1 ==> r[i] == b[i] + dx
    ensures forall k :: 0 <= k < CellCount ==> Y(r, k) == Y(b, k) + dy && X(r, k) == X(b, k) + dx
  {
    forall k | 0 <= k < CellCount
      ensures Y(r, k) == Y(b, k) + dy && X(r, k) == X(b, k) + dx
    {
      assert r[2 * k] == b[2 * k] + dy;
      assert r[2 * k + 1] == b[2 * k + 1] + dx;
    }
  }

  /** Shifting back by the same amount restores the brick. */
  lemma CoordShiftInverse(b: Brick, axis: Axis, shift: int)
    ensures CoordShift(CoordShift(b, axis, shift), axis, -shift) == b
  {
    var r := CoordShift(CoordShift(b, axis, shift), axis, -shift);
    forall i | 0 <= i < BrickSize
      ensures r[i] == b[i]
    {
      var k := i / 2;
      if i % 2 == 0 {
        assert r[i] == Y(r, k) && b[i] == Y(b, k);
      } else {
        assert r[i] == X(r, k) && b[i] == X(b, k);
      }
    }
  }

  // ---------------------------------------------------------------- shapes

  function Min(a: int, b: int): int {
    if a <= b then a else b
  }

  function MinY(b: Brick): int {
    Min(Min(b[0], b[2]), Min(b[4], b[6]))
  }

  function MinX(b: Brick): int {
    Min(Min(b[1], b[3]), Min(b[5], b[7]))
  }

  /** The cells a brick covers. */
  function CellSet(b: Brick): set<(int, int)> {
    {(b[0], b[1]), (b[2], b[3]), (b[4], b[5]), (b[6], b[7])}
  }

  function Square(y: int, x: int): set<(int, int)> {
    {(y, x), (y, x + 1), (y + 1, x), (y + 1, x + 1)}
  }

  function Row4(y: int, x: int): set<(int, int)> {
    {(y, x), (y, x + 1), (y, x + 2), (y, x + 3)}
  }

  function Column4(y: int, x: int): set<(int, int)> {
    {(y, x), (y + 1, x), (y + 2, x), (y + 3, x)}
  }

  /** `is_Smashboy`: the cells form a 2 x 2 square, wherever it sits. */
  function IsSmashboy(b: Brick): (ok: bool)
    ensures ok <==> exists y, x :: CellSet(b) == Square(y, x)
  {
    var ok := CellSet(b) == Square(MinY(b), MinX(b));
    assert (exists y, x :: CellSet(b) == Square(y, x)) ==> ok by {
      if y, x :| CellSet(b) == Square(y, x) {
        SquareAnchor(b, y, x);
      }
    }
    ok
  }

  /** A square's top-left cell is the brick's least row and least column. */
  lemma SquareAnchor(b: Brick, y: int, x: int)
    requires CellSet(b) == Square(y, x)
    ensures MinY(b) == y && MinX(b) == x
  {
    assert (b[0], b[1]) in Square(y, x) && (b[2], b[3]) in Square(y, x);
    assert (b[4], b[5]) in Square(y, x) && (b[6], b[7]) in Square(y, x);
    assert (y, x) in CellSet(b);
  }

  /** `is_Hero`: the cells form a straight line of four, across or down. */
  function IsHero(b: Brick): (ok: bool)
    ensures ok <==> (exists y, x :: CellSet(b) == Row4(y, x)) || (exists y, x :: CellSet(b) == Column4(y, x))
  {
    var ok := CellSet(b) == Row4(MinY(b), MinX(b)) || CellSet(b) == Column4(MinY(b), MinX(b));
    assert (exists y, x :: CellSet(b) == Row4(y, x)) ==> ok by {
      if y, x :| CellSet(b) == Row4(y, x) {
        Row4Anchor(b, y, x);
      }
    }
    assert (exists y, x :: CellSet(b) == Column4(y, x)) ==> ok by {
      if y, x :| CellSet(b) == Column4(y, x) {
        Column4Anchor(b, y, x);
      }
    }
    ok
  }

  lemma Row4Anchor(b: Brick, y: int, x: int)
    requires CellSet(b) == Row4(y, x)
    ensures MinY(b) == y && MinX(b) == x
  {
    assert (b[0], b[1]) in Row4(y, x) && (b[2], b[3]) in Row4(y, x);
    assert (b[4], b[5]) in Row4(y, x) && (b[6], b[7]) in Row4(y, x);
    assert (y, x) in CellSet(b);
  }

  lemma Column4Anchor(b: Brick, y: int, x: int)
    requires CellSet(b) == Column4(y, x)
    ensures MinY(b) == y && MinX(b) == x
  {
    assert (b[0], b[1]) in Column4(y, x) && (b[2], b[3]) in Column4(y, x);
    assert (b[4], b[5]) in Column4(y, x) && (b[6], b[7]) in Column4(y, x);
    assert (y, x) in CellSet(b);
  }

  /** A square is never a line. */
  lemma SmashboyIsNotHero(b: Brick)
    requires IsSmashboy(b)
    ensures !IsHero(b)
  {
    var y, x :| CellSet(b) == Square(y, x);
    var p, q := (y, x), (y + 1, x + 1);
    assert p in CellSet(b) && q in CellSet(b);
    LineCellsAligned(MinY(b), MinX(b), p, q);
  }

  /** Two cells of one straight line share their row or their column. */
  lemma LineCellsAligned(y: int, x: int, p: (int, int), q: (int, int))
    ensures p in Row4(y, x) && q in Row4(y, x) ==> p.0 == q.0
    ensures p in Column4(y, x) && q in Column4(y, x) ==> p.1 == q.1
  {
  }

  // ---------------------------------------------------------------- board checks

  /** Cells `k` to 3, moved by (dy, dx), are all vacant. */
  function VacantFrom(m: Matrix, b: Brick, dy: int, dx: int, k: int): (ok: bool)
    requires IsBoard(m) && 0 <= k <= CellCount
    ensures ok <==> forall j :: k <= j < CellCount ==> Vacant(m, Y(b, j) + dy, X(b, j) + dx)
    decreases CellCount - k
  {
    if k == CellCount then true
    else Vacant(m, Y(b, k) + dy, X(b, k) + dx) && VacantFrom(m, b, dy, dx, k + 1)
  }

  /** `check_down`: every cell has a vacant board cell right below it. */
  function CheckDown(m: Matrix, b: Brick): (ok: bool)
    requires IsBoard(m)
    ensures ok <==> forall k :: 0 <= k < CellCount ==> Vacant(m, Y(b, k) + 1, X(b, k))
  {
    VacantFrom(m, b, 1, 0, 0)
  }

  /** `check_left`: every cell, moved `shift` columns left, lands on a vacant cell. */
  function CheckLeft(m: Matrix, b: Brick, shift: int): (ok: bool)
    requires IsBoard(m)
    ensures ok <==> forall k :: 0 <= k < CellCount ==> Vacant(m, Y(b, k), X(b, k) - shift)
  {
    VacantFrom(m, b, 0, -shift, 0)
  }

  /** `check_right`: every cell, moved `shift` columns right, lands on a vacant cell. */
  function CheckRight(m: Matrix, b: Brick, shift: int): (ok: bool)
    requires IsBoard(m)
    ensures ok <==> forall k :: 0 <= k < CellCount ==> Vacant(m, Y(b, k), X(b, k) + shift)
  {
    VacantFrom(m, b, 0, shift, 0)
  }

  /** On an empty board the side checks are pure bounds checks. */
  lemma SideChecksOnEmptyBoard(m: Matrix, b: Brick, shift: int)
    requires IsBoard(m) && forall y, x :: OnBoard(y, x) ==> m[y][x] == 0
    requires forall k :: 0 <= k < CellCount ==> 0 <= Y(b, k) < WindowHeight
    ensures CheckRight(m, b, shift) <==> forall k :: 0 <= k < CellCount ==> 0 <= X(b, k) + shift < WindowWidth
    ensures CheckLeft(m, b, shift) <==> forall k :: 0 <= k < CellCount ==> 0 <= X(b, k) - shift < WindowWidth
  {
  }

  /** Cells `k` to 3 that lie on the board are vacant. */
  function FreeFrom(m: Matrix, b: Brick, k: int): (ok: bool)
    requires IsBoard(m) && 0 <= k <= CellCount
    ensures ok <==> forall j :: k <= j < CellCount && OnBoard(Y(b, j), X(b, j)) ==> m[Y(b, j)][X(b, j)] == 0
    decreases CellCount - k
  {
    if k == CellCount then true
    else (!OnBoard(Y(b, k), X(b, k)) || m[Y(b, k)][X(b, k)] == 0) && FreeFrom(m, b, k + 1)
  }

  /** `rotate_check_field`: no cell of the brick covers an occupied board cell. */
  function RotateCheckField(m: Matrix, b: Brick): (ok: bool)
    requires IsBoard(m)
    ensures ok <==> forall k :: 0 <= k < CellCount && OnBoard(Y(b, k), X(b, k)) ==> m[Y(b, k)][X(b, k)] == 0
  {
    FreeFrom(m, b, 0)
  }

  // ---------------------------------------------------------------- moving

  /** `brick_move` for Left and Right: one column over if the target cells are vacant. */
  function BrickMove(b: Brick, action: UserAction, m: Matrix): (r: Brick)
    requires IsBoard(m) && (action == Left || action == Right)
    ensures var shift := if action == Left then -1 else 1;
      && (r != b <==> VacantFrom(m, b, 0, shift, 0))
      && (r != b ==> forall k :: 0 <= k < CellCount ==> Y(r, k) == Y(b, k) && X(r, k) == X(b, k) + shift)
  {
    if action == Left then
      if CheckLeft(m, b, 1) then CoordShift(b, Cols, -1) else b
    else
      if CheckRight(m, b, 1) then CoordShift(b, Cols, 1) else b
  }

  /**
   `check_attaching`: a brick that can fall moves one row down and is not
   attached; a brick that cannot is attached and stays where it is.
   */
  function CheckAttaching(b: Brick, m: Matrix): (r: (bool, Brick))
    requires IsBoard(m)
    ensures r.0 <==> !CheckDown(m, b)
    ensures r.0 ==> r.1 == b
    ensures !r.0 ==> forall k :: 0 <= k < CellCount ==> Y(r.1, k) == Y(b, k) + 1 && X(r.1, k) == X(b, k)
  {
    if CheckDown(m, b) then (false, CoordShift(b, Rows, 1)) else (true, b)
  }

  // ---------------------------------------------------------------- painting

  /** Cells 0 to `n` - 1 of `b` are among the given coordinates. */
  predicate IsCell(b: Brick, n: int, y: int, x: int)
    requires 0 <= n <= CellCount
  {
    exists k :: 0 <= k < n && Y(b, k) == y && X(b, k) == x
  }

  /** Write `v` into cells 0 to `n` - 1, in order. */
  function Paint(m: Matrix, b: Brick, v: int, n: int): (r: Matrix)
    requires IsBoard(m) && BrickOnBoard(b) && 0 <= n <= CellCount
    ensures IsBoard(r)
    ensures forall k :: 0 <= k < n ==> r[Y(b, k)][X(b, k)] == v
    ensures forall y, x :: OnBoard(y, x) && !IsCell(b, n, y, x) ==> r[y][x] == m[y][x]
    decreases n
  {
    if n == 0 then m
    else SetCell(Paint(m, b, v, n - 1), Y(b, n - 1), X(b, n - 1), v)
  }

  /** `spawn_brick`: the four cells take the colour, nothing else changes. */
  function SpawnBrick(m: Matrix, b: Brick, color: int): (r: Matrix)
    requires IsBoard(m) && BrickOnBoard(b)
    ensures IsBoard(r)
    ensures forall k :: 0 <= k < CellCount ==> r[Y(b, k)][X(b, k)] == color
    ensures forall y, x :: OnBoard(y, x) && !IsCell(b, CellCount, y, x) ==> r[y][x] == m[y][x]
  {
    Paint(m, b, color, CellCount)
  }

  /** `despawn`: the four cells are cleared, nothing else changes. */
  function Despawn(m: Matrix, b: Brick): (r: Matrix)
    requires IsBoard(m) && BrickOnBoard(b)
    ensures IsBoard(r)
    ensures forall k :: 0 <= k < CellCount ==> r[Y(b, k)][X(b, k)] == 0
    ensures forall y, x :: OnBoard(y, x) && !IsCell(b, CellCount, y, x) ==> r[y][x] == m[y][x]
  {
    Paint(m, b, 0, CellCount)
  }

  /** Drawing a brick over vacant cells and erasing it gives the board back. */
  lemma DespawnUndoesSpawn(m: Matrix, b: Brick, color: int)
    requires IsBoard(m) && BrickOnBoard(b)
    requires RotateCheckField(m, b)
    ensures Despawn(SpawnBrick(m, b, color), b) == m
  {
    var r := Despawn(SpawnBrick(m, b, color), b);
    forall y | 0 <= y < WindowHeight
      ensures r[y] == m[y]
    {
      forall x | 0 <= x < WindowWidth
        ensures r[y][x] == m[y][x]
      {
        if IsCell(b, CellCount, y, x) {
          var k :| 0 <= k < CellCount && Y(b, k) == y && X(b, k) == x;
        }
      }
    }
  }

  // ---------------------------------------------------------------- stats

  /**
   `check_level`: below the cap, reaching 600 points per next level raises
   level and speed by one. The cases in tests/tetris_tests.cpp fix only the
   step from level 0 to 1 at 600 points and the cap at 10; the same 600-point
   step above level 1 is this model's choice.
   */
  function CheckLevel(info: GameInfo): (r: GameInfo)
    ensures r.level == info.level + 1 <==> info.level < MaxLevel && info.score >= LevelStep * (info.level + 1)
    ensures r.level == info.level || r.level == info.level + 1
    ensures r.level - info.level == r.speed - info.speed
    ensures info.level <= MaxLevel ==> r.level <= MaxLevel
    ensures r == info.(level := r.level, speed := r.speed)
  {
    if info.level < MaxLevel && info.score >= LevelStep * (info.level + 1) then
      info.(level := info.level + 1, speed := info.speed + 1)
    else info
  }

  /** Some cell among `k` to 3 sits in the top row. */
  function TopRowFrom(b: Brick, k: int): (hit: bool)
    requires 0 <= k <= CellCount
    ensures hit <==> exists j :: k <= j < CellCount && Y(b, j) == 0
    decreases CellCount - k
  {
    if k == CellCount then false
    else Y(b, k) == 0 || TopRowFrom(b, k + 1)
  }

  /** `check_gameover`: some cell sits in the top row. */
  function CheckGameover(b: Brick): (over: bool)
    ensures over <==> exists k :: 0 <= k < CellCount && Y(b, k) == 0
  {
    TopRowFrom(b, 0)
  }

  /** `brick_copy(dst, src)`: the destination becomes the source, cell by cell. */
  function BrickCopy(dst: Brick, src: Brick): (r: Brick)
    ensures forall i :: 0 <= i < BrickSize ==> r[i] == src[i]
  {
    seq(BrickSize, i requires 0 <= i < BrickSize => src[i])
  }

  /**
   `new_brick`: codes 1 to 7 load the matching shape; any other code leaves
   the buffer as it was. The shape table itself is a parameter.
   */
  function NewBrick(b: Brick, code: int, shapes: seq<Brick>): (r: Brick)
    requires |shapes| == ShapeCount
    ensures 1 <= code <= ShapeCount ==> r == shapes[code - 1]
    ensures !(1 <= code <= ShapeCount) ==> r == b
  {
    if 1 <= code <= ShapeCount then shapes[code - 1] else b
  }

  // ------------------------------------------------------------ test cases

  /** The shapes the unit tests classify: a square, a broken square, two lines. */
  lemma ShapeCases()
    ensures IsSmashboy([0, 0, 0, 1, 1, 0, 1, 1])
    ensures !IsSmashboy([0, 0, 0, 1, 1, 0, 2, 1])
    ensures IsHero([5, 1, 5, 2, 5, 3, 5, 4])
    ensures IsHero([1, 7, 2, 7, 3, 7, 4, 7])
  {
  }

  /** The shifts among the cases in tests/tetris_tests.cpp: rows by +2, then columns by -1. */
  lemma ShiftCases()
    ensures CoordShift([0, 0, 1, 1, 2, 2, 3, 3], Rows, 2) == [2, 0, 3, 1, 4, 2, 5, 3]
    ensures CoordShift([2, 0, 3, 1, 4, 2, 5, 3], Cols, -1) == [2, -1, 3, 0, 4, 1, 5, 2]
  {
  }

  /** The level checks among the cases in tests/tetris_tests.cpp: 600 points lift level 0 to 1; level 10 is the cap. */
  lemma LevelCases(info: GameInfo)
    ensures var r := CheckLevel(info.(level := 0, speed := 0, score := 600)); r.level == 1 && r.speed == 1
    ensures CheckLevel(info.(level := 10, speed := 5, score := 100000)).level == 10
  {
  }

  /** The top-row checks among the cases in tests/tetris_tests.cpp. */
  lemma GameoverCases()
    ensures CheckGameover([0, 1, 2, 3, 4, 5, 6, 7])
    ensures !CheckGameover([1, 1, 2, 3, 4, 5, 6, 7])
  {
  }
}
