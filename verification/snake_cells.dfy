/**
 Board cells for the snake: the bounds check and the list of free cells an
 apple may be placed on (`get_free_cells`).
 */
module SnakeCells {
  import opened Defs

  /** A board coordinate as the snake stores it: (row y, column x). */
  type Coord = (int, int)

  /** The cell lies on the board. */
  predicate InBoard(c: Coord) {
    0 <= c.0 < WindowHeight && 0 <= c.1 < WindowWidth
  }

  /** The position of a cell in row-major order. */
  function Rank(c: Coord): int {
    c.0 * WindowWidth + c.1
  }

  /** Strictly increasing in row-major order, hence free of duplicates. */
  predicate RowMajor(cells: seq<Coord>) {
    forall i, j :: 0 <= i < j < |cells| ==> Rank(cells[i]) < Rank(cells[j])
  }

  /** Every board cell of rank at least `k`, in row-major order. */
  function CellsFrom(k: nat): (cells: seq<Coord>)
    requires k <= WindowHeight * WindowWidth
    ensures |cells| == WindowHeight * WindowWidth - k
    ensures forall c :: c in cells <==> InBoard(c) && Rank(c) >= k
    ensures RowMajor(cells)
    decreases WindowHeight * WindowWidth - k
  {
    if k == WindowHeight * WindowWidth then []
    else
      var c := (k / WindowWidth, k % WindowWidth);
      assert Rank(c) == k;
      var rest := CellsFrom(k + 1);
      assert forall d :: InBoard(d) && Rank(d) == k ==> d == c by {
        forall d | InBoard(d) && Rank(d) == k
          ensures d == c
        {
          RankInjective(d, c);
        }
      }
      [c] + rest
  }

  lemma RankInjective(a: Coord, b: Coord)
    requires InBoard(a) && InBoard(b) && Rank(a) == Rank(b)
    ensures a == b
  {
  }

  /** All board cells, row by row: the first double loop of `get_free_cells`. */
  function AllCells(): (cells: seq<Coord>)
    ensures |cells| == WindowHeight * WindowWidth
    ensures forall c :: c in cells <==> InBoard(c)
    ensures RowMajor(cells)
  {
    CellsFrom(0)
  }

  /** `erase` of the first element equal to `c`, if there is one. */
  function EraseFirst(cells: seq<Coord>, c: Coord): (r: seq<Coord>)
    ensures |r| >= |cells| - 1
    ensures RowMajor(cells) ==> RowMajor(r)
    ensures RowMajor(cells) ==> forall d :: d in r <==> d in cells && d != c
  {
    if |cells| == 0 then []
    else
      HeadBeforeTail(cells);
      if cells[0] == c then cells[1..]
      else [cells[0]] + EraseFirst(cells[1..], c)
  }

  /** In row-major order the first cell comes before every later one. */
  lemma HeadBeforeTail(cells: seq<Coord>)
    requires |cells| >= 1
    ensures RowMajor(cells) ==> RowMajor(cells[1..])
    ensures RowMajor(cells) ==> forall d :: d in cells[1..] ==> Rank(cells[0]) < Rank(d)
  {
    if RowMajor(cells) {
      forall d | d in cells[1..]
        ensures Rank(cells[0]) < Rank(d)
      {
        var j :| 0 <= j < |cells[1..]| && cells[1..][j] == d;
        assert cells[j + 1] == d;
      }
    }
  }

  /** The second loop of `get_free_cells`: erase each segment in turn. */
  function EraseAll(cells: seq<Coord>, segments: seq<Coord>): (r: seq<Coord>)
    ensures |r| >= |cells| - |segments|
    ensures RowMajor(cells) ==> RowMajor(r)
    ensures RowMajor(cells) ==> forall d :: d in r <==> d in cells && d !in segments
    decreases |segments|
  {
    if |segments| == 0 then cells
    else EraseAll(EraseFirst(cells, segments[0]), segments[1..])
  }

  /**
   `get_free_cells`: the board cells not covered by the first `size`
   segments, in row-major order. At most `size` cells are missing.
   */
  function GetFreeCells(coords: seq<Coord>, size: int): (free: seq<Coord>)
    requires 0 <= size <= |coords|
    ensures forall c :: c in free <==> InBoard(c) && c !in coords[..size]
    ensures RowMajor(free)
    ensures |free| >= WindowHeight * WindowWidth - size
  {
    EraseAll(AllCells(), coords[..size])
  }
}
