/**
 Integer matrices as used for the board (`field`) and the preview (`next`):
 a sequence of rows, each a sequence of cells. A null matrix is the empty
 sequence.
 */
module Grid {

  type Matrix = seq<seq<int>>

  /** The matrix has exactly `rows` rows of exactly `cols` cells each. */
  predicate IsGrid(m: Matrix, rows: int, cols: int) {
    |m| == rows && forall i :: 0 <= i < |m| ==> |m[i]| == cols
  }

  predicate InGrid(m: Matrix, y: int, x: int) {
    0 <= y < |m| && 0 <= x < |m[y]|
  }

  /** A `rows` x `cols` matrix of zeros, as `new int[cols]()` per row gives. */
  function Zeros(rows: nat, cols: nat): (m: Matrix)
    ensures IsGrid(m, rows, cols)
    ensures forall y, x :: 0 <= y < rows && 0 <= x < cols ==> m[y][x] == 0
  {
    seq(rows, _ => seq(cols, _ => 0))
  }

  /** `m[y][x] = v`. */
  function SetCell(m: Matrix, y: int, x: int, v: int): (r: Matrix)
    requires InGrid(m, y, x)
    ensures |r| == |m| && forall i :: 0 <= i < |m| ==> |r[i]| == |m[i]|
    ensures r[y][x] == v
    ensures forall i, j :: InGrid(m, i, j) && (i != y || j != x) ==> r[i][j] == m[i][j]
  {
    m[y := m[y][x := v]]
  }
}
