/**
 Tetris row clearing (`check_full_row`): every row with no empty cell is
 removed, the rows above it drop down by the number of removed rows below
 them, and empty rows refill the top. The function returns how many rows it
 removed.
 */
module RowClear {
  import opened Grid

  /** A row with no empty (zero) cell. */
  predicate Full(row: seq<int>) {
    forall j :: 0 <= j < |row| ==> row[j] != 0
  }

  /** The number of full rows. */
  function FullCount(rows: Matrix): (n: nat)
    ensures n <= |rows|
  {
    if |rows| == 0 then 0
    else FullCount(rows[..|rows| - 1]) + (if Full(rows[|rows| - 1]) then 1 else 0)
  }

  /** The rows that are not full, top to bottom. */
  function Kept(rows: Matrix): (k: Matrix)
    ensures forall i :: 0 <= i < |k| ==> !Full(k[i]) && k[i] in rows
  {
    if |rows| == 0 then []
    else Kept(rows[..|rows| - 1]) + (if Full(rows[|rows| - 1]) then [] else [rows[|rows| - 1]])
  }

  function ZeroRows(n: nat, cols: nat): (z: Matrix)
    ensures IsGrid(z, n, cols)
    ensures forall i, j :: 0 <= i < n && 0 <= j < cols ==> z[i][j] == 0
  {
    Zeros(n, cols)
  }

  /** The board after clearing: refill rows on top, surviving rows below in order. */
  function Compact(rows: Matrix, cols: nat): Matrix {
    ZeroRows(FullCount(rows), cols) + Kept(rows)
  }

  /** Every row is either kept or counted. */
  lemma {:induction false} KeptPlusFull(rows: Matrix)
    ensures |Kept(rows)| + FullCount(rows) == |rows|
    decreases |rows|
  {
    if |rows| > 0 {
      KeptPlusFull(rows[..|rows| - 1]);
    }
  }

  /** Counting full rows splits over a concatenation. */
  lemma {:induction false} FullCountAppend(s: Matrix, t: Matrix)
    ensures FullCount(s + t) == FullCount(s) + FullCount(t)
    decreases |t|
  {
    if |t| == 0 {
      assert s + t == s;
    } else {
      var t' := t[..|t| - 1];
      assert (s + t)[..|s + t| - 1] == s + t';
      assert (s + t)[|s + t| - 1] == t[|t| - 1];
      FullCountAppend(s, t');
    }
  }

  /** Without full rows nothing is removed. */
  lemma {:induction false} NoFullRowKeepsAll(rows: Matrix)
    requires forall i :: 0 <= i < |rows| ==> !Full(rows[i])
    ensures FullCount(rows) == 0 && Kept(rows) == rows
    decreases |rows|
  {
    if |rows| > 0 {
      var init := rows[..|rows| - 1];
      NoFullRowKeepsAll(init);
      assert init + [rows[|rows| - 1]] == rows;
    }
  }

  /** A board without a full row is left exactly as it was. */
  lemma NoFullRowUnchanged(rows: Matrix, cols: nat)
    requires forall i :: 0 <= i < |rows| ==> !Full(rows[i])
    ensures Compact(rows, cols) == rows
  {
    NoFullRowKeepsAll(rows);
  }

  /** A surviving row sits in `Kept` right after the survivors above it. */
  lemma KeptPosition(rows: Matrix, i: int)
    requires 0 <= i < |rows| && !Full(rows[i])
    ensures Kept(rows[..i + 1]) == Kept(rows[..i]) + [rows[i]]
  {
    assert rows[..i + 1][..i] == rows[..i];
  }

  /** `Kept` of a prefix is a prefix of `Kept`. */
  lemma {:induction false} KeptPrefix(rows: Matrix, n: int)
    requires 0 <= n <= |rows|
    ensures Kept(rows[..n]) <= Kept(rows)
    decreases |rows| - n
  {
    if n < |rows| {
      KeptPrefix(rows, n + 1);
      assert rows[..n + 1][..n] == rows[..n];
      assert rows[..n] == rows[..n + 1][..n];
    } else {
      assert rows[..n] == rows;
    }
  }

  /**
   Rows drop by the number of full rows below them: a surviving row at
   index `i` ends up at index `i` plus the count of full rows under it.
   */
  lemma RowDrops(rows: Matrix, cols: nat, i: int)
    requires 0 <= i < |rows| && !Full(rows[i])
    ensures var d := i + FullCount(rows[i + 1..]);
      d < |Compact(rows, cols)| && Compact(rows, cols)[d] == rows[i]
  {
    var above := rows[..i];
    var below := rows[i + 1..];
    KeptPosition(rows, i);
    KeptPrefix(rows, i + 1);
    KeptPlusFull(above);
    KeptPlusFull(rows);
    assert rows == rows[..i + 1] + below;
    FullCountAppend(rows[..i + 1], below);
    assert rows[..i + 1][..i] == above;
    var k := |Kept(above)|;
    assert Kept(rows)[k] == rows[i];
    assert FullCount(rows[..i + 1]) == FullCount(above);
  }

  /** With non-empty rows, the cleared board holds no full row. */
  lemma ClearedHasNoFullRow(rows: Matrix, cols: nat)
    requires cols > 0
    ensures forall i :: 0 <= i < |Compact(rows, cols)| ==> !Full(Compact(rows, cols)[i])
  {
    var c := Compact(rows, cols);
    var n := FullCount(rows);
    forall i | 0 <= i < |c|
      ensures !Full(c[i])
    {
      if i < n {
        assert c[i][0] == 0;
      } else {
        assert c[i] == Kept(rows)[i - n];
      }
    }
  }

  /**
   `check_full_row`: scan the board top to bottom, keep the rows that are
   not full, count the others, and rebuild the board with that many empty
   rows on top.
   */
  method CheckFullRow(field: Matrix, cols: nat) returns (removed: int, r: Matrix)
    requires IsGrid(field, |field|, cols)
    ensures removed == FullCount(field)
    ensures r == Compact(field, cols)
    ensures IsGrid(r, |field|, cols)
  {
    var kept: Matrix := [];
    removed := 0;
    var i := 0;
    while i < |field|
      invariant 0 <= i <= |field|
      invariant removed == FullCount(field[..i])
      invariant kept == Kept(field[..i])
      invariant forall k :: 0 <= k < |kept| ==> |kept[k]| == cols
    {
      assert field[..i + 1][..i] == field[..i];
      if Full(field[i]) {
        removed := removed + 1;
      } else {
        kept := kept + [field[i]];
      }
      i := i + 1;
    }
    assert field[..i] == field;
    KeptPlusFull(field);
    r := ZeroRows(removed, cols) + kept;
  }
}
