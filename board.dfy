/** Option, the conventional stand-in for Python's `None` results. */
module Wrappers {
  datatype Option<+T> = None | Some(value: T)
}

/**
 * The 9×9 Sudoku grid shared by the solvers and the game.
 *
 * The source keeps a board as a list of nine rows of nine ints. Here the
 * same 81 values are laid out row-major in one sequence: cell (row, col) is
 * at index 9 * row + col, so "row-major order" is plain index order.
 * 0 stands for an empty cell.
 */
module Board {
  import opened Wrappers

  type Grid = seq<int>

  /** Index of cell (row, col) in the row-major layout. */
  function Idx(row: int, col: int): int { 9 * row + col }

  predicate OnBoard(row: int, col: int) { 0 <= row < 9 && 0 <= col < 9 }

  function Row(p: int): int { p / 9 }
  function Col(p: int): int { p % 9 }

  /** Cells p and q share a row, a column or a 3×3 box. */
  predicate SameUnit(p: int, q: int)
  {
    Row(p) == Row(q) || Col(p) == Col(q) ||
    (Row(p) / 3 == Row(q) / 3 && Col(p) / 3 == Col(q) / 3)
  }

  /** No two distinct cells of one unit hold the same nonzero digit. */
  ghost predicate ConflictFree(b: Grid)
    requires |b| == 81
  {
    forall p, q :: 0 <= p < 81 && 0 <= q < 81 && p != q && SameUnit(p, q) && b[p] != 0 ==> b[p] != b[q]
  }

  /** Every cell holds 0 (empty) or a digit 1..9. */
  predicate CellValues(b: Grid)
  {
    forall k :: 0 <= k < |b| ==> 0 <= b[k] <= 9
  }

  /** No cell is empty. */
  predicate Full(b: Grid)
  {
    forall k :: 0 <= k < |b| ==> b[k] != 0
  }

  /** `r` agrees with `b` on every cell that is nonzero in `b`. */
  predicate KeepsGivens(b: Grid, r: Grid)
  {
    |r| == |b| && forall k :: 0 <= k < |b| && b[k] != 0 ==> r[k] == b[k]
  }

  /** The board with every cell empty. */
  function Blank(): (b: Grid)
    ensures |b| == 81 && forall k :: 0 <= k < 81 ==> b[k] == 0
  {
    seq(81, _ => 0)
  }

  /** Number of empty cells; the backtracking searches decrease it. */
  function Zeros(b: seq<int>): nat
  {
    if b == [] then 0 else (if b[0] == 0 then 1 else 0) + Zeros(b[1..])
  }

  /** Filling one empty cell with a nonzero value removes exactly one empty cell. */
  lemma {:induction false} ZerosFill(b: seq<int>, k: int, v: int)
    requires 0 <= k < |b| && b[k] == 0 && v != 0
    ensures Zeros(b[k := v]) == Zeros(b) - 1
  {
    if k == 0 {
      assert b[k := v][1..] == b[1..];
    } else {
      ZerosFill(b[1..], k - 1, v);
      assert b[k := v][1..] == b[1..][k - 1 := v];
    }
  }

  /** A board has no empty cell exactly when its count of empty cells is 0. */
  lemma {:induction false} ZerosNone(b: seq<int>)
    ensures Zeros(b) == 0 <==> Full(b)
  {
    if b != [] {
      ZerosNone(b[1..]);
      assert forall k :: 1 <= k < |b| ==> b[k] == b[1..][k - 1];
    }
  }

  /** A sequence of n zeros has n empty cells. */
  lemma {:induction false} ZerosBlank(n: nat)
    ensures Zeros(seq(n, _ => 0)) == n
  {
    if n > 0 {
      ZerosBlank(n - 1);
      assert seq(n, _ => 0)[1..] == seq(n - 1, _ => 0);
    }
  }

  /** First empty cell at index `i` or later, in row-major order. */
  function FirstEmptyFrom(b: Grid, i: nat): (r: Option<nat>)
    requires i <= |b|
    ensures r.Some? ==> i <= r.value < |b| && b[r.value] == 0
    ensures r.Some? ==> forall k :: i <= k < r.value ==> b[k] != 0
    ensures r.None? ==> forall k :: i <= k < |b| ==> b[k] != 0
    decreases |b| - i
  {
    if i == |b| then None
    else if b[i] == 0 then Some(i)
    else FirstEmptyFrom(b, i + 1)
  }

  /** First empty cell of the board in row-major order, if any. */
  function FirstEmpty(b: Grid): Option<nat>
  {
    FirstEmptyFrom(b, 0)
  }

  /** The first empty cell is the unique empty cell preceded only by filled cells. */
  lemma FirstEmptyIs(b: Grid, p: nat)
    requires p < |b| && b[p] == 0
    requires forall k :: 0 <= k < p ==> b[k] != 0
    ensures FirstEmpty(b) == Some(p)
  {
  }

  /** There is no first empty cell exactly when the board is full. */
  lemma FirstEmptyNone(b: Grid)
    ensures FirstEmpty(b).None? <==> Full(b)
  {
  }

  /**
   * find_empty: scan rows 0..8 and, within a row, columns 0..8, and return
   * the first (row, col) holding 0, or None when there is none.
   */
  method FindEmpty(board: array<int>) returns (r: Option<(int, int)>)
    requires board.Length == 81
    ensures r.None? <==> Full(board[..])
    ensures r.None? ==> FirstEmpty(board[..]) == None
    ensures r.Some? ==> OnBoard(r.value.0, r.value.1) && board[Idx(r.value.0, r.value.1)] == 0
    ensures r.Some? ==> FirstEmpty(board[..]) == Some(Idx(r.value.0, r.value.1))
  {
    for i := 0 to 9
      invariant forall k :: 0 <= k < 9 * i ==> board[k] != 0
    {
      for j := 0 to 9
        invariant forall k :: 0 <= k < 9 * i + j ==> board[k] != 0
      {
        if board[Idx(i, j)] == 0 {
          FirstEmptyIs(board[..], Idx(i, j));
          return Some((i, j));
        }
      }
    }
    FirstEmptyNone(board[..]);
    return None;
  }
}
