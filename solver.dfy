/**
 * The randomised backtracking solver and the puzzle generator of solver.py.
 *
 * `random.shuffle` is replaced by an injected source of candidate orders:
 * `rng(n)` is the order the n-th shuffle produces, and `drawn` counts the
 * shuffles taken so far. `random.sample` and `random.randint` are replaced
 * by parameters holding the values they would have returned.
 */
module Solver {
  import opened Wrappers
  import opened Board

  // ---------------------------------------------------------------------
  // is_valid
  // ---------------------------------------------------------------------

  /**
   * `num` occurs nowhere in row `row`, column `col` or the 3×3 box whose
   * top-left cell is (row / 3 * 3, col / 3 * 3). The target cell itself is
   * one of the cells looked at.
   */
  predicate Placeable(b: Grid, row: int, col: int, num: int)
    requires |b| == 81 && OnBoard(row, col)
  {
    RowLacks(b, row, num) && ColLacks(b, col, num) && BoxLacks(b, row, col, num)
  }

  predicate RowLacks(b: Grid, row: int, num: int)
    requires |b| == 81 && 0 <= row < 9
  {
    forall x :: 0 <= x < 9 ==> b[Idx(row, x)] != num
  }

  predicate ColLacks(b: Grid, col: int, num: int)
    requires |b| == 81 && 0 <= col < 9
  {
    forall x :: 0 <= x < 9 ==> b[Idx(x, col)] != num
  }

  predicate BoxLacks(b: Grid, row: int, col: int, num: int)
    requires |b| == 81 && OnBoard(row, col)
  {
    forall i, j :: 0 <= i < 3 && 0 <= j < 3 ==> b[BoxCell(row, col, i, j)] != num
  }

  /** Cell (i, j) of the 3×3 box holding (row, col), counted from the box's top-left cell. */
  function BoxCell(row: int, col: int, i: int, j: int): (p: int)
    requires OnBoard(row, col) && 0 <= i < 3 && 0 <= j < 3
    ensures OnBoard(row / 3 * 3 + i, col / 3 * 3 + j) && 0 <= p < 81
  {
    Idx(row / 3 * 3 + i, col / 3 * 3 + j)
  }

  /** Row and column of a cell are recovered from its index. */
  lemma RowColOfIdx(row: int, col: int)
    requires OnBoard(row, col)
    ensures 0 <= Idx(row, col) < 81 && Row(Idx(row, col)) == row && Col(Idx(row, col)) == col
  {
  }

  /** Every index is the index of its own row and column. */
  lemma IdxOfRowCol(p: int)
    requires 0 <= p < 81
    ensures OnBoard(Row(p), Col(p)) && p == Idx(Row(p), Col(p))
  {
  }

  /** The band (or stack) of three rows holding `x` starts at x / 3 * 3. */
  lemma BandOffset(x: int, y: int)
    requires 0 <= x < 9 && 0 <= y < 9
    ensures 0 <= x / 3 * 3 <= x < x / 3 * 3 + 3 <= 9
    ensures x / 3 == y / 3 <==> x / 3 * 3 <= y < x / 3 * 3 + 3
  {
    if x < 3 {
    } else if x < 6 {
    } else {
    }
  }

  /** Every cell of the box of (row, col) is on the board and shares that box. */
  lemma BoxCellInUnit(row: int, col: int, i: int, j: int)
    requires OnBoard(row, col) && 0 <= i < 3 && 0 <= j < 3
    ensures OnBoard(row / 3 * 3 + i, col / 3 * 3 + j)
    ensures 0 <= BoxCell(row, col, i, j) < 81 && SameUnit(Idx(row, col), BoxCell(row, col, i, j))
  {
    var r, c := row / 3 * 3 + i, col / 3 * 3 + j;
    BandOffset(row, r);
    BandOffset(col, c);
    RowColOfIdx(row, col);
    RowColOfIdx(r, c);
  }

  /**
   * The three scans of is_valid together cover exactly the cells that share
   * a unit with the target: `num` is placeable iff no such cell holds it.
   */
  lemma PlaceableUnit(b: Grid, row: int, col: int, num: int)
    requires |b| == 81 && OnBoard(row, col)
    ensures Placeable(b, row, col, num) <==>
            forall q :: 0 <= q < 81 && SameUnit(Idx(row, col), q) ==> b[q] != num
  {
    if Placeable(b, row, col, num) {
      PlaceableExcludesUnit(b, row, col, num);
    }
    if forall q :: 0 <= q < 81 && SameUnit(Idx(row, col), q) ==> b[q] != num {
      UnitFreeIsPlaceable(b, row, col, num);
    }
  }

  lemma PlaceableExcludesUnit(b: Grid, row: int, col: int, num: int)
    requires |b| == 81 && OnBoard(row, col) && Placeable(b, row, col, num)
    ensures forall q :: 0 <= q < 81 && SameUnit(Idx(row, col), q) ==> b[q] != num
  {
    var p := Idx(row, col);
    RowColOfIdx(row, col);
    forall q | 0 <= q < 81 && SameUnit(p, q)
      ensures b[q] != num
    {
      IdxOfRowCol(q);
      var r, c := Row(q), Col(q);
      if r == row {
        assert b[Idx(row, c)] != num;
      } else if c == col {
        assert b[Idx(r, col)] != num;
      } else {
        BandOffset(row, r);
        BandOffset(col, c);
        assert b[BoxCell(row, col, r - row / 3 * 3, c - col / 3 * 3)] != num;
      }
    }
  }

  lemma UnitFreeIsPlaceable(b: Grid, row: int, col: int, num: int)
    requires |b| == 81 && OnBoard(row, col)
    requires forall q :: 0 <= q < 81 && SameUnit(Idx(row, col), q) ==> b[q] != num
    ensures Placeable(b, row, col, num)
  {
    var p := Idx(row, col);
    RowColOfIdx(row, col);
    forall x | 0 <= x < 9
      ensures b[Idx(row, x)] != num
    {
      RowColOfIdx(row, x);
      assert SameUnit(p, Idx(row, x));
    }
    assert RowLacks(b, row, num);
    forall x | 0 <= x < 9
      ensures b[Idx(x, col)] != num
    {
      RowColOfIdx(x, col);
      assert SameUnit(p, Idx(x, col));
    }
    assert ColLacks(b, col, num);
    forall i, j | 0 <= i < 3 && 0 <= j < 3
      ensures 0 <= BoxCell(row, col, i, j) < 81 && b[BoxCell(row, col, i, j)] != num
    {
      BoxCellInUnit(row, col, i, j);
    }
    assert BoxLacks(b, row, col, num);
  }

  /** A filled cell's own value is never reported valid for that cell. */
  lemma OwnValueNotPlaceable(b: Grid, row: int, col: int)
    requires |b| == 81 && OnBoard(row, col)
    ensures !Placeable(b, row, col, b[Idx(row, col)])
  {
  }

  /**
   * Writing a placeable nonzero digit into an empty cell of a conflict-free
   * board leaves it conflict-free.
   */
  lemma PlaceKeepsConflictFree(b: Grid, row: int, col: int, num: int)
    requires |b| == 81 && OnBoard(row, col) && b[Idx(row, col)] == 0 && num != 0
    requires ConflictFree(b) && Placeable(b, row, col, num)
    ensures ConflictFree(b[Idx(row, col) := num])
  {
    PlaceableUnit(b, row, col, num);
    var p := Idx(row, col);
    var b' := b[p := num];
    forall x, y | 0 <= x < 81 && 0 <= y < 81 && x != y && SameUnit(x, y) && b'[x] != 0
      ensures b'[x] != b'[y]
    {
      if x == p {
        assert b'[y] == b[y] != num;
      } else if y == p {
        assert SameUnit(p, x);
      }
    }
  }

  /** is_valid: scan the row, then the column, then the box, returning early on a hit. */
  method IsValid(board: array<int>, row: int, col: int, num: int) returns (ok: bool)
    requires board.Length == 81 && OnBoard(row, col)
    ensures ok == Placeable(board[..], row, col, num)
  {
    ok := ScanRow(board, row, num);
    if !ok {
      return;
    }
    ok := ScanCol(board, col, num);
    if !ok {
      return;
    }
    ok := ScanBox(board, row, col, num);
  }

  /** The row loop of is_valid. */
  method ScanRow(board: array<int>, row: int, num: int) returns (ok: bool)
    requires board.Length == 81 && 0 <= row < 9
    ensures ok == RowLacks(board[..], row, num)
  {
    for x := 0 to 9
      invariant forall y :: 0 <= y < x ==> board[Idx(row, y)] != num
    {
      if board[Idx(row, x)] == num {
        return false;
      }
    }
    return true;
  }

  /** The column loop of is_valid. */
  method ScanCol(board: array<int>, col: int, num: int) returns (ok: bool)
    requires board.Length == 81 && 0 <= col < 9
    ensures ok == ColLacks(board[..], col, num)
  {
    for x := 0 to 9
      invariant forall y :: 0 <= y < x ==> board[Idx(y, col)] != num
    {
      if board[Idx(x, col)] == num {
        return false;
      }
    }
    return true;
  }

  /** The box loops of is_valid, from the box's top-left cell (start_row, start_col). */
  method ScanBox(board: array<int>, row: int, col: int, num: int) returns (ok: bool)
    requires board.Length == 81 && OnBoard(row, col)
    ensures ok == BoxLacks(board[..], row, col, num)
  {
    var startRow := (row / 3) * 3;
    var startCol := (col / 3) * 3;
    for i := 0 to 3
      invariant forall i', j :: 0 <= i' < i && 0 <= j < 3 ==> board[BoxCell(row, col, i', j)] != num
    {
      for j := 0 to 3
        invariant forall j' :: 0 <= j' < j ==> board[BoxCell(row, col, i, j')] != num
      {
        assert Idx(startRow + i, startCol + j) == BoxCell(row, col, i, j);
        if board[Idx(startRow + i, startCol + j)] == num {
          return false;
        }
      }
    }
    return true;
  }

  // ---------------------------------------------------------------------
  // solve_board
  // ---------------------------------------------------------------------

  /** Every candidate is a digit 1..9. */
  predicate Digits(nums: seq<int>)
  {
    forall i :: 0 <= i < |nums| ==> 1 <= nums[i] <= 9
  }

  /** What `random.shuffle(list(range(1, 10)))` leaves: each digit 1..9 once. */
  predicate IsDigitOrder(nums: seq<int>)
  {
    |nums| == 9 && Digits(nums) && forall d :: 1 <= d <= 9 ==> d in nums
  }

  /** Every shuffle the source hands out is an order of the nine digits. */
  ghost predicate ValidShuffles(rng: nat -> seq<int>)
  {
    forall n: nat :: IsDigitOrder(rng(n))
  }

  /**
   * Result of a search: the completed board, or None when the search failed,
   * and how many shuffles have been drawn afterwards.
   */
  datatype Outcome = Outcome(result: Option<Grid>, drawn: nat)

  /**
   * The search solve_board performs: take the first empty cell, draw a
   * shuffle, and try its candidates in order.
   */
  function Search(b: Grid, rng: nat -> seq<int>, drawn: nat): Outcome
    requires |b| == 81 && ValidShuffles(rng)
    decreases Zeros(b), 1, 0
  {
    match FirstEmpty(b)
    case None => Outcome(Some(b), drawn)
    case Some(p) => TryCandidates(b, p / 9, p % 9, rng(drawn), 0, rng, drawn + 1)
  }

  /**
   * The `for num in nums` loop of solve_board from candidate `i` on: place a
   * valid candidate and search on; if that fails, undo and try the next.
   */
  function TryCandidates(b: Grid, row: int, col: int, nums: seq<int>, i: nat,
                         rng: nat -> seq<int>, drawn: nat): Outcome
    requires |b| == 81 && ValidShuffles(rng) && OnBoard(row, col) && b[Idx(row, col)] == 0
    requires Digits(nums) && i <= |nums|
    decreases Zeros(b), 0, |nums| - i
  {
    if i == |nums| then Outcome(None, drawn)
    else if Placeable(b, row, col, nums[i]) then
      ZerosFill(b, Idx(row, col), nums[i]);
      var sub := Search(b[Idx(row, col) := nums[i]], rng, drawn);
      if sub.result.Some? then sub
      else TryCandidates(b, row, col, nums, i + 1, rng, sub.drawn)
    else TryCandidates(b, row, col, nums, i + 1, rng, drawn)
  }

  /** A board with no empty cell is returned as it is, and no shuffle is drawn. */
  lemma SearchFull(b: Grid, rng: nat -> seq<int>, drawn: nat)
    requires |b| == 81 && ValidShuffles(rng) && Full(b)
    ensures Search(b, rng, drawn) == Outcome(Some(b), drawn)
  {
    FirstEmptyNone(b);
  }

  /** A successful search fills every cell and keeps every nonzero cell of its input. */
  lemma {:induction false} SearchCompletes(b: Grid, rng: nat -> seq<int>, drawn: nat)
    requires |b| == 81 && ValidShuffles(rng)
    ensures var r := Search(b, rng, drawn).result;
            r.Some? ==> |r.value| == 81 && Full(r.value) && KeepsGivens(b, r.value)
    decreases Zeros(b), 1, 0
  {
    match FirstEmpty(b)
    case None =>
      FirstEmptyNone(b);
    case Some(p) =>
      TryCompletes(b, p / 9, p % 9, rng(drawn), 0, rng, drawn + 1);
  }

  lemma {:induction false} TryCompletes(b: Grid, row: int, col: int, nums: seq<int>, i: nat,
                                        rng: nat -> seq<int>, drawn: nat)
    requires |b| == 81 && ValidShuffles(rng) && OnBoard(row, col) && b[Idx(row, col)] == 0
    requires Digits(nums) && i <= |nums|
    ensures var r := TryCandidates(b, row, col, nums, i, rng, drawn).result;
            r.Some? ==> |r.value| == 81 && Full(r.value) && KeepsGivens(b, r.value)
    decreases Zeros(b), 0, |nums| - i
  {
    if i < |nums| {
      if Placeable(b, row, col, nums[i]) {
        ZerosFill(b, Idx(row, col), nums[i]);
        var b' := b[Idx(row, col) := nums[i]];
        var sub := Search(b', rng, drawn);
        SearchCompletes(b', rng, drawn);
        if sub.result.None? {
          TryCompletes(b, row, col, nums, i + 1, rng, sub.drawn);
        }
      } else {
        TryCompletes(b, row, col, nums, i + 1, rng, drawn);
      }
    }
  }

  /**
   * Every digit the search writes passed is_valid, so a conflict-free input
   * with cells in 0..9 that is solved yields a conflict-free board whose
   * cells are all 1..9.
   */
  lemma {:induction false} SearchConsistent(b: Grid, rng: nat -> seq<int>, drawn: nat)
    requires |b| == 81 && ValidShuffles(rng) && CellValues(b) && ConflictFree(b)
    ensures var r := Search(b, rng, drawn).result;
            r.Some? ==> |r.value| == 81 && Full(r.value) && CellValues(r.value) && ConflictFree(r.value)
    decreases Zeros(b), 1, 0
  {
    SearchCompletes(b, rng, drawn);
    match FirstEmpty(b)
    case None =>
    case Some(p) =>
      TryConsistent(b, p / 9, p % 9, rng(drawn), 0, rng, drawn + 1);
  }

  lemma {:induction false} TryConsistent(b: Grid, row: int, col: int, nums: seq<int>, i: nat,
                                         rng: nat -> seq<int>, drawn: nat)
    requires |b| == 81 && ValidShuffles(rng) && OnBoard(row, col) && b[Idx(row, col)] == 0
    requires Digits(nums) && i <= |nums| && CellValues(b) && ConflictFree(b)
    ensures var r := TryCandidates(b, row, col, nums, i, rng, drawn).result;
            r.Some? ==> |r.value| == 81 && Full(r.value) && CellValues(r.value) && ConflictFree(r.value)
    decreases Zeros(b), 0, |nums| - i
  {
    TryCompletes(b, row, col, nums, i, rng, drawn);
    if i < |nums| {
      if Placeable(b, row, col, nums[i]) {
        ZerosFill(b, Idx(row, col), nums[i]);
        var b' := b[Idx(row, col) := nums[i]];
        PlaceKeepsConflictFree(b, row, col, nums[i]);
        var sub := Search(b', rng, drawn);
        SearchConsistent(b', rng, drawn);
        if sub.result.None? {
          TryConsistent(b, row, col, nums, i + 1, rng, sub.drawn);
        }
      } else {
        TryConsistent(b, row, col, nums, i + 1, rng, drawn);
      }
    }
  }

  /** Resetting a cell that was just filled restores the board. */
  lemma UndoFill(b: Grid, k: int, v: int)
    requires 0 <= k < |b| && b[k] == 0
    ensures b[k := v][k := 0] == b
  {
  }

  /**
   * solve_board: backtracking in place. On success the board holds the
   * search's completion; on failure every placement has been undone and the
   * board equals its input.
   */
  method SolveBoard(board: array<int>, rng: nat -> seq<int>, drawn: nat) returns (solved: bool, drawn': nat)
    requires board.Length == 81 && ValidShuffles(rng)
    modifies board
    ensures var o := Search(old(board[..]), rng, drawn);
            solved == o.result.Some? && drawn' == o.drawn &&
            board[..] == if solved then o.result.value else old(board[..])
    decreases Zeros(board[..])
  {
    var empty := FindEmpty(board);
    if empty.None? {
      return true, drawn;
    }
    var (row, col) := empty.value;
    ghost var b0 := board[..];
    RowColOfIdx(row, col);
    var nums := rng(drawn);
    drawn' := drawn + 1;
    for i := 0 to |nums|
      invariant board[..] == b0
      invariant TryCandidates(b0, row, col, nums, i, rng, drawn') == Search(b0, rng, drawn)
    {
      var num := nums[i];
      var ok := IsValid(board, row, col, num);
      if ok {
        board[Idx(row, col)] := num;
        ghost var b1 := board[..];
        assert b1 == b0[Idx(row, col) := num];
        ZerosFill(b0, Idx(row, col), num);
        var sub;
        sub, drawn' := SolveBoard(board, rng, drawn');
        if sub {
          return true, drawn';
        }
        assert board[..] == b1;
        board[Idx(row, col)] := 0;
        assert board[..] == b1[Idx(row, col) := 0];
        UndoFill(b0, Idx(row, col), num);
      }
    }
    return false, drawn';
  }

  // ---------------------------------------------------------------------
  // generate_random_puzzle
  // ---------------------------------------------------------------------

  /** `cells` is a result of random.sample over the 81 cells: n distinct cell indices. */
  predicate IsSample(cells: seq<int>, n: int)
  {
    && |cells| == n
    && (forall i :: 0 <= i < |cells| ==> 0 <= cells[i] < 81)
    && (forall i, j :: 0 <= i < j < |cells| ==> cells[i] != cells[j])
  }

  /** The board a solve of the blank board leaves behind: its completion, or the blank board. */
  ghost function SolvedBlank(rng: nat -> seq<int>, drawn: nat): (s: Grid)
    requires ValidShuffles(rng)
    ensures |s| == 81
  {
    var o := Search(Blank(), rng, drawn);
    SearchCompletes(Blank(), rng, drawn);
    if o.result.Some? then o.result.value else Blank()
  }

  /** The solved blank board is a complete, conflict-free grid of digits, unless the solve failed. */
  lemma SolvedBlankIsSolution(rng: nat -> seq<int>, drawn: nat)
    requires ValidShuffles(rng)
    ensures var s := SolvedBlank(rng, drawn);
            s == Blank() || (Full(s) && CellValues(s) && ConflictFree(s))
  {
    SearchCompletes(Blank(), rng, drawn);
    SearchConsistent(Blank(), rng, drawn);
  }

  /** The puzzle that keeps `s` at the cells listed in `keep` and is 0 elsewhere. */
  function Reveal(s: Grid, keep: seq<int>): (r: Grid)
    requires |s| == 81
  {
    seq(81, k requires 0 <= k < 81 => if k in keep then s[k] else 0)
  }

  /** Keeping one more cell copies that cell of `s` into the puzzle. */
  lemma RevealStep(s: Grid, keep: seq<int>, k: int)
    requires |s| == 81 && 0 <= k < 81
    ensures Reveal(s, keep + [k]) == Reveal(s, keep)[k := s[k]]
  {
  }

  /** Keeping n distinct cells of a full board leaves exactly 81 - n empty cells. */
  lemma {:induction false} RevealZeros(s: Grid, keep: seq<int>)
    requires |s| == 81 && Full(s) && IsSample(keep, |keep|)
    ensures Zeros(Reveal(s, keep)) == 81 - |keep|
  {
    if keep == [] {
      assert Reveal(s, keep) == seq(81, _ => 0);
      ZerosBlank(81);
    } else {
      var front, k := keep[..|keep| - 1], keep[|keep| - 1];
      RevealZeros(s, front);
      assert keep == front + [k];
      assert k !in front by {
        forall i | 0 <= i < |front| ensures front[i] != k {
          assert front[i] == keep[i];
        }
      }
      RevealStep(s, front, k);
      ZerosFill(Reveal(s, front), k, s[k]);
    }
  }

  /**
   * The generated puzzle is nonzero exactly at the sampled cells when the
   * solve succeeded, has 81 - n empty cells, agrees with the solution on its
   * clues and is conflict-free.
   */
  lemma RevealPuzzle(s: Grid, keep: seq<int>)
    requires |s| == 81 && Full(s) && CellValues(s) && ConflictFree(s) && IsSample(keep, |keep|)
    ensures var r := Reveal(s, keep);
            && (forall k :: 0 <= k < 81 ==> (r[k] != 0 <==> k in keep))
            && Zeros(r) == 81 - |keep|
            && KeepsGivens(r, s)
            && CellValues(r)
            && ConflictFree(r)
  {
    RevealZeros(s, keep);
  }

  /**
   * generate_random_puzzle: solve a blank board, choose how many cells to
   * keep (`given`, or randint(17, 30) when it is None), sample that many
   * cells and copy them into a fresh blank puzzle. random.sample raises
   * ValueError when the count is outside 0..81; that is the None result.
   */
  method GenerateRandomPuzzle(given: Option<int>, randomGiven: int, sample: seq<int>,
                              rng: nat -> seq<int>, drawn: nat)
    returns (puzzle: Option<array<int>>)
    requires ValidShuffles(rng)
    requires given.None? ==> 17 <= randomGiven <= 30
    requires var n := if given.Some? then given.value else randomGiven;
             0 <= n <= 81 ==> IsSample(sample, n)
    ensures var n := if given.Some? then given.value else randomGiven;
            puzzle.Some? <==> 0 <= n <= 81
    ensures puzzle.Some? ==> fresh(puzzle.value) && puzzle.value.Length == 81
    ensures puzzle.Some? ==> puzzle.value[..] == Reveal(SolvedBlank(rng, drawn), sample)
  {
    var board := new int[81](_ => 0);
    assert board[..] == Blank();
    var _, _ := SolveBoard(board, rng, drawn);
    var n := if given.Some? then given.value else randomGiven;
    if !(0 <= n <= 81) {
      return None;
    }
    var p := CopyCells(board, sample);
    return Some(p);
  }

  /**
   * The last loop of generate_random_puzzle: a fresh blank puzzle receives
   * the value of `board` at each listed cell.
   */
  method CopyCells(board: array<int>, cells: seq<int>) returns (p: array<int>)
    requires board.Length == 81 && forall i :: 0 <= i < |cells| ==> 0 <= cells[i] < 81
    ensures fresh(p) && p.Length == 81 && p[..] == Reveal(board[..], cells)
  {
    p := new int[81](_ => 0);
    assert p[..] == Reveal(board[..], []);
    for t := 0 to |cells|
      invariant p[..] == Reveal(board[..], cells[..t])
    {
      RevealStep(board[..], cells[..t], cells[t]);
      p[cells[t]] := board[cells[t]];
      assert cells[..t + 1] == cells[..t] + [cells[t]];
    }
    assert cells[..|cells|] == cells;
  }
}
