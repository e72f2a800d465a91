/**
 * The board logic of image_upload.py: the deterministic solver that fills
 * in a board read from a photo, and the step that turns the recognised text
 * of one cell into its value.
 *
 * find_empty in image_upload.py is a line-for-line copy of the one in
 * solver.py and is modelled once, by Board.FindEmpty.
 */
module ImageUpload {
  import opened Wrappers
  import opened Board
  import Solver

  // ---------------------------------------------------------------------
  // is_valid
  // ---------------------------------------------------------------------

  /** No cell of row `row` other than (row, col) holds `num`. */
  predicate RowFits(b: Grid, num: int, row: int, col: int)
    requires |b| == 81 && OnBoard(row, col)
  {
    forall j :: 0 <= j < 9 && j != col ==> b[Idx(row, j)] != num
  }

  /** No cell of column `col` other than (row, col) holds `num`. */
  predicate ColFits(b: Grid, num: int, row: int, col: int)
    requires |b| == 81 && OnBoard(row, col)
  {
    forall i :: 0 <= i < 9 && i != row ==> b[Idx(i, col)] != num
  }

  /** No cell of the 3×3 box of (row, col) other than (row, col) itself holds `num`. */
  predicate BoxFits(b: Grid, num: int, row: int, col: int)
    requires |b| == 81 && OnBoard(row, col)
  {
    forall i, j ::
      (0 <= i < 3 && 0 <= j < 3 && (row / 3 * 3 + i != row || col / 3 * 3 + j != col))
      ==> b[Solver.BoxCell(row, col, i, j)] != num
  }

  /**
   * is_valid(b, num, pos): no cell OTHER than pos = (row, col) in its row,
   * its column or its 3×3 box holds `num`.
   */
  predicate Fits(b: Grid, num: int, row: int, col: int)
    requires |b| == 81 && OnBoard(row, col)
  {
    RowFits(b, num, row, col) && ColFits(b, num, row, col) && BoxFits(b, num, row, col)
  }

  /** `num` fits at (row, col) iff no other cell sharing a unit with it holds `num`. */
  lemma FitsPeers(b: Grid, num: int, row: int, col: int)
    requires |b| == 81 && OnBoard(row, col)
    ensures Fits(b, num, row, col) <==>
            forall q :: 0 <= q < 81 && q != Idx(row, col) && SameUnit(Idx(row, col), q) ==> b[q] != num
  {
    if Fits(b, num, row, col) {
      FitsExcludesPeers(b, num, row, col);
    }
    if forall q :: 0 <= q < 81 && q != Idx(row, col) && SameUnit(Idx(row, col), q) ==> b[q] != num {
      PeersFreeFits(b, num, row, col);
    }
  }

  lemma FitsExcludesPeers(b: Grid, num: int, row: int, col: int)
    requires |b| == 81 && OnBoard(row, col) && Fits(b, num, row, col)
    ensures forall q :: 0 <= q < 81 && q != Idx(row, col) && SameUnit(Idx(row, col), q) ==> b[q] != num
  {
    var p := Idx(row, col);
    Solver.RowColOfIdx(row, col);
    forall q | 0 <= q < 81 && q != p && SameUnit(p, q)
      ensures b[q] != num
    {
      Solver.IdxOfRowCol(q);
      var r, c := Row(q), Col(q);
      if r == row {
        assert RowFits(b, num, row, col);
      } else if c == col {
        assert ColFits(b, num, row, col);
      } else {
        BoxPeerFits(b, num, row, col, r, c);
      }
    }
  }

  /** A cell of the target's box other than the target holds no `num` when BoxFits holds. */
  lemma BoxPeerFits(b: Grid, num: int, row: int, col: int, r: int, c: int)
    requires |b| == 81 && OnBoard(row, col) && OnBoard(r, c) && BoxFits(b, num, row, col)
    requires r / 3 == row / 3 && c / 3 == col / 3 && (r != row || c != col)
    ensures b[Idx(r, c)] != num
  {
    Solver.BandOffset(row, r);
    Solver.BandOffset(col, c);
    var i, j := r - row / 3 * 3, c - col / 3 * 3;
    assert Solver.BoxCell(row, col, i, j) == Idx(r, c);
  }

  lemma PeersFreeFits(b: Grid, num: int, row: int, col: int)
    requires |b| == 81 && OnBoard(row, col)
    requires forall q :: 0 <= q < 81 && q != Idx(row, col) && SameUnit(Idx(row, col), q) ==> b[q] != num
    ensures Fits(b, num, row, col)
  {
    var p := Idx(row, col);
    Solver.RowColOfIdx(row, col);
    forall j | 0 <= j < 9 && j != col
      ensures b[Idx(row, j)] != num
    {
      Solver.RowColOfIdx(row, j);
      assert SameUnit(p, Idx(row, j));
    }
    assert RowFits(b, num, row, col);
    forall i | 0 <= i < 9 && i != row
      ensures b[Idx(i, col)] != num
    {
      Solver.RowColOfIdx(i, col);
      assert SameUnit(p, Idx(i, col));
    }
    assert ColFits(b, num, row, col);
    forall i, j | 0 <= i < 3 && 0 <= j < 3 && (row / 3 * 3 + i != row || col / 3 * 3 + j != col)
      ensures b[Solver.BoxCell(row, col, i, j)] != num
    {
      Solver.BoxCellInUnit(row, col, i, j);
      Solver.RowColOfIdx(row / 3 * 3 + i, col / 3 * 3 + j);
    }
    assert BoxFits(b, num, row, col);
  }

  /**
   * At an empty cell and for a nonzero candidate the two is_valid functions
   * agree: leaving the target cell out of the scan changes nothing there.
   */
  lemma FitsAtEmpty(b: Grid, num: int, row: int, col: int)
    requires |b| == 81 && OnBoard(row, col) && b[Idx(row, col)] == 0 && num != 0
    ensures Fits(b, num, row, col) <==> Solver.Placeable(b, row, col, num)
  {
    FitsPeers(b, num, row, col);
    Solver.PlaceableUnit(b, row, col, num);
  }

  /**
   * is_valid: scan the row, the column and the box, skipping the target
   * cell, and answer false at the first cell holding `num`.
   */
  method IsValid(b: array<int>, num: int, pos: (int, int)) returns (ok: bool)
    requires b.Length == 81 && OnBoard(pos.0, pos.1)
    ensures ok == Fits(b[..], num, pos.0, pos.1)
  {
    var (row, col) := pos;
    ok := ScanRow(b, num, row, col);
    if !ok {
      return;
    }
    ok := ScanCol(b, num, row, col);
    if !ok {
      return;
    }
    ok := ScanBox(b, num, row, col);
  }

  /** The row loop of is_valid. */
  method ScanRow(b: array<int>, num: int, row: int, col: int) returns (ok: bool)
    requires b.Length == 81 && OnBoard(row, col)
    ensures ok == RowFits(b[..], num, row, col)
  {
    for j := 0 to 9
      invariant forall j' :: 0 <= j' < j && j' != col ==> b[Idx(row, j')] != num
    {
      if b[Idx(row, j)] == num && j != col {
        return false;
      }
    }
    return true;
  }

  /** The column loop of is_valid. */
  method ScanCol(b: array<int>, num: int, row: int, col: int) returns (ok: bool)
    requires b.Length == 81 && OnBoard(row, col)
    ensures ok == ColFits(b[..], num, row, col)
  {
    for i := 0 to 9
      invariant forall i' :: 0 <= i' < i && i' != row ==> b[Idx(i', col)] != num
    {
      if b[Idx(i, col)] == num && i != row {
        return false;
      }
    }
    return true;
  }

  /** The box loops of is_valid, over rows box_y * 3 .. box_y * 3 + 2 and columns box_x * 3 .. box_x * 3 + 2. */
  method ScanBox(b: array<int>, num: int, row: int, col: int) returns (ok: bool)
    requires b.Length == 81 && OnBoard(row, col)
    ensures ok == BoxFits(b[..], num, row, col)
  {
    var boxX := col / 3;
    var boxY := row / 3;
    Solver.BandOffset(row, row);
    Solver.BandOffset(col, col);
    for di := 0 to 3
      invariant forall i', j' ::
                  (0 <= i' < di && 0 <= j' < 3 && (boxY * 3 + i' != row || boxX * 3 + j' != col))
                  ==> b[Solver.BoxCell(row, col, i', j')] != num
    {
      for dj := 0 to 3
        invariant forall j' ::
                    (0 <= j' < dj && (boxY * 3 + di != row || boxX * 3 + j' != col))
                    ==> b[Solver.BoxCell(row, col, di, j')] != num
      {
        var i, j := boxY * 3 + di, boxX * 3 + dj;
        assert Idx(i, j) == Solver.BoxCell(row, col, di, dj);
        if b[Idx(i, j)] == num && (i != row || j != col) {
          return false;
        }
      }
    }
    return true;
  }

  // ---------------------------------------------------------------------
  // solve
  // ---------------------------------------------------------------------

  /** The candidates of solve's `for num in range(1, 10)`, in the order tried. */
  const Candidates: seq<int> := [1, 2, 3, 4, 5, 6, 7, 8, 9]

  /**
   * The search solve performs: take the first empty cell and try the
   * candidates of `order` there in turn.
   */
  function Search(b: Grid, order: seq<int>): Option<Grid>
    requires |b| == 81 && Solver.Digits(order)
    decreases Zeros(b), 1, 0
  {
    match FirstEmpty(b)
    case None => Some(b)
    case Some(p) => TryFrom(b, p / 9, p % 9, order, 0)
  }

  /** The candidate loop of solve at (row, col), from the i-th candidate on. */
  function TryFrom(b: Grid, row: int, col: int, order: seq<int>, i: nat): Option<Grid>
    requires |b| == 81 && OnBoard(row, col) && b[Idx(row, col)] == 0
    requires Solver.Digits(order) && i <= |order|
    decreases Zeros(b), 0, |order| - i
  {
    if i == |order| then None
    else if Fits(b, order[i], row, col) then
      ZerosFill(b, Idx(row, col), order[i]);
      var sub := Search(b[Idx(row, col) := order[i]], order);
      if sub.Some? then sub else TryFrom(b, row, col, order, i + 1)
    else TryFrom(b, row, col, order, i + 1)
  }

  /**
   * solve: backtracking in place with the candidates 1..9 in ascending
   * order. The result and the final board are a function of the input board
   * alone; on failure the board equals its input.
   */
  method Solve(board: array<int>) returns (solved: bool)
    requires board.Length == 81
    modifies board
    ensures var r := Search(old(board[..]), Candidates);
            solved == r.Some? && board[..] == if solved then r.value else old(board[..])
  {
    solved := SolveWith(board, Candidates);
  }

  /** The recursion of solve, with the candidate list `range(1, 10)` passed down as `order`. */
  method SolveWith(board: array<int>, order: seq<int>) returns (solved: bool)
    requires board.Length == 81 && Solver.Digits(order)
    modifies board
    ensures var r := Search(old(board[..]), order);
            solved == r.Some? && board[..] == if solved then r.value else old(board[..])
    decreases Zeros(board[..]), 1
  {
    var empty := FindEmpty(board);
    if empty.None? {
      return true;
    }
    var (row, col) := empty.value;
    ghost var b0 := board[..];
    Solver.RowColOfIdx(row, col);
    for i := 0 to |order|
      invariant board[..] == b0
      invariant TryFrom(b0, row, col, order, i) == Search(b0, order)
    {
      var num := order[i];
      var ok := IsValid(board, num, (row, col));
      if ok {
        var sub := PlaceAndSolve(board, row, col, num, order);
        if sub {
          return true;
        }
      }
    }
    return false;
  }

  /**
   * The body of solve's `if is_valid(...)` branch: write `num` into the empty
   * cell, solve the rest recursively, and put 0 back when that fails.
   */
  method PlaceAndSolve(board: array<int>, row: int, col: int, num: int, order: seq<int>) returns (solved: bool)
    requires board.Length == 81 && OnBoard(row, col) && board[Idx(row, col)] == 0 && num != 0
    requires Solver.Digits(order)
    modifies board
    ensures var r := Search(old(board[..])[Idx(row, col) := num], order);
            solved == r.Some? && board[..] == if solved then r.value else old(board[..])
    decreases Zeros(board[..]), 0
  {
    ghost var b0 := board[..];
    Solver.RowColOfIdx(row, col);
    board[Idx(row, col)] := num;
    ghost var b1 := board[..];
    assert b1 == b0[Idx(row, col) := num];
    ZerosFill(b0, Idx(row, col), num);
    solved := SolveWith(board, order);
    if !solved {
      assert board[..] == b1;
      board[Idx(row, col)] := 0;
      assert board[..] == b1[Idx(row, col) := 0];
      Solver.UndoFill(b0, Idx(row, col), num);
    }
  }

  /** A shuffle source that hands out `order` every time. */
  function Fixed(order: seq<int>): nat -> seq<int>
  {
    (n: nat) => order
  }

  /** 1..9 in ascending order is an order of the nine digits. */
  lemma CandidatesAreDigitOrder()
    ensures Solver.IsDigitOrder(Candidates)
  {
    forall d | 1 <= d <= 9
      ensures d in Candidates
    {
      assert Candidates[d - 1] == d;
    }
  }

  /**
   * The deterministic search is the randomised one of solver.py fed with
   * the same order of the nine digits at every shuffle.
   */
  lemma {:induction false} SearchIsUnshuffledSolver(b: Grid, order: seq<int>, drawn: nat)
    requires |b| == 81 && Solver.IsDigitOrder(order)
    ensures Solver.ValidShuffles(Fixed(order))
    ensures Search(b, order) == Solver.Search(b, Fixed(order), drawn).result
    decreases Zeros(b), 1, 0
  {
    match FirstEmpty(b)
    case None =>
    case Some(p) =>
      TryIsUnshuffledSolver(b, p / 9, p % 9, order, 0, drawn + 1);
  }

  lemma {:induction false} TryIsUnshuffledSolver(b: Grid, row: int, col: int, order: seq<int>, i: nat, drawn: nat)
    requires |b| == 81 && OnBoard(row, col) && b[Idx(row, col)] == 0
    requires Solver.IsDigitOrder(order) && i <= |order|
    ensures Solver.ValidShuffles(Fixed(order))
    ensures TryFrom(b, row, col, order, i) ==
            Solver.TryCandidates(b, row, col, order, i, Fixed(order), drawn).result
    decreases Zeros(b), 0, |order| - i
  {
    if i < |order| {
      var num := order[i];
      FitsAtEmpty(b, num, row, col);
      if Fits(b, num, row, col) {
        ZerosFill(b, Idx(row, col), num);
        var b' := b[Idx(row, col) := num];
        SearchIsUnshuffledSolver(b', order, drawn);
        var sub := Solver.Search(b', Fixed(order), drawn);
        if sub.result.None? {
          TryIsUnshuffledSolver(b, row, col, order, i + 1, sub.drawn);
        }
      } else {
        TryIsUnshuffledSolver(b, row, col, order, i + 1, drawn);
      }
    }
  }

  /** A board with no empty cell is solved as it is. */
  lemma SearchFull(b: Grid)
    requires |b| == 81 && Full(b)
    ensures Search(b, Candidates) == Some(b)
  {
    FirstEmptyNone(b);
  }

  /** A successful solve fills every cell and keeps every nonzero cell of the input. */
  lemma SearchCompletes(b: Grid)
    requires |b| == 81
    ensures var r := Search(b, Candidates);
            r.Some? ==> |r.value| == 81 && Full(r.value) && KeepsGivens(b, r.value)
  {
    CandidatesAreDigitOrder();
    SearchIsUnshuffledSolver(b, Candidates, 0);
    Solver.SearchCompletes(b, Fixed(Candidates), 0);
  }

  /** A conflict-free input with cells in 0..9 is solved into a conflict-free board of digits 1..9. */
  lemma SearchConsistent(b: Grid)
    requires |b| == 81 && CellValues(b) && ConflictFree(b)
    ensures var r := Search(b, Candidates);
            r.Some? ==> |r.value| == 81 && Full(r.value) && CellValues(r.value) && ConflictFree(r.value)
  {
    CandidatesAreDigitOrder();
    SearchIsUnshuffledSolver(b, Candidates, 0);
    Solver.SearchConsistent(b, Fixed(Candidates), 0);
  }

  // ---------------------------------------------------------------------
  // The text-to-value step of extract_digits
  // ---------------------------------------------------------------------

  /** Value of a decimal digit character. */
  function DigitValue(c: char): int { c as int - '0' as int }

  predicate IsDigit(c: char) { 0 <= DigitValue(c) <= 9 }

  /** `''.join(filter(str.isdigit, text))`: the digits of `text`, in order. */
  function DigitsOf(text: string): (d: string)
    ensures forall i :: 0 <= i < |d| ==> IsDigit(d[i])
    ensures |d| <= |text|
  {
    if text == [] then []
    else (if IsDigit(text[0]) then [text[0]] else []) + DigitsOf(text[1..])
  }

  /** Filtering distributes over concatenation, so no digit is dropped or reordered. */
  lemma {:induction false} DigitsOfConcat(a: string, b: string)
    ensures DigitsOf(a + b) == DigitsOf(a) + DigitsOf(b)
  {
    if a == [] {
      assert a + b == b;
    } else {
      assert (a + b)[0] == a[0];
      assert (a + b)[1..] == a[1..] + b;
      DigitsOfConcat(a[1..], b);
    }
  }

  /** A text made only of digits is kept whole. */
  lemma {:induction false} DigitsOfDigits(text: string)
    requires forall i :: 0 <= i < |text| ==> IsDigit(text[i])
    ensures DigitsOf(text) == text
  {
    if text != [] {
      DigitsOfDigits(text[1..]);
    }
  }

  /** The filter is empty exactly when the text holds no digit. */
  lemma {:induction false} DigitsOfEmpty(text: string)
    ensures DigitsOf(text) == [] <==> forall i :: 0 <= i < |text| ==> !IsDigit(text[i])
  {
    if text != [] {
      DigitsOfEmpty(text[1..]);
      assert forall i :: 1 <= i < |text| ==> text[i] == text[1..][i - 1];
    }
  }

  function Pow10(n: nat): nat
  {
    if n == 0 then 1 else 10 * Pow10(n - 1)
  }

  /** `int(s)` for a nonempty string of decimal digits. */
  function DecimalValue(s: string): nat
    requires forall i :: 0 <= i < |s| ==> IsDigit(s[i])
  {
    if s == [] then 0
    else
      assert IsDigit(s[|s| - 1]);
      10 * DecimalValue(s[..|s| - 1]) + DigitValue(s[|s| - 1])
  }

  /**
   * A string of n digits denotes a value below 10^n, and at least 10^(n-1)
   * when it does not start with '0'.
   */
  lemma {:induction false} DecimalValueBounds(s: string)
    requires forall i :: 0 <= i < |s| ==> IsDigit(s[i])
    ensures DecimalValue(s) < Pow10(|s|)
    ensures |s| > 0 && s[0] != '0' ==> DecimalValue(s) >= Pow10(|s| - 1)
  {
    if s != [] {
      DecimalValueBounds(s[..|s| - 1]);
    }
  }

  /** The value written into the board for a cell whose recognised text is `text`. */
  function CellValue(text: string): (v: nat)
    ensures (forall i :: 0 <= i < |text| ==> !IsDigit(text[i])) ==> v == 0
  {
    DigitsOfEmpty(text);
    var digit := DigitsOf(text);
    if digit == [] then 0 else DecimalValue(digit)
  }

  /** Text holding a single digit gives that digit. */
  lemma CellValueSingleDigit(text: string, c: char)
    requires DigitsOf(text) == [c]
    ensures CellValue(text) == DigitValue(c)
    ensures 0 <= CellValue(text) <= 9
  {
    var d := DigitsOf(text);
    assert d[0] == c && IsDigit(c);
    assert d[..|d| - 1] == [];
    assert DecimalValue(d) == 10 * DecimalValue([]) + DigitValue(c);
  }

  /**
   * All digits are concatenated, so text with two or more digits not led by
   * '0' yields a value above 9, outside the range of a Sudoku cell.
   */
  lemma CellValueAboveNine(text: string)
    requires |DigitsOf(text)| >= 2 && DigitsOf(text)[0] != '0'
    ensures CellValue(text) >= 10
  {
    var d := DigitsOf(text);
    DecimalValueBounds(d);
    PowMonotone(|d| - 1);
  }

  lemma {:induction false} PowMonotone(n: nat)
    requires n >= 1
    ensures Pow10(n) >= 10
  {
    if n > 1 {
      PowMonotone(n - 1);
    }
  }

  /** Recognised text "1 7" becomes the cell value 17. */
  lemma CellValueExample()
    ensures CellValue("1 7") == 17
  {
    assert "1 7"[1..] == " 7" && " 7"[1..] == "7" && "7"[1..] == "";
    assert DigitsOf("7") == "7";
    assert DigitsOf(" 7") == "7";
    assert DigitsOf("1 7") == "17";
    assert "17"[..1] == "1" && "1"[..0] == "";
    assert DecimalValue("1") == 1;
  }
}
