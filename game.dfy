/**
 * The session logic of game.py's SudokuGame, with every widget call
 * removed: the boards, the given-cell mask, the mistake counter, the pause
 * flag, the selected cell and the elapsed-time counter.
 *
 * The randomness generate_puzzle draws (the shuffles of solve_board and the
 * cells of random.sample) is passed in, as in the Solver module.
 */
module Game {
  import opened Wrappers
  import opened Board
  import Solver

  /** Clue count generate_puzzle samples: `max(17, min(81, givens_count))`. */
  function ClueCount(givensCount: int): (n: int)
    ensures 17 <= n <= 81
    ensures 17 <= givensCount <= 81 ==> n == givensCount
    ensures givensCount < 17 ==> n == 17
    ensures givensCount > 81 ==> n == 81
  {
    var m := if givensCount < 81 then givensCount else 81;
    if m > 17 then m else 17
  }

  /** The (minutes, seconds) update_timer displays for `elapsed` seconds. */
  function Clock(elapsed: nat): (t: (nat, nat))
    ensures t.0 * 60 + t.1 == elapsed && t.1 < 60
  {
    (elapsed / 60, elapsed % 60)
  }

  /** The display is the only (minutes, seconds) pair with seconds below 60 that adds up to `elapsed`. */
  lemma ClockUnique(elapsed: nat, m: nat, s: nat)
    requires m * 60 + s == elapsed && s < 60
    ensures Clock(elapsed) == (m, s)
  {
  }

  /** The given-cell mask of a puzzle keeping exactly the cells in `cells`. */
  function Marked(cells: seq<int>): (g: seq<bool>)
    ensures |g| == 81 && forall k :: 0 <= k < 81 ==> (g[k] <==> k in cells)
  {
    seq(81, k => k in cells)
  }

  /** Number of `true` entries. */
  function CountTrue(g: seq<bool>): nat
  {
    if g == [] then 0 else (if g[0] then 1 else 0) + CountTrue(g[1..])
  }

  /** Marking one more unmarked cell adds one to the count. */
  lemma {:induction false} CountTrueSet(g: seq<bool>, k: int)
    requires 0 <= k < |g| && !g[k]
    ensures CountTrue(g[k := true]) == CountTrue(g) + 1
  {
    if k == 0 {
      assert g[k := true][1..] == g[1..];
    } else {
      CountTrueSet(g[1..], k - 1);
      assert g[k := true][1..] == g[1..][k - 1 := true];
    }
  }

  /** A mask marking n distinct cells has exactly n givens. */
  lemma {:induction false} MarkedCount(cells: seq<int>)
    requires Solver.IsSample(cells, |cells|)
    ensures CountTrue(Marked(cells)) == |cells|
  {
    if cells == [] {
      assert Marked(cells) == seq(81, _ => false);
      AllFalseCount(81);
    } else {
      var front, k := cells[..|cells| - 1], cells[|cells| - 1];
      assert cells == front + [k];
      assert k !in front by {
        forall i | 0 <= i < |front| ensures front[i] != k {
          assert front[i] == cells[i];
        }
      }
      MarkedCount(front);
      assert Marked(cells) == Marked(front)[k := true];
      CountTrueSet(Marked(front), k);
    }
  }

  lemma {:induction false} AllFalseCount(n: nat)
    ensures CountTrue(seq(n, _ => false)) == 0
  {
    if n > 0 {
      AllFalseCount(n - 1);
      assert seq(n, _ => false)[1..] == seq(n - 1, _ => false);
    }
  }

  /** The board clear_user_inputs leaves: given cells kept, every other cell 0. */
  function Cleared(b: Grid, givens: seq<bool>): (r: Grid)
    requires |b| == 81 && |givens| == 81
    ensures |r| == 81
  {
    seq(81, k requires 0 <= k < 81 => if givens[k] then b[k] else 0)
  }

  /**
   * Clearing the user's inputs from any board reached from a generated
   * puzzle gives back that puzzle, as long as the given cells still hold
   * the solution.
   */
  lemma ClearedIsPuzzle(b: Grid, solution: Grid, cells: seq<int>)
    requires |b| == 81 && |solution| == 81
    requires forall k :: 0 <= k < 81 && k in cells ==> b[k] == solution[k]
    ensures Cleared(b, Marked(cells)) == Solver.Reveal(solution, cells)
  {
  }

  /** Clearing twice is clearing once. */
  lemma ClearedIdempotent(b: Grid, givens: seq<bool>)
    requires |b| == 81 && |givens| == 81
    ensures Cleared(Cleared(b, givens), givens) == Cleared(b, givens)
  {
  }

  /** The board with every cell filled holds exactly the solution: the winning condition. */
  predicate Won(current: Grid, solution: Grid)
  {
    Full(current) && current == solution
  }

  /**
   * A finished game shows a proper solution: the solution comes from
   * solving the blank board, so when the board is won it is full, holds
   * digits 1..9 and has no conflict.
   */
  lemma WonIsSolution(current: Grid, rng: nat -> seq<int>, drawn: nat)
    requires Solver.ValidShuffles(rng) && Won(current, Solver.SolvedBlank(rng, drawn))
    ensures |current| == 81 && Full(current) && CellValues(current) && ConflictFree(current)
  {
    Solver.SolvedBlankIsSolution(rng, drawn);
  }

  class SudokuGame {
    var currentBoard: Grid
    var givens: seq<bool>
    var solutionBoard: Grid
    var mistakes: nat
    var isPaused: bool
    var selectedCell: Option<(int, int)>
    var elapsedSeconds: nat

    /** Boards are 9×9, the selection is on the board, and given cells hold the solution. */
    ghost predicate Valid()
      reads this
    {
      && |currentBoard| == 81 && |givens| == 81 && |solutionBoard| == 81
      && (selectedCell.Some? ==> OnBoard(selectedCell.value.0, selectedCell.value.1))
      && (forall k :: 0 <= k < 81 && givens[k] ==> currentBoard[k] == solutionBoard[k])
    }

    /** The guard shared by place_number, erase_cell and hint_cell: not paused, a cell selected, not a given. */
    predicate Editable()
      reads this
      requires Valid()
    {
      !isPaused && selectedCell.Some? && !givens[Idx(selectedCell.value.0, selectedCell.value.1)]
    }

    /** Board index of the selected cell. */
    function Selected(): int
      reads this
      requires Valid() && selectedCell.Some?
    {
      Idx(selectedCell.value.0, selectedCell.value.1)
    }

    /**
     * __init__: all boards empty, nothing given, counters at 0, then the
     * start_new_game(40, None) call at the end of the constructor.
     */
    constructor(rng: nat -> seq<int>, drawn: nat, sample: seq<int>)
      requires Solver.ValidShuffles(rng) && Solver.IsSample(sample, ClueCount(40))
      ensures Valid()
      ensures solutionBoard == Solver.SolvedBlank(rng, drawn)
      ensures currentBoard == Solver.Reveal(solutionBoard, sample) && givens == Marked(sample)
      ensures selectedCell.None? && mistakes == 0 && !isPaused && elapsedSeconds == 1
    {
      selectedCell := None;
      givens := seq(81, _ => false);
      solutionBoard := Blank();
      currentBoard := Blank();
      mistakes := 0;
      isPaused := false;
      elapsedSeconds := 0;
      new;
      StartNewGame(40, rng, drawn, sample);
    }

    /**
     * start_new_game: generate a puzzle, drop the selection (render_board),
     * reset the counters and run the first timer tick (start_timer).
     */
    method StartNewGame(givensCount: int, rng: nat -> seq<int>, drawn: nat, sample: seq<int>)
      requires Valid() && Solver.ValidShuffles(rng) && Solver.IsSample(sample, ClueCount(givensCount))
      modifies this
      ensures Valid()
      ensures solutionBoard == Solver.SolvedBlank(rng, drawn)
      ensures currentBoard == Solver.Reveal(solutionBoard, sample) && givens == Marked(sample)
      ensures selectedCell.None? && mistakes == 0 && !isPaused && elapsedSeconds == 1
    {
      GeneratePuzzle(givensCount, rng, drawn, sample);
      selectedCell := None;
      ResetStatus();
      var _ := UpdateTimer();
    }

    /**
     * generate_puzzle: solve a blank board for the solution, then keep the
     * sampled cells as givens holding their solution value and empty every
     * other cell. `sample` is what random.sample returns for the clamped count.
     */
    method GeneratePuzzle(givensCount: int, rng: nat -> seq<int>, drawn: nat, sample: seq<int>)
      requires Valid() && Solver.ValidShuffles(rng) && Solver.IsSample(sample, ClueCount(givensCount))
      modifies this
      ensures Valid()
      ensures solutionBoard == Solver.SolvedBlank(rng, drawn)
      ensures currentBoard == Solver.Reveal(solutionBoard, sample)
      ensures givens == Marked(sample) && CountTrue(givens) == ClueCount(givensCount)
      ensures mistakes == old(mistakes) && isPaused == old(isPaused)
      ensures selectedCell == old(selectedCell) && elapsedSeconds == old(elapsedSeconds)
    {
      var solved := new int[81](_ => 0);
      assert solved[..] == Blank();
      var _, _ := Solver.SolveBoard(solved, rng, drawn);
      solutionBoard := solved[..];
      CopyGivens(sample);
      MarkedCount(sample);
    }

    /**
     * The nested loops of generate_puzzle: a fresh current board holding the
     * solution at the sampled cells and 0 elsewhere, and the matching mask.
     */
    method CopyGivens(sample: seq<int>)
      requires |solutionBoard| == 81 && |givens| == 81
      modifies this
      ensures solutionBoard == old(solutionBoard) && mistakes == old(mistakes) && isPaused == old(isPaused)
      ensures selectedCell == old(selectedCell) && elapsedSeconds == old(elapsedSeconds)
      ensures currentBoard == Solver.Reveal(solutionBoard, sample) && givens == Marked(sample)
    {
      currentBoard := Blank();
      ghost var solution := solutionBoard;
      for i := 0 to 9
        invariant |currentBoard| == 81 && |givens| == 81 && solutionBoard == solution
        invariant forall k :: 0 <= k < 9 * i ==>
                    currentBoard[k] == (if k in sample then solution[k] else 0) && (givens[k] <==> k in sample)
        invariant mistakes == old(mistakes) && isPaused == old(isPaused)
        invariant selectedCell == old(selectedCell) && elapsedSeconds == old(elapsedSeconds)
      {
        for j := 0 to 9
          invariant |currentBoard| == 81 && |givens| == 81 && solutionBoard == solution
          invariant forall k :: 0 <= k < 9 * i + j ==>
                      currentBoard[k] == (if k in sample then solution[k] else 0) && (givens[k] <==> k in sample)
          invariant mistakes == old(mistakes) && isPaused == old(isPaused)
          invariant selectedCell == old(selectedCell) && elapsedSeconds == old(elapsedSeconds)
        {
          var k := Idx(i, j);
          if k in sample {
            currentBoard := currentBoard[k := solutionBoard[k]];
            givens := givens[k := true];
          } else {
            currentBoard := currentBoard[k := 0];
            givens := givens[k := false];
          }
        }
      }
      assert givens == Marked(sample);
    }

    /** reset_status: mistakes and elapsed time back to 0, not paused. */
    method ResetStatus()
      requires Valid()
      modifies this
      ensures Valid()
      ensures mistakes == 0 && elapsedSeconds == 0 && !isPaused
      ensures currentBoard == old(currentBoard) && givens == old(givens) && solutionBoard == old(solutionBoard)
      ensures selectedCell == old(selectedCell)
    {
      mistakes := 0;
      elapsedSeconds := 0;
      isPaused := false;
    }

    /**
     * update_timer: one tick. When not paused the counter goes up by one
     * and the new (minutes, seconds) is displayed; when paused nothing changes.
     */
    method UpdateTimer() returns (shown: Option<(nat, nat)>)
      requires Valid()
      modifies this
      ensures Valid()
      ensures old(isPaused) ==> elapsedSeconds == old(elapsedSeconds) && shown.None?
      ensures !old(isPaused) ==> elapsedSeconds == old(elapsedSeconds) + 1 && shown == Some(Clock(elapsedSeconds))
      ensures currentBoard == old(currentBoard) && givens == old(givens) && solutionBoard == old(solutionBoard)
      ensures mistakes == old(mistakes) && isPaused == old(isPaused) && selectedCell == old(selectedCell)
    {
      shown := None;
      if !isPaused {
        elapsedSeconds := elapsedSeconds + 1;
        var m := elapsedSeconds / 60;
        var s := elapsedSeconds % 60;
        shown := Some((m, s));
      }
    }

    /** toggle_pause: flip the pause flag. */
    method TogglePause()
      requires Valid()
      modifies this
      ensures Valid()
      ensures isPaused == !old(isPaused)
      ensures currentBoard == old(currentBoard) && givens == old(givens) && solutionBoard == old(solutionBoard)
      ensures mistakes == old(mistakes) && selectedCell == old(selectedCell) && elapsedSeconds == old(elapsedSeconds)
    {
      isPaused := !isPaused;
    }

    /** select_cell, reached from a cell's focus event with that cell's coordinates. */
    method SelectCell(row: int, col: int)
      requires Valid() && OnBoard(row, col)
      modifies this
      ensures Valid()
      ensures selectedCell == Some((row, col))
      ensures currentBoard == old(currentBoard) && givens == old(givens) && solutionBoard == old(solutionBoard)
      ensures mistakes == old(mistakes) && isPaused == old(isPaused) && elapsedSeconds == old(elapsedSeconds)
    {
      selectedCell := Some((row, col));
    }

    /** move_cursor: select (row, col) when it is on the board, otherwise do nothing. */
    method MoveCursor(row: int, col: int)
      requires Valid()
      modifies this
      ensures Valid()
      ensures selectedCell == if OnBoard(row, col) then Some((row, col)) else old(selectedCell)
      ensures currentBoard == old(currentBoard) && givens == old(givens) && solutionBoard == old(solutionBoard)
      ensures mistakes == old(mistakes) && isPaused == old(isPaused) && elapsedSeconds == old(elapsedSeconds)
    {
      if 0 <= row < 9 && 0 <= col < 9 {
        SelectCell(row, col);
      }
    }

    /**
     * place_number: when the game is editable, write `num` into the selected
     * cell whether or not it is right, count a mistake exactly when it differs
     * from the solution, then check for the end of the game.
     */
    method PlaceNumber(num: int)
      requires Valid()
      modifies this
      ensures Valid()
      ensures givens == old(givens) && solutionBoard == old(solutionBoard)
      ensures selectedCell == old(selectedCell) && elapsedSeconds == old(elapsedSeconds)
      ensures !old(Editable()) ==>
                currentBoard == old(currentBoard) && mistakes == old(mistakes) && isPaused == old(isPaused)
      ensures old(Editable()) ==>
                && currentBoard == old(currentBoard)[old(Selected()) := num]
                && mistakes == old(mistakes) + (if num != solutionBoard[old(Selected())] then 1 else 0)
                && isPaused == Won(currentBoard, solutionBoard)
    {
      if isPaused {
        return;
      }
      if selectedCell.None? {
        return;
      }
      var (r, c) := selectedCell.value;
      if givens[Idx(r, c)] {
        return;
      }
      var correct := solutionBoard[Idx(r, c)];
      if num == correct {
        currentBoard := currentBoard[Idx(r, c) := num];
      } else {
        mistakes := mistakes + 1;
        currentBoard := currentBoard[Idx(r, c) := num];
      }
      CheckGameFinished();
    }

    /** erase_cell: when the game is editable, set the selected cell to 0. */
    method EraseCell()
      requires Valid()
      modifies this
      ensures Valid()
      ensures old(Editable()) ==> currentBoard == old(currentBoard)[old(Selected()) := 0]
      ensures !old(Editable()) ==> currentBoard == old(currentBoard)
      ensures givens == old(givens) && solutionBoard == old(solutionBoard)
      ensures mistakes == old(mistakes) && isPaused == old(isPaused)
      ensures selectedCell == old(selectedCell) && elapsedSeconds == old(elapsedSeconds)
    {
      if isPaused || selectedCell.None? {
        return;
      }
      var (r, c) := selectedCell.value;
      if givens[Idx(r, c)] {
        return;
      }
      currentBoard := currentBoard[Idx(r, c) := 0];
    }

    /** clear_user_inputs: unless paused, set every cell that is not a given to 0. */
    method ClearUserInputs()
      requires Valid()
      modifies this
      ensures Valid()
      ensures currentBoard == if old(isPaused) then old(currentBoard) else Cleared(old(currentBoard), givens)
      ensures givens == old(givens) && solutionBoard == old(solutionBoard)
      ensures mistakes == old(mistakes) && isPaused == old(isPaused)
      ensures selectedCell == old(selectedCell) && elapsedSeconds == old(elapsedSeconds)
    {
      if isPaused {
        return;
      }
      ghost var before := currentBoard;
      for i := 0 to 9
        invariant |currentBoard| == 81 && |givens| == 81 && |before| == 81
        invariant forall k :: 0 <= k < 9 * i ==> currentBoard[k] == (if givens[k] then before[k] else 0)
        invariant forall k :: 9 * i <= k < 81 ==> currentBoard[k] == before[k]
        invariant givens == old(givens) && solutionBoard == old(solutionBoard)
        invariant mistakes == old(mistakes) && isPaused == old(isPaused)
        invariant selectedCell == old(selectedCell) && elapsedSeconds == old(elapsedSeconds)
      {
        for j := 0 to 9
          invariant |currentBoard| == 81 && |givens| == 81 && |before| == 81
          invariant forall k :: 0 <= k < 9 * i + j ==> currentBoard[k] == (if givens[k] then before[k] else 0)
          invariant forall k :: 9 * i + j <= k < 81 ==> currentBoard[k] == before[k]
          invariant givens == old(givens) && solutionBoard == old(solutionBoard)
          invariant mistakes == old(mistakes) && isPaused == old(isPaused)
          invariant selectedCell == old(selectedCell) && elapsedSeconds == old(elapsedSeconds)
        {
          if !givens[Idx(i, j)] {
            currentBoard := currentBoard[Idx(i, j) := 0];
          }
        }
      }
      assert currentBoard == Cleared(before, givens);
    }

    /**
     * hint_cell: when the game is editable and the selected cell is empty,
     * write the solution value there; in both cases then check for the end
     * of the game. The mistake counter is never touched.
     */
    method HintCell()
      requires Valid()
      modifies this
      ensures Valid()
      ensures givens == old(givens) && solutionBoard == old(solutionBoard) && mistakes == old(mistakes)
      ensures selectedCell == old(selectedCell) && elapsedSeconds == old(elapsedSeconds)
      ensures !old(Editable()) ==> currentBoard == old(currentBoard) && isPaused == old(isPaused)
      ensures old(Editable()) ==>
                && currentBoard == (if old(currentBoard[Selected()]) == 0
                                    then old(currentBoard)[old(Selected()) := solutionBoard[old(Selected())]]
                                    else old(currentBoard))
                && isPaused == Won(currentBoard, solutionBoard)
    {
      if isPaused || selectedCell.None? {
        return;
      }
      var (r, c) := selectedCell.value;
      if givens[Idx(r, c)] {
        return;
      }
      if currentBoard[Idx(r, c)] == 0 {
        var num := solutionBoard[Idx(r, c)];
        currentBoard := currentBoard[Idx(r, c) := num];
      }
      CheckGameFinished();
    }

    /** is_board_complete: scan the board in row-major order for a 0. */
    method IsBoardComplete() returns (complete: bool)
      requires Valid()
      ensures complete <==> Full(currentBoard)
    {
      for i := 0 to 9
        invariant forall k :: 0 <= k < 9 * i ==> currentBoard[k] != 0
      {
        for j := 0 to 9
          invariant forall k :: 0 <= k < 9 * i + j ==> currentBoard[k] != 0
        {
          if currentBoard[Idx(i, j)] == 0 {
            return false;
          }
        }
      }
      return true;
    }

    /**
     * check_game_finished: unless already paused, pause the game when the
     * board is complete and equal to the solution.
     */
    method CheckGameFinished()
      requires Valid()
      modifies this
      ensures Valid()
      ensures isPaused == (old(isPaused) || Won(currentBoard, solutionBoard))
      ensures currentBoard == old(currentBoard) && givens == old(givens) && solutionBoard == old(solutionBoard)
      ensures mistakes == old(mistakes) && selectedCell == old(selectedCell) && elapsedSeconds == old(elapsedSeconds)
    {
      if isPaused {
        return;
      }
      var complete := IsBoardComplete();
      if !complete {
        return;
      }
      if currentBoard != solutionBoard {
        return;
      }
      isPaused := true;
    }
  }
}
