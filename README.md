# Sudoku solver, generator and game session in Dafny

This project models the logic of a small Sudoku application:

- **`solver.py`**: the randomised backtracking solver (`is_valid`, `find_empty`, `solve_board`) and the puzzle generator `generate_random_puzzle`.
- **`image_upload.py`**: the second, deterministic solver (`find_empty`, `is_valid`, `solve`) and the step that turns recognised text into a cell value.
- **`game.py`**: the state of a `SudokuGame` session. That is the boards, the given-cell mask, the mistake counter, the pause flag, the selected cell and the elapsed-time counter, together with the operations that change them.

Files:

- `board.dfy`
  - Module `Wrappers`: `Option`.
  - Module `Board`:
    - the 9×9 grid, stored flat as 81 cells with cell (r, c) at index 9·r + c, so row-major order is index order;
    - the predicates the contracts use (`Full`, `CellValues`, `ConflictFree`, `KeepsGivens`);
    - the number of empty cells;
    - `find_empty`, which is identical in both solvers apart from the parameter name and is modelled once.
- `solver.dfy`: module `Solver`, covering `solver.py`.
  - Each solve is specified by a pure search function, `Search` / `TryCandidates`.
  - The in-place array method `SolveBoard` is proved to compute exactly that function. When the search fails, the method is proved to restore its input.
  - Lemmas prove that a successful result fills every cell, keeps the givens, and stays conflict-free.
- `image_upload.dfy`: module `ImageUpload`, covering `image_upload.py`.
  - `Solve` is proved equal to its own search function.
  - That search is proved to be the `solver.py` search run with the fixed candidate order 1..9.
  - The text-to-value step is modelled with its digit filter and decimal reading.
- `game.dfy`: module `Game`, covering `game.py`.
  - Class `SudokuGame` has the session's fields. The methods update those fields as the source does, with the widget calls removed.
  - The invariant `Valid` includes "every given cell holds its solution value", and each operation of the session (every method except the loop helper `CopyGivens`) preserves it.
  - Each method also states the whole new state, including the frame conditions that the givens and the solution never change.

Randomness is a parameter, not a generator:

- **Shuffles.** The shuffles that `solve_board` draws (`random.shuffle` at solver.py:37-38) are a function `rng: nat -> seq<int>` together with a counter `drawn`. Every recursive call that finds an empty cell consumes `rng(drawn)`, which must be an ordering of 1..9 (`ValidShuffles`).
- **Sampled cells.** `random.sample` is a sequence of distinct cell indices of the required length (`IsSample`).
- **Clue count.** `random.randint(17, 30)` is an integer argument in that range.

Three facts about the code that shape the model:

- `is_valid` in `solver.py` checks the target cell as well (solver.py:5-20), so a filled cell's own value is reported invalid (`Solver.OwnValueNotPlaceable`). Only the `image_upload.py` version skips the target cell. In `solve_board` the target cell is always empty, so the two checks agree there (`ImageUpload.FitsAtEmpty`).
- The module `solver.py` has no step-by-step replay (no `solve_step`, no sequence of place/remove actions), so none is modelled.
- `generate_random_puzzle` does not clamp its clue count. A count outside 0..81 makes `random.sample` raise, and the model returns `None` in that case. Only `SudokuGame.generate_puzzle` clamps the count into 17..81.

## Model

| member | source | states |
|---|---|---|
| Board.FindEmpty | solver.py:24-29 | returns None iff no cell is 0; otherwise returns an on-board position holding 0, and it is the first such cell in row-major order (`FirstEmpty`) |
| Board.FirstEmptyNone | solver.py:24-29 | the row-major first-empty search finds nothing iff the board is full |
| Board.FirstEmptyIs | solver.py:25-28 | a 0 cell preceded only by non-zero cells is the one the scan returns |
| Board.ZerosFill | solver.py:42-43 | writing a non-zero digit into an empty cell leaves exactly one fewer empty cell, so each recursive call sees one fewer zero and the recursion terminates |
| Board.ZerosNone | solver.py:32-34 | no empty cell iff the board is full |
| Board.ZerosBlank | solver.py:71 | the blank board has all 81 cells empty |
| Solver.IsValid | solver.py:3-22 | true iff `num` occurs nowhere in the row, the column or the 3×3 box of (row, col) (`Placeable`) |
| Solver.ScanRow | solver.py:5-7 | true iff no cell of the row holds `num` |
| Solver.ScanCol | solver.py:10-12 | true iff no cell of the column holds `num` |
| Solver.ScanBox | solver.py:15-20 | true iff no cell of the box starting at (row/3·3, col/3·3) holds `num` |
| Solver.PlaceableUnit | solver.py:3-22 | `Placeable` holds iff no cell sharing a row, column or box with the target (the target itself included) holds `num` |
| Solver.OwnValueNotPlaceable | solver.py:3-22 | a cell's own value is never placeable there, because the target cell is part of each scan |
| Solver.PlaceKeepsConflictFree | solver.py:41-42 | writing a placeable digit into an empty cell of a conflict-free board keeps it conflict-free |
| Solver.SolveBoard | solver.py:31-47 | returns true iff the search finds a completion, the board then holds that completion and the number of shuffles consumed is the search's; on false the board equals its input |
| Solver.SearchFull | solver.py:32-34 | a board with no empty cell is returned unchanged, and no shuffle is drawn |
| Solver.SearchCompletes | solver.py:31-47 | a successful result has no 0 cell and keeps every cell that was non-zero on entry |
| Solver.TryCompletes | solver.py:40-47 | the same as SearchCompletes, for the candidate loop from any position in the shuffled list |
| Solver.SearchConsistent | solver.py:40-44 | a conflict-free input whose cells are all in 0..9 is completed into a full, conflict-free board of digits 1..9 |
| Solver.TryConsistent | solver.py:40-44 | the same as SearchConsistent, for the candidate loop from any position in the shuffled list |
| Solver.UndoFill | solver.py:42-45 | writing a digit into an empty cell and then resetting it to 0 gives back the board |
| Solver.SolvedBlankIsSolution | solver.py:71-72 | the solved blank board is either a full, conflict-free grid of digits 1..9 or, if the solve failed, still blank |
| Solver.RevealStep | solver.py:80-81 | keeping one more cell copies that cell of the solution into the puzzle |
| Solver.RevealZeros | solver.py:78-81 | the puzzle made from a full board by keeping n distinct cells has exactly 81 − n empty cells |
| Solver.RevealPuzzle | solver.py:78-83 | such a puzzle is non-zero exactly at the kept cells, agrees with the solution on its non-zero cells, and is conflict-free with digits in 0..9 |
| Solver.GenerateRandomPuzzle | solver.py:70-83 | a puzzle exists iff the clue count (`given`, or the drawn count 17..30) is in 0..81; it is then a fresh board holding the solved blank board at the sampled cells and 0 elsewhere |
| Solver.CopyCells | solver.py:79-81 | the copy loop gives a fresh board equal to the solution at the listed cells and 0 elsewhere |
| ImageUpload.IsValid | image_upload.py:83-97 | true iff no cell other than `pos` in its row, column or box holds `num` (`Fits`) |
| ImageUpload.ScanRow | image_upload.py:85-87 | true iff no other cell of the row holds `num` |
| ImageUpload.ScanCol | image_upload.py:88-90 | true iff no other cell of the column holds `num` |
| ImageUpload.ScanBox | image_upload.py:91-96 | true iff no other cell of the box holds `num` |
| ImageUpload.FitsPeers | image_upload.py:83-97 | `Fits` holds iff no cell other than the target that shares a row, column or box with it holds `num` |
| ImageUpload.BoxPeerFits | image_upload.py:91-96 | when the box scan finds nothing, no cell of the target's box other than the target holds `num` |
| ImageUpload.FitsAtEmpty | image_upload.py:83-97 | at an empty target and for a non-zero `num`, this check agrees with the `solver.py` check |
| ImageUpload.Solve | image_upload.py:99-110 | returns true iff the search with candidates 1..9 finds a completion, and the board then holds it; on false the board equals its input |
| ImageUpload.SolveWith | image_upload.py:99-110 | the recursion of `solve` computes the search for the candidate order it is given |
| ImageUpload.PlaceAndSolve | image_upload.py:106-109 | write a candidate, recurse, and reset the cell to 0 when the recursion fails |
| ImageUpload.CandidatesAreDigitOrder | image_upload.py:104 | `range(1, 10)` lists each digit 1..9 exactly once |
| ImageUpload.SearchIsUnshuffledSolver | image_upload.py:99-110 | this solver computes exactly what `solve_board` computes when every shuffle yields the fixed order, so it is a deterministic function of the board |
| ImageUpload.TryIsUnshuffledSolver | image_upload.py:104-109 | the candidate loop agrees with `solve_board`'s candidate loop under the fixed order |
| ImageUpload.SearchFull | image_upload.py:100-102 | a board with no empty cell is returned unchanged |
| ImageUpload.SearchCompletes | image_upload.py:99-110 | a successful result has no 0 cell and keeps every originally non-zero cell |
| ImageUpload.SearchConsistent | image_upload.py:104-109 | a conflict-free input with digits 0..9 is completed into a full, conflict-free board of digits 1..9 |
| ImageUpload.DigitsOf | image_upload.py:71 | the filter keeps only digit characters and never lengthens the text |
| ImageUpload.DigitsOfConcat | image_upload.py:71 | filtering distributes over concatenation |
| ImageUpload.DigitsOfDigits | image_upload.py:71 | a text made only of digits passes the filter unchanged |
| ImageUpload.DigitsOfEmpty | image_upload.py:71 | the filtered text is empty iff the text holds no digit |
| ImageUpload.DecimalValueBounds | image_upload.py:72 | a k-digit string reads as a value below 10^k, and at least 10^(k−1) when it has no leading 0 |
| ImageUpload.CellValue | image_upload.py:71-72 | a text without a digit gives 0 |
| ImageUpload.CellValueSingleDigit | image_upload.py:71-72 | a text with exactly one digit gives that digit's value, in 0..9 |
| ImageUpload.CellValueAboveNine | image_upload.py:71-72 | a text with two or more digits, the first not 0, gives a value of at least 10, so it is not a valid cell value |
| ImageUpload.CellValueExample | image_upload.py:71-72 | the text "1 7" gives 17 |
| Game.ClueCount | game.py:195 | the clamped clue count lies in 17..81, equals the request inside that range, and is 17 below it and 81 above it |
| Game.Clock | game.py:254-256 | the displayed (minutes, seconds) add up to the elapsed seconds, with seconds below 60 |
| Game.ClockUnique | game.py:254-256 | that pair is the only one with seconds below 60 |
| Game.Marked | game.py:197-204 | a cell is given iff it is among the sampled cells |
| Game.CountTrueSet | game.py:201 | marking one more cell as given adds one to the number of givens |
| Game.MarkedCount | game.py:195-204 | n distinct sampled cells give exactly n given cells |
| Game.ClearedIsPuzzle | game.py:404-410 | clearing the user's inputs from a board whose given cells hold the solution gives back the generated puzzle |
| Game.ClearedIdempotent | game.py:404-410 | clearing twice is the same as clearing once |
| Game.WonIsSolution | game.py:442-457 | a board that is full and equal to the solved blank board is a full, conflict-free grid of digits 1..9 |
| Game.SudokuGame.constructor | game.py:22-29 | the fields start empty, then the first game with 40 clues is started, giving the same state as StartNewGame(40) |
| Game.SudokuGame.StartNewGame | game.py:178-186 | a new puzzle, no selection, no mistakes, not paused, and one timer tick (elapsed time 1) |
| Game.SudokuGame.GeneratePuzzle | game.py:188-204 | the solution is the solved blank board; the current board holds it at the sampled cells and 0 elsewhere; exactly the sampled cells are given, and their number is the clamped count; the other fields are unchanged |
| Game.SudokuGame.CopyGivens | game.py:197-204 | the nested loops write the puzzle and the given mask for the sampled cells |
| Game.SudokuGame.ResetStatus | game.py:222-227 | mistakes and elapsed time become 0 and the game is not paused; nothing else changes |
| Game.SudokuGame.UpdateTimer | game.py:252-257 | when not paused, the elapsed time goes up by exactly one and the new (minutes, seconds) is shown; when paused nothing changes |
| Game.SudokuGame.TogglePause | game.py:260-261 | only the pause flag flips |
| Game.SudokuGame.SelectCell | game.py:348-349 | the selection becomes (row, col) |
| Game.SudokuGame.MoveCursor | game.py:352-354 | the selection changes, to (row, col), only when that is on the board |
| Game.SudokuGame.PlaceNumber | game.py:367-390 | no change when paused, when nothing is selected or when the cell is given; otherwise only the selected cell changes, to `num` even when wrong, mistakes go up by exactly 1 iff `num` differs from the solution, and the game pauses iff the board is now won |
| Game.SudokuGame.EraseCell | game.py:392-398 | under the same guards, only the selected non-given cell becomes 0; nothing else changes |
| Game.SudokuGame.ClearUserInputs | game.py:404-410 | unless paused, every non-given cell becomes 0 and every given cell keeps its value |
| Game.SudokuGame.HintCell | game.py:417-432 | under the same guards, the selected cell receives its solution value only if it was 0; mistakes never change; the game pauses iff the board is now won |
| Game.SudokuGame.IsBoardComplete | game.py:434-440 | true iff no cell of the current board is 0 |
| Game.SudokuGame.CheckGameFinished | game.py:442-457 | the game becomes paused only when it was not paused, the board is full and it equals the solution; nothing else changes |

## Left out

- All tkinter code is out: widget creation, `render_board`'s drawing, selection and conflict highlighting, dialogs, the pause overlay, and the `after()` scheduling of the timer. They are presentation, and only their effect on the session fields is kept.
- The field `timer_job` is out, together with its cancellation in `start_timer` and `check_game_finished`. It is a handle to the scheduler.
- `on_keypress` and `handle_root_click` are out. They are event dispatch on widget types and key symbols, and they only call the modelled operations or clear the selection.
- The text formatting `f"{m:02d}:{s:02d}"` is out. `UpdateTimer` returns the (minutes, seconds) pair instead.
- The OpenCV / pytesseract / PIL pipeline of `image_upload.py` is out: preprocessing, contour finding, warping, cell splitting, the OCR call, drawing and file dialogs. These are foreign library calls and floating-point geometry. Only the text-to-value step at image_upload.py:71-72 is modelled, and the text is taken as given.
- `ImageUpload.DigitsOf` treats only '0'..'9' as digits. Python's `str.isdigit` also accepts other Unicode digit characters, and `int` then rejects some of them. The OCR whitelist restricts the text to 1..9, so this does not arise.
- `solve_gui_board` (solver.py:50-68) is out. It is a widget read/write wrapper around `solve_board`.
- `mannual_input.py` and `main.py` are not part of this model. They are GUI code. The `solve_step` that `mannual_input.py` imports does not exist in `solver.py`.
- Completeness of the blank solve is not proved: solving an empty board always succeeds in the source, but no lemma here shows it.
- Solver.GenerateRandomPuzzle: the puzzle's contract is stated relative to `SolvedBlank`, which is either a full valid grid or, if the solve had failed, the blank board. The source relies on that solve always succeeding.
- Game.SudokuGame.GeneratePuzzle: the same applies. The solution is a valid full grid unless the blank solve failed, so the puzzle's non-zero cells equal the clue count only in the successful case (`Solver.RevealZeros`).
- Randomness is not a generator. `random.shuffle`, `random.sample` and `random.randint` are parameters (an ordering of 1..9 per draw, distinct cell indices, an integer), and the model says nothing about their distribution.
- The 9×9 nested lists are a flat 81-cell board. Nested-list aliasing does not arise in the source, since every board is built fresh.
- A few loops are split into helper methods with their own contracts, but the scans and writes they perform are the source's:
  - the row, column and box scans of both `is_valid` functions;
  - the candidate loop of `image_upload.py`'s `solve` (`SolveWith`, with the list `range(1, 10)` passed as a parameter, and `PlaceAndSolve`);
  - the copy loop of `generate_random_puzzle` (`CopyCells`);
  - the nested loops of `generate_puzzle` (`CopyGivens`).
