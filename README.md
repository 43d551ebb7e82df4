# Sudoku engine and play rules, modelled in Dafny

This project models the Sudoku component from `src/Games/Sudoku/Sudoku.js`. It covers:

- the puzzle generator: `shuffle`, the backtracking filler `fill`, and the carving loop of `generatePuzzle`;
- the legality check `isValid` and the candidate list `getAvailableCandidates`;
- the solver `solveBoard`, and the clue count that `startGame` picks;
- the play-time rules: selecting a cell, entering a digit or a pencil mark, the Delete/Backspace key, Restart, the completion test, and `countNum`;
- the high-score list update of `recordScore`.

A cell is an `int`. 0 is the empty cell `""`, and 1..9 are the digit strings `"1"`..`"9"`.

The filler, the solver and the carving loop work in place on an `array2<int>`, as the source's nested arrays do. They are proved against value grids (`seq<seq<int>>`) through `ToGrid`.

The part of the React state modelled here is the board, the clues (`original`), the key (`solution`), the puzzle seed, the notes, the selection and the pencil flag. The component's other hooks are UI, timing and storage state; "## Left out" lists them. Every update gives these hooks a new value: the board, clues and notes are copied first; the selection and pencil flag are replaced; and the puzzle seed is the generated puzzle array itself, which nothing mutates afterwards. So in the model this state is a set of value fields of the class `Play.Game`, and every handler is a method that reassigns those fields.

- `grid.dfy` (`SudokuGrid`): cells, units and solved grids. It defines what a backtracking search may leave (`Completion`), and it gives a witness solved grid.
- `rules.dfy` (`Rules`): `isValid` and `getAvailableCandidates`.
- `search.dfy` (`Search`): `shuffle`, `fill`, the carving loop, `generatePuzzle` and `solveBoard`.
- `game.dfy` (`Play`): `startGame`, the input handlers, Restart, the completion test and `countNum`.
- `scores.dfy` (`Scores`): the `recordScore` list update.

`Math.random()` is modelled as a stream `rand: nat -> Draw` of reals in [0, 1), read from a cursor. Every contract therefore holds for every outcome of the random draws. `Math.floor(Math.random() * n)` is `Search.Pick`.

The filler and the solver are proved sound and complete:

- If they succeed, the grid is a completion of the grid they were given: every cell they fill holds a digit that no peer repeats.
- If they fail, the grid is restored and no completion exists.

Filling the empty grid therefore cannot fail.

The clues of every generated puzzle agree with a solved grid. Hence `solveBoard` cannot fail in `startGame`, and the key it stores is a solved grid that extends the clues.

The solver tries the digits in ascending order at the first empty cell. So the key it stores is the least solution of the puzzle, in row-major order of the cell values (`Search.LeastCompletion`).

The completion test compares the board with that one key. A puzzle with fewer clues may have several solutions. Any correct solution other than the least one is then never reported complete. `Play.CompleteIffSolution` states the test exactly as the source does: complete means equal to the key.

## Model

| member | source | states |
|---|---|---|
| SudokuGrid.EmptyGrid | src/Games/Sudoku/Sudoku.js:4 | `emptyGrid()` is a 9×9 grid of empty cells |
| SudokuGrid.ToGrid | src/Games/Sudoku/Sudoku.js:36 | the value copy of an array grid has the array's value in every cell |
| SudokuGrid.CompletionShift | src/Games/Sudoku/Sudoku.js:24 | a filled cell at idx is skipped: the completions from idx and from idx + 1 are the same |
| SudokuGrid.CompletionOfFilled | src/Games/Sudoku/Sudoku.js:21 | a search that has passed every empty cell leaves the grid as its own completion |
| SudokuGrid.CompletionLegal | src/Games/Sudoku/Sudoku.js:27 | the digit a completion puts at an empty cell has no peer on the original grid holding it |
| SudokuGrid.PlaceSound | src/Games/Sudoku/Sudoku.js:28-29 | placing a legal digit and then completing the new grid completes the old one |
| SudokuGrid.PlaceComplete | src/Games/Sudoku/Sudoku.js:30 | a completion that puts v at a cell is also a completion of the grid with v placed there |
| SudokuGrid.SolvedCompletes | src/Games/Sudoku/Sudoku.js:168-169 | a solved grid that extends a puzzle's clues is a completion of the puzzle |
| SudokuGrid.AgreesConflictFree | src/Games/Sudoku/Sudoku.js:36-46 | clues copied from a solved grid never conflict |
| SudokuGrid.CompletionSolved | src/Games/Sudoku/Sudoku.js:169 | a completion of a conflict-free puzzle is a solved grid that keeps every clue |
| SudokuGrid.BlankOne | src/Games/Sudoku/Sudoku.js:41-43 | blanking a non-empty cell removes exactly its position from the filled set |
| SudokuGrid.FillOne | src/Games/Sudoku/Sudoku.js:190 | writing a digit into an empty cell removes exactly its position from the blanks, so the solver's recursion terminates |
| SudokuGrid.FilledBlanks | src/Games/Sudoku/Sudoku.js:37 | filled and blank positions together number 81 |
| SudokuGrid.FullFilled | src/Games/Sudoku/Sudoku.js:36-37 | the filled grid has 81 non-empty cells before carving |
| SudokuGrid.WitnessSolved | src/Games/Sudoku/Sudoku.js:35 | a solved grid exists |
| SudokuGrid.EmptyHasCompletion | src/Games/Sudoku/Sudoku.js:35 | the empty grid has a completion, so `fill()` on it succeeds |
| SudokuGrid.SolvedUnits | src/Games/Sudoku/Sudoku.js:297 | on a solved grid every row, column and box holds each digit, with no repetition |
| SudokuGrid.NineDistinctDigits | src/Games/Sudoku/Sudoku.js:297 | nine distinct digits include every digit |
| Rules.IsValid | src/Games/Sudoku/Sudoku.js:49-63 | `isValid` returns true exactly when no other cell in the row, column or box holds the value |
| Rules.LinesClear | src/Games/Sudoku/Sudoku.js:51-54 | the row/column loop fails exactly when another cell of the row or column holds the value |
| Rules.BoxClear | src/Games/Sudoku/Sudoku.js:55-61 | the box loops fail exactly when another cell of the box holds the value |
| Rules.BoxRowClear | src/Games/Sudoku/Sudoku.js:58-60 | the inner box loop fails exactly when another cell of that box row holds the value |
| Rules.Candidates | src/Games/Sudoku/Sudoku.js:65-79 | the candidate list is ascending, and holds a digit exactly when no cell of the cell's row, column or box (the cell included) holds it |
| Rules.LineValues | src/Games/Sudoku/Sudoku.js:67-70 | `used` holds every non-empty value of the row and column, and nothing else |
| Rules.LinesInUnit | src/Games/Sudoku/Sudoku.js:67-70 | a value found on the row or column is used in one of the cell's units |
| Rules.AddBoxValues | src/Games/Sudoku/Sudoku.js:71-77 | the box loops add every non-empty value of the box, and only values of the cell's units |
| Rules.Unused | src/Games/Sudoku/Sudoku.js:78 | the filter keeps, in ascending order, exactly the digits not in `used` |
| Rules.CandidateIffValid | src/Games/Sudoku/Sudoku.js:49-79 | at an empty cell a digit is a candidate exactly when `isValid` allows it |
| Rules.OwnValueUsed | src/Games/Sudoku/Sudoku.js:68 | a non-empty cell's own value counts as used for its candidates |
| Rules.ValidTranspose | src/Games/Sudoku/Sudoku.js:49-63 | transposing the grid and swapping row and column gives the same verdict |
| Search.Pick | src/Games/Sudoku/Sudoku.js:12 | `Math.floor(Math.random() * n)` lies in 0..n-1 |
| Search.Shuffle | src/Games/Sudoku/Sudoku.js:10-16 | `shuffle` permutes the array in place and reads one draw per position from the last down to 1 |
| Search.ShuffledDigits | src/Games/Sudoku/Sudoku.js:25 | the shuffled list is a permutation of 1..9 read with eight draws |
| Search.DigitsPermuted | src/Games/Sudoku/Sudoku.js:25-26 | a permutation of 1..9 holds every digit and nothing else |
| Search.Fill | src/Games/Sudoku/Sudoku.js:20-34 | `fill(idx)` succeeds with a completion from idx of the grid it was given; when it fails, the grid is restored and no completion exists |
| Search.FillCell | src/Games/Sudoku/Sudoku.js:25-33 | at an empty cell, the loop over the shuffled digits succeeds with a completion; when it fails, the grid is restored and every digit is ruled out |
| Search.TryDigit | src/Games/Sudoku/Sudoku.js:27-31 | one placement either leads to a completion, or is undone, and then no completion holds that digit there |
| Search.SkipFilled | src/Games/Sudoku/Sudoku.js:24 | the outcome for a filled cell is the outcome for the next index |
| Search.FillPlaced | src/Games/Sudoku/Sudoku.js:28-29 | a successful recursion after a legal placement completes the grid from idx |
| Search.FillPlacedFails | src/Games/Sudoku/Sudoku.js:29-30 | a failed recursion after placing v rules v out at the cell |
| Search.RejectedDigit | src/Games/Sudoku/Sudoku.js:27 | a digit `isValid` rejects is in no completion at that cell |
| Search.NoDigitLeft | src/Games/Sudoku/Sudoku.js:33 | when every digit is ruled out at an empty cell, no completion exists |
| Search.SolveBoard | src/Games/Sudoku/Sudoku.js:184-200 | `solveBoard` succeeds with the least completion of the grid in row-major order of the cell values; when it fails, the grid is restored and no completion exists |
| Search.SolveCell | src/Games/Sudoku/Sudoku.js:187-196 | at the first empty cell, trying 1..9 in ascending order succeeds with the least completion, or restores the grid when no completion exists |
| Search.SolveTry | src/Games/Sudoku/Sudoku.js:189-193 | one placement either leads to a completion holding the digit, no later than any other completion holding it there, or is undone, and then no completion holds that digit there |
| Search.PlacedLeast | src/Games/Sudoku/Sudoku.js:190-191 | the least completion after placing v precedes every completion of the old grid with v at that cell |
| Search.FirstBlankLeast | src/Games/Sudoku/Sudoku.js:187-191 | at the first empty cell, the completion found with digit n, once every smaller digit is ruled out, is the least completion |
| Search.LaterAtBlank | src/Games/Sudoku/Sudoku.js:185-188 | completions first differ at the first empty cell, so the smaller digit there comes first |
| Search.FilledLeast | src/Games/Sudoku/Sudoku.js:199 | a grid with no empty cell is its own only completion, hence the least |
| Search.PlacedFails | src/Games/Sudoku/Sudoku.js:191-192 | a failed recursive solve after placing v rules v out at the cell |
| Search.Drawn | src/Games/Sudoku/Sudoku.js:39-40 | the cell drawn by an iteration of the carving loop is on the grid |
| Search.Carve | src/Games/Sudoku/Sudoku.js:36-46 | the carved puzzle keeps the full grid's values at its clues and has `clues` clues once the loop ends; if every cell is drawn within the budget, the loop ends |
| Search.DrawnBlankStep | src/Games/Sudoku/Sudoku.js:41-44 | after an iteration, every cell drawn so far is blank |
| Search.AllDrawnBlank | src/Games/Sudoku/Sudoku.js:38-45 | if every cell has been drawn, every cell is blank |
| Search.BlankStep | src/Games/Sudoku/Sudoku.js:41-43 | blanking a drawn non-empty cell keeps the clues of the full grid and lowers the clue count by one |
| Search.NoneFilled | src/Games/Sudoku/Sudoku.js:38-45 | an all-blank grid has no filled position |
| Search.GeneratePuzzle | src/Games/Sudoku/Sudoku.js:18-47 | `generatePuzzle(clues)` returns a puzzle whose clues are those of a solved grid, with `clues` clues once carving has finished; carving reads the draws from `from` on, the first draw the filler left unread, at or after `cur` |
| Scores.Insert | src/Games/Sudoku/Sudoku.js:279 | stable insertion by time adds exactly the one entry |
| Scores.InsertSorted | src/Games/Sudoku/Sudoku.js:279 | insertion keeps a list sorted by time |
| Scores.SortByTime | src/Games/Sudoku/Sudoku.js:279 | the sort by time is a permutation, is ordered by ascending time, and is stable: for every time, the entries with that time keep their input order |
| Scores.InsertStable | src/Games/Sudoku/Sudoku.js:279 | inserting into a sorted list keeps the order of the entries of each time and puts the new entry behind those of its own time |
| Scores.AheadOfSorted | src/Games/Sudoku/Sudoku.js:279 | an entry faster than the head of a sorted list shares its time with no entry of the list |
| Scores.WithTimeConcat | src/Games/Sudoku/Sudoku.js:279 | the entries of a time in a concatenation are those of each part, in order |
| Scores.WithTimeNone | src/Games/Sudoku/Sudoku.js:279 | a list with no entry of a time has none of that time to keep |
| Scores.RecordScore | src/Games/Sudoku/Sudoku.js:277-281 | the new list is sorted by time, holds min(n + 1, 5) entries, is the first entries of the sorted list, and holds only old entries and the new one |
| Scores.KeptBeatDropped | src/Games/Sudoku/Sudoku.js:279 | every kept entry is at least as fast as every dropped one |
| Scores.SortSorted | src/Games/Sudoku/Sudoku.js:279 | sorting a list already in time order changes nothing |
| Scores.InsertLast | src/Games/Sudoku/Sudoku.js:279 | an entry no faster than the last goes to the end |
| Scores.Rank | src/Games/Sudoku/Sudoku.js:279 | the count of leading entries at least as fast as the new one is at most the list's length |
| Scores.RankSplits | src/Games/Sudoku/Sudoku.js:279 | in a sorted list the rank separates the entries at least as fast from the slower ones |
| Scores.InsertAt | src/Games/Sudoku/Sudoku.js:279 | the entry is inserted at its rank |
| Scores.NewEntryPlace | src/Games/Sudoku/Sudoku.js:277-281 | on a sorted list, the new time lands behind every equal or faster time and ahead of every slower one; it is kept exactly when fewer than five old entries are at least as fast |
| Scores.SortByAppend | src/Games/Sudoku/Sudoku.js:279 | sorting a sorted list with one entry appended inserts that entry |
| Play.CluesFor | src/Games/Sudoku/Sudoku.js:166 | Easy asks for 42 clues, Medium 34, otherwise 26 |
| Play.EmptyNotes | src/Games/Sudoku/Sudoku.js:5-8 | `emptyNotes()` has an empty note set in every cell |
| Play.ToggleNote | src/Games/Sudoku/Sudoku.js:224-225 | the mark is flipped in the selected cell; every other mark and cell is unchanged |
| Play.ClearNote | src/Games/Sudoku/Sudoku.js:236 | the selected cell's notes become empty; every other cell is unchanged |
| Play.ToggleTwice | src/Games/Sudoku/Sudoku.js:224-225 | toggling the same mark twice restores the notes |
| Play.IsComplete | src/Games/Sudoku/Sudoku.js:269 | the completion test holds exactly when the board is the key and the key has no blank cell |
| Play.NoBlanks | src/Games/Sudoku/Sudoku.js:269 | "every cell non-empty" means no blank position |
| Play.CompleteIffSolution | src/Games/Sudoku/Sudoku.js:269 | against a solved key, the board passes the completion test exactly when it equals the key; it is then solved and shows every clue |
| Play.NeverCompleteBeforeStart | src/Games/Sudoku/Sudoku.js:105 | with no key stored, no board passes the completion test |
| Play.CountIn | src/Games/Sudoku/Sudoku.js:282 | the inner `reduce` counts the occurrences of v in the row; for v = 0 it is 0, since `String(0)` matches no cell and an empty cell is `""` |
| Play.CountNum | src/Games/Sudoku/Sudoku.js:282 | `countNum(v)` is the number of cells holding v, and 0 for v = 0 |
| Play.CountRows | src/Games/Sudoku/Sudoku.js:282 | the outer `reduce` over the first i rows counts the positions below 9i whose cell holds v, and 0 for v = 0 |
| Play.RowPrefix | src/Games/Sudoku/Sudoku.js:282 | for v other than 0, the inner `reduce` over the first j cells of row i counts the positions from 9i to 9i + j - 1 that hold v |
| Play.HoldingStep | src/Games/Sudoku/Sudoku.js:282 | each cell adds one to the count exactly when it holds v |
| Play.SolvedAllDone | src/Games/Sudoku/Sudoku.js:297 | on a solved board every digit is counted 9 times, so the number panel marks each digit done |
| Play.RowsOnce | src/Games/Sudoku/Sudoku.js:282 | on a solved board each of the first i rows holds a digit once |
| Play.DistinctOnce | src/Games/Sudoku/Sudoku.js:282 | a value of a row without repetitions is counted once |
| Play.Game.constructor | src/Games/Sudoku/Sudoku.js:104-117 | the initial state has empty board, clues and notes, no key, no selection, and pencil mode off |
| Play.Game.StartGame | src/Games/Sudoku/Sudoku.js:164-183 | the new key is a solved grid that extends the clues, the least such grid in row-major order; board and clues are the puzzle; notes, selection and pencil mode are reset; the clue count is the difficulty's once carving has finished |
| Play.Game.SelectCell | src/Games/Sudoku/Sudoku.js:214 | only the selection changes |
| Play.Game.TogglePencil | src/Games/Sudoku/Sudoku.js:368 | only the pencil mode flips |
| Play.Game.HandleInput | src/Games/Sudoku/Sudoku.js:216-240 | without a selection, or on a clue, nothing changes. Pencil mode toggles the mark when the digit is a candidate and otherwise changes nothing. Commit mode writes the digit and clears the cell's notes. Clues stay on the board |
| Play.Game.ClearSelected | src/Games/Sudoku/Sudoku.js:248-262 | as written: with a row selected, pencil mode clears the cell's notes and commit mode empties the cell, clue or not |
| Play.Game.ClearSelectedGuarded | src/Games/Sudoku/Sudoku.js:248-262 | the Delete key with the clue guard of `handleInput` (line 218): a clue or an unselected cell is left alone, and clues stay on the board |
| Play.Game.Restart | src/Games/Sudoku/Sudoku.js:201-211 | the board returns to the puzzle, which shows every clue; notes, selection and pencil mode are reset |
| Play.PencilTwice | src/Games/Sudoku/Sudoku.js:219-227 | entering the same pencil mark twice leaves board and notes as they were |
| Play.DeleteErasesClue | src/Games/Sudoku/Sudoku.js:248-262 | the as-written Delete key on a selected clue, in commit mode, takes a clue off a board that showed them all; the game stays started |
| Play.DeleteScenario | src/Games/Sudoku/Sudoku.js:164-183 | starting a game, selecting its first clue and pressing Delete, for every difficulty and every draw stream, leaves a started game whose board lacks a clue |
| Play.FirstClue | src/Games/Sudoku/Sudoku.js:326 | a puzzle with some clue has a first clue cell in row-major order, which the player can select |

## Left out

- Storage: `localStorage` for the high scores (`getHighScores`, `saveHighScores`) and `sessionStorage` for autosave and resume. This is I/O; `Scores.RecordScore` takes the stored list as a parameter and returns the new one.
- The timer (`setInterval`), the completion animation and the delayed screen change. These use the clock.
- The page-visibility pause, `handleResumeGame`, `handleResumeWithoutRestore` and the pause modal. These are I/O and UI.
- Screens (`screen`, `handleBack`), the player name, `highlightNum`, `formatTime`, and the rendering. These are UI. The completion test's `screen==="play"` guard is left out with them.
- The keydown listener registration. The digit keys reach `Play.Game.HandleInput`, and Backspace/Delete/"0" reach `Play.Game.ClearSelected`.
- `handleNewGame`: it only calls `startGame(difficulty)` again.
- `Math.random()`: modelled as a caller-supplied stream of draws, not as a random source.
- Search.Carve: loops at most `budget` times, because the source's `while` ends only with probability 1 when 0 <= clues <= 81. With clues < 0 the loop owes more than 81 removals and never ends. `startGame` only passes 26, 34 or 42. `left` counts the removals still owed when the budget runs out. The contract says `left` is 0 whenever every cell is drawn within the budget.
- Search.GeneratePuzzle: states the finished clue count only when every cell is drawn within the budget, for the same reason.
- Play.Game.StartGame: states the difficulty's clue count only when every cell is drawn within the budget, for the same reason. Its `next` output and ghost `from` only thread the draw stream.
- Rules.IsValid: requires a digit `v`. Every caller passes 1..9.
- Play.Game.HandleInput: requires a digit `num`. The digit keys and the number panel only pass "1".."9".
- The initial `solution` is `null` in the source and the empty grid here. Either way no board passes the completion test, since that test first demands a full board.
- The number panel's own guard in `handleNumClick` repeats `handleInput`'s guard and is not modelled separately.

## Findings

| source | as written | input that shows it | evidently intended | confidence | as-written member | corrected member |
|---|---|---|---|---|---|---|
| src/Games/Sudoku/Sudoku.js:248-262 | The Backspace/Delete/"0" handler checks only `selected[0] !== -1`. In commit mode it empties the selected cell without consulting `original`. | A started game with a clue cell selected, pencil mode off, and the Delete key pressed. The clue disappears from the board, although `handleInput` refuses to overwrite it. | Clue cells are read-only, as `handleInput` treats them (line 218): the key leaves a clue alone. | not executed | Play.Game.ClearSelected, shown by Play.DeleteErasesClue and Play.DeleteScenario | Play.Game.ClearSelectedGuarded |
