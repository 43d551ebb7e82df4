/** The play-time rules of the `Sudoku` component in src/Games/Sudoku/Sudoku.js:
    starting a game, selecting a cell, entering a digit or a pencil mark, the
    Delete/Backspace key, restarting, the completion test and `countNum`. The
    component copies its arrays before every state update, so the board, the
    clues, the solution and the notes are values held in the fields of `Game`. */
module Play {
  import opened SudokuGrid
  import opened Rules
  import opened Search

  datatype Difficulty = Easy | Medium | Hard

  /** The clue count `startGame` asks `generatePuzzle` for. */
  function CluesFor(d: Difficulty): (n: int)
    ensures 0 <= n <= 81
    ensures d == Easy ==> n == 42
    ensures d == Medium ==> n == 34
    ensures d == Hard ==> n == 26
  {
    match d
    case Easy => 42
    case Medium => 34
    case Hard => 26
  }

  /** Pencil marks: a set of digits per cell. */
  type Notes = seq<seq<set<int>>>

  predicate IsNotes(ns: Notes) {
    |ns| == 9 && forall r :: 0 <= r < 9 ==> |ns[r]| == 9
  }

  /** `emptyNotes()`. */
  function EmptyNotes(): (ns: Notes)
    ensures IsNotes(ns)
    ensures forall r, c :: InRange(r, c) ==> ns[r][c] == {}
  {
    seq(9, _ => seq(9, _ => {}))
  }

  /** `copy[r][c].has(n) ? copy[r][c].delete(n) : copy[r][c].add(n)`. */
  function ToggleNote(ns: Notes, r: int, c: int, n: int): (t: Notes)
    requires IsNotes(ns) && InRange(r, c)
    ensures IsNotes(t)
    ensures n in t[r][c] <==> n !in ns[r][c]
    ensures forall x :: x != n ==> (x in t[r][c] <==> x in ns[r][c])
    ensures forall rr, cc :: InRange(rr, cc) && (rr != r || cc != c) ==> t[rr][cc] == ns[rr][cc]
  {
    var s := ns[r][c];
    ns[r := ns[r][c := if n in s then s - {n} else s + {n}]]
  }

  /** `copy[r][c].clear()`. */
  function ClearNote(ns: Notes, r: int, c: int): (t: Notes)
    requires IsNotes(ns) && InRange(r, c)
    ensures IsNotes(t)
    ensures t[r][c] == {}
    ensures forall rr, cc :: InRange(rr, cc) && (rr != r || cc != c) ==> t[rr][cc] == ns[rr][cc]
  {
    ns[r := ns[r][c := {}]]
  }

  /** Toggling the same mark twice restores the notes. */
  lemma ToggleTwice(ns: Notes, r: int, c: int, n: int)
    requires IsNotes(ns) && InRange(r, c)
    ensures ToggleNote(ToggleNote(ns, r, c, n), r, c, n) == ns
  {
    var t := ToggleNote(ToggleNote(ns, r, c, n), r, c, n);
    assert t[r][c] == ns[r][c];
    assert t[r] == ns[r];
  }

  /** Every clue of `original` still stands on the board. */
  ghost predicate CluesIntact(board: Grid, original: Grid)
    requires IsGrid(board) && IsGrid(original)
  {
    forall r, c :: InRange(r, c) && original[r][c] != Empty ==> board[r][c] == original[r][c]
  }

  /** The completion test: `board.every(r => r.every(c => c !== ""))` and
      `JSON.stringify(board) === JSON.stringify(solution)`. It holds exactly when the
      board is the key and the key has no blank cell. */
  predicate IsComplete(board: Grid, solution: Grid): (done: bool)
    requires IsGrid(board) && IsGrid(solution)
    ensures done <==> board == solution && Blanks(solution) == {}
  {
    NoBlanks(board);
    NoBlanks(solution);
    (forall r, c :: 0 <= r < 9 && 0 <= c < 9 ==> board[r][c] != Empty) && board == solution
  }

  /** A grid has no blank position exactly when every cell is non-empty. */
  lemma NoBlanks(S: Grid)
    requires IsGrid(S)
    ensures Blanks(S) == {} <==> forall r, c :: InRange(r, c) ==> S[r][c] != Empty
  {
    if Blanks(S) == {} {
      forall r, c | InRange(r, c) ensures S[r][c] != Empty {
        IndexInverse(r, c);
        assert Index(r, c) !in Blanks(S);
      }
    } else {
      var k :| k in Blanks(S);
      PositionInverse(k);
    }
  }

  /** Against a solved key, the first half of the completion test is implied by the
      second: the board is complete exactly when it equals the key, and it is then
      itself solved and keeps the clues of any puzzle the key extends. */
  lemma CompleteIffSolution(board: Grid, solution: Grid, original: Grid)
    requires IsGrid(board) && IsGrid(original) && Solved(solution) && Agrees(original, solution)
    ensures IsComplete(board, solution) <==> board == solution
    ensures IsComplete(board, solution) ==> Solved(board) && CluesIntact(board, original)
  {
    if board == solution {
      forall r, c | InRange(r, c) ensures board[r][c] != Empty {
        assert IsDigit(solution[r][c]);
      }
    }
  }

  /** Before any game has started the key is empty, and no board passes the test. */
  lemma NeverCompleteBeforeStart(board: Grid)
    requires IsGrid(board)
    ensures !IsComplete(board, EmptyGrid())
  {
    assert EmptyGrid()[0][0] == Empty;
  }

  // ---------------------------------------------------------------------
  // countNum

  /** `y === String(v)`: the cell shows the number v. No number prints as "", so
      an empty cell matches no v, 0 included. */
  predicate Shows(y: int, v: int) {
    v != Empty && y == v
  }

  /** `row.reduce((x, y) => x + (y === String(v) ? 1 : 0), 0)`: the occurrences of
      v in the row, and none at all for v = 0. */
  function CountIn(row: seq<int>, v: int): (k: nat)
    ensures k == if v == Empty then 0 else multiset(row)[v]
  {
    if row == [] then 0
    else
      assert row == row[..|row| - 1] + [row[|row| - 1]];
      CountIn(row[..|row| - 1], v) + (if Shows(row[|row| - 1], v) then 1 else 0)
  }

  /** The outer `reduce` over the first i rows: the number of positions below 9i
      whose cell holds v, and 0 for v = 0. */
  function CountRows(board: Grid, v: int, i: int): (k: nat)
    requires IsGrid(board) && 0 <= i <= 9
    ensures k == if v == Empty then 0 else |HoldingBelow(board, v, 9 * i)|
  {
    if i == 0 then
      assert HoldingBelow(board, v, 0) == {};
      0
    else
      RowPrefix(board, v, i - 1, 9);
      assert board[i - 1][..9] == board[i - 1];
      CountRows(board, v, i - 1) + CountIn(board[i - 1], v)
  }

  /** `countNum(v)`: the number of cells holding v; 0 for v = 0, which no cell
      matches. */
  function CountNum(board: Grid, v: int): (k: nat)
    requires IsGrid(board)
    ensures k == if v == Empty then 0 else |Holding(board, v)|
  {
    assert HoldingBelow(board, v, 81) == Holding(board, v);
    CountRows(board, v, 9)
  }

  /** The positions below m whose cell holds v. */
  ghost function HoldingBelow(S: Grid, v: int, m: int): set<int>
    requires IsGrid(S) && 0 <= m <= 81
  {
    set k | 0 <= k < m && At(S, k) == v
  }

  /** For v other than 0, the inner `reduce` over the first j cells of row i counts
      the positions from 9i to 9i + j - 1 whose cell holds v. */
  lemma {:induction false} RowPrefix(S: Grid, v: int, i: int, j: int)
    requires IsGrid(S) && 0 <= i < 9 && 0 <= j <= 9
    ensures v != Empty ==> |HoldingBelow(S, v, 9 * i + j)| == |HoldingBelow(S, v, 9 * i)| + CountIn(S[i][..j], v)
  {
    if j > 0 {
      RowPrefix(S, v, i, j - 1);
      HoldingStep(S, v, 9 * i + j - 1);
      IndexInverse(i, j - 1);
      assert S[i][..j][..j - 1] == S[i][..j - 1];
    }
  }

  /** Position m adds one to the count below m + 1 exactly when its cell holds v. */
  lemma HoldingStep(S: Grid, v: int, m: int)
    requires IsGrid(S) && 0 <= m < 81
    ensures |HoldingBelow(S, v, m + 1)| == |HoldingBelow(S, v, m)| + if At(S, m) == v then 1 else 0
  {
    if At(S, m) == v {
      assert HoldingBelow(S, v, m + 1) == HoldingBelow(S, v, m) + {m};
    } else {
      assert HoldingBelow(S, v, m + 1) == HoldingBelow(S, v, m);
    }
  }

  /** On a solved board every digit appears nine times, so the number panel marks
      every digit done. */
  lemma SolvedAllDone(S: Grid, d: int)
    requires Solved(S) && IsDigit(d)
    ensures CountNum(S, d) == 9
  {
    RowsOnce(S, d, 9);
  }

  lemma {:induction false} RowsOnce(S: Grid, d: int, i: int)
    requires Solved(S) && IsDigit(d) && 0 <= i <= 9
    ensures CountRows(S, d, i) == i
  {
    if i > 0 {
      RowsOnce(S, d, i - 1);
      SolvedUnits(S, i - 1, d);
      DistinctOnce(S[i - 1], d);
    }
  }

  /** A value of a sequence without repetitions occurs in it once. */
  lemma {:induction false} DistinctOnce(s: seq<int>, d: int)
    requires d in s
    requires forall i, j :: 0 <= i < j < |s| ==> s[i] != s[j]
    ensures multiset(s)[d] == 1
  {
    assert s == [s[0]] + s[1..];
    if s[0] == d {
      assert d !in s[1..];
    } else {
      DistinctOnce(s[1..], d);
    }
  }

  // ---------------------------------------------------------------------
  // The component state

  class Game {
    var board: Grid
    var original: Grid
    var solution: Grid
    /** `puzzleSeed`, the puzzle Restart returns to. */
    var seed: Grid
    var notes: Notes
    var selected: (int, int)
    var pencil: bool

    ghost predicate Valid()
      reads this
    {
      IsGrid(board) && IsGrid(original) && IsGrid(solution) && IsGrid(seed) && IsNotes(notes)
      && Cells(board)
      && (selected == (-1, -1) || InRange(selected.0, selected.1))
    }

    /** A game is under way: the key is solved, extends the clues, and Restart
        returns to the clues. */
    ghost predicate Started()
      reads this
      requires Valid()
    {
      Solved(solution) && Agrees(original, solution) && seed == original
    }

    /** The initial state: empty board and clues, no key (`null`, here the empty
        grid), nothing selected, pencil off. */
    constructor ()
      ensures Valid()
      ensures board == EmptyGrid() && original == EmptyGrid() && solution == EmptyGrid()
      ensures notes == EmptyNotes() && selected == (-1, -1) && !pencil
    {
      board := EmptyGrid();
      original := EmptyGrid();
      solution := EmptyGrid();
      seed := EmptyGrid();
      notes := EmptyNotes();
      selected := (-1, -1);
      pencil := false;
    }

    /** `startGame(diff)`: generate a puzzle with the difficulty's clue count, solve
        a copy of it for the key, and reset the board, notes, selection and pencil
        mode. The solver never fails here, since the filler's grid completes the
        puzzle; the key it finds is the solution extending the clues that comes
        first in row-major order of the cell values. Carving reads
        the draws from `from` on, the first draw the filler left unread. */
    method StartGame(diff: Difficulty, rand: nat -> Draw, cur: nat, budget: nat)
        returns (left: int, next: nat, ghost from: nat)
      modifies this
      ensures Valid() && Started()
      ensures board == original && CluesIntact(board, original)
      ensures LeastCompletion(solution, original)
      ensures |Filled(original)| == CluesFor(diff) + left && 0 <= left
      ensures cur <= from && (DrawsEveryCell(rand, from, budget) ==> left == 0)
      ensures notes == EmptyNotes() && selected == (-1, -1) && !pencil
    {
      var clues := CluesFor(diff);
      var puzzle;
      ghost var full;
      puzzle, left, next, full, from := GeneratePuzzle(clues, rand, cur, budget);
      var solved := new int[9, 9]((i, j) reads puzzle requires 0 <= i < 9 && 0 <= j < 9 => puzzle[i, j]);
      var P := ToGrid(puzzle);
      GridExt(ToGrid(solved), P);
      SolvedCompletes(full, P);
      var ok := SolveBoard(solved);
      assert ok;
      AgreesConflictFree(P, full);
      forall r, c | InRange(r, c) ensures P[r][c] == Empty || IsDigit(P[r][c]) {
        assert P[r][c] != Empty ==> P[r][c] == full[r][c];
      }
      CompletionSolved(ToGrid(solved), P);
      solution := ToGrid(solved);
      original := P;
      board := P;
      seed := P;
      notes := EmptyNotes();
      selected := (-1, -1);
      pencil := false;
    }

    /** `selectCell(r, c)`. */
    method SelectCell(r: int, c: int)
      requires Valid() && InRange(r, c)
      modifies this
      ensures Valid() && selected == (r, c)
      ensures board == old(board) && original == old(original) && solution == old(solution)
      ensures seed == old(seed) && notes == old(notes) && pencil == old(pencil)
    {
      selected := (r, c);
    }

    /** The pencil button: `setPencil(p => !p)`. */
    method TogglePencil()
      requires Valid()
      modifies this
      ensures Valid() && pencil == !old(pencil)
      ensures board == old(board) && original == old(original) && solution == old(solution)
      ensures seed == old(seed) && notes == old(notes) && selected == old(selected)
    {
      pencil := !pencil;
    }

    /** A cell is selected and it is not a clue. */
    ghost predicate Editable()
      reads this
      requires Valid()
    {
      selected.0 != -1 && selected.1 != -1 && original[selected.0][selected.1] == Empty
    }

    /** `handleInput(num)`: nothing happens without a selection or on a clue. In
        pencil mode num is toggled in the cell's notes when it is among the cell's
        candidates; otherwise the notes stay. In commit mode num is written to the
        cell and the cell's notes are cleared. */
    method HandleInput(num: int)
      requires Valid() && IsDigit(num)
      modifies this
      ensures Valid()
      ensures original == old(original) && solution == old(solution) && seed == old(seed)
      ensures selected == old(selected) && pencil == old(pencil)
      ensures !old(Editable()) ==> board == old(board) && notes == old(notes)
      ensures old(Editable()) && pencil ==>
        board == old(board) &&
        notes == if UsedInUnit(board, selected.0, selected.1, num) then old(notes)
                 else ToggleNote(old(notes), selected.0, selected.1, num)
      ensures old(Editable()) && !pencil ==>
        board == Place(old(board), selected.0, selected.1, num) &&
        notes == ClearNote(old(notes), selected.0, selected.1)
      ensures old(CluesIntact(board, original)) ==> CluesIntact(board, original)
    {
      var (r, c) := selected;
      if r == -1 || c == -1 || original[r][c] != Empty {
        return;
      }
      if pencil {
        var allowed := Candidates(board, r, c);
        if num in allowed {
          notes := ToggleNote(notes, r, c, num);
        }
      } else {
        board := Place(board, r, c, num);
        notes := ClearNote(notes, r, c);
      }
    }

    /** The Backspace/Delete/"0" key, as written: with a cell selected, pencil mode
        clears the cell's notes and commit mode empties the cell. Only `selected[0]`
        is tested, and `original` is not consulted, so a clue can be erased. */
    method ClearSelected()
      requires Valid()
      modifies this
      ensures Valid()
      ensures original == old(original) && solution == old(solution) && seed == old(seed)
      ensures selected == old(selected) && pencil == old(pencil)
      ensures old(selected).0 == -1 ==> board == old(board) && notes == old(notes)
      ensures old(selected).0 != -1 && pencil ==>
        board == old(board) && notes == ClearNote(old(notes), selected.0, selected.1)
      ensures old(selected).0 != -1 && !pencil ==>
        board == Place(old(board), selected.0, selected.1, Empty) && notes == old(notes)
    {
      if selected.0 != -1 {
        var (r, c) := selected;
        if pencil {
          notes := ClearNote(notes, r, c);
        } else {
          board := Place(board, r, c, Empty);
        }
      }
    }

    /** The key handler with the clue guard `handleInput` has: a clue cell is left
        alone, so every clue stays on the board. */
    method ClearSelectedGuarded()
      requires Valid()
      modifies this
      ensures Valid()
      ensures original == old(original) && solution == old(solution) && seed == old(seed)
      ensures selected == old(selected) && pencil == old(pencil)
      ensures !old(Editable()) ==> board == old(board) && notes == old(notes)
      ensures old(Editable()) && pencil ==>
        board == old(board) && notes == ClearNote(old(notes), selected.0, selected.1)
      ensures old(Editable()) && !pencil ==>
        board == Place(old(board), selected.0, selected.1, Empty) && notes == old(notes)
      ensures old(CluesIntact(board, original)) ==> CluesIntact(board, original)
    {
      var (r, c) := selected;
      if r == -1 || c == -1 || original[r][c] != Empty {
        return;
      }
      if pencil {
        notes := ClearNote(notes, r, c);
      } else {
        board := Place(board, r, c, Empty);
      }
    }

    /** `handleRestart()`: the board goes back to the puzzle, notes are emptied,
        the selection and pencil mode are reset. Every clue stands again. */
    method Restart()
      requires Valid() && Started()
      modifies this
      ensures Valid() && Started()
      ensures board == old(seed) && CluesIntact(board, original)
      ensures notes == EmptyNotes() && selected == (-1, -1) && !pencil
      ensures original == old(original) && solution == old(solution) && seed == old(seed)
    {
      board := seed;
      notes := EmptyNotes();
      selected := (-1, -1);
      pencil := false;
      assert Cells(board) by {
        forall r, c | InRange(r, c) ensures board[r][c] == Empty || IsDigit(board[r][c]) {
          assert board[r][c] != Empty ==> board[r][c] == solution[r][c];
        }
      }
    }
  }

  /** Entering the same pencil mark twice, with the board untouched in between,
      leaves the notes as they were. */
  method PencilTwice(game: Game, num: int)
    requires game.Valid() && game.pencil && IsDigit(num)
    modifies game
    ensures game.Valid() && game.board == old(game.board) && game.notes == old(game.notes)
  {
    game.HandleInput(num);
    game.HandleInput(num);
    if old(game.Editable()) {
      ToggleTwice(old(game.notes), game.selected.0, game.selected.1, num);
    }
  }

  /** The as-written Delete key on a selected clue cell in commit mode erases the
      clue from a board that showed every clue. */
  method DeleteErasesClue(game: Game)
    requires game.Valid() && game.Started() && CluesIntact(game.board, game.original)
    requires !game.pencil && game.selected.0 != -1
    requires game.original[game.selected.0][game.selected.1] != Empty
    modifies game
    ensures game.Valid() && game.Started() && !CluesIntact(game.board, game.original)
  {
    game.ClearSelected();
    assert game.board[game.selected.0][game.selected.1] == Empty;
  }

  /** The erasure through the component's own operations: start a game of any
      difficulty, select its first clue, press Delete. Every puzzle has at least
      26 clues, so there is a clue to select. */
  method DeleteScenario(diff: Difficulty, rand: nat -> Draw, cur: nat, budget: nat) returns (game: Game)
    ensures fresh(game) && game.Valid() && game.Started()
    ensures !CluesIntact(game.board, game.original)
  {
    game := new Game();
    var left, next;
    ghost var from;
    left, next, from := game.StartGame(diff, rand, cur, budget);
    var r, c := FirstClue(game.original);
    game.SelectCell(r, c);
    DeleteErasesClue(game);
  }

  /** The first non-empty cell of a grid with some clue, in row-major order. */
  method FirstClue(P: Grid) returns (r: int, c: int)
    requires IsGrid(P) && |Filled(P)| > 0
    ensures InRange(r, c) && P[r][c] != Empty
    ensures forall r2, c2 :: InRange(r2, c2) && (r2 < r || (r2 == r && c2 < c)) ==> P[r2][c2] == Empty
  {
    for i := 0 to 9
      invariant forall r2, c2 :: InRange(r2, c2) && r2 < i ==> P[r2][c2] == Empty
    {
      for j := 0 to 9
        invariant forall r2, c2 :: InRange(r2, c2) && (r2 < i || (r2 == i && c2 < j)) ==> P[r2][c2] == Empty
      {
        if P[i][j] != Empty {
          return i, j;
        }
      }
    }
    NoneFilled(P);
    assert false;
  }
}
