/** Cells, grids and the Sudoku constraint, as the engine in
    src/Games/Sudoku/Sudoku.js uses them. A cell holds 0 when it is empty
    (the source's "") and 1..9 when it holds a digit (the source's "1".."9").
    Grids here are values; the searches that work in place on an
    `array2<int>` are related to them through `ToGrid`. */
module SudokuGrid {

  type Grid = seq<seq<int>>

  /** The empty cell, "" in the source. */
  const Empty: int := 0

  predicate IsGrid(S: Grid) {
    |S| == 9 && forall i :: 0 <= i < 9 ==> |S[i]| == 9
  }

  predicate InRange(r: int, c: int) {
    0 <= r < 9 && 0 <= c < 9
  }

  predicate IsDigit(v: int) {
    1 <= v <= 9
  }

  /** Position of (r, c) in the row-major order 0..80 the filler walks. */
  function Index(r: int, c: int): int {
    9 * r + c
  }

  /** Both cells lie in the same 3×3 box, whose origin is (3⌊r/3⌋, 3⌊c/3⌋). */
  predicate SameBox(r: int, c: int, rr: int, cc: int) {
    rr / 3 == r / 3 && cc / 3 == c / 3
  }

  /** (rr, cc) lies in the row, the column or the box of (r, c), the cell itself included. */
  predicate SameUnit(r: int, c: int, rr: int, cc: int) {
    rr == r || cc == c || SameBox(r, c, rr, cc)
  }

  /** (rr, cc) is one of the 20 other cells that constrain (r, c). */
  predicate Peer(r: int, c: int, rr: int, cc: int) {
    SameUnit(r, c, rr, cc) && (rr != r || cc != c)
  }

  /** The all-empty grid (`emptyGrid` in the source). */
  function EmptyGrid(): (S: Grid)
    ensures IsGrid(S)
    ensures forall r, c :: InRange(r, c) ==> S[r][c] == Empty
  {
    seq(9, _ => seq(9, _ => Empty))
  }

  /** The value copy of a 9×9 array (`grid.map(row => row.slice())`). */
  function ToGrid(g: array2<int>): (S: Grid)
    reads g
    requires g.Length0 == 9 && g.Length1 == 9
    ensures IsGrid(S)
    ensures forall r, c :: InRange(r, c) ==> S[r][c] == g[r, c]
  {
    seq(9, r requires 0 <= r < 9 reads g => seq(9, c requires 0 <= c < 9 reads g => g[r, c]))
  }

  /** The grid with digit-or-empty value v written at (r, c). */
  function Place(S: Grid, r: int, c: int, v: int): (T: Grid)
    requires IsGrid(S) && InRange(r, c)
    ensures IsGrid(T)
  {
    S[r := S[r][c := v]]
  }

  /** No cell other than (r, c) in its row, column or box holds v. */
  ghost predicate NoPeerHolds(S: Grid, r: int, c: int, v: int)
    requires IsGrid(S)
  {
    forall rr, cc :: InRange(rr, cc) && Peer(r, c, rr, cc) ==> S[rr][cc] != v
  }

  /** Some cell of the row, column or box of (r, c), the cell itself included, holds v. */
  ghost predicate UsedInUnit(S: Grid, r: int, c: int, v: int)
    requires IsGrid(S)
  {
    exists rr, cc :: InRange(rr, cc) && SameUnit(r, c, rr, cc) && S[rr][cc] == v
  }

  /** Every cell is empty or holds a digit. */
  ghost predicate Cells(S: Grid)
    requires IsGrid(S)
  {
    forall r, c :: InRange(r, c) ==> S[r][c] == Empty || IsDigit(S[r][c])
  }

  /** Every cell holds a digit. */
  ghost predicate Full(S: Grid)
    requires IsGrid(S)
  {
    forall r, c :: InRange(r, c) ==> IsDigit(S[r][c])
  }

  /** No two peers hold the same digit. */
  ghost predicate ConflictFree(S: Grid)
    requires IsGrid(S)
  {
    forall r, c :: InRange(r, c) && S[r][c] != Empty ==> NoPeerHolds(S, r, c, S[r][c])
  }

  /** A finished Sudoku: every cell a digit, no digit twice in a row, column or box. */
  ghost predicate Solved(S: Grid) {
    IsGrid(S) && Full(S) && ConflictFree(S)
  }

  /** Every non-empty cell of P holds the same value in K (P's clues are K's). */
  ghost predicate Agrees(P: Grid, K: Grid)
    requires IsGrid(P) && IsGrid(K)
  {
    forall r, c :: InRange(r, c) && P[r][c] != Empty ==> P[r][c] == K[r][c]
  }

  /** Cell (r, c) of S is what a backtracking search started at index idx on G may
      leave there: cells it skips (non-empty, or before idx) keep G's value, every
      other cell holds a digit that no peer of the finished grid S repeats. */
  ghost predicate Completes(S: Grid, G: Grid, idx: int, r: int, c: int)
    requires IsGrid(S) && IsGrid(G) && InRange(r, c)
  {
    if G[r][c] != Empty || Index(r, c) < idx then S[r][c] == G[r][c]
    else IsDigit(S[r][c]) && NoPeerHolds(S, r, c, S[r][c])
  }

  /** S is a completion of G from index idx on. */
  ghost predicate Completion(S: Grid, G: Grid, idx: int)
    requires IsGrid(G)
  {
    IsGrid(S) && forall r, c :: InRange(r, c) ==> Completes(S, G, idx, r, c)
  }

  /** The cell at row-major position k. */
  function At(S: Grid, k: int): int
    requires IsGrid(S) && 0 <= k < 81
  {
    S[k / 9][k % 9]
  }

  /** Positions of the cells that hold v. */
  ghost function Holding(S: Grid, v: int): set<int>
    requires IsGrid(S)
  {
    set k | 0 <= k < 81 && At(S, k) == v
  }

  /** Positions of the non-empty cells. */
  ghost function Filled(S: Grid): set<int>
    requires IsGrid(S)
  {
    set k | 0 <= k < 81 && At(S, k) != Empty
  }

  /** Positions of the empty cells; a backtracking search shrinks this set. */
  ghost function Blanks(S: Grid): set<int>
    requires IsGrid(S)
  {
    set k | 0 <= k < 81 && At(S, k) == Empty
  }

  // ---------------------------------------------------------------------
  // Positions and grids

  lemma IndexInverse(r: int, c: int)
    requires InRange(r, c)
    ensures 0 <= Index(r, c) < 81
    ensures Index(r, c) / 9 == r && Index(r, c) % 9 == c
  {
  }

  /** The first row (or column) 3⌊r/3⌋ of the box band holding r, and its bounds. */
  lemma BandStart(r: int)
    requires 0 <= r < 9
    ensures 0 <= (r / 3) * 3 <= r < (r / 3) * 3 + 3 <= 9
  {
  }

  /** x lies in the band of r exactly when it lies between the band's bounds. */
  lemma BandMember(r: int, x: int)
    requires 0 <= r < 9 && 0 <= x < 9
    ensures x / 3 == r / 3 <==> (r / 3) * 3 <= x < (r / 3) * 3 + 3
  {
  }

  lemma PositionInverse(k: int)
    requires 0 <= k < 81
    ensures InRange(k / 9, k % 9) && Index(k / 9, k % 9) == k
  {
  }

  /** Two grids that agree cell by cell are equal. */
  lemma GridExt(S: Grid, T: Grid)
    requires IsGrid(S) && IsGrid(T)
    requires forall r, c :: InRange(r, c) ==> S[r][c] == T[r][c]
    ensures S == T
  {
    forall r | 0 <= r < 9
      ensures S[r] == T[r]
    {
      assert forall c :: 0 <= c < 9 ==> S[r][c] == T[r][c];
    }
  }

  /** The positions 0..n-1. */
  ghost function Upto(n: nat): set<int> {
    if n == 0 then {} else Upto(n - 1) + {n - 1}
  }

  lemma {:induction false} UptoSize(n: nat)
    ensures |Upto(n)| == n
    ensures forall k :: k in Upto(n) <==> 0 <= k < n
  {
    if n > 0 {
      UptoSize(n - 1);
    }
  }

  /** Every position is either filled or blank. */
  lemma FilledBlanks(S: Grid)
    requires IsGrid(S)
    ensures |Filled(S)| + |Blanks(S)| == 81
  {
    UptoSize(81);
    assert Filled(S) + Blanks(S) == Upto(81);
    assert Filled(S) * Blanks(S) == {};
  }

  /** A full grid has 81 non-empty cells. */
  lemma FullFilled(S: Grid)
    requires IsGrid(S) && Full(S)
    ensures |Filled(S)| == 81
  {
    forall k | 0 <= k < 81 ensures k !in Blanks(S) {
      PositionInverse(k);
    }
    assert Blanks(S) == {};
    FilledBlanks(S);
  }

  /** Emptying one non-empty cell removes exactly its position from the filled set. */
  lemma BlankOne(S: Grid, r: int, c: int)
    requires IsGrid(S) && InRange(r, c) && S[r][c] != Empty
    ensures Filled(Place(S, r, c, Empty)) == Filled(S) - {Index(r, c)}
    ensures |Filled(Place(S, r, c, Empty))| == |Filled(S)| - 1
  {
    IndexInverse(r, c);
    var T := Place(S, r, c, Empty);
    forall k | 0 <= k < 81
      ensures At(T, k) == if k == Index(r, c) then Empty else At(S, k)
    {
      PositionInverse(k);
    }
    assert Filled(T) == Filled(S) - {Index(r, c)};
  }

  /** Writing a digit into an empty cell removes exactly its position from the blanks. */
  lemma FillOne(S: Grid, r: int, c: int, v: int)
    requires IsGrid(S) && InRange(r, c) && S[r][c] == Empty && v != Empty
    ensures Blanks(Place(S, r, c, v)) == Blanks(S) - {Index(r, c)}
    ensures Index(r, c) in Blanks(S)
  {
    IndexInverse(r, c);
    var T := Place(S, r, c, v);
    forall k | 0 <= k < 81
      ensures At(T, k) == if k == Index(r, c) then v else At(S, k)
    {
      PositionInverse(k);
    }
  }

  // ---------------------------------------------------------------------
  // Completions: what a backtracking search may produce

  /** The cell at index idx is skipped by a search started at idx when it is
      already filled, so starting one index later changes nothing. */
  lemma CompletionShift(S: Grid, G: Grid, idx: int)
    requires IsGrid(G) && 0 <= idx < 81
    requires G[idx / 9][idx % 9] != Empty
    ensures Completion(S, G, idx) <==> Completion(S, G, idx + 1)
  {
    if IsGrid(S) {
      forall r, c | InRange(r, c)
        ensures Completes(S, G, idx, r, c) <==> Completes(S, G, idx + 1, r, c)
      {
        if Index(r, c) == idx {
          IndexInverse(r, c);
        }
      }
    }
  }

  /** The search has reached index 81, or found no empty cell: the grid itself is
      its only completion. */
  lemma CompletionOfFilled(G: Grid, idx: int)
    requires IsGrid(G)
    requires forall r, c :: InRange(r, c) ==> G[r][c] != Empty || Index(r, c) < idx
    ensures Completion(G, G, idx)
  {
  }

  /** In a completion, the digit at an empty cell would pass the legality check on G. */
  lemma CompletionLegal(S: Grid, G: Grid, idx: int, r: int, c: int)
    requires IsGrid(G) && Completion(S, G, idx) && InRange(r, c)
    requires G[r][c] == Empty && Index(r, c) >= idx
    ensures IsDigit(S[r][c]) && NoPeerHolds(G, r, c, S[r][c])
  {
    assert Completes(S, G, idx, r, c);
    forall rr, cc | InRange(rr, cc) && Peer(r, c, rr, cc)
      ensures G[rr][cc] != S[r][c]
    {
      assert Completes(S, G, idx, rr, cc);
    }
  }

  /** Soundness of one placement: a legal digit placed at an empty cell, followed by a
      completion of the new grid, is a completion of the old one. */
  lemma PlaceSound(S: Grid, G: Grid, idx: int, r: int, c: int, v: int)
    requires IsGrid(G) && InRange(r, c) && G[r][c] == Empty && Index(r, c) >= idx
    requires IsDigit(v) && NoPeerHolds(G, r, c, v)
    requires Completion(S, Place(G, r, c, v), idx)
    ensures Completion(S, G, idx)
  {
    var H := Place(G, r, c, v);
    assert Completes(S, H, idx, r, c);
    forall rr, cc | InRange(rr, cc)
      ensures Completes(S, G, idx, rr, cc)
    {
      assert Completes(S, H, idx, rr, cc);
      if rr == r && cc == c {
        forall r2, c2 | InRange(r2, c2) && Peer(r, c, r2, c2)
          ensures S[r2][c2] != v
        {
          assert Completes(S, H, idx, r2, c2);
          if H[r2][c2] == Empty && Index(r2, c2) >= idx {
            assert Peer(r2, c2, r, c);
          }
        }
      }
    }
  }

  /** Completeness of one placement: a completion of G that puts v at (r, c) is a
      completion of G with v placed there. */
  lemma PlaceComplete(S: Grid, G: Grid, idx: int, r: int, c: int, v: int)
    requires IsGrid(G) && InRange(r, c) && G[r][c] == Empty && Index(r, c) >= idx
    requires Completion(S, G, idx) && S[r][c] == v
    ensures Completion(S, Place(G, r, c, v), idx)
  {
    var H := Place(G, r, c, v);
    forall rr, cc | InRange(rr, cc)
      ensures Completes(S, H, idx, rr, cc)
    {
      assert Completes(S, G, idx, rr, cc);
    }
  }

  /** A solved grid whose values extend P's clues is a completion of P. */
  lemma SolvedCompletes(K: Grid, P: Grid)
    requires IsGrid(P) && Solved(K) && Agrees(P, K)
    ensures Completion(K, P, 0)
  {
    forall r, c | InRange(r, c)
      ensures Completes(K, P, 0, r, c)
    {
      assert IsDigit(K[r][c]);
    }
  }

  /** Clues copied from a solved grid never conflict with each other. */
  lemma AgreesConflictFree(P: Grid, K: Grid)
    requires IsGrid(P) && Solved(K) && Agrees(P, K)
    ensures ConflictFree(P)
  {
    forall r, c | InRange(r, c) && P[r][c] != Empty
      ensures NoPeerHolds(P, r, c, P[r][c])
    {
      assert NoPeerHolds(K, r, c, K[r][c]);
    }
  }

  /** A completion from index 0 of a conflict-free grid is a solved grid that keeps
      every clue. */
  lemma CompletionSolved(S: Grid, G: Grid)
    requires IsGrid(G) && Cells(G) && ConflictFree(G) && Completion(S, G, 0)
    ensures Solved(S) && Agrees(G, S)
  {
    forall r, c | InRange(r, c)
      ensures IsDigit(S[r][c]) && NoPeerHolds(S, r, c, S[r][c])
    {
      assert Completes(S, G, 0, r, c);
      if G[r][c] != Empty {
        assert NoPeerHolds(G, r, c, G[r][c]);
        forall rr, cc | InRange(rr, cc) && Peer(r, c, rr, cc)
          ensures S[rr][cc] != S[r][c]
        {
          assert Completes(S, G, 0, rr, cc);
          if G[rr][cc] == Empty {
            assert Peer(rr, cc, r, c);
          }
        }
      }
    }
  }

  // ---------------------------------------------------------------------
  // A solved grid exists, and solved grids use every digit in every unit

  function Shift(r: int): int {
    3 * (r % 3) + r / 3
  }

  /** A fixed solved grid: cell (r, c) holds ((3(r mod 3) + ⌊r/3⌋ + c) mod 9) + 1. */
  function Witness(): (S: Grid)
    ensures IsGrid(S)
  {
    seq(9, r => seq(9, c => (Shift(r) + c) % 9 + 1))
  }

  lemma ModDistinct(a: int, b: int)
    requires 0 <= a <= 16 && 0 <= b <= 16
    requires a != b && a - b != 9 && b - a != 9
    ensures a % 9 != b % 9
  {
    if a >= 9 { assert a % 9 == a - 9; } else { assert a % 9 == a; }
    if b >= 9 { assert b % 9 == b - 9; } else { assert b % 9 == b; }
  }

  lemma WitnessPeersDiffer(r: int, c: int, rr: int, cc: int)
    requires InRange(r, c) && InRange(rr, cc) && Peer(r, c, rr, cc)
    ensures Witness()[r][c] != Witness()[rr][cc]
  {
    var a, b := Shift(r) + c, Shift(rr) + cc;
    assert r == 3 * (r / 3) + r % 3 && rr == 3 * (rr / 3) + rr % 3;
    if rr == r {
    } else if cc == c {
      assert Shift(r) != Shift(rr);
    } else {
      assert c == 3 * (c / 3) + c % 3 && cc == 3 * (cc / 3) + cc % 3;
    }
    ModDistinct(a, b);
  }

  lemma WitnessSolved()
    ensures Solved(Witness())
  {
    var W := Witness();
    forall r, c | InRange(r, c)
      ensures IsDigit(W[r][c]) && NoPeerHolds(W, r, c, W[r][c])
    {
      forall rr, cc | InRange(rr, cc) && Peer(r, c, rr, cc)
        ensures W[rr][cc] != W[r][c]
      {
        WitnessPeersDiffer(r, c, rr, cc);
      }
    }
  }

  /** The empty grid has a completion, so a complete backtracking search from it
      cannot fail. */
  lemma EmptyHasCompletion()
    ensures Completion(Witness(), EmptyGrid(), 0)
  {
    WitnessSolved();
    SolvedCompletes(Witness(), EmptyGrid());
  }

  /** A sequence of distinct values drawn from A is no longer than A is large. */
  lemma {:induction false} DistinctBound(s: seq<int>, A: set<int>)
    requires forall i, j :: 0 <= i < j < |s| ==> s[i] != s[j]
    requires forall i :: 0 <= i < |s| ==> s[i] in A
    ensures |s| <= |A|
  {
    if |s| > 0 {
      forall i | 0 <= i < |s| - 1 ensures s[1..][i] in A - {s[0]} {
        assert s[1..][i] == s[i + 1];
      }
      DistinctBound(s[1..], A - {s[0]});
    }
  }

  /** Nine distinct digits are all nine digits. */
  lemma NineDistinctDigits(s: seq<int>, d: int)
    requires |s| == 9 && IsDigit(d)
    requires forall i :: 0 <= i < 9 ==> IsDigit(s[i])
    requires forall i, j :: 0 <= i < j < 9 ==> s[i] != s[j]
    ensures d in s
  {
    if d !in s {
      var A := {1, 2, 3, 4, 5, 6, 7, 8, 9} - {d};
      assert |A| == 8;
      DistinctBound(s, A);
    }
  }

  function Row(S: Grid, r: int): seq<int>
    requires IsGrid(S) && 0 <= r < 9
  {
    S[r]
  }

  function Column(S: Grid, c: int): seq<int>
    requires IsGrid(S) && 0 <= c < 9
  {
    seq(9, i requires 0 <= i < 9 => S[i][c])
  }

  /** The box whose top-left cell is (3⌊b/3⌋, 3(b mod 3)), read row by row. */
  function Box(S: Grid, b: int): seq<int>
    requires IsGrid(S) && 0 <= b < 9
  {
    seq(9, k requires 0 <= k < 9 => S[3 * (b / 3) + k / 3][3 * (b % 3) + k % 3])
  }

  /** Every row, column and box of a solved grid holds each digit 1..9 exactly once. */
  lemma SolvedUnits(S: Grid, u: int, d: int)
    requires Solved(S) && 0 <= u < 9 && IsDigit(d)
    ensures d in Row(S, u) && d in Column(S, u) && d in Box(S, u)
    ensures forall i, j :: 0 <= i < j < 9 ==>
      Row(S, u)[i] != Row(S, u)[j] && Column(S, u)[i] != Column(S, u)[j] && Box(S, u)[i] != Box(S, u)[j]
  {
    RowDistinct(S, u);
    ColumnDistinct(S, u);
    BoxDistinct(S, u);
    NineDistinctDigits(Row(S, u), d);
    NineDistinctDigits(Column(S, u), d);
    NineDistinctDigits(Box(S, u), d);
  }

  lemma RowDistinct(S: Grid, u: int)
    requires Solved(S) && 0 <= u < 9
    ensures forall i :: 0 <= i < 9 ==> IsDigit(Row(S, u)[i])
    ensures forall i, j :: 0 <= i < j < 9 ==> Row(S, u)[i] != Row(S, u)[j]
  {
    forall i, j | 0 <= i < j < 9 ensures S[u][i] != S[u][j] {
      assert NoPeerHolds(S, u, i, S[u][i]);
    }
  }

  lemma ColumnDistinct(S: Grid, u: int)
    requires Solved(S) && 0 <= u < 9
    ensures forall i :: 0 <= i < 9 ==> IsDigit(Column(S, u)[i])
    ensures forall i, j :: 0 <= i < j < 9 ==> Column(S, u)[i] != Column(S, u)[j]
  {
    forall i, j | 0 <= i < j < 9 ensures S[i][u] != S[j][u] {
      assert NoPeerHolds(S, i, u, S[i][u]);
    }
  }

  lemma BoxDistinct(S: Grid, u: int)
    requires Solved(S) && 0 <= u < 9
    ensures forall i :: 0 <= i < 9 ==> IsDigit(Box(S, u)[i])
    ensures forall i, j :: 0 <= i < j < 9 ==> Box(S, u)[i] != Box(S, u)[j]
  {
    var B := Box(S, u);
    var br, bc := 3 * (u / 3), 3 * (u % 3);
    forall i | 0 <= i < 9 ensures IsDigit(B[i]) {
      BoxCell(u, i);
    }
    forall i, j | 0 <= i < j < 9 ensures B[i] != B[j] {
      BoxCell(u, i);
      BoxCell(u, j);
      var r, c := br + i / 3, bc + i % 3;
      assert NoPeerHolds(S, r, c, S[r][c]);
      assert Peer(r, c, br + j / 3, bc + j % 3);
    }
  }

  /** The k-th cell of box b lies in the grid and in that box; distinct k give
      distinct cells. */
  lemma BoxCell(b: int, k: int)
    requires 0 <= b < 9 && 0 <= k < 9
    ensures InRange(3 * (b / 3) + k / 3, 3 * (b % 3) + k % 3)
    ensures SameBox(3 * (b / 3), 3 * (b % 3), 3 * (b / 3) + k / 3, 3 * (b % 3) + k % 3)
    ensures forall j :: 0 <= j < 9 && j != k ==> (j / 3, j % 3) != (k / 3, k % 3)
  {
  }
}
