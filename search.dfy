/** Puzzle generation in src/Games/Sudoku/Sudoku.js: `shuffle`, the backtracking
    filler `fill` and the carving loop of `generatePuzzle`, and the in-place
    solver `solveBoard`. Every `Math.random()` call reads the next value of a
    caller-supplied stream `rand`, so each contract holds for every outcome of
    the random draws. */
module Search {
  import opened SudokuGrid
  import opened Rules

  /** One value of `Math.random()`. */
  type Draw = x: real | 0.0 <= x < 1.0

  /** `Math.floor(Math.random() * n)`. */
  function Pick(x: Draw, n: nat): (j: nat)
    requires n > 0
    ensures j < n
  {
    assert 0.0 <= x * n as real < n as real by {
      assert (1.0 - x) * (n as real) > 0.0;
    }
    (x * n as real).Floor
  }

  /** `shuffle(arr)`: Fisher–Yates from the last position down to 1, reading one
      draw per swap, starting at rand(cur); `next` is the first unread draw. */
  method Shuffle(a: array<int>, rand: nat -> Draw, cur: nat) returns (next: nat)
    modifies a
    ensures multiset(a[..]) == old(multiset(a[..]))
    ensures next == cur + (if a.Length == 0 then 0 else a.Length - 1)
  {
    next := cur;
    var i := a.Length - 1;
    while i > 0
      invariant -1 <= i < a.Length && (a.Length > 0 ==> i >= 0)
      invariant next == cur + (a.Length - 1 - i)
      invariant multiset(a[..]) == old(multiset(a[..]))
    {
      var j := Pick(rand(next), i + 1);
      a[i], a[j] := a[j], a[i];
      next := next + 1;
      i := i - 1;
    }
  }

  /** Some completion of G from idx exists. */
  ghost predicate Completable(G: Grid, idx: int)
    requires IsGrid(G)
  {
    exists S :: Completion(S, G, idx)
  }

  /** No completion of G from idx holds v at (r, c). */
  ghost predicate Excluded(G: Grid, idx: int, r: int, c: int, v: int)
    requires IsGrid(G) && InRange(r, c)
  {
    forall S {:trigger Completion(S, G, idx)} :: Completion(S, G, idx) ==> S[r][c] != v
  }

  /** S comes no later than T in row-major lexicographic order of the cell values. */
  ghost predicate LexAtMost(S: Grid, T: Grid) {
    IsGrid(S) && IsGrid(T) &&
    (S == T || exists k :: 0 <= k < 81 && At(S, k) < At(T, k) && forall j :: 0 <= j < k ==> At(S, j) == At(T, j))
  }

  /** S is the least completion of G from index 0 in that order. */
  ghost predicate LeastCompletion(S: Grid, G: Grid)
    requires IsGrid(G)
  {
    Completion(S, G, 0) && forall T {:trigger Completion(T, G, 0)} :: Completion(T, G, 0) ==> LexAtMost(S, T)
  }

  /** S is no later than any completion of G that holds v at (r, c). */
  ghost predicate LeastWith(S: Grid, G: Grid, r: int, c: int, v: int)
    requires IsGrid(G) && InRange(r, c)
  {
    forall T {:trigger Completion(T, G, 0)} :: Completion(T, G, 0) && T[r][c] == v ==> LexAtMost(S, T)
  }

  /** `fill(idx)`: fills the empty cells from row-major index idx on, trying the
      digits in the order `shuffle` leaves them and undoing a placement whose
      continuation fails. On success the grid is a completion of the grid it was
      given; on failure the grid is restored and no completion exists. */
  method Fill(g: array2<int>, idx: int, rand: nat -> Draw, cur: nat) returns (ok: bool, next: nat)
    requires g.Length0 == 9 && g.Length1 == 9 && 0 <= idx <= 81
    modifies g
    decreases 81 - idx, 2
    ensures next >= cur
    ensures ok ==> Completion(ToGrid(g), old(ToGrid(g)), idx)
    ensures !ok ==> ToGrid(g) == old(ToGrid(g)) && !Completable(old(ToGrid(g)), idx)
  {
    ghost var G := ToGrid(g);
    if idx == 81 {
      CompletionOfFilled(G, 81);
      return true, cur;
    }
    var r, c := idx / 9, idx % 9;
    PositionInverse(idx);
    if g[r, c] != Empty {
      ok, next := Fill(g, idx + 1, rand, cur);
      SkipFilled(ToGrid(g), G, idx, ok);
      return;
    }
    ok, next := FillCell(g, idx, r, c, rand, cur);
  }

  /** The digit loop of `fill` at the empty cell idx: shuffle [1, ..., 9], then try
      each digit the legality check allows, recursing on idx + 1. */
  method FillCell(g: array2<int>, idx: int, r: int, c: int, rand: nat -> Draw, cur: nat)
      returns (ok: bool, next: nat)
    requires g.Length0 == 9 && g.Length1 == 9 && InRange(r, c) && Index(r, c) == idx && g[r, c] == Empty
    modifies g
    decreases 81 - idx, 1
    ensures next >= cur
    ensures ok ==> Completion(ToGrid(g), old(ToGrid(g)), idx)
    ensures !ok ==> ToGrid(g) == old(ToGrid(g)) && !Completable(old(ToGrid(g)), idx)
  {
    ghost var G := ToGrid(g);
    var order;
    order, next := ShuffledDigits(rand, cur);
    for t := 0 to 9
      invariant next >= cur
      invariant ToGrid(g) == G
      invariant forall u :: 0 <= u < t ==> Excluded(G, idx, r, c, order[u])
    {
      ok, next := TryDigit(g, idx, r, c, order[t], rand, next);
      if ok {
        return;
      }
    }
    DigitsPermuted(order);
    NoDigitLeft(G, idx, r, c, order);
    return false, next;
  }

  /** One iteration of the digit loop of `fill`: place v if the legality check
      allows it and recurse, undoing the placement when the continuation fails. */
  method TryDigit(g: array2<int>, idx: int, r: int, c: int, v: int, rand: nat -> Draw, cur: nat)
      returns (ok: bool, next: nat)
    requires g.Length0 == 9 && g.Length1 == 9 && InRange(r, c) && Index(r, c) == idx && g[r, c] == Empty
    requires IsDigit(v)
    modifies g
    decreases 81 - idx, 0
    ensures next >= cur
    ensures ok ==> Completion(ToGrid(g), old(ToGrid(g)), idx)
    ensures !ok ==> ToGrid(g) == old(ToGrid(g)) && Excluded(old(ToGrid(g)), idx, r, c, v)
  {
    ghost var G := ToGrid(g);
    if !IsValid(g, r, c, v) {
      RejectedDigit(G, idx, r, c, v);
      return false, cur;
    }
    g[r, c] := v;
    GridExt(ToGrid(g), Place(G, r, c, v));
    ok, next := Fill(g, idx + 1, rand, cur);
    if ok {
      FillPlaced(ToGrid(g), G, idx, r, c, v);
      return;
    }
    g[r, c] := Empty;
    GridExt(ToGrid(g), G);
    FillPlacedFails(G, idx, r, c, v);
  }

  /** `shuffle([1, 2, 3, 4, 5, 6, 7, 8, 9])`: the digits in a random order. */
  method ShuffledDigits(rand: nat -> Draw, cur: nat) returns (order: seq<int>, next: nat)
    ensures multiset(order) == multiset(Digits())
    ensures |order| == 9 && next == cur + 8
    ensures forall u :: 0 <= u < 9 ==> IsDigit(order[u])
  {
    var nums := new int[9](i => i + 1);
    assert nums[..] == Digits();
    next := Shuffle(nums, rand, cur);
    order := nums[..];
    DigitsPermuted(order);
  }

  /** The digits in ascending order. */
  function Digits(): seq<int> {
    seq(9, i => i + 1)
  }

  /** A permutation of the digits holds every digit and nothing else. */
  lemma DigitsPermuted(order: seq<int>)
    requires multiset(order) == multiset(Digits())
    ensures |order| == 9
    ensures forall u :: 0 <= u < |order| ==> IsDigit(order[u])
    ensures forall d :: IsDigit(d) ==> d in order
  {
    assert |order| == |multiset(order)| == |multiset(Digits())| == 9;
    forall u | 0 <= u < |order| ensures IsDigit(order[u]) {
      assert order[u] in multiset(Digits());
    }
    forall d | IsDigit(d) ensures d in order {
      assert Digits()[d - 1] == d;
      assert d in multiset(Digits());
    }
  }

  /** The filler skips a filled cell: a search from idx + 1 has the same completions. */
  lemma SkipFilled(S: Grid, G: Grid, idx: int, ok: bool)
    requires IsGrid(G) && 0 <= idx < 81 && G[idx / 9][idx % 9] != Empty
    requires ok ==> Completion(S, G, idx + 1)
    requires !ok ==> !Completable(G, idx + 1)
    ensures ok ==> Completion(S, G, idx)
    ensures !ok ==> !Completable(G, idx)
  {
    if ok {
      CompletionShift(S, G, idx);
    } else {
      forall T | Completion(T, G, idx) ensures false {
        CompletionShift(T, G, idx);
      }
    }
  }

  /** A successful continuation after placing a legal v at the cell idx completes G. */
  lemma FillPlaced(S: Grid, G: Grid, idx: int, r: int, c: int, v: int)
    requires IsGrid(G) && 0 <= idx < 81 && InRange(r, c) && Index(r, c) == idx && G[r][c] == Empty
    requires IsDigit(v) && NoPeerHolds(G, r, c, v)
    requires Completion(S, Place(G, r, c, v), idx + 1)
    ensures Completion(S, G, idx)
  {
    IndexInverse(r, c);
    CompletionShift(S, Place(G, r, c, v), idx);
    PlaceSound(S, G, idx, r, c, v);
  }

  /** A failed continuation after placing v at the cell idx rules v out there. */
  lemma FillPlacedFails(G: Grid, idx: int, r: int, c: int, v: int)
    requires IsGrid(G) && 0 <= idx < 81 && InRange(r, c) && Index(r, c) == idx && G[r][c] == Empty
    requires !Completable(Place(G, r, c, v), idx + 1)
    ensures Excluded(G, idx, r, c, v)
  {
    IndexInverse(r, c);
    forall S | Completion(S, G, idx) && S[r][c] == v ensures false {
      PlaceComplete(S, G, idx, r, c, v);
      CompletionShift(S, Place(G, r, c, v), idx);
    }
  }

  /** A digit the legality check rejects at an empty cell is in no completion there. */
  lemma RejectedDigit(G: Grid, idx: int, r: int, c: int, v: int)
    requires IsGrid(G) && InRange(r, c) && G[r][c] == Empty && Index(r, c) >= idx
    requires !NoPeerHolds(G, r, c, v)
    ensures Excluded(G, idx, r, c, v)
  {
    forall S | Completion(S, G, idx) ensures S[r][c] != v {
      CompletionLegal(S, G, idx, r, c);
    }
  }

  /** Once every digit is ruled out at an empty cell, G has no completion. */
  lemma NoDigitLeft(G: Grid, idx: int, r: int, c: int, order: seq<int>)
    requires IsGrid(G) && InRange(r, c) && G[r][c] == Empty && Index(r, c) >= idx
    requires forall d :: IsDigit(d) ==> d in order
    requires forall u :: 0 <= u < |order| ==> Excluded(G, idx, r, c, order[u])
    ensures !Completable(G, idx)
  {
    forall S | Completion(S, G, idx) ensures false {
      CompletionLegal(S, G, idx, r, c);
    }
  }

  /** `solveBoard(grid)`: finds the first empty cell in row-major order, tries the
      digits 1..9 there in ascending order and recurses on the whole grid,
      undoing a placement whose continuation fails. */
  method SolveBoard(g: array2<int>) returns (ok: bool)
    requires g.Length0 == 9 && g.Length1 == 9
    modifies g
    decreases Blanks(ToGrid(g)), 2
    ensures ok ==> LeastCompletion(ToGrid(g), old(ToGrid(g)))
    ensures !ok ==> ToGrid(g) == old(ToGrid(g)) && !Completable(old(ToGrid(g)), 0)
  {
    ghost var G := ToGrid(g);
    for r := 0 to 9
      invariant ToGrid(g) == G
      invariant forall r2, c2 :: InRange(r2, c2) && r2 < r ==> G[r2][c2] != Empty
    {
      for c := 0 to 9
        invariant ToGrid(g) == G
        invariant forall r2, c2 :: InRange(r2, c2) && (r2 < r || (r2 == r && c2 < c)) ==> G[r2][c2] != Empty
      {
        if g[r, c] == Empty {
          ok := SolveCell(g, r, c);
          return;
        }
      }
    }
    CompletionOfFilled(G, 0);
    FilledLeast(G);
    return true;
  }

  /** The digit loop of `solveBoard` at its first empty cell (r, c): every cell
      before it in row-major order is filled. */
  method SolveCell(g: array2<int>, r: int, c: int) returns (ok: bool)
    requires g.Length0 == 9 && g.Length1 == 9 && InRange(r, c) && g[r, c] == Empty
    requires forall r2, c2 :: InRange(r2, c2) && (r2 < r || (r2 == r && c2 < c)) ==> g[r2, c2] != Empty
    modifies g
    decreases Blanks(ToGrid(g)), 1
    ensures ok ==> LeastCompletion(ToGrid(g), old(ToGrid(g)))
    ensures !ok ==> ToGrid(g) == old(ToGrid(g)) && !Completable(old(ToGrid(g)), 0)
  {
    ghost var G := ToGrid(g);
    ghost var tried := [];
    for n := 1 to 10
      invariant ToGrid(g) == G
      invariant tried == seq(n - 1, i => i + 1)
      invariant forall u :: 0 <= u < |tried| ==> Excluded(G, 0, r, c, tried[u])
    {
      ok := SolveTry(g, r, c, n);
      if ok {
        forall d | 1 <= d < n ensures Excluded(G, 0, r, c, d) {
          assert tried[d - 1] == d;
        }
        FirstBlankLeast(ToGrid(g), G, r, c, n);
        return;
      }
      tried := tried + [n];
    }
    assert forall d :: IsDigit(d) ==> tried[d - 1] == d;
    NoDigitLeft(G, 0, r, c, tried);
    return false;
  }

  /** One iteration of the digit loop of `solveBoard`: place v if the legality
      check allows it and solve the rest, undoing the placement on failure. */
  method SolveTry(g: array2<int>, r: int, c: int, v: int) returns (ok: bool)
    requires g.Length0 == 9 && g.Length1 == 9 && InRange(r, c) && g[r, c] == Empty && IsDigit(v)
    modifies g
    decreases Blanks(ToGrid(g)), 0
    ensures ok ==> Completion(ToGrid(g), old(ToGrid(g)), 0) && ToGrid(g)[r][c] == v
    ensures ok ==> LeastWith(ToGrid(g), old(ToGrid(g)), r, c, v)
    ensures !ok ==> ToGrid(g) == old(ToGrid(g)) && Excluded(old(ToGrid(g)), 0, r, c, v)
  {
    ghost var G := ToGrid(g);
    if !IsValid(g, r, c, v) {
      RejectedDigit(G, 0, r, c, v);
      return false;
    }
    g[r, c] := v;
    GridExt(ToGrid(g), Place(G, r, c, v));
    FillOne(G, r, c, v);
    ok := SolveBoard(g);
    if ok {
      PlaceSound(ToGrid(g), G, 0, r, c, v);
      PlacedLeast(ToGrid(g), G, r, c, v);
      return;
    }
    g[r, c] := Empty;
    GridExt(ToGrid(g), G);
    PlacedFails(G, r, c, v);
  }

  /** The least completion after placing v at an empty cell holds v there and is
      no later than any completion of the old grid that holds v there. */
  lemma PlacedLeast(S: Grid, G: Grid, r: int, c: int, v: int)
    requires IsGrid(G) && InRange(r, c) && G[r][c] == Empty && IsDigit(v)
    requires LeastCompletion(S, Place(G, r, c, v))
    ensures S[r][c] == v && LeastWith(S, G, r, c, v)
  {
    assert Completes(S, Place(G, r, c, v), 0, r, c);
    forall T | Completion(T, G, 0) && T[r][c] == v ensures LexAtMost(S, T) {
      PlaceComplete(T, G, 0, r, c, v);
    }
  }

  /** At the first empty cell, the completion found with digit n, after every
      smaller digit was ruled out, is the least completion: a completion with a
      larger digit there first differs from it at that cell. */
  lemma FirstBlankLeast(S: Grid, G: Grid, r: int, c: int, n: int)
    requires IsGrid(G) && InRange(r, c) && G[r][c] == Empty
    requires forall r2, c2 :: InRange(r2, c2) && (r2 < r || (r2 == r && c2 < c)) ==> G[r2][c2] != Empty
    requires Completion(S, G, 0) && S[r][c] == n && LeastWith(S, G, r, c, n)
    requires forall d :: 1 <= d < n ==> Excluded(G, 0, r, c, d)
    ensures LeastCompletion(S, G)
  {
    forall T | Completion(T, G, 0) ensures LexAtMost(S, T) {
      if T[r][c] != n {
        CompletionLegal(T, G, 0, r, c);
        assert !Excluded(G, 0, r, c, T[r][c]);
        LaterAtBlank(S, T, G, r, c);
      }
    }
  }

  /** Two completions of G that agree on every filled cell before the empty cell
      (r, c), and where S holds the smaller value at (r, c), are in order. */
  lemma LaterAtBlank(S: Grid, T: Grid, G: Grid, r: int, c: int)
    requires IsGrid(G) && InRange(r, c)
    requires forall r2, c2 :: InRange(r2, c2) && (r2 < r || (r2 == r && c2 < c)) ==> G[r2][c2] != Empty
    requires Completion(S, G, 0) && Completion(T, G, 0) && S[r][c] < T[r][c]
    ensures LexAtMost(S, T)
  {
    var k := Index(r, c);
    IndexInverse(r, c);
    forall j | 0 <= j < k ensures At(S, j) == At(T, j) {
      PositionInverse(j);
      assert Completes(S, G, 0, j / 9, j % 9) && Completes(T, G, 0, j / 9, j % 9);
    }
    assert At(S, k) < At(T, k);
  }

  /** A grid without empty cells is its own only completion, hence the least. */
  lemma FilledLeast(G: Grid)
    requires IsGrid(G) && forall r, c :: InRange(r, c) ==> G[r][c] != Empty
    ensures LeastCompletion(G, G)
  {
    CompletionOfFilled(G, 0);
    forall T | Completion(T, G, 0) ensures LexAtMost(G, T) {
      forall r, c | InRange(r, c) ensures T[r][c] == G[r][c] {
        assert Completes(T, G, 0, r, c);
      }
      GridExt(T, G);
    }
  }

  /** A failed recursive solve after placing v at an empty cell rules v out there. */
  lemma PlacedFails(G: Grid, r: int, c: int, v: int)
    requires IsGrid(G) && InRange(r, c) && G[r][c] == Empty
    requires !Completable(Place(G, r, c, v), 0)
    ensures Excluded(G, 0, r, c, v)
  {
    forall S | Completion(S, G, 0) && S[r][c] == v ensures false {
      PlaceComplete(S, G, 0, r, c, v);
    }
  }

  /** The cell `(Math.floor(Math.random() * 9), Math.floor(Math.random() * 9))`
      chosen by the k-th iteration of the carving loop, whose two draws follow
      those of all earlier iterations. */
  function Drawn(rand: nat -> Draw, cur: nat, k: nat): (p: (int, int))
    ensures InRange(p.0, p.1)
  {
    (Pick(rand(cur + 2 * k), 9), Pick(rand(cur + 2 * k + 1), 9))
  }

  /** Every cell of the grid is drawn within the first `budget` iterations. */
  ghost predicate DrawsEveryCell(rand: nat -> Draw, cur: nat, budget: nat) {
    forall r, c :: InRange(r, c) ==> exists k :: 0 <= k < budget && Drawn(rand, cur, k) == (r, c)
  }

  /** The carving loop of `generatePuzzle`: copy the grid, then blank randomly drawn
      non-empty cells until 81 - clues cells are blank. The source loops until it
      has removed enough; here at most `budget` iterations are drawn, and `left`
      is the count of removals still owed (0 once the loop has finished). */
  method Carve(grid: array2<int>, clues: int, rand: nat -> Draw, cur: nat, budget: nat)
      returns (puzzle: array2<int>, left: int, next: nat)
    requires grid.Length0 == 9 && grid.Length1 == 9 && Full(ToGrid(grid))
    ensures fresh(puzzle) && puzzle.Length0 == 9 && puzzle.Length1 == 9
    ensures Agrees(ToGrid(puzzle), ToGrid(grid))
    ensures |Filled(ToGrid(puzzle))| == clues + left
    ensures clues >= 81 ==> left == 81 - clues && ToGrid(puzzle) == ToGrid(grid)
    ensures clues < 81 ==> 0 <= left
    ensures left > 0 ==> next == cur + 2 * budget
    ensures 0 <= clues && DrawsEveryCell(rand, cur, budget) ==> left <= 0
  {
    ghost var K := ToGrid(grid);
    puzzle := new int[9, 9]((i, j) reads grid requires 0 <= i < 9 && 0 <= j < 9 => grid[i, j]);
    GridExt(ToGrid(puzzle), K);
    FullFilled(K);
    ghost var P := K;
    var removeCount := 81 - clues;
    var tries := 0;
    next := cur;
    while removeCount > 0 && tries < budget
      invariant 0 <= tries <= budget && next == cur + 2 * tries
      invariant ToGrid(puzzle) == P && Agrees(P, K)
      invariant |Filled(P)| == clues + removeCount
      invariant clues < 81 ==> 0 <= removeCount
      invariant clues >= 81 ==> removeCount == 81 - clues && P == K
      invariant DrawnBlank(P, rand, cur, tries)
      decreases budget - tries
    {
      var (r, c) := Drawn(rand, cur, tries);
      if puzzle[r, c] != Empty {
        puzzle[r, c] := Empty;
        BlankStep(P, K, r, c);
        DrawnBlankStep(P, Place(P, r, c, Empty), rand, cur, tries, r, c);
        P := Place(P, r, c, Empty);
        GridExt(ToGrid(puzzle), P);
        removeCount := removeCount - 1;
      } else {
        DrawnBlankStep(P, P, rand, cur, tries, r, c);
      }
      next := next + 2;
      tries := tries + 1;
    }
    left := removeCount;
    if 0 <= clues && DrawsEveryCell(rand, cur, budget) && left > 0 {
      AllDrawnBlank(P, rand, cur, budget);
    }
  }

  /** The cells drawn by the first n iterations of the carving loop are blank in P. */
  ghost predicate DrawnBlank(P: Grid, rand: nat -> Draw, cur: nat, n: nat)
    requires IsGrid(P)
  {
    forall k :: 0 <= k < n ==> P[Drawn(rand, cur, k).0][Drawn(rand, cur, k).1] == Empty
  }

  /** Iteration n, which draws (r, c), leaves that cell blank whether or not it
      was filled, and keeps every other blank. */
  lemma DrawnBlankStep(P: Grid, Q: Grid, rand: nat -> Draw, cur: nat, n: nat, r: int, c: int)
    requires IsGrid(P) && DrawnBlank(P, rand, cur, n)
    requires (r, c) == Drawn(rand, cur, n)
    requires Q == Place(P, r, c, Empty) || (Q == P && P[r][c] == Empty)
    ensures IsGrid(Q) && DrawnBlank(Q, rand, cur, n + 1)
  {
  }

  /** When every cell is drawn within the budget and all draws are blank, no cell
      is filled. */
  lemma AllDrawnBlank(P: Grid, rand: nat -> Draw, cur: nat, budget: nat)
    requires IsGrid(P) && DrawnBlank(P, rand, cur, budget) && DrawsEveryCell(rand, cur, budget)
    ensures |Filled(P)| == 0
  {
    forall r, c | InRange(r, c) ensures P[r][c] == Empty {
      var k :| 0 <= k < budget && Drawn(rand, cur, k) == (r, c);
    }
    NoneFilled(P);
  }

  /** Blanking a non-empty cell keeps the clues of K, keeps every blank blank, and
      removes one filled position. */
  lemma BlankStep(P: Grid, K: Grid, r: int, c: int)
    requires IsGrid(P) && IsGrid(K) && Agrees(P, K) && InRange(r, c) && P[r][c] != Empty
    ensures Agrees(Place(P, r, c, Empty), K)
    ensures Place(P, r, c, Empty)[r][c] == Empty
    ensures forall rr, cc :: InRange(rr, cc) && P[rr][cc] == Empty ==> Place(P, r, c, Empty)[rr][cc] == Empty
    ensures |Filled(Place(P, r, c, Empty))| == |Filled(P)| - 1
  {
    BlankOne(P, r, c);
  }

  lemma NoneFilled(P: Grid)
    requires IsGrid(P) && forall r, c :: InRange(r, c) ==> P[r][c] == Empty
    ensures |Filled(P)| == 0
  {
    forall k | 0 <= k < 81 ensures k !in Filled(P) {
      PositionInverse(k);
    }
    assert Filled(P) == {};
  }

  /** `generatePuzzle(clues)`: fill an empty grid, then carve it. The filler cannot
      fail, because the empty grid has a completion, so the carved puzzle's clues
      are those of a solved grid `full`. The carving loop starts reading draws at
      `from`, the first draw the filler left unread. */
  method GeneratePuzzle(clues: int, rand: nat -> Draw, cur: nat, budget: nat)
      returns (puzzle: array2<int>, left: int, next: nat, ghost full: Grid, ghost from: nat)
    ensures fresh(puzzle) && puzzle.Length0 == 9 && puzzle.Length1 == 9
    ensures Solved(full) && Agrees(ToGrid(puzzle), full)
    ensures |Filled(ToGrid(puzzle))| == clues + left
    ensures clues >= 81 ==> ToGrid(puzzle) == full
    ensures clues < 81 ==> 0 <= left
    ensures cur <= from
    ensures 0 <= clues && DrawsEveryCell(rand, from, budget) ==> left <= 0
  {
    var grid := new int[9, 9]((i, j) => Empty);
    GridExt(ToGrid(grid), EmptyGrid());
    var ok;
    ok, next := Fill(grid, 0, rand, cur);
    EmptyHasCompletion();
    assert ok;
    full := ToGrid(grid);
    CompletionSolved(full, EmptyGrid());
    from := next;
    puzzle, left, next := Carve(grid, clues, rand, next, budget);
  }
}
