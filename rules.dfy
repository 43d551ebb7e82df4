/** The legality check `isValid` and the candidate list `getAvailableCandidates`
    of src/Games/Sudoku/Sudoku.js. */
module Rules {
  import opened SudokuGrid

  /** `isValid(grid, r, c, val)`: no cell other than (r, c) in its row, column or
      box holds v. The first loop looks at row r and column c together, the
      second at the box; the tested cell itself is skipped in both. */
  function IsValid(g: array2<int>, r: int, c: int, v: int): (ok: bool)
    reads g
    requires g.Length0 == 9 && g.Length1 == 9 && InRange(r, c) && IsDigit(v)
    ensures ok <==> NoPeerHolds(ToGrid(g), r, c, v)
  {
    LinesClear(g, r, c, v, 0) && BoxClear(g, r, c, v, (r / 3) * 3)
  }

  /** Iterations i..8 of the first loop: `grid[r][i] === val && i !== c` or
      `grid[i][c] === val && i !== r` makes the check fail. */
  function LinesClear(g: array2<int>, r: int, c: int, v: int, i: int): (ok: bool)
    reads g
    requires g.Length0 == 9 && g.Length1 == 9 && InRange(r, c) && 0 <= i <= 9
    decreases 9 - i
    ensures ok <==> forall j :: i <= j < 9 ==> (g[r, j] == v ==> j == c) && (g[j, c] == v ==> j == r)
  {
    if i == 9 then true
    else if (g[r, i] == v && i != c) || (g[i, c] == v && i != r) then false
    else LinesClear(g, r, c, v, i + 1)
  }

  /** Rows rr..br+2 of the box loop, br = 3⌊r/3⌋. */
  function BoxClear(g: array2<int>, r: int, c: int, v: int, rr: int): (ok: bool)
    reads g
    requires g.Length0 == 9 && g.Length1 == 9 && InRange(r, c)
    requires (r / 3) * 3 <= rr <= (r / 3) * 3 + 3
    decreases (r / 3) * 3 + 3 - rr
    ensures ok <==> forall r2, c2 :: rr <= r2 < (r / 3) * 3 + 3 && (c / 3) * 3 <= c2 < (c / 3) * 3 + 3 ==>
                      (g[r2, c2] == v ==> r2 == r && c2 == c)
  {
    if rr == (r / 3) * 3 + 3 then true
    else BoxRowClear(g, r, c, v, rr, (c / 3) * 3) && BoxClear(g, r, c, v, rr + 1)
  }

  /** Columns cc..bc+2 of box row rr, bc = 3⌊c/3⌋. */
  function BoxRowClear(g: array2<int>, r: int, c: int, v: int, rr: int, cc: int): (ok: bool)
    reads g
    requires g.Length0 == 9 && g.Length1 == 9 && InRange(r, c) && 0 <= rr < 9
    requires (c / 3) * 3 <= cc <= (c / 3) * 3 + 3
    decreases (c / 3) * 3 + 3 - cc
    ensures ok <==> forall c2 :: cc <= c2 < (c / 3) * 3 + 3 ==> (g[rr, c2] == v ==> rr == r && c2 == c)
  {
    if cc == (c / 3) * 3 + 3 then true
    else !(g[rr, cc] == v && (rr != r || cc != c)) && BoxRowClear(g, r, c, v, rr, cc + 1)
  }

  /** `getAvailableCandidates(board, r, c)`: the digits, ascending, that no cell of
      the row, column or box of (r, c) holds. Unlike `IsValid`, the cell's own
      value counts as used. */
  method Candidates(b: Grid, r: int, c: int) returns (digits: seq<int>)
    requires IsGrid(b) && InRange(r, c)
    ensures forall i, j :: 0 <= i < j < |digits| ==> digits[i] < digits[j]
    ensures forall n :: n in digits <==> IsDigit(n) && !UsedInUnit(b, r, c, n)
  {
    var used := LineValues(b, r, c);
    forall x | x in used ensures UsedInUnit(b, r, c, x) {
      LinesInUnit(b, r, c, x);
    }
    used := AddBoxValues(b, r, c, used);
    forall n | IsDigit(n) && n !in used ensures !UsedInUnit(b, r, c, n) {
      forall rr, cc | InRange(rr, cc) && SameUnit(r, c, rr, cc) ensures b[rr][cc] != n {
      }
    }
    digits := Unused(used, 1);
  }

  /** Some cell of row r or column c holds x. */
  predicate OnLines(b: Grid, r: int, c: int, x: int)
    requires IsGrid(b) && InRange(r, c)
  {
    exists j :: 0 <= j < 9 && (b[r][j] == x || b[j][c] == x)
  }

  /** A value on the row or column of (r, c) is used in one of its units. */
  lemma LinesInUnit(b: Grid, r: int, c: int, x: int)
    requires IsGrid(b) && InRange(r, c) && OnLines(b, r, c, x)
    ensures UsedInUnit(b, r, c, x)
  {
    var j :| 0 <= j < 9 && (b[r][j] == x || b[j][c] == x);
    if b[r][j] == x {
      assert SameUnit(r, c, r, j);
    } else {
      assert SameUnit(r, c, j, c);
    }
  }

  /** The first loop of `getAvailableCandidates`: the non-empty values of row r and
      column c. */
  method LineValues(b: Grid, r: int, c: int) returns (used: set<int>)
    requires IsGrid(b) && InRange(r, c)
    ensures forall x :: x in used ==> x != Empty && OnLines(b, r, c, x)
    ensures forall j :: 0 <= j < 9 ==>
      (b[r][j] != Empty ==> b[r][j] in used) && (b[j][c] != Empty ==> b[j][c] in used)
  {
    used := {};
    for i := 0 to 9
      invariant forall x :: x in used ==> x != Empty && OnLines(b, r, c, x)
      invariant forall j :: 0 <= j < i ==>
        (b[r][j] != Empty ==> b[r][j] in used) && (b[j][c] != Empty ==> b[j][c] in used)
    {
      if b[r][i] != Empty {
        used := used + {b[r][i]};
      }
      if b[i][c] != Empty {
        used := used + {b[i][c]};
      }
    }
  }

  /** The box loops of `getAvailableCandidates`: add the non-empty values of the box
      of (r, c) to `used`. */
  method AddBoxValues(b: Grid, r: int, c: int, used0: set<int>) returns (used: set<int>)
    requires IsGrid(b) && InRange(r, c)
    requires forall x :: x in used0 ==> x != Empty && UsedInUnit(b, r, c, x)
    ensures used0 <= used
    ensures forall x :: x in used ==> x != Empty && UsedInUnit(b, r, c, x)
    ensures forall rr, cc :: InRange(rr, cc) && SameBox(r, c, rr, cc) && b[rr][cc] != Empty ==> b[rr][cc] in used
  {
    used := used0;
    var br, bc := (r / 3) * 3, (c / 3) * 3;
    BandStart(r);
    BandStart(c);
    for rr := br to br + 3
      invariant used0 <= used
      invariant forall x :: x in used ==> x != Empty && UsedInUnit(b, r, c, x)
      invariant forall r2, c2 :: br <= r2 < rr && bc <= c2 < bc + 3 && b[r2][c2] != Empty ==> b[r2][c2] in used
    {
      for cc := bc to bc + 3
        invariant used0 <= used
        invariant forall x :: x in used ==> x != Empty && UsedInUnit(b, r, c, x)
        invariant forall r2, c2 :: br <= r2 < rr && bc <= c2 < bc + 3 && b[r2][c2] != Empty ==> b[r2][c2] in used
        invariant forall c2 :: bc <= c2 < cc && b[rr][c2] != Empty ==> b[rr][c2] in used
      {
        if b[rr][cc] != Empty {
          BandMember(r, rr);
          BandMember(c, cc);
          assert SameUnit(r, c, rr, cc);
          used := used + {b[rr][cc]};
        }
      }
    }
    forall rr, cc | InRange(rr, cc) && SameBox(r, c, rr, cc) && b[rr][cc] != Empty ensures b[rr][cc] in used {
      BandMember(r, rr);
      BandMember(c, cc);
    }
  }

  /** `[1, ..., 9].filter(n => !used.has(n))`, from n on. */
  function Unused(used: set<int>, n: int): (ds: seq<int>)
    requires 1 <= n <= 10
    decreases 10 - n
    ensures forall i, j :: 0 <= i < j < |ds| ==> ds[i] < ds[j]
    ensures forall x :: x in ds <==> n <= x <= 9 && x !in used
  {
    if n == 10 then []
    else if n in used then Unused(used, n + 1)
    else
      var rest := Unused(used, n + 1);
      assert forall i :: 0 <= i < |rest| ==> rest[i] in rest;
      [n] + rest
  }

  /** At an empty cell, a digit is a candidate exactly when the legality check allows
      it there; candidate lists and `IsValid` differ only at non-empty cells. */
  lemma CandidateIffValid(g: array2<int>, r: int, c: int, v: int)
    requires g.Length0 == 9 && g.Length1 == 9 && InRange(r, c) && IsDigit(v)
    requires g[r, c] == Empty
    ensures IsValid(g, r, c, v) <==> !UsedInUnit(ToGrid(g), r, c, v)
  {
    var S := ToGrid(g);
    if UsedInUnit(S, r, c, v) {
      var rr, cc :| InRange(rr, cc) && SameUnit(r, c, rr, cc) && S[rr][cc] == v;
      assert Peer(r, c, rr, cc);
    }
  }

  /** A non-empty cell's own value is never among its candidates, though the
      legality check accepts it whenever no peer repeats it. */
  lemma OwnValueUsed(b: Grid, r: int, c: int)
    requires IsGrid(b) && InRange(r, c)
    ensures UsedInUnit(b, r, c, b[r][c])
  {
    assert SameUnit(r, c, r, c);
  }

  /** Transposing the grid and swapping row and column gives the same verdict. */
  lemma ValidTranspose(g: array2<int>, h: array2<int>, r: int, c: int, v: int)
    requires g.Length0 == 9 && g.Length1 == 9 && h.Length0 == 9 && h.Length1 == 9
    requires forall i, j :: 0 <= i < 9 && 0 <= j < 9 ==> h[i, j] == g[j, i]
    requires InRange(r, c) && IsDigit(v)
    ensures IsValid(g, r, c, v) == IsValid(h, c, r, v)
  {
    if !IsValid(h, c, r, v) {
      var rr, cc :| InRange(rr, cc) && Peer(c, r, rr, cc) && h[rr, cc] == v;
      assert Peer(r, c, cc, rr);
    }
    if !IsValid(g, r, c, v) {
      var rr, cc :| InRange(rr, cc) && Peer(r, c, rr, cc) && g[rr, cc] == v;
      assert Peer(c, r, cc, rr) && h[cc, rr] == v;
    }
  }
}
