/**
 * Grid utilities of the collaborative Sudoku game: the 9x9 grid of optional
 * digits, the placement check and the randomized backtracking solver used to
 * build a complete solution, puzzle generation by cell removal, move
 * validation, the completeness check, and the conversion between a grid and
 * its 81-key "row-col" record.
 */
module Sudoku {

  /** A grid cell: empty (`null`) or a number. */
  datatype Cell = Empty | Num(n: int)

  /** A grid as a value: nine rows of nine cells. */
  type Grid = seq<seq<Cell>>

  predicate InBounds(row: int, col: int) {
    0 <= row < 9 && 0 <= col < 9
  }

  predicate IsGrid(s: Grid) {
    |s| == 9 && forall r :: 0 <= r < 9 ==> |s[r]| == 9
  }

  function EmptyGrid(): (s: Grid)
    ensures IsGrid(s)
    ensures forall r, c :: InBounds(r, c) ==> s[r][c] == Empty
  {
    seq(9, _ => seq(9, _ => Empty))
  }

  function SetCell(s: Grid, row: int, col: int, v: Cell): (t: Grid)
    requires IsGrid(s) && InBounds(row, col)
    ensures IsGrid(t) && t[row][col] == v
    ensures forall r, c :: InBounds(r, c) && (r, c) != (row, col) ==> t[r][c] == s[r][c]
  {
    s[row := s[row][col := v]]
  }

  /** The current contents of a 9x9 array grid, as a value. */
  function Snapshot(g: array2<Cell>): (s: Grid)
    requires g.Length0 == 9 && g.Length1 == 9
    reads g
    ensures IsGrid(s)
    ensures forall r, c :: InBounds(r, c) ==> s[r][c] == g[r, c]
  {
    seq(9, r requires 0 <= r < 9 reads g => seq(9, c requires 0 <= c < 9 reads g => g[r, c]))
  }

  lemma SnapshotIs(g: array2<Cell>, s: Grid)
    requires g.Length0 == 9 && g.Length1 == 9 && IsGrid(s)
    requires forall r, c :: InBounds(r, c) ==> g[r, c] == s[r][c]
    ensures Snapshot(g) == s
  {
    var t := Snapshot(g);
    forall r | 0 <= r < 9
      ensures t[r] == s[r]
    {
      assert forall c :: 0 <= c < 9 ==> t[r][c] == s[r][c];
    }
  }

  // ---------------------------------------------------------------------
  // Sudoku constraints
  // ---------------------------------------------------------------------

  /** Two cells share a row, a column or a 3x3 box. */
  predicate SameUnit(r1: int, c1: int, r2: int, c2: int) {
    r1 == r2 || c1 == c2 || (r1 / 3 == r2 / 3 && c1 / 3 == c2 / 3)
  }

  /** No digit is repeated among the filled cells of any row, column or box. */
  ghost predicate NoConflicts(s: Grid)
    requires IsGrid(s)
  {
    forall r1, c1, r2, c2 ::
      InBounds(r1, c1) && InBounds(r2, c2) && (r1, c1) != (r2, c2) &&
      SameUnit(r1, c1, r2, c2) && s[r1][c1] != Empty
      ==> s[r1][c1] != s[r2][c2]
  }

  predicate DigitsOnly(s: Grid)
    requires IsGrid(s)
  {
    forall r, c :: 0 <= r < 9 && 0 <= c < 9 && s[r][c] != Empty ==> 1 <= s[r][c].n <= 9
  }

  /** A partially filled Sudoku: every filled cell a digit 1..9, no repeats. */
  ghost predicate Partial(s: Grid) {
    IsGrid(s) && DigitsOnly(s) && NoConflicts(s)
  }

  predicate NoEmpty(s: Grid)
    requires IsGrid(s)
  {
    forall r, c :: 0 <= r < 9 && 0 <= c < 9 ==> s[r][c] != Empty
  }

  /** A complete, valid Sudoku. */
  ghost predicate IsSolved(s: Grid) {
    Partial(s) && NoEmpty(s)
  }

  /** `t` keeps every filled cell of `s`. */
  ghost predicate Extends(t: Grid, s: Grid) {
    IsGrid(t) && IsGrid(s) &&
    forall r, c :: InBounds(r, c) && s[r][c] != Empty ==> t[r][c] == s[r][c]
  }

  /** What `isValid` checks: `num` is absent from the row, the column and the
      3x3 box whose top-left cell is (row - row % 3, col - col % 3). */
  ghost predicate Placeable(s: Grid, row: int, col: int, num: int)
    requires IsGrid(s) && InBounds(row, col)
  {
    && (forall x :: 0 <= x < 9 ==> s[row][x] != Num(num))
    && (forall x :: 0 <= x < 9 ==> s[x][col] != Num(num))
    && (forall r, c ::
          row - row % 3 <= r < row - row % 3 + 3 && col - col % 3 <= c < col - col % 3 + 3
          ==> s[r][c] != Num(num))
  }

  function EmptyCells(s: Grid): set<(int, int)>
    requires IsGrid(s)
  {
    set r, c | 0 <= r < 9 && 0 <= c < 9 && s[r][c] == Empty :: (r, c)
  }

  lemma BoxRange(a: int, b: int)
    requires 0 <= a < 9 && 0 <= b < 9
    ensures a / 3 == b / 3 <==> b - b % 3 <= a < b - b % 3 + 3
  {
  }

  /** Placing a digit that passes the check keeps a partial Sudoku partial. */
  lemma PlaceKeepsPartial(s: Grid, row: int, col: int, num: int)
    requires Partial(s) && InBounds(row, col) && s[row][col] == Empty
    requires 1 <= num <= 9 && Placeable(s, row, col, num)
    ensures Partial(SetCell(s, row, col, Num(num)))
  {
    var t := SetCell(s, row, col, Num(num));
    forall r1, c1, r2, c2 |
      InBounds(r1, c1) && InBounds(r2, c2) && (r1, c1) != (r2, c2) &&
      SameUnit(r1, c1, r2, c2) && t[r1][c1] != Empty
      ensures t[r1][c1] != t[r2][c2]
    {
      if (r1, c1) == (row, col) {
        NotInUnit(s, row, col, num, r2, c2);
      } else if (r2, c2) == (row, col) {
        NotInUnit(s, row, col, num, r1, c1);
      }
    }
  }

  lemma NotInUnit(s: Grid, row: int, col: int, num: int, r: int, c: int)
    requires IsGrid(s) && InBounds(row, col) && InBounds(r, c) && Placeable(s, row, col, num)
    requires SameUnit(row, col, r, c)
    ensures s[r][c] != Num(num)
  {
    if r != row && c != col {
      BoxRange(r, row);
      BoxRange(c, col);
    }
  }

  /** A digit the check rejects at an empty cell appears in no solved grid
      that keeps the filled cells. */
  lemma BlockedHasNoSolution(s: Grid, t: Grid, row: int, col: int, num: int)
    requires IsGrid(s) && InBounds(row, col) && s[row][col] == Empty
    requires !Placeable(s, row, col, num)
    requires Extends(t, s) && t[row][col] == Num(num)
    ensures !NoConflicts(t)
  {
    var r, c :| InBounds(r, c) && SameUnit(r, c, row, col) && s[r][c] == Num(num) by {
      BlockingCell(s, row, col, num);
    }
    RepeatConflicts(t, r, c, row, col);
  }

  /** A digit the check rejects already stands in a cell of the same unit. */
  lemma BlockingCell(s: Grid, row: int, col: int, num: int)
    requires IsGrid(s) && InBounds(row, col)
    requires !Placeable(s, row, col, num)
    ensures exists r, c :: InBounds(r, c) && SameUnit(r, c, row, col) && s[r][c] == Num(num)
  {
    if !(forall x :: 0 <= x < 9 ==> s[row][x] != Num(num)) {
      var x :| 0 <= x < 9 && s[row][x] == Num(num);
      assert SameUnit(row, x, row, col);
    } else if !(forall x :: 0 <= x < 9 ==> s[x][col] != Num(num)) {
      var x :| 0 <= x < 9 && s[x][col] == Num(num);
      assert SameUnit(x, col, row, col);
    } else {
      var r, c :| row - row % 3 <= r < row - row % 3 + 3 &&
                  col - col % 3 <= c < col - col % 3 + 3 && s[r][c] == Num(num);
      BoxRange(r, row);
      BoxRange(c, col);
      assert SameUnit(r, c, row, col);
    }
  }

  /** Two distinct cells of one unit holding the same digit are a conflict. */
  lemma RepeatConflicts(t: Grid, r1: int, c1: int, r2: int, c2: int)
    requires IsGrid(t) && InBounds(r1, c1) && InBounds(r2, c2) && (r1, c1) != (r2, c2)
    requires SameUnit(r1, c1, r2, c2) && t[r1][c1] != Empty && t[r1][c1] == t[r2][c2]
    ensures !NoConflicts(t)
  {
  }

  lemma FillShrinks(s: Grid, row: int, col: int, v: Cell)
    requires IsGrid(s) && InBounds(row, col) && s[row][col] == Empty && v != Empty
    ensures EmptyCells(SetCell(s, row, col, v)) < EmptyCells(s)
  {
    assert (row, col) in EmptyCells(s);
    assert (row, col) !in EmptyCells(SetCell(s, row, col, v));
  }

  // ---------------------------------------------------------------------
  // generateCompleteSudoku: isValid and the backtracking solve
  // ---------------------------------------------------------------------

  lemma ExtendsTransitive(a: Grid, b: Grid, c: Grid)
    requires Extends(a, b) && Extends(b, c)
    ensures Extends(a, c)
  {
  }

  /** When no solved grid keeps the filled cells plus `num` at (row, col),
      no solved grid keeping the filled cells has `num` there. */
  lemma FailedPlacementExcluded(s: Grid, row: int, col: int, num: int)
    requires IsGrid(s) && InBounds(row, col) && s[row][col] == Empty
    requires forall t :: Extends(t, SetCell(s, row, col, Num(num))) ==> !IsSolved(t)
    ensures forall t :: Extends(t, s) && IsSolved(t) ==> t[row][col] != Num(num)
  {
    forall t: Grid | Extends(t, s) && IsSolved(t)
      ensures t[row][col] != Num(num)
    {
      if t[row][col] == Num(num) {
        assert Extends(t, SetCell(s, row, col, Num(num)));
      }
    }
  }

  lemma BlockedExcluded(s: Grid, row: int, col: int, num: int)
    requires IsGrid(s) && InBounds(row, col) && s[row][col] == Empty
    requires !Placeable(s, row, col, num)
    ensures forall t :: Extends(t, s) && IsSolved(t) ==> t[row][col] != Num(num)
  {
    forall t: Grid | Extends(t, s) && IsSolved(t)
      ensures t[row][col] != Num(num)
    {
      if t[row][col] == Num(num) {
        BlockedHasNoSolution(s, t, row, col, num);
      }
    }
  }

  /** Every digit excluded at an empty cell: no solved grid keeps the filled cells. */
  lemma AllTriedNoSolution(s: Grid, row: int, col: int, numbers: seq<int>, tried: set<Cell>)
    requires IsGrid(s) && InBounds(row, col) && IsShuffle(numbers)
    requires forall j :: 0 <= j < 9 ==> Num(numbers[j]) in tried
    requires forall t :: Extends(t, s) && IsSolved(t) ==> t[row][col] !in tried
    ensures forall t :: Extends(t, s) ==> !IsSolved(t)
  {
    forall t: Grid | Extends(t, s)
      ensures !IsSolved(t)
    {
      if IsSolved(t) {
        SolvedCellTried(t, row, col, numbers, tried);
      }
    }
  }

  lemma SolvedCellTried(t: Grid, row: int, col: int, numbers: seq<int>, tried: set<Cell>)
    requires IsSolved(t) && InBounds(row, col) && IsShuffle(numbers)
    requires forall j :: 0 <= j < 9 ==> Num(numbers[j]) in tried
    ensures t[row][col] in tried
  {
    var d := t[row][col].n;
    assert d in numbers;
    var j :| 0 <= j < 9 && numbers[j] == d;
  }

  /** A shuffled order of the digits 1..9. */
  predicate IsShuffle(s: seq<int>) {
    |s| == 9 &&
    (forall i :: 0 <= i < 9 ==> 1 <= s[i] <= 9) &&
    (forall d :: 1 <= d <= 9 ==> d in s)
  }

  /** The row, column and box scans of `isValid`. */
  method IsValid(g: array2<Cell>, row: int, col: int, num: int) returns (ok: bool)
    requires g.Length0 == 9 && g.Length1 == 9 && InBounds(row, col)
    ensures ok <==> Placeable(Snapshot(g), row, col, num)
  {
    for x := 0 to 9
      invariant forall y :: 0 <= y < x ==> g[row, y] != Num(num)
    {
      if g[row, x] == Num(num) {
        return false;
      }
    }
    for x := 0 to 9
      invariant forall y :: 0 <= y < x ==> g[y, col] != Num(num)
    {
      if g[x, col] == Num(num) {
        return false;
      }
    }
    var startRow := row - row % 3;
    var startCol := col - col % 3;
    for i := 0 to 3
      invariant forall r, c :: startRow <= r < startRow + i && startCol <= c < startCol + 3 ==> g[r, c] != Num(num)
    {
      var r := startRow + i;
      for j := 0 to 3
        invariant forall c :: startCol <= c < startCol + j ==> g[r, c] != Num(num)
      {
        if g[i + startRow, j + startCol] == Num(num) {
          return false;
        }
      }
    }
    return true;
  }

  /**
   * The backtracking `solve`: scan the cells in row-major order; at the first
   * empty cell try the digits there (TryDigits); with no empty cell left the
   * grid is solved. `next` is the index of the next unused shuffle.
   */
  method Solve(g: array2<Cell>, shuffle: nat -> seq<int>, tick: nat) returns (solved: bool, next: nat)
    requires g.Length0 == 9 && g.Length1 == 9
    requires forall k :: IsShuffle(shuffle(k))
    modifies g
    ensures solved ==> NoEmpty(Snapshot(g)) && Extends(Snapshot(g), old(Snapshot(g)))
    ensures !solved ==> Snapshot(g) == old(Snapshot(g))
    ensures Partial(old(Snapshot(g))) ==> Partial(Snapshot(g))
    ensures !solved ==> forall t :: Extends(t, old(Snapshot(g))) ==> !IsSolved(t)
    decreases EmptyCells(Snapshot(g)), 2
  {
    for row := 0 to 9
      invariant forall r, c :: 0 <= r < row && 0 <= c < 9 ==> g[r, c] != Empty
    {
      for col := 0 to 9
        invariant forall c :: 0 <= c < col ==> g[row, c] != Empty
      {
        if g[row, col] == Empty {
          solved, next := TryDigits(g, row, col, shuffle, tick);
          return;
        }
      }
    }
    solved, next := true, tick;
  }

  /**
   * The candidate loop of `solve` at the empty cell (row, col): draw the
   * shuffled digits, place each digit that passes IsValid and recurse, and
   * clear the cell again when the recursion fails.
   */
  method TryDigits(g: array2<Cell>, row: int, col: int, shuffle: nat -> seq<int>, tick: nat)
    returns (solved: bool, next: nat)
    requires g.Length0 == 9 && g.Length1 == 9 && InBounds(row, col) && g[row, col] == Empty
    requires forall k :: IsShuffle(shuffle(k))
    modifies g
    ensures solved ==> NoEmpty(Snapshot(g)) && Extends(Snapshot(g), old(Snapshot(g)))
    ensures !solved ==> Snapshot(g) == old(Snapshot(g))
    ensures Partial(old(Snapshot(g))) ==> Partial(Snapshot(g))
    ensures !solved ==> forall t :: Extends(t, old(Snapshot(g))) ==> !IsSolved(t)
    decreases EmptyCells(Snapshot(g)), 1
  {
    ghost var s0 := Snapshot(g);
    var numbers := shuffle(tick);
    next := tick + 1;
    ghost var tried: set<Cell> := {};
    for i := 0 to 9
      invariant Snapshot(g) == s0
      invariant forall j :: 0 <= j < i ==> Num(numbers[j]) in tried
      invariant forall t :: Extends(t, s0) && IsSolved(t) ==> t[row][col] !in tried
    {
      var num := numbers[i];
      var placeable := IsValid(g, row, col, num);
      if placeable {
        solved, next := TryPlace(g, row, col, num, shuffle, next);
        if solved {
          return;
        }
      } else {
        BlockedExcluded(s0, row, col, num);
      }
      tried := tried + {Num(num)};
    }
    AllTriedNoSolution(s0, row, col, numbers, tried);
    solved := false;
  }

  /**
   * One candidate of `solve`: write `num` into the empty cell (row, col),
   * solve the rest, and clear the cell again when that fails.
   */
  method TryPlace(g: array2<Cell>, row: int, col: int, num: int, shuffle: nat -> seq<int>, tick: nat)
    returns (solved: bool, next: nat)
    requires g.Length0 == 9 && g.Length1 == 9 && InBounds(row, col) && g[row, col] == Empty
    requires 1 <= num <= 9 && Placeable(Snapshot(g), row, col, num)
    requires forall k :: IsShuffle(shuffle(k))
    modifies g
    ensures solved ==> NoEmpty(Snapshot(g)) && Extends(Snapshot(g), old(Snapshot(g)))
    ensures !solved ==> Snapshot(g) == old(Snapshot(g))
    ensures Partial(old(Snapshot(g))) ==> Partial(Snapshot(g))
    ensures !solved ==> forall t :: Extends(t, old(Snapshot(g))) && IsSolved(t) ==> t[row][col] != Num(num)
    decreases EmptyCells(Snapshot(g)), 0
  {
    ghost var s0 := Snapshot(g);
    ghost var s1 := SetCell(s0, row, col, Num(num));
    g[row, col] := Num(num);
    SnapshotIs(g, s1);
    FillShrinks(s0, row, col, Num(num));
    solved, next := Solve(g, shuffle, tick);
    if solved {
      if Partial(s0) {
        PlaceKeepsPartial(s0, row, col, num);
      }
      ExtendsTransitive(Snapshot(g), s1, s0);
      return;
    }
    g[row, col] := Empty;
    SnapshotIs(g, s0);
    FailedPlacementExcluded(s0, row, col, num);
  }

  /** A fixed complete Sudoku; it shows that a solution extending the empty
      grid exists, so the exhaustive search from the empty grid succeeds. */
  function CanonicalDigit(r: int, c: int): int {
    var x := 3 * (r % 3) + r / 3 + c;
    if x < 9 then x + 1 else x - 8
  }

  function Canonical(): (s: Grid)
    ensures IsGrid(s)
    ensures forall r, c :: InBounds(r, c) ==> s[r][c] == Num(CanonicalDigit(r, c))
  {
    seq(9, r => seq(9, c => Num(CanonicalDigit(r, c))))
  }

  lemma CanonicalDistinct(r1: int, c1: int, r2: int, c2: int)
    requires InBounds(r1, c1) && InBounds(r2, c2) && (r1, c1) != (r2, c2)
    requires SameUnit(r1, c1, r2, c2)
    ensures CanonicalDigit(r1, c1) != CanonicalDigit(r2, c2)
  {
    var q1, a1, q2, a2 := r1 / 3, r1 % 3, r2 / 3, r2 % 3;
    assert r1 == 3 * q1 + a1 && r2 == 3 * q2 + a2;
    var p1, b1, p2, b2 := c1 / 3, c1 % 3, c2 / 3, c2 % 3;
    assert c1 == 3 * p1 + b1 && c2 == 3 * p2 + b2;
  }

  lemma CanonicalIsSolved()
    ensures IsSolved(Canonical())
  {
    var s := Canonical();
    forall r1, c1, r2, c2 |
      InBounds(r1, c1) && InBounds(r2, c2) && (r1, c1) != (r2, c2) &&
      SameUnit(r1, c1, r2, c2) && s[r1][c1] != Empty
      ensures s[r1][c1] != s[r2][c2]
    {
      CanonicalDistinct(r1, c1, r2, c2);
    }
  }

  /** `generateCompleteSudoku`: run the solver on an all-empty grid. */
  method GenerateCompleteSudoku(shuffle: nat -> seq<int>) returns (grid: array2<Cell>)
    requires forall k :: IsShuffle(shuffle(k))
    ensures fresh(grid) && grid.Length0 == 9 && grid.Length1 == 9
    ensures IsSolved(Snapshot(grid))
  {
    grid := new Cell[9, 9]((_, _) => Empty);
    SnapshotIs(grid, EmptyGrid());
    EmptyGridSolvable();
    var solved, _ := Solve(grid, shuffle, 0);
  }

  /** The empty grid is a partial Sudoku that some solved grid extends. */
  lemma EmptyGridSolvable()
    ensures Partial(EmptyGrid())
    ensures Extends(Canonical(), EmptyGrid()) && IsSolved(Canonical())
  {
    CanonicalIsSolved();
  }

  // ---------------------------------------------------------------------
  // generatePuzzle
  // ---------------------------------------------------------------------

  datatype Difficulty = Easy | Medium | Hard

  /** The number of cells `generatePuzzle` clears for each difficulty. */
  function RemovalCount(d: Difficulty): (n: nat)
    ensures n == 35 || n == 45 || n == 55
    ensures 26 <= 81 - n <= 46
  {
    match d
    case Easy => 35
    case Medium => 45
    case Hard => 55
  }

  lemma NoEmptyHasNoEmptyCells(s: Grid)
    requires IsGrid(s) && NoEmpty(s)
    ensures EmptyCells(s) == {}
  {
  }

  lemma ClearGrows(s: Grid, row: int, col: int)
    requires IsGrid(s) && InBounds(row, col) && s[row][col] != Empty
    ensures EmptyCells(SetCell(s, row, col, Empty)) == EmptyCells(s) + {(row, col)}
    ensures (row, col) !in EmptyCells(s)
  {
    var t := SetCell(s, row, col, Empty);
    assert (row, col) in EmptyCells(t);
    forall p | p in EmptyCells(t)
      ensures p in EmptyCells(s) + {(row, col)}
    {
    }
  }

  /**
   * `generatePuzzle`: build a solution, copy it, then clear cells at the
   * positions drawn from `picks` (the random row/column pairs, in order),
   * counting only picks that hit a still-filled cell, until the difficulty's
   * removal count is reached. The source loop ends only if the random draws
   * hit that many distinct cells; the precondition says the draws do.
   */
  method GeneratePuzzle(difficulty: Difficulty, shuffle: nat -> seq<int>, picks: seq<(int, int)>)
    returns (puzzle: array2<Cell>, solution: array2<Cell>)
    requires forall k :: IsShuffle(shuffle(k))
    requires forall p :: p in picks ==> InBounds(p.0, p.1)
    requires |Drawn(picks, |picks|)| >= RemovalCount(difficulty)
    ensures fresh(puzzle) && fresh(solution) && puzzle != solution
    ensures puzzle.Length0 == 9 && puzzle.Length1 == 9 && solution.Length0 == 9 && solution.Length1 == 9
    ensures IsSolved(Snapshot(solution))
    ensures Extends(Snapshot(solution), Snapshot(puzzle))
    ensures |EmptyCells(Snapshot(puzzle))| == RemovalCount(difficulty)
    ensures EmptyCells(Snapshot(puzzle)) <= Drawn(picks, |picks|)
  {
    solution := GenerateCompleteSudoku(shuffle);
    puzzle := new Cell[9, 9]((r, c) requires 0 <= r < 9 && 0 <= c < 9 reads solution => solution[r, c]);
    ghost var sol := Snapshot(solution);
    SnapshotIs(puzzle, sol);
    NoEmptyHasNoEmptyCells(sol);
    var target := RemovalCount(difficulty);
    var removed := 0;
    var i := 0;
    while removed < target
      invariant 0 <= i <= |picks|
      invariant Snapshot(solution) == sol
      invariant Extends(sol, Snapshot(puzzle))
      invariant EmptyCells(Snapshot(puzzle)) == Drawn(picks, i)
      invariant removed == |EmptyCells(Snapshot(puzzle))| <= target
      modifies puzzle
      decreases |picks| - i
    {
      assert i < |picks|;
      var row, col := picks[i].0, picks[i].1;
      ghost var before := Snapshot(puzzle);
      PickStep(before, picks, i);
      if puzzle[row, col] != Empty {
        puzzle[row, col] := Empty;
        SnapshotIs(puzzle, SetCell(before, row, col, Empty));
        removed := removed + 1;
      }
      i := i + 1;
    }
  }

  /** The distinct cells among the first `n` draws. */
  function Drawn(picks: seq<(int, int)>, n: nat): set<(int, int)>
    requires n <= |picks|
  {
    set j | 0 <= j < n :: picks[j]
  }

  /** One draw of the removal loop: the cleared cells are the distinct cells
      drawn so far, and a draw that hits a filled cell adds exactly one. */
  lemma PickStep(s: Grid, picks: seq<(int, int)>, i: nat)
    requires IsGrid(s) && i < |picks| && InBounds(picks[i].0, picks[i].1)
    requires EmptyCells(s) == Drawn(picks, i)
    ensures s[picks[i].0][picks[i].1] != Empty ==>
      var t := SetCell(s, picks[i].0, picks[i].1, Empty);
      EmptyCells(t) == Drawn(picks, i + 1) && |EmptyCells(t)| == |EmptyCells(s)| + 1
    ensures s[picks[i].0][picks[i].1] == Empty ==> EmptyCells(s) == Drawn(picks, i + 1)
  {
    var row, col := picks[i].0, picks[i].1;
    assert Drawn(picks, i + 1) == Drawn(picks, i) + {(row, col)};
    if s[row][col] != Empty {
      ClearGrows(s, row, col);
    } else {
      assert (row, col) in EmptyCells(s);
    }
  }

  // ---------------------------------------------------------------------
  // validateMove and isPuzzleComplete
  // ---------------------------------------------------------------------

  /** `validateMove`: the value matches the solution at that cell. */
  function ValidateMove(solution: Grid, row: int, col: int, value: int): (valid: bool)
    requires IsGrid(solution) && InBounds(row, col)
  {
    solution[row][col] == Num(value)
  }

  /** In a solved grid exactly one value validates at each cell, a digit 1..9. */
  lemma ValidateMoveUnique(solution: Grid, row: int, col: int, v: int, w: int)
    requires IsSolved(solution) && InBounds(row, col)
    requires ValidateMove(solution, row, col, v)
    ensures 1 <= v <= 9
    ensures ValidateMove(solution, row, col, w) <==> w == v
  {
  }

  /** `isPuzzleComplete`: the row-major scan for an empty cell. */
  method IsPuzzleComplete(board: Grid) returns (complete: bool)
    requires IsGrid(board)
    ensures complete <==> NoEmpty(board)
    ensures complete <==> EmptyCells(board) == {}
  {
    for row := 0 to 9
      invariant forall r, c :: 0 <= r < row && 0 <= c < 9 ==> board[r][c] != Empty
    {
      for col := 0 to 9
        invariant forall c :: 0 <= c < col ==> board[row][c] != Empty
      {
        if board[row][col] == Empty {
          assert (row, col) in EmptyCells(board);
          return false;
        }
      }
    }
    return true;
  }

  // ---------------------------------------------------------------------
  // gridToJson and jsonToGrid: the "row-col" record
  // ---------------------------------------------------------------------

  function DigitChar(d: int): char
    requires 0 <= d < 10
  {
    ('0' as int + d) as char
  }

  /** The record key `${row}-${col}` of a cell. */
  function Key(row: int, col: int): string
    requires InBounds(row, col)
  {
    [DigitChar(row), '-', DigitChar(col)]
  }

  /** A string of the form "r-c" with r, c in 0..8. */
  predicate IsCellKey(k: string) {
    |k| == 3 && '0' <= k[0] <= '8' && k[1] == '-' && '0' <= k[2] <= '8'
  }

  lemma KeyInjective(r1: int, c1: int, r2: int, c2: int)
    requires InBounds(r1, c1) && InBounds(r2, c2)
    ensures Key(r1, c1) == Key(r2, c2) <==> r1 == r2 && c1 == c2
  {
    if Key(r1, c1) == Key(r2, c2) {
      assert Key(r1, c1)[0] == Key(r2, c2)[0];
      assert Key(r1, c1)[2] == Key(r2, c2)[2];
    }
  }

  /** Every "r-c" key is the key of its own cell and of no other. */
  lemma CellKeyIsKey(k: string)
    requires IsCellKey(k)
    ensures InBounds(k[0] as int - '0' as int, k[2] as int - '0' as int)
    ensures k == Key(k[0] as int - '0' as int, k[2] as int - '0' as int)
  {
  }

  /** Cell (r, c) comes before cell (row, col) in row-major order. */
  predicate Before(r: int, c: int, row: int, col: int) {
    r < row || (r == row && c < col)
  }

  /** The record holding the cells before (row, col) in row-major order,
      as the nested loops of `gridToJson` fill it. */
  function JsonUpTo(s: Grid, row: int, col: int): map<string, Cell>
    requires IsGrid(s) && 0 <= row <= 9 && 0 <= col <= 9 && (row == 9 ==> col == 0)
    decreases row, col
  {
    if col > 0 then JsonUpTo(s, row, col - 1)[Key(row, col - 1) := s[row][col - 1]]
    else if row > 0 then JsonUpTo(s, row - 1, 9)
    else map[]
  }

  /** The record `gridToJson` builds. */
  function ToJson(s: Grid): map<string, Cell>
    requires IsGrid(s)
  {
    JsonUpTo(s, 9, 0)
  }

  lemma {:induction false} JsonUpToContents(s: Grid, row: int, col: int)
    requires IsGrid(s) && 0 <= row <= 9 && 0 <= col <= 9 && (row == 9 ==> col == 0)
    ensures forall k :: k in JsonUpTo(s, row, col) ==> IsCellKey(k)
    ensures forall r, c :: InBounds(r, c) ==> (Key(r, c) in JsonUpTo(s, row, col) <==> Before(r, c, row, col))
    ensures forall r, c :: InBounds(r, c) && Before(r, c, row, col) ==> JsonUpTo(s, row, col)[Key(r, c)] == s[r][c]
    ensures |JsonUpTo(s, row, col)| == 9 * row + col
    decreases row, col
  {
    if col > 0 {
      JsonUpToContents(s, row, col - 1);
      forall r, c | InBounds(r, c)
        ensures Key(r, c) == Key(row, col - 1) <==> r == row && c == col - 1
      {
        KeyInjective(r, c, row, col - 1);
      }
      assert Key(row, col - 1) !in JsonUpTo(s, row, col - 1);
    } else if row > 0 {
      JsonUpToContents(s, row - 1, 9);
    }
  }

  /** `gridToJson` produces exactly the 81 keys "r-c", each holding its cell. */
  lemma ToJsonContents(s: Grid)
    requires IsGrid(s)
    ensures forall k :: k in ToJson(s) <==> IsCellKey(k)
    ensures forall r, c :: InBounds(r, c) ==> Key(r, c) in ToJson(s) && ToJson(s)[Key(r, c)] == s[r][c]
    ensures |ToJson(s)| == 81
  {
    JsonUpToContents(s, 9, 0);
    forall k | IsCellKey(k)
      ensures k in ToJson(s)
    {
      CellKeyIsKey(k);
    }
  }

  /** The grid `jsonToGrid` builds: each cell read from its key, a missing key
      giving an empty cell. */
  function FromJson(json: map<string, Cell>): (s: Grid)
    ensures IsGrid(s)
  {
    seq(9, r requires 0 <= r < 9 =>
      seq(9, c requires 0 <= c < 9 => if Key(r, c) in json then json[Key(r, c)] else Empty))
  }

  /** Round trip: reading back the record of a grid gives the grid. */
  lemma JsonRoundTrip(s: Grid)
    requires IsGrid(s)
    ensures FromJson(ToJson(s)) == s
  {
    ToJsonContents(s);
    var t := FromJson(ToJson(s));
    forall r | 0 <= r < 9
      ensures t[r] == s[r]
    {
      assert forall c :: 0 <= c < 9 ==> t[r][c] == s[r][c];
    }
  }

  /** `gridToJson`: record every cell under its "row-col" key. */
  method GridToJson(g: array2<Cell>) returns (json: map<string, Cell>)
    requires g.Length0 == 9 && g.Length1 == 9
    ensures json == ToJson(Snapshot(g))
    ensures forall k :: k in json <==> IsCellKey(k)
    ensures forall r, c :: InBounds(r, c) ==> Key(r, c) in json && json[Key(r, c)] == g[r, c]
  {
    ghost var s := Snapshot(g);
    json := map[];
    for row := 0 to 9
      invariant json == JsonUpTo(s, row, 0)
    {
      for col := 0 to 9
        invariant json == JsonUpTo(s, row, col)
      {
        json := json[Key(row, col) := g[row, col]];
      }
    }
    ToJsonContents(s);
  }

  /** `jsonToGrid`: a fresh grid, each cell read from its key or left empty. */
  method JsonToGrid(json: map<string, Cell>) returns (grid: array2<Cell>)
    ensures fresh(grid) && grid.Length0 == 9 && grid.Length1 == 9
    ensures forall r, c :: InBounds(r, c) ==>
      grid[r, c] == if Key(r, c) in json then json[Key(r, c)] else Empty
    ensures Snapshot(grid) == FromJson(json)
  {
    grid := new Cell[9, 9]((_, _) => Empty);
    for row := 0 to 9
      invariant forall r, c :: 0 <= r < row && 0 <= c < 9 ==>
        grid[r, c] == if Key(r, c) in json then json[Key(r, c)] else Empty
    {
      for col := 0 to 9
        invariant forall r, c :: 0 <= r < row && 0 <= c < 9 ==>
          grid[r, c] == if Key(r, c) in json then json[Key(r, c)] else Empty
        invariant forall c :: 0 <= c < col ==>
          grid[row, c] == if Key(row, c) in json then json[Key(row, c)] else Empty
      {
        var key := Key(row, col);
        grid[row, col] := if key in json then json[key] else Empty;
      }
    }
    SnapshotIs(grid, FromJson(json));
  }
}
