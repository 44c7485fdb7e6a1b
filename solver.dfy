/** The page's solver on its 6x6 array: the grid check run before
    solving, the in-place backtracking solver, and the Solve button's
    handler that ties them together. */
module Solver {
  import opened Grid
  import opened Search

  /** Every digit at a cell before (row, col) in row-major order passes
      the rule. */
  ghost predicate ConsistentBefore(b: Board, row: int, col: int) {
    forall r, c :: InBounds(r, c) && Before(r, c, row, col) && b[r][c] != 0 ==> NoConflict(b, r, c, b[r][c])
  }

  /** Writing `v` at (r, c) of the array gives the board `Place(b, r, c, v)`. */
  lemma SnapshotPlaced(b: Board, d: Board, r: int, c: int, v: int)
    requires InBounds(r, c)
    requires d[r][c] == v
    requires forall r2, c2 :: InBounds(r2, c2) && (r2, c2) != (r, c) ==> d[r2][c2] == b[r2][c2]
    ensures d == Place(b, r, c, v)
  {
    BoardExt(d, Place(b, r, c, v));
  }

  /** validateGrid of script.js: each placed digit is blanked, checked
      with isValid against the rest of the board, and written back, on the
      early exit as well.  The answer is whether the board is consistent,
      and the grid ends as it started. */
  method ValidateGrid(g: array2<int>) returns (ok: bool)
    requires IsGrid(g)
    modifies g
    ensures ok == Consistent(old(Snapshot(g)))
    ensures Snapshot(g) == old(Snapshot(g))
  {
    ghost var b := Snapshot(g);
    for row := 0 to Size
      invariant Snapshot(g) == b
      invariant ConsistentBefore(b, row, 0)
    {
      for col := 0 to Size
        invariant Snapshot(g) == b
        invariant ConsistentBefore(b, row, col)
      {
        if g[row, col] != 0 {
          var num := g[row, col];
          g[row, col] := 0;
          SnapshotPlaced(b, Snapshot(g), row, col, 0);
          var valid := IsValid(g, row, col, num);
          NoConflictIgnoresOwnCell(b, row, col, num, 0);
          if !valid {
            g[row, col] := num;
            BoardExt(Snapshot(g), b);
            return false;
          }
          g[row, col] := num;
          BoardExt(Snapshot(g), b);
        }
      }
    }
    return true;
  }

  /** solveSudoku of script.js: find the first empty cell and try the
      digits there; with no empty cell the board is solved.  The array ends
      holding what `Solve` computes on the starting board, or, when the
      search fails, exactly the starting board. */
  method SolveSudoku(g: array2<int>) returns (solved: bool)
    requires IsGrid(g)
    modifies g
    ensures solved == Solve(old(Snapshot(g))).Some?
    ensures solved ==> Snapshot(g) == Solve(old(Snapshot(g))).value
    ensures !solved ==> Snapshot(g) == old(Snapshot(g))
    decreases Zeros(Snapshot(g)), 2
  {
    ghost var b := Snapshot(g);
    for row := 0 to Size
      invariant Snapshot(g) == b
      invariant FilledBefore(b, row, 0)
    {
      for col := 0 to Size
        invariant Snapshot(g) == b
        invariant FilledBefore(b, row, col)
      {
        if g[row, col] == 0 {
          FirstEmptyUnique(b, row, col, FirstEmpty(b).value.0, FirstEmpty(b).value.1);
          solved := TryDigitsAt(g, row, col);
          return;
        }
      }
    }
    return true;
  }

  /** The digit loop of solveSudoku at the empty cell (row, col): the
      digits 1..6 are tried in turn until one leads to a solved board.
      The outcome is the one `TryDigits` gives from digit 1. */
  method TryDigitsAt(g: array2<int>, row: int, col: int) returns (solved: bool)
    requires IsGrid(g) && InBounds(row, col) && g[row, col] == 0
    modifies g
    ensures solved == TryDigits(old(Snapshot(g)), row, col, 1).Some?
    ensures solved ==> Snapshot(g) == TryDigits(old(Snapshot(g)), row, col, 1).value
    ensures !solved ==> Snapshot(g) == old(Snapshot(g))
    decreases Zeros(Snapshot(g)), 1
  {
    ghost var b := Snapshot(g);
    for num := 1 to Size + 1
      invariant Snapshot(g) == b
      invariant TryDigits(b, row, col, num) == TryDigits(b, row, col, 1)
    {
      var found := TryDigit(g, row, col, num);
      if found {
        TryDigitsPlaced(b, row, col, num);
        return true;
      }
      TryDigitsSkipped(b, row, col, num);
    }
    return false;
  }

  /** One pass of the digit loop: when isValid accepts `num` it is placed
      and the search recurses; a failed recursion resets the cell to 0. */
  method TryDigit(g: array2<int>, row: int, col: int, num: int) returns (found: bool)
    requires IsGrid(g) && InBounds(row, col) && g[row, col] == 0 && 1 <= num <= Size
    modifies g
    ensures found == (NoConflict(old(Snapshot(g)), row, col, num) &&
                      Solve(Place(old(Snapshot(g)), row, col, num)).Some?)
    ensures found ==> Snapshot(g) == Solve(Place(old(Snapshot(g)), row, col, num)).value
    ensures !found ==> Snapshot(g) == old(Snapshot(g))
    decreases Zeros(Snapshot(g)), 0
  {
    ghost var b := Snapshot(g);
    var valid := IsValid(g, row, col, num);
    if !valid {
      return false;
    }
    g[row, col] := num;
    SnapshotPlaced(b, Snapshot(g), row, col, num);
    PlaceLowersZeros(b, row, col, num);
    found := SolveSudoku(g);
    if !found {
      g[row, col] := 0;
      BoardExt(Snapshot(g), b);
    }
  }

  /** No cell holds a digit. */
  ghost predicate Blank(b: Board) {
    forall r, c :: InBounds(r, c) ==> b[r][c] == 0
  }

  /** The "has any numbers" test of the Solve button: the rows are scanned
      in turn and the scan stops at the first nonzero cell. */
  method HasNumbers(g: array2<int>) returns (has: bool)
    requires IsGrid(g)
    ensures has == !Blank(Snapshot(g))
  {
    for row := 0 to Size
      invariant forall r, c :: 0 <= r < row && 0 <= c < Size ==> g[r, c] == 0
    {
      for col := 0 to Size
        invariant forall c :: 0 <= c < col ==> g[row, c] == 0
      {
        if g[row, col] != 0 {
          return true;
        }
      }
    }
    return false;
  }

  /** What the Solve button reports. */
  datatype Outcome = InvalidPuzzle | NoNumbers | Solved | NoSolution

  /** The button's decision on a board: reject an inconsistent board, then
      an empty one, then report whether the search succeeds. */
  ghost function Verdict(b: Board): Outcome {
    if !Consistent(b) then InvalidPuzzle
    else if Blank(b) then NoNumbers
    else if Solve(b).Some? then Solved
    else NoSolution
  }

  /** handleSolve of script.js without the page: validate, require some
      digit, solve a copy, and write the copy back only when it was
      solved.  Every outcome but Solved leaves the grid as it was. */
  method HandleSolve(g: array2<int>) returns (outcome: Outcome)
    requires IsGrid(g)
    modifies g
    ensures outcome == Verdict(old(Snapshot(g)))
    ensures outcome == Solved ==> Snapshot(g) == Solve(old(Snapshot(g))).value
    ensures outcome != Solved ==> Snapshot(g) == old(Snapshot(g))
  {
    var valid := ValidateGrid(g);
    if !valid {
      return InvalidPuzzle;
    }
    var has := HasNumbers(g);
    if !has {
      return NoNumbers;
    }
    var copy := CopyGrid(g);
    var solved := SolveSudoku(copy);
    if !solved {
      return NoSolution;
    }
    CopyInto(copy, g);
    return Solved;
  }

  /** The copy handleSolve solves on: a new array holding the same board. */
  method CopyGrid(g: array2<int>) returns (copy: array2<int>)
    requires IsGrid(g)
    ensures fresh(copy) && IsGrid(copy)
    ensures Snapshot(copy) == Snapshot(g)
  {
    copy := new int[Size, Size];
    for i := 0 to Size
      invariant forall r, c :: 0 <= r < i && 0 <= c < Size ==> copy[r, c] == g[r, c]
    {
      for j := 0 to Size
        invariant forall r, c :: 0 <= r < i && 0 <= c < Size ==> copy[r, c] == g[r, c]
        invariant forall c :: 0 <= c < j ==> copy[i, c] == g[i, c]
      {
        copy[i, j] := g[i, j];
      }
    }
    BoardExt(Snapshot(copy), Snapshot(g));
  }

  /** The write-back of a solved copy: every cell of `dst` takes the value
      of the same cell of `src`. */
  method CopyInto(src: array2<int>, dst: array2<int>)
    requires IsGrid(src) && IsGrid(dst) && src != dst
    modifies dst
    ensures Snapshot(dst) == Snapshot(src)
  {
    for i := 0 to Size
      invariant forall r, c :: 0 <= r < i && 0 <= c < Size ==> dst[r, c] == src[r, c]
    {
      for j := 0 to Size
        invariant forall r, c :: 0 <= r < i && 0 <= c < Size ==> dst[r, c] == src[r, c]
        invariant forall c :: 0 <= c < j ==> dst[i, c] == src[i, c]
      {
        dst[i, j] := src[i, j];
      }
    }
    BoardExt(Snapshot(dst), Snapshot(src));
  }

  /** What each outcome means for a board the input handler can produce:
      Solved exactly when the board is consistent, not empty and some
      solution keeps its digits, and then the written board is such a
      solution; NoSolution exactly when no solution keeps them. */
  lemma VerdictMeaning(b: Board)
    requires InRange(b)
    ensures Verdict(b) == InvalidPuzzle <==> !Consistent(b)
    ensures Verdict(b) == NoNumbers <==> Consistent(b) && Blank(b)
    ensures Verdict(b) == Solved <==>
      Consistent(b) && !Blank(b) && exists t :: IsSolution(t) && Extends(b, t)
    ensures Verdict(b) == NoSolution <==>
      Consistent(b) && !Blank(b) && !exists t :: IsSolution(t) && Extends(b, t)
    ensures Verdict(b) == Solved ==> IsSolution(Solve(b).value) && Extends(b, Solve(b).value)
  {
    if Consistent(b) {
      SolveDecides(b);
    }
  }
}
