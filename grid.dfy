/** The 6x6 mini-sudoku board and the placement-validity rule.

    A board has six rows, six columns and six 2x3 regions; a cell holds 0
    (empty) or a digit 1..6.  The page keeps the board in a 6x6 array that
    the solver changes in place; `Snapshot` gives the value of that array
    as a sequence of rows, on which the rule is stated. */
module Grid {

  const Size := 6
  const RegionRows := 2
  const RegionCols := 3

  /** A board as a value: six rows of six cells, in row-major order. */
  type Board = b: seq<seq<int>> | |b| == Size && forall r :: 0 <= r < |b| ==> |b[r]| == Size
    witness seq(Size, r => seq(Size, c => 0))

  predicate InBounds(r: int, c: int) {
    0 <= r < Size && 0 <= c < Size
  }

  /** The top row and the left column of the 2x3 region holding (r, c),
      as script.js computes them: the index rounded down to a multiple of
      the region's height or width.  The region lies on the board and holds
      the cell. */
  function RegionRow(r: int): (top: int)
    requires 0 <= r < Size
    ensures top % RegionRows == 0 && 0 <= top <= r < top + RegionRows <= Size
  {
    r / RegionRows * RegionRows
  }

  function RegionCol(c: int): (left: int)
    requires 0 <= c < Size
    ensures left % RegionCols == 0 && 0 <= left <= c < left + RegionCols <= Size
  {
    c / RegionCols * RegionCols
  }

  /** Which of the three bands of rows (0-1, 2-3, 4-5) and which of the
      two stacks of columns (0-2, 3-5) a cell lies in. */
  function Band(r: int): int { if r < 2 then 0 else if r < 4 then 1 else 2 }
  function Stack(c: int): int { if c < 3 then 0 else 1 }

  /** The six regions tile the board: two cells share one exactly when
      they lie in the same band and the same stack. */
  predicate SameRegion(r1: int, c1: int, r2: int, c2: int)
    requires InBounds(r1, c1) && InBounds(r2, c2)
  {
    Band(r1) == Band(r2) && Stack(c1) == Stack(c2)
  }

  /** Two distinct cells constrain each other when they share a row, a
      column or a region. */
  predicate Peer(r1: int, c1: int, r2: int, c2: int)
    requires InBounds(r1, c1) && InBounds(r2, c2)
  {
    (r1, c1) != (r2, c2) && (r1 == r2 || c1 == c2 || SameRegion(r1, c1, r2, c2))
  }

  /** `num` may stand at (r, c): no peer of (r, c) holds it.  The cell
      itself is not its own peer, so its current content is irrelevant. */
  ghost predicate NoConflict(b: Board, r: int, c: int, num: int)
    requires InBounds(r, c)
  {
    forall r2, c2 :: InBounds(r2, c2) && Peer(r, c, r2, c2) ==> b[r2][c2] != num
  }

  /** Every placed digit passes the rule against the rest of the board. */
  ghost predicate Consistent(b: Board) {
    forall r, c :: InBounds(r, c) && b[r][c] != 0 ==> NoConflict(b, r, c, b[r][c])
  }

  /** Every cell holds a digit 1..6. */
  ghost predicate Full(b: Board) {
    forall r, c :: InBounds(r, c) ==> 1 <= b[r][c] <= Size
  }

  /** Every cell holds 0..6, the range the input handler lets through. */
  ghost predicate InRange(b: Board) {
    forall r, c :: InBounds(r, c) ==> 0 <= b[r][c] <= Size
  }

  ghost predicate IsSolution(s: Board) {
    Full(s) && Consistent(s)
  }

  /** `s` keeps every digit already placed on `b`. */
  ghost predicate Extends(b: Board, s: Board) {
    forall r, c :: InBounds(r, c) && b[r][c] != 0 ==> s[r][c] == b[r][c]
  }

  /** `b` with `v` written at (r, c). */
  function Place(b: Board, r: int, c: int, v: int): Board
    requires InBounds(r, c)
  {
    b[r := b[r][c := v]]
  }

  predicate IsGrid(g: array2<int>) {
    g.Length0 == Size && g.Length1 == Size
  }

  /** The board an array currently holds. */
  ghost function Snapshot(g: array2<int>): (b: Board)
    reads g
    requires IsGrid(g)
    ensures forall r, c :: InBounds(r, c) ==> b[r][c] == g[r, c]
  {
    seq(Size, r requires 0 <= r < Size reads g => seq(Size, c requires 0 <= c < Size reads g => g[r, c]))
  }

  /** Two boards that agree on every cell are equal. */
  lemma BoardExt(b: Board, d: Board)
    requires forall r, c :: InBounds(r, c) ==> b[r][c] == d[r][c]
    ensures b == d
  {
    forall r | 0 <= r < Size ensures b[r] == d[r] {
      assert forall c :: 0 <= c < Size ==> b[r][c] == d[r][c];
    }
  }

  /** The region of (r, c) is the 2x3 block whose top-left corner is
      (RegionRow(r), RegionCol(c)). */
  lemma RegionBlock(r: int, c: int, r2: int, c2: int)
    requires InBounds(r, c) && InBounds(r2, c2)
    ensures SameRegion(r, c, r2, c2) <==>
      RegionRow(r) <= r2 < RegionRow(r) + RegionRows && RegionCol(c) <= c2 < RegionCol(c) + RegionCols
  {
  }

  /** The three checks of the source, each skipping the tested cell. */
  ghost predicate RowFree(b: Board, r: int, c: int, num: int)
    requires InBounds(r, c)
  {
    forall x :: 0 <= x < Size && x != c ==> b[r][x] != num
  }

  ghost predicate ColumnFree(b: Board, r: int, c: int, num: int)
    requires InBounds(r, c)
  {
    forall x :: 0 <= x < Size && x != r ==> b[x][c] != num
  }

  /** The first `rows` rows of the 2x3 block whose top-left cell is
      (top, left) hold no `num` outside (r, c). */
  ghost predicate BlockFreeUpTo(b: Board, top: int, left: int, r: int, c: int, num: int, rows: int)
    requires 0 <= top && top + rows <= Size && 0 <= left && left + RegionCols <= Size
  {
    forall r2, c2 ::
      (top <= r2 < top + rows && left <= c2 < left + RegionCols && (r2, c2) != (r, c)) ==> b[r2][c2] != num
  }

  /** A block row free of `num` extends the free rows of the block by one. */
  lemma BlockFreeNextRow(b: Board, top: int, left: int, r: int, c: int, num: int, rows: int, next: int)
    requires 0 <= top && 0 <= rows && next == top + rows < Size && 0 <= left && left + RegionCols <= Size
    requires BlockFreeUpTo(b, top, left, r, c, num, rows)
    requires forall c2 :: left <= c2 < left + RegionCols && (next != r || c2 != c) ==> b[next][c2] != num
    ensures BlockFreeUpTo(b, top, left, r, c, num, rows + 1)
  {
  }

  ghost predicate RegionFree(b: Board, r: int, c: int, num: int)
    requires InBounds(r, c)
  {
    BlockFreeUpTo(b, RegionRow(r), RegionCol(c), r, c, num, RegionRows)
  }

  /** The rule is exactly the conjunction of the row, column and region
      checks. */
  lemma {:induction false} NoConflictThreeChecks(b: Board, r: int, c: int, num: int)
    requires InBounds(r, c)
    ensures NoConflict(b, r, c, num) <==>
      RowFree(b, r, c, num) && ColumnFree(b, r, c, num) && RegionFree(b, r, c, num)
  {
    if NoConflict(b, r, c, num) {
      forall r2, c2 | RegionRow(r) <= r2 < RegionRow(r) + RegionRows &&
        RegionCol(c) <= c2 < RegionCol(c) + RegionCols && (r2, c2) != (r, c)
        ensures b[r2][c2] != num
      {
        RegionBlock(r, c, r2, c2);
        assert Peer(r, c, r2, c2);
      }
    }
    if !NoConflict(b, r, c, num) {
      var r2, c2 :| InBounds(r2, c2) && Peer(r, c, r2, c2) && b[r2][c2] == num;
      if r2 != r && c2 != c {
        RegionBlock(r, c, r2, c2);
      }
    }
  }

  /** The value held at the tested cell never matters. */
  lemma NoConflictIgnoresOwnCell(b: Board, r: int, c: int, num: int, v: int)
    requires InBounds(r, c)
    ensures NoConflict(Place(b, r, c, v), r, c, num) == NoConflict(b, r, c, num)
  {
    var b' := Place(b, r, c, v);
    assert forall r2, c2 :: InBounds(r2, c2) && Peer(r, c, r2, c2) ==> b'[r2][c2] == b[r2][c2];
  }

  /** Conflicts are symmetric: whichever of two equal peer digits is the
      one being tested, the rule rejects it. */
  lemma ConflictSymmetric(b: Board, r1: int, c1: int, r2: int, c2: int)
    requires InBounds(r1, c1) && InBounds(r2, c2) && Peer(r1, c1, r2, c2)
    requires b[r1][c1] != 0 && b[r1][c1] == b[r2][c2]
    ensures !NoConflict(b, r1, c1, b[r1][c1]) && !NoConflict(b, r2, c2, b[r2][c2])
    ensures !Consistent(b)
  {
    assert Peer(r2, c2, r1, c1);
  }

  /** Writing a digit that passes the rule keeps a consistent board
      consistent. */
  lemma {:induction false} PlaceKeepsConsistent(b: Board, r: int, c: int, num: int)
    requires InBounds(r, c) && b[r][c] == 0 && num != 0
    requires Consistent(b) && NoConflict(b, r, c, num)
    ensures Consistent(Place(b, r, c, num))
  {
    var b' := Place(b, r, c, num);
    forall r1, c1 | InBounds(r1, c1) && b'[r1][c1] != 0 ensures NoConflict(b', r1, c1, b'[r1][c1]) {
      if (r1, c1) == (r, c) {
        NoConflictIgnoresOwnCell(b, r, c, num, num);
      } else {
        var v := b[r1][c1];
        assert NoConflict(b, r1, c1, v);
        forall r2, c2 | InBounds(r2, c2) && Peer(r1, c1, r2, c2) ensures b'[r2][c2] != v {
          if (r2, c2) == (r, c) {
            assert Peer(r, c, r1, c1);
          }
        }
      }
    }
  }

  /** A digit a solution puts at an empty cell of a board it extends
      passes the rule on that board. */
  lemma SolutionDigitFits(b: Board, s: Board, r: int, c: int)
    requires IsSolution(s) && Extends(b, s) && InBounds(r, c)
    ensures NoConflict(b, r, c, s[r][c])
  {
    assert NoConflict(s, r, c, s[r][c]);
  }

  /** A board some solution extends is consistent. */
  lemma ExtendedBySolutionIsConsistent(b: Board, s: Board)
    requires IsSolution(s) && Extends(b, s)
    ensures Consistent(b)
  {
    forall r, c | InBounds(r, c) && b[r][c] != 0 ensures NoConflict(b, r, c, b[r][c]) {
      SolutionDigitFits(b, s, r, c);
    }
  }

  /** A row, column or region of a solved board: six different digits,
      each from 1..6, so each of 1..6 once. */
  predicate FullUnit(u: seq<int>) {
    |u| == Size && (forall i :: 0 <= i < |u| ==> 1 <= u[i] <= Size) &&
    forall i, j :: 0 <= i < j < |u| ==> u[i] != u[j]
  }

  /** Column c, top to bottom. */
  function Column(b: Board, c: int): (col: seq<int>)
    requires 0 <= c < Size
    ensures |col| == Size && forall r :: 0 <= r < Size ==> col[r] == b[r][c]
  {
    seq(Size, r requires 0 <= r < Size => b[r][c])
  }

  /** The region in band `band` (rows 2*band, 2*band+1) and stack `stack`
      (columns 3*stack .. 3*stack+2), row by row. */
  function Region(b: Board, band: int, stack: int): (reg: seq<int>)
    requires 0 <= band < 3 && 0 <= stack < 2
    ensures |reg| == Size
  {
    seq(Size, i requires 0 <= i < Size => b[band * RegionRows + i / RegionCols][stack * RegionCols + i % RegionCols])
  }

  /** Where cell (r, c) sits in its region, counted row by row. */
  function RegionIndex(r: int, c: int): (i: int)
    requires InBounds(r, c)
    ensures 0 <= i < Size
  {
    (r - Band(r) * RegionRows) * RegionCols + (c - Stack(c) * RegionCols)
  }

  /** Cell (r, c) is at its place in its region. */
  lemma RegionCell(b: Board, r: int, c: int)
    requires InBounds(r, c)
    ensures Region(b, Band(r), Stack(c))[RegionIndex(r, c)] == b[r][c]
  {
  }

  /** The usual statement of a solved sudoku: every row, every column and
      every region holds each digit 1..6 exactly once. */
  ghost predicate UnitsComplete(b: Board) {
    (forall i :: 0 <= i < Size ==> FullUnit(b[i]) && FullUnit(Column(b, i))) &&
    (forall band, stack :: 0 <= band < 3 && 0 <= stack < 2 ==> FullUnit(Region(b, band, stack)))
  }

  /** Two peers of a board whose units each hold 1..6 once hold different
      digits: they share a row, a column or a region. */
  lemma UnitsCompletePeer(b: Board, r: int, c: int, r2: int, c2: int)
    requires UnitsComplete(b) && InBounds(r, c) && InBounds(r2, c2) && Peer(r, c, r2, c2)
    ensures b[r2][c2] != b[r][c]
  {
    if r == r2 {
      assert FullUnit(b[r]);
    } else if c == c2 {
      assert FullUnit(Column(b, c)) && Column(b, c)[r] == b[r][c] && Column(b, c)[r2] == b[r2][c];
    } else {
      RegionPeer(b, r, c, r2, c2);
    }
  }

  lemma RegionPeer(b: Board, r: int, c: int, r2: int, c2: int)
    requires InBounds(r, c) && InBounds(r2, c2) && SameRegion(r, c, r2, c2) && (r, c) != (r2, c2)
    requires FullUnit(Region(b, Band(r), Stack(c)))
    ensures b[r2][c2] != b[r][c]
  {
    RegionCell(b, r, c);
    RegionCell(b, r2, c2);
    assert RegionIndex(r, c) != RegionIndex(r2, c2);
  }

  /** A board whose rows, columns and regions each hold 1..6 once is a
      solution under the peer rule. */
  lemma UnitsCompleteIsSolution(b: Board)
    requires UnitsComplete(b)
    ensures IsSolution(b)
  {
    forall r, c | InBounds(r, c) ensures 1 <= b[r][c] <= Size {
      assert FullUnit(b[r]);
    }
    forall r, c, r2, c2 | InBounds(r, c) && InBounds(r2, c2) && Peer(r, c, r2, c2)
      ensures b[r2][c2] != b[r][c]
    {
      UnitsCompletePeer(b, r, c, r2, c2);
    }
  }

  /** isValid of script.js: the row, the column and the 2x3 region are
      scanned in turn, each skipping (row, col), and the first cell that
      holds `num` makes the answer false.  It only reads the grid. */
  method IsValid(g: array2<int>, row: int, col: int, num: int) returns (ok: bool)
    requires IsGrid(g) && InBounds(row, col)
    ensures ok == NoConflict(Snapshot(g), row, col, num)
  {
    ghost var b := Snapshot(g);
    NoConflictThreeChecks(b, row, col, num);
    for x := 0 to Size
      invariant forall x' :: 0 <= x' < x && x' != col ==> b[row][x'] != num
    {
      if x != col && g[row, x] == num {
        return false;
      }
    }
    for x := 0 to Size
      invariant forall x' :: 0 <= x' < x && x' != row ==> b[x'][col] != num
    {
      if x != row && g[x, col] == num {
        return false;
      }
    }
    var startRow := RegionRow(row);
    var startCol := RegionCol(col);
    for i := 0 to RegionRows
      invariant BlockFreeUpTo(b, startRow, startCol, row, col, num, i)
    {
      var currentRow := startRow + i;
      for j := 0 to RegionCols
        invariant forall c2 :: startCol <= c2 < startCol + j && (currentRow != row || c2 != col) ==>
          b[currentRow][c2] != num
      {
        var currentCol := startCol + j;
        if (currentRow != row || currentCol != col) && g[currentRow, currentCol] == num {
          return false;
        }
      }
      BlockFreeNextRow(b, startRow, startCol, row, col, num, i, currentRow);
    }
    return true;
  }
}
