/** The backtracking search of solveSudoku, as a function on board values.

    The search takes the first empty cell in row-major order, tries the
    digits 1..6 in ascending order, keeps the first digit that passes the
    rule and whose remaining board can be completed, and fails when none
    does.  `Solve` is that search; the lemmas below say what it computes:
    a completion that keeps every given digit (sound), one exists whenever
    any solution extends the board (complete), and it is the least solution
    in row-major order (the one found first). */
module Search {
  import opened Grid

  datatype Option<T> = None | Some(value: T)

  /** (r1, c1) comes strictly before (r2, c2) in row-major order. */
  predicate Before(r1: int, c1: int, r2: int, c2: int) {
    r1 < r2 || (r1 == r2 && c1 < c2)
  }

  /** No cell is empty. */
  ghost predicate NoEmpty(b: Board) {
    forall r, c :: InBounds(r, c) ==> b[r][c] != 0
  }

  /** Every cell before (r, c) in row-major order holds a digit. */
  ghost predicate FilledBefore(b: Board, r: int, c: int) {
    forall r2, c2 :: InBounds(r2, c2) && Before(r2, c2, r, c) ==> b[r2][c2] != 0
  }

  /** (r, c) is the first empty cell in row-major order: the cell at which
      the two nested scans of solveSudoku stop. */
  ghost predicate IsFirstEmpty(b: Board, r: int, c: int) {
    InBounds(r, c) && b[r][c] == 0 && FilledBefore(b, r, c)
  }

  /** Walking back from an empty cell to earlier empty cells ends at the
      first one. */
  lemma {:induction false} FirstEmptyExists(b: Board, r: int, c: int)
    requires InBounds(r, c) && b[r][c] == 0
    ensures exists r0, c0 :: IsFirstEmpty(b, r0, c0)
    decreases r, c
  {
    if FilledBefore(b, r, c) {
      assert IsFirstEmpty(b, r, c);
    } else {
      var r1, c1 :| InBounds(r1, c1) && Before(r1, c1, r, c) && b[r1][c1] == 0;
      FirstEmptyExists(b, r1, c1);
    }
  }

  /** There is only one first empty cell. */
  lemma FirstEmptyUnique(b: Board, r1: int, c1: int, r2: int, c2: int)
    requires IsFirstEmpty(b, r1, c1) && IsFirstEmpty(b, r2, c2)
    ensures r1 == r2 && c1 == c2
  {
  }

  /** The cell the scan of solveSudoku stops at, or None when it runs
      through the whole board. */
  ghost function FirstEmpty(b: Board): (res: Option<(int, int)>)
    ensures res.None? <==> NoEmpty(b)
    ensures res.Some? ==> IsFirstEmpty(b, res.value.0, res.value.1)
  {
    if NoEmpty(b) then None
    else
      var r, c :| InBounds(r, c) && b[r][c] == 0;
      FirstEmptyExists(b, r, c);
      var r0, c0 :| IsFirstEmpty(b, r0, c0);
      Some((r0, c0))
  }

  /** The empty cells of a board. */
  ghost function EmptyCells(b: Board): set<(int, int)> {
    set r, c | 0 <= r < Size && 0 <= c < Size && b[r][c] == 0 :: (r, c)
  }

  /** The number of empty cells: the measure that every recursive call of
      the search lowers. */
  ghost function Zeros(b: Board): nat {
    |EmptyCells(b)|
  }

  /** Writing a digit into an empty cell leaves one empty cell fewer. */
  lemma PlaceLowersZeros(b: Board, r: int, c: int, v: int)
    requires InBounds(r, c) && b[r][c] == 0 && v != 0
    ensures Zeros(Place(b, r, c, v)) == Zeros(b) - 1
  {
    var b' := Place(b, r, c, v);
    assert EmptyCells(b') == EmptyCells(b) - {(r, c)} by {
      forall p | p in EmptyCells(b) - {(r, c)} ensures p in EmptyCells(b') {
        assert b'[p.0][p.1] == b[p.0][p.1];
      }
    }
  }

  /** `s` and `t` agree on every cell before (r, c). */
  ghost predicate AgreeBefore(s: Board, t: Board, r: int, c: int) {
    forall r2, c2 :: InBounds(r2, c2) && Before(r2, c2, r, c) ==> s[r2][c2] == t[r2][c2]
  }

  /** `s` comes before `t` in the order in which the search meets complete
      boards (row-major cells, ascending digits): at the first cell where
      they differ, `s` holds the smaller value. */
  ghost predicate LexBefore(s: Board, t: Board) {
    exists r, c :: InBounds(r, c) && AgreeBefore(s, t, r, c) && s[r][c] < t[r][c]
  }

  /** `s` completes `b`: it keeps every digit of `b` and puts a digit
      1..6 in every cell `b` leaves empty. */
  ghost predicate Completes(b: Board, s: Board) {
    Extends(b, s) && forall r, c :: InBounds(r, c) && b[r][c] == 0 ==> 1 <= s[r][c] <= Size
  }

  /** solveSudoku on a board: a board without an empty cell is solved as
      it is; otherwise the digits are tried at the first empty cell. */
  ghost function Solve(b: Board): Option<Board>
    decreases Zeros(b), Size + 1
  {
    match FirstEmpty(b)
    case None => Some(b)
    case Some((r, c)) => TryDigits(b, r, c, 1)
  }

  /** The digit loop of solveSudoku at the empty cell (r, c), from `num`
      on: a digit that passes the rule is placed and the search recurses;
      the first success is the answer, and running out of digits fails. */
  ghost function TryDigits(b: Board, r: int, c: int, num: int): Option<Board>
    requires InBounds(r, c) && b[r][c] == 0 && 1 <= num <= Size + 1
    decreases Zeros(b), Size + 1 - num
  {
    if num > Size then None
    else if NoConflict(b, r, c, num) then
      PlaceLowersZeros(b, r, c, num);
      var res := Solve(Place(b, r, c, num));
      if res.Some? then res else TryDigits(b, r, c, num + 1)
    else TryDigits(b, r, c, num + 1)
  }

  /** A completion of `b` with `num` written at its empty cell (r, c)
      completes `b` and holds `num` there. */
  lemma CompletesPlaced(b: Board, r: int, c: int, num: int, s: Board)
    requires InBounds(r, c) && b[r][c] == 0 && 1 <= num <= Size
    requires Completes(Place(b, r, c, num), s)
    ensures Completes(b, s) && s[r][c] == num
  {
    var b' := Place(b, r, c, num);
    assert forall r2, c2 :: InBounds(r2, c2) && (r2, c2) != (r, c) ==> b'[r2][c2] == b[r2][c2];
  }

  /** The first digit that passes the rule and leads to a completion is
      the answer of the digit loop. */
  lemma TryDigitsPlaced(b: Board, r: int, c: int, num: int)
    requires InBounds(r, c) && b[r][c] == 0 && 1 <= num <= Size
    requires NoConflict(b, r, c, num) && Solve(Place(b, r, c, num)).Some?
    ensures TryDigits(b, r, c, num) == Solve(Place(b, r, c, num))
  {
  }

  /** A digit that fails the rule, or leads to no completion, is undone and
      the loop moves on to the next digit. */
  lemma TryDigitsSkipped(b: Board, r: int, c: int, num: int)
    requires InBounds(r, c) && b[r][c] == 0 && 1 <= num <= Size
    requires !NoConflict(b, r, c, num) || Solve(Place(b, r, c, num)).None?
    ensures TryDigits(b, r, c, num) == TryDigits(b, r, c, num + 1)
  {
  }

  /* The next lemmas carry one step of the digit loop each, so that the
     inductive proofs below never hold the unfolded loop in their own
     context. */

  lemma PlacedCompletes(b: Board, r: int, c: int, num: int)
    requires InBounds(r, c) && b[r][c] == 0 && 1 <= num <= Size
    requires NoConflict(b, r, c, num) && Solve(Place(b, r, c, num)).Some?
    requires Completes(Place(b, r, c, num), Solve(Place(b, r, c, num)).value)
    ensures TryDigits(b, r, c, num).Some? ==> Completes(b, TryDigits(b, r, c, num).value)
  {
    CompletesPlaced(b, r, c, num, Solve(Place(b, r, c, num)).value);
    TryDigitsPlaced(b, r, c, num);
  }

  lemma PlacedKeepsConsistent(b: Board, r: int, c: int, num: int)
    requires InBounds(r, c) && b[r][c] == 0 && 1 <= num <= Size
    requires NoConflict(b, r, c, num) && Solve(Place(b, r, c, num)).Some?
    requires Consistent(Solve(Place(b, r, c, num)).value)
    ensures TryDigits(b, r, c, num).Some? ==> Consistent(TryDigits(b, r, c, num).value)
  {
    TryDigitsPlaced(b, r, c, num);
  }

  lemma PlacedFindsLeast(b: Board, r: int, c: int, num: int, t: Board)
    requires InBounds(r, c) && b[r][c] == 0 && 1 <= num <= Size
    requires NoConflict(b, r, c, num) && Solve(Place(b, r, c, num)).Some?
    requires Solve(Place(b, r, c, num)).value == t || LexBefore(Solve(Place(b, r, c, num)).value, t)
    ensures TryDigits(b, r, c, num).Some?
    ensures TryDigits(b, r, c, num).value == t || LexBefore(TryDigits(b, r, c, num).value, t)
  {
    TryDigitsPlaced(b, r, c, num);
  }

  lemma SkippedCompletes(b: Board, r: int, c: int, num: int)
    requires InBounds(r, c) && b[r][c] == 0 && 1 <= num <= Size
    requires !(NoConflict(b, r, c, num) && Solve(Place(b, r, c, num)).Some?)
    requires TryDigits(b, r, c, num + 1).Some? ==> Completes(b, TryDigits(b, r, c, num + 1).value)
    ensures TryDigits(b, r, c, num).Some? ==> Completes(b, TryDigits(b, r, c, num).value)
  {
    TryDigitsSkipped(b, r, c, num);
  }

  lemma SkippedKeepsConsistent(b: Board, r: int, c: int, num: int)
    requires InBounds(r, c) && b[r][c] == 0 && 1 <= num <= Size
    requires !(NoConflict(b, r, c, num) && Solve(Place(b, r, c, num)).Some?)
    requires TryDigits(b, r, c, num + 1).Some? ==> Consistent(TryDigits(b, r, c, num + 1).value)
    ensures TryDigits(b, r, c, num).Some? ==> Consistent(TryDigits(b, r, c, num).value)
  {
    TryDigitsSkipped(b, r, c, num);
  }

  lemma SkippedFindsLeast(b: Board, r: int, c: int, num: int, t: Board)
    requires InBounds(r, c) && b[r][c] == 0 && 1 <= num <= Size
    requires !(NoConflict(b, r, c, num) && Solve(Place(b, r, c, num)).Some?)
    requires TryDigits(b, r, c, num + 1).Some?
    requires TryDigits(b, r, c, num + 1).value == t || LexBefore(TryDigits(b, r, c, num + 1).value, t)
    ensures TryDigits(b, r, c, num).Some?
    ensures TryDigits(b, r, c, num).value == t || LexBefore(TryDigits(b, r, c, num).value, t)
  {
    TryDigitsSkipped(b, r, c, num);
  }

  /** Soundness: a board the search returns keeps every given digit and
      fills every empty cell with a digit 1..6. */
  lemma {:induction false} SolveCompletes(b: Board)
    ensures Solve(b).Some? ==> Completes(b, Solve(b).value)
    decreases Zeros(b), Size + 1
  {
    match FirstEmpty(b)
    case None =>
    case Some((r, c)) => TryDigitsCompletes(b, r, c, 1);
  }

  lemma {:induction false} TryDigitsCompletes(b: Board, r: int, c: int, num: int)
    requires InBounds(r, c) && b[r][c] == 0 && 1 <= num <= Size + 1
    ensures TryDigits(b, r, c, num).Some? ==> Completes(b, TryDigits(b, r, c, num).value)
    decreases Zeros(b), Size + 1 - num
  {
    if num <= Size {
      var b' := Place(b, r, c, num);
      if NoConflict(b, r, c, num) && Solve(b').Some? {
        PlaceLowersZeros(b, r, c, num);
        SolveCompletes(b');
        PlacedCompletes(b, r, c, num);
      } else {
        TryDigitsCompletes(b, r, c, num + 1);
        SkippedCompletes(b, r, c, num);
      }
    }
  }

  /** Soundness, continued: the search only places digits that pass the
      rule, so a consistent board stays consistent. */
  lemma {:induction false} SolveKeepsConsistent(b: Board)
    requires Consistent(b)
    ensures Solve(b).Some? ==> Consistent(Solve(b).value)
    decreases Zeros(b), Size + 1
  {
    match FirstEmpty(b)
    case None =>
    case Some((r, c)) => TryDigitsKeepsConsistent(b, r, c, 1);
  }

  lemma {:induction false} TryDigitsKeepsConsistent(b: Board, r: int, c: int, num: int)
    requires InBounds(r, c) && b[r][c] == 0 && 1 <= num <= Size + 1
    requires Consistent(b)
    ensures TryDigits(b, r, c, num).Some? ==> Consistent(TryDigits(b, r, c, num).value)
    decreases Zeros(b), Size + 1 - num
  {
    if num <= Size {
      var b' := Place(b, r, c, num);
      if NoConflict(b, r, c, num) && Solve(b').Some? {
        PlaceLowersZeros(b, r, c, num);
        PlaceKeepsConsistent(b, r, c, num);
        SolveKeepsConsistent(b');
        PlacedKeepsConsistent(b, r, c, num);
      } else {
        TryDigitsKeepsConsistent(b, r, c, num + 1);
        SkippedKeepsConsistent(b, r, c, num);
      }
    }
  }

  /** Completeness and search order: when a solution `t` extends `b`, the
      search succeeds, and what it returns is `t` or comes before `t` in
      row-major order with ascending digits. */
  lemma {:induction false} SolveFindsLeast(b: Board, t: Board)
    requires IsSolution(t) && Extends(b, t)
    ensures Solve(b).Some?
    ensures Solve(b).value == t || LexBefore(Solve(b).value, t)
    decreases Zeros(b), Size + 1, 0
  {
    match FirstEmpty(b)
    case None =>
      BoardExt(b, t);
    case Some((r, c)) =>
      TryDigitsFindsLeast(b, r, c, 1, t);
  }

  lemma {:induction false} TryDigitsFindsLeast(b: Board, r: int, c: int, num: int, t: Board)
    requires IsFirstEmpty(b, r, c) && 1 <= num
    requires IsSolution(t) && Extends(b, t) && num <= t[r][c]
    ensures TryDigits(b, r, c, num).Some?
    ensures TryDigits(b, r, c, num).value == t || LexBefore(TryDigits(b, r, c, num).value, t)
    decreases Zeros(b), Size + 1 - num, 1
  {
    if t[r][c] == num {
      SolutionDigitFindsLeast(b, r, c, t);
    } else {
      SmallerDigitFindsLeast(b, r, c, num, t);
    }
  }

  /** A digit below the one `t` holds either completes the board, and
      that completion comes before `t`, or the loop moves on to the next
      digit. */
  lemma {:induction false} SmallerDigitFindsLeast(b: Board, r: int, c: int, num: int, t: Board)
    requires IsFirstEmpty(b, r, c) && 1 <= num
    requires IsSolution(t) && Extends(b, t) && num < t[r][c]
    ensures TryDigits(b, r, c, num).Some?
    ensures TryDigits(b, r, c, num).value == t || LexBefore(TryDigits(b, r, c, num).value, t)
    decreases Zeros(b), Size + 1 - num, 0
  {
    if NoConflict(b, r, c, num) && Solve(Place(b, r, c, num)).Some? {
      SmallerDigitFirst(b, r, c, num, t);
    } else {
      TryDigitsFindsLeast(b, r, c, num + 1, t);
      SkippedFindsLeast(b, r, c, num, t);
    }
  }

  /** The digit loop reaching the digit the solution `t` holds at the
      first empty cell finds `t` or a board before it. */
  lemma {:induction false} SolutionDigitFindsLeast(b: Board, r: int, c: int, t: Board)
    requires IsFirstEmpty(b, r, c)
    requires IsSolution(t) && Extends(b, t)
    ensures TryDigits(b, r, c, t[r][c]).Some?
    ensures TryDigits(b, r, c, t[r][c]).value == t ||
            LexBefore(TryDigits(b, r, c, t[r][c]).value, t)
    decreases Zeros(b), Size + 1 - t[r][c], 0
  {
    var num := t[r][c];
    SolutionDigitFits(b, t, r, c);
    PlaceLowersZeros(b, r, c, num);
    ExtendsPlaced(b, r, c, num, t);
    SolveFindsLeast(Place(b, r, c, num), t);
    PlacedFindsLeast(b, r, c, num, t);
  }

  /** A solution extending `b` that holds `num` at (r, c) extends `b` with
      `num` written there. */
  lemma ExtendsPlaced(b: Board, r: int, c: int, num: int, t: Board)
    requires InBounds(r, c) && Extends(b, t) && t[r][c] == num
    ensures Extends(Place(b, r, c, num), t)
  {
  }

  /** A completion found with a digit below the one a solution `t` holds
      at the first empty cell comes before `t`. */
  lemma SmallerDigitFirst(b: Board, r: int, c: int, num: int, t: Board)
    requires IsFirstEmpty(b, r, c) && 1 <= num <= Size
    requires Extends(b, t) && num < t[r][c]
    requires NoConflict(b, r, c, num) && Solve(Place(b, r, c, num)).Some?
    ensures TryDigits(b, r, c, num).Some? && LexBefore(TryDigits(b, r, c, num).value, t)
  {
    SolveCompletes(Place(b, r, c, num));
    var s := Solve(Place(b, r, c, num)).value;
    CompletesPlaced(b, r, c, num, s);
    assert AgreeBefore(s, t, r, c);
    TryDigitsPlaced(b, r, c, num);
  }

  /** The search decides solvability: on a consistent board with digits in
      range it succeeds exactly when some solution keeps all given digits,
      and what it returns is such a solution. */
  lemma SolveDecides(b: Board)
    requires InRange(b) && Consistent(b)
    ensures Solve(b).Some? <==> exists t :: IsSolution(t) && Extends(b, t)
    ensures Solve(b).Some? ==> IsSolution(Solve(b).value) && Extends(b, Solve(b).value)
  {
    SolveCompletes(b);
    SolveKeepsConsistent(b);
    if exists t :: IsSolution(t) && Extends(b, t) {
      var t :| IsSolution(t) && Extends(b, t);
      SolveFindsLeast(b, t);
    }
    if Solve(b).Some? {
      assert IsSolution(Solve(b).value) && Extends(b, Solve(b).value);
    }
  }

  /** The search returns the least solution: a solution that keeps every
      given digit and comes before every other such solution. */
  lemma SolveIsLeast(b: Board, t: Board)
    requires IsSolution(t) && Extends(b, t)
    ensures Solve(b).Some? && IsSolution(Solve(b).value) && Extends(b, Solve(b).value)
    ensures Solve(b).value == t || LexBefore(Solve(b).value, t)
  {
    assert InRange(b) by {
      forall r, c | InBounds(r, c) ensures 0 <= b[r][c] <= Size {
        if b[r][c] != 0 { assert b[r][c] == t[r][c]; }
      }
    }
    SolveFindsLeast(b, t);
    ExtendedBySolutionIsConsistent(b, t);
    SolveDecides(b);
  }

  /** A board without an empty cell is returned unchanged. */
  lemma SolveFullBoard(b: Board)
    requires NoEmpty(b)
    ensures Solve(b) == Some(b)
  {
  }

  /** Solving again what the search returned changes nothing. */
  lemma SolveIdempotent(b: Board)
    requires Solve(b).Some?
    ensures Solve(Solve(b).value) == Solve(b)
  {
    SolveCompletes(b);
    var s := Solve(b).value;
    assert forall r, c :: InBounds(r, c) ==> s[r][c] != 0 by {
      forall r, c | InBounds(r, c) ensures s[r][c] != 0 {
        if b[r][c] == 0 { assert 1 <= s[r][c]; }
      }
    }
    SolveFullBoard(s);
  }

  /** LexBefore is a strict order: two boards are never before each other,
      and no board is before itself, so the least solution is unique. */
  lemma LexBeforeAsymmetric(s: Board, t: Board)
    requires LexBefore(s, t)
    ensures !LexBefore(t, s) && s != t
  {
    var r, c :| InBounds(r, c) && AgreeBefore(s, t, r, c) && s[r][c] < t[r][c];
    forall r', c' | InBounds(r', c') && AgreeBefore(t, s, r', c') ensures t[r'][c'] >= s[r'][c'] {
    }
  }

  /** Two different boards are ordered one way or the other. */
  lemma LexBeforeTotal(s: Board, t: Board)
    requires s != t
    ensures LexBefore(s, t) || LexBefore(t, s)
  {
    var r, c :| InBounds(r, c) && s[r][c] != t[r][c] by {
      if forall r, c :: InBounds(r, c) ==> s[r][c] == t[r][c] {
        BoardExt(s, t);
      }
    }
    FirstDiffExists(s, t, r, c);
    var r0, c0 :| InBounds(r0, c0) && AgreeBefore(s, t, r0, c0) && s[r0][c0] != t[r0][c0];
    if s[r0][c0] > t[r0][c0] {
      assert AgreeBefore(t, s, r0, c0);
    }
  }

  /** Walking back from a cell where two boards differ to earlier such
      cells ends at the first one. */
  lemma {:induction false} FirstDiffExists(s: Board, t: Board, r: int, c: int)
    requires InBounds(r, c) && s[r][c] != t[r][c]
    ensures exists r0, c0 :: InBounds(r0, c0) && AgreeBefore(s, t, r0, c0) && s[r0][c0] != t[r0][c0]
    decreases r, c
  {
    if AgreeBefore(s, t, r, c) {
    } else {
      var r1, c1 :| InBounds(r1, c1) && Before(r1, c1, r, c) && s[r1][c1] != t[r1][c1];
      FirstDiffExists(s, t, r1, c1);
    }
  }
}
