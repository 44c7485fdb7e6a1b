/** Concrete boards: the conflicts the rule rejects, and the example
    puzzle the page loads. */
module Examples {
  import opened Grid
  import opened Search
  import opened Solver

  const Empty: Board := seq(Size, r => seq(Size, c => 0))

  /** The example puzzle of handleExample. */
  const Example: Board := [
    [0, 0, 4, 0, 0, 0],
    [0, 3, 0, 5, 0, 0],
    [4, 0, 0, 0, 3, 0],
    [2, 0, 0, 0, 5, 0],
    [0, 1, 0, 4, 0, 0],
    [0, 0, 2, 0, 0, 0]
  ]

  /** A solution of the example puzzle. */
  const ExampleSolution: Board := [
    [5, 2, 4, 3, 6, 1],
    [1, 3, 6, 5, 4, 2],
    [4, 5, 1, 2, 3, 6],
    [2, 6, 3, 1, 5, 4],
    [6, 1, 5, 4, 2, 3],
    [3, 4, 2, 6, 1, 5]
  ]

  /** A 3 at (0, 0) forbids a 3 at (1, 2), which shares its region but
      neither its row nor its column; 4 is still allowed there. */
  lemma RegionConflict()
    ensures !NoConflict(Place(Empty, 0, 0, 3), 1, 2, 3)
    ensures NoConflict(Place(Empty, 0, 0, 3), 1, 2, 4)
    ensures !Consistent(Place(Place(Empty, 0, 0, 3), 1, 2, 3))
  {
    var b := Place(Empty, 0, 0, 3);
    assert Peer(1, 2, 0, 0) && b[0][0] == 3;
    ConflictSymmetric(Place(b, 1, 2, 3), 0, 0, 1, 2);
  }

  /** Two 5s in row 0 make the board inconsistent, and two 2s in column 4
      do too. */
  lemma RowAndColumnConflicts()
    ensures !Consistent(Place(Place(Empty, 0, 1, 5), 0, 4, 5))
    ensures !Consistent(Place(Place(Empty, 1, 4, 2), 5, 4, 2))
  {
    ConflictSymmetric(Place(Place(Empty, 0, 1, 5), 0, 4, 5), 0, 1, 0, 4);
    ConflictSymmetric(Place(Place(Empty, 1, 4, 2), 5, 4, 2), 1, 4, 5, 4);
  }

  /** `FullUnit` written out cell by cell (six digits from 1..6, no two
      equal), which keeps the proofs about concrete boards cheap. */
  predicate SixDigits(u: seq<int>) {
    |u| == Size &&
    1 <= u[0] <= Size && 1 <= u[1] <= Size && 1 <= u[2] <= Size &&
    1 <= u[3] <= Size && 1 <= u[4] <= Size && 1 <= u[5] <= Size &&
    u[0] != u[1] && u[0] != u[2] && u[0] != u[3] && u[0] != u[4] && u[0] != u[5] &&
    u[1] != u[2] && u[1] != u[3] && u[1] != u[4] && u[1] != u[5] &&
    u[2] != u[3] && u[2] != u[4] && u[2] != u[5] &&
    u[3] != u[4] && u[3] != u[5] &&
    u[4] != u[5]
  }

  /** Passing the written-out check makes a full unit. */
  lemma SixDigitsFull(u: seq<int>)
    requires SixDigits(u)
    ensures FullUnit(u)
  {
    forall i, j | 0 <= i < j < |u| ensures u[i] != u[j] {
    }
  }

  /** Each row, column and region of the example solution holds 1..6
      once. */
  lemma ExampleSolutionRows()
    ensures forall i :: 0 <= i < Size ==> FullUnit(ExampleSolution[i])
  {
    var s := ExampleSolution;
    forall i | 0 <= i < Size ensures FullUnit(s[i]) {
      if i == 0 {
        SixDigitsFull(s[0]);
      } else if i == 1 {
        SixDigitsFull(s[1]);
      } else if i == 2 {
        SixDigitsFull(s[2]);
      } else if i == 3 {
        SixDigitsFull(s[3]);
      } else if i == 4 {
        SixDigitsFull(s[4]);
      } else {
        SixDigitsFull(s[5]);
      }
    }
  }

  lemma ExampleSolutionColumns()
    ensures forall i :: 0 <= i < Size ==> FullUnit(Column(ExampleSolution, i))
  {
    var s := ExampleSolution;
    forall i | 0 <= i < Size ensures FullUnit(Column(s, i)) {
      if i == 0 {
        SixDigitsFull(Column(s, 0));
      } else if i == 1 {
        SixDigitsFull(Column(s, 1));
      } else if i == 2 {
        SixDigitsFull(Column(s, 2));
      } else if i == 3 {
        SixDigitsFull(Column(s, 3));
      } else if i == 4 {
        SixDigitsFull(Column(s, 4));
      } else {
        SixDigitsFull(Column(s, 5));
      }
    }
  }

  lemma ExampleSolutionRegions()
    ensures forall band, stack :: 0 <= band < 3 && 0 <= stack < 2 ==>
      FullUnit(Region(ExampleSolution, band, stack))
  {
    var s := ExampleSolution;
    forall band, stack | 0 <= band < 3 && 0 <= stack < 2 ensures FullUnit(Region(s, band, stack)) {
      if band == 0 && stack == 0 {
        SixDigitsFull(Region(s, 0, 0));
      } else if band == 0 && stack == 1 {
        SixDigitsFull(Region(s, 0, 1));
      } else if band == 1 && stack == 0 {
        SixDigitsFull(Region(s, 1, 0));
      } else if band == 1 && stack == 1 {
        SixDigitsFull(Region(s, 1, 1));
      } else if band == 2 && stack == 0 {
        SixDigitsFull(Region(s, 2, 0));
      } else {
        SixDigitsFull(Region(s, 2, 1));
      }
    }
  }

  lemma ExampleSolutionIsSolution()
    ensures IsSolution(ExampleSolution)
  {
    ExampleSolutionRows();
    ExampleSolutionColumns();
    ExampleSolutionRegions();
    UnitsCompleteIsSolution(ExampleSolution);
  }

  /** The empty grid passes validation but holds no digit, so the Solve
      button asks for numbers; the search alone would still succeed on it
      with a full valid grid. */
  lemma EmptySolved()
    ensures Consistent(Empty) && Blank(Empty)
    ensures Verdict(Empty) == NoNumbers
    ensures Solve(Empty).Some? && IsSolution(Solve(Empty).value)
  {
    ExampleSolutionIsSolution();
    assert Extends(Empty, ExampleSolution);
    SolveDecides(Empty);
  }

  /** The example puzzle passes validation, is not empty, and the search
      solves it with a board that keeps its ten given digits. */
  lemma ExampleSolved()
    ensures Verdict(Example) == Solved
    ensures IsSolution(Solve(Example).value) && Extends(Example, Solve(Example).value)
  {
    ExampleSolutionIsSolution();
    assert Extends(Example, ExampleSolution);
    ExtendedBySolutionIsConsistent(Example, ExampleSolution);
    assert Example[0][2] != 0;
    VerdictMeaning(Example);
  }
}
