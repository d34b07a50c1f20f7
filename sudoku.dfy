/** The program's own instance of the search: the 81 variables that the
    clue rule makes, in GetAll order, under the 27 registered groups. Its
    solutions are exactly the completed Sudoku grids that keep the clues. */
module Sudoku {
  import opened Grid
  import opened Puzzle
  import opened Search

  /** The search phase of the program: the variables made from data in
      GetAll order, under the 27 registered groups. */
  function Solve(data: seq<byte>): Option<seq<int>>
    requires |data| == 81
  {
    SearchFrom(Variables(data), Registry(), [])
  }

  /** Two distinct cells that share a row, a column or a 3x3 square. */
  predicate SameUnit(c: Cell, d: Cell) {
    c != d && (c.row == d.row || c.col == d.col || SquareOf(c) == SquareOf(d))
  }

  /** A completed grid in row-major order: 81 values in 1..9, every clue
      kept, and no value twice in a row, a column or a square. */
  ghost predicate IsSudoku(data: seq<byte>, a: seq<int>)
    requires |data| == 81
  {
    && |a| == 81
    && (forall k :: 0 <= k < 81 ==> 1 <= a[k] <= 9)
    && (forall k :: 0 <= k < 81 && IsClue(data[k]) ==> a[k] == data[k] as int)
    && (forall c, d :: InGrid(c) && InGrid(d) && SameUnit(c, d) ==> a[Index(c)] != a[Index(d)])
  }

  /** Two distinct cells of a registered group share a row, a column or a square. */
  lemma GroupIsUnit(g: int, i: int, j: int)
    requires 0 <= g < 27 && 0 <= i < j < 9
    ensures InGrid(Registry()[g].vars[i]) && InGrid(Registry()[g].vars[j])
    ensures SameUnit(Registry()[g].vars[i], Registry()[g].vars[j])
  {
    var n := g / 3;
    var vs := Registry()[g].vars;
    assert Registry()[g] == Group(g);
    if g % 3 == 0 {
      RowMembers(n);
    } else if g % 3 == 1 {
      ColumnMembers(n);
    } else {
      SquareMembers(n);
      assert vs[i] in GetSquare(n) && vs[j] in GetSquare(n);
    }
  }

  /** Two distinct cells that share a row, a column or a square are both in
      one registered group. */
  lemma UnitIsGroup(c: Cell, d: Cell) returns (g: int)
    requires InGrid(c) && InGrid(d) && SameUnit(c, d)
    ensures 0 <= g < 27 && c in Registry()[g].vars && d in Registry()[g].vars
  {
    if c.row == d.row {
      g := 3 * c.row;
    } else if c.col == d.col {
      g := 3 * c.col + 1;
    } else {
      g := 3 * SquareOf(c) + 2;
      Partition(c);
    }
    InGroup(c, g);
    InGroup(d, g);
  }

  lemma IndexInjective(c: Cell, d: Cell)
    requires InGrid(c) && InGrid(d)
    ensures 0 <= Index(c) < 81 && (Index(c) == Index(d) <==> c == d)
  {
  }

  /** The domains made by the clue rule and the 27 registered groups admit
      exactly the Sudoku solutions of data. */
  lemma SolutionIsSudoku(data: seq<byte>, a: seq<int>)
    requires |data| == 81
    ensures IsSolutionOf(Variables(data), Registry(), a) <==> IsSudoku(data, a)
  {
    if IsSolutionOf(Variables(data), Registry(), a) {
      SolutionToSudoku(data, a);
    }
    if IsSudoku(data, a) {
      SudokuToSolution(data, a);
    }
  }

  lemma SolutionToSudoku(data: seq<byte>, a: seq<int>)
    requires |data| == 81 && IsSolutionOf(Variables(data), Registry(), a)
    ensures IsSudoku(data, a)
  {
    var vars := Variables(data);
    forall c, d | InGrid(c) && InGrid(d) && SameUnit(c, d)
      ensures a[Index(c)] != a[Index(d)]
    {
      UnitDistinct(a, c, d);
    }
    forall k | 0 <= k < 81
      ensures 1 <= a[k] <= 9 && (IsClue(data[k]) ==> a[k] == data[k] as int)
    {
      assert Allows(vars[k], a[k]);
    }
  }

  lemma SudokuToSolution(data: seq<byte>, a: seq<int>)
    requires |data| == 81 && IsSudoku(data, a)
    ensures IsSolutionOf(Variables(data), Registry(), a)
  {
    forall c | c in Registry()
      ensures AllDifferentOn(c.vars, a)
    {
      var g :| 0 <= g < 27 && Registry()[g] == c;
      GroupAllDifferent(data, a, g);
    }
  }

  lemma GroupAllDifferent(data: seq<byte>, a: seq<int>, g: int)
    requires |data| == 81 && IsSudoku(data, a) && 0 <= g < 27
    ensures AllDifferentOn(Registry()[g].vars, a)
  {
    var vs := Registry()[g].vars;
    forall i, j | 0 <= i < j < |vs|
      ensures InGrid(vs[i]) && InGrid(vs[j]) && SameUnit(vs[i], vs[j])
    {
      GroupIsUnit(g, i, j);
    }
    UnitAllDifferent(data, a, vs);
  }

  /** In a Sudoku solution, cells that pairwise share a unit hold pairwise-distinct values. */
  lemma UnitAllDifferent(data: seq<byte>, a: seq<int>, vs: seq<Cell>)
    requires |data| == 81 && IsSudoku(data, a)
    requires forall i, j :: 0 <= i < j < |vs| ==> InGrid(vs[i]) && InGrid(vs[j]) && SameUnit(vs[i], vs[j])
    ensures AllDifferentOn(vs, a)
  {
  }

  /** Under the 27 groups, two cells that share a unit get different values. */
  lemma UnitDistinct(a: seq<int>, c: Cell, d: Cell)
    requires |a| == 81 && forall e :: e in Registry() ==> AllDifferentOn(e.vars, a)
    requires InGrid(c) && InGrid(d) && SameUnit(c, d)
    ensures a[Index(c)] != a[Index(d)]
  {
    IndexInjective(c, d);
    IndexInjective(d, c);
    var g := UnitIsGroup(c, d);
    var vs := Registry()[g].vars;
    assert AllDifferentOn(vs, a) by {
      assert Registry()[g] in Registry();
    }
    var i :| 0 <= i < |vs| && vs[i] == c;
    var j :| 0 <= j < |vs| && vs[j] == d;
    if i < j {
      assert a[Index(vs[i])] != a[Index(vs[j])];
    } else {
      assert a[Index(vs[j])] != a[Index(vs[i])];
    }
  }

  /** The search phase returns the lexicographically least Sudoku solution of
      data in row-major order, and no solution exactly when none exists. */
  lemma SolveCorrect(data: seq<byte>)
    requires |data| == 81
    ensures Solve(data).Some? ==>
      IsSudoku(data, Solve(data).value) &&
      forall t :: IsSudoku(data, t) ==> LexLeq(Solve(data).value, t)
    ensures Solve(data).None? <==> forall t :: !IsSudoku(data, t)
  {
    var vars := Variables(data);
    SearchFromCorrect(vars, Registry(), []);
    forall t
      ensures IsSolutionOf(vars, Registry(), t) <==> IsSudoku(data, t)
    {
      SolutionIsSudoku(data, t);
    }
  }

  // ---------------------------------------------------------------------
  // Consequences

  /** When data has exactly one completion, the search returns it. */
  lemma UniqueSolutionFound(data: seq<byte>, s: seq<int>)
    requires |data| == 81
    requires IsSudoku(data, s)
    requires forall t :: IsSudoku(data, t) ==> t == s
    ensures Solve(data) == Some(s)
  {
    SolveCorrect(data);
  }

  /** The values standing in data, as integers. */
  function Clues(data: seq<byte>): (a: seq<int>)
    requires |data| == 81
    ensures |a| == 81 && forall k :: 0 <= k < 81 ==> a[k] == data[k] as int
  {
    seq(81, k requires 0 <= k < 81 => data[k] as int)
  }

  /** Solving a grid that is already completed and valid returns it unchanged. */
  lemma SolvedGridUnchanged(data: seq<byte>)
    requires |data| == 81
    requires forall k :: 0 <= k < 81 ==> IsClue(data[k])
    requires IsSudoku(data, Clues(data))
    ensures Solve(data) == Some(Clues(data))
  {
    forall t | IsSudoku(data, t)
      ensures t == Clues(data)
    {
    }
    UniqueSolutionFound(data, Clues(data));
  }

  /** Two equal clues in one row, column or square leave no solution. */
  lemma DuplicateCluesUnsolvable(data: seq<byte>, c: Cell, d: Cell)
    requires |data| == 81 && InGrid(c) && InGrid(d) && SameUnit(c, d)
    requires IsClue(data[Index(c)]) && data[Index(c)] == data[Index(d)]
    ensures Solve(data) == None
  {
    SolveCorrect(data);
  }

  // ---------------------------------------------------------------------
  // Each digit exactly once per group

  lemma {:induction false} DistinctCard(s: seq<int>)
    requires Distinct(s)
    ensures |set x | x in s| == |s|
  {
    if |s| > 0 {
      DistinctCard(s[1..]);
      assert (set x | x in s) == (set x | x in s[1..]) + {s[0]};
      assert s[0] !in s[1..];
    }
  }

  lemma SubsetCard(a: set<int>, b: set<int>)
    requires a <= b
    ensures |a| <= |b|
  {
    assert b == a + (b - a);
  }

  /** Nine pairwise-distinct values in 1..9 take every value in 1..9. */
  lemma Pigeonhole(s: seq<int>, v: int)
    requires |s| == 9 && Distinct(s)
    requires forall i :: 0 <= i < 9 ==> 1 <= s[i] <= 9
    requires 1 <= v <= 9
    ensures v in s
  {
    if v !in s {
      var digits := seq(9, i => i + 1);
      var vals := set x | x in s;
      var others := (set x | x in digits) - {v};
      DistinctCard(s);
      DistinctCard(digits);
      assert digits[v - 1] == v;
      forall x | x in vals
        ensures x in others
      {
        assert digits[x - 1] == x;
      }
      SubsetCard(vals, others);
    }
  }

  /** In a solution, every row, column and square holds each of 1..9: at one
      cell, since the values of a group are pairwise distinct. */
  lemma GroupHoldsEveryDigit(data: seq<byte>, a: seq<int>, g: int, v: int)
    requires |data| == 81 && IsSudoku(data, a)
    requires 0 <= g < 27 && 1 <= v <= 9
    ensures exists c :: c in Registry()[g].vars && InGrid(c) && a[Index(c)] == v
    ensures forall c, d ::
      (c in Registry()[g].vars && d in Registry()[g].vars && InGrid(c) && InGrid(d) &&
       a[Index(c)] == v && a[Index(d)] == v) ==> c == d
  {
    var vs := Registry()[g].vars;
    forall c, d | c in vs && d in vs && InGrid(c) && InGrid(d) &&
      a[Index(c)] == v && a[Index(d)] == v
      ensures c == d
    {
      var i :| 0 <= i < |vs| && vs[i] == c;
      var j :| 0 <= j < |vs| && vs[j] == d;
      IndexInjective(c, d);
      if i < j {
        GroupIsUnit(g, i, j);
      } else if j < i {
        GroupIsUnit(g, j, i);
      }
    }
    forall k | 0 <= k < 9
      ensures InGrid(vs[k])
    {
      if k < 8 {
        GroupIsUnit(g, k, 8);
      } else {
        GroupIsUnit(g, 0, k);
      }
    }
    var vals := seq(9, i requires 0 <= i < 9 => a[Index(vs[i])]);
    GroupAllDifferent(data, a, g);
    Pigeonhole(vals, v);
    var i :| 0 <= i < 9 && vals[i] == v;
    assert vs[i] in vs;
  }

  // ---------------------------------------------------------------------
  // One blank cell

  /** With 80 clues standing, a solution's value at the one blank cell k is
      forced: the row of k must hold that value somewhere, and every other
      cell of the row is a clue that both solutions keep. */
  lemma OneBlankValue(data: seq<byte>, s: seq<int>, t: seq<int>, k: int)
    requires |data| == 81 && IsSudoku(data, s) && IsSudoku(data, t) && 0 <= k < 81
    requires forall m :: 0 <= m < 81 && m != k ==> IsClue(data[m])
    ensures t[k] == s[k]
  {
    assert forall m :: 0 <= m < 81 && m != k ==> t[m] == s[m];
    var c := Cell(k / 9, k % 9);
    assert Index(c) == k;
    var g := 3 * c.row;
    GroupHoldsEveryDigit(data, t, g, s[k]);
    var e :| e in Registry()[g].vars && InGrid(e) && t[Index(e)] == s[k];
    InRowGroup(e, c.row);
    var m := Index(e);
    IndexInjective(e, c);
    RowValuesDiffer(data, s, c, e);
    assert m == k;
  }

  /** In a solution, two different cells of one row hold different values. */
  lemma RowValuesDiffer(data: seq<byte>, s: seq<int>, c: Cell, e: Cell)
    requires |data| == 81 && IsSudoku(data, s) && InGrid(c) && InGrid(e) && c.row == e.row
    ensures c != e ==> s[Index(c)] != s[Index(e)]
  {
  }

  /** A grid with a single blank cell k and a solution s: the search returns s,
      the one completion. */
  lemma OneBlankSolved(data: seq<byte>, s: seq<int>, k: int)
    requires |data| == 81 && IsSudoku(data, s) && 0 <= k < 81
    requires forall m :: 0 <= m < 81 && m != k ==> IsClue(data[m])
    ensures Solve(data) == Some(s)
  {
    forall t | IsSudoku(data, t)
      ensures t == s
    {
      forall m | 0 <= m < 81
        ensures t[m] == s[m]
      {
        if m == k {
          OneBlankValue(data, s, t, k);
        }
      }
    }
    UniqueSolutionFound(data, s);
  }

  // ---------------------------------------------------------------------
  // The empty grid

  /** The grid with no clue, as the program allocates it. */
  function EmptyGrid(): (data: seq<byte>)
    ensures |data| == 81 && forall k :: 0 <= k < 81 ==> !IsClue(data[k])
  {
    seq(81, k => 0)
  }

  /** The shift of row r in the pattern below: 0, 3, 6, 1, 4, 7, 2, 5, 8. */
  function Shift(r: int): int {
    3 * (r % 3) + r / 3
  }

  /** A completed grid: row r holds 1..9 rotated left by Shift(r). */
  function PatternValue(c: Cell): int {
    (Shift(c.row) + c.col) % 9 + 1
  }

  function Pattern(): (a: seq<int>)
    ensures |a| == 81
  {
    seq(81, k requires 0 <= k < 81 => PatternValue(GetAll()[k]))
  }

  lemma ModInjective(x: int, y: int)
    requires 0 <= x && 0 <= y && -9 < x - y < 9 && x % 9 == y % 9
    ensures x == y
  {
    assert x == 9 * (x / 9) + x % 9 && y == 9 * (y / 9) + y % 9;
    assert x - y == 9 * (x / 9 - y / 9);
  }

  lemma ShiftInjective(r: int, q: int)
    requires 0 <= r < 9 && 0 <= q < 9 && Shift(r) == Shift(q)
    ensures r == q
  {
    assert r == 3 * (r / 3) + r % 3 && q == 3 * (q / 3) + q % 3;
  }

  /** Two cells of one unit get different values in the pattern. */
  lemma PatternDistinct(c: Cell, d: Cell)
    requires InGrid(c) && InGrid(d) && SameUnit(c, d)
    ensures PatternValue(c) != PatternValue(d)
  {
    var x, y := Shift(c.row) + c.col, Shift(d.row) + d.col;
    assert PatternValue(c) == x % 9 + 1 && PatternValue(d) == y % 9 + 1;
    assert 0 <= Shift(c.row) < 9 && 0 <= Shift(d.row) < 9;
    if c.row == d.row {
      assert x % 9 != y % 9 by {
        if x % 9 == y % 9 {
          ModInjective(x, y);
        }
      }
    } else if c.col == d.col {
      assert x % 9 != y % 9 by {
        if x % 9 == y % 9 {
          ModInjective(x, y);
          ShiftInjective(c.row, d.row);
        }
      }
    } else {
      assert x % 9 != y % 9 by {
        SquareShift(c, d);
        if x % 9 == y % 9 {
          ModInjective(x, y);
        }
      }
    }
  }

  /** Within one square the pattern's offsets Shift(row) + col differ by the
      in-square position 3 * (row % 3) + col % 3. */
  lemma SquareShift(c: Cell, d: Cell)
    requires InGrid(c) && InGrid(d) && c != d && SquareOf(c) == SquareOf(d)
    ensures Shift(c.row) + c.col != Shift(d.row) + d.col
    ensures -9 < (Shift(c.row) + c.col) - (Shift(d.row) + d.col) < 9
  {
    var b, e := c.row / 3, c.col / 3;
    assert d.row / 3 == b && d.col / 3 == e;
    var ic, jc, id, jd := c.row % 3, c.col % 3, d.row % 3, d.col % 3;
    assert c.row == 3 * b + ic && d.row == 3 * b + id;
    assert c.col == 3 * e + jc && d.col == 3 * e + jd;
    assert Shift(c.row) + c.col == (3 * ic + jc) + (b + 3 * e);
    assert Shift(d.row) + d.col == (3 * id + jd) + (b + 3 * e);
  }

  /** The empty grid has a solution, so the search returns one. */
  lemma EmptyGridSolved()
    ensures Solve(EmptyGrid()).Some?
    ensures IsSudoku(EmptyGrid(), Solve(EmptyGrid()).value)
  {
    var a := Pattern();
    AllRowMajor();
    forall c, d | InGrid(c) && InGrid(d) && SameUnit(c, d)
      ensures a[Index(c)] != a[Index(d)]
    {
      PatternDistinct(c, d);
    }
    forall k | 0 <= k < 81
      ensures 1 <= a[k] <= 9
    {
    }
    assert IsSudoku(EmptyGrid(), a);
    SolveCorrect(EmptyGrid());
  }

  // ---------------------------------------------------------------------
  // The program

  /** The program's steps with the 81 input bytes as a parameter: create the
      variables, register the groups, run the search phase over the
      variables in GetAll order, and take its first solution. */
  method Run(data: seq<byte>) returns (solution: Option<seq<int>>)
    requires |data| == 81
    ensures solution.Some? ==>
      IsSudoku(data, solution.value) &&
      forall t :: IsSudoku(data, t) ==> LexLeq(solution.value, t)
    ensures solution.None? <==> forall t :: !IsSudoku(data, t)
  {
    var solver := new Solver();
    var variables := CreateVariables(data);
    AddConstraints(solver);
    AllOfCreated(data, variables);
    assert solver.constraints == Registry();
    solution := SearchFrom(AllOf(variables), solver.constraints, []);
    assert solution == Solve(data);
    SolveCorrect(data);
  }
}
