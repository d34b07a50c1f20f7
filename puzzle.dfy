/** The puzzle model: the clue rule that turns each input byte into a
    constant or a free variable, the loops that fill the 9x9 grid of
    variables, and the loop that registers the 27 all-different groups. */
module Puzzle {
  import opened Grid

  newtype byte = x: int | 0 <= x < 256

  /** A solver variable as the program creates it: a constant (MakeIntConst)
      or a variable ranging over [min, max] (MakeIntVar). */
  datatype IntVar = IntConst(value: int) | IntRange(min: int, max: int)

  /** The values a variable may take. */
  predicate Allows(v: IntVar, x: int) {
    match v
    case IntConst(k) => x == k
    case IntRange(lo, hi) => lo <= x <= hi
  }

  function Min(v: IntVar): int {
    match v
    case IntConst(k) => k
    case IntRange(lo, _) => lo
  }

  function Max(v: IntVar): int {
    match v
    case IntConst(k) => k
    case IntRange(_, hi) => hi
  }

  /** A byte is a clue when it lies in 1..9; every other byte, 0 or above 9,
      stands for a blank cell. */
  predicate IsClue(b: byte) {
    0 < b <= 9
  }

  /** The clue rule: a clue becomes a constant equal to it, anything else a
      variable with domain 1..9. Out-of-range bytes are not rejected. */
  function MakeCell(value: byte): (v: IntVar)
    ensures 1 <= Min(v) <= Max(v) <= 9
    ensures forall x :: Allows(v, x) <==> 1 <= x <= 9 && (IsClue(value) ==> x == value as int)
    ensures forall x :: Allows(v, x) <==> Min(v) <= x <= Max(v)
  {
    if IsClue(value) then IntConst(value as int) else IntRange(1, 9)
  }

  /** A blank byte and an out-of-range byte give the same variable. */
  lemma OutOfRangeIsBlank(b: byte)
    requires b == 0 || b > 9
    ensures MakeCell(b) == MakeCell(0) == IntRange(1, 9)
  {
  }

  /** The variables in GetAll order, as the search phase receives them: the
      k-th one is made from the k-th input byte. */
  function Variables(data: seq<byte>): (vars: seq<IntVar>)
    requires |data| == 81
    ensures |vars| == 81
  {
    seq(81, k requires 0 <= k < 81 => MakeCell(data[k]))
  }

  /** The nested loops that fill variables[i, j] from data[i * 9 + j]. */
  method CreateVariables(data: seq<byte>) returns (variables: array2<IntVar>)
    requires |data| == 81
    ensures fresh(variables)
    ensures variables.Length0 == 9 && variables.Length1 == 9
    ensures forall i, j :: 0 <= i < 9 && 0 <= j < 9 ==> variables[i, j] == MakeCell(data[i * 9 + j])
  {
    variables := new IntVar[9, 9];
    for i := 0 to 9
      invariant forall i', j :: 0 <= i' < i && 0 <= j < 9 ==> variables[i', j] == MakeCell(data[i' * 9 + j])
    {
      for j := 0 to 9
        invariant forall i', j' :: 0 <= i' < i && 0 <= j' < 9 ==> variables[i', j'] == MakeCell(data[i' * 9 + j'])
        invariant forall j' :: 0 <= j' < j ==> variables[i, j'] == MakeCell(data[i * 9 + j'])
      {
        var value := data[i * 9 + j];
        variables[i, j] := if IsClue(value) then IntConst(value as int) else IntRange(1, 9);
      }
    }
  }

  /** The variables of the grid listed in GetAll order. */
  function AllOf(variables: array2<IntVar>): (vars: seq<IntVar>)
    requires variables.Length0 == 9 && variables.Length1 == 9
    reads variables
    ensures |vars| == 81
  {
    AllRowMajor();
    seq(81, k reads variables requires 0 <= k < 81 => variables[GetAll()[k].row, GetAll()[k].col])
  }

  /** Listing the filled grid in GetAll order gives Variables(data): the k-th
      variable of the search phase is the one made from data[k]. */
  lemma AllOfCreated(data: seq<byte>, variables: array2<IntVar>)
    requires |data| == 81
    requires variables.Length0 == 9 && variables.Length1 == 9
    requires forall i, j :: 0 <= i < 9 && 0 <= j < 9 ==> variables[i, j] == MakeCell(data[i * 9 + j])
    ensures AllOf(variables) == Variables(data)
  {
    AllRowMajor();
    forall k | 0 <= k < 81
      ensures AllOf(variables)[k] == Variables(data)[k]
    {
      assert GetAll()[k] == Cell(k / 9, k % 9);
      assert (k / 9) * 9 + k % 9 == k;
    }
  }

  // ---------------------------------------------------------------------
  // Constraints

  /** An all-different constraint over the variables of the given cells. */
  datatype Constraint = AllDifferent(vars: seq<Cell>)

  /** The solver's store of constraints; Add appends one. */
  class Solver {
    var constraints: seq<Constraint>

    constructor ()
      ensures constraints == []
    {
      constraints := [];
    }

    method Add(c: Constraint)
      modifies this
      ensures constraints == old(constraints) + [c]
    {
      constraints := constraints + [c];
    }
  }

  /** Registers an all-different constraint over the given cells. */
  method AddMakeAllDifferent(solver: Solver, vars: seq<Cell>)
    modifies solver
    ensures solver.constraints == old(solver.constraints) + [AllDifferent(vars)]
  {
    solver.Add(AllDifferent(vars));
  }

  /** The g-th group registered: iteration g / 3 of the registration loop adds
      the row, then the column, then the square numbered g / 3. */
  function Group(g: int): (c: Constraint)
    requires 0 <= g < 27
    ensures |c.vars| == 9
  {
    var i := g / 3;
    if g % 3 == 0 then AllDifferent(GetRow(i))
    else if g % 3 == 1 then AllDifferent(GetColumn(i))
    else AllDifferent(GetSquare(i))
  }

  /** Iteration i of the registration loop adds groups 3 * i, 3 * i + 1 and 3 * i + 2. */
  lemma GroupsOfIteration(i: int)
    requires 0 <= i < 9
    ensures Group(3 * i) == AllDifferent(GetRow(i))
    ensures Group(3 * i + 1) == AllDifferent(GetColumn(i))
    ensures Group(3 * i + 2) == AllDifferent(GetSquare(i))
  {
    assert (3 * i) / 3 == i && (3 * i + 1) / 3 == i && (3 * i + 2) / 3 == i;
  }

  /** The 27 groups in the order they are registered. */
  function Registry(): (r: seq<Constraint>)
    ensures |r| == 27
  {
    seq(27, g requires 0 <= g < 27 => Group(g))
  }

  /** The registration loop: three groups per iteration, nine iterations. */
  method AddConstraints(solver: Solver)
    modifies solver
    ensures solver.constraints == old(solver.constraints) + Registry()
  {
    ghost var before := solver.constraints;
    for i := 0 to 9
      invariant solver.constraints == before + Registry()[..3 * i]
    {
      ghost var done := solver.constraints;
      AddMakeAllDifferent(solver, GetRow(i));
      AddMakeAllDifferent(solver, GetColumn(i));
      AddMakeAllDifferent(solver, GetSquare(i));
      RegistryStep(i);
      assert solver.constraints == done + [AllDifferent(GetRow(i)), AllDifferent(GetColumn(i)), AllDifferent(GetSquare(i))];
    }
    assert Registry()[..27] == Registry();
  }

  /** The groups registered up to iteration i + 1 are those up to i followed
      by row i, column i and square i. */
  lemma RegistryStep(i: int)
    requires 0 <= i < 9
    ensures Registry()[..3 * i + 3] ==
      Registry()[..3 * i] + [AllDifferent(GetRow(i)), AllDifferent(GetColumn(i)), AllDifferent(GetSquare(i))]
  {
    GroupsOfIteration(i);
    assert Registry()[3 * i] == Group(3 * i);
    assert Registry()[3 * i + 1] == Group(3 * i + 1);
    assert Registry()[3 * i + 2] == Group(3 * i + 2);
  }

  /** Every registered group is an all-different over 9 distinct cells of the grid. */
  lemma RegistryGroups()
    ensures |Registry()| == 27
    ensures forall g :: 0 <= g < 27 ==> |Registry()[g].vars| == 9 && Distinct(Registry()[g].vars)
    ensures forall g, k :: 0 <= g < 27 && 0 <= k < 9 ==> InGrid(Registry()[g].vars[k])
  {
    forall g | 0 <= g < 27
      ensures Distinct(Registry()[g].vars)
      ensures forall k :: 0 <= k < 9 ==> InGrid(Registry()[g].vars[k])
    {
      var i := g / 3;
      RowMembers(i);
      ColumnMembers(i);
      SquareMembers(i);
      assert Registry()[g] == Group(g);
      var vs := Registry()[g].vars;
      forall k | 0 <= k < 9
        ensures InGrid(vs[k])
      {
        assert vs[k] in vs;
      }
    }
  }

  /** Which registered group a cell of the grid belongs to. */
  lemma InGroup(c: Cell, g: int)
    requires InGrid(c) && 0 <= g < 27
    ensures c in Registry()[g].vars <==> g == 3 * c.row || g == 3 * c.col + 1 || g == 3 * SquareOf(c) + 2
  {
    var i, m := g / 3, g % 3;
    assert g == 3 * i + m && 0 <= i < 9 && 0 <= m < 3;
    var sq := SquareOf(c);
    assert 0 <= sq < 9;
    if m == 0 {
      assert c in Registry()[g].vars <==> c.row == i by {
        InRowGroup(c, i);
      }
      assert g != 3 * c.col + 1 && g != 3 * sq + 2;
    } else if m == 1 {
      assert c in Registry()[g].vars <==> c.col == i by {
        InColumnGroup(c, i);
      }
      assert g != 3 * c.row && g != 3 * sq + 2;
    } else {
      assert c in Registry()[g].vars <==> sq == i by {
        InSquareGroup(c, i);
      }
      assert g != 3 * c.row && g != 3 * c.col + 1;
    }
  }

  lemma InRowGroup(c: Cell, i: int)
    requires InGrid(c) && 0 <= i < 9
    ensures c in Registry()[3 * i].vars <==> c.row == i
  {
    GroupsOfIteration(i);
    assert Registry()[3 * i] == Group(3 * i);
    RowMembers(i);
  }

  lemma InColumnGroup(c: Cell, i: int)
    requires InGrid(c) && 0 <= i < 9
    ensures c in Registry()[3 * i + 1].vars <==> c.col == i
  {
    GroupsOfIteration(i);
    assert Registry()[3 * i + 1] == Group(3 * i + 1);
    ColumnMembers(i);
  }

  lemma InSquareGroup(c: Cell, i: int)
    requires InGrid(c) && 0 <= i < 9
    ensures c in Registry()[3 * i + 2].vars <==> SquareOf(c) == i
  {
    GroupsOfIteration(i);
    assert Registry()[3 * i + 2] == Group(3 * i + 2);
    SquareMembers(i);
  }

  /** Every cell of the grid belongs to exactly three registered groups: its
      row (group 3 * row), its column (3 * column + 1) and its square
      (3 * SquareOf(c) + 2); these three numbers are distinct. */
  lemma CellInThreeGroups(c: Cell)
    requires InGrid(c)
    ensures var r, k, q := 3 * c.row, 3 * c.col + 1, 3 * SquareOf(c) + 2;
      r != k && k != q && r != q && 0 <= r < 27 && 0 <= k < 27 && 0 <= q < 27 &&
      forall g :: 0 <= g < 27 ==> (c in Registry()[g].vars <==> g == r || g == k || g == q)
  {
    assert 0 <= SquareOf(c) < 9;
    forall g | 0 <= g < 27
      ensures c in Registry()[g].vars <==> g == 3 * c.row || g == 3 * c.col + 1 || g == 3 * SquareOf(c) + 2
    {
      InGroup(c, g);
    }
  }
}
