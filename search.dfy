/** What the search phase must return. The program hands the solver the
    variables in GetAll order with the strategy "choose the first unbound
    variable, assign its minimum value" and takes the first solution. This
    module states that contract as a plain depth-first search over partial
    assignments and proves that its first solution is the lexicographically
    least valid completion in row-major order, and that it finds none exactly
    when no valid completion exists. How the solver prunes domains in between
    is not modelled.

    A constraint names cells, and the value of a cell is read from position
    Index(cell) of the assignment. The results therefore hold for any domains
    and any all-different groups, provided vars lists the variables in
    row-major order: vars[k] must be the variable of cell (k / 9, k % 9).
    This is the order GetAll yields (Grid.AllRowMajor, Puzzle.AllOfCreated). */
module Search {
  import opened Grid
  import opened Puzzle

  datatype Option<T> = None | Some(value: T)

  /** An assignment a gives values to the first |a| variables in GetAll
      order, that is, to the cells whose Index is below |a|; the value of a
      cell sits at its row-major position Index(cell). The assigned cells of
      the group carry pairwise-distinct values. */
  predicate AllDifferentOn(group: seq<Cell>, a: seq<int>) {
    forall i, j :: 0 <= i < j < |group| && 0 <= Index(group[i]) < |a| && 0 <= Index(group[j]) < |a| ==>
      a[Index(group[i])] != a[Index(group[j])]
  }

  /** A partial assignment that no variable's domain and no constraint rules out. */
  predicate Consistent(vars: seq<IntVar>, cs: seq<Constraint>, a: seq<int>) {
    && |a| <= |vars|
    && (forall k :: 0 <= k < |a| ==> Allows(vars[k], a[k]))
    && (forall c :: c in cs ==> AllDifferentOn(c.vars, a))
  }

  /** A complete assignment that satisfies every variable and constraint. */
  predicate IsSolutionOf(vars: seq<IntVar>, cs: seq<Constraint>, a: seq<int>) {
    |a| == |vars| && Consistent(vars, cs, a)
  }

  /** s comes no later than t in lexicographic order. */
  ghost predicate LexLeq(s: seq<int>, t: seq<int>) {
    s == t || exists k :: 0 <= k < |s| && k < |t| && s[..k] == t[..k] && s[k] < t[k]
  }

  /** Depth-first search from the partial assignment a: the next variable
      to bind is the first unbound one, vars[|a|]. */
  function SearchFrom(vars: seq<IntVar>, cs: seq<Constraint>, a: seq<int>): Option<seq<int>>
    requires |a| <= |vars|
    decreases |vars| - |a|, 1, 0
  {
    if |a| == |vars| then Some(a) else TryFrom(vars, cs, a, Min(vars[|a|]))
  }

  /** Tries the values x, x + 1, .. up to the maximum of the next variable's
      domain, smallest first; a value that breaks a constraint is skipped,
      and one whose subtree has no solution is abandoned for the next. */
  function TryFrom(vars: seq<IntVar>, cs: seq<Constraint>, a: seq<int>, x: int): Option<seq<int>>
    requires |a| < |vars|
    decreases |vars| - |a|, 0, Max(vars[|a|]) + 1 - x
  {
    if x > Max(vars[|a|]) then None
    else if Consistent(vars, cs, a + [x]) then
      match SearchFrom(vars, cs, a + [x])
      case Some(s) => Some(s)
      case None => TryFrom(vars, cs, a, x + 1)
    else TryFrom(vars, cs, a, x + 1)
  }

  // ---------------------------------------------------------------------
  // The search returns the least solution

  lemma AllowsRange(v: IntVar, x: int)
    ensures Allows(v, x) <==> Min(v) <= x <= Max(v)
  {
  }

  /** Every prefix of a consistent assignment is consistent. */
  lemma ConsistentPrefix(vars: seq<IntVar>, cs: seq<Constraint>, t: seq<int>, n: int)
    requires Consistent(vars, cs, t) && 0 <= n <= |t|
    ensures Consistent(vars, cs, t[..n])
  {
    var p := t[..n];
    forall c | c in cs
      ensures AllDifferentOn(c.vars, p)
    {
      assert AllDifferentOn(c.vars, t);
    }
  }

  lemma PrefixStep(a: seq<int>, x: int, t: seq<int>)
    requires a <= t && |a| < |t|
    ensures a + [x] <= t <==> t[|a|] == x
  {
    assert t[..|a| + 1] == t[..|a|] + [t[|a|]];
  }

  /** No solution passes through a + [x] when a + [x] is already inconsistent. */
  lemma InconsistentPrunes(vars: seq<IntVar>, cs: seq<Constraint>, a: seq<int>, x: int)
    requires !Consistent(vars, cs, a + [x])
    ensures forall t :: IsSolutionOf(vars, cs, t) ==> !(a + [x] <= t)
  {
    forall t | IsSolutionOf(vars, cs, t) && a + [x] <= t
      ensures false
    {
      ConsistentPrefix(vars, cs, t, |a| + 1);
    }
  }

  /** From a consistent partial assignment, SearchFrom returns the least
      solution extending it, and None exactly when there is none. */
  lemma {:induction false} SearchFromCorrect(vars: seq<IntVar>, cs: seq<Constraint>, a: seq<int>)
    requires Consistent(vars, cs, a)
    ensures SearchFrom(vars, cs, a).Some? ==>
      var s := SearchFrom(vars, cs, a).value;
      IsSolutionOf(vars, cs, s) && a <= s &&
      forall t :: IsSolutionOf(vars, cs, t) && a <= t ==> LexLeq(s, t)
    ensures SearchFrom(vars, cs, a).None? ==>
      forall t :: IsSolutionOf(vars, cs, t) ==> !(a <= t)
    decreases |vars| - |a|, 1, 0
  {
    if |a| == |vars| {
      forall t | IsSolutionOf(vars, cs, t) && a <= t
        ensures LexLeq(a, t)
      {
        assert t == t[..|a|];
      }
    } else {
      var lo := Min(vars[|a|]);
      TryFromCorrect(vars, cs, a, lo);
      forall t | IsSolutionOf(vars, cs, t) && a <= t
        ensures t[|a|] >= lo
      {
        AllowsRange(vars[|a|], t[|a|]);
      }
    }
  }

  /** TryFrom(.., a, x) returns the least solution extending a whose value at
      position |a| is at least x, and None exactly when there is none. */
  lemma {:induction false} TryFromCorrect(vars: seq<IntVar>, cs: seq<Constraint>, a: seq<int>, x: int)
    requires Consistent(vars, cs, a) && |a| < |vars|
    ensures TryFrom(vars, cs, a, x).Some? ==>
      var s := TryFrom(vars, cs, a, x).value;
      IsSolutionOf(vars, cs, s) && a <= s && s[|a|] >= x &&
      forall t :: IsSolutionOf(vars, cs, t) && a <= t && t[|a|] >= x ==> LexLeq(s, t)
    ensures TryFrom(vars, cs, a, x).None? ==>
      forall t :: IsSolutionOf(vars, cs, t) && a <= t ==> t[|a|] < x
    decreases |vars| - |a|, 0, Max(vars[|a|]) + 1 - x
  {
    var n := |a|;
    if x > Max(vars[n]) {
      forall t | IsSolutionOf(vars, cs, t) && a <= t
        ensures t[n] < x
      {
        AllowsRange(vars[n], t[n]);
      }
      return;
    }
    var ax := a + [x];
    if Consistent(vars, cs, ax) {
      SearchFromCorrect(vars, cs, ax);
      var sub := SearchFrom(vars, cs, ax);
      if sub.Some? {
        var s := sub.value;
        assert TryFrom(vars, cs, a, x) == sub;
        assert s[..n] == a by {
          assert s[..n] == s[..n + 1][..n];
        }
        assert s[n] == x by {
          assert s[..n + 1][n] == x;
        }
        forall t | IsSolutionOf(vars, cs, t) && a <= t && t[n] >= x
          ensures LexLeq(s, t)
        {
          PrefixStep(a, x, t);
          if t[n] > x {
            assert s[..n] == t[..n] && s[n] < t[n];
          }
        }
        return;
      }
    } else {
      InconsistentPrunes(vars, cs, a, x);
    }
    // No solution runs through a + [x]: the answer is that of the next value.
    assert TryFrom(vars, cs, a, x) == TryFrom(vars, cs, a, x + 1);
    assert forall t :: IsSolutionOf(vars, cs, t) ==> !(ax <= t);
    TryFromCorrect(vars, cs, a, x + 1);
    forall t | IsSolutionOf(vars, cs, t) && a <= t
      ensures t[n] != x
    {
      PrefixStep(a, x, t);
    }
  }
}
