/**
 * What eliminate promises, proved about its specification function: which
 * calls it rejects and in which order it checks, the shape of the factor it
 * builds, and that summing a variable out keeps the total probability mass.
 */
module EliminateProperties {
  import opened Wrappers
  import opened Factors
  import opened FactorOperations

  /**
   * eliminate rejects the call exactly when the variable is not unconditioned
   * or is the only unconditioned variable. The first check comes first: a
   * variable that is not unconditioned is reported as such even when the
   * factor has a single unconditioned variable.
   */
  lemma EliminateRejectsIff(f: Factor, x: Variable)
    requires f.Valid()
    ensures EliminateSpec(f, x).Failure? <==> x !in f.uncond || f.uncond == {x}
    ensures x !in f.uncond ==> EliminateSpec(f, x) == Failure(NotUnconditioned(x, f.uncond))
    ensures f.uncond == {x} ==> EliminateSpec(f, x) == Failure(SoleUnconditioned(x, f.uncond))
  {
    if x in f.uncond && |f.uncond| == 1 {
      assert |f.uncond - {x}| == 0;
      assert f.uncond == {x};
    }
  }

  /**
   * The variables of the factor eliminate builds: the input's without `x`,
   * over the same registry, with `x` dropped from the unconditioned ones (at
   * least one of which remains) and the conditioned ones kept.
   */
  lemma EliminateVariables(f: Factor, x: Variable)
    requires f.Valid() && EliminateSpec(f, x).Success?
    ensures EliminateSpec(f, x).value.domains == f.domains
    ensures EliminateSpec(f, x).value.Vars() == f.Vars() - {x}
    ensures EliminateSpec(f, x).value.uncond == f.uncond - {x} != {}
    ensures EliminateSpec(f, x).value.cond == f.cond
  {
    assert x in f.uncond && |f.uncond| != 1;
    assert |f.uncond - {x}| == |f.uncond| - 1;
  }

  /**
   * The factor eliminate builds is valid, and its probability at each full
   * assignment is the sum, over the listed values of `x`, of the input's
   * probabilities at that assignment extended with the value.
   */
  lemma EliminateCells(f: Factor, x: Variable)
    requires f.Valid() && EliminateSpec(f, x).Success?
    ensures EliminateSpec(f, x).value.Valid()
    ensures forall a :: IsFull(a, f.Vars() - {x}, f.domains) ==>
              && EliminateSpec(f, x).value.Covers(a)
              && EliminateSpec(f, x).value.Prob(a) == RunningSum(Terms(f, x, a), |f.domains[x]|)
  {
    var g := EliminateSpec(f, x).value;
    assert g.Vars() == f.Vars() - {x};
    forall a | IsFull(a, f.Vars() - {x}, f.domains)
      ensures g.Covers(a) && g.Prob(a) == RunningSum(Terms(f, x, a), |f.domains[x]|)
    {
      RestrictAll(a);
    }
  }

  // ---------------------------------------------------------------------------
  // Total mass

  /** The assignments eliminate's inner loop visits for `a`: `a` extended with each value of `x`. */
  function Visited(f: Factor, x: Variable, a: Assignment): (r: seq<Assignment>)
    requires x in f.domains
    ensures |r| == |f.domains[x]|
    ensures forall i :: 0 <= i < |r| ==> r[i] == a[x := f.domains[x][i]]
  {
    seq(|f.domains[x]|, i requires 0 <= i < |f.domains[x]| => a[x := f.domains[x][i]])
  }

  /**
   * The inner loop's visits are the rows the assignment listing spreads out
   * for one more variable: the same list, defined cell by cell.
   */
  lemma VisitedIsSpread(f: Factor, x: Variable, a: Assignment)
    requires x in f.domains
    ensures Visited(f, x, a) == Spread(a, x, f.domains[x])
  {
  }

  /** The set of the first `k` keys of `rows`. */
  ghost function RowSet(rows: seq<Assignment>, k: nat): set<Assignment>
    requires k <= |rows|
  {
    set i | 0 <= i < k :: rows[i]
  }

  /**
   * Adding up the cells of `t` at distinct keys one by one gives the total
   * over the set of those keys.
   */
  lemma {:induction false} RunningSumIsSumOver(terms: seq<real>, rows: seq<Assignment>, t: map<Assignment, real>, k: nat)
    requires |terms| == |rows| && k <= |rows| && Distinct(rows)
    requires forall i :: 0 <= i < |rows| ==> rows[i] in t && terms[i] == t[rows[i]]
    ensures RowSet(rows, k) <= t.Keys
    ensures RunningSum(terms, k) == SumOver(RowSet(rows, k), t)
  {
    if k == 0 {
      assert RowSet(rows, k) == {};
    } else {
      var prev := RowSet(rows, k - 1);
      RunningSumIsSumOver(terms, rows, t, k - 1);
      assert RowSet(rows, k) == prev + {rows[k - 1]};
      assert rows[k - 1] !in prev by {
        forall i | 0 <= i < k - 1
          ensures rows[i] != rows[k - 1]
        {
        }
      }
      SumOverAddOne(prev, t, rows[k - 1]);
    }
  }

  /** Adding one more key adds its cell to the total. */
  lemma SumOverAddOne(keys: set<Assignment>, t: map<Assignment, real>, b: Assignment)
    requires keys <= t.Keys && b in t && b !in keys
    ensures SumOver(keys + {b}, t) == SumOver(keys, t) + t[b]
  {
    SumOverRemove(keys + {b}, t, b);
    assert (keys + {b}) - {b} == keys;
  }

  /**
   * The terms eliminate's inner loop adds are the cells of the table at the
   * visited assignments, which are distinct when the domain lists each value once.
   */
  lemma VisitedCells(f: Factor, x: Variable, a: Assignment)
    requires f.Valid() && x in f.Vars()
    requires IsFull(a, f.Vars() - {x}, f.domains)
    ensures forall i :: 0 <= i < |f.domains[x]| ==>
              Visited(f, x, a)[i] in f.table && Terms(f, x, a)[i] == f.table[Visited(f, x, a)[i]]
    ensures Distinct(f.domains[x]) ==> Distinct(Visited(f, x, a))
  {
    var d := f.domains[x];
    var rows := Visited(f, x, a);
    var terms := Terms(f, x, a);
    forall i | 0 <= i < |d|
      ensures rows[i] in f.table && terms[i] == f.table[rows[i]]
    {
      ExtendedCovers(f, x, a, d[i]);
      RestrictAll(rows[i]);
    }
    if Distinct(d) {
      forall i, j | 0 <= i < j < |rows|
        ensures rows[i] != rows[j]
      {
        assert rows[i][x] == d[i] && rows[j][x] == d[j];
      }
    }
  }

  /** The keys of `cells` whose assignment without `x` lies in `keys`. */
  ghost function FibersOver(cells: map<Assignment, real>, x: Variable, keys: set<Assignment>): set<Assignment> {
    set b | b in cells && b - {x} in keys
  }

  /** All values of `x` visit exactly the cells that agree with `a` off `x`. */
  lemma VisitedAreFiber(f: Factor, x: Variable, a: Assignment)
    requires f.Valid() && x in f.Vars()
    requires IsFull(a, f.Vars() - {x}, f.domains)
    ensures RowSet(Visited(f, x, a), |f.domains[x]|) == FibersOver(f.table, x, {a})
  {
    var d := f.domains[x];
    var rows := Visited(f, x, a);
    forall b | b in FibersOver(f.table, x, {a})
      ensures b in RowSet(rows, |d|)
    {
      var i :| 0 <= i < |d| && d[i] == b[x];
      assert b == a[x := d[i]] == rows[i];
    }
    forall i | 0 <= i < |d|
      ensures rows[i] in FibersOver(f.table, x, {a})
    {
      ExtendedCovers(f, x, a, d[i]);
      assert rows[i] - {x} == a;
    }
  }

  /** The cell eliminate writes for `a` is the total of the input's cells that agree with `a` off `x`. */
  lemma CellIsFiberSum(f: Factor, x: Variable, a: Assignment)
    requires f.Valid() && x in f.Vars() && Distinct(f.domains[x])
    requires IsFull(a, f.Vars() - {x}, f.domains)
    ensures FibersOver(f.table, x, {a}) <= f.table.Keys
    ensures RunningSum(Terms(f, x, a), |f.domains[x]|) == SumOver(FibersOver(f.table, x, {a}), f.table)
  {
    var rows := Visited(f, x, a);
    VisitedCells(f, x, a);
    RunningSumIsSumOver(Terms(f, x, a), rows, f.table, |rows|);
    VisitedAreFiber(f, x, a);
  }

  /** Taking one key out takes out exactly its own cells. */
  lemma FibersOverSplit(cells: map<Assignment, real>, x: Variable, keys: set<Assignment>, a: Assignment)
    requires a in keys
    ensures FibersOver(cells, x, keys) == FibersOver(cells, x, {a}) + FibersOver(cells, x, keys - {a})
    ensures FibersOver(cells, x, {a}) !! FibersOver(cells, x, keys - {a})
  {
  }

  /**
   * When every cell of `t` totals the cells of `cells` that agree with its
   * key off `x`, the total of `t` over `keys` is the total of `cells` over
   * the cells that lie above those keys.
   */
  lemma {:induction false} SumOverFibers(t: map<Assignment, real>, cells: map<Assignment, real>, x: Variable, keys: set<Assignment>)
    requires keys <= t.Keys
    requires forall a :: a in keys ==> t[a] == SumOver(FibersOver(cells, x, {a}), cells)
    ensures SumOver(keys, t) == SumOver(FibersOver(cells, x, keys), cells)
    decreases keys
  {
    if keys == {} {
      assert FibersOver(cells, x, keys) == {};
    } else {
      var a :| a in keys;
      var rest := keys - {a};
      SumOverRemove(keys, t, a);
      SumOverFibers(t, cells, x, rest);
      FibersOverSplit(cells, x, keys, a);
      SumOverUnion(FibersOver(cells, x, {a}), FibersOver(cells, x, rest), cells);
    }
  }

  /**
   * Summing a variable out keeps the total probability mass, provided the
   * domain lists each value of the variable once (a repeated value is added
   * twice by eliminate's inner loop).
   */
  lemma EliminatePreservesMass(f: Factor, x: Variable)
    requires f.Valid() && EliminateSpec(f, x).Success?
    requires Distinct(f.domains[x])
    ensures EliminateSpec(f, x).value.Mass() == f.Mass()
  {
    var t := SumOutTable(f, x);
    CellsAreFiberSums(f, x);
    SumOverFibers(t, f.table, x, t.Keys);
    FibersCoverTable(f, x);
  }

  /** Every cell eliminate writes totals the input's cells above its assignment. */
  lemma CellsAreFiberSums(f: Factor, x: Variable)
    requires f.Valid() && x in f.Vars() && Distinct(f.domains[x])
    ensures forall a :: a in SumOutTable(f, x) ==>
              SumOutTable(f, x)[a] == SumOver(FibersOver(f.table, x, {a}), f.table)
  {
    forall a | a in SumOutTable(f, x)
      ensures SumOutTable(f, x)[a] == SumOver(FibersOver(f.table, x, {a}), f.table)
    {
      CellIsFiberSum(f, x, a);
    }
  }

  /** Every cell of the input lies above exactly one cell eliminate writes. */
  lemma FibersCoverTable(f: Factor, x: Variable)
    requires f.Valid() && x in f.Vars()
    ensures FibersOver(f.table, x, SumOutTable(f, x).Keys) == f.table.Keys
  {
    forall b | b in f.table
      ensures b - {x} in SumOutTable(f, x)
    {
      assert IsFull(b - {x}, f.Vars() - {x}, f.domains);
    }
  }
}
