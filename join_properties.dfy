/**
 * What joinFactors and joinFactorsByVariable promise, proved about their
 * specification functions. The methods of FactorOperations return exactly
 * the values of those functions, so every lemma here holds of the methods.
 */
module JoinProperties {
  import opened Wrappers
  import opened Factors
  import opened FactorOperations

  /** `v` is unconditioned in every factor of `fs`. */
  ghost predicate UnconditionedInAll(fs: seq<Factor>, v: Variable) {
    forall f :: f in fs ==> v in f.uncond
  }

  /** Two different factors of `fs` have `v` unconditioned. */
  ghost predicate UnconditionedTwice(fs: seq<Factor>, v: Variable) {
    exists i, j :: 0 <= i < j < |fs| && v in fs[i].uncond && v in fs[j].uncond
  }

  // ---------------------------------------------------------------------------
  // joinFactors

  /** functools.reduce(&) over the unconditioned sets is their common intersection. */
  lemma {:induction false} CommonUncondIsIntersection(fs: seq<Factor>)
    requires |fs| > 0
    ensures forall v :: v in CommonUncond(fs) <==> UnconditionedInAll(fs, v)
  {
    if |fs| == 1 {
      assert forall f :: f in fs <==> f == fs[0];
    } else {
      var init := fs[..|fs| - 1];
      CommonUncondIsIntersection(init);
      assert forall f :: f in fs <==> f in init || f == fs[|fs| - 1];
    }
  }

  /**
   * joinFactors rejects its input exactly when it holds two or more factors
   * and some variable is unconditioned in every one of them (a variable
   * unconditioned in only some of them is let through); the error carries
   * exactly those variables and the whole input. The empty list, and only
   * it, gives None.
   */
  lemma JoinFactorsRejectsIff(fs: seq<Factor>)
    requires AllValid(fs) && DomainsAgree(fs)
    ensures JoinFactorsSpec(fs).Failure? <==> |fs| > 1 && exists v :: UnconditionedInAll(fs, v)
    ensures JoinFactorsSpec(fs).Failure? ==>
              && JoinFactorsSpec(fs).error.SharedUnconditioned?
              && JoinFactorsSpec(fs).error.inputs == fs
              && forall v :: v in JoinFactorsSpec(fs).error.shared <==> UnconditionedInAll(fs, v)
    ensures JoinFactorsSpec(fs) == Success(None) <==> fs == []
  {
    if |fs| > 1 {
      CommonUncondIsIntersection(fs);
      if exists v :: UnconditionedInAll(fs, v) {
        var v :| UnconditionedInAll(fs, v);
        assert v in CommonUncond(fs);
      }
    }
  }

  /**
   * The variable sets of the factor joinFactors builds: all the inputs'
   * variables, split in two disjoint roles; a variable is unconditioned when some input has it unconditioned, and
   * conditioned when some input has it conditioned and none unconditioned.
   */
  lemma JoinedVariables(fs: seq<Factor>)
    ensures JoinedUncond(fs) + JoinedCond(fs) == UnionVars(fs)
    ensures JoinedUncond(fs) !! JoinedCond(fs)
    ensures forall v :: v in JoinedUncond(fs) <==> exists f :: f in fs && v in f.uncond
    ensures forall v :: v in JoinedCond(fs) <==>
              (exists f :: f in fs && v in f.cond) && !(exists f :: f in fs && v in f.uncond)
  {
    UnionVarsSplit(fs);
    UnionMembership(fs);
    assert JoinedUncond(fs) == UnionUncond(fs);
  }

  /**
   * The factor joinFactors builds is a valid factor, and its probability at
   * any full assignment is the product, in input order, of the inputs'
   * probabilities there.
   */
  lemma JoinedCells(fs: seq<Factor>)
    requires |fs| > 0 && AllValid(fs) && DomainsAgree(fs)
    ensures Joined(fs).Valid()
    ensures forall a :: IsFull(a, UnionVars(fs), fs[0].domains) ==>
              && CoveredByAll(fs, a)
              && Joined(fs).Covers(a)
              && Joined(fs).Prob(a) == Product(fs, a, |fs|)
  {
    var j := Joined(fs);
    UnionVarsSplit(fs);
    JoinedCovers(fs);
    assert j.Vars() == UnionVars(fs);
    forall a | IsFull(a, UnionVars(fs), fs[0].domains)
      ensures j.Covers(a) && j.Prob(a) == Product(fs, a, |fs|)
    {
      RestrictAll(a);
    }
  }

  /** Joining a single factor gives that factor back. */
  lemma JoinSingle(f: Factor)
    requires f.Valid()
    ensures AllValid([f]) && DomainsAgree([f])
    ensures JoinFactorsSpec([f]) == Success(Some(f))
  {
    var fs := [f];
    assert forall g :: g in fs <==> g == f;
    SingleUnions(f);
    SingleTable(f);
    assert JoinedCond(fs) == f.cond;
    assert JoinedUncond(fs) == f.uncond;
  }

  /** The unions over a single factor are that factor's own sets. */
  lemma SingleUnions(f: Factor)
    ensures UnionVars([f]) == f.Vars() && UnionUncond([f]) == f.uncond && UnionCond([f]) == f.cond
  {
    var fs := [f];
    assert fs[..0] == [];
    assert UnionVars(fs) == UnionVars(fs[..0]) + f.Vars();
    assert UnionUncond(fs) == UnionUncond(fs[..0]) + f.uncond;
    assert UnionCond(fs) == UnionCond(fs[..0]) + f.cond;
  }

  /** The product table of a single valid factor is that factor's table. */
  lemma SingleTable(f: Factor)
    requires f.Valid()
    ensures ProductTable([f]) == f.table
  {
    var fs := [f];
    SingleUnions(f);
    JoinedCovers(fs);
    var t := ProductTable(fs);
    assert forall a :: a in t <==> IsFull(a, f.Vars(), f.domains);
    forall a | a in t
      ensures t[a] == f.table[a]
    {
      assert CoveredByAll(fs, a);
      ProductStep(fs, a, 0, 1.0);
      RestrictAll(a);
    }
    SameTable(t, f.table);
  }

  // ---------------------------------------------------------------------------
  // joinFactorsByVariable

  /**
   * The two comprehensions split the input: every factor lands in exactly
   * one of them, as often as it occurs in the input.
   */
  lemma {:induction false} FilterPartition(fs: seq<Factor>, v: Variable)
    ensures multiset(Mentioning(fs, v)) + multiset(NotMentioning(fs, v)) == multiset(fs)
    ensures |Mentioning(fs, v)| + |NotMentioning(fs, v)| == |fs|
  {
    if fs != [] {
      FilterPartition(fs[1..], v);
      assert fs == [fs[0]] + fs[1..];
    }
  }

  /** A comprehension keeps the input order: it distributes over concatenation. */
  lemma {:induction false} FilterAppend(xs: seq<Factor>, ys: seq<Factor>, keep: Factor -> bool)
    ensures Filter(xs + ys, keep) == Filter(xs, keep) + Filter(ys, keep)
  {
    if xs == [] {
      assert xs + ys == ys;
    } else {
      FilterAppend(xs[1..], ys, keep);
      assert (xs + ys)[0] == xs[0] && (xs + ys)[1..] == xs[1..] + ys;
      var head: seq<Factor> := if keep(xs[0]) then [xs[0]] else [];
      var front, back := Filter(xs[1..], keep), Filter(ys, keep);
      assert head + (front + back) == (head + front) + back;
    }
  }

  /**
   * Counting the factors that have `v` unconditioned among those that
   * mention `v` counts them among all factors.
   */
  lemma {:induction false} UnconditionedAmongMentioning(fs: seq<Factor>, v: Variable)
    ensures UnconditionedIn(Mentioning(fs, v), v) == UnconditionedIn(fs, v)
  {
    if fs != [] {
      var rest := fs[1..];
      UnconditionedAmongMentioning(rest, v);
      if v in fs[0].Vars() {
        var m := Mentioning(fs, v);
        assert m == [fs[0]] + Mentioning(rest, v);
        assert m[0] == fs[0] && m[1..] == Mentioning(rest, v);
      } else {
        assert Mentioning(fs, v) == Mentioning(rest, v);
        assert UnconditionedIn(fs, v) == UnconditionedIn(rest, v);
      }
    }
  }

  /** UnconditionedIn decides on the first factor, then goes on with the rest. */
  lemma UnconditionedInFirst(fs: seq<Factor>, v: Variable)
    requires fs != []
    ensures |UnconditionedIn(fs, v)| == (if v in fs[0].uncond then 1 else 0) + |UnconditionedIn(fs[1..], v)|
  {
  }

  /** UnconditionedIn is non-empty exactly when some factor has `v` unconditioned. */
  lemma {:induction false} CountUnconditioned(fs: seq<Factor>, v: Variable)
    ensures |UnconditionedIn(fs, v)| > 0 <==> exists i :: 0 <= i < |fs| && v in fs[i].uncond
  {
    if fs != [] {
      var rest := fs[1..];
      CountUnconditioned(rest, v);
      UnconditionedInFirst(fs, v);
      if |UnconditionedIn(rest, v)| > 0 {
        var i :| 0 <= i < |rest| && v in rest[i].uncond;
        assert v in fs[i + 1].uncond;
      }
      if exists i :: 0 <= i < |fs| && v in fs[i].uncond {
        var i :| 0 <= i < |fs| && v in fs[i].uncond;
        if i > 0 {
          assert v in rest[i - 1].uncond;
        }
      }
    }
  }

  /** UnconditionedIn holds two or more factors exactly when two factors have `v` unconditioned. */
  lemma CountUnconditionedTwice(fs: seq<Factor>, v: Variable)
    ensures |UnconditionedIn(fs, v)| > 1 <==> UnconditionedTwice(fs, v)
  {
    if |UnconditionedIn(fs, v)| > 1 {
      TwoUnconditionedAreTwice(fs, v);
    }
    if UnconditionedTwice(fs, v) {
      TwiceGivesTwoUnconditioned(fs, v);
    }
  }

  /** Two factors kept by UnconditionedIn sit at two positions of the input. */
  lemma {:induction false} TwoUnconditionedAreTwice(fs: seq<Factor>, v: Variable)
    requires |UnconditionedIn(fs, v)| > 1
    ensures UnconditionedTwice(fs, v)
  {
    var rest := fs[1..];
    UnconditionedInFirst(fs, v);
    if v in fs[0].uncond {
      CountUnconditioned(rest, v);
      var i :| 0 <= i < |rest| && v in rest[i].uncond;
      assert v in fs[i + 1].uncond && 0 < i + 1 < |fs|;
    } else {
      TwoUnconditionedAreTwice(rest, v);
      var i, j :| 0 <= i < j < |rest| && v in rest[i].uncond && v in rest[j].uncond;
      assert v in fs[i + 1].uncond && v in fs[j + 1].uncond;
    }
  }

  /** Two positions with `v` unconditioned leave at least two factors in UnconditionedIn. */
  lemma {:induction false} TwiceGivesTwoUnconditioned(fs: seq<Factor>, v: Variable)
    requires UnconditionedTwice(fs, v)
    ensures |UnconditionedIn(fs, v)| > 1
  {
    var rest := fs[1..];
    UnconditionedInFirst(fs, v);
    var i, j :| 0 <= i < j < |fs| && v in fs[i].uncond && v in fs[j].uncond;
    assert v in rest[j - 1].uncond;
    if i > 0 {
      assert v in rest[i - 1].uncond;
      TwiceGivesTwoUnconditioned(rest, v);
    } else {
      CountUnconditioned(rest, v);
    }
  }

  /**
   * joinFactorsByVariable raises its own error exactly when two of all the
   * input factors have the join variable unconditioned; the error names the
   * variable and lists the unconditioned sets of the factors that mention it.
   */
  lemma JoinByVariableRejectsIff(fs: seq<Factor>, v: Variable)
    requires AllValid(fs) && DomainsAgree(fs)
    ensures (JoinByVariableSpec(fs, v).Failure? &&
             JoinByVariableSpec(fs, v).error.JoinVariableUnconditionedTwice?)
            <==> UnconditionedTwice(fs, v)
    ensures UnconditionedTwice(fs, v) ==>
              JoinByVariableSpec(fs, v).error ==
              JoinVariableUnconditionedTwice(v, UnconditionedSets(Mentioning(fs, v)))
  {
    UnconditionedAmongMentioning(fs, v);
    CountUnconditionedTwice(fs, v);
  }

  /**
   * When joinFactorsByVariable passes its own check but joinFactors rejects
   * the factors mentioning the join variable, the shared variables never
   * include the join variable itself.
   */
  lemma JoinByVariableSharedExcludesVariable(fs: seq<Factor>, v: Variable)
    requires AllValid(fs) && DomainsAgree(fs)
    requires JoinByVariableSpec(fs, v).Failure?
    requires JoinByVariableSpec(fs, v).error.SharedUnconditioned?
    ensures JoinByVariableSpec(fs, v).error.inputs == Mentioning(fs, v)
    ensures v !in JoinByVariableSpec(fs, v).error.shared
  {
    var toJoin := Mentioning(fs, v);
    JoinByVariableRejectsIff(fs, v);
    CountUnconditionedTwice(toJoin, v);
    UnconditionedAmongMentioning(fs, v);
    CommonUncondIsIntersection(toJoin);
    assert !(v in toJoin[0].uncond && v in toJoin[1].uncond);
    assert toJoin[0] in toJoin && toJoin[1] in toJoin;
  }

  /**
   * A successful joinFactorsByVariable returns the factors that do not mention
   * the join variable, in input order, beside the join of those that do; that
   * join is None exactly when no factor mentions the variable.
   */
  lemma JoinByVariableSuccess(fs: seq<Factor>, v: Variable)
    requires AllValid(fs) && DomainsAgree(fs)
    requires JoinByVariableSpec(fs, v).Success?
    ensures JoinByVariableSpec(fs, v).value.0 == NotMentioning(fs, v)
    ensures multiset(JoinByVariableSpec(fs, v).value.0) + multiset(Mentioning(fs, v)) == multiset(fs)
    ensures JoinByVariableSpec(fs, v).value.1 == None <==> forall f :: f in fs ==> v !in f.Vars()
  {
    FilterPartition(fs, v);
    if Mentioning(fs, v) != [] {
      assert Mentioning(fs, v)[0] in Mentioning(fs, v);
    }
  }

  /**
   * When some factor mentions the join variable, a successful
   * joinFactorsByVariable returns a valid factor over that variable, the join
   * of the factors that mention it, and the variable is unconditioned there
   * exactly when some input has it unconditioned.
   */
  lemma JoinByVariableJoined(fs: seq<Factor>, v: Variable)
    requires AllValid(fs) && DomainsAgree(fs)
    requires JoinByVariableSpec(fs, v).Success? && JoinByVariableSpec(fs, v).value.1.Some?
    ensures JoinByVariableSpec(fs, v).value.1.value == Joined(Mentioning(fs, v))
    ensures JoinByVariableSpec(fs, v).value.1.value.Valid()
    ensures v in JoinByVariableSpec(fs, v).value.1.value.Vars()
    ensures v in JoinByVariableSpec(fs, v).value.1.value.uncond <==> exists f :: f in fs && v in f.uncond
  {
    var toJoin := Mentioning(fs, v);
    JoinedVariables(toJoin);
    JoinedCells(toJoin);
    UnionContains(toJoin, 0);
    assert toJoin[0] in toJoin;
  }
}
