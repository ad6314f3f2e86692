/**
 * joinFactorsByVariable as its rejection branch is written. Before raising
 * its ValueError the branch prints a diagnostic whose argument is the name
 * `factor`; that name is bound only inside the list comprehensions of the
 * function (each comprehension has its own scope) and nowhere in the
 * module, so evaluating the argument raises NameError and the ValueError is
 * never built. The rest of the model uses the intended behaviour,
 * FactorOperations.JoinByVariableSpec, which raises the ValueError.
 */
module Findings {
  import opened Wrappers
  import opened Factors
  import opened FactorOperations
  import opened JoinProperties

  /** The exception a call ends with. */
  datatype Raised =
    | ValueErrorRaised(error: FactorError)
    | NameErrorRaised(name: string)

  /** What joinFactorsByVariable returns or raises as written. */
  ghost function JoinByVariableAsWritten(fs: seq<Factor>, joinVariable: Variable)
    : Result<(seq<Factor>, Option<Factor>), Raised>
    requires AllValid(fs) && DomainsAgree(fs)
  {
    var toJoin := Mentioning(fs, joinVariable);
    if |UnconditionedIn(toJoin, joinVariable)| > 1 then
      Failure(NameErrorRaised("factor"))
    else
      match JoinFactorsSpec(toJoin)
      case Failure(e) => Failure(ValueErrorRaised(e))
      case Success(joined) => Success((NotMentioning(fs, joinVariable), joined))
  }

  /** The intended behaviour seen through the same exception type. */
  ghost function AsRaised(r: Result<(seq<Factor>, Option<Factor>), FactorError>)
    : Result<(seq<Factor>, Option<Factor>), Raised>
  {
    match r
    case Failure(e) => Failure(ValueErrorRaised(e))
    case Success(v) => Success(v)
  }

  /**
   * As written, the join-variable check never produces its own ValueError:
   * exactly when two factors have the join variable unconditioned the call
   * ends with NameError instead, and on every other input it behaves as
   * intended.
   */
  lemma AsWrittenLosesOwnError(fs: seq<Factor>, v: Variable)
    requires AllValid(fs) && DomainsAgree(fs)
    ensures UnconditionedTwice(fs, v) <==> JoinByVariableAsWritten(fs, v) == Failure(NameErrorRaised("factor"))
    ensures UnconditionedTwice(fs, v) ==>
              JoinByVariableSpec(fs, v) == Failure(JoinVariableUnconditionedTwice(v, UnconditionedSets(Mentioning(fs, v))))
    ensures !UnconditionedTwice(fs, v) ==> JoinByVariableAsWritten(fs, v) == AsRaised(JoinByVariableSpec(fs, v))
  {
    JoinByVariableRejectsIff(fs, v);
    UnconditionedAmongMentioning(fs, v);
    CountUnconditionedTwice(fs, v);
  }

  /** A factor over one variable with a single value, holding all the mass. */
  function PointMass(v: Variable, value: Value): (f: Factor)
    ensures f.Valid()
    ensures f.uncond == {v} && f.cond == {}
  {
    var f := Factor({v}, {}, map[v := [value]], map[map[v := value] := 1.0]);
    assert forall a :: IsFull(a, f.Vars(), f.domains) ==> a == map[v := value] by {
      forall a | IsFull(a, f.Vars(), f.domains)
        ensures a == map[v := value]
      {
        assert a.Keys == {v} && a[v] == value;
      }
    }
    assert IsFull(map[v := value], f.Vars(), f.domains);
    f
  }

  /** A factor that mentions `v`, listed twice, is kept twice. */
  lemma MentioningPair(f: Factor, v: Variable)
    requires v in f.Vars()
    ensures Mentioning([f, f], v) == [f, f]
  {
    var fs := [f, f];
    var m := Mentioning(fs, v);
    FilterPartition(fs, v);
    assert NotMentioning(fs, v) == [] by {
      assert forall g :: g !in NotMentioning(fs, v);
    }
    assert |m| == 2 && m[0] in m && m[1] in m;
  }

  /**
   * The input that shows it: the same point mass over "A" twice, so "A" is
   * unconditioned in two factors. The intended call raises the
   * join-variable ValueError; as written it raises NameError.
   */
  lemma SharedJoinVariableRaisesNameError()
    ensures AllValid([PointMass("A", "t"), PointMass("A", "t")])
    ensures DomainsAgree([PointMass("A", "t"), PointMass("A", "t")])
    ensures JoinByVariableSpec([PointMass("A", "t"), PointMass("A", "t")], "A")
            == Failure(JoinVariableUnconditionedTwice("A", [{"A"}, {"A"}]))
    ensures JoinByVariableAsWritten([PointMass("A", "t"), PointMass("A", "t")], "A")
            == Failure(NameErrorRaised("factor"))
  {
    var f := PointMass("A", "t");
    var fs := [f, f];
    assert forall g :: g in fs ==> g == f;
    assert UnconditionedTwice(fs, "A") by {
      assert "A" in fs[0].uncond && "A" in fs[1].uncond;
    }
    AsWrittenLosesOwnError(fs, "A");
    MentioningPair(f, "A");
    assert UnconditionedSets(fs) == [{"A"}, {"A"}];
  }
}
