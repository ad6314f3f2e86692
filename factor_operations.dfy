/**
 * The factor algebra of variable elimination: joinFactorsByVariable,
 * joinFactors and eliminate, with the optional call tracking of the two
 * closures.
 *
 * Each operation is a method that does what the source does step by step
 * (accumulating variable sets in a loop, filling a fresh table cell by cell),
 * and is proved to return exactly the value of a ghost specification function
 * (JoinFactorsSpec, JoinByVariableSpec, EliminateSpec). The properties of those
 * functions are proved in JoinProperties and EliminateProperties.
 */
module FactorOperations {
  import opened Wrappers
  import opened Factors
  import opened Tracking

  /** The ValueError raised by the operations, without its message text. */
  datatype FactorError =
    | JoinVariableUnconditionedTwice(joinVariable: Variable, unconditionedSets: seq<set<Variable>>)
    | SharedUnconditioned(shared: set<Variable>, inputs: seq<Factor>)
    | NotUnconditioned(eliminationVariable: Variable, unconditioned: set<Variable>)
    | SoleUnconditioned(eliminationVariable: Variable, unconditioned: set<Variable>)

  ghost predicate AllValid(fs: seq<Factor>) {
    forall f :: f in fs ==> f.Valid()
  }

  /**
   * The factors share one domain registry: each factor's registry gives every
   * variable of every other factor the same domain as that factor's own.
   */
  ghost predicate DomainsAgree(fs: seq<Factor>) {
    forall f, g, v :: f in fs && g in fs && v in f.Vars() ==>
      v in f.domains && v in g.domains && g.domains[v] == f.domains[v]
  }

  // ---------------------------------------------------------------------------
  // List comprehensions of joinFactorsByVariable

  /** [f for f in fs if keep(f)] */
  function Filter(fs: seq<Factor>, keep: Factor -> bool): seq<Factor> {
    if fs == [] then [] else (if keep(fs[0]) then [fs[0]] else []) + Filter(fs[1..], keep)
  }

  /** A comprehension keeps exactly the factors that pass its test. */
  lemma {:induction false} FilterMembers(fs: seq<Factor>, keep: Factor -> bool)
    ensures forall f :: f in Filter(fs, keep) <==> f in fs && keep(f)
  {
    if fs != [] {
      FilterMembers(fs[1..], keep);
      assert forall f :: f in fs <==> f == fs[0] || f in fs[1..];
    }
  }

  /** The factors whose variablesSet contains `v`. */
  function Mentioning(fs: seq<Factor>, v: Variable): (r: seq<Factor>)
    ensures forall f :: f in r <==> f in fs && v in f.Vars()
  {
    FilterMembers(fs, (f: Factor) => v in f.Vars());
    Filter(fs, (f: Factor) => v in f.Vars())
  }

  /** The factors whose variablesSet lacks `v`. */
  function NotMentioning(fs: seq<Factor>, v: Variable): (r: seq<Factor>)
    ensures forall f :: f in r <==> f in fs && v !in f.Vars()
  {
    FilterMembers(fs, (f: Factor) => v !in f.Vars());
    Filter(fs, (f: Factor) => v !in f.Vars())
  }

  /** The factors that have `v` among their unconditioned variables. */
  function UnconditionedIn(fs: seq<Factor>, v: Variable): (r: seq<Factor>)
    ensures forall f :: f in r <==> f in fs && v in f.uncond
  {
    FilterMembers(fs, (f: Factor) => v in f.uncond);
    Filter(fs, (f: Factor) => v in f.uncond)
  }

  function UnconditionedSets(fs: seq<Factor>): (r: seq<set<Variable>>)
    ensures |r| == |fs| && forall i :: 0 <= i < |fs| ==> r[i] == fs[i].uncond
  {
    seq(|fs|, i requires 0 <= i < |fs| => fs[i].uncond)
  }

  // ---------------------------------------------------------------------------
  // Variable sets of joinFactors

  /** The union of the variablesSet of every factor. */
  function UnionVars(fs: seq<Factor>): set<Variable> {
    if fs == [] then {} else UnionVars(fs[..|fs| - 1]) + fs[|fs| - 1].Vars()
  }

  /** The union of the unconditioned variables of every factor. */
  function UnionUncond(fs: seq<Factor>): set<Variable> {
    if fs == [] then {} else UnionUncond(fs[..|fs| - 1]) + fs[|fs| - 1].uncond
  }

  /** The union of the conditioned variables of every factor. */
  function UnionCond(fs: seq<Factor>): set<Variable> {
    if fs == [] then {} else UnionCond(fs[..|fs| - 1]) + fs[|fs| - 1].cond
  }

  /**
   * functools.reduce(&) over the unconditioned sets, left to right; what it
   * computes is stated by JoinProperties.CommonUncondIsIntersection.
   */
  function CommonUncond(fs: seq<Factor>): set<Variable>
    requires |fs| > 0
  {
    if |fs| == 1 then fs[0].uncond else CommonUncond(fs[..|fs| - 1]) * fs[|fs| - 1].uncond
  }

  /** new_conditioned_variables */
  function JoinedCond(fs: seq<Factor>): set<Variable> {
    UnionCond(fs) - UnionUncond(fs)
  }

  /** new_unconditioned_variables */
  function JoinedUncond(fs: seq<Factor>): set<Variable> {
    UnionVars(fs) - JoinedCond(fs)
  }

  /**
   * Every full assignment of the joined variables, read in the first
   * factor's registry, can be looked up in each input factor.
   */
  lemma JoinedCovers(fs: seq<Factor>)
    requires |fs| > 0 && AllValid(fs) && DomainsAgree(fs)
    ensures UnionVars(fs) <= fs[0].domains.Keys
    ensures forall a :: IsFull(a, UnionVars(fs), fs[0].domains) ==> CoveredByAll(fs, a)
  {
    UnionVarsInRegistry(fs);
    forall a | IsFull(a, UnionVars(fs), fs[0].domains)
      ensures CoveredByAll(fs, a)
    {
      FullCoversAll(fs, a);
    }
  }

  /** The first factor's registry knows every variable of the list. */
  lemma UnionVarsInRegistry(fs: seq<Factor>)
    requires |fs| > 0 && AllValid(fs) && DomainsAgree(fs)
    ensures UnionVars(fs) <= fs[0].domains.Keys
  {
    UnionMembership(fs);
    assert fs[0] in fs;
  }

  /** A full assignment of the list's variables can be looked up in each of its factors. */
  lemma FullCoversAll(fs: seq<Factor>, a: Assignment)
    requires |fs| > 0 && AllValid(fs) && DomainsAgree(fs)
    requires IsFull(a, UnionVars(fs), fs[0].domains)
    ensures CoveredByAll(fs, a)
  {
    forall i | 0 <= i < |fs|
      ensures fs[i].Valid() && fs[i].Covers(a)
    {
      UnionContains(fs, i);
      assert fs[i] in fs && fs[0] in fs;
    }
  }

  /** Every variable of a factor is unconditioned or conditioned there. */
  lemma {:induction false} UnionVarsSplit(fs: seq<Factor>)
    ensures UnionVars(fs) == UnionUncond(fs) + UnionCond(fs)
  {
    if fs != [] {
      UnionVarsSplit(fs[..|fs| - 1]);
    }
  }

  lemma {:induction false} UnionContains(fs: seq<Factor>, i: nat)
    requires i < |fs|
    ensures fs[i].Vars() <= UnionVars(fs)
  {
    if i < |fs| - 1 {
      UnionContains(fs[..|fs| - 1], i);
    }
  }

  /** The three unions hold exactly the variables of some input factor in the given role. */
  lemma {:induction false} UnionMembership(fs: seq<Factor>)
    ensures forall v :: v in UnionVars(fs) <==> exists f :: f in fs && v in f.Vars()
    ensures forall v :: v in UnionUncond(fs) <==> exists f :: f in fs && v in f.uncond
    ensures forall v :: v in UnionCond(fs) <==> exists f :: f in fs && v in f.cond
  {
    if fs != [] {
      UnionMembership(fs[..|fs| - 1]);
      assert forall f :: f in fs <==> f in fs[..|fs| - 1] || f == fs[|fs| - 1];
    }
  }

  /** Every factor of `fs` can be asked for its probability at `a`. */
  ghost predicate CoveredByAll(fs: seq<Factor>, a: Assignment) {
    forall i :: 0 <= i < |fs| ==> fs[i].Valid() && fs[i].Covers(a)
  }

  /** The running product of the first `n` inputs' probabilities at `a`, in input order. */
  function Product(fs: seq<Factor>, a: Assignment, n: nat): real
    requires n <= |fs| && CoveredByAll(fs, a)
  {
    if n == 0 then 1.0 else Product(fs, a, n - 1) * fs[n - 1].Prob(a)
  }

  /** One more factor of the running product. */
  lemma ProductStep(fs: seq<Factor>, a: Assignment, j: nat, partial: real)
    requires j < |fs| && CoveredByAll(fs, a) && partial == Product(fs, a, j)
    ensures partial * fs[j].Prob(a) == Product(fs, a, j + 1)
  {
  }

  /** The cells of the joined factor: the product of the inputs at each full assignment. */
  ghost function ProductTable(fs: seq<Factor>): map<Assignment, real>
    requires |fs| > 0 && AllValid(fs) && DomainsAgree(fs)
  {
    JoinedCovers(fs);
    map a | a in Assignments(UnionVars(fs), fs[0].domains) :: Product(fs, a, |fs|)
  }

  /** The factor joinFactors builds from a non-empty, accepted list. */
  ghost function Joined(fs: seq<Factor>): Factor
    requires |fs| > 0 && AllValid(fs) && DomainsAgree(fs)
  {
    Factor(JoinedUncond(fs), JoinedCond(fs), fs[0].domains, ProductTable(fs))
  }

  /** What joinFactors returns or raises. */
  ghost function JoinFactorsSpec(fs: seq<Factor>): Result<Option<Factor>, FactorError>
    requires AllValid(fs) && DomainsAgree(fs)
  {
    if |fs| > 1 && CommonUncond(fs) != {} then Failure(SharedUnconditioned(CommonUncond(fs), fs))
    else if fs == [] then Success(None)
    else Success(Some(Joined(fs)))
  }

  /** What joinFactorsByVariable returns or raises. */
  ghost function JoinByVariableSpec(fs: seq<Factor>, joinVariable: Variable)
    : Result<(seq<Factor>, Option<Factor>), FactorError>
    requires AllValid(fs) && DomainsAgree(fs)
  {
    var toJoin := Mentioning(fs, joinVariable);
    if |UnconditionedIn(toJoin, joinVariable)| > 1 then
      Failure(JoinVariableUnconditionedTwice(joinVariable, UnconditionedSets(toJoin)))
    else
      match JoinFactorsSpec(toJoin)
      case Failure(e) => Failure(e)
      case Success(joined) => Success((NotMentioning(fs, joinVariable), joined))
  }

  // ---------------------------------------------------------------------------
  // eliminate

  /** summed_probability after adding the first `k` of `terms`, in order. */
  function RunningSum(terms: seq<real>, k: nat): real
    requires k <= |terms|
  {
    if k == 0 then 0.0 else RunningSum(terms, k - 1) + terms[k - 1]
  }

  /**
   * The probabilities eliminate's inner loop adds for `a`: the input's
   * probability at `a` extended with each listed value of `x`, in order.
   */
  function Terms(f: Factor, x: Variable, a: Assignment): (r: seq<real>)
    requires f.Valid() && x in f.Vars()
    requires IsFull(a, f.Vars() - {x}, f.domains)
    ensures |r| == |f.domains[x]|
  {
    seq(|f.domains[x]|, i requires 0 <= i < |f.domains[x]| => f.Prob(a[x := f.domains[x][i]]))
  }

  /** One more term of the running sum. */
  lemma SumOutStep(f: Factor, x: Variable, a: Assignment, i: nat, partial: real)
    requires f.Valid() && x in f.Vars() && i < |f.domains[x]|
    requires IsFull(a, f.Vars() - {x}, f.domains)
    requires partial == RunningSum(Terms(f, x, a), i)
    ensures f.Covers(a[x := f.domains[x][i]])
    ensures partial + f.Prob(a[x := f.domains[x][i]]) == RunningSum(Terms(f, x, a), i + 1)
  {
    ExtendedCovers(f, x, a, f.domains[x][i]);
  }

  /** Two tables with the same keys and the same cells are equal. */
  lemma SameTable(t: map<Assignment, real>, u: map<Assignment, real>)
    requires forall a :: a in t <==> a in u
    requires forall a :: a in t ==> t[a] == u[a]
    ensures t == u
  {
  }

  /** An assignment of all variables but `x`, extended with a value of `x`, is full. */
  lemma ExtendedCovers(f: Factor, x: Variable, a: Assignment, value: Value)
    requires f.Valid() && x in f.Vars() && value in f.domains[x]
    requires IsFull(a, f.Vars() - {x}, f.domains)
    ensures IsFull(a[x := value], f.Vars(), f.domains) && f.Covers(a[x := value])
  {
  }

  /** The cells of the factor without `x`: each the sum over the domain of `x`. */
  ghost function SumOutTable(f: Factor, x: Variable): map<Assignment, real>
    requires f.Valid() && x in f.Vars()
  {
    map a | a in Assignments(f.Vars() - {x}, f.domains) :: RunningSum(Terms(f, x, a), |f.domains[x]|)
  }

  /** What eliminate returns or raises. */
  ghost function EliminateSpec(f: Factor, x: Variable): Result<Factor, FactorError>
    requires f.Valid()
  {
    if x !in f.uncond then Failure(NotUnconditioned(x, f.uncond))
    else if |f.uncond| == 1 then Failure(SoleUnconditioned(x, f.uncond))
    else Success(Factor(f.uncond - {x}, f.cond, f.domains, SumOutTable(f, x)))
  }

  // ---------------------------------------------------------------------------
  // The operations

  /**
   * joinFactors: rejects the list when some variable is unconditioned in all
   * of two or more factors, returns None for the empty list, and otherwise
   * fills a fresh factor over all the inputs' variables with the products of
   * the inputs' cells.
   */
  method JoinFactors(fs: seq<Factor>) returns (r: Result<Option<Factor>, FactorError>)
    requires AllValid(fs) && DomainsAgree(fs)
    ensures r == JoinFactorsSpec(fs)
  {
    if |fs| > 1 {
      var intersect := CommonUncond(fs);
      if |intersect| > 0 {
        return Failure(SharedUnconditioned(intersect, fs));
      }
    }
    if |fs| == 0 {
      return Success(None);
    }

    var allVariables: set<Variable> := {};
    var allUnconditioned: set<Variable> := {};
    var allConditioned: set<Variable> := {};
    var domains := fs[0].domains;
    for i := 0 to |fs|
      invariant allVariables == UnionVars(fs[..i])
      invariant allUnconditioned == UnionUncond(fs[..i])
      invariant allConditioned == UnionCond(fs[..i])
    {
      assert fs[..i + 1][..i] == fs[..i];
      allVariables := allVariables + fs[i].Vars();
      allUnconditioned := allUnconditioned + fs[i].uncond;
      allConditioned := allConditioned + fs[i].cond;
    }
    assert fs[..|fs|] == fs;
    var newConditioned := allConditioned - allUnconditioned;
    var newUnconditioned := allVariables - newConditioned;

    UnionVarsSplit(fs);
    var table := FillProducts(fs, newUnconditioned + newConditioned);
    r := Success(Some(Factor(newUnconditioned, newConditioned, domains, table)));
  }

  /**
   * The population loop of joinFactors: for every full assignment of the new
   * factor's variables, the running product of the inputs' probabilities,
   * written to a fresh table.
   */
  method FillProducts(fs: seq<Factor>, vars: set<Variable>) returns (table: map<Assignment, real>)
    requires |fs| > 0 && AllValid(fs) && DomainsAgree(fs)
    requires vars == UnionVars(fs)
    ensures table == ProductTable(fs)
  {
    UnionVarsInRegistry(fs);
    var domains := fs[0].domains;
    var assignments := AllPossibleAssignments(vars, domains);
    table := map[];
    for k := 0 to |assignments|
      invariant forall a :: a in table <==> a in assignments[..k]
      invariant forall a :: a in table ==> CoveredByAll(fs, a) && table[a] == Product(fs, a, |fs|)
    {
      var a := assignments[k];
      assert a in assignments;
      FullCoversAll(fs, a);
      var probability := ProductAt(fs, a);
      assert assignments[..k + 1] == assignments[..k] + [a];
      table := table[a := probability];
    }
    assert assignments[..|assignments|] == assignments;
    FilledProducts(fs, assignments, table);
  }

  /** The inner loop of joinFactors: the product, in input order, of the inputs' probabilities at `a`. */
  method ProductAt(fs: seq<Factor>, a: Assignment) returns (probability: real)
    requires CoveredByAll(fs, a)
    ensures probability == Product(fs, a, |fs|)
  {
    probability := 1.0;
    for j := 0 to |fs|
      invariant probability == Product(fs, a, j)
    {
      ProductStep(fs, a, j, probability);
      probability := probability * fs[j].Prob(a);
    }
  }

  lemma FilledProducts(fs: seq<Factor>, assignments: seq<Assignment>, table: map<Assignment, real>)
    requires |fs| > 0 && AllValid(fs) && DomainsAgree(fs)
    requires forall a :: a in assignments <==> IsFull(a, UnionVars(fs), fs[0].domains)
    requires forall a :: a in table <==> a in assignments
    requires forall a :: a in table ==> CoveredByAll(fs, a) && table[a] == Product(fs, a, |fs|)
    ensures table == ProductTable(fs)
  {
    JoinedCovers(fs);
    ghost var spec := ProductTable(fs);
    assert forall a :: a in table <==> a in spec;
    SameTable(table, spec);
  }

  /**
   * joinFactorsByVariable, as built by joinFactorsByVariableWithCallTracking
   * with `tracker` (null for no list): records ('join', joinVariable) first,
   * then rejects the call if two or more of the factors that mention the
   * variable have it unconditioned, and otherwise joins those factors and
   * returns the others beside the result.
   */
  method JoinFactorsByVariable(tracker: CallTrackingList?, fs: seq<Factor>, joinVariable: Variable)
    returns (r: Result<(seq<Factor>, Option<Factor>), FactorError>)
    requires AllValid(fs) && DomainsAgree(fs)
    modifies tracker
    ensures tracker != null ==> tracker.records == old(tracker.records) + [Record(JoinOperation, joinVariable)]
    ensures r == JoinByVariableSpec(fs, joinVariable)
  {
    if tracker != null {
      tracker.Append(Record(JoinOperation, joinVariable));
    }
    var toJoin := Mentioning(fs, joinVariable);
    var notToJoin := NotMentioning(fs, joinVariable);
    var numVariableOnLeft := |UnconditionedIn(toJoin, joinVariable)|;
    if numVariableOnLeft > 1 {
      return Failure(JoinVariableUnconditionedTwice(joinVariable, UnconditionedSets(toJoin)));
    }
    var joined := JoinFactors(toJoin);
    match joined
    case Failure(e) => r := Failure(e);
    case Success(joinedFactor) => r := Success((notToJoin, joinedFactor));
  }

  /**
   * The population loop of eliminate: for every full assignment of the
   * remaining variables, the running sum over the domain of `x` of the input's
   * probabilities, written to a fresh table.
   */
  method FillSums(f: Factor, x: Variable, vars: set<Variable>) returns (table: map<Assignment, real>)
    requires f.Valid() && x in f.Vars()
    requires vars == f.Vars() - {x}
    ensures table == SumOutTable(f, x)
  {
    var domains := f.domains;
    var assignments := AllPossibleAssignments(vars, domains);
    table := map[];
    for k := 0 to |assignments|
      invariant forall a :: a in table <==> a in assignments[..k]
      invariant forall a :: a in table ==>
                  IsFull(a, vars, domains) && table[a] == RunningSum(Terms(f, x, a), |domains[x]|)
    {
      var a := assignments[k];
      assert a in assignments;
      var summedProbability := SumOutAt(f, x, a);
      assert assignments[..k + 1] == assignments[..k] + [a];
      table := table[a := summedProbability];
    }
    assert assignments[..|assignments|] == assignments;
    ghost var spec := SumOutTable(f, x);
    assert forall a :: a in table <==> a in spec;
    assert forall a :: a in table ==> table[a] == spec[a];
    SameTable(table, spec);
  }

  /**
   * The inner loop of eliminate: the sum of the input's probabilities at `a`
   * extended with each listed value of `x`, in domain order.
   */
  method SumOutAt(f: Factor, x: Variable, a: Assignment) returns (summedProbability: real)
    requires f.Valid() && x in f.Vars()
    requires IsFull(a, f.Vars() - {x}, f.domains)
    ensures summedProbability == RunningSum(Terms(f, x, a), |f.domains[x]|)
  {
    summedProbability := 0.0;
    var values := f.domains[x];
    ghost var terms := Terms(f, x, a);
    for i := 0 to |values|
      invariant summedProbability == RunningSum(terms, i)
    {
      var fullAssignment := a[x := values[i]];
      SumOutStep(f, x, a, i, summedProbability);
      summedProbability := summedProbability + f.Prob(fullAssignment);
    }
  }

  /**
   * eliminate, as built by eliminateWithCallTracking with `tracker` (null for
   * no list): records ('eliminate', x) first, rejects a variable that is not
   * unconditioned or is the only unconditioned one, and otherwise fills a
   * fresh factor without `x` whose cells sum the input over the domain of `x`.
   */
  method Eliminate(tracker: CallTrackingList?, f: Factor, x: Variable) returns (r: Result<Factor, FactorError>)
    requires f.Valid()
    modifies tracker
    ensures tracker != null ==> tracker.records == old(tracker.records) + [Record(EliminateOperation, x)]
    ensures r == EliminateSpec(f, x)
  {
    if tracker != null {
      tracker.Append(Record(EliminateOperation, x));
    }
    if x !in f.uncond {
      return Failure(NotUnconditioned(x, f.uncond));
    }
    if |f.uncond| == 1 {
      return Failure(SoleUnconditioned(x, f.uncond));
    }

    var newUnconditioned := f.uncond - {x};
    var newConditioned := f.cond;
    var domains := f.domains;
    assert newUnconditioned + newConditioned == f.Vars() - {x};
    var table := FillSums(f, x, newUnconditioned + newConditioned);
    r := Success(Factor(newUnconditioned, newConditioned, domains, table));
  }
}
