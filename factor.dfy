/**
 * The contract that the factor operations rely on from bayesNet.Factor.
 *
 * A factor has a set of unconditioned variables, a set of conditioned
 * variables, the network-wide registry of variable domains and a dense table
 * holding one probability for every full assignment of its variables. Only
 * the accessors the operations call are modelled: variablesSet,
 * unconditionedVariables, conditionedVariables, variableDomainsDict,
 * getAllPossibleAssignmentDicts and getProbability.
 */
module Factors {

  type Variable = string
  type Value = string
  /** An assignment dictionary: variable name to one value of its domain. */
  type Assignment = map<Variable, Value>
  /** variableDomainsDict: the ordered list of values of each variable. */
  type Domains = map<Variable, seq<Value>>

  predicate Distinct<T(==)>(s: seq<T>) {
    forall i, j :: 0 <= i < j < |s| ==> s[i] != s[j]
  }

  function Elems(order: seq<Variable>): set<Variable> {
    set v | v in order
  }

  /** `a` gives every variable of `vars`, and only those, a value of its domain. */
  predicate IsFull(a: Assignment, vars: set<Variable>, domains: Domains) {
    a.Keys == vars && forall v :: v in vars ==> v in domains && a[v] in domains[v]
  }

  /** The part of `a` that mentions the variables `vars`. */
  function Restrict(a: Assignment, vars: set<Variable>): (r: Assignment)
    requires vars <= a.Keys
    ensures r.Keys == vars
    ensures forall v :: v in vars ==> r[v] == a[v]
  {
    map v | v in vars :: a[v]
  }

  /** Restricting an assignment to all of its own variables changes nothing. */
  lemma RestrictAll(a: Assignment)
    ensures Restrict(a, a.Keys) == a
  {
  }

  datatype Factor = Factor(
    uncond: set<Variable>,
    cond: set<Variable>,
    domains: Domains,
    table: map<Assignment, real>)
  {
    /** variablesSet */
    function Vars(): set<Variable> {
      uncond + cond
    }

    /**
     * What a bayesNet.Factor guarantees: the two variable roles are
     * disjoint, every variable has a domain, and there is exactly one stored
     * probability per full assignment of the factor's variables.
     */
    ghost predicate Valid() {
      && uncond !! cond
      && Vars() <= domains.Keys
      && forall a :: a in table <==> IsFull(a, Vars(), domains)
    }

    /** `a` mentions every variable of this factor with a value of its domain. */
    predicate Covers(a: Assignment) {
      Vars() <= a.Keys && forall v :: v in Vars() ==> v in domains && a[v] in domains[v]
    }

    /** getProbability: looks `a` up after dropping the variables this factor lacks. */
    function Prob(a: Assignment): real
      requires Valid() && Covers(a)
    {
      table[Restrict(a, Vars())]
    }

    /** The total of all cells of the table. */
    ghost function Mass(): real {
      SumOver(table.Keys, table)
    }
  }

  /** One row per value of `vals`: `a` extended with `v` set to that value. */
  function Spread(a: Assignment, v: Variable, vals: seq<Value>): (r: seq<Assignment>)
    ensures |r| == |vals| && forall i :: 0 <= i < |vals| ==> r[i] == a[v := vals[i]]
    ensures forall x :: x in vals ==> a[v := x] in r
    ensures forall b :: b in r ==> v in b && b[v] in vals && b == a[v := b[v]]
  {
    if vals == [] then []
    else
      var tail := Spread(a, v, vals[1..]);
      assert forall x :: x in vals <==> x == vals[0] || x in vals[1..];
      [a[v := vals[0]]] + tail
  }

  /** The cross product of `rows` with the values `vals` of variable `v`. */
  function Extend(rows: seq<Assignment>, v: Variable, vals: seq<Value>): (r: seq<Assignment>)
    ensures forall a, x :: a in rows && x in vals ==> a[v := x] in r
    ensures forall b :: b in r ==> v in b && b[v] in vals && exists a :: a in rows && b == a[v := b[v]]
  {
    if rows == [] then []
    else
      var head := Spread(rows[0], v, vals);
      var tail := Extend(rows[1..], v, vals);
      assert forall a :: a in rows <==> a == rows[0] || a in rows[1..];
      head + tail
  }

  lemma ExtendIsFull(order: seq<Variable>, domains: Domains, rows: seq<Assignment>)
    requires |order| > 0 && Distinct(order)
    requires forall i :: 0 <= i < |order| ==> order[i] in domains
    requires forall b :: b in rows <==> IsFull(b, Elems(order[..|order| - 1]), domains)
    ensures forall b :: b in Extend(rows, order[|order| - 1], domains[order[|order| - 1]])
                     <==> IsFull(b, Elems(order), domains)
  {
    var v := order[|order| - 1];
    var prefix := order[..|order| - 1];
    assert order == prefix + [v];
    assert Elems(order) == Elems(prefix) + {v};
    LastNotInPrefix(order);
    ExtendComplete(Elems(prefix), v, domains, rows);
    ExtendSound(Elems(prefix), v, domains, rows);
  }

  lemma LastNotInPrefix(order: seq<Variable>)
    requires |order| > 0 && Distinct(order)
    ensures order[|order| - 1] !in Elems(order[..|order| - 1])
  {
    var prefix := order[..|order| - 1];
    forall i | 0 <= i < |prefix|
      ensures prefix[i] != order[|order| - 1]
    {
      assert prefix[i] == order[i];
    }
  }

  lemma ExtendComplete(vars: set<Variable>, v: Variable, domains: Domains, rows: seq<Assignment>)
    requires v !in vars && v in domains
    requires forall b :: b in rows <==> IsFull(b, vars, domains)
    ensures forall b :: IsFull(b, vars + {v}, domains) ==> b in Extend(rows, v, domains[v])
  {
    forall b | IsFull(b, vars + {v}, domains)
      ensures b in Extend(rows, v, domains[v])
    {
      var a := b - {v};
      assert IsFull(a, vars, domains);
      assert b == a[v := b[v]];
    }
  }

  lemma ExtendSound(vars: set<Variable>, v: Variable, domains: Domains, rows: seq<Assignment>)
    requires v !in vars && v in domains
    requires forall b :: b in rows <==> IsFull(b, vars, domains)
    ensures forall b :: b in Extend(rows, v, domains[v]) ==> IsFull(b, vars + {v}, domains)
  {
    forall b | b in Extend(rows, v, domains[v])
      ensures IsFull(b, vars + {v}, domains)
    {
      var a :| a in rows && b == a[v := b[v]];
      assert IsFull(a, vars, domains);
    }
  }

  /** Every full assignment of the variables of `order`. */
  function Enumerate(order: seq<Variable>, domains: Domains): (r: seq<Assignment>)
    requires Distinct(order)
    requires forall i :: 0 <= i < |order| ==> order[i] in domains
    ensures forall b :: b in r <==> IsFull(b, Elems(order), domains)
    decreases |order|
  {
    if order == [] then
      assert Elems(order) == {};
      [map[]]
    else
      var rows := Enumerate(order[..|order| - 1], domains);
      ExtendIsFull(order, domains, rows);
      Extend(rows, order[|order| - 1], domains[order[|order| - 1]])
  }

  /** Some listing of the finite set `vars`, without repetition. */
  ghost function SomeOrder(vars: set<Variable>): (r: seq<Variable>)
    ensures Distinct(r)
    ensures Elems(r) == vars
    decreases vars
  {
    if vars == {} then []
    else
      var v :| v in vars;
      var rest := SomeOrder(vars - {v});
      assert Elems(rest + [v]) == Elems(rest) + {v};
      rest + [v]
  }

  /** The set of full assignments of `vars`. */
  ghost function Assignments(vars: set<Variable>, domains: Domains): (r: set<Assignment>)
    requires vars <= domains.Keys
    ensures forall a :: a in r <==> IsFull(a, vars, domains)
  {
    set a | a in Enumerate(SomeOrder(vars), domains)
  }

  /**
   * getAllPossibleAssignmentDicts: lists the full assignments of `vars`,
   * after fixing some order of the variables.
   */
  method AllPossibleAssignments(vars: set<Variable>, domains: Domains) returns (r: seq<Assignment>)
    requires vars <= domains.Keys
    ensures forall a :: a in r <==> IsFull(a, vars, domains)
  {
    var order: seq<Variable> := [];
    var rest := vars;
    while rest != {}
      invariant rest <= vars
      invariant Distinct(order)
      invariant forall v :: v in order <==> v in vars && v !in rest
      decreases rest
    {
      var v :| v in rest;
      order := order + [v];
      rest := rest - {v};
    }
    assert Elems(order) == vars;
    r := Enumerate(order, domains);
  }

  /** The total of the cells of `t` at the keys `keys`. */
  ghost function SumOver(keys: set<Assignment>, t: map<Assignment, real>): real
    requires keys <= t.Keys
    decreases keys
  {
    if keys == {} then 0.0 else var a :| a in keys; t[a] + SumOver(keys - {a}, t)
  }

  /** The total does not depend on which key is taken out first. */
  lemma {:induction false} SumOverRemove(keys: set<Assignment>, t: map<Assignment, real>, b: Assignment)
    requires keys <= t.Keys && b in keys
    ensures SumOver(keys, t) == t[b] + SumOver(keys - {b}, t)
    decreases keys
  {
    var a :| a in keys && SumOver(keys, t) == t[a] + SumOver(keys - {a}, t);
    if a != b {
      SumOverRemove(keys - {a}, t, b);
      SumOverRemove(keys - {b}, t, a);
      assert keys - {a} - {b} == keys - {b} - {a};
    }
  }

  /** The total over two disjoint key sets is the sum of their totals. */
  lemma {:induction false} SumOverUnion(xs: set<Assignment>, ys: set<Assignment>, t: map<Assignment, real>)
    requires xs <= t.Keys && ys <= t.Keys && xs !! ys
    ensures SumOver(xs + ys, t) == SumOver(xs, t) + SumOver(ys, t)
    decreases xs
  {
    if xs != {} {
      var a :| a in xs;
      SumOverRemove(xs + ys, t, a);
      SumOverRemove(xs, t, a);
      assert (xs + ys) - {a} == (xs - {a}) + ys;
      SumOverUnion(xs - {a}, ys, t);
    } else {
      assert xs + ys == ys;
    }
  }
}
