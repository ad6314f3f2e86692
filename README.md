# Factor operations for Bayes-net inference

This project models the factor algebra of the tracking project's inference
code, `tracking/factorOperations.py`, and proves properties of it in Dafny.
A factor is a table of probabilities over a set of unconditioned and a set of
conditioned variables, with a domain (an ordered list of values) for each
variable. The module has three operations:

- `joinFactors` multiplies a list of factors into one;
- `joinFactorsByVariable` joins only the factors that mention one variable,
  and returns the others unchanged beside the result;
- `eliminate` sums one unconditioned variable out of a factor.

The two public operations are built by closures over an optional call-tracking
list. The list records `('join', variable)` or `('eliminate', variable)` on
every call, before any check.

Layout:

- `wrappers.dfy` (module `Wrappers`): `Option` and `Result`.
- `factor.dfy` (module `Factors`): the part of `bayesNet.Factor` that the
  operations use, stated by contract. A valid factor stores exactly one
  probability per full assignment of its variables. `getProbability` drops the
  variables the factor does not have before looking the assignment up.
  `getAllPossibleAssignmentDicts` lists every full assignment.
- `tracking.dfy` (module `Tracking`): the call-tracking list, a class with a
  sequence field that `Append` extends.
- `factor_operations.dfy` (module `FactorOperations`): the operations. Each is
  an imperative method with the source's loops. Each is proved equal to a
  specification function (`JoinFactorsSpec`, `JoinByVariableSpec`,
  `EliminateSpec`). A Python exception is a `Failure` carrying a
  `FactorError`. The tracking list is a nullable `CallTrackingList` parameter
  that `None` maps to `null`.
- `join_properties.dfy` and `eliminate_properties.dfy`: what the operations
  promise, proved as lemmas about the specification functions. Every lemma
  therefore holds of the methods' results.
- `findings.dfy` (module `Findings`): the rejection branch of
  `joinFactorsByVariable` as written. See "Findings".

`joinFactors` rejects a list when the common intersection of all the
unconditioned sets is non-empty. It computes that intersection with
`functools.reduce` over `&`. A variable that is unconditioned in two factors,
but not in all of them, is let through. The model follows the code.
`JoinProperties.JoinFactorsRejectsIff` states exactly this condition. A
pairwise rule, "no variable unconditioned in two inputs", is enforced only by
`joinFactorsByVariable`, and only for its join variable.

## Model

| member | source | states |
|---|---|---|
| Factors.Restrict | tracking/factorOperations.py:87 | the assignment handed to getProbability, cut down to the factor's variables, keeps exactly those variables and their values |
| Factors.Enumerate | tracking/factorOperations.py:84 | the assignment listing holds exactly the full assignments of the listed variables over their domains |
| Factors.Assignments | tracking/factorOperations.py:84 | the set of assignments the population loops visit is exactly the set of full assignments |
| Factors.AllPossibleAssignments | tracking/factorOperations.py:124 | getAllPossibleAssignmentDicts returns every full assignment of the new factor's variables and nothing else |
| Factors.Spread | tracking/factorOperations.py:84 | the assignment listing extends a row with one more variable by setting it to each listed value in turn: exactly those rows, in domain order |
| Factors.Extend | tracking/factorOperations.py:84 | extending every row with every value of one more variable gives exactly the cross product |
| Factors.ExtendIsFull | tracking/factorOperations.py:84 | adding the last variable of an ordering to the full assignments of the others gives the full assignments of all of them |
| Factors.SumOverRemove | tracking/factorOperations.py:129 | the total of a table over a set of keys is one key's cell plus the total over the rest, whichever key is taken out |
| Factors.SumOverUnion | tracking/factorOperations.py:129 | totals over disjoint key sets add up |
| Tracking.CallTrackingList.constructor | tracking/factorOperations.py:19 | a fresh tracking list is empty |
| Tracking.CallTrackingList.Append | tracking/factorOperations.py:25-26 | list.append adds one record at the end and keeps the earlier ones |
| FactorOperations.FilterMembers | tracking/factorOperations.py:28-29 | a comprehension keeps exactly the factors that pass its test |
| FactorOperations.Mentioning | tracking/factorOperations.py:28 | currentFactorsToJoin holds exactly the input factors whose variables include the join variable |
| FactorOperations.NotMentioning | tracking/factorOperations.py:29 | currentFactorsNotToJoin holds exactly the input factors whose variables lack the join variable |
| FactorOperations.UnconditionedIn | tracking/factorOperations.py:31 | the counted list holds exactly the factors with the join variable unconditioned |
| FactorOperations.UnconditionedSets | tracking/factorOperations.py:34-36 | the error payload lists each candidate factor's unconditioned set, in order |
| FactorOperations.JoinedCovers | tracking/factorOperations.py:71-87 | every full assignment of the joined variables, read in the first factor's domains, can be looked up in each input factor |
| FactorOperations.UnionVarsInRegistry | tracking/factorOperations.py:71 | the first factor's domain dictionary knows every variable of the join |
| FactorOperations.FullCoversAll | tracking/factorOperations.py:86-87 | each input factor can be asked for its probability at a full assignment of the joined variables |
| FactorOperations.UnionVarsSplit | tracking/factorOperations.py:73-76 | the union of all variables is the union of the unconditioned and the conditioned ones |
| FactorOperations.UnionContains | tracking/factorOperations.py:74 | every input factor's variables lie in the union |
| FactorOperations.UnionMembership | tracking/factorOperations.py:73-76 | each of the three unions holds exactly the variables some input has in that role |
| FactorOperations.ProductStep | tracking/factorOperations.py:86-87 | multiplying in the next factor's probability advances the running product by one factor |
| FactorOperations.SumOutStep | tracking/factorOperations.py:126-129 | adding the next value's probability advances the running sum by one term, and the extended assignment can be looked up |
| FactorOperations.Terms | tracking/factorOperations.py:126-129 | the inner loop of eliminate adds one term per listed value of the eliminated variable |
| FactorOperations.SameTable | tracking/factorOperations.py:89 | two tables with the same keys and the same cells are the same table |
| FactorOperations.ExtendedCovers | tracking/factorOperations.py:127-129 | an assignment of the remaining variables, extended with a value of the eliminated one, is a full assignment of the input factor |
| FactorOperations.JoinFactors | tracking/factorOperations.py:47-91 | joinFactors returns or raises exactly what JoinFactorsSpec says: the intersection check first, then None for the empty list, then the new factor with the union sets and product cells |
| FactorOperations.FillProducts | tracking/factorOperations.py:84-89 | the population loop writes, for every full assignment of the new factor and nothing else, the product of the inputs' probabilities |
| FactorOperations.ProductAt | tracking/factorOperations.py:85-87 | the inner loop leaves the product, in input order, of every input's probability at the assignment |
| FactorOperations.FilledProducts | tracking/factorOperations.py:84-89 | a table filled at every full assignment with the product is the join's table |
| FactorOperations.JoinFactorsByVariable | tracking/factorOperations.py:19-41 | appends ('join', variable) to the tracking list when there is one, before any check; then returns or raises exactly what JoinByVariableSpec says |
| FactorOperations.FillSums | tracking/factorOperations.py:124-131 | the population loop writes, for every full assignment of the remaining variables and nothing else, the sum over the eliminated variable's domain |
| FactorOperations.SumOutAt | tracking/factorOperations.py:125-129 | the inner loop leaves the sum, in domain order, of the input's probabilities at the assignment extended with each value |
| FactorOperations.Eliminate | tracking/factorOperations.py:94-136 | appends ('eliminate', variable) to the tracking list when there is one, before any check; then returns or raises exactly what EliminateSpec says |
| JoinProperties.CommonUncondIsIntersection | tracking/factorOperations.py:52-54 | reduce(&) over the unconditioned sets holds exactly the variables unconditioned in every factor |
| JoinProperties.JoinFactorsRejectsIff | tracking/factorOperations.py:52-66 | joinFactors raises exactly when there are two or more factors and some variable is unconditioned in all of them; the error carries exactly those variables and the whole input; it returns None exactly for the empty list |
| JoinProperties.JoinedVariables | tracking/factorOperations.py:68-80 | the new factor's unconditioned and conditioned sets are disjoint and together cover every input variable; a variable is unconditioned when some input has it unconditioned, and conditioned when some input has it conditioned and none unconditioned |
| JoinProperties.JoinedCells | tracking/factorOperations.py:82-89 | the joined factor is valid and its probability at each full assignment is the product, in input order, of the inputs' probabilities |
| JoinProperties.JoinSingle | tracking/factorOperations.py:47-91 | joining a single factor gives that factor back |
| JoinProperties.SingleUnions | tracking/factorOperations.py:73-76 | the three unions over one factor are that factor's own sets |
| JoinProperties.SingleTable | tracking/factorOperations.py:84-89 | the product table of one factor is that factor's table |
| JoinProperties.FilterPartition | tracking/factorOperations.py:28-29 | the two comprehensions split the input: each factor lands in exactly one of them, as often as it occurs |
| JoinProperties.FilterAppend | tracking/factorOperations.py:28-29 | a comprehension keeps input order: filtering a concatenation concatenates the filtered parts |
| JoinProperties.UnconditionedAmongMentioning | tracking/factorOperations.py:28-31 | counting the factors with the join variable unconditioned among those that mention it counts them among all inputs |
| JoinProperties.UnconditionedInFirst | tracking/factorOperations.py:31 | the count decides on the first factor, then goes on with the rest |
| JoinProperties.CountUnconditioned | tracking/factorOperations.py:31 | the count is positive exactly when some factor has the variable unconditioned |
| JoinProperties.CountUnconditionedTwice | tracking/factorOperations.py:31-32 | the count exceeds one exactly when two different factors have the variable unconditioned |
| JoinProperties.TwoUnconditionedAreTwice | tracking/factorOperations.py:31-32 | a count above one comes from two different positions of the input |
| JoinProperties.TwiceGivesTwoUnconditioned | tracking/factorOperations.py:31-32 | two positions with the variable unconditioned make the count exceed one |
| JoinProperties.JoinByVariableRejectsIff | tracking/factorOperations.py:31-36 | joinFactorsByVariable raises its own error exactly when two input factors have the join variable unconditioned; the error names the variable and lists the candidates' unconditioned sets |
| JoinProperties.JoinByVariableSharedExcludesVariable | tracking/factorOperations.py:38 | when joinFactors rejects the candidates, it rejects exactly that list, and the join variable is never among the shared variables |
| JoinProperties.JoinByVariableSuccess | tracking/factorOperations.py:28-39 | on success the first result is the factors without the join variable; with the candidates they make up the input; the joined result is None exactly when no factor mentions the variable |
| JoinProperties.JoinByVariableJoined | tracking/factorOperations.py:38-39 | a joined result is the valid join of the candidates, mentions the join variable, and has it unconditioned exactly when some input does |
| EliminateProperties.EliminateRejectsIff | tracking/factorOperations.py:103-115 | eliminate raises exactly when the variable is not unconditioned or is the only unconditioned one; the not-unconditioned check comes first |
| EliminateProperties.EliminateVariables | tracking/factorOperations.py:118-122 | the new factor keeps the domains and the conditioned set, drops the variable from the unconditioned set, which stays non-empty, and has the input's variables minus the eliminated one |
| EliminateProperties.EliminateCells | tracking/factorOperations.py:122-131 | the new factor is valid, and its probability at each full assignment is the sum, over the listed values, of the input's probabilities at the extended assignment |
| EliminateProperties.Visited | tracking/factorOperations.py:126-128 | the inner loop visits the assignment extended with each listed value, in domain order |
| EliminateProperties.VisitedIsSpread | tracking/factorOperations.py:126-128 | the assignments eliminate's inner loop builds are the same list as the assignment listing's rows for that one variable |
| EliminateProperties.RunningSumIsSumOver | tracking/factorOperations.py:125-129 | adding cells at distinct keys one by one gives the total over the set of those keys |
| EliminateProperties.SumOverAddOne | tracking/factorOperations.py:129 | adding one new key adds its cell to the total |
| EliminateProperties.VisitedCells | tracking/factorOperations.py:126-129 | the terms added are the input's cells at the visited assignments, which are distinct when the domain lists each value once |
| EliminateProperties.VisitedAreFiber | tracking/factorOperations.py:124-129 | the visited assignments are exactly the input's cells that agree with the new assignment off the eliminated variable |
| EliminateProperties.CellIsFiberSum | tracking/factorOperations.py:124-131 | each new cell totals the input's cells that agree with its assignment off the eliminated variable |
| EliminateProperties.FibersOverSplit | tracking/factorOperations.py:124 | removing one new assignment removes exactly its own input cells |
| EliminateProperties.SumOverFibers | tracking/factorOperations.py:124-131 | when every new cell totals the input cells above it, the new table's total is the total over all cells above its keys |
| EliminateProperties.EliminatePreservesMass | tracking/factorOperations.py:94-136 | summing a variable out keeps the total probability mass, when the domain lists each value once |
| EliminateProperties.CellsAreFiberSums | tracking/factorOperations.py:124-131 | every cell eliminate writes totals the input's cells above its assignment |
| EliminateProperties.FibersCoverTable | tracking/factorOperations.py:124-131 | every input cell lies above exactly one cell eliminate writes |
| Findings.AsWrittenLosesOwnError | tracking/factorOperations.py:31-36 | as written, joinFactorsByVariable ends with NameError exactly when its own check fails, where ValueError is intended, and behaves as intended on every other input |
| Findings.MentioningPair | tracking/factorOperations.py:28 | a factor that mentions the join variable, listed twice, is kept twice |
| Findings.SharedJoinVariableRaisesNameError | tracking/factorOperations.py:31-36 | on two copies of a valid point mass over A (one value, all the mass), the intended call raises the join-variable ValueError and the call as written raises NameError |

## Left out

- `bayesNet.Factor` is not part of this model. Its behaviour is stated from its
  use here: a valid factor has disjoint unconditioned and conditioned sets,
  knows the domain of each of its variables, and stores one probability per
  full assignment. `setProbability` on the fresh factor is modelled as writing
  a cell of a local table, which becomes the new factor's table.
- The order in which `getAllPossibleAssignmentDicts` lists assignments is not
  modelled. The model fixes some ordering of the variable set, and only
  membership is stated. No result depends on the order.
- Probabilities are real numbers, not floats, so rounding is not modelled.
  The product in input order and the sum in domain order are still modelled
  step by step, as the source computes them.
- `print` calls and the text of exception messages are left out. An exception
  is a `FactorError` value carrying the data its message formats.
- The closures built by `joinFactorsByVariableWithCallTracking` and
  `eliminateWithCallTracking` are modelled as methods taking the tracking
  list as a parameter, where `None` is `null`.
- Each population loop, and each inner loop, is its own helper method:
  `FillProducts` and `ProductAt` for joinFactors, `FillSums` and `SumOutAt`
  for eliminate.
- All inputs of a join are assumed to share one domain registry
  (`DomainsAgree`), as Bayes-net factors do. The source takes the first
  factor's `variableDomainsDict` and does not check the others.
- EliminateProperties.EliminatePreservesMass: requires the eliminated
  variable's domain to list each value once. The inner loop counts the cells
  at a repeated value twice, so the total can differ.
- That the join does not depend on the order of its inputs is not proved. The
  cells are products in input order, which is what the source computes.
- `reinforcement/reinforcement/qlearningAgents.py` is not part of this model.

## Findings

| source | as written | input that shows it | evidently intended | confidence | as-written member | corrected member |
|---|---|---|---|---|---|---|
| tracking/factorOperations.py:33 | the rejection branch prints `factor`. That name is bound only inside the comprehensions on lines 28, 29 and 31, which have their own scope, and not in the module, so evaluating it raises NameError before the ValueError is built | two copies of a point mass over `A`, joined by `A` | raise the ValueError naming the join variable and listing the candidates' unconditioned sets | high, not executed | Findings.JoinByVariableAsWritten, Findings.SharedJoinVariableRaisesNameError | FactorOperations.JoinByVariableSpec, JoinProperties.JoinByVariableRejectsIff |
