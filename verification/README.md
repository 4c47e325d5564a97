# Verified core of the MRS theorem prover

A Dafny model of the symbolic algorithms on which the soundness of MRS rests, with proofs. The
project is self-contained; `dafny verify dfyconfig.toml` checks all of it.

## What is modelled

First-order syntax and Tarskian truth over an arbitrary non-empty domain are in `Fol.dfy`. Every
statement about meaning is made against them. Where the source updates state in place, the model
does too: a method is proved equal to a function on values, and the theorems are about the function.

- The clausifier: `IffRenaming`, `Nnf`, `NnfBounded`, `Substitution`, `Skolem`, `Strip`, `Cnf`,
  `ClauseCount`, `Definitional` and `Extraction` hold the passes, `CnfBound` how many clauses they
  return, `Clausify` their composition with its bounds and the end-to-end theorem with its exact
  nesting condition, `DepthLimit` the family of inputs on which the nesting cut-off of substitution
  makes the pipeline unsound. `Lowering` gives the front
  end that supplies formulas with distinct binders, and exactly when they are closed.
- The term orderings: `Lpo` and `Kbo` with their laws, `Descent` for their well-foundedness,
  `LpoMemo` for the memoised and budgeted LPO.
- The SAT proof checker: `Rup`, `ProofTrace`, and `Frat` for the ASCII format, down to characters.
- Demodulation: `Matching`, `Rewriting` (walk, passes, replay), `Demodulation` (memo, deadline,
  recorded steps, and the rule base whose methods keep the memo right over every history), and
  `Termination` (oriented rules reach a fully reduced clause).
- Matching procedures: `Subsumption`, `Orientation` (when its answer is complete),
  `SubsumptionSearch`, `Alpha`, and `AlphaCongruence` for what alpha-equivalence is.
- The certification coordinator: `Coordinator`, a step system of submitters, worker and `finish`.

Conventions. A symbol table is represented by the number of symbols interned so far, so a fresh
symbol is the next number. Interned terms are trees, so equal ids are equal trees. A deadline is a
clock tick from which on every read sees it as passed; theorems hold for every such tick and for
none. A verdict that depends on the outside (verification, thread timing) is left open and
quantified over.

## Where the code does less than it promises

Each of these is proved, by a concrete input, a family of inputs or a condition. Where a condition
is called exact, it is proved in both directions for all inputs.

- Substitution leaves variables below nesting 500 alone. `ApplyTermExact` is the exact condition on
  substitution. For the clausifier this errs in one direction only: `ClausifyCorrect` shows for
  every lowered input that the pipeline does not panic and that models of the clauses are models of
  the input. The other direction holds when no existential variable lies so deep (`PiecesShallow`,
  which `PiecesCloseExact` shows exact for the elimination of existential variables), and
  `DeepNestingUnsound` gives, for every larger depth, a satisfiable formula with unsatisfiable clauses.
- The restore loop of a quantifier runs front to back, so a name listed twice is left bound to
  another id. `LoweringCorrect` is the exact condition for a closed formula to be lowered to a closed
  one, computable from the source formula: no name is used after a sibling has left it stale.
  `RepeatedNameEscapes` fails it, `RepeatedNameHarmless` does not.
- Definitional CNF is documented to keep the clause count linear (crates/mrs-cnf/src/definitional.rs:1-5).
  At threshold 1, used for the main formula, it does: no more clauses than nodes. At the default
  threshold, used for definitions, a disjunction is named only at its conjunctions, so disjunctions
  below the threshold multiply inside another one: `WideExplodes` gives 8^k clauses for 1 + 10k
  nodes. `MatrixBound` bounds the clauses by 8^w for each node, where the width w counts such
  disjunctions and is k in the family; the count is linear when no disjunction has two disjunctions
  among its parts.
- `rup_check` gives up at the first antecedent that does not resolve. `RupOrderExact` is the exact
  condition for its verdict not to depend on the order of antecedents; `RupOrderDependent` is the
  smallest list on which it does.
- A trace with a zero literal or a zero hint is printed but cannot be parsed back (`RoundTrip`).
- In `subsumes` an equation commits to the first orientation that matches
  (`EquationCommitment`). `SettledComplete` shows the answer complete whenever the choice does not
  matter, and `SettledExact` shows that condition exact for first clauses with at most one equation
  and no two literals of one sign and predicate. It quantifies over substitutions;
  `SubsumesExact` is the version under a check that a caller can run.
- A panic of the certification worker leaves one candidate neither rejected nor certified
  (`FinishBalanced`).

The orderings need less than their documentation suggests: LPO is transitive without injective
precedence, and KBO needs no fixed arities once weights are admissible. The pass limit of
demodulation is explained in the source by cyclic rules
(crates/mrs-calculus/src/demodulation.rs:392-395); rules are stored only in the greater-to-smaller
direction, and `PassesTerminate` shows that no cycle can then arise.

## Model

| member | source | states |
|---|---|---|
| Clausification.ClausifyCorrect | crates/mrs-cnf/src/lib.rs:105-472 | End to end, over every non-empty domain: for every closed binder-distinct input the pipeline never panics and every model of the clauses is a model of the input; if no existential variable of a piece lies below nesting 500, every model of the input becomes one of the clauses by changing fresh symbols only, hence equisatisfiability |
| Clausification.ClausifyFormula | crates/mrs-cnf/src/lib.rs:105-472 | The pipeline run with its mutable contexts returns those clauses for every closed binder-distinct input: models of the clauses are models of the input, under the nesting condition they are satisfiable exactly when the input is, none is a tautology or repeats a literal, and they number at most the nodes of the NNF of the renamed formula plus, for each node of the definitions, the threshold to the power of their width; without equivalences at most twice the nodes of the input |
| Clausification.RunOne | crates/mrs-cnf/src/lib.rs:194-234 | One formula through all passes, for any threshold: at most max(1, threshold) to the power of the width clauses for each node of the NNF, at threshold 1 no more clauses than nodes, and a symbol is drawn for CNF exactly when some disjunction with a conjunction among its parts has more clauses than the threshold |
| Clausification.MatrixBound | crates/mrs-cnf/src/lib.rs:223-230 | The choice between naming and distribution, on every matrix: the same bound on the clauses, one symbol for each definition, none exactly on calm matrices, and then as many clauses as distribution gives |
| Clausification.ClausifyBound | crates/mrs-cnf/src/lib.rs:105-472 | The clauses of the whole pipeline against the nodes of its input, linear in them when no definition is wider than a constant |
| Clausification.WideExplodes | crates/mrs-cnf/src/definitional.rs:1-5 | At the default threshold the clause count is not linear: a matrix with 1 + 10k nodes has 8^k clauses, because a disjunction of disjunctions below the threshold is never named |
| CnfBound.NameCount | crates/mrs-cnf/src/definitional.rs:393-434 | Naming leaves of every disjunction at most the threshold to the power of its spread clauses, and the formula and its definitions together stay within that factor of the nodes |
| CnfBound.NameDraws | crates/mrs-cnf/src/definitional.rs:393-434 | Naming draws a symbol exactly when a disjunction with a conjunction among its parts has more clauses than the threshold, and otherwise returns its input |
| CnfBound.DefinitionalConjuncts | crates/mrs-cnf/src/definitional.rs:331-381 | The definitional CNF has one clause for each clause of the named formula and of each definition |
| CnfBound.MatrixFits | crates/mrs-cnf/src/skolem.rs:58-113 | Skolemization and stripping make a formula neither larger nor wider |
| Clausification.RunDefs | crates/mrs-cnf/src/lib.rs:265-333 | The loop that clausifies the biconditional of every introduced definition, in order, with symbols drawn one after the other |
| Clausification.OneSound | crates/mrs-cnf/src/lib.rs:194-234 | Models of the clauses of one closed formula are models of the formula, at any nesting |
| Clausification.OneComplete | crates/mrs-cnf/src/lib.rs:194-234 | Every model of one formula without deep existential variables extends, on symbols fresh for it, to its clauses |
| Clausification.PiecesCloseExact | crates/mrs-cnf/src/skolem.rs:79-93 | The nesting condition is exact: it holds if and only if Skolemization leaves no variable free in the renamed formula and in every closed definition |
| Clausification.ShallowPieces | crates/mrs-cnf/src/definitional.rs:219-300 | It is enough that no variable of the input that becomes existential lies below the cut-off |
| Clausification.OneShape | crates/mrs-cnf/src/lib.rs:223-234 | On closed, binder-distinct input, at any nesting, the matrix is quantifier-free and extraction succeeds |
| DepthLimit.DeepNestingUnsound | crates/mrs-core/src/subst.rs:92-102 | The substitution behind Skolemization stops at nesting 500: for every depth beyond it there is a satisfiable closed, binder-distinct formula whose clauses have no model, and it violates the nesting condition |
| Substitution.ApplyTermExact | crates/mrs-core/src/subst.rs:92-152 | Applying a singleton substitution is mathematical substitution if and only if the variable has no occurrence below the nesting cut-off |
| Substitution.ApplyHolds | crates/mrs-core/src/subst.rs:203-268 | Capture avoidance: whatever the binders of the formula, renamed apart where they meet the term, shadowing or harmless, truth after substituting is truth under the updated assignment, if the variable is not free below the cut-off |
| Substitution.RenameFacts | crates/mrs-core/src/subst.rs:203-268 | Renaming a bound variable to an unused id moves the assignment along and puts nothing below the cut-off |
| NormalForm.NnfMeaning | crates/mrs-cnf/src/nnf.rs:33-134 | NNF keeps the truth value, negated or not, under every assignment |
| NormalForm.NnfShape | crates/mrs-cnf/src/nnf.rs:33-134 | NNF keeps free variables, symbols and bound variables, and although equivalences copy their sides no two sibling disjuncts ever bind the same variable |
| NormalForm.NnfShallow | crates/mrs-cnf/src/nnf.rs:33-134 | A quantifier of the input becomes existential and deep exactly where the nesting condition on the input says so, both polarities under an equivalence |
| NormalForm.NnfCache.Convert | crates/mrs-cnf/src/nnf.rs:27-134 | Conversion through the memo map returns what the uncached recursion returns, and keeps the map right |
| NormalForm.NnfCache.ConvertAll | crates/mrs-cnf/src/nnf.rs:64-84 | The same for lists of parts |
| NnfBounded.ToNnfBounded | crates/mrs-cnf/src/nnf.rs:229-363 | Some exactly when the charge fits the node bound and the height fits the depth bound; then it is the unbounded NNF and has at most that many nodes |
| NnfBounded.NodeBudget.Visit | crates/mrs-cnf/src/nnf.rs:230-360 | The recursive visit with its shared counter, from any state of the counter and at any depth |
| NnfBounded.NnfSize | crates/mrs-cnf/src/nnf.rs:245-248 | The nodes of the result never exceed what was charged for it |
| Skolemization.SkolemizationCorrect | crates/mrs-cnf/src/skolem.rs:58-113 | With the free-variable filter, for closed NNF input without deep existential variables: the output entails the input, and every model of the input can be changed on the fresh symbols alone to satisfy the output |
| Skolemization.SkolemClosedExact | crates/mrs-cnf/src/skolem.rs:58-113 | The output is closed if and only if no existential variable of the closed NNF input lies below the nesting cut-off |
| Skolemization.SubstShape | crates/mrs-core/src/subst.rs:203-268 | Replacing a variable by a Skolem term keeps binders and NNF, adds only the variables of the term, and removes the variable unless it is deep |
| Skolemization.SkolemSound | crates/mrs-cnf/src/skolem.rs:58-113 | The same soundness inside any scope of universal variables |
| Skolemization.SkolemComplete | crates/mrs-cnf/src/skolem.rs:58-113 | The same completeness inside any scope, with the changed structure given |
| Skolemization.WitnessWorks | crates/mrs-cnf/src/skolem.rs:79-93 | Reading the Skolem function as a choice of witnesses satisfies the body although the term takes only the in-scope universals free in it |
| Skolemization.SkolemShape | crates/mrs-cnf/src/skolem.rs:58-113 | At any nesting no existential remains, binders stay apart, symbols are fresh, and only variables of the input or its scope occur; without deep existential variables only those in scope stay free |
| Skolemization.SkolemCtx.Skolemize | crates/mrs-cnf/src/skolem.rs:58-113 | The pass with its scope stack and symbol counter; the stack is restored |
| Skolemization.SkolemCtx.FreshSkolem | crates/mrs-cnf/src/skolem.rs:43-56 | Every call yields the next unused symbol |
| Stripping.StripCorrect | crates/mrs-cnf/src/lib.rs:502-513 | Dropping the universal quantifiers of a Skolemized formula keeps its universal closure, in both directions |
| Stripping.StripRefutes | crates/mrs-cnf/src/lib.rs:502-513 | A falsifying assignment of the formula yields one of the stripped formula: sibling disjuncts share no bound variable |
| Stripping.SkolemRefutes | crates/mrs-cnf/src/skolem.rs:58-113 | At any nesting a falsifying assignment of the NNF input yields one of the Skolemized and stripped formula: an existential variable takes the value of its Skolem term, so it does not matter which occurrences are replaced |
| Stripping.AtomwiseSame | crates/mrs-core/src/subst.rs:203-268 | Replacing a variable by a term of the same value keeps truth, whatever the cut-off leaves alone |
| Distribution.ToCnfHolds | crates/mrs-cnf/src/cnf.rs:18-151 | CNF conversion is an equivalence under every assignment |
| Distribution.ToCnfShape | crates/mrs-cnf/src/cnf.rs:18-151 | On quantifier-free NNF the result is a conjunction of disjunctions of literals |
| Distribution.FlattenConnectives | crates/mrs-cnf/src/cnf.rs:25-54 | The flattening loops |
| Distribution.DistributeFormula | crates/mrs-cnf/src/cnf.rs:57-86 | The distribution loops |
| Distribution.DistributeOrList | crates/mrs-cnf/src/cnf.rs:90-103 | Distribution across a list of disjuncts |
| Distribution.DistributeOrPair | crates/mrs-cnf/src/cnf.rs:108-151 | Distribution across a pair, left operand first |
| Distribution.ConvertToCnf | crates/mrs-cnf/src/cnf.rs:18-21 | Flattening followed by distribution |
| ClauseCount.CnfExactCount | crates/mrs-cnf/src/definitional.rs:67-120 | For every quantifier-free formula NNF plus distribution is equivalent to it, is CNF, and has exactly as many conjuncts as the estimate says, capped at the saturation bound |
| ClauseCount.EstimateIsCount | crates/mrs-cnf/src/definitional.rs:67-120 | Saturating arithmetic never drifts: the estimate is the true count, capped, for both polarities |
| Tseitin.TseitinCorrect | crates/mrs-cnf/src/definitional.rs:331-484 | For every threshold: the output entails the input, and every model of the input expands, on fresh predicates only, to the output with all one-way definitions |
| Tseitin.ToCnfDefinitionalShape | crates/mrs-cnf/src/definitional.rs:331-381 | The output is pure CNF, and every definition mentions only older symbols |
| Tseitin.ConvertDefinitional | crates/mrs-cnf/src/definitional.rs:331-381 | The driver: naming pass, definition clauses, main CNF |
| Tseitin.DefCtx.NameAndUnderOr | crates/mrs-cnf/src/definitional.rs:393-434 | The naming pass pushes the definitions of the recursion, in order, and leaves earlier ones alone |
| Tseitin.DefCtx.IntroduceName | crates/mrs-cnf/src/definitional.rs:442-484 | One fresh predicate over the sorted free variables of the flattened conjuncts |
| Tseitin.FlattenInto | crates/mrs-cnf/src/definitional.rs:487-495 | The recursion that splices nested conjunctions into the accumulator |
| Tseitin.ClausesOfDefinition | crates/mrs-cnf/src/definitional.rs:352-364 | The clauses of one definition, each normalised on its own |
| Tseitin.Sorted | crates/mrs-cnf/src/definitional.rs:447-452 | The free variables as an increasing list without repetition |
| IffRenaming.RenamingCorrect | crates/mrs-cnf/src/definitional.rs:181-300 | Definitions come in dependency order; every model extends to them; where they hold the renamed formula is equivalent to the input; every remaining equivalence has equivalence-free sides |
| IffRenaming.RenameLinear | crates/mrs-cnf/src/definitional.rs:181-300 | For every formula the NNF of the result together with that of all closed definitions has at most 22 times the nodes of the input plus one closing quantifier for each parameter, of which there are at most twice the equivalences times the variables |
| IffRenaming.RenameExact | crates/mrs-cnf/src/definitional.rs:181-300 | A side of an equivalence is named exactly when the equivalence is not small: both sides literals, or one a literal, the other free of equivalences and quantifiers, and the clauses within the threshold; afterwards every equivalence left is small |
| IffRenaming.RenameKeeps | crates/mrs-cnf/src/definitional.rs:219-300 | Renaming flattens equivalences, keeps free variables, moves no variable below the cut-off, and takes parameters of definitions from the input |
| IffRenaming.NnfExponential | crates/mrs-cnf/src/nnf.rs:97-111 | Without renaming, NNF of a chain of k equivalences has at least 2^k nodes |
| IffRenaming.ExtendDefs | crates/mrs-cnf/src/definitional.rs:247-300 | Every structure extends to all definitions at once, nested ones included |
| IffRenaming.RenameShape | crates/mrs-cnf/src/definitional.rs:219-300 | Freshness, order and shape of definitions; free variables and binder distinctness survive |
| IffRenaming.BicondCtx.Traverse | crates/mrs-cnf/src/definitional.rs:219-269 | The traversal with its mutable context pushes exactly those definitions |
| IffRenaming.BicondCtx.IntroduceDefinition | crates/mrs-cnf/src/definitional.rs:271-300 | One fresh predicate over the free variables of the side |
| Extraction.ExtractMeans | crates/mrs-cnf/src/flatten.rs:16-65 | Whenever extraction returns, its clauses mean what the formula means, tautologies and $false included |
| Extraction.ExtractTotal | crates/mrs-cnf/src/flatten.rs:78-118 | On CNF the panicking branches are unreachable |
| Extraction.Extractor.ExtractRec | crates/mrs-cnf/src/flatten.rs:26-65 | The recursion pushes one clause per conjunct in order, numbered consecutively, and keeps what was there |
| Extraction.Extractor.CollectInto | crates/mrs-cnf/src/flatten.rs:78-118 | The literal collector with its early exit on $true |
| Extraction.SimplifyHolds | crates/mrs-cnf/src/simplify.rs:17-42 | Dropping tautologies and repeated literals keeps the meaning of the clause set |
| Extraction.SimplifyExact | crates/mrs-cnf/src/simplify.rs:17-42 | The result is the clauses that are no tautologies, in order, with the same literals and none twice |
| Extraction.TautologyExact | crates/mrs-cnf/src/simplify.rs:17-42 | A clause is deleted exactly when it is true under all independent truth values of its atoms that make reflexive equations true |
| PathOrder.Irreflexive | crates/mrs-calculus/src/ordering.rs:732-814 | No term is greater than itself |
| PathOrder.Transitive | crates/mrs-calculus/src/ordering.rs:732-814 | LPO is transitive, for any precedence and mixed arities |
| PathOrder.CompareFlips | crates/mrs-calculus/src/ordering.rs:691-731 | The four-way result: greater and less are exchanged by swapping operands, and equal means identical |
| PathOrder.TableDecides | crates/mrs-calculus/src/ordering.rs:47-52 | The precedence table decides: with a head that stands higher by the entries of listed symbols and the ids of unlisted ones, a term is greater exactly when it exceeds all arguments of the other, and the other one only through an argument |
| PathOrder.TableTies | crates/mrs-calculus/src/ordering.rs:750-814 | On one level of the table the first differing argument decides |
| PathOrder.LexExact | crates/mrs-calculus/src/ordering.rs:962-980 | The lexicographic comparison by position: agreement up to a place, and there the greater term, or the end of the second list |
| PathOrder.SubtermProperty | crates/mrs-calculus/src/ordering.rs:770-800 | Every term exceeds its proper subterms at any depth |
| PathOrder.ContextClosed | crates/mrs-calculus/src/ordering.rs:732-814 | Replacing an argument by a smaller one makes the term smaller |
| PathOrder.Stable | crates/mrs-calculus/src/ordering.rs:732-814 | The order survives every substitution |
| PathOrder.GroundTotal | crates/mrs-calculus/src/ordering.rs:732-814 | With injective precedence, different ground terms are comparable (fixed arities needed only by the owned-term form) |
| PathOrder.FormsAgree | crates/mrs-calculus/src/ordering.rs:962-1148 | The id form and the owned-term form agree on fixed-arity terms although they break length ties differently |
| Descent.LpoWellFounded | crates/mrs-calculus/src/ordering.rs:732-814 | With injective precedence no infinite sequence of fixed-arity terms descends, variables included |
| Descent.KboWellFounded | crates/mrs-calculus/src/ordering.rs:111-332 | With admissible weights no infinite sequence descends, whatever the arities |
| PathOrderMemo.CompareMemo | crates/mrs-calculus/src/ordering.rs:691-814 | A definite answer is the memo-free one, so with heads on different levels of the precedence table greater means that all arguments of the other term are exceeded; charged steps stay within the limit and reach at least one for each pair evaluated; no answer means the limit was below an explicit bound; memo keys stay among subterm pairs, at most twice their number being evaluated |
| PathOrderMemo.EnoughPolynomial | crates/mrs-calculus/src/ordering.rs:691-814 | That bound is polynomial in the two terms |
| PathOrderMemo.LpoMemo.LpoGt | crates/mrs-calculus/src/ordering.rs:732-748 | One memoised step: a hit costs one charge, a miss is evaluated and stored |
| PathOrderMemo.LpoMemo.LpoGtUncached | crates/mrs-calculus/src/ordering.rs:750-814 | The uncached evaluation agrees with the plain recursion or reports exhaustion |
| PathOrderMemo.LpoMemo.LexGtArgs | crates/mrs-calculus/src/ordering.rs:962-980 | The lexicographic loop |
| PathOrderMemo.LpoMemo.OccursIn | crates/mrs-calculus/src/ordering.rs:982-1012 | The stack walk decides occurrence; a no is charged once for every node and once for every argument, a yes or a failure no more than that |
| PathOrderMemo.LpoMemo.Charge | crates/mrs-calculus/src/ordering.rs:566-584 | Charges never exceed the armed limit |
| PathOrderMemo.Budget.CompareTerms | crates/mrs-calculus/src/ordering.rs:596-731 | An exhausted budget is sticky and yields only incomparable; otherwise the answer is the plain one, by the precedence table where the heads stand on different levels of it; a large enough limit never expires |
| KnuthBendix.CompareDecides | crates/mrs-calculus/src/ordering.rs:345-488 | The four-way function decides the order, in the owned-term and the id form alike, for all terms and not only fixed-arity ones; at equal weight and with enough variables, different heads are decided by the entries of the precedence table |
| KnuthBendix.TableDecides | crates/mrs-calculus/src/ordering.rs:345-488 | At equal weight the term with the higher head is greater exactly when it has enough variables, and the other one never is |
| KnuthBendix.TableTies | crates/mrs-calculus/src/ordering.rs:345-488 | Different heads on one level of the table decide nothing at equal weight |
| KnuthBendix.HeavierHead | crates/mrs-calculus/src/ordering.rs:40-52 | Exchanging the head changes the weight by the difference of the entries, an unlisted symbol weighing as much as a variable; the heavier head wins on the same arguments |
| KnuthBendix.Transitive | crates/mrs-calculus/src/ordering.rs:111-332 | KBO is transitive |
| KnuthBendix.GtAntisymmetric | crates/mrs-calculus/src/ordering.rs:111-332 | Never both greater and smaller |
| KnuthBendix.SubtermProperty | crates/mrs-calculus/src/ordering.rs:111-332 | A term exceeds its arguments when weights are admissible |
| KnuthBendix.ContextClosed | crates/mrs-calculus/src/ordering.rs:111-332 | Closed under contexts |
| KnuthBendix.Stable | crates/mrs-calculus/src/ordering.rs:111-332 | Stable under every substitution, through the variable-count condition |
| KnuthBendix.GroundTotal | crates/mrs-calculus/src/ordering.rs:111-332 | Total on ground terms when precedence is injective |
| RupCheck.Check | crates/mrs-cadical/src/lib.rs:378-430 | The propagation loop computes the specified rounds and terminates on every input |
| RupCheck.ClauseStatus | crates/mrs-cadical/src/lib.rs:395-425 | The scan of one antecedent: satisfied, falsified, unit or open |
| RupCheck.RupExact | crates/mrs-cadical/src/lib.rs:378-430 | When all antecedents resolve, the verdict is: every assignment closed under unit propagation from the negated conclusion falsifies an antecedent |
| RupCheck.RupOrderIndependent | crates/mrs-cadical/src/lib.rs:378-430 | Then order and repetition of antecedents do not matter |
| RupCheck.RupOrderExact | crates/mrs-cadical/src/lib.rs:378-430 | Every listing of the same antecedents gets the same verdict if and only if all resolve or those that do would not certify the conclusion alone; the latter is refutation by the propagation closure |
| RupCheck.OrderMatters | crates/mrs-cadical/src/lib.rs:391-395 | Otherwise listing the missing antecedent first loses and listing it after enough repetitions of the others wins |
| RupCheck.RupOrderDependent | crates/mrs-cadical/src/lib.rs:391-395 | The smallest instance of that |
| RupCheck.RupSound | crates/mrs-cadical/src/lib.rs:378-430 | An accepted conclusion is entailed by the antecedents, for every input |
| ProofTrace.CheckProofTrace | crates/mrs-cadical/src/lib.rs:254-376 | A trace is accepted if and only if no event is unsupported, added ids are positive and not tracked at that point, no derived clause has a RAT witness, each one is a tautology if it cites nothing and refuted by unit propagation from what it cites otherwise, each finalised clause is the tracked one up to literal order, some finalised clause is empty, and no reading of the clock is late |
| ProofTrace.AcceptedExact | crates/mrs-cadical/src/lib.rs:263-376 | The same for the event loop, and the verdict that no empty clause was finalised exactly on traces that lack nothing else |
| ProofTrace.ReplayTrace | crates/mrs-cadical/src/lib.rs:263-376 | The event loop with clause map, flag and clock |
| RupCheck.RupListed | crates/mrs-cadical/src/lib.rs:378-430 | On all inputs, missing antecedents and zero literals included: the check succeeds exactly when the list, repeated, runs into a false clause before it runs into a missing one |
| ProofTrace.StepEntailed | crates/mrs-cadical/src/lib.rs:278-370 | Every event keeps all tracked clauses entailed by the originals seen so far |
| ProofTrace.AcceptanceSound | crates/mrs-cadical/src/lib.rs:263-376 | If a trace is accepted, the set of its original clauses is unsatisfiable |
| ProofTrace.DeadlineWithholds | crates/mrs-cadical/src/lib.rs:246-262 | A deadline changes the verdict only into deadline exceeded |
| Frat.RoundTrip | crates/mrs-cadical/src/lib.rs:140-519 | Parsing a printed trace recovers it up to bookkeeping events and cleared flags if and only if it contains no zero literal or hint, and fails otherwise |
| Frat.VerdictSurvives | crates/mrs-cadical/src/lib.rs:140-519 | The checker gives the parsed trace the verdict it gives the original |
| Frat.RecordRoundTrip | crates/mrs-cadical/src/lib.rs:220-239 | One printed record parses back, zero-free or not |
| Frat.WriteFratClause | crates/mrs-cadical/src/lib.rs:220-239 | The printing loops append exactly one line |
| Frat.EncodeFrat | crates/mrs-cadical/src/lib.rs:140-189 | The printer over a trace; it succeeds exactly when every event is a record without RAT witness or one of the four skipped kinds |
| Frat.ParseFrat | crates/mrs-cadical/src/lib.rs:435-519 | A text parses to a list of events exactly when its lines that are neither blank nor comments spell them one by one |
| Frat.RecordExact | crates/mrs-cadical/src/lib.rs:444-515 | A line is a record exactly when its tokens are kind, id, literals and terminator, for a derived clause an optional hint list, and nothing more; unknown kinds are rejected |
| Frat.ReadRecord | crates/mrs-cadical/src/lib.rs:441-515 | One record by its token loops: id, literals, hints of a derived clause, no trailing token |
| Frat.ReadNumbers | crates/mrs-cadical/src/lib.rs:452-466 | The token loop up to the terminating zero |
| Frat.ParseDecNat | crates/mrs-cadical/src/lib.rs:450-480 | Decimal numbers survive printing and parsing |
| Matching.MatchExact | crates/mrs-unify/src/matching.rs:26-35 | Matching succeeds exactly when the target is an instance of the pattern, and binds the variables of the pattern and no others |
| Matching.MatchTerm | crates/mrs-unify/src/matching.rs:26-35 | The matcher with its mutable substitution |
| Matching.IdSubstitution.MatchRec | crates/mrs-unify/src/matching.rs:87-135 | The recursion extends the bindings it was given |
| Rewriting.ReplayEquivalent | crates/mrs-calculus/src/demodulation.rs:636-688 | A clause replayed from recorded steps is true exactly when the input is, in every structure satisfying the cited equations; variables that occur on right sides only do no harm |
| Rewriting.WalkIrreducible | crates/mrs-calculus/src/demodulation.rs:589-689 | A walk without steps happens exactly on terms no rule can rewrite at any position, and changes nothing |
| Rewriting.WalkOutermost | crates/mrs-calculus/src/demodulation.rs:589-689 | One walk contracts exactly the outermost redexes, each once, from left to right |
| Rewriting.PassEach | crates/mrs-calculus/src/demodulation.rs:391-428 | One pass walks every argument list once and leaves signs and symbols alone |
| Rewriting.SplitEquivalent | crates/mrs-calculus/src/demodulation.rs:614-636 | Under every choice of true splits that contains those of the clause, where rules are valid as soon as their own splits are true, replaying steps whose rules the splits admit gives an equivalent clause |
| Rewriting.PassesReduce | crates/mrs-calculus/src/demodulation.rs:391-428 | With a pass or a step to spare, no stored rule all of whose splits the clause has matches anywhere in the result |
| Rewriting.PassesNormalise | crates/mrs-calculus/src/demodulation.rs:391-428 | Unless every allowed pass made a step, the result is fully reduced |
| Termination.PassesTerminate | crates/mrs-calculus/src/demodulation.rs:391-428 | With rules oriented by a reduction ordering some number of passes leaves the clause fully reduced, so the pass limit guards against no cycle |
| Termination.KboTerminates | crates/mrs-search/src/given_clause.rs:2930-2953 | The same for rules stored only when the Knuth-Bendix ordering says greater |
| Termination.LpoTerminates | crates/mrs-search/src/given_clause.rs:2930-2953 | The same for fixed-arity rules stored only when the path ordering says greater |
| Termination.WalkShrinks | crates/mrs-calculus/src/demodulation.rs:589-689 | A walk that makes a step returns a smaller term, and one that makes none the same term |
| Demodulation.RuleBase.Demodulate | crates/mrs-calculus/src/demodulation.rs:368-470 | However the call ended: the recorded steps replay from the clause to the emitted one, each cites a stored rule all of whose splits the clause has, the two clauses are equivalent under all splits that contain those of the clause, and the parents are the clause and exactly the cited units. Uninterrupted, clause and steps are those of the unmemoised walk, and with fewer than 100 steps or a pass to spare no such rule is left to apply |
| Demodulation.RuleBase.Insert | crates/mrs-calculus/src/demodulation.rs:302-320 | A new rule followed by invalidation keeps every current memo entry irreducible |
| Demodulation.RuleBase.Remove | crates/mrs-calculus/src/demodulation.rs:302-320 | So does the removal of a rule |
| Demodulation.RuleBase.Register | crates/mrs-calculus/src/demodulation.rs:614-620 | Storing a clause that is no rule needs no invalidation |
| Demodulation.Rewriter.RewriteTerm | crates/mrs-calculus/src/demodulation.rs:589-689 | Interrupted or not, the steps recorded lead from the term to the result; an interrupted descent is never memoised; the path buffer is restored |
| Demodulation.Rewriter.RewriteLiteral | crates/mrs-calculus/src/demodulation.rs:473-571 | The same for a literal |
| Demodulation.Rewriter.Pass | crates/mrs-calculus/src/demodulation.rs:403-424 | One pass over the literals |
| Demodulation.Rewriter.Run | crates/mrs-calculus/src/demodulation.rs:391-428 | The fixpoint loop with its limit of 100 passes |
| Demodulation.Rewriter.FindRule | crates/mrs-calculus/src/demodulation.rs:614-636 | The first retrieved rule that is stored, whose splits the clause has and that matches; none only if no stored rule does |
| Demodulation.DemodMemo.IsIrreducible | crates/mrs-calculus/src/demodulation.rs:276-287 | A hit is a variable or an entry of the current generation; the counters |
| Demodulation.DemodMemo.RecordIrreducible | crates/mrs-calculus/src/demodulation.rs:289-300 | Recording, with the cap that clears the memo first |
| Demodulation.DemodMemo.Invalidate | crates/mrs-calculus/src/demodulation.rs:302-320 | No entry survives, the wrap of the counter included |
| Subsumption.SubsumesSound | crates/mrs-calculus/src/subsumption.rs:381-551 | A positive answer comes with a substitution that maps every literal into the second clause, up to the orientation of equations |
| Orientation.SubsumesExact | crates/mrs-calculus/src/subsumption.rs:381-551 | If every equation of the first clause has sides comparable in either ordering, sides that clash, or binds nothing new that a later literal needs, the answer is yes exactly when the clause is not longer and a substitution exists |
| Orientation.SettledComplete | crates/mrs-calculus/src/subsumption.rs:381-551 | The same against every second clause whenever two substitutions that send an equation to one target in both orientations agree on the variables needed later |
| Orientation.ResolutionExact | crates/mrs-calculus/src/subsumption.rs:682-722 | Under the same condition subsumption resolution answers exactly when the active clause is not empty, not longer than the target, and an instance of it lies in the target with some literal complemented, and names the first such literal |
| Orientation.SettledExact | crates/mrs-calculus/src/subsumption.rs:466-487 | For a first clause with at most one equation and no two literals of one sign and predicate that condition is exact: it holds if and only if the answer is right against every second clause |
| Orientation.EquationCommitment | crates/mrs-calculus/src/subsumption.rs:466-487 | Two clauses with a substitution that the search misses, because an equation commits to its first orientation; the condition fails on the first |
| Orientation.LpoOrients | crates/mrs-calculus/src/subsumption.rs:466-487 | An equation oriented by the path ordering never matches one target in both orientations |
| Subsumption.SubsumedEntailed | crates/mrs-calculus/src/subsumption.rs:374-376 | A subsumed clause is valid wherever the subsuming one is |
| Subsumption.SingleIsMatch | crates/mrs-calculus/src/subsumption.rs:496-612 | After standardising apart, the coded matcher with repeated substitution, chain following and occurs check is plain one-way matching |
| Subsumption.ResolutionSound | crates/mrs-calculus/src/subsumption.rs:682-722 | If subsumption resolution names a literal, the two parents entail the target without it |
| Subsumption.FirstResolved | crates/mrs-calculus/src/subsumption.rs:699-722 | The first literal that can go, or none |
| Subsumption.SubsumptionResolution | crates/mrs-calculus/src/subsumption.rs:682-722 | An answer exactly when the active clause is not empty, not longer than the target, and some literal can go; then the first one |
| Subsumption.ResolvesBySubsumption | crates/mrs-calculus/src/subsumption.rs:682-722 | A literal can go exactly when the active clause subsumes the target with that literal complemented |
| Subsumption.ClauseBound | crates/mrs-calculus/src/rename.rs:16-18 | A bound above every variable of the clause |
| Subsumption.RenamedFrom | crates/mrs-calculus/src/rename.rs:54-71 | Renaming by an offset leaves no variable below it |
| Subsumption.GroundRenamed | crates/mrs-calculus/src/rename.rs:32-43 | Renaming a ground clause is the identity, so it may be skipped |
| SubsumptionSearch.SubsumesUntil | crates/mrs-calculus/src/subsumption.rs:27-77 | Under any deadline and the step limit a yes is right; a no is right unless the search was cut; the step limit cuts nothing when an exhaustive search of that many literals among that many targets fits it; the sign filter loses nothing |
| SubsumptionSearch.SubsumptionResolutionUntil | crates/mrs-calculus/src/subsumption.rs:818-870 | The same, step limit included, for subsumption resolution with the virtually flipped literal |
| SubsumptionSearch.Search.MatchLiterals | crates/mrs-calculus/src/subsumption.rs:89-148 | The backtracking search: a yes implies that nothing was cut on the way, and steps stay within those of an exhaustive search |
| SubsumptionSearch.Search.MatchAtoms | crates/mrs-calculus/src/subsumption.rs:150-205 | Atoms under the deadline |
| SubsumptionSearch.Search.MatchSingle | crates/mrs-calculus/src/subsumption.rs:207-260 | Terms under the deadline; whatever is cut, bindings stay apart |
| SubsumptionSearch.Search.ApplyFlat | crates/mrs-calculus/src/subsumption.rs:279-322 | Substitution under the deadline |
| SubsumptionSearch.Search.ApplyChain | crates/mrs-calculus/src/subsumption.rs:324-370 | On targets nothing is ever followed |
| SubsumptionSearch.Search.ContainsVar | crates/mrs-calculus/src/subsumption.rs:262-277 | The occurs check under the deadline |
| AlphaCongruence.DecideAlpha | crates/mrs-core/src/alpha.rs:12-17 | True exactly on the least congruence that allows renaming of a bound variable, permutation of the parts of And and Or, and exchange of the sides of an equation and of an equivalence |
| AlphaCongruence.AlphaExact | crates/mrs-core/src/alpha.rs:1-17 | Equality of keys is that congruence |
| AlphaCongruence.AlphaParts | crates/mrs-core/src/alpha.rs:26-130 | The answer by connective, from the answers on the parts: bijections for And and Or, both orientations of equations and equivalences, bodies renamed to a common unused variable for quantifiers, and never between different connectives |
| AlphaEquivalence.Scopes.FormulaEq | crates/mrs-core/src/alpha.rs:26-93 | In any scopes the answer is equality of keys, and maps and depth are restored |
| AlphaEquivalence.Scopes.ListEq | crates/mrs-core/src/alpha.rs:37-56 | Greedy matching succeeds exactly when the parts agree as multisets |
| AlphaEquivalence.Scopes.UnderBinder | crates/mrs-core/src/alpha.rs:65-90 | Bindings are inserted and undone, shadowed ones included |
| AlphaEquivalence.AtomEq | crates/mrs-core/src/alpha.rs:95-111 | Equations match exactly when their sides do, straight or crosswise |
| AlphaEquivalence.TermEq | crates/mrs-core/src/alpha.rs:113-130 | Bound variables by binder, free ones by name |
| AlphaEquivalence.MatchFails | crates/mrs-core/src/alpha.rs:42-54 | If greed finds no partner for a part, no bijection exists |
| AlphaEquivalence.AndMatching | crates/mrs-core/src/alpha.rs:37-56 | Two conjunctions are equivalent exactly when some bijection pairs equivalent parts |
| AlphaEquivalence.RenamingRecognised | crates/mrs-core/src/alpha.rs:65-90 | Formulas that differ in the name of a bound variable are equivalent |
| AlphaEquivalence.AlphaSound | crates/mrs-core/src/alpha.rs:1-17 | Equivalent formulas have the same truth value in every structure and assignment |
| Coordinator.QueueBounded | src/coordinator.rs:139-292 | In every interleaving queued bytes stay within the cap and, until the receiver is dropped, equal the bytes in the channel plus those in flight |
| Coordinator.CertifiedOnce | src/coordinator.rs:205-225 | At most one candidate is certified, and the stop flag and every true returned to a submitter follow the stored winner |
| Coordinator.VerdictStands | src/coordinator.rs:139-240 | In every interleaving each certified verdict is stored as the winner or still in the hands of the worker, the winner is the number of candidates taken so far, each failed verdict is rejected, and rejections are exactly those reported |
| Coordinator.AfterVerdict | src/coordinator.rs:205-225 | After a certified verdict the worker can only store it, raise the flag and exit |
| Coordinator.FlagRises | src/coordinator.rs:219-225 | Once the worker has signalled, the flag registered before is up, and a submitter that reads it is told to stop |
| Coordinator.Fifo | src/coordinator.rs:139-260 | In every interleaving the worker takes messages in the order sent, and while it runs what was sent is what it has taken followed by what is queued |
| Coordinator.RefusedForCause | src/coordinator.rs:244-265 | A submitter is refused exactly when its bytes do not fit beside those held, and a send fails exactly when the queue is full or the worker is gone |
| Coordinator.FinishBalanced | src/coordinator.rs:121-132 | After finish the candidates are the rejections plus the certified one if and only if the worker did not panic in the middle of one |
| Coordinator.FinishNears | src/coordinator.rs:121-159 | Once finish has queued its message every step of the worker or of finish brings its return nearer, and no submitter pushes it away |
| Coordinator.FinishNeverStuck | src/coordinator.rs:121-159 | Neither the blocking send nor the join can deadlock |
| Coordinator.StepInv | src/coordinator.rs:139-292 | Every atomic step keeps byte accounting, counts, winner and stop order, and the single overload reason |
| Lowering.LoweringCorrect | src/lowering.rs:340-422 | A closed source formula is lowered to a closed formula if and only if no name is used after a sibling has left it bound to another id, and then it means the same; binders are distinct in any case |
| Lowering.LoweredMeans | src/lowering.rs:340-422 | Meaning is kept in any scope, for names that are shadowed or repeated in one list too, as long as none is used when stale |
| Lowering.LoweredShape | src/lowering.rs:340-422 | For every formula whose free names are bound, ids are drawn from the counter and bound once |
| Lowering.LoweredFree | src/lowering.rs:340-422 | The free variables are the ids of the free names; after a disturbed use one of them belongs to a quantifier that is closed already |
| Lowering.MapAfter | src/lowering.rs:370-380 | After lowering exactly the names computed from the source formula are bound to other ids, all drawn since |
| Lowering.MapKeptExact | src/lowering.rs:370-380 | The name map is put back if and only if that set of names is empty |
| Lowering.RepeatFreeUndisturbed | src/lowering.rs:370-380 | Without names repeated in one quantifier list no name goes stale |
| Lowering.RestoreExact | src/lowering.rs:370-380 | Whatever map the body leaves, the front-to-back restore puts the outer map back if and only if the list repeats no name and the body left the unlisted names alone |
| Lowering.RepeatedNameEscapes | src/lowering.rs:370-380 | A closed formula in which a name is used when stale and whose lowered form is not closed |
| Lowering.RepeatedNameHarmless | src/lowering.rs:370-380 | A closed formula with a repeated name whose lowered form is closed |
| Lowering.LowerCtx.FormulaOf | src/lowering.rs:340-422 | The recursion with its mutable map and counter |
| Lowering.LowerCtx.QuantifiedOf | src/lowering.rs:344-391 | The quantifier case: bind, lower, restore, nest |
| Lowering.LowerCtx.Bind | src/lowering.rs:353-366 | The binding loop saves what it overwrites and draws consecutive ids |
| Lowering.LowerCtx.Restore | src/lowering.rs:370-380 | The restoring loop |
| Lowering.LowerCtx.VarFor | src/lowering.rs:79-90 | A name keeps its id; a new name gets the next one |
| Lowering.LowerCtx.TermOf | src/lowering.rs:449-485 | Terms, threading the context |

## Left out

- Clausification.ClausifyCorrect: that models of the input extend to the clauses is shown for inputs without existential variables below the nesting cut-off; beyond it an existential variable is shown to stay free, and the clauses to be unsatisfiable for a family of satisfiable inputs, not for every such input.
- Lowering.LoweringCorrect: formulas with names outside every quantifier, which the source gives fresh ids, are not covered.
- Orientation.SettledComplete: for first clauses with several equations, or with literals of one sign and predicate, the condition is shown sufficient, not necessary.
- ProofTrace.DeadlineWithholds: the wall clock is a tick from which on it has expired; real durations are not modelled.
- RuleBase: the discrimination tree is represented by its contract, an arbitrary retrieval function that returns every rule whose left side generalises the query, in any order.
- DemodMemo: the statistics counters are unbounded numbers, the generation is not.
- Tseitin.DefCtx.IntroduceName: the source collects variables by a recursion that ignores quantifiers and implications; they do not occur after stripping, and the model takes the free variables.
- Budget: the nesting of budget guards and their thread-local storage are not modelled.
- LowerCtx: symbol interning is a fixed function from text to symbol, and the text of defined functions, system functions, numbers and distinct objects is taken as given.
- Coordinator: the coordinator thread, mutex poisoning and the verification subprocess appear only as steps, panics and open verdicts.
- Search.ApplyChain: the id form of chain following has no cycle guard; it is shown never to follow anything on the states the search reaches.
- The AC branches of both orderings: a heuristic extension without order laws of its own.
- Overflow of 32-bit weights, variable counts and clause ids.
- Proof ids, parents and provenance steps of the clausifier and of demodulation beyond the set of cited units.
- Miniscoping, goal transformation, premise selection, condensation and the generating inferences.
- TFF, TCF and CNF lowering; only first-order formulas are lowered here.
- The CaDiCaL bindings; a trace is an arbitrary list of events.
