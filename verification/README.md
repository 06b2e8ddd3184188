# 2LS: verified model of the invariant and ranking synthesis engine

2LS infers loop invariants and ranking arguments by asking a solver for a counterexample to a
template value and weakening the value until the solver has none. This project models the
decision logic of that loop and of the domains under it, and proves what their answers mean for
every program and every run.

A program's SSA appears as the list of its solutions ("environments"), seen through the rows of a
template. A solver call picks an arbitrary environment that meets the asserted constraints, or
answers UNSAT when there is none; nothing is assumed of which one it picks, and it may pick
differently each time. The inner solver of the ranking domain, whose models are coefficients, is
any correct answering function of the call number and the asserted formulas.

The files follow the source:

- `Bitvectors.dfy`, `Widths.dfy`: machine arithmetic and the width extension of `util.cpp`.
- `TemplateBounds.dfy`, `Templates.dfy`: rows, values, bounds and edits of the polyhedra and heap
  domains.
- `BinarySearch.dfy`, `StrategySolvers.dfy`, `ProductSolvers.dfy`: where a search over symbolic
  bounds can end, the enumeration and binary search solvers, the analyzer loop, products of domains.
- `LoopRuns.dfy`, `SearchExamples.dfy`: what an inductive value says of a loop, and two loops on
  which binary search does less than one may expect.
- `LexRanking.dfy`, `Powers.dfy`, `RankedRuns.dfy`, `InnerSolver.dfy`, `LexRows.dfy`,
  `LexCegis.dfy`, `SharedSolverRun.dfy`: the conditions of lexicographic ranking rows, the bound they
  put on runs, what the inner solver can answer, what a row and its edits mean, the synthesis loop,
  and a run in which it gives up too much.
- `EqualityDomain.dfy`, `UnsharedGuardRun.dfy`: the equality worklists and a run of theirs that goes
  wrong.
- `ArrayOrder.dfy`, `ArraySegments.dfy`: the order of an array's index expressions, which of them are
  kept, and the segments they border.
- `GoalCovering.dfy`: the verdicts on properties.

Results where the code does less than its comments or a reader may expect, each with the exact
condition or a concrete witness:

- The comment above `extend_expr_types` promises that nothing overflows. For division that holds
  exactly at the operand types of `QuotientFits`, because the code looks at the first operand's
  signedness twice (`QuotientExactIff`).
- `between` falls outside the open interval at a few bounds, all listed by `Misses`; narrow types,
  such as the 9-bit rows `-x` over 8-bit variables, are among them (`BetweenStrictIff`).
- A binary search need not find the largest feasible bound. Over a full signed range of 10 bits or
  more it does, whatever the solver picks, if and only if nothing feasible lies above a bound in
  [-255, -129] that it may come to, or something feasible from 255 on, or the start is one of two
  special ones (`SearchExactIff`); from a start in [-255, -129] with nothing feasible from 255 on it
  does not move (`FullSearchIsStuck`). A loop that counts up from -200 is taken from -199 to -129 in
  steps of one this way (`BinarySearchCrawls`). At other types and maxima it is exact unless
  `between` missed in its last step (`SearchBound`).
- Enumeration stops at the least inductive value; binary search may pass it: on a concrete loop,
  under the interval rows `x` and `-x`, it comes to `1 <= x <= 100` although `1 <= x <= 2` is
  inductive (`BinarySearchPasses`). From below an inductive value it can come above it exactly when
  some iteration, reached or not, climbs from a value that is above it already, the other rows'
  pre-constraints holding (`OvershootIff`, `SearchStaysBelowIff`).
- The comment where a ranking row is given up says that there is no ranking function for the
  template. For a single row with inner iterations left that is so (`Synthesize`). With several rows
  it is not: the inner solver keeps the records of a row given up and answers no later query
  (`UnmetRecordsStay`), so that another row is given up although it has a ranking (`GivesUpBoth`,
  `SecondRowHasRanking`). That is the only other reason: a row is given up when inner iterations ran
  out, when it has no ranking with the elements it may have, or when another row has none of even one
  element; so when iterations last and every row has a ranking of one element, the synthesis ends
  verified with no row given up (`SynthesisIsExplained`). A row gets a candidate exactly when its own records can be met in the
  range at hand and those of every other row can be met at all (`NoCandidateIff`).
- Without a guard shared by all rows, the union-find of the equality domain can join variables
  whose row was refuted: a concrete run ends with a projected invariant that is not inductive
  (`SharedGuardIsNeeded`). A row is safe, whatever the values in the solutions, exactly when the
  established rows guarded together with it force it (`UnrefutedIff`).
- The comment above `order_indices` speaks of a unique ordering. The relation it queries is not
  transitive (`OrderedIsNotTransitive`, and when it is, `OrderedComposesIff`); the sorted list is
  nevertheless ascending wherever all indices are in bounds, and unique there up to indices of
  equal value (`AscendingUnique`).
- Erasing indices that equal their neighbour can leave neighbours that are equal in every solution:
  the first index may be told apart only from a constant that goes afterwards (`EqualNeighboursLeft`).
  None are left exactly when each index kept is told apart from the next one kept (`ThinnedDiffersIff`),
  and so whenever all indices are in bounds in all solutions (`AscendingSeparates`).
- The segments of an ordered array overlap wherever a written index coincides with the next one
  kept, as two of a concrete pair do (`CoincidingIndicesOverlap`), and partition the array everywhere
  else (`SegmentationPartitionsIff`).
- Under the spuriousness check a really violated goal can stay UNKNOWN when its model goes through
  an invariant and the one that replaces it violates another goal (`DistractedGoalStaysUnknown`);
  goals that nothing distracts from are FAIL exactly when really violated (`CheckProperties`).

Constants built from out-of-range integers wrap around, as CPROVER's `from_integer` does; that
function is not part of this model.

## Model

| member | source | states |
|---|---|---|
| `Widths.ExtendIsExact` | src/domains/util.cpp:26-195 | for every expression whose divisions fit, and every valuation, the wrap-around value of the extended expression is the exact integer value of the original with its casts ignored |
| `Widths.NodeFits` | src/domains/util.cpp:54-183 | at every node the chosen type holds both operands and the exact sum, difference, product or fitting quotient |
| `Widths.QuotientExactIff` | src/domains/util.cpp:155-183 | extended division is exact for all operand values with a nonzero divisor if and only if the operand types fit; otherwise some values give a wrong quotient |
| `Widths.ExtendIdempotent` | src/domains/util.cpp:26-195 | extending an extended expression gives it back unchanged |
| `Widths.ExtendKeepsExact` | src/domains/util.cpp:26-195 | extension changes neither the exact value nor whether a division by zero occurs |
| `Widths.SimplifyConstIntIsExact` | src/domains/util.cpp:197-241 | folding gives the exact value with symbols read as 0, or stops at a division by zero |
| `Widths.SimplifyExtendedNeverOverflows` | src/domains/util.cpp:374-389 | folding an extended expression never trips the range assertions: it fails only by dividing by zero, and exactly then; a constant is left as it is, anything else folds to its exact value |
| `TemplateBounds.RowNeverAboveMax` | src/domains/tpolyhedra_domain.cpp:284-324 | no valuation takes an extended row expression above its maximum, including the `-(cast)e` form |
| `TemplateBounds.IntervalRowTopIff` | src/domains/tpolyhedra_domain.h:67-73 | an interval row `x <= c` or `-x <= c` is a tautology exactly when `c` reaches the maximum, or 0 for `-x` with `x` unsigned |
| `TemplateBounds.BetweenStrictIff` | src/domains/tpolyhedra_domain.cpp:84-141 | at every width, a gap of two or more is split strictly inside except exactly at the bounds listed by `Misses` |
| `TemplateBounds.BetweenHalves` | src/domains/tpolyhedra_domain.cpp:139-140 | every gap for which no value is picked by hand is split into halves, up to rounding |
| `Templates.EditWeakens` | src/domains/heap_domain.cpp:174-221 | an edit on a counterexample keeps the row well formed, admits all it admitted before, and uses up at least one of the edits left to it |
| `Templates.EditsAdmit` | src/domains/heap_domain.cpp:174-193 | a polyhedra row admits the reading it was edited on; a heap row does at the latest after editing it twice on it |
| `Templates.EditRunBounded` | src/domains/heap_domain.cpp:174-221 | any run of edits of a row, each on a counterexample that the row fails by then, is no longer than its slack |
| `Templates.HeapRowEdits` | src/domains/heap_domain.cpp:174-193 | in any run, a heap row starting empty is edited at most #targets^arity + 1 times |
| `Templates.HeapRowMeans` | src/domains/heap_domain.cpp:158-171 | where every pointer has one target, a heap row holds if and only if it is nondeterministic or the tuple of those targets is in its may-point-to set |
| `Templates.EditStaysBelow` | src/domains/heap_domain.cpp:174-221 | the edit of a row on a reading that it fails stays below every row value that admits the reading |
| `Templates.StepStaysBelow` | src/domains/strategy_solver_simple.cpp:47-76 | an enumeration step stays below every inductive value, of polyhedra and heap rows, that it started below, where every pointer has one target |
| `BinarySearch.SearchIsExact` | src/domains/strategy_solver_binsearch.cpp:148-225 | a search over an unsigned type of 9 bits or more, or over a signed one of 10 or more that cannot come to a bound at which it is lost, ends on the largest feasible bound |
| `BinarySearch.SearchExactIff` | src/domains/tpolyhedra_domain.cpp:84-141 | over a full signed range, every search from a start ends on the largest feasible bound if and only if the start is special or no feasible bound lies above a bound in [-255, -129] that the search may come to with nothing feasible from 255 on |
| `BinarySearch.FullSearchIsStuck` | src/domains/tpolyhedra_domain.cpp:131-141 | from a start in [-255, -129] with nothing feasible from 255 on, the search ends on its start |
| `BinarySearch.SplitUsesUp` | src/domains/tpolyhedra_domain.cpp:84-144 | every split of a gap uses up a halving, or one of the values still to be picked by hand |
| `BinarySearch.PathIsShort` | src/domains/strategy_solver_binsearch.cpp:148-225 | a search splits at most five gaps more than the type has bits |
| `StrategySolvers.OvershootIff` | src/domains/tpolyhedra_domain.cpp:193-224 | from below an inductive value, a symbolic bound above it is feasible if and only if some iteration climbs from above it, the other rows' pre-constraints holding |
| `StrategySolvers.SearchStaysBelowIff` | src/domains/strategy_solver_binsearch.cpp:131-232 | an iteration stays below an inductive value when nothing climbs from above it, and only then if no call of `between` missed |
| `StrategySolvers.RaiseUsesSlack` | src/domains/strategy_solver_binsearch.cpp:231-232 | raising one row to a number no higher than its maximum keeps the value well formed and uses up slack |
| `StrategySolvers.StrategySolver.constructor` | src/domains/tpolyhedra_domain.cpp:32-48 | all rows start at bottom |
| `StrategySolvers.StrategySolver.CondLiterals` | src/domains/simple_domain.cpp:56-87 | row by row, the literal says whether the model meets the post-guard and fails the row |
| `StrategySolvers.StrategySolver.PointsToDestinations` | src/domains/heap_domain.cpp:201-215 | the targets in order, or none exactly when some pointer has no target |
| `StrategySolvers.StrategySolver.EditRow` | src/domains/heap_domain.cpp:195-221 | only the given row changes, to its edit on the model; the result reports an improvement; slack drops |
| `StrategySolvers.StrategySolver.EditFailedRows` | src/domains/strategy_solver_simple.cpp:55-75 | exactly the rows the model fails are edited on it |
| `StrategySolvers.StrategySolver.IterateSimple` | src/domains/strategy_solver_simple.cpp:16-89 | improves if and only if the value was not inductive, and then by one step on some counterexample; otherwise nothing changes |
| `StrategySolvers.StrategySolver.SearchBound` | src/domains/strategy_solver_binsearch.cpp:148-225 | ends whatever `between` returns, as one of the searches that the values of `between` and correct answers allow, between the start and the maximum, on the start or a feasible bound; no feasible bound exceeds the result when the start cannot lose, or when no gap it split was missed, and otherwise only inside the last gap; at most six solver calls more than the type has bits |
| `StrategySolvers.StrategySolver.IterateBinSearch` | src/domains/strategy_solver_binsearch.cpp:21-254 | improves if and only if the value was not inductive; then the first row that some counterexample fails is raised, strictly and not above its maximum, to the outcome of a search from the counterexample's value |
| `StrategySolvers.StrategySolver.Iterate` | src/domains/tpolyhedra_domain.cpp:539-559 | both strategies: a change exactly when the value was not inductive, and then one enumeration step or one raise by a search; slack drops with it |
| `StrategySolvers.EnumerationStaysBelow` | src/domains/strategy_solver_simple.cpp:16-89 | every value an enumeration comes to stays below each inductive value that it started below, where every pointer has one target |
| `StrategySolvers.SearchStaysBelow` | src/domains/strategy_solver_binsearch.cpp:21-254 | every value a run of binary searches comes to stays below each inductive value above which nothing climbs, if it started below |
| `StrategySolvers.SsaAnalyzer.Analyze` | src/domains/ssa_analyzer.cpp:79-87 | the loop ends within the slack of the template, by the counted improvements from bottom, on an inductive value; by enumeration over polyhedra rows, and over heap rows where every pointer has one target, on the least inductive value; by binary search, below every inductive value above which no iteration climbs that meets the other rows |
| `SearchExamples.IntervalRowsOf` | src/domains/tpolyhedra_domain.cpp:403-423 | the two rows of the examples are those the interval template builds for a 16-bit variable, with their maxima |
| `SearchExamples.SolutionsListed` | src/domains/template_generator_base.cpp:34-107 | the solutions of such a loop's SSA can be listed |
| `SearchExamples.BinarySearchPasses` | src/domains/strategy_solver_binsearch.cpp:131-232 | a loop on which, whatever the solver picks, three iterations lead from bottom to [1, 100] past the inductive [1, 2] |
| `SearchExamples.BinarySearchCrawls` | src/domains/strategy_solver_binsearch.cpp:131-232 | a loop on which every iteration from -199 to -130 raises the bound by one, all bounds up to 0 being feasible, and the next one goes to 0 |
| `ProductSolvers.ContextMembers` | src/domains/strategy_solver_product.cpp:37-53 | the context of a component holds exactly the environments that meet all other components |
| `ProductSolvers.ProductInductiveIff` | src/domains/strategy_solver_product.cpp:23-72 | the conjunction is inductive if and only if each component is in the context of the others |
| `ProductSolvers.ProductSolver.Context` | src/domains/strategy_solver_product.cpp:37-53 | the loop collects that context |
| `ProductSolvers.ComponentStaysBelow` | src/domains/strategy_solver_product.cpp:37-66 | an enumeration step of one component, in its context, stays below every inductive conjunction that the conjunction started below |
| `ProductSolvers.PassesStayBelow` | src/domains/strategy_solver_product.cpp:17-75 | so do all passes: they end on the least of the inductive conjunctions above their start, from bottom on the least of all |
| `ProductSolvers.ProductSolver.IterateComponent` | src/domains/strategy_solver_product.cpp:55-66 | only that component changes, exactly when it was not inductive in its context, and then by one enumeration step or one raise by a search in that context |
| `ProductSolvers.ProductSolver.Iterate` | src/domains/strategy_solver_product.cpp:17-75 | a full pass moves every component in turn and improves something if and only if the conjunction was not inductive; total slack drops |
| `ProductSolvers.ProductSolver.Analyze` | src/domains/ssa_analyzer.cpp:86-87 | repeated passes end on an inductive conjunction; with enumeration, and every pointer with one target, on the least one above the start |
| `LoopRuns.InductiveIff` | src/domains/template_generator_base.cpp:34-107 | for the SSA of a loop, an inductive value is one that holds at the first arrival at the back edge and is kept by every iteration |
| `LoopRuns.RunsSatisfyInductive` | src/domains/simple_domain.cpp:38-87 | in every run from every initial state, every state that reaches the back edge satisfies an inductive value |
| `LoopRuns.RunsPointWithin` | src/domains/heap_domain.cpp:158-171 | in every run, the targets of a heap row's pointers at the back edge are in the may-point-to set of an inductive value, unless the row is nondeterministic |
| `LexRanking.BuildSum` | src/domains/lexlinrank_domain.cpp:226-268 | the machine value of the extended sum is the exact decrease of the linear expression |
| `LexRanking.BuildElement` | src/domains/lexlinrank_domain.cpp:214-338 | the conjunction holds exactly when the element decreases and no later one increases |
| `LexRanking.BuildRowCondition` | src/domains/lexlinrank_domain.cpp:212-345 | read in machine arithmetic, a row's condition is the exact lexicographic decrease, under every valuation |
| `LexRanking.OuterCheckMeans` | src/domains/lexlinrank_domain.cpp:185-345 | on a transition, the outer condition of a row is the integer lexicographic step of its coefficients |
| `LexRanking.InnerCheckMeans` | src/domains/lexlinrank_domain.cpp:349-471 | on a counterexample, the inner condition on unknown coefficients is the same integer step: the two encodings are dual |
| `RankedRuns.StepLowersCode` | src/domains/lexlinrank_domain.cpp:281-336 | a lexicographic step lowers the mixed-radix code of the elements, the highest index most significant |
| `RankedRuns.CodeBounded` | src/domains/lexlinrank_domain.cpp:30-30 | with 10-bit coefficients the code lies in a range of (Spread + 1)^elements values |
| `RankedRuns.SpreadUniform` | src/domains/lexlinrank_domain.cpp:372-391 | over n variables of width w the spread is 512 * n * (2^w - 1) |
| `RankedRuns.VerifiedRowBoundsRuns` | src/domains/lexlinrank_domain.cpp:213-345 | when every guarded valuation meets a row's condition, every chain of guarded iterations has fewer than (Spread + 1)^elements steps |
| `InnerSolver.BuildSymbolicCondition` | src/domains/lexlinrank_domain.cpp:357-471 | under every model, the inner formula is the lexicographic step with the model's coefficients |
| `InnerSolver.AnswersPossible` | src/domains/lexlinrank_domain.cpp:84-87 | a correct inner solver exists, so that nothing rests on an impossible one |
| `InnerSolver.NoCandidateIff` | src/domains/lexlinrank_domain.cpp:56-87 | the solver has no candidate for a row if and only if its records cannot be met in the range, or those of another row cannot be met at all |
| `InnerSolver.UnmetRecordsStay` | src/domains/lexlinrank_domain.cpp:116-145 | once the records of a row cannot be met, every later query to the same solver fails, for every row |
| `InnerSolver.RefinementWidens` | src/domains/lexlinrank_domain.cpp:475-516 | coefficients up to 1 in magnitude at the first level, up to 10 at the next, all at the last; a row that has a candidate at one level has one at the next |
| `LexRows.UnmetIsHopeless` | src/domains/lexlinrank_domain.cpp:126-133 | records of a row that cannot be met show that no tuple of its size or less ranks the guarded iterations |
| `LexCegis.LexLinRankDomain.constructor` | src/domains/lexlinrank_domain.cpp:33-48 | every row starts as one false element; gives the total number of edits there can ever be |
| `LexCegis.LexLinRankDomain.RecordCounterexample` | src/domains/lexlinrank_domain.cpp:59-66 | the counterexample's formula joins the bottom context, with the meaning of the recorded step |
| `LexCegis.LexLinRankDomain.SolveRefined` | src/domains/lexlinrank_domain.cpp:77-87 | a context is opened exactly at the levels that restrict coefficients; a model meets all records and the range, and UNSAT means none does |
| `LexCegis.LexLinRankDomain.Accept` | src/domains/lexlinrank_domain.cpp:86-115 | the row takes the model's coefficients, which meet the step on every counterexample on record for it and the range of the level |
| `LexCegis.LexLinRankDomain.Reject` | src/domains/lexlinrank_domain.cpp:116-145 | widen, or else grow with a fresh solver, or else give the row up; contexts end balanced, the budget drops, and the flag stays as it was exactly on giving up |
| `LexRows.NewCoefficientsStep` | src/domains/lexlinrank_domain.cpp:59-115 | an edit that uses an inner iteration leaves coefficients that make the lexicographic step on the counterexample |
| `LexCegis.LexLinRankDomain.EditRow` | src/domains/lexlinrank_domain.cpp:50-147 | the whole new state on each of the four paths; a candidate is taken if and only if iterations are left, the row's records, this one included, can be met in the range of the level and every other row's at all, and it then meets them in that range; contexts balanced; budget drops |
| `LexCegis.LexLinRankDomain.CondLiterals` | src/domains/lexlinrank_domain.cpp:185-347 | evaluating the built formulas in the model decides exactly which rows it violates |
| `LexRows.OthersUntouched` | src/domains/strategy_solver_simple.cpp:55-75 | within an iteration, rows that the solution does not violate, and rows still to come, keep their value |
| `LexRows.IterationStaysInformed` | src/domains/strategy_solver_simple.cpp:16-89 | an iteration keeps a reason for every row given up |
| `LexCegis.LexLinRankDomain.EditFailedRows` | src/domains/strategy_solver_simple.cpp:55-75 | on one solution, exactly the rows it violates are edited, one after the other, each on its counterexample and on the state the one before left; improved if and only if one of them was not given up |
| `LexCegis.LexLinRankDomain.Iterate` | src/domains/strategy_solver_simple.cpp:16-89 | when all rows are verified only the refinement level is reset; otherwise the rows that some solution violates are edited in turn, using up budget; without improvement either all rows are verified or some row is given up |
| `LexRows.UnmetIsExplained` | src/domains/lexlinrank_domain.cpp:116-145 | a row rejected at the last level with iterations left has no ranking of its size, or another row has none of one element |
| `LexRows.SynthesisIsExplained` | src/domains/lexlinrank_domain.cpp:126-133 | for every row given up inner iterations ran out, or it has no ranking with the elements it may have, or another row has none of one element; when iterations last and every row has a ranking of one element, the argument is verified and no row given up |
| `LexCegis.Synthesize` | src/domains/ssa_analyzer.cpp:86-87 | the loop ends within the budget whatever the counterexamples, by iterations that improve and a last one that does not, verified unless a row was given up; every row given up has one of the reasons above; with inner iterations left, a single row is given up if and only if no tuple of at most the maximal size ranks all guarded iterations |
| `SharedSolverRun.GivesUpBoth` | src/domains/lexlinrank_domain.cpp:50-147 | two rows are both given up with inner iterations left, whatever correct inner solver is used |
| `SharedSolverRun.SecondRowHasRanking` | src/domains/lexlinrank_domain.cpp:126-133 | the second of them has a ranking of one element, the first has none |
| `LexRows.SynthesisBoundsRuns` | src/domains/lexlinrank_domain.cpp:549-655 | for a verified argument, a row not given up bounds every chain of its guarded iterations |
| `LexRows.VerifiedLoopTerminates` | src/domains/template_generator_ranking.cpp:77-126 | for a verified argument of a loop's SSA with a row not given up, every run of the loop from every initial state has fewer than (Spread + 1)^elements iterations |
| `EqualityDomain.OrderedProofsAreInductive` | src/domains/equality_domain.cpp:104-130 | facts each proved relative to those made permanent before it are inductive together |
| `EqualityDomain.UnrefutedIff` | src/domains/equality_domain.cpp:113-129 | proved equalities leave a row unrefuted, whatever the values in the solutions, if and only if wherever the row's guard is on the equalities guarded there force it |
| `EqualityDomain.SharedGuardCarriesOver` | src/domains/equality_domain.cpp:113-129 | a guard shared by all rows is such a case |
| `EqualityDomain.RefutedRowsApart` | src/domains/equality_domain.cpp:113-129 | under a shared post-guard, a row refuted relative to the facts has its sides in different classes |
| `UnsharedGuardRun.SharedGuardIsNeeded` | src/domains/equality_domain.cpp:41-166 | concrete rows with different guards, and a run that ends with the sides of a refuted row in one class and a projected invariant that is not inductive |
| `EqualityDomain.UnionStaysForced` | src/domains/equality_domain.h:56-59 | joining the sides of a proved row joins no more than the facts force |
| `EqualityDomain.OutcomeKeepsProgress` | src/domains/equality_domain.cpp:63-130 | whatever the answer, the worklist invariant is kept and lexicographically less work is left |
| `EqualityDomain.ClassesAreEstablished` | src/domains/equality_domain.cpp:145-166 | at the end, a row's sides are in one class if and only if the row itself was established, if and only if the equalities leave it unrefuted, provided the guards let joined rows carry over |
| `EqualityDomain.ProjectionIsInductive` | src/domains/equality_domain.cpp:132-186 | what is projected is the conjunction of the facts, and inductive |
| `EqualityDomain.SharedGuardIsSound` | src/domains/equality_domain.cpp:113-186 | under a shared post-guard the rows joined at the end are the established ones, and the projected invariant is inductive |
| `EqualityDomain.EqualityDomain.constructor` | src/domains/equality_domain.cpp:34-39 | every row to be tried, no fact known |
| `EqualityDomain.EqualityDomain.HasSomethingToSolve` | src/domains/equality_domain.cpp:47-61 | the least equality left, or when there is none the least disequality |
| `EqualityDomain.EqualityDomain.GetPermanentExpr` | src/domains/equality_domain.cpp:113-130 | a proved equality joins classes and requeues every failed row; what is proved is told to the solver for good |
| `EqualityDomain.EqualityDomain.Iterate` | src/domains/strategy_solver_simple.cpp:16-89 | a candidate is concluded as the solver's answer says; nothing happens exactly when both lists are empty |
| `EqualityDomain.EqualityDomain.Analyze` | src/domains/ssa_analyzer.cpp:86-87 | the worklists run empty whatever the answers, one candidate concluded after the other, keeping the invariant; every row ends established as equal, established as different, or with its disequality refuted relative to all equalities and the disequalities proved by then; under a shared post-guard the result is sound |
| `ArrayOrder.OrderedIsNotTransitive` | src/domains/array_domain.cpp:252-277 | concrete solution in which the queried order is not transitive |
| `ArrayOrder.OrderedComposesIff` | src/domains/array_domain.cpp:252-277 | two queried orders compose if and only if the outer indices are in order where the middle one is out of bounds |
| `ArrayOrder.BubbleUp` | src/domains/array_domain.cpp:203-216 | one comparison moves the larger entry up wherever all indices are in bounds |
| `ArrayOrder.CompareNeighbours` | src/domains/array_domain.cpp:205-215 | neighbours end in order, or are shown incomparable |
| `ArrayOrder.OrderIndices` | src/domains/array_domain.cpp:197-217 | a permutation, ascending wherever all indices are in bounds when it succeeds; it succeeds whenever all indices are comparable, and fails only on two neighbours that are not |
| `ArrayOrder.AscendingUnique` | src/domains/array_domain.cpp:194-217 | two ascending orders of the same indices agree on the value at every position wherever all indices are in bounds |
| `ArrayOrder.UniqueIndices` | src/domains/array_domain.cpp:225-242 | the loop computes the thinned list of the rows below: given indices in their order; wherever all are in bounds each erased one is zero or has the value of one kept; and each erased one is a zero, a constant equal to a later index, or equal to an earlier index that is no constant |
| `ArrayOrder.OnlyLastIsZero` | src/domains/array_domain.cpp:225-233 | no index is left, but possibly the last, that is zero in every solution |
| `ArrayOrder.ThinnedDiffersIff` | src/domains/array_domain.cpp:234-241 | no neighbours that are equal in every solution are left, if and only if each index kept is told apart from the next one kept |
| `ArrayOrder.AscendingSeparates` | src/domains/array_domain.cpp:234-241 | that is so whenever the indices are in bounds and ascending in all solutions |
| `ArrayOrder.EqualNeighboursLeft` | src/domains/array_domain.cpp:234-241 | an ordered list with a constant of which two neighbours are left that are equal in every solution |
| `ArraySegments.MakeSegments` | src/domains/array_domain.cpp:90-119 | the loop builds the segmentation that the rows below speak of |
| `ArraySegments.SegmentationIsChain` | src/domains/array_domain.cpp:90-119 | the segments form a chain from 0 to the size, with a segment of its own for every written index |
| `ArraySegments.ChainCovers` | src/domains/array_domain.cpp:90-119 | every position between the ends of a chain lies in a segment, whatever the values of the borders |
| `ArraySegments.ChainPartitionsIff` | src/domains/array_domain.cpp:90-119 | with borders inside the array, the segments partition it if and only if no border lies before the one it follows |
| `ArraySegments.SegmentationPartitionsIff` | src/domains/array_domain.cpp:90-119 | where the indices are in bounds and ascending, the segments partition the array if and only if no written index coincides with the next |
| `ArraySegments.CoincidingIndicesOverlap` | src/domains/array_domain.cpp:90-119 | two written indices, ordered and equal in one solution only, whose segments overlap in that solution |
| `ArraySegments.SegmentOrdered` | src/domains/array_domain.cpp:82-119 | from written indices that can be ordered to the segments of the thinned list, which partition the array wherever all are in bounds and no written index kept coincides with the next; neighbours kept differ in some solution exactly under the condition above, and always when nothing is out of bounds |
| `GoalCovering.CoverGoals.Constraint` | src/2ls/cover_goals_ext.cpp:39-52 | asks for one of the goals left, keeping earlier clauses satisfiable by any model of a goal left |
| `GoalCovering.CoverGoals.UncoveredSatisfies` | src/2ls/cover_goals_ext.cpp:39-52 | a model of a goal still uncovered satisfies every clause so far |
| `GoalCovering.CoverGoals.Mark` | src/2ls/cover_goals_ext.cpp:24-36 | covered are exactly the goals covered before or violated by the model; the count keeps up |
| `GoalCovering.CoverGoals.FailViolated` | src/2ls/cover_goals_ext.cpp:130-147 | only properties the model violates become FAIL, all of them unless one trace is enough |
| `GoalCovering.CoverGoals.Assignment` | src/2ls/cover_goals_ext.cpp:112-196 | some property is FAIL afterwards, or every model of the clauses goes through an invariant |
| `GoalCovering.CoverGoals.CoverOnce` | src/2ls/cover_goals_ext.cpp:76-106 | a round covers a goal, or shows that no goal left is violated |
| `GoalCovering.CoverGoals.Cover` | src/2ls/cover_goals_ext.cpp:66-109 | ends within one answer per goal; covered are exactly the violated goals; some property is FAIL if and only if some goal is really violated |
| `GoalCovering.UndistractedFails` | src/2ls/cover_goals_ext.cpp:112-196 | a really violated goal becomes FAIL in the round that covers it when no model through an invariant violates it, or every genuine counterexample does |
| `GoalCovering.DistractedGoalStaysUnknown` | src/2ls/cover_goals_ext.cpp:112-196 | two rounds after which every goal is covered and a really violated one is UNKNOWN |
| `GoalCovering.CheckProperties` | src/2ls/summary_checker_base.cpp:279-308 | PASS only for goals no model violates, and for all of those when all properties are wanted; FAIL only for goals really violated, some FAIL if there is one, and for all of them that nothing distracts from; UNKNOWN otherwise |

## Left out

- The SAT back end, bit-blasting, SSA construction, unwinding, inlining and the union-find library:
  calls into code not shown in the domains; they appear as environments, answers and a joining of
  classes. A solver error answer is not modelled.
- Floating point in the bounds, in width extension and in constant folding: the code does not
  extend floats. The rounding-mode constraint of the ranking domain goes with it.
- Array index expressions in constant folding, with the range checks of their own: a leaf like any
  other in width extension.
- `extend_expr_types` rewrites its argument in place; expressions are values here, so sharing
  between expressions is not captured.
- The translation of solver constants to points-to targets, including offsets and type mismatches
  in the heap domain: an environment directly gives, for each pointer, the target reported for it, or
  none, and the targets its equality holds with.
- IN, OUT and OUTL rows, auxiliary guards (taken to be true), symbolic paths and array difference
  templates: only LOOP rows are modelled.
- The search below a row's fixed maximum in the `binsearch2` and `binsearch3` solvers, linear
  ranking without lexicography, predicate abstraction: not selected, or of the same kind.
- The equality domain inside a product: its permanent facts would rest on contexts that weaken
  later.
- A product mixing in the ranking domain: only polyhedra and heap components.
- Array segments when the indices cannot be ordered, projection onto read indices, and type casts
  of borders: a fixed segmentation per index and naming.
- The renaming between the index expressions that are ordered, at the end of an iteration, and those
  that border segments: a valuation gives one value for both.
- Traces, statistics and the shortcut for assertions that are constantly true in goal covering.
- Summaries, k-induction, bounded model checking, non-termination analysis, preprocessing,
  witnesses and the user interface: control around code not modelled.
- The segment from 0 to the size that every array gets besides its segmentation: it covers the
  array by itself.
- UniqueIndices: does not model the call on an empty list, where the source advances an iterator
  past the end; it is only reached with written indices.
- SearchBound: at types of fewer than 10 bits, and for rows whose maximum is below the largest value
  of their type, says from the start alone at most when the search is exact, not when it is lost;
  there the contract speaks of the gaps of the run.
- UndistractedFails: gives a condition under which a really violated goal becomes FAIL; without it
  that depends on the models the solver happens to pick.
