# Verified solver kernel

A Dafny model of the combinatorial solver kernel of the crate `prospect-commercial-advanced`, with
proofs of what its algorithms promise. It covers causal adjustment in directed acyclic graphs, the
two-phase simplex method and its bounded front end, presolve of mixed-integer programs, the
constraint propagators, the exact searches, and the greedy and peeling algorithms over scenarios and
populations.

Every algorithm that the source writes as loops over mutable state is a method with loops or a class
with fields here, proved against a specification that is stated independently of it:

- **Causal graphs** (`CausalDag`, `Trails`, `DSeparation`, `Backdoor`, `AdjustmentSets`). D-separation is
  defined by blocked trails; the code decides it by moralisation and search. The two are proved equal
  in both directions, the backdoor verdict is proved to be Pearl's criterion, and the search for
  adjustment sets is proved to return exactly the minimal ones.
- **Linear programs** (`LinearAlgebra`, `Tableau`, `Simplex`, `Bland`, `PivotLoop`,
  `GeneralLinearProgram`, `PhaseSetup`, `PhaseTransition`, `TwoPhaseSimplex`, `BoundedLinearProgram`).
  Each pivot keeps solutions, meaning, unit columns and signs; from that follow feasibility, optimality,
  infeasibility and unboundedness of the answers, through the change of phases and through the transform
  of bounded and free variables. The choice of columns is Bland's rule: no basis comes back, so a phase
  takes at most one pivot per basis.
- **Presolve** (`MipPresolve`). Tightening keeps exactly the points that satisfy every row within the
  tolerance, for any number of passes; it stops early only when no row moves a bound any more, and
  complains only about boxes without a point.
- **Propagation** (`Filtering`, `Propagation`, `GlobalConsistency`, `AllDifferent`, `CumulativeTasks`,
  `CumulativeTimetable`, `CumulativeEnergy`, `Disjunctive`, `GlobalDisjunctive`, `ConsistentFamilies`,
  `ConstraintPasses`, `DomainPropagation`).
  Augmenting paths and Hall violators make the all-different propagator exact; monotone support tests
  reach the largest consistent family although the domains are updated in place; energy is counted per
  task and per instant; global disjunctive filtering is exact and at least as strong as pairwise. Passes
  are counted exactly.
- **Exact search** (`FiniteDomainProblems`, `OpenVariables`, `FiniteDomainSearch`, `PropagatedSearch`,
  `Incumbents`, `IntegerSolver`, `BinaryPrograms`, `BinaryBranchAndBound`, `Operations`, `Routing`). Each
  optimising search keeps, as a ghost set, the feasible points it has accounted for, and the incumbent is
  the best of that set; at the end the set is the whole feasible set. Which solution or optimum is
  returned is part of every claim, so that branch and bound is proved to return the very assignment that
  enumeration returns.
- **Scenarios and fronts** (`MassAllocation`, `Scenarios`, `ParetoFronts`, `Crowding`,
  `EnvironmentalSelection`). Greedy allocations are worst cases by a threshold argument, front numbers are
  lengths of dominance chains, and the extremes of a front are selected before its inner candidates.

Node, pivot, interval and search budgets are error results of their own. No contract claims success
after a budget has run out, and each states a size of budget that never runs out: the full search tree,
one pivot per basis and phase, or the number of intervals.

Where the code and a comment about it differ, the model follows the code. One such place: for a single
node the route solver answers with length 0 whatever the diagonal entry of the distance matrix is, and
`Routing.SolveRouteExact` says so.

`dafny verify dfyconfig.toml` checks the project.

## Model

Source paths are relative to the root of the repository.

| member | source | states |
|---|---|---|
| CausalGraphs.New | crates/prospect-commercial-advanced/src/causal.rs:57-91 | a graph is built exactly when it has nodes, every edge joins two different existing nodes and there is no directed cycle; parents and children are the edge list, sorted and without repetitions; otherwise the error of the first offending edge, or a cycle |
| CausalGraphs.KahnIsExact | crates/prospect-commercial-advanced/src/causal.rs:145-163 | if peeling parentless nodes stops early, the nodes left over contain a directed cycle; if it reaches all nodes, the order of removal is topological and there is none |
| CausalGraphs.IsAcyclic | crates/prospect-commercial-advanced/src/causal.rs:145-163 | Kahn's counting loop answers true exactly for graphs without a directed cycle |
| CausalGraphs.Descendants | crates/prospect-commercial-advanced/src/causal.rs:109-127 | the stack search returns, in increasing order, exactly the nodes reachable by a non-empty directed path, without the start node |
| Trails.OpenTrailReachesMorally | crates/prospect-commercial-advanced/src/causal.rs:349-415 | an open trail in the trail-blocking sense gives a path in the moral graph of the ancestral set that avoids the conditioning set |
| Trails.SimplifyTrail | crates/prospect-commercial-advanced/src/causal.rs:349-415 | an open walk can be cut at its loops to an open trail without repeated nodes, so it does not matter whether trails may revisit nodes |
| Trails.MoralPathYieldsOpenTrail | crates/prospect-commercial-advanced/src/causal.rs:349-415 | a path of the moral graph that avoids the conditioning set can be unfolded into an open trail, married parents being joined through their common child |
| Trails.MoralCriterion | crates/prospect-commercial-advanced/src/causal.rs:349-415 | two nodes are connected by an open trail exactly when they are connected in the moral graph of the ancestral set without the conditioning nodes |
| DSeparation.MarkAncestral | crates/prospect-commercial-advanced/src/causal.rs:356-374 | the backward search marks exactly the two end points, the conditioning set and all their ancestors, no more and no less |
| DSeparation.BuildMoral | crates/prospect-commercial-advanced/src/causal.rs:376-395 | the adjacency sets hold exactly the moral edges between marked nodes: parent to child, and between two parents of one child |
| DSeparation.SearchMoral | crates/prospect-commercial-advanced/src/causal.rs:397-414 | separated exactly when no path around the conditioning set reaches the outcome |
| DSeparation.IsDSeparatedMoral | crates/prospect-commercial-advanced/src/causal.rs:349-415 | the answer is true exactly when every trail between treatment and outcome in the graph without the treatment's outgoing edges is blocked |
| Backdoor.BackdoorByPruning | crates/prospect-commercial-advanced/src/causal.rs:225-246 | blocking all trails after deleting the treatment's outgoing edges is the same as blocking every trail that enters the treatment, in the original graph |
| Backdoor.CheckBackdoorCriterionValidated | crates/prospect-commercial-advanced/src/causal.rs:225-246 | the verdict is Pearl's criterion: no adjustment variable descends from the treatment and every backdoor path is blocked; a violation names the smallest descendant in the set, or an open path exists |
| Backdoor.ValidateQuery | crates/prospect-commercial-advanced/src/causal.rs:317-347 | a query is accepted exactly when all nodes exist, treatment and outcome differ and the adjustment set repeats nothing and contains neither; otherwise the first failure in the order of the checks |
| Backdoor.CheckBackdoorCriterion | crates/prospect-commercial-advanced/src/causal.rs:210-223 | an invalid query gives its error, a valid one the verdict of the criterion |
| AdjustmentSets.CombinationsComplete | crates/prospect-commercial-advanced/src/causal.rs:295-315 | the recursive enumeration lists exactly the ways to choose the given number of candidates in increasing position |
| AdjustmentSets.CombinationsDistinct | crates/prospect-commercial-advanced/src/causal.rs:295-315 | no combination is listed twice |
| AdjustmentSets.CombinationCollector.Collect | crates/prospect-commercial-advanced/src/causal.rs:295-315 | the in-place recursion appends exactly those combinations, in order, and restores its working list |
| AdjustmentSets.AcceptanceIsMinimality | crates/prospect-commercial-advanced/src/causal.rs:261-293 | accepting a valid set that contains no earlier accepted set accepts exactly the inclusion-minimal valid sets, because smaller sets come first |
| AdjustmentSets.SearchIsExact | crates/prospect-commercial-advanced/src/causal.rs:261-293 | filtering all enumerated sets in order of size gives exactly the inclusion-minimal valid sets up to the size limit, each once |
| AdjustmentSets.MinimalSetInside | crates/prospect-commercial-advanced/src/causal.rs:261-293 | every valid set contains an inclusion-minimal valid set |
| AdjustmentSets.FindMinimalAdjustmentSets | crates/prospect-commercial-advanced/src/causal.rs:261-293 | the returned list is exactly the inclusion-minimal valid backdoor sets of at most the given size, each once, ordered by size |
| AdjustmentSets.ParentsAreValid | crates/prospect-commercial-advanced/src/causal.rs:248-259 | the parents of the treatment always satisfy the backdoor criterion when the outcome is not one of them |
| AdjustmentSets.CanonicalAdjustmentSet | crates/prospect-commercial-advanced/src/causal.rs:248-259 | the canonical set is the treatment's parents, and it is valid unless the outcome is among them |
| GeneralPrograms.NormalizeKeepsFeasibility | crates/prospect-commercial-advanced/src/general_linear_program.rs:286-322 | flipping rows with a negative right-hand side keeps exactly the same feasible points and makes every right-hand side non-negative |
| GeneralPrograms.FeasibleExtends | crates/prospect-commercial-advanced/src/general_linear_program.rs:107-137 | every feasible point extends, with non-negative slacks and zero artificials, to a solution of the first tableau |
| GeneralPrograms.SolutionRestricts | crates/prospect-commercial-advanced/src/general_linear_program.rs:107-137 | every non-negative solution of the first tableau with zero artificials restricts to a feasible point |
| PhaseSetup.BuildTableau | crates/prospect-commercial-advanced/src/general_linear_program.rs:97-137 | the tableau rows, the slack, surplus and artificial columns, the artificial flags and the starting basis are laid out as the row relations require |
| PhaseSetup.InitializeObjectiveRow | crates/prospect-commercial-advanced/src/general_linear_program.rs:324-349 | after eliminating the basic costs the objective row represents the given costs on every solution and vanishes on the basis |
| Tableaux.PivotKeepsSolutions | crates/prospect-commercial-advanced/src/general_linear_program.rs:413-453 | a pivot on a non-zero entry keeps exactly the solutions of the row system |
| Tableaux.PivotKeepsMeaning | crates/prospect-commercial-advanced/src/general_linear_program.rs:413-453 | a pivot keeps the costs that the objective row represents |
| Tableaux.PivotKeepsUnitColumns | crates/prospect-commercial-advanced/src/general_linear_program.rs:413-453 | after a pivot the entering column is a unit column and the other basis columns stay unit columns |
| Tableaux.PivotKeepsRhs | crates/prospect-commercial-advanced/src/general_linear_program.rs:378-453 | pivoting on the row of least ratio keeps every right-hand side non-negative |
| Simplex.Pivot | crates/prospect-commercial-advanced/src/general_linear_program.rs:413-453 | the in-place row operations compute exactly the pivoted tableau, and report a zero pivot without touching it |
| Simplex.ChooseLeavingRow | crates/prospect-commercial-advanced/src/general_linear_program.rs:378-411 | the chosen row has the least ratio of right-hand side to positive entry, ties broken by the smaller basis index; none is chosen exactly when no entry is positive |
| Simplex.CurrentPointIsFeasible | crates/prospect-commercial-advanced/src/general_linear_program.rs:201-237 | the basic point of a canonical tableau is feasible and its cost is the corner entry |
| Simplex.NoBetterPoint | crates/prospect-commercial-advanced/src/general_linear_program.rs:351-376 | when no reduced cost is negative, no feasible point costs more than the corner entry |
| Simplex.RayIsUnbounded | crates/prospect-commercial-advanced/src/general_linear_program.rs:351-376 | a negative reduced cost over a column without positive entries yields feasible points of arbitrarily large objective |
| PivotLoop.RunSimplex | crates/prospect-commercial-advanced/src/general_linear_program.rs:351-376 | the pivot loop keeps solutions, costs, unit basis and right-hand sides and pivots at most once per basis; it ends optimal, or unbounded only if the costs are, or with a budget used up that is smaller than the number of bases |
| BlandRule.SmallerIsNotLowered | crates/prospect-commercial-advanced/src/general_linear_program.rs:378-411 | the tie-break by the smallest basis index: below the column that leaves, no basic column outside the later basis blocks |
| BlandRule.LargerColumnMoves | crates/prospect-commercial-advanced/src/general_linear_program.rs:351-411 | if a column leaves in one iteration and enters in another at the same point, a larger column moves in between |
| BlandRule.NoBasisRepeats | crates/prospect-commercial-advanced/src/general_linear_program.rs:351-411 | Bland's rule excludes cycling: in exact arithmetic no basis comes back within a phase, whatever the degeneracy |
| BlandRule.RunIsShort | crates/prospect-commercial-advanced/src/general_linear_program.rs:351-411 | a run of the pivot loop is no longer than the number of ways to choose the basis columns |
| Finite.SubsetsAreChoices | crates/prospect-commercial-advanced/src/general_linear_program.rs:351-376 | the bound on the pivots of a phase is exactly the number of sets of columns that could form a basis |
| PhaseTransition.DriveOutStep | crates/prospect-commercial-advanced/src/general_linear_program.rs:455-483 | driving a zero artificial out of the basis keeps the system canonical and the corner entry |
| PhaseTransition.RemoveArtificialBasics | crates/prospect-commercial-advanced/src/general_linear_program.rs:455-483 | afterwards every row either has a non-artificial basis column or has only artificial entries and right-hand side zero |
| PhaseTransition.CompressedSolutions | crates/prospect-commercial-advanced/src/general_linear_program.rs:177-199 | dropping artificial columns and redundant rows keeps exactly the solutions whose artificials vanish |
| PhaseTransition.Compress | crates/prospect-commercial-advanced/src/general_linear_program.rs:177-199 | the second tableau is the kept rows and columns with the column numbering and basis translated |
| TwoPhaseSimplex.PhaseOneIsBounded | crates/prospect-commercial-advanced/src/general_linear_program.rs:139-165 | minimising the sum of artificials is never unbounded |
| TwoPhaseSimplex.PhaseOneOptimum | crates/prospect-commercial-advanced/src/general_linear_program.rs:147-165 | at a phase-one optimum a negative corner proves that no feasible point exists, and a zero corner means every artificial basic variable is zero |
| TwoPhaseSimplex.PhaseOne | crates/prospect-commercial-advanced/src/general_linear_program.rs:97-175 | Infeasible is returned only if there is no feasible point; on success the prepared tableau is settled; otherwise a pivot budget smaller than the number of bases is used up |
| TwoPhaseSimplex.CompressedDescribes | crates/prospect-commercial-advanced/src/general_linear_program.rs:177-199 | the second tableau's non-negative solutions are exactly the feasible points, extended |
| TwoPhaseSimplex.PhaseTwoOptimum | crates/prospect-commercial-advanced/src/general_linear_program.rs:201-237 | the read-off values at a phase-two optimum are feasible and no feasible point beats them |
| TwoPhaseSimplex.PhaseTwoUnbounded | crates/prospect-commercial-advanced/src/general_linear_program.rs:201-237 | Unbounded in phase two means feasible points of arbitrarily large objective |
| TwoPhaseSimplex.PhaseTwo | crates/prospect-commercial-advanced/src/general_linear_program.rs:201-237 | phase two returns a best value carried by a basis of different columns, or proves the program unbounded, or has used up the pivot budget shared with phase one, which then leaves less than one pivot per basis |
| TwoPhaseSimplex.MaximumViolation | crates/prospect-commercial-advanced/src/general_linear_program.rs:485-502 | the maximum violation is zero exactly at feasible points and bounds the violation of every row |
| TwoPhaseSimplex.SolveGeneralTwoPhaseSimplex | crates/prospect-commercial-advanced/src/general_linear_program.rs:89-255 | for a valid program: Optimal is feasible and unbeaten with its own objective value and its non-zero values lie on the reported basis, Infeasible means no feasible point, Unbounded means arbitrarily large objectives, and the iteration error means a budget smaller than twice the number of bases |
| BoundedPrograms.SubstitutedDot | crates/prospect-commercial-advanced/src/bounded_linear_program.rs:158-194 | substituting the transformed variables into a row changes its value only by the accumulated constant |
| BoundedPrograms.SpanRowsMeaning | crates/prospect-commercial-advanced/src/bounded_linear_program.rs:105-150 | the extra rows for doubly bounded variables say exactly that the shifted value stays within the span |
| BoundedPrograms.TransformedFeasibility | crates/prospect-commercial-advanced/src/bounded_linear_program.rs:105-194 | a non-negative transformed point is feasible exactly when its reconstruction is feasible in the original program |
| BoundedPrograms.PreimageReturns | crates/prospect-commercial-advanced/src/bounded_linear_program.rs:204-217 | every point within the bounds has a non-negative transformed preimage that reconstructs to it, free variables being split by sign |
| BoundedPrograms.TransformPreservesMeaning | crates/prospect-commercial-advanced/src/bounded_linear_program.rs:105-217 | feasible originals and feasible transformed points correspond, with objectives differing by the constant |
| BoundedPrograms.TransformVariables | crates/prospect-commercial-advanced/src/bounded_linear_program.rs:105-150 | the loop lays out one or two columns per variable, the shifts, the reflected columns and the span rows as the bounds require |
| BoundedPrograms.TransformConstraint | crates/prospect-commercial-advanced/src/bounded_linear_program.rs:158-194 | each row becomes the substituted row with its right-hand side reduced by the constant |
| BoundedPrograms.Reconstruct | crates/prospect-commercial-advanced/src/bounded_linear_program.rs:204-217 | the reconstruction loop computes the original point of a transformed one |
| BoundedPrograms.AnswerTransfers | crates/prospect-commercial-advanced/src/bounded_linear_program.rs:196-231 | an inner optimum, infeasibility or unboundedness is one of the original program, and the iteration bound carries over |
| BoundedPrograms.SolveBoundedLinearProgram | crates/prospect-commercial-advanced/src/bounded_linear_program.rs:100-247 | an optimum is within the bounds, feasible and unbeaten; Infeasible and Unbounded mean what they say for the original program; the iteration error means a budget smaller than twice the number of bases of the transformed program |
| Matching.Matcher.Augment | crates/prospect-commercial-advanced/src/cp_global.rs:214-259 | on success exactly one more variable owns a value and owners stay injective and legal; on failure the newly visited values are owned by variables with no candidate outside the visited ones; the recursion ends because visited grows |
| Matching.TakeOver | crates/prospect-commercial-advanced/src/cp_global.rs:236-255 | rerouting the previous owner of a value lets the new variable have it without disturbing injectivity |
| Matching.HallViolatorExcludesChoice | crates/prospect-commercial-advanced/src/cp_global.rs:187-212 | the visited values of a failed augmentation are a Hall violator: one variable more than values, so no choice of different values exists |
| Matching.MatchingGivesChoice | crates/prospect-commercial-advanced/src/cp_global.rs:187-212 | an injective owner map of all variables is a choice of different values that respects the fixed variable |
| Matching.HasPerfectMatching | crates/prospect-commercial-advanced/src/cp_global.rs:187-212 | true exactly when different values can be chosen from all domains, the fixed variable taking its fixed value |
| GlobalConsistency.FilterStep | crates/prospect-commercial-advanced/src/cp_global.rs:63-79 | filtering one variable makes it exact, loses no solution, and leaves an already exact variable unchanged, which is why a second pass changes nothing |
| GlobalConsistency.FilteredNotEmpty | crates/prospect-commercial-advanced/src/cp_global.rs:72-76 | a variable loses all its values exactly when the constraint has no solution |
| AllDifferentPropagation.FilterVariable | crates/prospect-commercial-advanced/src/cp_global.rs:65-75 | the kept values are exactly those that some choice of different values uses, in order |
| AllDifferentPropagation.RunPasses | crates/prospect-commercial-advanced/src/cp_global.rs:57-82 | infeasible exactly when no choice exists; one pass if every value was supported, otherwise two |
| AllDifferentPropagation.PropagateAllDifferentGac | crates/prospect-commercial-advanced/src/cp_global.rs:49-89 | a value survives exactly when some all-different choice of the original domains uses it there; Infeasible exactly when there is none; removed values and passes are counted exactly; empty input and the first empty domain are reported |
| Propagation.ReachedStep | crates/prospect-commercial-advanced/src/cp_global.rs:145-157 | for any monotone support test, filtering one variable keeps every consistent family of sub-domains, and an empty result proves there is none |
| Propagation.UnchangedPassIsGreatest | crates/prospect-commercial-advanced/src/cp_global.rs:159-162 | a pass that removes nothing has reached the largest consistent family |
| Propagation.PassesAreDetermined | crates/prospect-commercial-advanced/src/cp_global.rs:129-162 | repeating a pass until it changes nothing determines the number of passes and the resulting domains |
| CumulativeTimetable.TimetableIsMonotone | crates/prospect-commercial-advanced/src/cp_global.rs:303-325 | smaller domains have larger mandatory parts, so they support no more starts |
| CumulativeTimetable.SingletonsConsistentIffFits | crates/prospect-commercial-advanced/src/cp_global.rs:303-325 | on single starts the time-table test accepts exactly the schedules whose load never exceeds the capacity |
| CumulativeTimetable.TimetableKeepsSchedules | crates/prospect-commercial-advanced/src/cp_global.rs:112-168 | no start of any feasible schedule is removed |
| CumulativeTimetable.SingletonResultIsFeasible | crates/prospect-commercial-advanced/src/cp_global.rs:112-168 | if one start per task is left, those starts are a feasible schedule |
| CumulativeTimetable.ConsistentMeansNoOverload | crates/prospect-commercial-advanced/src/cp_global.rs:133-138 | when every start is supported, the mandatory load respects the capacity at every instant |
| CumulativeTimetable.MandatoryProfile | crates/prospect-commercial-advanced/src/cp_global.rs:281-301 | the accumulated profile holds at every instant the demand of the tasks that run then whichever start they take |
| CumulativeTimetable.CandidateSupported | crates/prospect-commercial-advanced/src/cp_global.rs:303-325 | a candidate is accepted exactly when it never overloads the resource together with the other mandatory parts |
| CumulativeTimetable.TimetablePass | crates/prospect-commercial-advanced/src/cp_global.rs:141-157 | one in-place pass either proves infeasibility or keeps every consistent family, and is at the largest one if it removed nothing |
| CumulativeTimetable.RunPasses | crates/prospect-commercial-advanced/src/cp_global.rs:129-162 | Infeasible exactly when no consistent family of sub-domains exists; otherwise the largest one, in at most removed starts plus one passes |
| CumulativeTimetable.PropagateCumulativeTimetable | crates/prospect-commercial-advanced/src/cp_global.rs:112-168 | errors for capacity, empty input and the first bad task; otherwise Infeasible exactly when no consistent family exists, or the largest one with exact counts of removed starts and of passes and the attained peak load within capacity |
| CumulativeEnergy.EnergyIsSummedLoad | crates/prospect-commercial-advanced/src/cp_energy.rs:248-288 | demand times overlap summed over tasks equals the load summed over the instants of the interval |
| CumulativeEnergy.RequiredBelowSchedule | crates/prospect-commercial-advanced/src/cp_energy.rs:248-275 | the required energy never exceeds the energy of a schedule that agrees with the fixed start |
| CumulativeEnergy.RequiredEnergyAttained | crates/prospect-commercial-advanced/src/cp_energy.rs:248-275 | some choice of one start per task, the fixed one included, spends in the interval exactly the required energy |
| CumulativeEnergy.EnergyTestIsExact | crates/prospect-commercial-advanced/src/cp_energy.rs:202-232 | an interval passes the test exactly when some choice of starts that agrees with the fixed one fits its energy |
| CumulativeEnergy.ScheduleHasEnergy | crates/prospect-commercial-advanced/src/cp_energy.rs:202-232 | a feasible schedule passes the energy test on every interval, with any of its own starts fixed |
| CumulativeEnergy.ComputeRequiredEnergy | crates/prospect-commercial-advanced/src/cp_energy.rs:248-275 | the loop sums demand times the fixed or least overlap of every task, an energy that some choice of starts attains |
| CumulativeEnergy.CandidateIntervals | crates/prospect-commercial-advanced/src/cp_energy.rs:168-200 | all pairs of start and end points, each once, or the exact number needed when it exceeds the budget |
| CumulativeEnergy.MinimumSlack | crates/prospect-commercial-advanced/src/cp_energy.rs:234-246 | the slack is the minimum over the listed intervals, and zero for none |
| CumulativeEnergy.EnergyPass | crates/prospect-commercial-advanced/src/cp_energy.rs:116-132 | one in-place pass keeps every feasible schedule, reports infeasibility only if there is none, and leaves every candidate supported if it removed nothing |
| CumulativeEnergy.FewerIntervals | crates/prospect-commercial-advanced/src/cp_energy.rs:168-200 | smaller domains never need more intervals, so the interval budget can fail only before the first pass |
| CumulativeEnergy.RunPasses | crates/prospect-commercial-advanced/src/cp_energy.rs:106-133 | the budget error exactly when the normalised tasks need more intervals than allowed; Infeasible only without feasible schedule; otherwise an energy-consistent fixed point within removed starts plus one passes |
| CumulativeEnergy.PropagateCumulativeEnergy | crates/prospect-commercial-advanced/src/cp_energy.rs:77-141 | feasible schedules keep all their starts; on success no interval between end points is overloaded whichever remaining start is fixed, the reported slack is the least and not negative, and the domains, the number of passes and of examined intervals are exactly those of filtering every task in turn, with the intervals listed at the start of each pass, until a pass removes nothing |
| CumulativeEnergy.OverloadedInterval | crates/prospect-commercial-advanced/src/cp_energy.rs:168-232 | an overload at any instant overloads a whole interval from a start to an end point, one of those the test looks at |
| CumulativeEnergy.SingletonEnergyIffFits | crates/prospect-commercial-advanced/src/cp_energy.rs:202-275 | on single starts energy consistency holds exactly of the schedules whose load never exceeds the capacity |
| CumulativeEnergy.SingletonResultIsFeasible | crates/prospect-commercial-advanced/src/cp_energy.rs:77-141 | if propagation leaves one start per task, those starts are a feasible schedule, and the only one |
| FiniteDomainSearch.ConstraintsPossible | crates/prospect-commercial-advanced/src/solver.rs:376-499 | the tests on a partial assignment are evaluated for every constraint: repeated values, bounds of linear sums, overlapping intervals |
| FiniteDomainSearch.SolutionPassesTest | crates/prospect-commercial-advanced/src/solver.rs:376-499 | no partial assignment that a solution extends is refuted |
| FiniteDomainSearch.CompleteTestIsExact | crates/prospect-commercial-advanced/src/solver.rs:376-499 | on a complete assignment the tests decide every constraint |
| FiniteDomainProblems.OverlapMeaning | crates/prospect-commercial-advanced/src/solver.rs:474-499 | two intervals of positive length overlap exactly when some instant belongs to both |
| FiniteDomainSearch.Backtracker.Search | crates/prospect-commercial-advanced/src/solver.rs:327-374 | a value found is the first solution extending the assignment, in the order of the search; finding nothing means there is none and restores the assignment; no more nodes than the full search tree has, and the budget error means exactly the budget was used |
| OpenVariables.SelectOpen | crates/prospect-commercial-advanced/src/solver.rs:352-358 | the open variable with the smallest domain, ties by index, or none exactly when all have values |
| FiniteDomainSearch.FoundInValue | crates/prospect-commercial-advanced/src/solver.rs:360-371 | the first solution below the least value that has one comes before every other solution |
| FiniteDomainSearch.Validate | crates/prospect-commercial-advanced/src/solver.rs:276-325 | problems are accepted exactly when well formed, and the first failing check determines the error |
| FiniteDomainSearch.SolveFiniteDomain | crates/prospect-commercial-advanced/src/solver.rs:255-274 | the first of all solutions when variables are read by domain size and values ascend, or no feasible solution because there is none, or a used-up node budget that is smaller than the full search tree |
| ConsistentFamilies.SinglesSettleIffHold | crates/prospect-commercial-advanced/src/constraint_propagation.rs:225-380 | on single values each propagator deletes nothing exactly when its constraint holds |
| ConsistentFamilies.SolutionsAreSingleFamilies | crates/prospect-commercial-advanced/src/constraint_propagation.rs:225-380 | the solutions are exactly the families of sub-domains with one value per variable on which no propagator deletes anything |
| ConsistentFamilies.SupportMeaning | crates/prospect-commercial-advanced/src/constraint_propagation.rs:257-340 | a value stays exactly when the row can be met with the other variables anywhere between the least and the greatest value of their domains |
| DomainPropagation.PropagateAllDifferent | crates/prospect-commercial-advanced/src/constraint_propagation.rs:225-255 | every family of sub-domains that the propagators leave alone, and so every solution, survives; failure proves there is none; domains left unchanged are ones from which this propagator deletes nothing |
| DomainPropagation.PropagateLinear | crates/prospect-commercial-advanced/src/constraint_propagation.rs:257-340 | every family of sub-domains that the propagators leave alone, and so every solution, survives; failure proves there is none; domains left unchanged are ones from which this propagator deletes nothing |
| DomainPropagation.PropagateNoOverlap | crates/prospect-commercial-advanced/src/constraint_propagation.rs:342-380 | every family of sub-domains that the propagators leave alone, and so every solution, survives; failure proves there is none; domains left unchanged are ones from which this propagator deletes nothing |
| DomainPropagation.Pass | crates/prospect-commercial-advanced/src/constraint_propagation.rs:62-75 | one pass over all three kinds, in their order, loses no family that the propagators leave alone and computes exactly the deletions of each propagator in turn; if it changes nothing, the domains are such a family |
| DomainPropagation.PropagateDomains | crates/prospect-commercial-advanced/src/constraint_propagation.rs:55-82 | the largest family of sorted sub-domains on which no propagator deletes anything, whatever the order of in-place deletions; removed values and passes are counted exactly, the last pass being the first that changes nothing; Infeasible exactly when there is no such family |
| DomainPropagation.PropagationKeepsSolutions | crates/prospect-commercial-advanced/src/constraint_propagation.rs:55-82 | the propagated problem has exactly the same solutions; Infeasible proves there is none; single values left are a solution |
| PropagatedSearch.ChildIsSmaller | crates/prospect-commercial-advanced/src/constraint_propagation.rs:149-164 | branching on one value shrinks the total domain size, on which the recursion terminates |
| PropagatedSearch.Searcher.Search | crates/prospect-commercial-advanced/src/constraint_propagation.rs:110-166 | a value found is the first solution of the search order, finding nothing means there is none, never more nodes than twice the number of assignments, and the budget error means exactly the budget was used |
| PropagatedSearch.FirstFoundIsUnique | crates/prospect-commercial-advanced/src/constraint_propagation.rs:110-166 | the search order determines the solution: at most one solution is the first one found |
| PropagatedSearch.ChildrenShare | crates/prospect-commercial-advanced/src/constraint_propagation.rs:149-164 | the children of a branch together have fewer nodes than their parent, counted as twice the assignments less one |
| Filtering.VolumeSplits | crates/prospect-commercial-advanced/src/constraint_propagation.rs:149-164 | fixing one variable to each of its values in turn splits the assignments evenly |
| Filtering.SingleVolume | crates/prospect-commercial-advanced/src/constraint_propagation.rs:138-141 | with one value per variable there is exactly one assignment, which with the even splits fixes the number of assignments in the node bounds |
| PropagatedSearch.SolveFiniteDomainPropagated | crates/prospect-commercial-advanced/src/constraint_propagation.rs:84-108 | the first solution of the search order: in the largest consistent family the variable with the fewest values takes the least value of all solutions, and so on below that value until one value per variable is left; or Infeasible because there is none; or a used-up node budget smaller than twice the number of assignments |
| PropagatedSearch.SolversAgree | crates/prospect-commercial-advanced/src/constraint_propagation.rs:84-108 | unless a node budget runs out, the propagating solver finds a solution exactly when the plain one does |
| PropagatedSearch.AmpleBudgetDecides | crates/prospect-commercial-advanced/src/solver.rs:255-274 | with a budget for the full search tree and for twice the assignments, both solvers finish and succeed exactly on the problems that have a solution |
| LinearBounds.BoundTest | crates/prospect-commercial-advanced/src/integer_solver.rs:241-289 | bounding a linear row never refutes a satisfied one and decides it once every variable is fixed |
| LinearBounds.TestIsExact | crates/prospect-commercial-advanced/src/integer_solver.rs:241-289 | the interval test passes exactly when the row can be met by numbers, not necessarily whole, between the bounds |
| IntegerSolver.VariableOrderIsSorted | crates/prospect-commercial-advanced/src/integer_solver.rs:121-146 | the order lists every variable once, by impact, then span, then index |
| IntegerSolver.BelowIsBounded | crates/prospect-commercial-advanced/src/integer_solver.rs:212-239 | the optimistic bound is at least the objective of every feasible completion, whatever the coefficient signs |
| Incumbents.IncumbentMeetsLeaf | crates/prospect-commercial-advanced/src/integer_solver.rs:175-193 | the replacement rule keeps the lexicographically smallest of the points of maximum value seen so far, in any order of visit |
| IntegerSolver.IntegerSearch.Search | crates/prospect-commercial-advanced/src/integer_solver.rs:148-210 | every feasible point below the node is accounted for, searched or pruned; the incumbent is the best of all points accounted for; the assignment is restored; no more nodes than the full tree below; failure means exactly the budget was used |
| IntegerSolver.SolveBoundedInteger | crates/prospect-commercial-advanced/src/integer_solver.rs:73-97 | the lexicographically smallest of all feasible points of maximum objective; no feasible solution exactly when the feasible set is empty; otherwise a node budget smaller than the full search tree is used up |
| BinaryEnumeration.MaskRoundTrip | crates/prospect-commercial-advanced/src/optimization.rs:141-145 | every assignment is the one of its mask |
| BinaryEnumeration.EnumerationIsComplete | crates/prospect-commercial-advanced/src/optimization.rs:135-165 | the masks together reach exactly the feasible assignments |
| BinaryEnumeration.SolveBinaryLinearExact | crates/prospect-commercial-advanced/src/optimization.rs:135-165 | enumeration returns the lexicographically smallest of the best assignments, or reports none because there is none |
| BinaryBranchAndBound.RowPossible | crates/prospect-commercial-advanced/src/solver.rs:178-226 | the three running sums give the interval test: the right-hand side is compared with the least and greatest value the row can take; an equality row with open variables may pass it without being satisfiable |
| BinaryBranchAndBound.BranchAndBound.OptimisticBound | crates/prospect-commercial-advanced/src/solver.rs:127-135 | the current objective plus the open positive coefficients is the interval bound of the node |
| BinaryBranchAndBound.BranchAndBound.Branch | crates/prospect-commercial-advanced/src/solver.rs:113-176 | every feasible assignment below the node is accounted for and the assignment restored; no more nodes than the full binary tree below; failure means exactly the budget was used |
| BinaryBranchAndBound.SolveBinaryBranchAndBound | crates/prospect-commercial-advanced/src/solver.rs:63-85 | the lexicographically smallest of the best assignments, or none because none is feasible, or a used-up budget of fewer than 2^(n+1) - 1 nodes |
| BinaryBranchAndBound.RefinesEnumeration | crates/prospect-commercial-advanced/src/solver.rs:63-224 | whenever both finish, branch and bound and enumeration return the identical assignment and objective, or both find none |
| BinaryBranchAndBound.AmpleBudgetRefines | crates/prospect-commercial-advanced/src/solver.rs:63-224 | with 2^(n+1) - 1 nodes allowed, branch and bound always gives the answer of the enumeration |
| MipPresolve.TighteningIsSound | crates/prospect-commercial-advanced/src/mip_presolve.rs:231-296 | a point of the box that satisfies the row within tolerance lies within the tightened, inward-rounded bound |
| MipPresolve.TightenedIsTightest | crates/prospect-commercial-advanced/src/mip_presolve.rs:231-296 | one step moves the bound to the last value that the row admits within tolerance when all other variables are at their most favourable ends; nothing beyond it that the variable could take is admitted, and everything else stays |
| MipPresolve.SettledIsBoundsConsistent | crates/prospect-commercial-advanced/src/mip_presolve.rs:84-149 | a row moves no bound of a non-empty box exactly when each end of each of its variables belongs to a point between the bounds that satisfies the row within tolerance, both directions of an equality included |
| MipPresolve.TightenLessOrEqual | crates/prospect-commercial-advanced/src/mip_presolve.rs:231-296 | tightening all variables of a row in place keeps exactly the same points; bounds and count are those of moving each bound in turn to the tightest value the row allows |
| MipPresolve.TightenFromConstraint | crates/prospect-commercial-advanced/src/mip_presolve.rs:192-229 | each relation is tightened through one or two less-or-equal rows without changing the points; bounds and count are those of these rows in order |
| MipPresolve.RowsAdvance | crates/prospect-commercial-advanced/src/mip_presolve.rs:84-115 | a sweep over the rows moves bounds inward only, counts something exactly when a bound moved, and moves none only if no row moves one |
| MipPresolve.RowVerdicts | crates/prospect-commercial-advanced/src/mip_presolve.rs:298-347 | an infeasible row holds nowhere in the box, a redundant row everywhere |
| MipPresolve.InfeasibilityIsExact | crates/prospect-commercial-advanced/src/mip_presolve.rs:298-331 | in a non-empty box a row is found infeasible exactly when no point between the bounds satisfies it within tolerance |
| MipPresolve.RedundancyIsExact | crates/prospect-commercial-advanced/src/mip_presolve.rs:333-347 | in a non-empty box a row is reported redundant exactly when it holds, within tolerance, in the whole box |
| MipPresolve.FixedIsExact | crates/prospect-commercial-advanced/src/mip_presolve.rs:168-181 | a variable is reported fixed exactly when any two values it can take agree, exactly for integers and within tolerance otherwise |
| MipPresolve.RunPasses | crates/prospect-commercial-advanced/src/mip_presolve.rs:84-149 | the box and count of the reported number of passes, with the points of the original problem; an early stop means no row moves a bound any more; every error proves there is no point |
| MipPresolve.LeavingRangeMeansCrossed | crates/prospect-commercial-advanced/src/mip_presolve.rs:117-139 | integer bounds that started in the exact range leave it only by crossing each other, by a whole unit |
| MipPresolve.ReportMeaning | crates/prospect-commercial-advanced/src/mip_presolve.rs:79-190 | nothing is counted exactly when the box is unchanged; in a non-empty final box every row can be met, and after a stop before the pass limit both ends of every variable of a row belong to points that meet it |
| MipPresolve.ValidVariableMeaning | crates/prospect-commercial-advanced/src/mip_presolve.rs:362-380 | a variable is accepted exactly when its bounds are ordered and, if it is an integer, whole numbers of size at most 2^53 |
| MipPresolve.PresolveMixedIntegerBounds | crates/prospect-commercial-advanced/src/mip_presolve.rs:79-190 | only bounds change, inward, as the reported passes move them; the points within tolerance stay exactly the same; every error on a valid input means there are none, and a range error needs a tolerance of at least 1; redundant rows and fixed variables are those of the final box, ascending, and none of its rows is infeasible; invalid input gives the error of the first failing check |
| DisjunctiveTasks.NonOverlappingMeaning | crates/prospect-commercial-advanced/src/cp_disjunctive.rs:164-177 | two starts are compatible exactly when no instant belongs to both intervals |
| PairwiseDisjunctive.PairSupportsIsMonotone | crates/prospect-commercial-advanced/src/cp_disjunctive.rs:75-104 | larger domains support no fewer starts, so in-place updating reaches the same greatest family as updating all at once |
| PairwiseDisjunctive.PairwiseKeepsSchedules | crates/prospect-commercial-advanced/src/cp_disjunctive.rs:60-138 | no start of any non-overlapping schedule is removed |
| PairwiseDisjunctive.RunPasses | crates/prospect-commercial-advanced/src/cp_disjunctive.rs:75-108 | Infeasible exactly when no arc-consistent family exists; otherwise the greatest one, in at most removed starts plus one passes |
| PairwiseDisjunctive.AllPairsForceBefore | crates/prospect-commercial-advanced/src/cp_disjunctive.rs:179-198 | true exactly when some compatible pair exists and every compatible pair puts the first task first |
| PairwiseDisjunctive.ForcedPrecedences | crates/prospect-commercial-advanced/src/cp_disjunctive.rs:110-127 | exactly the forced ordered pairs, each once, sorted |
| PairwiseDisjunctive.PrecedenceHolds | crates/prospect-commercial-advanced/src/cp_disjunctive.rs:110-127 | a reported precedence holds in every non-overlapping schedule of the input |
| PairwiseDisjunctive.PropagatePairwiseDisjunctive | crates/prospect-commercial-advanced/src/cp_disjunctive.rs:60-138 | errors for empty input and the first bad task; otherwise Infeasible exactly when no arc-consistent family exists, or the greatest one with exact counts of removed starts and of passes and the forced precedences |
| GlobalDisjunctive.SupportSearch.SearchCompleteAssignment | crates/prospect-commercial-advanced/src/cp_disjunctive_global.rs:146-172 | true exactly when a complete non-overlapping schedule extends the placement, which is restored; never more nodes than the budget; running out is an error, and only if one node per level and schedule does not fit |
| GlobalDisjunctive.StartsShare | crates/prospect-commercial-advanced/src/cp_disjunctive_global.rs:146-172 | the starts of an open task share the nodes below it, counted as one per level and schedule |
| GlobalDisjunctive.SupportSearch.CandidateHasGlobalSupport | crates/prospect-commercial-advanced/src/cp_disjunctive_global.rs:131-144 | true exactly when a complete schedule starts the task there |
| GlobalDisjunctive.SupportSearch.RunPasses | crates/prospect-commercial-advanced/src/cp_disjunctive_global.rs:93-118 | exactly the supported starts in one or two passes, or infeasible because no schedule exists, or the budget error |
| GlobalDisjunctive.PropagateGlobalDisjunctiveGac | crates/prospect-commercial-advanced/src/cp_disjunctive_global.rs:75-129 | a start stays exactly when a complete non-overlapping schedule of the input uses it; Infeasible only if there is none; the search budget is never exceeded, its exhaustion is never a success, and it comes only if the searches of two passes may need more |
| GlobalDisjunctive.GlobalWithinPairwise | crates/prospect-commercial-advanced/src/cp_disjunctive_global.rs:68-129 | the global result is contained in the pairwise propagator's result |
| MassAllocation.FillingStep | crates/prospect-commercial-advanced/src/optimization.rs:516-524 | giving the next cheapest entry as much as it can take keeps a threshold allocation: cheaper entries full, dearer ones at their least |
| MassAllocation.ThresholdIsWorst | crates/prospect-commercial-advanced/src/optimization.rs:516-538 | a threshold allocation has the least expected payoff of all real allocations within the limits |
| MassAllocation.TruncMonotone | crates/prospect-commercial-advanced/src/optimization.rs:439-464 | division truncated toward zero keeps the order of fractions |
| MassAllocation.TruncMeaning | crates/prospect-commercial-advanced/src/optimization.rs:439-464 | truncated division gives the largest whole number of times the divisor fits into the absolute value, with the sign of the dividend |
| Scenarios.FillCheapest | crates/prospect-commercial-advanced/src/optimization.rs:507-524 | the in-place greedy fills to a least-payoff allocation, and nothing is left over when the upper limits allow the mass |
| Scenarios.WorstCaseExpectedValue | crates/prospect-commercial-advanced/src/optimization.rs:482-538 | the expectation, divided by the probability scale and truncated toward zero, of a probability vector inside the intervals that none undercuts; the errors exactly in their cases, the leftover error never |
| Scenarios.WorstCaseIsLowerBound | crates/prospect-commercial-advanced/src/optimization.rs:482-538 | no probability vector inside the intervals has a smaller truncated expectation |
| Scenarios.TailSum | crates/prospect-commercial-advanced/src/optimization.rs:439-454 | the consumed shares are a least-payoff sub-allocation of the tail mass, and the weighted tail is its payoff |
| Scenarios.TailBelowExpectation | crates/prospect-commercial-advanced/src/optimization.rs:439-464 | the tail payoff per unit of mass is at most the expected payoff |
| Scenarios.SummarizeScenarios | crates/prospect-commercial-advanced/src/optimization.rs:401-466 | expectation, violation mass and the minimal downside tail; the truncated tail mean never exceeds the truncated expectation |
| ParetoFronts.Dominates | crates/prospect-commercial-advanced/src/optimization.rs:321-345 | at least as large in every maximised objective, at least as small in every minimised one, and different in one |
| ParetoFronts.DominanceMeaning | crates/prospect-commercial-advanced/src/optimization.rs:321-345 | dominance spelled out in both directions: maximised values not smaller, minimised values not larger, and some value different |
| ParetoFronts.DominationRow | crates/prospect-commercial-advanced/src/optimization.rs:230-243 | the dominated candidates in order, and the number of dominators |
| ParetoFronts.PeelOne | crates/prospect-commercial-advanced/src/optimization.rs:250-257 | counters keep the number of unpeeled dominators and never underflow; exactly the freed candidates are listed |
| ParetoFronts.FreedIsNextFront | crates/prospect-commercial-advanced/src/optimization.rs:246-262 | what a whole front frees is exactly the next front, each member dominated by someone in the front just before |
| ParetoFronts.NonDominatedFronts | crates/prospect-commercial-advanced/src/optimization.rs:220-265 | sorted non-empty fronts that cover the population, each holding exactly the candidates whose dominators lie in earlier fronts |
| ParetoFronts.ExactlyOneFront | crates/prospect-commercial-advanced/src/optimization.rs:220-265 | every candidate lands in exactly one front |
| ParetoFronts.SingleObjective | crates/prospect-commercial-advanced/src/optimization.rs:220-265 | with one objective the first front holds exactly the candidates of largest value, or of smallest if it is minimised |
| ParetoFronts.DominatorsComeEarlier | crates/prospect-commercial-advanced/src/optimization.rs:220-265 | a dominator stands in a strictly earlier front, so members of one front never dominate each other |
| ParetoFronts.ChainToFront | crates/prospect-commercial-advanced/src/optimization.rs:220-265 | a member of front r ends a chain of r + 1 candidates, each dominating the next |
| ParetoFronts.NoLongerChain | crates/prospect-commercial-advanced/src/optimization.rs:220-265 | no longer chain of dominance ends there: the front number is the longest chain |
| CrowdingDistances.FrontDistances | crates/prospect-commercial-advanced/src/optimization.rs:347-384 | the loops compute for every candidate of a front its crowding distance: infinite, or the sum of its shares over the objectives |
| CrowdingDistances.InfiniteMeansEnd | crates/prospect-commercial-advanced/src/optimization.rs:347-384 | infinitely far are exactly the candidates that are first or last in some objective, and all of a front of at most two; any other distance lies between 0 and the number of objectives |
| CrowdingDistances.ShareIsNeighbourGap | crates/prospect-commercial-advanced/src/optimization.rs:364-381 | the share of an objective is the distance between the two neighbouring values, divided by the range of values, wherever a sort puts them |
| EnvironmentalSelection.EnvironmentalSelect | crates/prospect-commercial-advanced/src/optimization.rs:267-303 | the first candidates of the ranking by front and crowding distance, as many as the limit or the population allows; the errors in their order |
| EnvironmentalSelection.NoBetterRankSkipped | crates/prospect-commercial-advanced/src/optimization.rs:267-303 | no unselected candidate stands in a better front than a selected one |
| EnvironmentalSelection.MostIsolatedFirst | crates/prospect-commercial-advanced/src/optimization.rs:267-303 | a selected candidate carries its front and crowding distance, and nobody of that front who was passed over is farther from its neighbours, or as far with a smaller index |
| EnvironmentalSelection.ExtremesComeFirst | crates/prospect-commercial-advanced/src/optimization.rs:267-303 | in a front of more than two, a candidate that is first or last in some objective is never passed over for one that is not |
| EnvironmentalSelection.SelectedOnce | crates/prospect-commercial-advanced/src/optimization.rs:267-303 | no candidate is selected twice |
| LexicographicSearch.IncumbentMeetsLater | crates/prospect-commercial-advanced/src/operations.rs:179-223 | visiting candidates in lexicographic order and replacing only on strict improvement keeps the first best one |
| LexicographicSearch.EarlierStepsComeFirst | crates/prospect-commercial-advanced/src/operations.rs:179-223 | a smaller step from the same prefix explores candidates that come first |
| WorkforceAssignment.WorkforceSearch.Dfs | crates/prospect-commercial-advanced/src/operations.rs:179-223 | every feasible assignment with the prefix is accounted for, searched or pruned, and the capacities are restored |
| WorkforceAssignment.SolveWorkforceAssignmentExact | crates/prospect-commercial-advanced/src/operations.rs:143-177 | the lexicographically first of the cheapest assignments to eligible workers within capacities, or none because none is feasible |
| Routing.RouteSearch.Dfs | crates/prospect-commercial-advanced/src/operations.rs:269-326 | every tour with the prefix is accounted for, searched or pruned, and route and visited flags are restored |
| Routing.SolveRouteExact | crates/prospect-commercial-advanced/src/operations.rs:237-267 | the lexicographically first of the shortest Hamiltonian cycles through node 0; a single node gives the empty trip; the error for no tour never occurs |

## Left out

- Machine integers: `i64`, `u64` and `i128` are unbounded integers here, so checked-overflow errors and saturating counters do not occur.
- Floating point: `f64` is modelled by exact reals; tests for finite values and the errors they raise do not occur.
- Tolerances of the simplex files: the linear programs are modelled with tolerance 0 and without snapping values to zero, so the tolerance fields and the checks on them are absent. The tolerance of presolve is kept as written.
- `linear_program.rs`: the canonical simplex uses the same pivot and ratio test on a smaller tableau.
- `mixed_integer.rs`, `mip_pipeline.rs`, `integer_relaxation.rs`: their incumbent rules mix tolerances and snapping, so no exact optimality claim follows.
- Graph fingerprints, certificate texts and error messages.
- Sorting and de-duplication of vectors: modelled by functions whose sortedness and contents are proved, not by the library's algorithm.
- Ordered sets and maps of the source: sets and maps here; where their order of iteration matters the elements are sorted explicitly.
- Replenishment policies, real options, portfolios and chance-constraint tests: single sums or scans.
- Tasks of the propagators: the two cumulative propagators share one task type and the two disjunctive propagators another, where the source declares one per file.
- IntegerSolver.IntegerSearch.Search: the initial incumbent value, the smallest machine integer in the source, is represented by the absence of an incumbent.
- CumulativeEnergy.PropagateCumulativeEnergy: exact for the intervals between end points of remaining starts, as the source promises; which schedules a stronger test would exclude is not claimed.
- Search statistics: explored, pruned and backtracked nodes, and the passes and deletions summed over a propagating search, have upper bounds only.
