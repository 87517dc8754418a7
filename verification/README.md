# Monte Carlo schedule simulation with critical-path analysis — a Dafny model

This project models the engine of a project-schedule forecaster. Each task
carries a three-point PERT estimate (optimistic, most likely, pessimistic).
The dictionary of tasks becomes a dependency network:

- successors are derived by inverting the predecessor lists;
- a depth-first search rejects circular dependencies.

One simulation iteration does three things:

- it resets and resamples every task's duration;
- it runs the Critical Path Method: a Kahn forward pass for early times, then a backward pass for late times, float and criticality;
- it records the project duration, the critical path, per-task criticality counts and per-task duration histories.

After the last iteration the counts become percentages. The analytics then compute:

- numpy-style percentiles, confidence intervals and risk figures;
- the critical-task list, sorted by criticality;
- buffer recommendations.

The standalone PERT sampler and the historical calibration are modelled too.

Modelling choices:

- **The task dictionary** is `Network(order, tasks, projectDuration)`. `order` is the dictionary's insertion order and `tasks` maps id to `Task`.
- **Mutation becomes functional update.** Each Python method that mutates tasks in place returns the updated map.
- **Random draws are parameters:**
  - one Beta(4, 4) draw in [0, 1] per task and iteration;
  - a `betaDraw` function for the PERT sampler;
  - a `normalDraw` function for the calibration.
- **Floating point is modelled as real arithmetic.**
- **Python exceptions are `Failure` values of `Result`:**
  - `max([])` on an empty network;
  - a missing network;
  - division by zero runs;
  - a `KeyError` in the critical-task lookup;
  - `np.percentile` outside [0, 100], or on an empty sample.

Modules, one per concern:

| module | covers |
|---|---|
| `TaskModel` (task.dfy) | the task record and its sampler |
| `ProjectNetwork` (network.dfy) | successor inversion and the sampling of all durations |
| `CycleCheck` (cycle.dfy) | the DFS validation |
| `ForwardPass` (forward.dfy) | the Kahn pass |
| `Backward` (backward.dfy) | the late-time pass |
| `NetworkCalculation` (cpm.dfy) | the critical path and `calculate_network` |
| `Pert` (pert.dfy) | the PERT sampler and the calibration |
| `Stats` (stats.dfy) | percentile, mean and exceedance |
| `SimulationRecords` (records.dfy) | the results store |
| `Simulation` (simulation.dfy) | the iteration loop |
| `Analytics` (analytics.dfy) | the analysis of a finished run |
| `Report` (report.dfy) | the run followed by the analysis |
| `Scenario` (scenario.dfy) | a three-task example |
| `ScenarioRun` (scenario_run.dfy) | the example run through both calculations |

The simulation loop follows the code. It resamples with the sampler as
written (`TaskModel.ResetAndSample` over `TaskModel.GenerateDuration`), so a
degenerate task is scheduled with duration 0. It calculates with
`NetworkCalculation.CalculateNetwork`, whose backward pass visits the tasks in
dictionary order. The corrected sampler and the corrected calculation stand
next to them, each with the property the code misses (see Findings).

Where the specification of the system and the code disagree, the model follows the code:

- **Degenerate estimates.** With pessimistic ≤ optimistic, `generate_duration` returns the most likely value but stores nothing. The stored duration stays at the reset value 0, although the specification says the duration is set. `TaskModel.GenerateDuration` follows the code. See Findings.
- **Dangling predecessors** are a fatal load error in the specification. In the code they are only skipped when successors are built, and a task with a dangling predecessor is never dequeued by the forward pass. Its early times keep their reset values. `ForwardPass.CalculateForwardPass` states this.
- **The backward-pass visiting order** is not given in the specification. The code visits tasks in dictionary order, and that order is not a reverse topological order. `NetworkCalculation.CalculateNetwork` follows the code. See Findings.
- **Confidence levels** lie in (0, 1) in the specification. The code accepts any level and fails only when `np.percentile` receives a level outside [0, 100], that is, for a confidence outside [-1, 1].

## Model

| member | source | states |
|---|---|---|
| TaskModel.NewTask | src/task.py:13-39 | A new task keeps its id, predecessors, category and three estimates. All schedule fields start at zero, it is not critical, and it has no successors. |
| TaskModel.Reset | src/task.py:59-67 | Resetting zeroes the duration and all schedule times and clears criticality. The identity, estimates, predecessors and successors are left alone. |
| TaskModel.GenerateDuration | src/task.py:41-57 | A degenerate estimate (pessimistic ≤ optimistic) yields the most likely value and leaves the task untouched. Otherwise the sample is optimistic + draw·(pessimistic − optimistic): it lies within [optimistic, pessimistic] for a draw in [0, 1] and is stored as the duration. |
| TaskModel.ResetAndSample | src/task.py:120-124 | One step of the per-task loop of `generate_all_durations`: reset, then sample. All schedule fields are zero afterwards. A degenerate task keeps the reset duration 0, because the sample is returned but not stored. Any other task gets the scaled draw within its range. |
| TaskModel.DegenerateSampleStoresZero | src/task.py:43-44 | After a reset, a degenerate task's returned sample is the most likely value while its stored duration is 0. The two differ whenever the most likely value is nonzero. |
| TaskModel.GenerateDurationCorrected | src/task.py:41-57 | The corrected sampler always stores the value it returns. A degenerate task stores the most likely value, and any other task samples as before. |
| TaskModel.CorrectedSampleStoresValue | src/task.py:41-57 | After a reset, the corrected sampler's stored duration equals its returned value, even for a degenerate task. |
| ProjectNetwork.BuildSuccessors | src/task.py:84-92 | Successor building changes no key and only replaces each task's successor list. The new list is every task that names it as a predecessor, in dictionary order. |
| ProjectNetwork.Inversion | src/task.py:84-92 | In a built network, x occurs in p's successor list exactly as many times as p occurs in x's predecessor list. An unknown x never occurs. |
| ProjectNetwork.BuildSuccessorsInverts | src/task.py:84-92 | Building successors from any keyed task map gives a well-formed network whose successor lists invert the predecessor lists, counting multiplicity. |
| ProjectNetwork.EdgeIsPredecessor | src/task.py:89-92 | A successor edge a→b exists iff both are tasks and a is among b's predecessors. |
| ProjectNetwork.SameStructureWellFormed | src/task.py:120-124 | Replacing tasks without touching ids, predecessors or successors (as resampling does) keeps the network well formed. |
| ProjectNetwork.GenerateAllDurations | src/task.py:120-124 | Resampling keeps the order, the structure and the project duration. Every task's schedule is reset. Degenerate tasks keep the reset duration 0, and the rest get their scaled draw. |
| ProjectNetwork.SampledDurationsNonNegative | src/task.py:120-124 | With draws in [0, 1] and non-negative optimistic estimates, every sampled duration is non-negative. |
| CycleCheck.RankedAcyclic | src/task.py:94-118 | A ranking that strictly decreases along every successor edge rules out a cycle. It is the certificate a completed DFS leaves behind. |
| CycleCheck.CycleFromStack | src/task.py:99-101 | A successor edge back to a task on the recursion stack closes a cycle. |
| CycleCheck.SearchFrom | src/task.py:99-113 | The recursive `has_cycle`. Reporting a cycle means one exists. Otherwise the visited set only grows, the start is ranked, and the ranking stays decreasing on every finished task. |
| CycleCheck.Validate | src/task.py:94-118 | Validation fails iff the network has a cycle, and the reported task id names a task of the network. |
| CycleCheck.Built | src/task.py:73-92 | Building successors from a keyed task map gives a well-formed network with project duration 0. |
| CycleCheck.NewNetwork | src/task.py:73-82 | Construction succeeds iff the built network is acyclic, and then returns it. On a cycle the error names one of the given tasks. |
| ForwardPass.MaxEarlyFinish | src/task.py:140-143 | The maximum of the listed tasks' early finishes: an upper bound on each that is attained by one of them. |
| ForwardPass.Roots | src/task.py:129-130 | The initial queue holds exactly the listed tasks without predecessors, without repeats, and as a subsequence of the dictionary order. |
| ForwardPass.KahnComplete | src/task.py:132-152 | When the queue runs dry on an acyclic network whose predecessors are all known, every task has been dequeued. |
| ForwardPass.ProcessNext | src/task.py:133-152 | Dequeuing the head processes a task whose predecessors are all done. The in-degree counters, queue, processing order and early times keep their invariant. |
| ForwardPass.DrainedOrder | src/task.py:132-152 | When the queue runs dry, the processing order has no repeats and puts each task after its predecessors. A task with an unknown predecessor was never processed, and on an acyclic network with known predecessors every task was. |
| ForwardPass.DrainedForwardResult | src/task.py:140-155 | When the queue runs dry, the early times and the project duration (the largest early finish) meet `ForwardResult`. |
| ForwardPass.CalculateForwardPass | src/task.py:126-155 | Fails iff the network is empty (`max([])`). The processing order has no repeats and puts each task after its predecessors, and a task with an unknown predecessor is never processed. On an acyclic network with known predecessors all tasks are processed. On success the result meets `ForwardResult`: only early times change, and unprocessed tasks not at all. Each processed task starts at the max early finish of its predecessors (0 without any). The project duration bounds every early finish and is attained by one. |
| Backward.MinLateStart | src/task.py:164-167 | The minimum late start over the listed successors: a lower bound on each that is attained by one of them. |
| Backward.VisitLate | src/task.py:160-171 | Visiting one task changes only its late times. A sink finishes with the project, and any other task finishes at its successors' least current late start. Late start, float and the 0.001 criticality tolerance then follow. |
| Backward.BackwardPass | src/task.py:157-171 | The loop over a visiting order changes only late times. Unvisited tasks are unchanged, and every visited task's late times are consistent with the rule. |
| Backward.BackwardPassReadsEntry | src/task.py:164-167 | When none of a task's successors is visited before it, the task reads their late starts as they were on entry. In the code these are the reset value 0. |
| Backward.TextbookLateFinishAt | src/task.py:157-171 | When the visiting order lists every successor first, each task's late finish is the least final late start of its successors. |
| Backward.BackwardPassSchedule | src/task.py:157-171 | Over a reverse topological visiting order, the pass produces a consistent late schedule. |
| Backward.ScheduleFloatNonNegative | src/task.py:169-170 | With consistent early times, a consistent late schedule gives every visited task a non-negative total float. |
| Backward.CriticalFrom | src/task.py:171 | When non-negative durations and some task finish early at the project duration, some visited task is critical. |
| Backward.BackwardPassCritical | src/task.py:171 | Over a reverse topological order covering all tasks, at least one task is critical. |
| Backward.ScheduleIsTextbook | src/task.py:157-171 | A late schedule over an order covering all tasks satisfies the textbook equations for every task. |
| Backward.BackwardPassTextbook | src/task.py:157-171 | Over a reverse topological order covering all tasks, the pass meets the textbook late-time equations and every float is non-negative. |
| NetworkCalculation.CriticalPath | src/task.py:173-176 | The critical path lists exactly the critical tasks of the dictionary, without repeats, and as a subsequence of the dictionary order. |
| NetworkCalculation.ForwardResultConsistent | src/task.py:126-155 | After a forward pass that processed every task, early times obey the forward equations and no task finishes after the project duration. |
| NetworkCalculation.ReversedProcessingOrder | src/task.py:126-155 | Reversing the forward pass's processing order gives an order in which every successor comes before its predecessor. |
| NetworkCalculation.Finish | src/task.py:178-190 | The summary reports the forward project duration and the critical tasks, without repeats, with the path length and the task count. |
| NetworkCalculation.FinishReports | src/task.py:178-190 | For any visiting order, finishing a forward pass's result meets `Reports` and `FinishedFrom`. Order, structure, durations and forward times are kept. The project duration is the largest early finish. The critical path lists each critical task once, and the path length and task count are reported. |
| NetworkCalculation.CalculateNetwork | src/task.py:178-190 | Fails iff the network is empty (`max([])`). On success the result is exactly the backward pass, in dictionary order, over the forward pass's result (`FinishedFrom` with the ghost output `fw`). It meets `Reports`, and every task's late times follow the rule for the moment it is visited. |
| NetworkCalculation.CorrectedPreconditions | src/task.py:126-171 | The forward pass's results meet everything the textbook backward pass needs: successors known, a reverse topological visiting order covering all tasks, and consistent early times. |
| NetworkCalculation.CorrectedSchedule | src/task.py:157-171 | Finishing over a reverse topological order covering every task gives textbook late times and no negative float. |
| NetworkCalculation.CorrectedCritical | src/task.py:171-176 | Over such an order, and with non-negative durations, the critical path is nonempty. |
| NetworkCalculation.CorrectedFinish | src/task.py:126-176 | When every task was processed, finishing in reverse processing order gives textbook late times, no negative float, and, with non-negative durations, a nonempty critical path. |
| NetworkCalculation.CalculateNetworkCorrected | src/task.py:178-190 | Fails iff the network is empty. Otherwise the result is the backward pass, in reverse processing order, over the forward pass's result (`FinishedFrom`), and it meets `Reports`. An acyclic network with known predecessors gets the textbook late times and non-negative floats. With non-negative durations its critical path is nonempty. |
| Pert.RawShape | src/monte_carlo.py:87-95 | The Beta shapes derived from the PERT mean are 1 + 4(m − o)/(p − o) and 1 + 4(p − m)/(p − o), and they sum to 6. |
| Pert.Clamp | src/monte_carlo.py:98-99 | Each shape is raised to at least 0.1, and a shape already at or above 0.1 is kept. |
| Pert.ClampIsIdentityWhenOrdered | src/monte_carlo.py:94-99 | With o ≤ m ≤ p and o < p both shapes lie in [1, 5], so the clamp never fires. |
| Pert.PertDistribution | src/monte_carlo.py:75-103 | A degenerate range returns the most likely value. Otherwise the sample's position in [o, p] is the Beta draw at the clamped shapes, and it stays in [o, p] for a draw in [0, 1]. |
| Pert.Clip | src/monte_carlo.py:119 | `np.clip`: the value itself within the bounds, otherwise the nearer bound. |
| Pert.ApplyHistoricalCalibration | src/monte_carlo.py:105-121 | An unknown category leaves the duration unchanged. A known category with a negative spread fails, as `np.random.normal` raises `ValueError` for a negative scale. Otherwise the duration is multiplied by the normal draw clipped to [0.5, 3.0], so it stays between 0.5 and 3 times the input. |
| Stats.MeanBounds | src/monte_carlo.py:233 | The mean lies between any common lower and upper bound of the sample. |
| Stats.Min | src/monte_carlo.py:275 | `np.min`: a lower bound of the sample attained by one of its values. |
| Stats.Max | src/monte_carlo.py:276 | `np.max`: an upper bound of the sample attained by one of its values. |
| Stats.Sort | src/monte_carlo.py:226-232 | The ascending rearrangement the percentiles read: sorted and a permutation of the sample. |
| Stats.SortEnds | src/monte_carlo.py:226-232 | The sorted sample starts at the minimum and ends at the maximum. |
| Stats.PercentileOfSorted | src/monte_carlo.py:226-232 | Linear interpolation between neighbouring order statistics stays within the sample's range. |
| Stats.PercentileWithinRange | src/monte_carlo.py:226-232 | Every percentile lies between the sample's minimum and maximum. |
| Stats.PercentileMonotone | src/monte_carlo.py:226-232 | The percentile never decreases as the level grows. |
| Stats.CountAboveAntitone | src/monte_carlo.py:259-261 | A higher bar is exceeded by no more values. |
| Stats.FractionAbove | src/monte_carlo.py:259 | `np.mean(d > c)` is a probability in [0, 1]. |
| Stats.FractionAboveAntitone | src/monte_carlo.py:259-261 | The exceedance probability never grows with the bar. |
| Stats.AtLeast | src/monte_carlo.py:263 | `d[d >= c]` keeps each value at or above c as often as it occurs and drops every other value. The result is a subsequence of the sample, so the sample's order is kept. |
| SimulationRecords.EmptyResults | src/monte_carlo.py:26-32 | A new simulator has no durations, paths, histories or counters. |
| SimulationRecords.Bump | src/monte_carlo.py:142-143 | `defaultdict(int)` increment: only x's counter grows, by one, and x is added to the keys if missing. |
| SimulationRecords.BumpAllCounts | src/monte_carlo.py:142-143 | Each counter grows by the number of times its id occurs in the critical path, and only ids of the path gain counters. |
| SimulationRecords.AppendDurations | src/monte_carlo.py:146-147 | Each task's history gains its current duration, and no other history changes. |
| SimulationRecords.DistinctBumps | src/monte_carlo.py:142-143 | Bumping with a path without repeats adds exactly one to each path task's counter and creates counters only for path tasks. |
| SimulationRecords.IterationFacts | src/monte_carlo.py:123-153 | Recording one calculation appends the project duration and critical path. It bumps the critical tasks' counters and appends each task's resampled duration, as written (0 for a degenerate task). |
| SimulationRecords.ToPercentages | src/monte_carlo.py:211-214 | Every counter becomes count / runs · 100. The conversion fails iff there are no runs and some counter exists. |
| SimulationRecords.PercentageBounds | src/monte_carlo.py:211-214 | A count of at most n out of n > 0 runs becomes a percentage within [0, 100]. |
| SimulationRecords.PercentageFacts | src/monte_carlo.py:211-214 | Converted counters exist exactly for tasks critical in some run, each equals its share of runs · 100, and each lies in [0, 100]. |
| SimulationRecords.LoopStart | src/monte_carlo.py:205 | Before the first iteration the loop's bookkeeping holds. |
| SimulationRecords.LoopStep | src/monte_carlo.py:205-209 | Each recorded iteration extends the bookkeeping by one duration, one path, the matching counts and one sampled duration per task. |
| SimulationRecords.FreshSummary | src/monte_carlo.py:198-214 | From empty results, after n runs each task's history is its n sampled durations, and n durations and n paths are recorded. Each percentage is the share of paths containing the task and lies in [0, 100]. |
| SimulationRecords.FreshHistories | src/monte_carlo.py:146-147 | From empty results, each task's history after the last run is exactly its sampled durations, run by run, as the sampler as written stores them. |
| Simulation.RunSingleIteration | src/monte_carlo.py:123-153 | Fails iff no network is loaded or the network is empty. Otherwise it resamples with the sampler as written and records the outcome. The recorded network, duration and critical path are exactly `calculate_network` as written on the resampled network (`AsWritten`: the backward pass in dictionary order over the forward pass's result). |
| Simulation.RunIterations | src/monte_carlo.py:205-209 | The loop runs one iteration per draw map and fails iff some iteration runs on an empty network. On success the bookkeeping covers every draw. |
| Simulation.RunSimulation | src/monte_carlo.py:198-217 | Fails iff no network is loaded, some iteration runs on an empty network, or there are counters with zero runs. From empty results the final state is the run's summary: histories, paths and percentages as above. |
| Analytics.Above | src/monte_carlo.py:290-291 | Selects exactly the counted ids whose percentage is above the threshold. |
| Analytics.InsertByCriticality | src/monte_carlo.py:302-304 | Inserting into a non-increasing list keeps it non-increasing and adds exactly the new row. |
| Analytics.InsertKeepsTies | src/monte_carlo.py:302-304 | Insertion puts a row behind all earlier rows of equal criticality, as a stable sort must. |
| Analytics.SortByCriticality | src/monte_carlo.py:302-304 | The sort is non-increasing and a permutation of its input. |
| Analytics.SortIsStable | src/monte_carlo.py:302-304 | For every criticality level, the rows at that level keep their input order, as Python's `sorted` guarantees. |
| Analytics.RowsMembers | src/monte_carlo.py:292-300 | The rows are exactly the described selected tasks. |
| Analytics.IdentifyCriticalTasks | src/monte_carlo.py:287-304 | Fails iff some counted id above the threshold is not a task (`KeyError`), and then names such an id. Otherwise it lists exactly the tasks above the threshold, each described by its task, sorted by decreasing criticality. |
| Analytics.CriticalTiesInCounterOrder | src/monte_carlo.py:290-304 | Critical tasks of equal criticality appear in the order of their counters. |
| Analytics.PercentileTable | src/monte_carlo.py:225-235 | P10 ≤ P25 ≤ P50 ≤ P75 ≤ P80 ≤ P90 ≤ P95, all within [min, max], and the mean within [min, max]. |
| Analytics.ConfidenceInterval | src/monte_carlo.py:245-254 | Fails iff the level is outside [-1, 1]. Both bounds lie within [min, max], the range is upper − lower, and a non-negative level gives lower ≤ upper. |
| Analytics.IntervalsNest | src/monte_carlo.py:244-254 | A higher confidence level gives an interval containing the lower level's interval. |
| Analytics.ConfidenceIntervals | src/monte_carlo.py:244-254 | One interval per level, each the level's own interval. The loop fails iff some level is out of range, and it reports the first such level. |
| Analytics.RiskAnalysis | src/monte_carlo.py:256-264 | The three exceedance probabilities lie in [0, 1], and the sample is never entirely above its mean. Value at risk ≤ expected shortfall, both within [min, max]. |
| Analytics.NotAllAboveMean | src/monte_carlo.py:259 | At least one value is at or below the mean, so the probability over the mean is below 1. |
| Analytics.RiskOrdering | src/monte_carlo.py:259-261 | For non-negative durations, exceeding twice the mean is no likelier than exceeding 1.5 times it, which is no likelier than exceeding the mean. |
| Analytics.BufferRecommendations | src/monte_carlo.py:365-394 | Four scenarios target P50, P75, P90 and P95 with success labels 50/75/90/95. The aggressive buffer is 0, and every other buffer brings the mean up to its target. |
| Analytics.BuffersOrdered | src/monte_carlo.py:365-394 | Targets and buffers grow from aggressive to very conservative. |
| Analytics.Analyze | src/monte_carlo.py:219-285 | Fails on an empty duration list, on an unknown critical id and on an out-of-range level, and succeeds otherwise. On success: the task and run counts, min ≤ P10, P95 ≤ max, the mean within [min, max], value at risk = P95, the buffers from the percentiles, one interval per level, and only tasks above 50 %. Each field is its component's result on the recorded durations: mean, min and max, `PercentileTable`, `ConfidenceIntervals`, `IdentifyCriticalTasks` and `RiskAnalysis`, so the properties proved of those carry over. |
| Report.RunSimulationReport | src/monte_carlo.py:198-217 | The simulation fails exactly as `RunSimulation` does. From empty results on a nonempty network with runs, only an out-of-range confidence level can fail the analysis. The report then covers every run and all tasks, and its critical tasks lie in (50, 100]. |
| Report.AnalyzeCompletedRun | src/monte_carlo.py:219-304 | After a completed run, the analysis succeeds iff every level is in [-1, 1]. The critical-task lookup cannot fail, and every reported criticality is at most 100. |
| Report.CountedIdsAreTasks | src/monte_carlo.py:290-292 | After a completed run every counted id is a task, and every counter is at most 100. |
| Scenario.ForwardTimes | src/task.py:126-155 | In the three-task example (a→b, a→c with durations 2, 3, 1), the early times obey the forward equations and the project lasts 5. |
| Scenario.DictionaryOrderMissesFirst | src/task.py:157-171 | Visiting a, b, c in dictionary order gives a a late finish of 0 and a float of −2. Only b is critical, so the reported path is [b]. |
| Scenario.ReverseOrderLateFinishes | src/task.py:157-171 | Visiting c, b, a, the sinks finish at 5 and a finishes at 2. |
| Scenario.ReverseOrderFindsFirst | src/task.py:157-171 | Visiting c, b, a, a has float 0 and is critical, and the critical path is [a, b]. |
| ScenarioRun.SampledExampleAcyclic | src/task.py:94-118 | The example network, as sampling leaves it, has no dangling predecessor and no cycle. |
| ScenarioRun.SampledExampleForward | src/task.py:126-155 | Whatever the processing order, the forward pass on the example gives a [0, 2], b [2, 5], c [2, 3] and a project of 5. |
| ScenarioRun.DictionaryOrderOnExample | src/task.py:157-190 | Finishing the example's forward pass in dictionary order leaves a with late finish 0 and float −2, and reports the path [b]. |
| ScenarioRun.CalculateSampledExample | src/task.py:178-190 | `calculate_network` as written, on the example: it succeeds, a has late finish 0 and float −2, and the critical path is [b]. |
| ScenarioRun.TextbookFindsFirst | src/task.py:157-176 | Any late schedule of the example that meets the textbook equations gives a late finish 2, float 0 and criticality, and the critical path [a, b]. |
| ScenarioRun.TextbookOnExample | src/task.py:157-190 | A textbook finish of the example's forward pass in reverse processing order gives a float 0 and the path [a, b]. |
| ScenarioRun.CalculateSampledExampleCorrected | src/task.py:178-190 | The corrected calculation on the example: it succeeds, a has late finish 2 and float 0, and the critical path is [a, b]. |

## Left out

- The sensitivity index (`calculate_sensitivity_index`, src/monte_carlo.py:306-334) is not modelled. It needs `np.corrcoef` and `np.var`, which are floating-point statistics with NaN behaviour on constant series. `Analytics.Analyze` therefore omits its failure modes.
- Category analysis (src/monte_carlo.py:336-363) is not modelled for the same reason.
- The sample standard deviation `np.std` is not modelled: neither the percentile table's entry (src/monte_carlo.py:234) nor the summary's (src/monte_carlo.py:274). It needs a square root. The task's PERT standard deviation (P − O) / 6 is modelled (`TaskModel.StdDev`), and every critical-task row carries it.
- File and configuration input is not modelled: CSV reading in `load_project_data`, YAML configuration, and the legacy `load_data`. The model starts from the parsed task map that `NewNetwork` receives.
- The legacy `simulate_single_run` is not modelled. Its two samplers, `Pert.PertDistribution` and `Pert.ApplyHistoricalCalibration`, are.
- `get_task_statistics` is not modelled. It is a read-only copy of the task fields, and its result is never read by the core.
- Printing and progress output, CSV export, the visualizer and the command-line entry point are not modelled.
- Randomness is not modelled. `stats.beta.rvs`, `np.random.beta` and `np.random.normal` become parameters, and a seedable generator is outside the model.
- Floating-point rounding is not modelled: all arithmetic is on reals. The 0.001 criticality tolerance is kept as written.
- Analytics.ConfidenceIntervals: returns the intervals as a list in level order. The source keys them by the label `f'{confidence:.0%}'`, so two levels with the same rounded label overwrite each other; label formatting is not modelled.
- Analytics.BuffersOrdered: states the ordering only for percentile tables computed from a sample, not for arbitrary dictionaries.
- Simulation.RunSimulation: states the summary property only when the simulator starts from empty results with a positive run count. Re-running on accumulated results is modelled, but only its failure cases and run count are stated.
- Report.RunSimulationReport: the summary clauses assume empty initial results, for the same reason.
- CycleCheck.SearchFrom: the recursive `has_cycle` (src/task.py:99-117) raises `RecursionError` on a dependency chain deeper than Python's recursion limit (about 1000 frames). The model has no recursion limit and returns a verdict for any depth, and so do `CycleCheck.Validate` and `CycleCheck.NewNetwork`.

## Findings

| source | as written | input that shows it | evidently intended | confidence | as-written member | corrected member |
|---|---|---|---|---|---|---|
| src/task.py:157-171 | The backward pass visits tasks in dictionary order. A task listed before its successors reads their reset late start 0. | Tasks a (duration 2), b (3, after a) and c (1, after a), listed a, b, c. The project lasts 5, but a gets late finish 0 and float −2, and the critical path is [b]. | Visit tasks in reverse topological order, e.g. the forward pass's processing order reversed. a then gets late finish 2 and float 0, and the critical path is [a, b]. | not executed | NetworkCalculation.CalculateNetwork, ScenarioRun.CalculateSampledExample | NetworkCalculation.CalculateNetworkCorrected, ScenarioRun.CalculateSampledExampleCorrected |
| src/task.py:43-44 | For pessimistic ≤ optimistic, `generate_duration` returns the most likely value without storing it. After `generate_all_durations` the task's duration is the reset value 0. | A task with optimistic = most likely = pessimistic = 5. It returns 5, but the network schedules it with duration 0. | Store the most likely value as the duration before returning it. The simulation loop keeps the code's behaviour; the corrected sampler is stated beside it. | not executed | TaskModel.GenerateDuration, TaskModel.DegenerateSampleStoresZero | TaskModel.GenerateDurationCorrected, TaskModel.CorrectedSampleStoresValue |
