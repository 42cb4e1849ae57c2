# Verification of the campaign engine, the context pager and the terminal text filters

This project models five parts of the repository in Dafny and proves what each of them is for.

* **Pareto ranking and promotion.** The counter-based non-dominated sort is refined from the plain
  definition "peel off whatever nobody left dominates"; crowding distance, the two-objective
  hypervolume sweep and the choice of escalation candidates are proved on top of it.
  (`Ranking`, `Dominance`, `FastSort`, `Pareto`, `Staircase`, `Hypervolume`, `Crowding`,
  `CrowdingBounds`, `FidelityLadder`, `Escalation`, with `Sorting`, `Sequences`, `Arithmetic` and
  `CampaignTypes` below them.)
* **Design of experiments.** The 32-bit generator and its period, Latin hypercube sampling with its
  in-place shuffle, and the mixed-radix counter behind the full-factorial grid.
  (`Lcg`, `LatinHypercube`, `FactorialGrid`, `DesignSpace`.)
* **Campaign store and workers.** Store instances that share one state file, the reference-counted
  lock pool, the incremental reader of the evaluation log with its LRU cache, and a batch of workers.
  Concurrency is modelled as state machines: one step is what an asynchronous operation does between
  two awaits, and the theorems hold for every interleaving of steps.
  (`CampaignState`, `StoreProtocol`, `LockPool`, `EvalLog`, `EvalCache`, `BestFidelity`, `WorkerPool`.)
* **Demand-paged context.** The pager with its budget, tiers, ageing and drop records. (`ContextPager`.)
* **Streams and widths.** The bracketed-paste accumulator, the terminal sanitizer and width-aware
  truncation and wrapping. (`PasteMarkers`, `PasteAccumulator`, `PasteSession`, `TerminalSanitizer`,
  `TextWidth`.)

Code that updates fields or arrays is a class or a method with loops, tied by its `ensures` to a
specification function; the lemmas about that function are where the properties are. Numbers are
`int` or `real`; 32-bit arithmetic and the limits 4096, 64 and the cache cap are written out.

`dafny verify dfyconfig.toml` is the command for the whole project.

## Where the code is not what its comments or callers suggest

* Infeasible results are dropped. There is no rank 9999 (`src/coordination/ParetoAnalyzer.ts:22-23`
  against line 33), and the sweep's reference point is [1, 1], not [0, 0] (lines 151 and 181).
* A missing objective is the best possible value when it is maximised: a feasible result that carries
  none takes the whole front (`Pareto.EmptyResultTakesTheFront`), and `Pareto.BetterThanComplete` says
  exactly when an incomplete result pushes a complete one off it. Crowding and hypervolume take the same
  value to be 0 (`CampaignTypes.MissingCountsAsZero`).
* `transitionPhase` does not reload, so a stale instance erases completions
  (`StoreProtocol.StaleTransitionLosesCompletion`); `StoreProtocol.TransitionEffect` says exactly when
  it does what it should.
* `markFailed` reloads first, but a `reload()` of the same instance begun outside the lock can deliver
  an old state while it awaits its snapshot, with the same loss
  (`StoreProtocol.LateReloadLosesCompletion`); `StoreProtocol.MarkFailedEffect` says exactly when not.
  `CampaignState.StaleEffect` does so for the reload that keeps the old state on a busy file, and
  `StoreProtocol.BusyReadLosesCompletion` is a run where that erases a completion.
* `getBestFidelityEvaluations` promises the highest-fidelity result of each point, but drops infeasible results
  first: a point found infeasible at high fidelity is ranked by another, feasible result
  (`BestFidelity.InfeasibleRefinementIsIgnored`, and exactly then: `BestFidelity.RepresentedByHighestFidelity`).
* A log write that throws just after `completeTask` sends a job to the catch block, and its id ends in
  both lists (`WorkerPool.LogFailureRecordsBoth`, and exactly then: `WorkerPool.RecordedTwiceExactly`).
  Without a slot nothing runs and every id stays pending (`WorkerPool.NoSlotsNoWork`).
* The skip branch of `renderForTurn` is unreachable even with sticky pages; the comment in
  `src/context/types.ts:145` claims it only for callers that use none.
* A reset between the two halves of a paste marker loses the marker, and the paste stays open
  (`PasteSession.ResetDropsHalfMarker`); `PasteSession.ResetIsHarmlessExactly` gives the tails for which
  nothing is lost.
* The sanitizer takes an escape sequence to be two characters, so a longer one leaves its remaining
  characters behind (`TerminalSanitizer.EscapeVanishesExactly`).
* A log file replaced by one that is not shorter is read on from the old offset;
  `EvalCache.ReplacedLogIsMisread` gives such a file, `EvalCache.ReplacementIsReadExactly` says when the new
  file's results come out all the same.
* The shuffle cannot produce every arrangement of 13 or more elements, whatever the seed
  (`LatinHypercube.SomeArrangementIsNeverDrawn`).
* Wrapping at one column cannot fit a wide glyph, and wrapping at zero or less returns the text as one
  line; `TextWidth.WrapToWidth` states exactly when all lines fit.

## Model

| member | source | states |
|---|---|---|
| Dominance.DominanceRelation | src/coordination/ParetoAnalyzer.ts:138-148 | 1 exactly when a dominates b, -1 exactly when b dominates a, and nothing but 1, -1 and 0 |
| Dominance.DominatesTransitive | src/coordination/ParetoAnalyzer.ts:138-148 | dominance is transitive |
| Dominance.DominanceStrict | src/coordination/ParetoAnalyzer.ts:138-148 | over any list of vectors dominance is irreflexive and transitive |
| Sorting.SortIsStable | src/coordination/ParetoAnalyzer.ts:108-112 | sorting keeps elements that order the same in their order |
| Ranking.MinimalBelow | src/coordination/ParetoAnalyzer.ts:65-83 | every member of a set is non-dominated in it or dominated by one that is |
| Ranking.LayersCover | src/coordination/ParetoAnalyzer.ts:65-83 | repeated peeling reaches every member, so the peeling loop ends with all placed |
| Ranking.LayersDisjoint | src/coordination/ParetoAnalyzer.ts:65-83 | no member is in two layers |
| Ranking.LayersRespectOrder | src/coordination/ParetoAnalyzer.ts:65-83 | a dominator is in a strictly earlier layer than what it dominates |
| Ranking.DominatedFromPrevious | src/coordination/ParetoAnalyzer.ts:65-83 | every member of layer k+1 has a dominator in layer k |
| Ranking.LayerIsLongestChain | src/coordination/ParetoAnalyzer.ts:65-83 | a member is in layer k if and only if the longest dominance chain that ends at it has k+1 members |
| FastSort.CountDominators | src/coordination/ParetoAnalyzer.ts:48-63 | after the nested loops each counter is the number of dominators and each list holds exactly the dominated indices, once each and ascending |
| FastSort.FirstFront | src/coordination/ParetoAnalyzer.ts:69-71 | the indices with counter 0, ascending, are the non-dominated ones |
| FastSort.ReleaseVictims | src/coordination/ParetoAnalyzer.ts:77-80 | when one front member goes, counters stay exact for those left, and exactly the indices that lost their last dominator are appended, once each and ascending |
| FastSort.FreedIsNextLayer | src/coordination/ParetoAnalyzer.ts:75-82 | the indices whose counters reach 0 during one layer are the non-dominated ones of what is left |
| FastSort.NextLayer | src/coordination/ParetoAnalyzer.ts:75-82 | one turn of the while loop computes the next layer of the specification, ordered by the last dominator in the front and then by index, and keeps the counters exact |
| FastSort.PeelLayers | src/coordination/ParetoAnalyzer.ts:65-83 | the loop terminates with the layers of the specification, none empty and none missing, each in the order its members are freed |
| FastSort.SortLayers | src/coordination/ParetoAnalyzer.ts:47-83 | counting and decrementing computes exactly the layers of repeated peeling, in that order, for every input |
| FastSort.RankingIsUnique | src/coordination/ParetoAnalyzer.ts:65-83 | the layers and the order inside them determine the result: two lists that have both are equal |
| Pareto.Analyze | src/coordination/ParetoAnalyzer.ts:26-93 | the ranks are the peeled layers of the feasible results, in freed order; rank1 is the first; a hypervolume is given exactly for two objectives and a non-empty front, and is that of rank1 |
| Pareto.RanksPartition | src/coordination/ParetoAnalyzer.ts:65-83 | the ranks together hold every feasible result exactly as often as the input |
| Pareto.RanksRespectDominance | src/coordination/ParetoAnalyzer.ts:65-83 | a result that dominates another is in a strictly earlier rank |
| Pareto.RanksAreTight | src/coordination/ParetoAnalyzer.ts:73-82 | every member of a later rank is dominated by one in the rank just before |
| Pareto.FirstRankIsParetoFront | src/coordination/ParetoAnalyzer.ts:85 | a result is in the first rank if and only if no result dominates it |
| Pareto.MissingObjectiveValue | src/coordination/ParetoAnalyzer.ts:39-45 | a missing objective beats every present value when maximised and loses to it when minimised |
| CampaignTypes.MissingCountsAsZero | src/coordination/ParetoAnalyzer.ts:107-122 | in crowding and hypervolume a missing objective counts as one of value 0 |
| Pareto.BetterInSourceTerms | src/coordination/ParetoAnalyzer.ts:39-45 | for any two results, values missing or not: one dominates the other if and only if it is no worse on all objectives and the other is not |
| Pareto.FrontInSourceTerms | src/coordination/ParetoAnalyzer.ts:39-45 | a result is in the first rank if and only if whatever is no worse on all objectives is matched by it on all of them |
| Pareto.BetterThanComplete | src/coordination/ParetoAnalyzer.ts:39-45 | a result pushes a complete one off the front if and only if all it misses is maximised, it is as good on the rest, and it misses something or is better somewhere |
| Pareto.EmptyResultTakesTheFront | src/coordination/ParetoAnalyzer.ts:39-45 | with all objectives maximised, a feasible result that carries none is in the first rank and every complete result is not |
| Pareto.FrontHypervolumeCountsCells | src/coordination/ParetoAnalyzer.ts:88-90 | on the first rank, with whole-number objectives, hypervolume times both ranges is the number of grid cells some front point covers |
| Staircase.SweepCountsRegion | src/coordination/ParetoAnalyzer.ts:181-188 | for integer points going right and down, the sum of the sweep's rectangles is the number of covered cells |
| Hypervolume.SweepArea | src/coordination/ParetoAnalyzer.ts:181-188 | the loop adds up the rectangles from the right edge, each against the next point's height |
| Hypervolume.HypervolumeInUnit | src/coordination/ParetoAnalyzer.ts:155-190 | for any front the sweep's value is between 0 and 1 |
| Hypervolume.Hypervolume2D | src/coordination/ParetoAnalyzer.ts:155-190 | the result is the sweep over the normalised points sorted by x; it is in [0, 1], so the final maximum never changes it |
| Hypervolume.HypervolumeCountsCells | src/coordination/ParetoAnalyzer.ts:155-190 | for any front of mutually non-dominated whole-valued points, in any order, the scaled hypervolume counts the covered cells |
| Hypervolume.SpanIsRange | src/coordination/ParetoAnalyzer.ts:155-170 | an objective's scale is the largest difference within the front, or 1 if there is none |
| Hypervolume.CellsInSourceTerms | src/coordination/ParetoAnalyzer.ts:155-190 | the cells counted are those (a, b) within both scales for which some result lies at most a and b behind every other, in the objectives' directions |
| Crowding.AddObjective | src/coordination/ParetoAnalyzer.ts:107-127 | one objective's pass: with unique ids the point at an inner sorted position gains an amount that, times last minus first value, is the next value minus the previous, and nothing if all values are equal; infinite at both ends; with repeated ids the amounts of all positions of the id |
| Crowding.CrowdingDistance | src/coordination/ParetoAnalyzer.ts:99-129 | the map has exactly the front's ids; infinite for fronts of at most two; with unique ids a point at no end of any order has the sum over the objectives of those amounts |
| Crowding.InnerContributes | src/coordination/ParetoAnalyzer.ts:121-126 | every point at no end of any objective's order has such an amount for each objective |
| CrowdingBounds.CrowdWithinObjectiveCount | src/coordination/ParetoAnalyzer.ts:107-127 | with unique ids a distance is infinite or lies between 0 and the number of objectives |
| CrowdingBounds.CrowdWithinTwiceObjectiveCount | src/coordination/ParetoAnalyzer.ts:107-127 | even where ids repeat it is infinite or between 0 and twice that number |
| CrowdingBounds.CrowdInfiniteAtEnds | src/coordination/ParetoAnalyzer.ts:117-119 | a distance is infinite if and only if the id is at an end of the sorted order of some objective |
| CrowdingBounds.GapsTelescope | src/coordination/ParetoAnalyzer.ts:121-126 | the gaps of the first k sorted positions, times the whole range, telescope to two end differences; they are 0 if all values are equal |
| CrowdingBounds.FiniteCrowdingAtMostTwicePerObjective | src/coordination/ParetoAnalyzer.ts:99-129 | the finite distances of a front with unique ids sum to at most twice the number of objectives |
| FidelityLadder.TakeMostIsolated | src/coordination/FidelityLadder.ts:137-145 | from a rank too large, exactly `need` results are taken, the largest crowding distance first and at equal distance in rank order, and none left has a larger one than one taken |
| FidelityLadder.SelectResults | src/coordination/FidelityLadder.ts:125-149 | whole ranks first, then the most isolated of the cut rank in that order: min(count, ranked) results in all |
| FidelityLadder.SelectEscalationCandidates | src/coordination/FidelityLadder.ts:120-150 | the design points of such a selection; none for a count of 0 or less |
| FidelityLadder.NoUnselectedDominatesSelected | src/coordination/FidelityLadder.ts:120-150 | no ranked result left out dominates a selected one |
| FidelityLadder.PlanEscalation | src/coordination/FidelityLadder.ts:159-172 | a plan exists exactly at the two escalating checkpoints; its next phase is a valid transition, its fidelity and count belong to that phase, and its candidates are such a selection |
| Escalation.RanksHaveUniqueIds | src/coordination/CampaignMonitor.ts:346-354 | results with unique ids give ranks with unique ids |
| Escalation.SelectionHasUniqueIds | src/coordination/CampaignMonitor.ts:354-361 | and a selection in which no design point occurs twice |
| Escalation.PlanDistancesAreBounded | src/coordination/CampaignMonitor.ts:346-361 | so, ranking the best result of each point, finite crowding distances lie within the number of objectives and sum to at most twice it, in every rank |
| Escalation.PlanFromEvaluations | src/coordination/CampaignMonitor.ts:346-370 | work is dispatched if and only if some result is feasible and the phase asks for candidates; then to different points, chosen from the ranks of the best feasible result of each point |
| Lcg.SeededRandom.constructor | src/coordination/DOESampler.ts:29-31 | the state is the seed reduced to 32 bits |
| Lcg.SeededRandom.Next | src/coordination/DOESampler.ts:34-37 | one step of the recurrence on 32-bit states, and the number new state / 2^32, in [0, 1) |
| Lcg.StepIsAffine | src/coordination/DOESampler.ts:34-37 | the signed 32-bit product does not matter: the step is multiplication and addition modulo 2^32 |
| Lcg.GeometricValuation | src/coordination/DOESampler.ts:34-37 | for a multiplier that is 1 modulo 4, 2^k divides 1+a+...+a^(n-1) if and only if it divides n |
| Lcg.OrbitCloses | src/coordination/DOESampler.ts:34-37 | modulo 2^k, with odd increment too, n steps return to the start if and only if 2^k divides n |
| Lcg.FullPeriod | src/coordination/DOESampler.ts:26-38 | from any seed, n draws return to the starting state if and only if n is a multiple of 2^32 |
| Lcg.StatesRepeatWithPeriod | src/coordination/DOESampler.ts:26-38 | two draws leave the same state if and only if they are a whole number of periods apart |
| Lcg.StepInjective | src/coordination/DOESampler.ts:34-37 | no two 32-bit states have the same successor |
| Lcg.EveryStateIsDrawn | src/coordination/DOESampler.ts:26-38 | from any seed every 32-bit state is reached within one period |
| LatinHypercube.DrawPartner | src/coordination/DOESampler.ts:104 | the partner j drawn for position i lies in 0..i with j/(i+1) <= state/2^32 < (j+1)/(i+1), and one draw is consumed |
| LatinHypercube.DrawnExactly | src/coordination/DOESampler.ts:104 | partner j is drawn for position i if and only if the state lies in the j-th of i+1 equal shares |
| LatinHypercube.EveryPartnerIsDrawn | src/coordination/DOESampler.ts:104 | for up to 2^32 partners each of them is drawn from some state |
| LatinHypercube.ShuffledKeepsRest | src/coordination/DOESampler.ts:102-107 | the swaps from position i down permute the first i+1 elements and leave the rest |
| LatinHypercube.EveryArrangementHasDraws | src/coordination/DOESampler.ts:102-107 | every rearrangement is the outcome of some sequence of swap partners within range |
| LatinHypercube.DrawsAreDetermined | src/coordination/DOESampler.ts:102-107 | and, of different elements, of only one: the swaps themselves favour no arrangement |
| LatinHypercube.SomeArrangementIsNeverDrawn | src/coordination/DOESampler.ts:26-38 | but the generator does: of 13 or more different elements there is an arrangement that comes from none of its 2^32 states |
| LatinHypercube.Shuffle | src/coordination/DOESampler.ts:103-106 | the in-place loop performs exactly the swaps the generator draws, all indices in range |
| LatinHypercube.SampleInStratum | src/coordination/DOESampler.ts:97-99 | the i-th sample lies in [i/n, (i+1)/n) for every generator state, its offset in the stratum being state / 2^32 |
| LatinHypercube.SampleStrata | src/coordination/DOESampler.ts:97-99 | one sample per stratum, in order, from consecutive generator states |
| LatinHypercube.FillStrata | src/coordination/DOESampler.ts:97-99 | one fresh array per variable, each from where the previous one left the generator |
| LatinHypercube.ShuffleAll | src/coordination/DOESampler.ts:102-107 | each variable's array is shuffled with its own draws, independently of the others |
| LatinHypercube.RearrangedStrata | src/coordination/DOESampler.ts:102-107 | a rearrangement of one sample per stratum still has exactly one sample in each stratum |
| LatinHypercube.ColumnIsStratified | src/coordination/DOESampler.ts:91-116 | for every seed, n and number of variables, each variable has exactly one sample in each [k/n, (k+1)/n) |
| LatinHypercube.SampleOfPoint | src/coordination/DOESampler.ts:91-116 | point i's sample of variable v lies in the stratum that the shuffle with that variable's own draws put at place i, with the offset of that stratum's own draw |
| LatinHypercube.Lhs | src/coordination/DOESampler.ts:91-116 | n points (none for n <= 0); point i maps each variable's i-th shuffled sample to its value |
| LatinHypercube.ContinuousValueInStratum | src/coordination/DOESampler.ts:62-66 | a sample is in stratum k if and only if its continuous value is in the k-th n-th of the bounds |
| DesignSpace.IntegerIsNearest | src/coordination/DOESampler.ts:67-70 | an integer variable takes the whole number nearest to lo + t(hi - lo), halves upwards |
| DesignSpace.ListedInEqualShares | src/coordination/DOESampler.ts:71-73 | a listed variable takes its k-th value exactly on the k-th of equal shares of [0, 1) |
| LatinHypercube.EachBandHasOnePoint | src/coordination/DOESampler.ts:91-116 | of the points sampled, for every continuous variable whose name no other has, each n-th of its bounds holds the value of exactly one |
| FactorialGrid.NumeralBelowCombinations | src/coordination/DOESampler.ts:157-158 | an in-bounds index tuple, read as a mixed-radix numeral, is below the product of the level counts |
| FactorialGrid.NumeralOrder | src/coordination/DOESampler.ts:168-176 | numeric order of tuples is dictionary order, and equal numerals mean equal tuples |
| FactorialGrid.DigitsOfNumeral | src/coordination/DOESampler.ts:157-158 | reading an in-bounds tuple as a numeral and taking its digits gives the tuple back |
| FactorialGrid.NumeralOfDigits | src/coordination/DOESampler.ts:157-158 | taking the digits of a number below the product and reading them gives the number back |
| FactorialGrid.IncrementedIsSuccessor | src/coordination/DOESampler.ts:168-176 | one increment is plus one on the numeral; the carry runs off exactly at the last tuple |
| FactorialGrid.Increment | src/coordination/DOESampler.ts:168-176 | the right-to-left loop over the index array computes that increment and its carry |
| FactorialGrid.SubsampleInRange | src/coordination/DOESampler.ts:141-144 | every sub-sampled position is an index of the value list |
| FactorialGrid.SubsampleSpreads | src/coordination/DOESampler.ts:141-144 | sub-sampled positions strictly increase from the first value to the last |
| FactorialGrid.SpacedCoversBounds | src/coordination/DOESampler.ts:148-152 | levels run from lo to hi in equal steps |
| FactorialGrid.ContinuousLevels | src/coordination/DOESampler.ts:147-153 | one continuous level lies in the middle; the i-th of n > 1 divides the bounds as i to n-1 |
| FactorialGrid.IntegerLevels | src/coordination/DOESampler.ts:147-153 | integer levels are the whole numbers nearest to the continuous ones, halves upwards |
| FactorialGrid.FewListedLevels | src/coordination/DOESampler.ts:137-140 | all listed values if there are no more than asked for, and the middle one if one is asked for |
| FactorialGrid.ManyListedLevels | src/coordination/DOESampler.ts:141-145 | else the values at ascending positions from first to last, the i-th nearest to i steps of (length - 1)/(n - 1) |
| FactorialGrid.EmitAll | src/coordination/DOESampler.ts:156-178 | the unbounded loop terminates after exactly the product of the level counts, the k-th point being that of the mixed-radix digits of k |
| FactorialGrid.Grid | src/coordination/DOESampler.ts:129-181 | for any variables: one point per index tuple, the k-th that of the digits of k; none when levelsPerVar <= 0 |
| FactorialGrid.RecordHolds | src/coordination/DOESampler.ts:161-165 | a point has exactly the variables' names, and under a name no other variable has the level its index says |
| FactorialGrid.EveryCombinationOnce | src/coordination/DOESampler.ts:156-178 | with names and levels that do not repeat, every combination of level values is that of exactly one point of the grid |
| FactorialGrid.EveryTupleOnce | src/coordination/DOESampler.ts:156-178 | the digits of the numbers below that product are every in-bounds tuple exactly once, in dictionary order |
| CampaignState.CampaignStateStore.constructor | src/coordination/CampaignStateStore.ts:293-299 | a loaded instance starts from what is on disk |
| CampaignState.CampaignStateStore.Reload | src/coordination/CampaignStateStore.ts:727-736 | memory takes the disk's state when readable, keeps its own when busy, and any other error is reported |
| CampaignState.CampaignStateStore.WriteState | src/coordination/CampaignStateStore.ts:747-749 | the disk takes the state in memory, which stays as it is |
| CampaignState.CampaignStateStore.Mutate | src/coordination/CampaignStateStore.ts:443-514 | a readable disk ends as the mutation of itself, however stale the instance was; a busy one as the mutation of the instance's state; a broken one is untouched |
| CampaignState.CampaignStateStore.Transition | src/coordination/CampaignStateStore.ts:648-665 | accepted exactly when valid from the phase in memory, and then the disk becomes the state in memory with the new phase |
| CampaignState.ApplyProper | src/coordination/CampaignStateStore.ts:462-514 | no mutation makes an id appear twice in a list |
| CampaignState.CompletedExactly | src/coordination/CampaignStateStore.ts:481-493 | after any series of mutations an id is completed if and only if it was before or some completeTask named it |
| CampaignState.FailedExactly | src/coordination/CampaignStateStore.ts:499-514 | and failed if and only if it was before or some failTask named it |
| CampaignState.SampledPointsAreLast | src/coordination/CampaignStateStore.ts:443-454 | the sampled points are those set last, or the first state's if none were set |
| CampaignState.FirstReasonStays | src/coordination/CampaignStateStore.ts:508-511 | unless markFailed comes in, the failure reason is the first non-empty one: of the state before or of the first failTask with one |
| CampaignTypes.TransitionsAreForward | src/coordination/types.ts:110-122 | a phase goes one place on, from a Pareto checkpoint also to the report or the end, fails unless it is the end or failed, and starts again by sampling after a failure; nothing else |
| CampaignState.PendingExactly | src/coordination/CampaignStateStore.ts:462-514 | and it is pending if and only if, of the mutations that name it, the last registered it (or none did and it was before) |
| CampaignState.LeaveEffect | src/coordination/CampaignStateStore.ts:648-692 | past its check, a phase change writes what the disk calls for if and only if memory agrees with the disk in every field it does not overwrite and the disk accepts the change or shows it already |
| CampaignState.StaleEffect | src/coordination/CampaignStateStore.ts:727-736 | an operation that works from a state kept in memory, as after a busy read, does to the disk what it should if and only if that state lags only harmlessly, told field by field for each mutation: a task list may lack the id being added, or the first few being registered, or hold the one being settled |
| CampaignState.RegisteringLag | src/coordination/CampaignStateStore.ts:462-470 | for lists without repeats the lag is harmless to a registration if and only if one list is the other followed by the first few of the ids it lacks |
| CampaignState.SettlingLag | src/coordination/CampaignStateStore.ts:481-514 | for lists without repeats the lag is harmless to a settlement if and only if both are one list without the task, the task put in somewhere or not at all |
| StoreProtocol.StepKeepsSerial | src/coordination/CampaignStateStore.ts:443-514 | a step keeps the disk equal to the settled mutations applied in order, and the holder's pending write equal to the next one, if and only if it is careful |
| StoreProtocol.NoLostUpdates | src/coordination/CampaignStateStore.ts:443-514 | over every careful interleaving of any number of instances the disk is the settled mutations applied one after another in grant order |
| StoreProtocol.CarefulMeansSerial | src/coordination/CampaignStateStore.ts:443-514 | the careful runs are exactly the runs that are serial in every state: no weaker care keeps all updates |
| StoreProtocol.CompletionsPersist | src/coordination/CampaignStateStore.ts:481-493 | over every careful interleaving an id reported complete is complete on disk from then on |
| StoreProtocol.ReloadFirstRuns | src/coordination/CampaignStateStore.ts:443-514 | every run of reload-first operations whose reads succeed is careful (markFailed, which awaits before it writes, when reloads happen only under the lock) |
| StoreProtocol.TransitionEffect | src/coordination/CampaignStateStore.ts:648-665 | exactly when a transition granted to a possibly stale instance does to the disk what it should |
| StoreProtocol.MarkFailedEffect | src/coordination/CampaignStateStore.ts:679-692 | with a reload delivered while markFailed awaits its snapshot, the disk ends as it should if and only if what was read differs from it at most in phase and failure reason |
| StoreProtocol.BusyEffect | src/coordination/CampaignStateStore.ts:727-736 | a reload-first operation granted on a busy file leaves the disk as it should if and only if its instance's state lags harmlessly |
| StoreProtocol.BusyReadLosesCompletion | src/coordination/CampaignStateStore.ts:481-493 | a run of two completions, the second on a busy file, after which the first is missing from the disk and its id pending again |
| StoreProtocol.RunsStayProper | src/coordination/CampaignStateStore.ts:443-514 | whatever is stale, busy or refused, no run makes an id appear twice in a list on disk, in memory or on its way |
| StoreProtocol.StaleTransitionLosesCompletion | src/coordination/CampaignStateStore.ts:648-665 | a run of two instances after which a settled completion is missing from the disk and its id pending again |
| StoreProtocol.LateReloadLosesCompletion | src/coordination/CampaignStateStore.ts:679-692 | a run of reload-first operations and one reload outside the lock after which a settled completion is missing |
| LockPool.LockTable.Enter | src/coordination/CampaignStateStore.ts:210-233 | the call joins the campaign's chain, on a new entry only if there is none, and counts itself |
| LockPool.LockTable.ReleaseLock | src/coordination/CampaignStateStore.ts:235-242 | the count drops by one and the entry goes at zero, keeping the pool valid |
| LockPool.LockTable.CleanUp | src/coordination/CampaignStateStore.ts:169-177 | an entry is removed only at count zero |
| LockPool.CleanupIsHarmless | src/coordination/CampaignStateStore.ts:169-177 | in a valid pool cleanup changes nothing, at any moment |
| LockPool.RunsAreValid | src/coordination/CampaignStateStore.ts:210-242 | every interleaving of calls, starts, settlements, releases and cleanups keeps entries exact and waiting operations in line |
| LockPool.MutualExclusion | src/coordination/CampaignStateStore.ts:210-233 | at most one operation per campaign runs at a time, and none starts before every earlier call of its campaign is over |
| LockPool.EntryWhileOutstanding | src/coordination/CampaignStateStore.ts:235-242 | a pool entry exists if and only if its campaign has an operation outstanding |
| LockPool.FirstOutstandingCanMove | src/coordination/CampaignStateStore.ts:224-231 | the first outstanding operation of a campaign can always take its next step, whether earlier ones failed or not |
| EvalLog.ParseSplits | src/coordination/CampaignStateStore.ts:568-590 | parsing up to a line end and then the rest adds up to parsing the whole |
| EvalLog.ParseUpToLastNewline | src/coordination/CampaignStateStore.ts:574-577 | what follows the last newline contributes nothing |
| EvalLog.SplitParses | src/coordination/CampaignStateStore.ts:581 | splitting at newlines and parsing the pieces is parsing the text line by line |
| EvalLog.ParseLines | src/coordination/CampaignStateStore.ts:581-589 | the loop returns the results of the well-formed lines in order, skipping blank and malformed ones |
| EvalCache.TouchedIsLru | src/coordination/CampaignStateStore.ts:114-125 | touching keeps the cap, puts the entry last, and drops only entries from the longest-untouched end |
| EvalCache.RemoveKeepsOrder | src/coordination/CampaignStateStore.ts:169-170 | removing a campaign leaves the other entries as they are, in their order |
| EvalCache.ParseChunk | src/coordination/CampaignStateStore.ts:574-590 | the byte offset advances past the last newline and the results are the parse of that part |
| EvalCache.EvalStore.Touch | src/coordination/CampaignStateStore.ts:114-125 | delete, re-insert at the back, drop from the front down to the cap |
| EvalCache.EvalStore.GetEvaluations | src/coordination/CampaignStateStore.ts:540-623 | returns, of reading on from the cached entry, or afresh if the file is shorter, the results that are feasible (if asked) and of the fidelity asked for, in order, and leaves the cache as that reading prescribes |
| EvalCache.EvalStore.CleanUp | src/coordination/CampaignStateStore.ts:169-170 | the campaign's entry is gone, the others keep their order |
| EvalCache.ReaderIsExact | src/coordination/CampaignStateStore.ts:540-623 | while files only grow, a call returns the parse of all complete lines of the file, and every cached entry stays the parse of a prefix, within the cap |
| EvalCache.CallMakesRecent | src/coordination/CampaignStateStore.ts:602-612 | a call with any results leaves its campaign's entry as the most recent, further along only if there were new ones |
| EvalCache.TruncationIsNoticed | src/coordination/CampaignStateStore.ts:562-566 | a file recreated shorter than the cached offset gives the parse of the new file alone |
| EvalCache.ReplacementIsReadExactly | src/coordination/CampaignStateStore.ts:562-590 | a replaced file that is not shorter gives the parse of the new file if and only if the cached results and the rest of the line at the offset are the results of its lines up to there |
| EvalCache.ReplacedLogIsMisread | src/coordination/CampaignStateStore.ts:562-566 | a one-line file replaced by another of the same length and a different result still gives the old result |
| EvalCache.AppendKeepsAgreement | src/coordination/CampaignStateStore.ts:523-526 | appending to a file keeps every cached entry the parse of a prefix |
| EvalCache.EveryCallIsExact | src/coordination/CampaignStateStore.ts:540-623 | also when calls overlap with each other, with appends, evictions, clean-ups and read errors, and whether the file existed when they began, each returns the parse of all complete lines of a part of its campaign's log, and unless its read failed that part has all the log held when the call began |
| EvalCache.NothingIsMissed | src/coordination/CampaignStateStore.ts:540-623 | so no result is missed whose line was complete when the call began |
| EvalCache.CallsCanMove | src/coordination/CampaignStateStore.ts:558-577 | the cached offset never lies past the file, so every call in flight can go on |
| BestFidelity.BestFidelityEvaluations | src/coordination/CampaignStateStore.ts:629-639 | of the feasible results (or of all, if so asked) exactly one per design point, in the order of their first results: the first of its highest fidelity |
| BestFidelity.RepresentedByHighestFidelity | src/coordination/CampaignStateStore.ts:625-639 | a point with a feasible result is represented by the first of its highest-fidelity results if and only if that one is feasible |
| BestFidelity.InfeasibleRefinementIsIgnored | src/coordination/CampaignStateStore.ts:630-637 | a point feasible at one fidelity and infeasible at a higher one is represented by the first result |
| WorkerPool.TaskIdsDiffer | src/coordination/WorkerCoordinator.ts:131-134 | different positions of a batch get different ids, whatever the points are |
| WorkerPool.TaskIdTells | src/coordination/WorkerCoordinator.ts:132 | a task id is the worker's id, the position in at least four decimal digits and the first eight characters of the point's id |
| WorkerPool.BatchIdsDiffer | src/coordination/WorkerCoordinator.ts:131-134 | the ids of a batch have no repeats, even if a point occurs twice |
| WorkerPool.OwnCallIsExact | src/coordination/WorkerCoordinator.ts:157-170 | a worker's call may work from a state kept in memory after a busy read: if that lags harmlessly the outcome is the same |
| WorkerPool.ConcurrencyBounded | src/coordination/WorkerCoordinator.ts:69-89 | there are min(maxConcurrent, jobs) workers, jobs are taken once each in order, and no two workers are on one job |
| WorkerPool.ResultBeforeCompletion | src/coordination/WorkerCoordinator.ts:157-159 | at every step of every interleaving an id completed by the batch already has its result in the log |
| WorkerPool.FinishedBatch | src/coordination/WorkerCoordinator.ts:121-182 | with at least one slot a finished batch has run every job, whichever store calls threw, and the store says of each how it ended, provided that the states writers work from, the batch's own among them, lag only harmlessly (CampaignState.StaleEffect) |
| WorkerPool.CallsDecide | src/coordination/WorkerCoordinator.ts:142-171 | whatever threw, a new task of a finished batch is completed if and only if its completeTask went through, failed if and only if a failTask did, and pending if and only if a call before completion threw and failTask threw too |
| WorkerPool.ReliableBatchSettles | src/coordination/WorkerCoordinator.ts:117-182 | if store calls succeed, a finished batch leaves each new id in exactly one of completed and failed, and none pending if and only if there was a slot; writers as in FinishedBatch |
| WorkerPool.HandlerDecides | src/coordination/WorkerCoordinator.ts:142-182 | and then a task has failed if its handler threw, and else is completed |
| WorkerPool.NoSlotsNoWork | src/coordination/WorkerCoordinator.ts:87-88 | with maxConcurrent <= 0 no job is ever taken |
| WorkerPool.LogFailureRecordsBoth | src/coordination/WorkerCoordinator.ts:157-170 | there is a whole batch, from its start, whose log write throws after completeTask and whose id ends in both lists |
| WorkerPool.RecordedTwiceExactly | src/coordination/WorkerCoordinator.ts:157-170 | at every moment of every run a new id is in both lists if and only if its log write after completeTask threw and the failTask of the catch block went through, whatever other calls threw |
| WorkerPool.BatchTerminates | src/coordination/WorkerCoordinator.ts:69-89 | an unfinished batch can always move, and every worker step brings it nearer to its end |
| ContextPager.EvictionOrderIsTierThenAge | src/context/ContextPager.ts:299-318 | the eviction order is exactly the non-sticky slots, low before medium before high, oldest first within a tier |
| ContextPager.EvictionOrderIsStable | src/context/ContextPager.ts:305-309 | pages of one tier and age are evicted in the order they were put in |
| ContextPager.EvictionMakesRoom | src/context/ContextPager.ts:299-318 | after an eviction the new page fits or only sticky pages are left |
| ContextPager.StickySurvive | src/context/ContextPager.ts:299-318 | sticky pages are never evicted |
| ContextPager.LastVictimWouldOverflow | src/context/ContextPager.ts:311 | keeping the last victim would have overflowed the budget: the prefix evicted is the shortest |
| ContextPager.EvictionsAreRecorded | src/context/ContextPager.ts:91-100 | each eviction is recorded in order, and of all records the 64 newest are kept |
| ContextPager.CheckoutKeepsBudget | src/context/ContextPager.ts:112-139 | after a checkout the pages are within budget or all sticky, whatever was there before |
| ContextPager.LifetimeIsTtl | src/context/ContextPager.ts:251-266 | through any turns a page is gone if and only if it went its time to live, and at least one turn, without a reference in a row; else it has left what has not passed since the last one |
| ContextPager.ContextPager.DrainDrops | src/context/ContextPager.ts:85-89 | returns all records and leaves none |
| ContextPager.ContextPager.RecordDrop | src/context/ContextPager.ts:91-100 | appends a record, the oldest making way at 64 |
| ContextPager.ContextPager.EvictTier | src/context/ContextPager.ts:302-317 | one tier goes oldest first until there is room, each eviction recorded |
| ContextPager.ContextPager.EvictToFit | src/context/ContextPager.ts:299-318 | evicts and records the shortest prefix of the eviction order that makes room, and nothing else |
| ContextPager.ContextPager.Checkout | src/context/ContextPager.ts:112-139 | refused exactly when a non-sticky page does not fit even after evicting every page of the others that may go, and then only a record is added; otherwise the page is last, after the evictions it needed, and the budget invariant holds |
| ContextPager.ContextPager.Checkin | src/context/ContextPager.ts:145-147 | removes the page of that id and keeps the budget invariant |
| ContextPager.ContextPager.RenderForTurn | src/context/ContextPager.ts:187-239 | every page's content is rendered, sticky before high before medium before low and in insertion order within each; nothing is ever skipped, and the token count is the total |
| ContextPager.ContextPager.Tick | src/context/ContextPager.ts:251-266 | non-sticky pages age by one or, if referenced, start over; expired ones go; the budget invariant holds |
| ContextPager.ContextPager.Flush | src/context/ContextPager.ts:269-273 | exactly the sticky pages stay |
| ContextPager.ContextPager.FlushAll | src/context/ContextPager.ts:276-278 | no page stays |
| PasteMarkers.TailCutsCleanly | src/cli/pasteAccumulator.ts:133-146 | whatever follows, no marker straddles the cut before the held-back tail |
| PasteMarkers.CleanCut | src/cli/pasteAccumulator.ts:165-187 | at a cut no marker straddles, stripped text and open state are those of the two sides one after the other |
| PasteMarkers.FeedSplits | src/cli/pasteAccumulator.ts:149-187 | feeding two chunks leaves the same tail and flags, and gives out the same text, as feeding them joined |
| PasteMarkers.ChunkingIsInvisible | src/cli/pasteAccumulator.ts:149-187 | the same for any list of chunks, from any state |
| PasteMarkers.WholeStream | src/cli/pasteAccumulator.ts:149-187 | after any chunking of a stream: the tail is its partial marker, the flags tell whether its last marker opens a paste and whether it has one, and the texts join to the stream without markers and tail |
| PasteAccumulator.LastMarkerDecides | src/cli/pasteAccumulator.ts:172-184 | the last marker of a text decides whether a paste is open after it, whatever was before; without markers nothing changes |
| PasteAccumulator.StripFromMarker | src/cli/pasteAccumulator.ts:187 | stripping takes a marker out and leaves the text before and after it |
| PasteAccumulator.StripNothing | src/cli/pasteAccumulator.ts:187 | and leaves a text without markers alone |
| PasteAccumulator.JoinSplits | src/cli/pasteAccumulator.ts:315-319 | splitting a message at its line feeds gives back the lines it was made of |
| PasteAccumulator.TrailingPartialMarkerLen | src/cli/pasteAccumulator.ts:133-146 | the longest suffix that is a partial marker; searching only after the last complete marker misses none |
| PasteAccumulator.WalkMarkers | src/cli/pasteAccumulator.ts:172-184 | the index-of loop computes the open state after the text |
| PasteAccumulator.OpensWhere | src/cli/pasteAccumulator.ts:165-169 | a chunk is flagged pasted if and only if the paste was open somewhere in its text |
| PasteAccumulator.EnterIsNewlines | src/cli/pasteAccumulator.ts:189-198 | a chunk is a bare Enter if and only if it has line breaks and nothing else |
| PasteAccumulator.PasteAccumulator.OnData | src/cli/pasteAccumulator.ts:149-208 | the new tail, flags and text are those of the stream specification; any pending timer is cancelled; the display class follows its three tests |
| PasteAccumulator.PasteAccumulator.Classify | src/cli/pasteAccumulator.ts:188-202 | pasted beats the two markerless guesses, which need a session without markers |
| PasteAccumulator.PasteAccumulator.OnLine | src/cli/pasteAccumulator.ts:226-252 | which lines are buffered, submitted at once or held for the window, for every state |
| PasteAccumulator.PasteAccumulator.MaybeDeferFlush | src/cli/pasteAccumulator.ts:260-266 | armed exactly in a markerless session with a window and a callback, otherwise flushed |
| PasteAccumulator.PasteAccumulator.TimerFires | src/cli/pasteAccumulator.ts:268-275 | a due timer submits all buffered lines and disarms; without one nothing happens |
| PasteAccumulator.PasteAccumulator.ResetChunk | src/cli/pasteAccumulator.ts:215-220 | forgets text, flag, tail and timer, and keeps lines and the open state |
| PasteAccumulator.PasteAccumulator.Clear | src/cli/pasteAccumulator.ts:296-302 | forgets lines, open state, flag, tail and timer, and keeps that markers were seen |
| PasteAccumulator.PasteAccumulator.Drain | src/cli/pasteAccumulator.ts:309-313 | submits what is buffered, if anything, and cancels the timer |
| PasteSession.LinesAreConserved | src/cli/pasteAccumulator.ts:226-319 | over every session without clear, the non-empty lines submitted and then those buffered are the non-empty lines fed, in order |
| PasteSession.SubmissionsHaveLines | src/cli/pasteAccumulator.ts:260-275 | in every session a timer is armed only over buffered lines in a markerless session, and no submission is without lines |
| PasteSession.NewlineChunkIsPasted | src/cli/pasteAccumulator.ts:165-169 | however a bracketed paste was cut before it, a chunk with one of its newlines is flagged as pasted |
| PasteSession.BracketedPasteIsOneMessage | src/cli/pasteAccumulator.ts:149-252 | however a bracketed paste is cut into chunks, its lines submit nothing, and the Enter after it submits them all as one message |
| PasteSession.BracketedPasteText | src/cli/pasteAccumulator.ts:149-252 | the text of that message splits at its line feeds into exactly the lines fed |
| PasteSession.EnterSubmits | src/cli/pasteAccumulator.ts:226-252 | an Enter that is not held back submits the buffered lines and the rest of the typed line, if it is not empty or nothing is buffered |
| PasteSession.WindowHoldsBack | src/cli/pasteAccumulator.ts:254-266 | without markers and with a window, no Enter submits once lines are buffered, however chunks and lines come |
| PasteSession.WindowSubmitsOnce | src/cli/pasteAccumulator.ts:254-278 | and when the window passes after an Enter, all of it is submitted as one message |
| PasteSession.ClearStartsAfresh | src/cli/pasteAccumulator.ts:296-302 | after a clear an Enter submits the line typed and nothing else, whatever was there before |
| PasteSession.ResetKeepsLines | src/cli/pasteAccumulator.ts:215-220 | after a reset a line without its chunk is added to the buffered ones and nothing is submitted or armed |
| PasteSession.DrainSubmitsRest | src/cli/pasteAccumulator.ts:309-313 | a drain submits what is buffered once, and nothing comes due after it |
| PasteSession.ResetDropsHalfMarker | src/cli/pasteAccumulator.ts:215-220 | a reset between the two halves of an end marker leaves the paste open, where it would have closed |
| PasteSession.ResetIsHarmlessExactly | src/cli/pasteAccumulator.ts:215-220 | a reset never shows in the open state, whatever follows, if and only if the tail is empty or all but the last character of the marker that would change nothing |
| TerminalSanitizer.TerminalSanitizer.constructor | src/cli/terminalSanitizer.ts:70-88 | a new sanitizer is outside any sequence |
| TerminalSanitizer.TerminalSanitizer.Enter | src/cli/terminalSanitizer.ts:94-100 | entering normal resets the counter; entering a sequence ends a pending CRLF |
| TerminalSanitizer.TerminalSanitizer.Consume | src/cli/terminalSanitizer.ts:105-198 | one turn of the loop is one step of the machine, for every state and character |
| TerminalSanitizer.TerminalSanitizer.Sanitize | src/cli/terminalSanitizer.ts:102-202 | output and new state are those of the machine run over the chunk; the output is clean and the state reachable |
| TerminalSanitizer.TerminalSanitizer.Reset | src/cli/terminalSanitizer.ts:204-207 | the state is that of a new sanitizer |
| TerminalSanitizer.RunSplits | src/cli/terminalSanitizer.ts:102-202 | running over two chunks is running over them joined |
| TerminalSanitizer.ChunkingIsInvisible | src/cli/terminalSanitizer.ts:102-202 | however a text is cut into chunks, output and final state are those of the uncut text |
| TerminalSanitizer.RunConsistent | src/cli/terminalSanitizer.ts:70-100 | in every reachable state the counter is at most 4096 and 0 outside sequences, and a pending CR only exists there |
| TerminalSanitizer.OutputIsClean | src/cli/terminalSanitizer.ts:119-156 | no output, from any state, has a control character other than newline and tab, or a direction or invisible character |
| TerminalSanitizer.CleanTextPasses | src/cli/terminalSanitizer.ts:135-156 | clean text outside a sequence passes unchanged, but for a line feed that completes a CRLF |
| TerminalSanitizer.FixedPointsAreClean | src/cli/terminalSanitizer.ts:102-202 | a text comes out unchanged if and only if it is clean, and cleaning twice is cleaning once |
| TerminalSanitizer.LossIsBounded | src/cli/terminalSanitizer.ts:109-116 | from any reachable state clean text loses a prefix of at most what is left of the 4096, and inside an OSC or control string exactly that much |
| TerminalSanitizer.OutputResumes | src/cli/terminalSanitizer.ts:13-33 | after any input at most 4096 characters of following clean text are lost, the rest comes out |
| TerminalSanitizer.BoundIsReached | src/cli/terminalSanitizer.ts:33 | after a stray 8-bit OSC introducer exactly the first 4096 characters of clean text are lost, or all if there are fewer |
| TerminalSanitizer.ControlIsSwallowed | src/cli/terminalSanitizer.ts:160-197 | every complete control sequence or control string within the limit, its body holding any ESC that no backslash follows, leaves no output and the normal state |
| TerminalSanitizer.AbandonedIsSwallowed | src/cli/terminalSanitizer.ts:160-176 | an unfinished escape or control sequence that the ESC of another control cuts off leaves no output either |
| TerminalSanitizer.TextIsTidied | src/cli/terminalSanitizer.ts:117-157 | text outside sequences comes out with CRLF and CR as one newline and all other controls dropped |
| TerminalSanitizer.ControlsVanish | src/cli/terminalSanitizer.ts:102-202 | text interleaved with complete controls comes out as the text alone, tidied piece by piece |
| TerminalSanitizer.CleanIsTidy | src/cli/terminalSanitizer.ts:49-56 | clean text is its own tidied form |
| TerminalSanitizer.EscapeVanishesExactly | src/cli/terminalSanitizer.ts:158-165 | an escape sequence with any number of intermediate characters leaves all after the first of them, so it vanishes if and only if it has none |
| TextWidth.DisplayWidth | src/cli/textWidth.ts:38-42 | the sum of the glyph widths |
| TextWidth.WidthGrows | src/cli/textWidth.ts:38-42 | a longer prefix is strictly wider |
| TextWidth.ClampWidth | src/cli/textWidth.ts:65-77 | the longest prefix that fits the limit; empty below zero |
| TextWidth.Fit | src/cli/textWidth.ts:45-57 | unchanged if it fits, else the longest prefix that leaves a column for the ellipsis; never wider than the limit |
| TextWidth.TakeColumns | src/cli/textWidth.ts:70-76 | the shared loop stops at the longest fitting prefix |
| TextWidth.WrapPositive | src/cli/textWidth.ts:83-97 | lines join to the text, break only where the next glyph would not fit, and are too wide only as a lone wide glyph |
| TextWidth.WrapToWidth | src/cli/textWidth.ts:80-98 | lines join to the text; all fit if and only if the text is empty, the limit is at least 2, or it is 1 and no glyph is wide; no split into fitting pieces is shorter |
| TextWidth.GreedyNeedsFewest | src/cli/textWidth.ts:83-97 | breaking only where forced needs at most as many lines as any split into fitting pieces |
| TextWidth.LinesFitUnless | src/cli/textWidth.ts:83-97 | lines of at most the limit or one wide glyph all fit exactly for a limit of 2 or more or no wide glyph |
| TextWidth.FirstLineIsClamp | src/cli/textWidth.ts:65-97 | the first wrapped line is what clamping keeps |

## Left out

- JavaScript numbers: NaN, -0 and floating-point rounding; objective values, samples and widths are exact reals or integers, with infinities only where a missing objective makes one.
- Hypervolume.HypervolumeCountsCells: stated for whole-number objectives, where cells can be counted; the range [0, 1] holds for all values.
- makeDesignPoint: ids are a hash of the variables, so points are given by their variables.
- Variables without bounds: continuous and integer variables here carry bounds; the grid's default of [0, 1] is one choice of them, and sampling such a variable throws in the source.
- DOESampler.random and DOESampler.refine: the same draws and value map without strata or counter.
- Files: atomic rename, the cross-process file lock, JSON text and directory layout. The disk is one state value, the log is text with an abstract parser of a line, and the lock is granted in queue order.
- EvalCache.ParseChunk: the log is bytes and counts as valid UTF-8 up to each newline; decoding replaces invalid bytes by a longer character, and the offset would then drift.
- CampaignState.CampaignStateStore.Mutate: the reload-first mutators are one method over a mutation value, without timestamps; snapshots on disk are left out.
- StoreProtocol.NoLostUpdates: holds for careful runs; ReloadFirstRuns says which operations are always careful, and the two counterexample runs show what the rest can lose.
- LockPool entries are indices into a table instead of shared objects; a promise chain is the order of calls on an entry.
- WorkerPool.FinishedBatch: writers are admitted only when what they work from lags harmlessly; what a harmful write can undo is shown by StoreProtocol.StaleTransitionLosesCompletion and BusyReadLosesCompletion.
- WorkerPool.ReliableBatchSettles: likewise.
- WorkerPool: a run starts after the batch is registered; the calls that log the start and the end of a batch, runSingle and result contents are left out, and promises are worker positions.
- LatinHypercube.SomeArrangementIsNeverDrawn: for 12 or fewer elements the model does not say which arrangements the generator reaches; that is a search through 2^32 states.
- Escalation.PlanFromEvaluations: ends where work would be dispatched; the transition, the notification and the fall-through to normal completion are left out.
- resetAllForTest, listActive and zombie expiry, capsules, reports, the rest of CampaignMonitor: plumbing around the parts modelled.
- isCurrentPhaseComplete counts over the whole campaign and adds no state of its own.
- ContextPager: traces, hashes, provenance and the manifest; the clock is a parameter of checkout, and token estimates are natural numbers.
- TerminalSanitizer.ControlIsSwallowed: controls longer than 4096 characters after their first are cut as LossIsBounded says.
- sanitizeTerminalPreview and String coercion: whitespace folding and a slice.
- PasteAccumulator: characters are opaque, the timer is a flag with an event, and the callback's message is the returned value.
- TextWidth: strings are sequences of code points, as the source iterates them.
- The user interface, routers, providers, plugins, QueryAnalyzer, IntentScheduler and GenericCampaignStore: string lookup, network, or repeats of what is here.
