# Zilli verification models

Dafny models of the parts of Zilli whose correctness depends on state, order or arithmetic, with
proofs of what each of them keeps over every input, run or interleaving. `dafny verify dfyconfig.toml`
checks the whole project.

| files | component |
|---|---|
| `DagGraph`, `DagTheory`, `DagOrder`, `NameOrder`, `TaskDag`, `DagRecord` | the task graph: Kahn's algorithm three times, the longest-path pass, which of several orders and paths they report, the readiness scan, writing and reading back |
| `DagExecution`, `DagConfluence`, `DagAttempts`, `DagExecutor` | the concurrent executor: a state machine over its steps, theorems over all its runs, the attempts behind every status, and the imperative main loop under a free scheduler |
| `Pareto`, `ParetoSelection` | the NSGA-II optimiser: dominance, the counting sort, elitist selection, the weighted-sum choice |
| `Scheduling`, `Dispatcher` | longest-processing-time dispatch and its approximation bound |
| `LengthControl` | the elastic context cap |
| `Returns` | discounted returns and generalised advantage estimation |
| `Cache`, `RateLimiter`, `LimiterRuns`, `PlannerBudget` | a two-level cache, a sliding-window limiter and the planner budget with the routes that share it |
| `Harness`, `Arena` | the self-harness acceptance loop; the champion/challenger arena |
| `Luhn`, `Redaction` | the Luhn check; redaction by splicing |
| `Common` | options, absolute values, duplicate-free sequences, counting |

How the main proofs are built:

* **Executor.** `DagExecution.Apply` gives every event of a run: the main loop scans, a task takes a
  semaphore slot, an attempt fails or succeeds, a task gives up, releases its slot and returns, the loop
  reaps one finished task. `Inv` is kept by every event (`EventInv`), so by every run. Every event costs
  some of a finite effort, hence every run ends; a run that has not ended can go on as soon as there is a
  semaphore slot; and an ended state is determined node by node, along a Kahn order, by the graph and by
  which nodes can succeed. The graph need not be acyclic: nodes behind a cycle stay pending, unless an
  ancestor failed. The code reaps all finished tasks of one wake-up before it scans again; the model may
  also scan in between, which only adds interleavings. An attempt's outcome may depend on the node and on
  the number of the attempt.
* **Orders and paths.** The topological order is described by when a node was ready and the critical path by its
  rivals, not by the loops; two orders, or two paths, that fit the description are equal.
* **Counting sort.** The table of dominators abstracts a population; peeling off non-dominated sets is
  the reference (`Pareto.Peel`), and the sort's counters are shown to hold the number of dominators not
  yet removed.
  `ParetoSelection.Optimize` runs whole generations on top of it.
* **Dispatch.** Longest-first greedy is bounded against any assignment `f` of the items to `m` workers
  within any `bound`. A last job of at most a third of the bound is covered by list scheduling; for a
  longer one every worker of `f` can hold at most two such jobs, which is counted by giving each job one
  or two credits.
* **Definitions in plain terms.** What the theorems speak of is fixed once more without the names they use:
  over retries, objectives, matches, checks, digits, times and places (`AttemptsExact`, `DomSpelled`, `DeployIff`,
  `RateSpelled`, `PlaceAdds`, `CountInIs`, `ChunkPlace`, `RedactedOutside` and their like).
* **Agreement with a log.** The cache and the limiter carry a ghost log of what callers did, and a
  per-key predicate that ties the real, trimmed state to the log.

Results that restrict what the code does:

* `_compute_critical_path` ignores the latency of the last node of a path. The model states the weight
  that way. For positive latencies `DagTheory.EndLatencyHarmlessIff` says on which acyclic graphs this never
  matters. The default latency is zero, and then ties matter too: for latencies of zero or more it never
  matters exactly on the graphs of `DagTheory.ZeroLatencyHarmlessIff`, whose only sink was added first.
* The planner budget can exceed its configured ratio (a class comment promises a hard limit): the
  excess is bounded by `PlannerBudgets.BudgetKept`, and `PlannerBudgets.RatioKeptIff` says when there is none.
* A rate limit above the capacity of the deques (100) is not enforced. A check reads the clock twice, and a
  cleanup at the later reading can forget a request that the earlier one should still count:
  `RateLimiting.CountsWindowIff` says when that decides a check, and `LimiterRuns.LimitKeptIff` for which
  limits and windows the limit is kept over all runs; `RateLimiting.ForgottenTooSoon` is an instance.
* The text hashed for a cache key does not always tell two models apart: `Caching.CollideIff`.
* A weight of zero or less lets the weighted-sum choice pick a dominated candidate:
  `ParetoSelection.SafeExactlyForPositiveWeights`.
* Items without a sequence length are dropped by the dispatcher: `Dispatcher.EveryItemOnce`.
* Registering a model again, or a second champion, can break the title: `Arena.RegisteringKeepsTitleIff`;
  a rollback restores the deposed champion exactly under `Arena.RestoresIff`.
* Reading a task graph back resets the fields that are not written (retry policy, input and output
  specifications, compliance tags, hint) and the statuses: `DagRecord.RoundTrip`, `DagRecord.FromDict`.
* Findings that overlap are not redacted as intended, and characters of a finding can survive: exactly
  when, say `Redaction.SanitizeRedacts` and `Redaction.RedactsIff`, and for findings that may be empty
  `Redaction.AlwaysRedactsIff` and `Redaction.EmptyMaskRedactsIff`; an instance is
  `Redaction.NestedSpanLeaks`.

## Model

| member | source | states |
|---|---|---|
| `TaskDag.TaskDAG.AddNode` | zilli/dag/engine.py:83-86 | a duplicate id is refused and changes nothing; otherwise the node is added with the status it brings, last in order |
| `TaskDag.TaskDAG.AddEdge` | zilli/dag/engine.py:61-95 | self-loops and unknown end points are refused in the code's order and change nothing; the edge list and both adjacency indexes stay in step |
| `TaskDag.TaskDAG.RemoveNode` | zilli/dag/engine.py:97-107 | the node and every edge at it are gone, all else keeps its order, and the indexes still agree with the edges |
| `TaskDag.ChildrenWithout` | zilli/dag/engine.py:102-104 | filtering the edges and filtering the adjacency lists give the same lists, with duplicate edges too |
| `TaskDag.TaskDAG.TopoSort` | zilli/dag/engine.py:147-163 | the queue-driven loop lists nodes once each, parents first, stops only when every unlisted node has an unlisted parent, and lists first what was ready first: nodes without parents as they were added, and nodes made ready by the same one as its last edges to them |
| `DagOrder.OneQueueOrder` | zilli/dag/engine.py:147-163 | there is exactly one such order |
| `DagGraph.KahnMissing` | zilli/dag/engine.py:120-139 | the nodes missing from such a listing are exactly those on a cycle or reachable from one |
| `DagGraph.KahnDecidesAcyclic` | zilli/dag/engine.py:133-138 | the listing is complete exactly when the graph has no directed cycle |
| `DagGraph.KahnOrderExists` | zilli/dag/engine.py:147-163 | every well-formed graph has a complete run of Kahn's algorithm extending any partial one |
| `TaskDag.TaskDAG.Validate` | zilli/dag/engine.py:109-145 | valid exactly when acyclic; the reported missing nodes are exactly those behind a cycle; order, critical path and groups are those of the rows around this one, so all of the result is determined |
| `TaskDag.TaskDAG.ComputeCriticalPath` | zilli/dag/engine.py:165-187 | returns a real path that no path outweighs (counting all nodes but the last), on cyclic graphs among paths with a head free of cycles; it ends at the first node at which any such path ends, all its beginnings of two nodes or more have positive weight, and it comes from the parent listed first wherever several parents lead to the same weight; the predecessor walk ends |
| `DagOrder.OneReported` | zilli/dag/engine.py:165-187 | there is exactly one such path, on every graph and for all latencies |
| `DagTheory.ReportedAlike` | zilli/dag/engine.py:179-187 | on an acyclic graph the rule for the end node alone fixes it and the weight of the reported path |
| `DagTheory.PassBoundsPath` | zilli/dag/engine.py:170-177 | one pass in topological order gives distances that bound every path's weight |
| `DagTheory.FullWeightGap` | zilli/dag/engine.py:172-177 | counting end nodes too, the reported path falls short of another by at most the difference of the two end latencies |
| `DagTheory.EndLatencyIgnored` | zilli/dag/engine.py:172-187 | a concrete graph on which it does fall short |
| `DagTheory.EndLatencyHarmlessIff` | zilli/dag/engine.py:165-187 | for all positive latencies the reported path takes longest end to end, exactly when the acyclic graph has at most one sink |
| `DagTheory.ZeroLatencyHarmlessIff` | zilli/dag/engine.py:165-187 | for all latencies of zero or more it does, exactly when the acyclic graph's only sink is the first node added |
| `DagTheory.DefaultLatencyHarms` | zilli/dag/engine.py:40-187 | with the default latency of zero, a graph with one sink on which it does not |
| `TaskDag.TaskDAG.ComputeParallelGroups` | zilli/dag/engine.py:189-207 | the groups are the successive sets of nodes whose parents all lie in earlier groups, each listed in the order of names |
| `DagOrder.OneGrouping` | zilli/dag/engine.py:189-207 | the graph determines the groups |
| `NameOrder.SortIds` | zilli/dag/engine.py:201 | the sorted list of a set of ids: strictly ascending by code points, with the same elements |
| `NameOrder.OneSorted` | zilli/dag/engine.py:201 | there is only one such list |
| `NameOrder.LessIff` | zilli/dag/engine.py:201 | the order of texts: at the first difference the one that ends there or has the smaller code point is less |
| `DagTheory.GroupsDisjoint` | zilli/dag/engine.py:195-206 | no node is in two groups |
| `DagTheory.GroupsCover` | zilli/dag/engine.py:195-206 | the groups hold exactly the nodes not behind a cycle; on an acyclic graph, all |
| `DagTheory.EdgeGoesForward` | zilli/dag/engine.py:195-206 | every edge into a group comes from a strictly earlier group |
| `DagTheory.FewestGroups` | zilli/dag/engine.py:189-207 | no layering has fewer levels than there are groups |
| `DagTheory.GroupCountIsLongestPath` | zilli/dag/engine.py:189-207 | on an acyclic graph the number of groups is the node count of a longest path |
| `TaskDag.TaskDAG.GetReadyNodes` | zilli/dag/engine.py:209-227 | exactly the pending children of failed nodes become skipped, and exactly the pending nodes with all parents completed are returned, once each and in insertion order |
| `TaskDag.ScanSpelled` | zilli/dag/engine.py:209-227 | the same in terms of edges and statuses |
| `DagRecord.ToDict` | zilli/dag/engine.py:229-246 | writes every node in order with its parents as dependencies, and the edges |
| `DagRecord.WrittenSpelled` | zilli/dag/engine.py:231-245 | a written node, field by field; its dependencies are its parents |
| `DagRecord.FromDict` | zilli/dag/engine.py:248-268 | missing fields get the code's defaults; succeeds exactly on records with ids, end points, known types, distinct ids and fitting edges and dependencies, and builds the graph of edges and missing dependencies, all pending |
| `DagRecord.ReadSpelled` | zilli/dag/engine.py:250-261 | a node that was read, field by field, with its defaults |
| `DagRecord.RoundTrip` | zilli/dag/engine.py:229-268 | what was written can be read, with the same order, the same edges (duplicates too) and the same nodes but for the fields that are not written, which come back as their defaults |
| `DagRecord.EdgesRead` | zilli/dag/engine.py:262-267 | an edge is read exactly if it is listed as an edge or as a dependency |
| `DagExecution.EventInv` | zilli/dag/engine.py:297-360 | the invariant (slots, grounded starts, honest outcomes, swept descendants, one result per verdict) survives every event |
| `DagConfluence.SafeRuns` | zilli/dag/engine.py:297-360 | in every reachable state started nodes have completed parents, at most max_concurrency nodes run, and no node is past its retry budget |
| `DagConfluence.BeginsOnce` | zilli/dag/engine.py:334-340 | in every run each node takes a semaphore slot at most once |
| `DagConfluence.AttemptsBounded` | zilli/dag/engine.py:306-324 | in every run each node makes at most max_retries + 1 attempts (none if that is negative), counting its failed and successful ones |
| `DagAttempts.CanSucceedIff` | zilli/dag/engine.py:302-310 | a node can succeed exactly when attempt 0 or one of its max_retries retries would |
| `DagAttempts.AttemptsExact` | zilli/dag/engine.py:306-326 | at every moment of every run a failed node has failed max_retries + 1 times (never, if that is negative), a completed one has failed exactly before its first successful attempt, which is no later than attempt max_retries, and then succeeded once; a pending or skipped one was never tried |
| `DagConfluence.RunsEnd` | zilli/dag/engine.py:334-358 | every run is finite, with an explicit bound |
| `DagConfluence.NeverStuck` | zilli/dag/engine.py:297-358 | an unfinished run can go on exactly when there is a slot or the main loop itself can act |
| `DagConfluence.EndedIsFinal` | zilli/dag/engine.py:288-376 | an ended state gives each node the status read off the graph and the nodes' own outcomes |
| `DagConfluence.Confluence` | zilli/dag/engine.py:288-376 | every interleaving and every limit end alike: skipped exactly when a proper ancestor failed, otherwise the node's own outcome, one result for each verdict, nothing pending on an acyclic graph |
| `DagExecutor.CascadeSkip` | zilli/dag/engine.py:362-376 | the breadth-first sweep marks exactly the proper descendants of the failed node, and terminates |
| `DagExecutor.DAGExecutor.Execute` | zilli/dag/engine.py:288-360 | with at least one slot the loop always returns, and whatever the scheduler did: completed nodes have a successful attempt numbered at most max_retries, failed nodes have none, exactly the proper descendants of failed nodes are skipped, and on an acyclic graph every node is one of these; results are one per verdict |
| `Pareto.Dominates` | zilli/adaptive/moo.py:84-103 | the early-exit loop decides: no minimised objective is larger and no other one smaller, and one is strictly better; missing values count as zero |
| `Pareto.TableStrict` | zilli/adaptive/moo.py:84-103 | dominance is a strict partial order |
| `Pareto.CountDominators` | zilli/adaptive/moo.py:106-118 | after the pair loop the counters and lists hold exactly the dominators and the dominated of each individual |
| `Pareto.FastNonDominatedSort` | zilli/adaptive/moo.py:105-138 | the fronts are those of repeatedly peeling off the non-dominated set, without repetition |
| `Pareto.FrontIs` | zilli/adaptive/moo.py:124-138 | front k is exactly the non-dominated set of what remains without fronts 0 to k-1 |
| `Pareto.FrontSpelled` | zilli/adaptive/moo.py:105-138 | an individual is in front k exactly if it is in no earlier one and all that dominate it are |
| `Pareto.OneFront` | zilli/adaptive/moo.py:105-138 | every index is in a front |
| `Pareto.DominatorEarlier` | zilli/adaptive/moo.py:105-138 | a dominator is in a strictly earlier front |
| `ParetoSelection.FillByFront` | zilli/adaptive/moo.py:212-220 | the filling loop keeps the first population_size of the fronts laid end to end, in any order within a front |
| `ParetoSelection.FlattenedFronts` | zilli/adaptive/moo.py:211-218 | laid end to end the fronts list every individual once |
| `ParetoSelection.SelectionByRank` | zilli/adaptive/moo.py:210-220 | selection keeps min(population_size, number offered) individuals and never drops one of a better front than one it keeps |
| `ParetoSelection.FrontCoversIff` | zilli/adaptive/moo.py:210-220 | everyone offered is kept or dominated by one kept, exactly when the non-dominated front fits |
| `ParetoSelection.NextGeneration` | zilli/adaptive/moo.py:210-220 | sorting parents and offspring together and filling front by front is one step of the runs below |
| `ParetoSelection.Optimize` | zilli/adaptive/moo.py:188-220 | the loop over generations computes such a run, whatever offspring are bred and however crowding orders a front within each population |
| `ParetoSelection.SizeKept` | zilli/adaptive/moo.py:188-220 | the population size is kept over any number of generations |
| `ParetoSelection.Elitism` | zilli/adaptive/moo.py:188-220 | while the fronts fit, everyone alive or born at the start is equalled or dominated by someone alive at the end, over any number of generations |
| `ParetoSelection.SelectForTask` | zilli/adaptive/moo.py:279-300 | returns a candidate of least weighted score, the first such; an empty list is an error |
| `ParetoSelection.ScoreSpelled` | zilli/adaptive/moo.py:292-297 | the score adds weight times value for each minimised objective and subtracts it for each other one; missing weights and values count as zero |
| `ParetoSelection.OneObjectiveChoice` | zilli/adaptive/moo.py:288-300 | with one objective of positive weight the choice has its least value if it is minimised, its greatest otherwise, and is the first such |
| `ParetoSelection.SafeExactlyForPositiveWeights` | zilli/adaptive/moo.py:288-300 | the choice is non-dominated for all candidates exactly when every objective has a positive weight |
| `ParetoSelection.DefaultIsSafe` | zilli/adaptive/moo.py:288-289 | the default weights, all equal, are such |
| `Dispatcher.Dispatch` | zilli/infra/length_controller.py:13-17 | item i is entry i div m of chunk i mod m, and nothing else is sent |
| `Dispatcher.DispatchLayoutAware` | zilli/infra/length_controller.py:19-33 | items sorted by descending length, equal lengths in their original order, each to the first least loaded worker; round-robin without lengths |
| `Dispatcher.ChunkPlace` | zilli/infra/length_controller.py:29-32 | an item sits in its chunk behind exactly the items sent there before it, and the chunk holds nothing else |
| `Scheduling.GreedySpelled` | zilli/infra/length_controller.py:29-32 | no worker was loaded less than the one an item went to, and none before it as little |
| `Dispatcher.ChunksKeepItems` | zilli/infra/length_controller.py:27-33 | the chunks together hold exactly the items placed |
| `Dispatcher.EveryItemOnce` | zilli/infra/length_controller.py:24-33 | every item with a length is dispatched once, and none is lost exactly when there are enough lengths |
| `Scheduling.ListScheduling` | zilli/infra/length_controller.py:27-33 | greedy placement in any order: at most 2 - 1/m times any assignment's largest load |
| `Scheduling.LongestFirst` | zilli/infra/length_controller.py:25-33 | greedy placement in descending order: at most 4/3 - 1/(3m) times any assignment's largest load |
| `Dispatcher.DispatchBound` | zilli/infra/length_controller.py:19-33 | both bounds for the dispatcher, against any assignment of the original items that have a length |
| `LengthControl.LengthElasticController.Adapt` | zilli/infra/length_controller.py:53-87 | cap, mode and remembered lengths after a call; the cap stays in its range; an empty batch changes nothing |
| `LengthControl.NextCapSpelled` | zilli/infra/length_controller.py:63-70 | the next cap in numbers: with p95 above 0.85 of the cap the larger of 1.2 p95 and 1.05 max, at most 131072; else with p99 below 0.3 of it and more than 20 lengths remembered 0.85 of it, at least 1024 and only if smaller; otherwise the cap stays |
| `LengthControl.NextModeSpelled` | zilli/infra/length_controller.py:72-75 | with p99 above 32768 the mode is model parallel, below 16384 data parallel, in between what it was |
| `LengthControl.NextInRange` | zilli/infra/length_controller.py:63-70 | every cap is within [1024, 131072], and a crowded cap is relieved at once or at its maximum |
| `LengthControl.OnlyFirstRises` | zilli/infra/length_controller.py:63-70 | on a repeated batch the cap never rises after the first call |
| `LengthControl.ReachesFixedPoint` | zilli/infra/length_controller.py:63-70 | on a repeated batch the cap reaches a fixed point within an explicit number of calls |
| `LengthControl.Repeat` | zilli/infra/length_controller.py:53-77 | repeated calls compute the sequence of caps the two theorems are about |
| `LengthControl.ModeSettles` | zilli/infra/length_controller.py:72-75 | repeating a batch never flips the mode twice, and between the thresholds it stays |
| `Returns.ComputeAdvantages` | zilli/training/cispo.py:17-26 | the backward loop with its final reversal computes the discounted return of every step |
| `Returns.ComputeGaeAdvantages` | zilli/training/cispo.py:28-44 | the backward loop computes the estimator of every step; unequal lengths are an error, an empty list gives an empty list |
| `Returns.DiscountedSpelled` | zilli/training/cispo.py:22-24 | a return is the reward and, unless the step is done or the last, gamma times the next return |
| `Returns.GaeSpelled` | zilli/training/cispo.py:36-43 | an advantage is reward minus value and, unless the step is done or the last, gamma times the next value and gamma lambda times the next advantage |
| `Returns.DiscountedIsEpisodeSum` | zilli/training/cispo.py:22-24 | a return is the discounted sum of rewards up to the end of its episode |
| `Returns.GaeIsEpisodeSum` | zilli/training/cispo.py:36-43 | an advantage is the sum of discounted temporal differences up to the end of its episode |
| `Returns.LambdaOne` | zilli/training/cispo.py:36-43 | with lambda = 1 advantages are returns minus values |
| `Returns.ReturnsAsValues` | zilli/training/cispo.py:36-43 | with the returns as values every advantage is zero, for every lambda |
| `Returns.DiscountedSplits` | zilli/training/cispo.py:22-24 | returns before a done flag do not depend on what follows it |
| `Returns.DiscountedShifts` | zilli/training/cispo.py:22-24 | returns after a prefix are those of the rest alone |
| `Returns.GaeSplits` | zilli/training/cispo.py:36-43 | advantages before a done flag do not depend on what follows it |
| `Returns.GaeShifts` | zilli/training/cispo.py:36-43 | advantages after a prefix are those of the rest alone |
| `Returns.BoundedReturns` | zilli/training/cispo.py:22-24 | rewards within R and 0 <= gamma < 1 keep returns within R/(1 - gamma) |
| `Caching.CacheEngine.Get` | zilli/cache/engine.py:95-131 | returns the last accepted set of the key exactly while no more than its ttl has passed since it was created, whatever was evicted; counts hits and misses |
| `Caching.CacheEngine.Set` | zilli/cache/engine.py:133-171 | accepted exactly when enabled and not too large; otherwise the old value stays |
| `Caching.CacheEngine.Invalidate` | zilli/cache/engine.py:183-188 | from then on the key has no value, in memory or on disk |
| `Caching.CacheEngine.Clear` | zilli/cache/engine.py:190-195 | no key has a value and the counters restart |
| `Caching.CacheEngine.Restart` | zilli/cache/engine.py:54-84 | memory refilled from the index, in its order, changes no answer |
| `Caching.TrimMemory` | zilli/cache/engine.py:178-181 | evicts only what is over the size, and nothing while a key stays that is used less, or as often and put in earlier |
| `Caching.LatestIsLastSet` | zilli/cache/engine.py:95-195 | the specification is the last accepted set that nothing concerning its key has followed |
| `Caching.MemoryBounded` | zilli/cache/engine.py:178-181 | memory stays within memory_size in every reachable state |
| `Caching.KeysDiffer` | zilli/cache/engine.py:48-50 | for one model, requests share a key only if temperature and prompt agree |
| `Caching.CollideIff` | zilli/cache/engine.py:48-50 | whatever texts temperatures are printed as, two models can share a key exactly when one name continues the other by a bar-separated printed temperature |
| `RateLimiting.RateLimiter.Check` | zilli/server/app.py:58-78 | accepts exactly if fewer than the limit of the accepted requests lie after the window's start, or after the later start that the cleanup used if it has just forgotten the key, or if the limit is above 100; an accepted request is logged, and its effect on log and cleanup time is one step of the runs below |
| `RateLimiting.RateLimiter.PeriodicCleanup` | zilli/server/app.py:58-66 | when due, forgets exactly the keys whose newest entry is out of the window, and keeps the agreement with the log |
| `RateLimiting.PoppedCounts` | zilli/server/app.py:73-75 | after popping, the deque's length is the count of the window over the whole log, up to its capacity |
| `RateLimiting.CountInIs` | zilli/server/app.py:73-75 | the number of requests in a window is that of the logged times after its start and up to its end |
| `RateLimiting.NoWindowOverflows` | zilli/server/app.py:68-78 | no window of that length, wherever it lies, holds more accepted requests than the limit |
| `RateLimiting.LimitHolds` | zilli/server/app.py:50-78 | so for every key in every reachable state, for limits of at most 100 and windows shorter by what may pass between the two clock readings |
| `RateLimiting.CountsWindowIff` | zilli/server/app.py:58-78 | a check decides as counting the whole window exactly unless the limit is used up in it and the cleanup has just forgotten the key |
| `RateLimiting.ForgottenTooSoon` | zilli/server/app.py:58-78 | a check for which that makes a difference |
| `LimiterRuns.LimitKeptIff` | zilli/server/app.py:52-78 | over all runs of checks of any keys, with readings up to a slack apart, windows of a length keep the limit exactly when the limit is at most 100 and the length at most the window less the slack (or the limit or the length is zero) |
| `LimiterRuns.RunPaced` | zilli/server/app.py:58-78 | in every run with a limit of at most 100 each acceptance found fewer than the limit in the window less the slack |
| `LimiterRuns.ForgottenOverflows` | zilli/server/app.py:58-78 | for any longer window a run that breaks the limit, from the initial state |
| `PlannerBudgets.PlannerBudget.RecordCall` | zilli/envs/planner_budget.py:28-31 | the bounded deque is the window of everything recorded |
| `PlannerBudgets.PlannerBudget.MayUsePlanner` | zilli/envs/planner_budget.py:33-46 | true exactly while the planner's share of the window is below the ratio, or the window is empty |
| `PlannerBudgets.MayPlanIff` | zilli/envs/planner_budget.py:33-46 | the rule over the calls themselves: there are none, or the planner calls among them divided by their number are below the ratio |
| `PlannerBudgets.EventInv` | zilli/routing/router.py:235-258 | every event of concurrent routes keeps the budget invariant, evictions included |
| `PlannerBudgets.BudgetKept` | zilli/routing/router.py:235-258 | in every reachable state planner calls in the window and those admitted but unrecorded are at most the ratio's share plus the number of routes allowed in flight |
| `PlannerBudgets.TotalBounded` | zilli/routing/router.py:235-258 | over a whole run planner calls are at most the ratio's share of all calls plus that number per windowful |
| `PlannerBudgets.RatioKeptIff` | zilli/envs/planner_budget.py:33-46 | the configured ratio itself is never exceeded exactly when it is at least 1, or nothing is ever recorded |
| `PlannerBudgets.Recovers` | zilli/envs/planner_budget.py:33-46 | after a windowful of executor calls the planner is free exactly when the ratio is positive or the window has no room |
| `PlannerBudgets.LocalHybridRouter.Run` | zilli/routing/router.py:217-279 | what one route records, by the stage it was admitted to and the way its calls turn out |
| `PlannerBudgets.CallsSpelled` | zilli/routing/router.py:217-279 | nothing on the fast lane; an executor call that does not raise if the planner is refused; else the planner call and then the executor call, up to the one that raises |
| `PlannerBudgets.OneRoute` | zilli/routing/router.py:235-258 | in the protocol one route alone makes just the events that record this and leaves nothing in flight |
| `Harness.HarnessOrchestrator.RunCycle` | zilli/loops/harness_orchestrator.py:94-129 | a proposal is accepted exactly on enough held-in gain without held-out regression; as many edits as the limit allows, one per pattern in order, with the reason for a rejection; history, version and rejected edits follow |
| `Harness.Evaluate` | zilli/loops/harness_orchestrator.py:178-204 | the checks that passed divided by all checks of the tasks that did not raise, 0 if there are none; 1 exactly when there are some and all passed |
| `Harness.RateSpelled` | zilli/loops/harness_orchestrator.py:178-204 | the rate in a cycle, over the set of pairs of a task and one of its checks |
| `Harness.DigitsOfNumber` | zilli/loops/harness_orchestrator.py:107 | the number in a version is written in decimal, without leading zeros |
| `Harness.GainsAddUp` | zilli/loops/harness_orchestrator.py:206-219 | the i-th accepted candidate has a held-in rate of at least i thresholds |
| `Harness.FewAccepted` | zilli/loops/harness_orchestrator.py:206-219 | for a positive threshold at most 1/threshold candidates are ever accepted |
| `Harness.Accept` | zilli/loops/harness_orchestrator.py:206-219 | accepting keeps every accepted held-out rate at exactly 1 and every gain at the threshold or more |
| `Arena.ChampionChallenger.RunMatch` | zilli/training/champion_challenger.py:107-142 | the match is logged and counted, and the title changes exactly on a match that earns it and whose callback succeeds; one champion, equal to the one on record |
| `Arena.ChampionChallenger.Rollback` | zilli/training/champion_challenger.py:253-289 | the title goes to the latest retired model, if any match was played and any model retired; one champion stays |
| `Arena.ChampionChallenger.RegisterModel` | zilli/training/champion_challenger.py:79-95 | the roster after registering, and that only the one-champion rule can break |
| `Arena.RegisteringKeepsTitleIff` | zilli/training/champion_challenger.py:79-95 | it is kept exactly when no second model is crowned and the champion is not registered anew with another status |
| `Arena.MatchSpelled` | zilli/training/champion_challenger.py:144-186 | what a match records: the tasks both have scores for, the lead in means, significance by p-value and gap, and the winner, none if it is not significant |
| `Arena.BetterScoresKeepWin` | zilli/training/champion_challenger.py:144-186 | scoring better on every task cannot cost a challenger the win, at the same p-value |
| `Arena.SidesSwapIff` | zilli/training/champion_challenger.py:144-186 | trading places changes the winner exactly when a dead heat counts as significant |
| `Arena.DeployIff` | zilli/training/champion_challenger.py:207-224 | a match is deployable exactly if it is a significant win of the challenger, at least warmup_rounds matches of the champion are on record, and the challenger won at least three fifths of its last five matches (or of all, if fewer) |
| `Arena.DeployEarnedIff` | zilli/training/champion_challenger.py:127-137 | so a win is deployable exactly when the promotion is earned |
| `Arena.EarnedStays` | zilli/training/champion_challenger.py:127-137 | this stays true of every past promotion as matches are added |
| `Arena.LatestIff` | zilli/training/champion_challenger.py:257-266 | the rollback target is the retired model retired last, the first registered among equals |
| `Arena.LatestSpelled` | zilli/training/champion_challenger.py:257-266 | the same in terms of times and order; a model without a retirement time counts as retired at zero |
| `Arena.CrownKeeps` | zilli/training/champion_challenger.py:226-246 | handing over the title leaves exactly one champion |
| `Arena.CrownSpelled` | zilli/training/champion_challenger.py:226-246 | handing over the title, model by model: the winner is champion from now on, the old champion retired now, the rest as before |
| `Arena.RestoresIff` | zilli/training/champion_challenger.py:226-276 | rolling back right after a promotion restores the old champion exactly when every other retired model retired before, or then and was registered later |
| `Arena.RestoresAndToggles` | zilli/training/champion_challenger.py:226-276 | under a strictly increasing clock it always does, and a second rollback undoes the first |
| `Luhn.LuhnCheck` | zilli/security/pii.py:63-75 | the loop over the reversed digits accepts exactly 13 to 16 digits, of any script, whose Luhn sum is divisible by ten; a digit without an integer value raises |
| `Luhn.ZerosSum` | zilli/security/pii.py:67-74 | zeros sum to zero |
| `Luhn.PlaceAdds` | zilli/security/pii.py:67-74 | a digit put in place of a zero adds itself at the rightmost place and every second one from there, and at the others its double, less nine above nine |
| `Luhn.CheckDigit` | zilli/security/pii.py:63-75 | every payload of 12 to 15 digits is accepted with exactly one last digit, the ten's complement of its sum |
| `Luhn.DigitsSnoc` | zilli/security/pii.py:65 | the digits are those of the text, in order, and other characters are skipped |
| `Luhn.SingleErrorSum` | zilli/security/pii.py:67-75 | at any length, one changed digit changes the sum modulo 10 |
| `Luhn.SwapSum` | zilli/security/pii.py:67-75 | at any length, swapping neighbours keeps it exactly for equal digits and for 0 with 9 |
| `Luhn.DetectsErrors` | zilli/security/pii.py:63-75 | so the check never accepts both of two such numbers |
| `Redaction.Sanitize` | zilli/security/pii.py:112-114 | the loop from the last finding to the first splices in one mask each; a single span is replaced by the mask |
| `Redaction.RedactedOutside` | zilli/security/pii.py:107-120 | without its masks the intended result consists of the characters outside all spans, in order |
| `Redaction.RedactedLength` | zilli/security/pii.py:107-120 | and it has one mask for each span |
| `Redaction.SanitizeRedacts` | zilli/security/pii.py:107-120 | with a non-empty mask and non-empty spans, the result is the text outside all spans with a mask for each span, exactly when the spans are disjoint |
| `Redaction.RedactsIff` | zilli/security/pii.py:107-120 | with any mask and non-empty spans: exactly when the spans are disjoint, or the mask is empty and they are disjoint up to one from which everything is covered |
| `Redaction.AlwaysRedactsIff` | zilli/security/pii.py:107-120 | with a non-empty mask and any spans, for all texts of the length exactly when the spans are disjoint |
| `Redaction.EmptyMaskRedactsIff` | zilli/security/pii.py:107-120 | with an empty mask and any spans, exactly when the spans that are not empty satisfy the condition of `RedactsIff` |
| `Redaction.SpliceShorter` | zilli/security/pii.py:112-114 | the result is never longer than the intended one, and shorter when it is not harmless |
| `Redaction.NestedSpanLeaks` | zilli/security/pii.py:112-114 | an instance in which a character of the outer finding survives |

## Left out

- Task graph: the data-dependency flag of an edge, results and errors of nodes, and the READY status, which nothing assigns; the values of input and output specifications are taken as text.
- Executor: nodes are assumed to start pending and `on_complete` not to raise; backoff sleeps are plain interleaving.
- DagExecutor.DAGExecutor.Execute: results carry no payload, error text or duration; it requires at least one slot, because with none the loop waits for ever (`DagConfluence.NeverStuck`), and a negative limit is refused by the semaphore before the loop starts.
- Floating-point rounding everywhere: numbers are reals or integers, and factors such as 0.85 are exact.
- Optimiser: crowding distances (the order within a front is any permutation), crossover, mutation, constraints, hypervolume and convergence figures.
- LengthControl.LengthElasticController.Adapt: percentiles are inputs with p95 <= p99 <= max.
- Trainer: losses, advantage normalisation and entropy.
- Cache: hashing is taken to be injective on the text it hashes, operations are atomic, disk operations succeed and files are intact; the disk counter of the statistics.
- Planner budget: saving and loading the budget file; negative ratios in the run theorems.
- PlannerBudgets.LocalHybridRouter.Run: classification, prompts, caching and generation; a route is only its effects on the budget, and how its calls turn out is an input.
- Harness.HarnessOrchestrator.RunCycle: clustering and drafting of edits beyond how many there are; every drafted edit is kept.
- Arena.ChampionChallenger.RunMatch: recent scores and the running average, which decide nothing; standard deviations, rounding in the match record and the log file; the bootstrap p-value is an input, and one clock reading serves a whole operation.
- Luhn.LuhnCheck: how each character counts is an input.
- Redaction.SanitizeRedacts: detection by regular expressions is not modelled; findings are given spans of the text, in ascending order of their starts. With empty spans, which a custom pattern could make, and a non-empty mask, single texts on which the result happens to be right are not characterised; all texts of a length are (`AlwaysRedactsIff`).
- Celery execution, the HTTP application, dashboards, configuration, compliance counting and the Rust port: I/O, library plumbing or simpler duplicates.
