# Verified models of Godel's core algorithms

Godel orchestrates teams of agents. This project models the parts of it that decide something on
their own: the dependency graph of a code base, the fuzzy error queue and the pipeline that drains
it, the comparison and merging of configurations, topic patterns of the message bus, the bulkhead,
the circuit breaker, expiring locks, the rate limit and the batching of the websocket server, the
patch transaction, and the trend test of the leak detector. Each is written in Dafny with the same
branches and constants as the TypeScript and proved against what it is for.

`dafny verify dfyconfig.toml` checks everything.

## How the models are built

- Code that changes state is a class or a method with loops; its contract ties the new state to a
  function of the old one. Laws over whole runs are lemmas about that function, by induction over
  lists of events.
- Code between two `await`s is one atomic step. The clock is an argument that does not go back.
  Results of language models, test runners, files and sockets are arguments as well.
- File names are normalised ids. `resolveImportPath` is an arbitrary function of its two arguments
  whose results are normalised as well. The program returns an absolute import as it was written;
  for one like `/a//b.ts`, which the analyzer normalises when it looks it up, nothing is claimed.
  JavaScript's `Map` is a map with its insertion order (`OrderedMaps`).
- Strings are sequences of characters that stand for UTF-16 units. Numbers are exact.

| file | models |
|---|---|
| `DependencyGraph.dfy`, `DetectCycles.dfy`, `TopologicalSort.dfy`, `DependencyBuilder.dfy`, `GraphQueries.dfy` | src/context/dependencies.ts |
| `EditDistance.dfy`, `ErrorQueue.dfy` | src/autonomic/error-listener.ts, src/autonomic/orchestrator.ts |
| `Json.dfy`, `ConfigDiff.dfy`, `ConfigMerge.dfy`, `ConfigOverrides.dfy` | src/config/gitops.ts, src/config/loader.ts |
| `TopicPatterns.dfy` | src/bus/index.ts, src/api/websocket.ts |
| `Bulkhead.dfy`, `CircuitBreaker.dfy` | src/concurrency/retry.ts |
| `Locks.dfy` | src/concurrency/index.ts |
| `WebSocketServer.dfy` | src/api/websocket-optimized.ts |
| `PatchAgent.dfy` | src/autonomic/patch-agent.ts |
| `LeakDetection.dfy` | src/benchmarking/resource-usage.ts |
| `Sequences.dfy`, `Strings.dfy`, `Options.dfy`, `OrderedMaps.dfy` | shared notions |

## What the code does, where its documentation or the first guess says otherwise

- The base configuration file overrides the one of the environment, against the comments in
  `loadConfigFiles`: a leaf of the environment's file survives exactly when the base file says
  nothing about its path or says the same (`EnvironmentFileSurvives`). An empty file parses to null
  and makes loading throw, when it is the first of its group that can be parsed (`MergeSources`).
- A null on the way to an override makes `applyEnvVarOverrides` throw; exactly then
  (`WriteAllThrows`). An array on the way is given a named property, which reads back like any
  other override (`OverridesReadBack`).
- The bulkhead's counter exceeds its limit by one for every limit (`CounterExceedsLimit`), exactly
  when it serves its queue at a full counter (`CounterExceedsWhen`), though the number of running
  operations stays within the limit.
- `halfOpenMaxRequests` counts finished requests, so it does not limit concurrent probes: any
  number can be in flight (`AnyNumberOfProbes`), and any number of beginnings is admitted exactly
  when the window shows fewer finished requests than the limit (`BeginningIsNotCounted`). The
  breaker recovers by straight successes exactly when the limit has room for the successes it
  needs (`RecoveryNeedsEnoughProbes`). The time window plays no part in opening it
  (`FailuresAddUp`, `FailedCallsAddUp`).
- The limit of locks per agent is kept by every event but a granted retry (`LimitKept`,
  `RetryExceedsLimit`).
- A failed error stays in the queue for good, is never tried again and shuts out every similar one
  (`FailureIsFinal`); polling starts nothing more exactly when `maxConcurrentJobs` jobs have ever
  been created (`PollingStops`).
- When the final announcement throws, the job of a resolved error becomes failed. Exactly that parts
  the status of a job from the place of its error; conservation, deduplication and the one pipeline
  per job hold in every run (`EveryRunIsSafe` of the error queue).
- A failed fix can leave a trace, for two reasons. A write of the revert may throw, and then no
  later file is reverted (`FullDiskLeavesTrace`); or a file is changed twice, and its second backup
  replaces the first (`SecondBackupLeavesTrace`). `FailureLeavesNoTrace` says exactly when all files have their contents back,
  and `DistinctFilesLeaveNoTrace` when no file is changed twice.
- A `#` of a bus pattern does not cover segments with line terminators (`RegexMatchesSegments`).
- A flush whose send throws leaves messages behind without a timer (`SendKeepsSchedule`).

## Model

| member | source | states |
|---|---|---|
| CycleDetection.CycleSearch.Dfs | src/context/dependencies.ts:129-152 | The recursive search keeps path, visited set and reported cycles consistent; leaving out the edges that close reported lists, the files whose calls have returned form an order with dependencies first; reports about files visited before are left alone |
| CycleDetection.CycleSearch.VisitNeighbors | src/context/dependencies.ts:136-147 | After the loop, every neighbor is finished or lies on the path, and each one on the path has been reported exactly as often as it is listed |
| CycleDetection.DetectCycles | src/context/dependencies.ts:123-165 | `hasCycles` exactly when the graph has a closed walk; every reported list is a walk along edges that closes and repeats no vertex before; every closed walk of the graph runs over the closing edge of a reported list; an edge closes as many lists as it is listed times, or none; the returned path is empty |
| CycleDetection.EveryCycleIsReported | src/context/dependencies.ts:141-146 | A closed walk that avoided every closing edge would go round an order of all files |
| DependencyGraph.OrderExcludesCycle | src/context/dependencies.ts:264-267 | A dependencies-first order of all dependents rules out every cycle |
| DependencyGraph.StuckFilesHaveCycle | src/context/dependencies.ts:324-339 | Files that each wait for another of them all run into a cycle, by pigeonhole |
| TopologicalSorting.CountDependencies | src/context/dependencies.ts:269-292 | The in-degree of a file is the number of edges that leave it, duplicates included, over keys and all edge ends |
| TopologicalSorting.InitialQueue | src/context/dependencies.ts:294-300 | The queue starts with exactly the files of in-degree zero, each once |
| TopologicalSorting.ReleaseDependents | src/context/dependencies.ts:310-321 | After a file moves to the result, in-degrees again count the edges to unprocessed files, and exactly the files that reached zero have joined the queue |
| TopologicalSorting.LeftoverIsStuck | src/context/dependencies.ts:324-326 | Files left over when the queue runs dry force a cycle, and each of them runs into one |
| TopologicalSorting.TopologicalSort | src/context/dependencies.ts:268-342 | Succeeds exactly when the edge list has no cycle, and then lists every file once with its dependencies before it, duplicate edges included; a failure has processed exactly the files from which no cycle can be reached, and reports lists that account for every closed walk of the adjacency |
| DependencyBuilding.BuiltRelationsAgree | src/context/dependencies.ts:524-535 | In a built graph the adjacency map and the edge list hold the same relation |
| DependencyBuilding.DependencyGraphBuilder.AddFile | src/context/dependencies.ts:407-432 | Sets or keeps the node, appends one edge per import and drops the cached graph |
| DependencyBuilding.DependencyGraphBuilder.AddDependency | src/context/dependencies.ts:477-488 | Adds the target once to the node, appends the edge even if it repeats, and leaves a cached graph as it is |
| DependencyBuilding.DependencyGraphBuilder.Build | src/context/dependencies.ts:493-543 | Returns the cached graph or a new one whose edges are the resolved edges in order, whose adjacency is their projection, and whose nodes are the builder's nodes and all edge ends |
| DependencyBuilding.DependencyGraphBuilder.GetTopologicalSort | src/context/dependencies.ts:646-649 | On a built graph of normalised ids the sort fails exactly when the adjacency has a cycle, the failure then carries lists that account for every closed walk and the number of cycle-free files, and a success orders exactly the nodes |
| GraphQueries.GetTransitiveDependencies | src/context/dependencies.ts:95-118 | Exactly the files reachable from the given one, without itself, cycles and repeated pushes included; it terminates |
| GraphQueries.CalculateDepth | src/context/dependencies.ts:201-218 | The length of the longest walk from a file that leaves no vertex twice and none of the visited ones |
| GraphQueries.CalculateMaxDepth | src/context/dependencies.ts:190-199 | The greatest number of edges of a walk whose vertices before the last are distinct |
| GraphQueries.BuildChainFrom | src/context/dependencies.ts:672-693 | A longest simple path from a file around the visited ones, and nothing when the file is visited |
| GraphQueries.GetLongestChain | src/context/dependencies.ts:654-667 | A longest simple path of the graph |
| GraphQueries.DepthAgainstChain | src/context/dependencies.ts:190-218 | The depth is one less than the longest chain, or equal to it exactly when some longest chain ends in a file that still has a dependency |
| GraphQueries.AcyclicDepth | src/context/dependencies.ts:654-693 | Without cycles the depth bounds every walk and the longest chain has exactly that many edges |
| EditDistance.LevenshteinDistance | src/autonomic/error-listener.ts:23-49 | The matrix method returns the least number of insertions, deletions and substitutions that turn one string into the other |
| EditDistance.LevIsEditDistance | src/autonomic/error-listener.ts:34-46 | Taking the diagonal on a match is optimal: the recurrence equals the least length of any script |
| EditDistance.ScriptIsLongEnough | src/autonomic/error-listener.ts:39-43 | No script of edits at any positions is shorter than the matrix entry |
| EditDistance.BestScript | src/autonomic/error-listener.ts:34-46 | A script of that length exists |
| EditDistance.LevZero | src/autonomic/error-listener.ts:23-49 | The distance is zero exactly for equal strings |
| EditDistance.LevSymmetric | src/autonomic/error-listener.ts:23-49 | The distance is symmetric |
| EditDistance.LevTriangle | src/autonomic/error-listener.ts:23-49 | The triangle inequality |
| EditDistance.LevBounds | src/autonomic/error-listener.ts:217-222 | The distance lies between the difference of the lengths and the longer length |
| EditDistance.SimilarityLaws | src/autonomic/error-listener.ts:217-222 | Similarity lies in [0, 1], is symmetric, and is 1 exactly for equal non-empty strings |
| EditDistance.SimilarityCountsEdits | src/autonomic/error-listener.ts:217-222 | For non-empty strings, one minus the similarity is the share of the least number of edits in the longer length |
| EditDistance.SimilarAboveFourFifths | src/autonomic/error-listener.ts:206 | The similarity exceeds 0.8 exactly when both strings are non-empty and five times the edits are fewer than the longer length |
| EditDistance.StringSimilarity | src/autonomic/error-listener.ts:217-222 | 0 when a string is empty, otherwise one minus the share of the least number of edits in the longer length |
| ErrorQueue.ErrorsAreSimilar | src/autonomic/error-listener.ts:203-215 | Messages more than 0.8 similar or traces more than 0.7 similar |
| ErrorQueue.TraceAboveSevenTenths | src/autonomic/error-listener.ts:209-239 | Traces exceed 0.7 exactly when ten times the frames of the first that occur in the second are more than seven times the longer trace |
| ErrorQueue.SimilarMeans | src/autonomic/error-listener.ts:203-239 | When two errors are similar, in numbers of edits, frames and lengths |
| ErrorQueue.SimilarToItself | src/autonomic/error-listener.ts:203-222 | An error duplicates itself unless it has neither a message nor stack frames |
| ErrorQueue.ErrorListenerService.FindSimilarError | src/autonomic/error-listener.ts:189-201 | Finds a duplicate among unprocessed and processing errors exactly when there is one |
| ErrorQueue.ErrorListenerService.HandleErrorEvent | src/autonomic/error-listener.ts:164-172 | Accepts the error exactly when it has no pending duplicate |
| ErrorQueue.ErrorListenerService.MarkAsProcessing | src/autonomic/error-listener.ts:293-300 | Moves an unprocessed error, and does nothing for others |
| ErrorQueue.ErrorListenerService.MarkAsResolved | src/autonomic/error-listener.ts:302-309 | Moves a processing error to the resolved ones, and does nothing for others |
| ErrorQueue.ErrorListenerService.MarkAsFailed | src/autonomic/error-listener.ts:311-318 | Moves a processing error back, and does nothing for others |
| ErrorQueue.MaintenanceTeamOrchestrator.ProcessError | src/autonomic/orchestrator.ts:209-249 | Starts a job and moves the error exactly when it is unprocessed, fixable and has no job |
| ErrorQueue.MaintenanceTeamOrchestrator.PollError | src/autonomic/orchestrator.ts:178-186 | One poll of an error, with the check of the number of jobs |
| ErrorQueue.MaintenanceTeamOrchestrator.TestWritten | src/autonomic/orchestrator.ts:258-274 | The step after the test writer |
| ErrorQueue.MaintenanceTeamOrchestrator.FixGenerated | src/autonomic/orchestrator.ts:276-288 | The step after the patch agent |
| ErrorQueue.MaintenanceTeamOrchestrator.PrSubmitted | src/autonomic/orchestrator.ts:290-308 | The step after the pull request, up to the resolved error |
| ErrorQueue.MaintenanceTeamOrchestrator.PipelineRejected | src/autonomic/orchestrator.ts:241-246 | The handler of a rejected pipeline |
| ErrorQueue.AcceptedUnlessPending | src/autonomic/error-listener.ts:164-201 | An error enters the queue exactly when no accepted error that is not resolved is similar to it; nothing else changes |
| ErrorQueue.JobStartsWhen | src/autonomic/orchestrator.ts:178-239 | A job starts exactly when its error is processed, or polled below the limit, and is unprocessed, fixable and without a job |
| ErrorQueue.JobAfterStep | src/autonomic/orchestrator.ts:241-308 | The status of a job after every event |
| ErrorQueue.StepKeepsCore | src/autonomic/orchestrator.ts:209-321 | Every step, a throwing final announcement included, keeps the three maps disjoint and conserving the accepted errors, no pending error similar to an earlier pending one, and one pipeline for each job |
| ErrorQueue.StepKeepsStatus | src/autonomic/orchestrator.ts:241-246 | The status of a job matches the map of its error after a step if and only if the step is not its throwing final announcement |
| ErrorQueue.StepKeepsInv | src/autonomic/orchestrator.ts:209-321 | The first part survives every step; all of it together every step but one in which a final announcement throws |
| ErrorQueue.EveryRunIsSafe | src/autonomic/orchestrator.ts:209-321 | Over every run from the start, whatever throws: errors are conserved, pending ones deduplicated, each job ran one pipeline; and the status of a job matches the map of its error if and only if its final announcement has not thrown |
| ErrorQueue.StepMovesForward | src/autonomic/orchestrator.ts:36-47 | A step moves the status of a job forward if and only if it is not its throwing final announcement |
| ErrorQueue.RunMovesForward | src/autonomic/orchestrator.ts:36-47 | Over every run histories grow, no job disappears, and its status moves forward; the one way back is from completed to failed by a throwing final announcement of that job |
| ErrorQueue.FailureIsFinal | src/autonomic/orchestrator.ts:216-220 | A failed error stays unprocessed and failed in every continuation, and every later similar error is dropped |
| ErrorQueue.PollingStops | src/autonomic/orchestrator.ts:178-186 | Polling changes nothing in any continuation exactly when as many jobs as allowed have ever been created |
| ConfigDiffing.ConfigComparer.CompareObjects | src/config/gitops.ts:48-117 | Appends exactly the differences of the two objects, each once, for any order of the keys |
| ConfigDiffing.ConfigComparer.CompareKey | src/config/gitops.ts:58-115 | The branches of the loop append exactly the differences at or below one key |
| ConfigDiffing.DiffEmpty | src/config/gitops.ts:124-126 | No differences exactly when the configurations are equal |
| ConfigDiffing.DiffPrefixFree | src/config/gitops.ts:58-115 | No reported path is a proper prefix of another |
| ConfigDiffing.DiffSwaps | src/config/gitops.ts:63-76 | Swapping the arguments swaps old and new value of every difference, and added with removed |
| ConfigDiffing.ApplyOne | src/config/gitops.ts:58-115 | Applying one difference removes it from the remaining ones and adds none |
| ConfigDiffing.ApplyDiff | src/config/gitops.ts:42-134 | Applying the differences to the old configuration gives the new one |
| ConfigDiffing.DiffConfigs | src/config/gitops.ts:42-134 | The returned list holds every difference once: it is empty exactly for equal configurations, no path lies on the way to another, the comparison the other way round lists the swapped entries, and applying it gives the new configuration; every entry shows what both configurations hold, with its kind; `identical` means equal and the summary counts each kind |
| ConfigMerging.DeepMerge | src/config/loader.ts:47-73 | The loop computes the merge of both objects for any order of the keys |
| ConfigMerging.LookupMerge | src/config/loader.ts:58-69 | At every path: two objects merge, otherwise the source's value wins, a source leaf above cuts off, and elsewhere the target shows through |
| ConfigMerging.SilentLayers | src/config/loader.ts:247-261 | A layer without a value at a path or a leaf above lets earlier layers show through |
| ConfigMerging.LastLeafWins | src/config/loader.ts:247-261 | The last layer that speaks about a path decides a leaf there |
| ConfigMerging.LoadConfigFiles | src/config/loader.ts:115-151 | The results of the environment's candidates come before those of the base candidates; each group is one empty result with a warning per broken file, up to the first that can be parsed, null included, which ends it without a warning |
| ConfigMerging.ChosenIsFirst | src/config/loader.ts:122-134 | The chosen file of a group is the first that can be parsed, or an empty configuration if there is none |
| ConfigMerging.ResultsMerge | src/config/loader.ts:122-148 | Merging the results of a group is merging its chosen file: missing and broken files leave nothing behind, and a chosen null throws |
| ConfigMerging.MergeSources | src/config/loader.ts:240-261 | Throws if and only if the first candidate of a group that can be parsed is null; otherwise the result is the merge of defaults, the environment's defaults, its file and the base file, in that order |
| ConfigMerging.EnvironmentFileSurvives | src/config/loader.ts:115-151 | A leaf of the environment's file is the final value if and only if the base file says nothing about its path or says the same |
| ConfigMerging.BaseFileWins | src/config/loader.ts:115-151 | A leaf of the base file is always the final value |
| ConfigOverriding.WriteThrows | src/config/loader.ts:180-188 | One override throws exactly when a null stands on the way |
| ConfigOverriding.FindWrite | src/config/loader.ts:180-188 | A write changes what is at and below its path and nothing beside it; what lies above keeps its kind and the items of an array, and an object is made where there was none |
| ConfigOverriding.WriteAllThrows | src/config/loader.ts:178-190 | The loop throws exactly when a null stands on the way of some override in the configuration as loaded |
| ConfigOverriding.NullAboveLoaded | src/config/loader.ts:182-185 | In a configuration as parsed, that null is found by look-up along objects |
| ConfigOverriding.OverridesReadBack | src/config/loader.ts:178-190 | After all writes each written value is found at its path, through arrays as well, and paths apart from all of them are unchanged |
| ConfigOverriding.WritesCommute | src/config/loader.ts:178-190 | Two writes whose paths lie apart commute, failures included |
| ConfigOverriding.OrderDoesNotMatter | src/config/loader.ts:178-190 | Any permutation of such overrides gives the same configuration or the same failure |
| ConfigOverriding.TablePathsApart | src/config/loader.ts:158-176 | No path of the override table is a prefix of another |
| ConfigOverriding.ApplyEnvVarOverrides | src/config/loader.ts:157-191 | Writes the set variables of the table in order; throws exactly when a null stands on the way of one of them; otherwise each can be read back |
| ConfigOverriding.GetConfigValue | src/config/loader.ts:367-379 | The value at the path, or the default when it is missing or null |
| TopicPatterns.PatternIsRewritten | src/bus/index.ts:80-84 | On well-formed patterns the four replacements act segment by segment |
| TopicPatterns.PatternToRegexItems | src/bus/index.ts:78-87 | Read back as a regular expression, the text spells out the segments of the pattern |
| TopicPatterns.AcceptsSegments | src/bus/index.ts:72-76 | The expression accepts a text, with any way of splitting it, exactly when the segments match |
| TopicPatterns.RegexMatchesSegments | src/bus/index.ts:78-103 | For well-formed patterns and every topic: the regex accepts exactly the topics whose segments match, `*` and `{x}` one non-empty segment, `#` one or more segments without line terminators |
| TopicPatterns.SegmentsMatchThemselves | src/bus/index.ts:93-94 | Every well-formed pattern matches itself |
| TopicPatterns.PlainPattern | src/bus/index.ts:97-102 | A pattern without wildcards matches only itself |
| TopicPatterns.BusDeliversBySegments | src/bus/index.ts:297-303 | Subscriptions and `matchesPattern` agree with the segments on every topic |
| TopicPatterns.MatchesTopic | src/api/websocket.ts:169-183 | True exactly when all parts before a `#` are stars or equal, a star even beyond the end of the event, or all parts are and the lengths agree |
| TopicPatterns.BusAgainstWebSocket | src/api/websocket.ts:169-183 | For patterns whose only wildcard is `*`, bus and websocket differ exactly on empty segments under a star, on every topic |
| TopicPatterns.BusAgainstWebSocketTail | src/api/websocket.ts:169-183 | For patterns that end in their only `#`: the bus delivers exactly what the websocket delivers, as long as there is a segment for the `#`, a non-empty one under every star, and no line terminator in the segments of the `#` |
| TopicPatterns.BusImpliesWebSocket | src/api/websocket.ts:169-183 | For patterns with `*` and `#` but no `{x}`, the websocket delivers whatever the bus delivers |
| Bulkheads.StepKeepsInv | src/concurrency/retry.ts:344-387 | Every step keeps: the counter counts wrappers twice, exceeds the limit by one at most and only with a wrapped operation running, and a waiting queue means a full counter |
| Bulkheads.EveryRunIsSafe | src/concurrency/retry.ts:344-387 | In every interleaving at most `maxConcurrent` operations run, they start in order of submission, and each submitted operation of the run is queued, running or done, done exactly when its end is among the events |
| Bulkheads.CounterExceedsWhen | src/concurrency/retry.ts:364-387 | A step leaves the counter at the limit plus one exactly when it serves the queue at a full counter, or is a submission in that state |
| Bulkheads.CounterExceedsLimit | src/concurrency/retry.ts:380-387 | Every limit is exceeded by one in some run |
| Bulkheads.ZeroLimitStartsNothing | src/concurrency/retry.ts:345-349 | With a limit below one nothing ever starts |
| Bulkheads.RunsDry | src/concurrency/retry.ts:364-375 | Without new submissions only a bounded number of steps remains |
| Bulkheads.IdleMeansDone | src/concurrency/retry.ts:380-387 | When nothing runs any more, the queue is empty and everything submitted is done |
| Bulkheads.Bulkhead.Execute | src/concurrency/retry.ts:344-359 | Starts or queues the operation; `processing` equals the counter |
| Bulkheads.Bulkhead.OperationSettled | src/concurrency/retry.ts:368-374 | The end of an operation, for both ways of starting it |
| Bulkheads.Bulkhead.WrapperSettled | src/concurrency/retry.ts:350-357 | The end of a wrapper |
| Bulkheads.Bulkhead.ServeQueue | src/concurrency/retry.ts:380-387 | Starts the first waiting operation, counted twice, when the counter is below the limit |
| CircuitBreaking.StepKeepsInv | src/concurrency/retry.ts:173-325 | Every event keeps the counters below their thresholds, the waiting time after an opening, and the pruned window equal to that of the whole history |
| CircuitBreaking.EveryRunIsSafe | src/concurrency/retry.ts:173-325 | Over every run: closed means fewer failures than the threshold, half open fewer successes; the pruned list shows the same window as all requests of the run since its last reset; the last failure time is that of its last failure; no operation is called within the window after an opening |
| CircuitBreaking.SequentialRunIsQuiet | src/concurrency/retry.ts:173-224 | In sequential runs nothing is recorded after the opening while the circuit is open |
| CircuitBreaking.StraightSuccessesClose | src/concurrency/retry.ts:193-204 | In sequential use, with room in the half-open limit, that many straight successes after the time window close the circuit whenever they happen |
| CircuitBreaking.RecoveryNeedsEnoughProbes | src/concurrency/retry.ts:193-204 | For every configuration: recovery by straight successes is guaranteed exactly when the half-open limit has room for them |
| CircuitBreaking.TooFewProbesRefuse | src/concurrency/retry.ts:194-203 | With too small a limit the circuit is still half open after that many quick successes and refuses the next operation |
| CircuitBreaking.BeginningIsNotCounted | src/concurrency/retry.ts:193-204 | While half open, a whole series of beginnings is admitted and in flight at once, however long it is, if and only if the window at the first of them shows fewer finished requests than the limit |
| CircuitBreaking.AnyNumberOfProbes | src/concurrency/retry.ts:193-204 | For every configuration with a positive limit and every number there is a run into a half-open state with that many operations in flight |
| CircuitBreaking.HalfOpenOutcome | src/concurrency/retry.ts:271-305 | Over every run of operations from a half-open state: it opens exactly when a failure comes before the successes still needed, and closes exactly when those come first |
| CircuitBreaking.PhaseStartsAfresh | src/concurrency/retry.ts:188-190 | Every half-open phase needs the full number of successes, whatever was counted before |
| CircuitBreaking.OpenForOneWindow | src/concurrency/retry.ts:176-191 | After every opening, by force or by a failure, the circuit stays open and admits nothing until exactly one window later, whatever is still in flight |
| CircuitBreaking.ClosingStartsAfresh | src/concurrency/retry.ts:275-281 | After every closing, by command or by recovery, the circuit opens again exactly when as many failures as the threshold follow |
| CircuitBreaking.FailuresAddUp | src/concurrency/retry.ts:290-300 | In every run of operations that begin and end, concurrently or not, a closed circuit opens if and only if the failures since the count was last cleared reach the threshold, however far apart they are; until then it counts every one |
| CircuitBreaking.FailedCallsAddUp | src/concurrency/retry.ts:173-224 | The same for whole calls of `execute`, one after the other |
| CircuitBreaking.CircuitBreaker.BeginExecute | src/concurrency/retry.ts:176-204 | The first part of `execute`, and whether it calls the operation |
| CircuitBreaking.CircuitBreaker.RecordSuccess | src/concurrency/retry.ts:271-285 | The state after a success |
| CircuitBreaking.CircuitBreaker.RecordFailure | src/concurrency/retry.ts:290-308 | The state after a failure |
| CircuitBreaking.AfterKeepsLater | src/concurrency/retry.ts:313-324 | The filter keeps exactly the requests later than the cutoff, each as often as it was there |
| CircuitBreaking.CircuitBreaker.CleanupOldRequests | src/concurrency/retry.ts:321-324 | Keeps exactly the requests later than the cutoff, in order |
| CircuitBreaking.CircuitBreaker.DoForceOpen | src/concurrency/retry.ts:236-240 | The state after a forced opening |
| CircuitBreaking.CircuitBreaker.DoForceClose | src/concurrency/retry.ts:245-251 | The state after a forced closing |
| CircuitBreaking.CircuitBreaker.DoReset | src/concurrency/retry.ts:256-266 | The initial state, with an empty list of requests |
| Locking.StepKeepsInv | src/concurrency/index.ts:128-223 | Every event keeps the spans of one lock in sequence and the number of grants balanced |
| Locking.MutualExclusion | src/concurrency/index.ts:128-223 | Over every run, through both paths, the intervals from grant to release or expiry of one lock never overlap; grants equal held plus released plus overwritten locks |
| Locking.NoGrantWhileHeld | src/concurrency/index.ts:128-171 | In terms of events: once a lock is granted, no request gets it, on either path, before it expires or the agent that got it releases it |
| Locking.GrantedWhen | src/concurrency/index.ts:128-171 | When a request is granted, read off the map, and that it then holds a new lock and other locks are untouched |
| Locking.CreatedLockIsLease | src/concurrency/index.ts:491-506 | A new lock belongs to the agent that asked, for the timeout asked for or the default, but at most for the maximum |
| Locking.NoLockOutlastsMaximum | src/concurrency/index.ts:491-506 | Over every run, no lock is or was held longer than the maximal timeout |
| Locking.CountersCount | src/concurrency/index.ts:196-197 | Over every run, `releasedCount` counts the events that deleted a lock, and the rest of the balance the grants that replaced one |
| Locking.OnlyOwnerEndsEarly | src/concurrency/index.ts:183-190 | A lock that has not expired is ended only by a release of its owner |
| Locking.EarlyEndIsRelease | src/concurrency/index.ts:176-207 | Over every run, a span that ended before its lock expired was ended by a release of the agent that held it |
| Locking.LimitKept | src/concurrency/index.ts:147-156 | The limit per agent is kept by every event except, exactly, a retry that grants a live lock to an agent at the limit |
| Locking.RetryExceedsLimit | src/concurrency/index.ts:457-462 | A run in which an agent holds more locks than the limit |
| Locking.ConcurrencyManager.AcquireLock | src/concurrency/index.ts:128-171 | Grants, refuses or sends to the retry loop, with the exact conditions; a granted lock is a lease of its request |
| Locking.ConcurrencyManager.RetryAcquire | src/concurrency/index.ts:449-476 | One round of the retry loop: grants exactly when the lock is free or expired, with a lease of the request; waits on exactly while attempts and time are left, and gives up otherwise |
| Locking.ConcurrencyManager.ReleaseLock | src/concurrency/index.ts:176-207 | Releases exactly a lock that the agent owns |
| Locking.ConcurrencyManager.ReleaseAgentLocks | src/concurrency/index.ts:212-223 | Releases all active locks of the agent, counts them, and no others |
| Locking.ConcurrencyManager.CleanupExpiredLocks | src/concurrency/index.ts:402-425 | Deletes exactly the locks that expired before now |
| WebSocketServing.WindowAcceptsUpToLimit | src/api/websocket-optimized.ts:494-506 | Within one window exactly the first messages up to the limit are accepted, message by message |
| WebSocketServing.AcceptedWithinWindow | src/api/websocket-optimized.ts:494-506 | In every run of arrivals a message is accepted exactly when fewer messages than the limit came before it in its window, where a message more than 1000 ms after the start of a window starts the next one |
| WebSocketServing.LateMessageIsAccepted | src/api/websocket-optimized.ts:499-502 | The limiter recovers: the first message more than 1000 ms after the start of a window is accepted |
| WebSocketServing.IntervalAcceptsTwiceLimit | src/api/websocket-optimized.ts:494-506 | For every run of arrivals, any interval of one window's length accepts at most twice the limit |
| WebSocketServing.TwiceLimitIsReached | src/api/websocket-optimized.ts:494-506 | For every limit the bound of twice the limit is reached |
| WebSocketServing.SendKeepsOrder | src/api/websocket-optimized.ts:183-210 | The unbatched frames followed by the pending messages are the accepted messages, even when sends throw |
| WebSocketServing.SendKeepsSchedule | src/api/websocket-optimized.ts:186-205 | The timer is set exactly when something is pending and less than a batch is pending, unless exactly a needed flush throws |
| WebSocketServing.TimerKeepsSchedule | src/api/websocket-optimized.ts:453-475 | The same for a flush by the timer |
| WebSocketServing.EveryRunDelivers | src/api/websocket-optimized.ts:183-210 | Over every run of messages and timers: the unbatched frames, batches only of two or more, followed by the pending messages are the accepted messages, one successful flush delivers exactly them, all messages are accepted if nothing throws, and the schedule holds as long as no needed flush throws |
| WebSocketServing.ClientConnection.CheckRateLimit | src/api/websocket-optimized.ts:494-506 | The new counter and window start, and whether the message is accepted |
| WebSocketServing.ClientConnection.FlushMessages | src/api/websocket-optimized.ts:453-475 | Sends one frame with all pending messages, or keeps them when the send throws |
| WebSocketServing.ClientConnection.Send | src/api/websocket-optimized.ts:183-210 | Queues a small message and flushes a full batch; flushes before a large message |
| PatchAgents.CreateDiff | src/autonomic/patch-agent.ts:27-57 | For different texts the printed string, header and counts spelled out, reads back to rows from which both texts are recovered, with a blank row exactly for each line in which they agree; for equal texts only the header is printed |
| PatchAgents.PrintLines | src/autonomic/patch-agent.ts:39-53 | The rows with a blank or minus are the old lines, those with a blank or plus the new ones; each line stands where it belongs, as a blank row exactly where both texts agree |
| PatchAgents.ParseRowsText | src/autonomic/patch-agent.ts:43-52 | Printed rows can be read back |
| PatchAgents.DiffReadsBack | src/autonomic/patch-agent.ts:31-37 | The whole printed diff can be read back, numbers included |
| PatchAgents.ApplyFix | src/autonomic/patch-agent.ts:200-246 | Succeeds exactly when every file can be read and written and the test passes, with the files overlaid by all changes; otherwise the files are those of the failure after its revert, in the order of the backups and up to the first write of the revert that throws |
| PatchAgents.RevertedFiles | src/autonomic/patch-agent.ts:241-243 | What a revert leaves in each file: its backup before the first write that throws, what that write leaves in its own file, and the content it had in every other file |
| PatchAgents.FailureLeavesNoTrace | src/autonomic/patch-agent.ts:205-243 | A failure leaves all files as they were if and only if every touched file is in one of three cases: reverted with a backup that no earlier change had spoilt, hit by the failing write of the revert with its original content left, or not reverted but holding its original content anyway |
| PatchAgents.DistinctFilesLeaveNoTrace | src/autonomic/patch-agent.ts:237-243 | With distinct files a failure leaves the files exactly as before if and only if no write of the revert throws, or that write and every file behind it leave the original contents anyway |
| PatchAgents.FullDiskLeavesTrace | src/autonomic/patch-agent.ts:241-243 | Two distinct files, a failing second write and a failing first revert: the files are not restored |
| PatchAgents.SecondBackupLeavesTrace | src/autonomic/patch-agent.ts:205-218 | Whatever the file: changed twice, the first time to something new, it is not restored when the test fails |
| LeakDetection.ClosedForms | src/benchmarking/resource-usage.ts:209-212 | The closed forms are the sums over the positions and their squares |
| LeakDetection.DeterminantSign | src/benchmarking/resource-usage.ts:214 | The denominator is positive from two samples on and zero before |
| LeakDetection.SlopeIsLeastSquares | src/benchmarking/resource-usage.ts:207-214 | From two samples on, the computed slope and no other belongs to a line whose squared error no other line undercuts |
| LeakDetection.SlopeOfLine | src/benchmarking/resource-usage.ts:207-214 | Samples on a line give back its slope exactly |
| LeakDetection.DetectMemoryLeak | src/benchmarking/resource-usage.ts:182-225 | Reports a leak exactly when there are at least two samples and their one least-squares slope is above 1024 |

## Left out

- DependencyBuilding.DependencyGraphBuilder.GetTopologicalSort: takes `resolve` to return normalised ids. The program returns absolute imports unchanged; for `/a//b.ts` imported by `/a/b.ts` its cycle search, which normalises neighbors, reports a cycle that the edge list lacks.
- DependencyBuilding.DependencyGraphBuilder.Build: path resolution (`resolveImportPath`, `normalizePath`) is an arbitrary function, and `parseAll` with its language parsers is not modelled.
- GraphQueries.GetTransitiveDependencies: looks up normalised ids only, so a path that normalisation would change is not covered.
- ErrorQueue.ErrorListenerService.HandleErrorEvent: the announcement that the listener hears itself is not modelled; the orchestrator's reaction to it is a `Process` event.
- ErrorQueue.ErrorsAreSimilar: stack frames arrive as a list of files; the regular expression that extracts them and `isAutoFixable` are inputs.
- ErrorQueue.MaintenanceTeamOrchestrator.PollError: the polling loop is split into one event per error; its snapshot order and the `start`, `pause` and `stop` states are left out, so runs include every such order.
- ConfigDiffing.ConfigComparer.CompareObjects: paths are key sequences, so keys with dots and empty keys cannot be confused; `undefined` and NaN values and object-prototype keys are left out; comparing arrays by their JSON text is comparing them as written, key order included.
- ConfigOverriding.ApplyEnvVarOverrides: works on values. The program walks nested objects by reference; sharing of sections with the default configuration is not captured. `parseValue` and environment substitution are inputs.
- ConfigOverriding.GetConfigValue: keys that arrays have of their own (indices, `length`) and object-prototype keys are left out; no path of the override table uses one.
- ConfigMerging.LoadConfigFiles: warnings are flags without their text; of a parsed value that is neither null nor an object, only its own properties are kept, which is all that merging reads.
- TopicPatterns.RegexMatchesSegments: only patterns whose wildcards fill whole segments, without `?` and backslash; the message filters of `shouldDeliver` are left out.
- Locking.MutualExclusion: before `shutdown`, which clears the map without counting. Lock ids are strings; building them from scope and resource is left out, as is deadlock detection, whose graph has no edges.
- WebSocketServing.ClientConnection.Send: on an open socket. The index of clients by address, heartbeats and metrics are left out.
- PatchAgents.ApplyFix: nobody else writes the files meanwhile; which of the two errors reaches the caller is left out; parsing the model's answer is an input.
- LeakDetection.DetectMemoryLeak: floating-point rounding; the samples are given.
- `retry` and `calculateDelay` of src/concurrency/retry.ts, the message store of the bus and its metrics: no property beyond reading one body.
- HTTP and CLI layers, secrets, schemas, logging, events for observers: no hard property.
