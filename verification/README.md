# Verified core of ncore

This project models the algorithms and protocols of ncore in Dafny and proves what they
promise, for all inputs, all iteration orders of Go maps and all interleavings.

- **Extension start-up.** `DependencyGraph` defines paths, cycles and dependencies-first
  orders. `CycleDetection` is the three-colour depth-first search, `Resolver` the cycle
  breaker, `InitOrder` the layered ordering with its in-place compaction, `Lifecycle` the
  three-phase driver.
- **Task scheduling.** `TimerQueue` is the binary heap with its ID index, `PriorityQueue`
  the multi-level queue, `WorkerPool` the pool as a transition system, `Retry` the
  execution of one task, `TimerPath` the way of timer tasks from Push to their end,
  `Stopping` what Cancel and Stop do to it.
- **Cursor paging.** `Base64` and `Decimal` are the codecs, `Paging` the cursors, the
  pages and the traversal of a store.
- **Read replicas.** `Balancer` has the selection strategies and the manager.
- **Trees.** `Tree` builds a sorted forest from a flat list.
- **Metrics and events.** `MetricStorage`, `MetricAggregation` and `MetricQuery` are the
  in-memory store, its interval aggregation and its queries, `RecentEvents` the sliding
  window of event times.

`Common`, `Sorting` and `Tasks` hold shared vocabulary. `dafny verify dfyconfig.toml` checks
everything.

Conventions: a Go map range takes the keys in an arbitrary order (an arbitrary choice from
the remaining keys). Clocks, ping results, hook results and processor results are
parameters. A panic that the code can run into is a result of the model, not a precondition;
the one exception is named under "Left out".
`sort.Slice` is not stable; where sort keys may be equal and the list's order is not
arbitrary anyway, the contracts leave open which of the equal elements comes first.

Some plausible properties do not hold of the code. The project then proves exactly when they do:

- `Paging.CursorRoundTrip`: a cursor decodes to what was encoded if and only if the ID has no colon.
- `MetricStorage.KeyRoundTrip`: metrics are found under an extension's own name if and only
  if that name has no colon.
- `Balancer.WeightedIsSafeIff`: the weighted selection never panics if and only if the total
  weight does not wrap around to zero and is reached within the replicas; without a
  wrap-around, if and only if there is a weight and there are at most as many weights as
  replicas. `Balancer.WrappedTotalPanics` is an input that fails.
- `Balancer.AlwaysFairIff`: every window of calls is fair if and only if the total weight
  divides 2^64 or there is one replica; `Balancer.FairWithoutWrap` covers the rest.
- `Retry.SuccessWithoutACall`: an execution succeeds without calling the processor if and only
  if MaxRetries is negative.
- `MetricAggregation.AggregateByInterval`: a division by zero happens if and only if the interval
  is below one second, which the option validation accepts, and there is a snapshot.
- `MetricStorage.SameKeyIff`: when two metrics with different names are filed together.
- `Resolver.CycleSurvivesIff` and `Resolver.CycleAlwaysSurvivesIff`: which cycles the resolver
  leaves behind in a run, and which in every run. `Resolver.TriangleSurvives` is one of these.
- `WorkerPool.PendingIff` and `WorkerPool.QuietPendingIff`: when the pending counter is
  non-negative and when IsEmpty is right. `WorkerPool.PendingCanBeNegative`,
  `WorkerPool.PendingCanMissATask` and `WorkerPool.PendingCanLag` are runs in which they fail.
- `Lifecycle.RunsHooksIff`: when overlapping calls of InitExtensions run every hook again.
- `Stopping.CancelFindsAllIff`: when Cancel misses a running task.
- `Stopping.PanicCanHappenIff`: when Stop can make the timer loop panic.
- `Paging.TraversalCoversIff`: which stores a traversal shows exactly.
- `Tree.SortNestsEndlesslyIff`: the recursive sort ends if and only if no node is its own ancestor.

An aggregation that is left empty is summed, but labelled as an average
(extension/metrics/memory_storage.go:336 and 354); the model follows the code.

## Model

| member | source | states |
|---|---|---|
| `DependencyGraph.PathDescends` | extension/manager/utils.go:41-68 | along a dependencies-first list every dependency path moves strictly to earlier positions and never leaves the list |
| `DependencyGraph.NoCycleThrough` | extension/registry/registry.go:123-132 | no cycle passes through a dependencies-first list |
| `DependencyGraph.OrderedIsNotBlocked` | extension/manager/utils.go:54-57 | what can be listed dependencies-first reaches neither a cycle nor an unknown name |
| `DependencyGraph.StuckIsBlocked` | extension/manager/utils.go:63-65 | a set whose members all wait for each other or for unknown names reaches a cycle or an unknown name |
| `DependencyGraph.BlockedIff` | extension/manager/utils.go:41-68 | some name is blocked if and only if the graph has a cycle or an edge to an unknown name |
| `DependencyGraph.AcyclicHasOrder` | extension/manager/utils.go:41-68 | every finite acyclic closed graph has a dependencies-first listing of all its nodes |
| `CycleDetection.Search.Enter` | extension/registry/registry.go:99-101 | pushing a node keeps the grey-stack and black-closed invariants |
| `CycleDetection.Search.Leave` | extension/registry/registry.go:117-119 | popping a node whose dependencies are all finished keeps them, and finishes the node |
| `CycleDetection.Search.Visit` | extension/registry/registry.go:104-115 | one dependency is finished afterwards, or an edge on a cycle is reported |
| `CycleDetection.Search.Dfs` | extension/registry/registry.go:98-121 | the recursion terminates; without a finding the node is finished and the stack is as before, with one an edge on a cycle is reported |
| `CycleDetection.StackEdgeClosesCycle` | extension/registry/registry.go:110-113 | an edge from the top of the stack back into the stack lies on a cycle |
| `CycleDetection.DetectCircularDependencies` | extension/registry/registry.go:88-133 | answers true if and only if the graph has a cycle, for every iteration order, and the reported edge lies on a cycle |
| `Resolver.OneLoses` | extension/registry/registry.go:233-255 | of two distinct nodes that depend on each other exactly one loses its edge |
| `Resolver.ResolvedShape` | extension/registry/registry.go:136-261 | the result has the same nodes, every list is a subsequence of the original, and no two distinct nodes depend on each other |
| `Resolver.RemovedEdge` | extension/registry/registry.go:190-254 | an edge disappears only from a cyclic graph, and only if its target is self-weak or its ends depend on each other and it leaves the end with at least as many dependencies |
| `Resolver.SurvivingCycle` | extension/registry/registry.go:206-260 | a cycle that is left contains a self loop, or any three nodes in a row on it are different |
| `Resolver.CycleSurvivesIff` | extension/registry/registry.go:168-257 | a cycle survives a run if and only if it has no self-weak node and no step with a reverse edge whose start comes first in the size order |
| `Resolver.StillCyclicIff` | extension/registry/registry.go:136-261 | the result still has a cycle if and only if the given graph has a cycle of that kind |
| `Resolver.CycleAlwaysSurvivesIff` | extension/registry/registry.go:152-257 | a cycle survives every run, whatever the order of equally sized nodes, if and only if it has no self-weak node and each step with a reverse edge is a self loop or leads from strictly fewer dependencies to more |
| `Resolver.TriangleSurvives` | extension/registry/registry.go:206-257 | for three extensions that declare a -> [b], b -> [c, a], c -> [a], the cycle survives every run, which cuts only b -> a |
| `Resolver.WeakenNode` | extension/registry/registry.go:176-202 | one node loses exactly the entry's name, and only if the entry lists itself as weak |
| `Resolver.SelfWeakIff` | extension/registry/registry.go:176-190 | a name is self-weak if and only if an entry bears it and lists it as weak |
| `Resolver.BreakWeak` | extension/registry/registry.go:168-204 | every list loses exactly the self-weak names, for every iteration order |
| `Resolver.SortNodes` | extension/registry/registry.go:152-163 | the nodes, each once, by ascending number of dependencies |
| `Resolver.BreakPair` | extension/registry/registry.go:216-255 | a mutual dependency costs the later node its edge; the alternative branch is unreachable |
| `Resolver.BreakPairs` | extension/registry/registry.go:211-257 | the double loop removes exactly the losing edges of the graph it started from |
| `Resolver.ResolveDependencyGraph` | extension/registry/registry.go:136-261 | the result is the closed form: unchanged if acyclic, else without self-weak names, else additionally without losing edges; it has the shape of `Resolver.ResolvedShape` |
| `Resolver.CollectDependencies` | extension/registry/registry.go:278-287 | all dependencies, then the weak ones that are registered, in order |
| `Resolver.DeclaredEdgeIff` | extension/registry/registry.go:278-287 | the declared graph has the edge from a to b if and only if a is registered and b is one of its dependencies, or a registered one of its weak dependencies |
| `Resolver.DeclaredList` | extension/registry/registry.go:278-287 | in each list the dependencies stand first and the weak ones follow in their order |
| `Resolver.GetExtensionsAndDependencies` | extension/registry/registry.go:264-296 | the resolved form of the declared graph of the whole registry |
| `InitOrder.SweepProperties` | extension/manager/utils.go:45-61 | a sweep loses no name, only appends names whose dependencies are in, and either shrinks the waiting list or finds every waiting name unready |
| `InitOrder.SweepInPlace` | extension/manager/utils.go:41-61 | the compaction inside the array being read gives the same order and waiting list as the sweep on values |
| `InitOrder.Classify` | extension/manager/utils.go:23-32 | the extensions split into those without and those with dependencies, each once |
| `InitOrder.StuckNamesAreBlocked` | extension/manager/utils.go:63-65 | without progress the waiting names are exactly the extensions that reach a cycle or an unknown name |
| `InitOrder.GetInitOrder` | extension/manager/utils.go:11-71 | success lists every extension once, dependencies strictly earlier, the dependency-free ones first and sorted, and no extension is blocked; failure names exactly the blocked extensions |
| `InitOrder.CycleIffBlocked` | extension/manager/utils.go:41-68 | in a closed graph some extension is blocked if and only if there is a cycle, so the search and the ordering agree |
| `Lifecycle.RunPhase` | extension/manager/lifecycle.go:110-128 | one phase runs in order up to and including the first failing hook |
| `Lifecycle.InitializeInPhases` | extension/manager/lifecycle.go:99-133 | the invoked hooks are the schedule, or its prefix that ends with the only failing hook |
| `Lifecycle.EachHookOnce` | extension/manager/lifecycle.go:109-129 | no hook of an extension is invoked twice |
| `Lifecycle.InitAfterDependencies` | extension/manager/lifecycle.go:109-129 | when Init of x runs, every PreInit and the Init of every resolved dependency of x have run and succeeded |
| `Lifecycle.InitAfterDeclared` | extension/manager/lifecycle.go:35-129 | if the declared graph has no cycle, Init of every dependency and of every registered weak dependency of x has succeeded before Init of x runs |
| `Lifecycle.PostInitAfterInit` | extension/manager/lifecycle.go:106-129 | when a PostInit runs, every PreInit and every Init has run and succeeded |
| `Lifecycle.FullStartup` | extension/manager/lifecycle.go:106-132 | a successful start-up runs all three hooks of every extension, and all succeed |
| `Lifecycle.ResolvedIsClosed` | extension/manager/lifecycle.go:35-49 | if all dependencies are registered the resolved graph has no unknown names |
| `Lifecycle.BlockedIffCyclicOrUnknown` | extension/manager/lifecycle.go:35-55 | for any known extensions and any registry, ordering fails if and only if the resolved graph has a cycle or an edge to an unknown name |
| `Lifecycle.BlockedIffStillCyclic` | extension/manager/lifecycle.go:35-55 | after the availability check has passed, and if known extensions declare what the registry says, ordering fails if and only if the resolved graph still has a cycle, whichever extensions were loaded before |
| `Lifecycle.Manager.CheckDependencies` | extension/manager/lifecycle.go:136-145 | passes if and only if every dependency is known, else names a missing one |
| `Lifecycle.Manager.MergeRegistry` | extension/manager/lifecycle.go:37-44 | the registered extensions are added with their dependencies, known ones keep their entry, and nothing else changes |
| `Lifecycle.Manager.Prepare` | extension/manager/lifecycle.go:35-56 | a plan: an order that respects the resolved graph, or the exact reason why there is none |
| `Lifecycle.Manager.InitExtensions` | extension/manager/lifecycle.go:21-77 | for a call that no other overlaps: initialized is set exactly by a full successful schedule; a second call runs nothing; without a plan nothing runs |
| `Lifecycle.RunsHooksIff` | extension/manager/lifecycle.go:22-76 | in every interleaving of any number of calls, a call runs hooks if and only if it made its test before any call had ended with success |
| `Lifecycle.SuccessOnceWithoutOverlap` | extension/manager/lifecycle.go:22-76 | if no call makes its test while another is under way, at most one call succeeds |
| `TimerQueue.RootIsEarliest` | messaging/queue/timer.go:35-37 | the root of a heap is its earliest element |
| `TimerQueue.UpStep` | messaging/queue/timer.go:31-41 | a sift-up step moves the only violation to the parent |
| `TimerQueue.DownStep` | messaging/queue/timer.go:31-41 | a sift-down step moves the only violation to the earlier child |
| `TimerQueue.TimerQueue.constructor` | messaging/queue/timer.go:75-86 | an empty valid queue with all counters at zero, capacity 1000 if none is given |
| `TimerQueue.TimerQueue.Up` | messaging/queue/timer.go:119 | sifting up restores heap order and permutes only the first elements |
| `TimerQueue.TimerQueue.Down` | messaging/queue/timer.go:140 | sifting down restores heap order, or leaves everything in place and says so |
| `TimerQueue.TimerQueue.HeapPush` | messaging/queue/timer.go:43-45 | adds one element and keeps heap order |
| `TimerQueue.TimerQueue.HeapRemove` | messaging/queue/timer.go:47-53 | removes exactly the element at a position, also from the middle, and keeps heap order |
| `TimerQueue.TimerQueue.Push` | messaging/queue/timer.go:89-129 | the error cases in order; success adds exactly this task under its ID, pending, and adds one to the enqueue counter, and to the overdue counter if the trigger time has passed; no other counter changes; heap, index and capacity stay consistent |
| `TimerQueue.TimerQueue.Pop` | messaging/queue/timer.go:132-145 | removes and returns an earliest task and counts it as dequeued, or nothing from an empty queue |
| `TimerQueue.TimerQueue.Cancel` | messaging/queue/timer.go:148-168 | removes exactly the task with the ID, wherever it stands, marks it canceled and counts it as canceled |
| `TimerQueue.TimerQueue.DueTasks` | messaging/queue/timer.go:171-186 | removes and returns, once each and in non-decreasing trigger order, exactly the tasks whose trigger time lies before now, and counts each as dequeued |
| `TimerQueue.TimerQueue.Peek` | messaging/queue/timer.go:197-205 | an earliest task, without removing it |
| `TimerQueue.TimerQueue.Clear` | messaging/queue/timer.go:226-232 | empties heap and index; no counter changes |
| `PriorityQueue.PriorityQueue.constructor` | messaging/queue/priority.go:70-91 | an empty valid queue with at least levels 0 and 1 |
| `PriorityQueue.PriorityQueue.ContentsDescend` | messaging/queue/priority.go:16-32 | in every valid state the queue is one list ordered by descending priority |
| `PriorityQueue.PriorityQueue.HigherStandsFirst` | messaging/queue/priority.go:133-164 | of two tasks in the list the one with the higher priority stands first |
| `PriorityQueue.PriorityQueue.Push` | messaging/queue/priority.go:94-130 | the error cases in order; success keeps a priority between 0 and the maximum, turns a lower one into 0 and a higher one into the maximum, inserts behind all tasks of that priority or higher and before all lower ones, and counts one enqueued task |
| `PriorityQueue.InsertedAt` | messaging/queue/priority.go:122-124 | position by position: everything of at least the priority stays in front of the inserted task, everything lower behind it, in the old order |
| `PriorityQueue.RemovedAt` | messaging/queue/priority.go:233 | position by position: a removal leaves everything else in its order |
| `PriorityQueue.PriorityQueue.Pop` | messaging/queue/priority.go:133-164 | removes and returns the head of the list and counts it as dequeued |
| `PriorityQueue.PriorityQueue.TakeFromLevel` | messaging/queue/priority.go:190-213 | removes a prefix of the list from levels, index and size |
| `PriorityQueue.PriorityQueue.PopBatch` | messaging/queue/priority.go:167-217 | removes and returns the first min(n, size) elements of the list, as that many Pops would, and counts each as dequeued |
| `PriorityQueue.PriorityQueue.Peek` | messaging/queue/priority.go:308-319 | the head of the list |
| `PriorityQueue.PriorityQueue.PeekBatch` | messaging/queue/priority.go:322-350 | exactly what PopBatch would return |
| `PriorityQueue.PriorityQueue.Cancel` | messaging/queue/priority.go:220-248 | removes exactly the task with the ID; all others keep their order |
| `PriorityQueue.PriorityQueue.UpdatePriority` | messaging/queue/priority.go:251-294 | the new priority is kept if it lies between 0 and the maximum, else it becomes the nearer of the two; the task moves behind those of that priority; all others keep their order; nothing moves if the priority is the same |
| `PriorityQueue.PriorityQueue.Clear` | messaging/queue/priority.go:372-384 | empties every level and the index |
| `WorkerPool.StepKeepsTasks` | concurrency/worker/worker.go:203-266 | every step keeps first-in first-out order and the multiset of received tasks = held + completed + failed |
| `WorkerPool.StepKeepsCounters` | concurrency/worker/worker.go:203-266 | every step keeps the four counters exact up to the updates under way |
| `WorkerPool.RunKeepsInvariant` | concurrency/worker/worker.go:175-266 | both hold in every state of every interleaving, with a buffered or an unbuffered channel |
| `WorkerPool.PoolAccounting` | concurrency/worker/worker.go:175-266 | accepted = queued + held + completed + failed, pending = queued + received-not-subtracted - sent-not-added, active workers between 0 and the number of workers |
| `WorkerPool.OutcomesAreCounted` | concurrency/worker/worker.go:256-265 | in every state of every interleaving, completed tasks with those about to be counted as completed are exactly the decisions for success so far, in number and task by task, and the failed ones the decisions for failure |
| `WorkerPool.AfterShutdown` | concurrency/worker/worker.go:183-200 | when all workers have exited, accepted = completed + failed + left in the channel |
| `WorkerPool.PendingIff` | concurrency/worker/worker.go:203-234 | in every state of every interleaving the pending count is non-negative if and only if the Submit calls under way are at most the queued and just received tasks, and IsEmpty is right about the channel if and only if the two sides of that count balance or not as the channel is empty or not |
| `WorkerPool.QuietPendingIff` | concurrency/worker/worker.go:291-293 | with no Submit under way the pending count is zero if and only if the channel is empty and no worker has just received a task |
| `WorkerPool.PendingCanMissATask` | concurrency/worker/worker.go:203-211 | from every initial pool with a buffer some run makes IsEmpty true of a channel that holds a task |
| `WorkerPool.PendingCanBeNegative` | concurrency/worker/worker.go:203-234 | from every initial pool with a worker some run makes the pending count negative |
| `WorkerPool.PendingCanLag` | concurrency/worker/worker.go:203-234 | from every initial pool with a worker some run, with no Submit under way, leaves a pending count of one for an empty channel |
| `WorkerPool.WorkerGoesOn` | concurrency/worker/worker.go:203-266 | a worker with a task goes on, one that waits takes a task as soon as there is one, and Submit is refused only by a full channel |
| `WorkerPool.ShutdownProgresses` | concurrency/worker/worker.go:183-228 | after the channel is closed every step strictly decreases a measure |
| `WorkerPool.ShutdownEndsWithAllExited` | concurrency/worker/worker.go:217-227 | when a canceled pool can take no further step, every worker has exited |
| `WorkerPool.ShutdownIsBounded` | concurrency/worker/worker.go:183-200 | the part of any run after the close has a bounded length |
| `Retry.OutcomeIsUnique` | messaging/queue/queue.go:459-492 | the promise of the retry loop determines the number of calls and the result |
| `Retry.SuccessWithoutACall` | messaging/queue/queue.go:462-491 | no call is made, and success reported, if and only if MaxRetries is negative |
| `Retry.RetryableIff` | messaging/queue/queue.go:508-543 | which errors are retried: predefined ones, then what the error says of itself, then a refused connection, and a timeout unless the host is unknown |
| `Retry.HasSubstringIff` | messaging/queue/queue.go:533-540 | a text contains a part if and only if it is something, the part, and something |
| `Retry.OutcomeEnds` | messaging/queue/queue.go:459-492 | the replies of the processor and the ending: only retryable errors before the last, then success, a permanent or last error, or an interruption |
| `Retry.EndsIsOutcome` | messaging/queue/queue.go:459-492 | conversely each such sequence of replies with its ending is an outcome of the retry loop |
| `Retry.Executor.ProcessTaskWithRetry` | messaging/queue/queue.go:459-492 | at most MaxRetries + 1 calls, each repeated call after a retryable error and no cancellation; success, a permanent or final error, or cancellation ends it; retry counters match |
| `Retry.Executor.ExecuteTask` | messaging/queue/queue.go:431-456 | for an execution that no other with the same ID overlaps: the final status and exactly one of the success and failure counters follow the result; the processing entry is gone afterwards |
| `TimerPath.StepKeepsPlaces` | messaging/queue/queue.go:361-566 | every step keeps each accepted timer task in exactly one of heap, due list, channel, worker, execution, success and failure |
| `TimerPath.StepKeepsPast` | messaging/queue/timer.go:171-186 | what has left the heap is past its trigger time |
| `TimerPath.StepKeepsStartsOnce` | messaging/queue/queue.go:332-338 | a task is executed at most once per accepted push |
| `TimerPath.StepKeepsCallsLimited` | messaging/queue/queue.go:462-478 | the processor is called at most MaxRetries + 1 times for a task, never for a negative MaxRetries |
| `TimerPath.StepKeepsRetriesCaused` | messaging/queue/queue.go:485-488 | every repeated call follows a retryable error of the attempt before |
| `TimerPath.StepKeepsSuccessExplained` | messaging/queue/queue.go:445-452 | a success has a reply without error, or a negative MaxRetries |
| `TimerPath.StepKeepsPromise` | messaging/queue/queue.go:431-492 | each execution ends exactly as the retry loop promises for the replies it has had; a task that the pool refused was never executed |
| `TimerPath.StepKeepsStartsOnTime` | messaging/queue/queue.go:546-566 | no execution starts before or at its trigger time |
| `TimerPath.TimerPathSafety` | messaging/queue/queue.go:361-566 | all of these hold in every state of every run |
| `TimerPath.TaskGoesOn` | messaging/queue/queue.go:431-566 | in every reachable state a task that has left the heap is finished or can move on, or waits only for those in front of it |
| `TimerPath.DueTasksIsDueList` | messaging/queue/timer.go:171-186 | what DueTasks of the heap returns is what the transition system takes from its heap |
| `Stopping.PathIsSafe` | messaging/queue/queue.go:353-566 | all that is proved of the way of a timer task also holds with Stop and the processing map around it |
| `Stopping.CancelFindsAllIff` | messaging/queue/queue.go:417-440 | in a run, Cancel finds every running task under its ID at all times if and only if at no time two running tasks have the same ID |
| `Stopping.CancelFindsOnlyRunning` | messaging/queue/queue.go:417-440 | in every reachable state Cancel finds only running tasks, under their own ID |
| `Stopping.SameIdCanRunTwice` | messaging/queue/queue.go:431-440 | from every initial state some run executes two tasks with the same ID at the same time |
| `Stopping.PanicCanHappenIff` | messaging/queue/queue.go:353-357 | from a reachable state a send on the closed channel can still happen if and only if processTimers has not returned |
| `Stopping.PanicIsNext` | messaging/queue/queue.go:555-557 | once the channel is closed while collected tasks are not submitted yet, nothing averts the panic |
| `Base64.EncodeRoundTrip` | paging/paging.go:47-52 | decoding undoes encoding for every byte string (section 5 of RFC 4648, with padding) |
| `Base64.EncodeInjective` | paging/paging.go:47-49 | different values have different cursors |
| `Base64.DigitIs` | paging/paging.go:48 | the URL-safe alphabet (section 5 of RFC 4648) |
| `Base64.EncodeThreeBytes` | paging/paging.go:48 | three bytes become four digits with the same 24 bits |
| `Base64.EncodeTwoBytes` | paging/paging.go:48 | two final bytes become three digits and one padding character |
| `Base64.EncodeOneByte` | paging/paging.go:48 | one final byte becomes two digits and two padding characters |
| `Base64.LineBreaksAreSkipped` | paging/paging.go:52 | line breaks make no difference to decoding |
| `Base64.FirstQuantum` | paging/paging.go:52 | what can be decoded comes in groups of four characters of the alphabet, with padding only in the last group |
| `Decimal.FormatRoundTrip` | paging/paging.go:61 | parsing undoes printing for every 64-bit integer, negative ones included |
| `Decimal.DigitAt` | paging/paging.go:61 | the characters of a printed number are its decimal digits, without leading zeros |
| `Decimal.FormatIs` | paging/paging.go:61 | a negative number is a minus in front of the digits of its magnitude |
| `Decimal.ParseNatSnoc` | paging/paging.go:61 | one digit more multiplies by ten and adds its value |
| `Decimal.ParseIs` | paging/paging.go:61 | digits with or without a sign are a number if they fit into 64 bits, and an error otherwise |
| `Paging.CursorRoundTrip` | paging/paging.go:47-66 | the cursor of "id:timestamp" decodes to (id, timestamp) if and only if the ID has no colon |
| `Paging.AcceptedCursorIff` | paging/paging.go:51-66 | a cursor decodes to (id, timestamp) if and only if it encodes the ID, which has no colon, a colon and a number of that value |
| `Paging.CursorErrors` | paging/paging.go:51-60 | which cursors are rejected as badly encoded, and which for a missing colon |
| `Paging.NormalizeParams` | paging/paging.go:35-45 | the direction becomes backward if it is that up to case and surrounding space, else forward; a limit between 1 and 1024 is kept and any other becomes 256; the cursor is trimmed |
| `Paging.Directions` | paging/paging.go:38-40 | the two directions are the words forward and backward |
| `Paging.NormalizeTwice` | paging/paging.go:35-45 | normalizing normalized parameters changes nothing |
| `Paging.TrimSpaceIs` | paging/paging.go:36-37 | trimming removes white-space characters at both ends, only these, and all of them |
| `Paging.AnyCase` | paging/paging.go:37 | a direction is recognized in any mixture of upper and lower case |
| `Paging.TrimKeepsCursor` | paging/paging.go:36 | trimming leaves encoded cursors unchanged |
| `Paging.ReverseInPlace` | paging/paging.go:106-109 | the swap loop reverses the slice |
| `Paging.BuildPage` | paging/paging.go:78-123 | the page on values, and field by field: shown items in both directions, total, cursor, HasNext, HasPrev and which item each cursor decodes to |
| `Paging.Paginate` | paging/paging.go:70-124 | one fetch of limit + 1 items with normalized parameters, and its error, or its page field by field: shown items, total, cursor, HasNext, HasPrev and which item each cursor decodes to, in both directions |
| `Paging.PageAt` | paging/paging.go:70-124 | the page for a cursor that leads to a position holds the next items, and its NextCursor leads behind the first item that has the value of its last item |
| `Paging.TraversalCoversIff` | paging/paging.go:70-124 | a traversal from the empty cursor shows the store exactly if and only if every item that ends a page has a non-empty value that no earlier item has |
| `Paging.TraversalCovers` | paging/paging.go:70-124 | with distinct non-empty cursor values every traversal from the empty cursor shows the whole store once and in order, in full pages but for the last, with HasNext false on the last page only |
| `Paging.TraversalEnds` | paging/paging.go:70-124 | if every item that ends a page stands alone, following NextCursor comes to an end and shows the whole store |
| `Paging.EmptyValueRestarts` | paging/paging.go:92-95 | a page that has a successor has an empty NextCursor if and only if its last item has an empty cursor value |
| `Sorting.FilterSort` | types/tree.go:52-57 | any sub-list of a stably sorted list is the stable sort of that sub-list of the input |
| `Sorting.SortOfSorted` | types/tree.go:52-57 | sorting a sorted list stably changes nothing |
| `Sorting.StringLeIff` | types/tree.go:74-75 | strings are ordered by the first differing character, and a prefix comes first |
| `Tree.NodesComparable` | types/tree.go:66-79 | values of one type are totally preordered by compareSortValues |
| `Tree.AcyclicHasParentsFirst` | types/tree.go:30-41 | an acyclic parent relation admits a list with parents first |
| `Tree.FlatteningIsPermutation` | types/tree.go:30-41 | walking the forest from its roots meets every node exactly once |
| `Tree.KidsOfSorted` | types/tree.go:19-41 | the children in the sorted list are the stably sorted input nodes that name the parent |
| `Tree.SortInPlace` | types/tree.go:20-23 | the input slice is stably sorted |
| `Tree.AttachOne` | types/tree.go:31-41 | a node goes to the roots or to the end of its parent's children, and nowhere else |
| `Tree.Attach` | types/tree.go:30-41 | the roots are exactly the nodes without a known parent, and every node's own children are followed by exactly the nodes that name it, in order |
| `Tree.SortChildren` | types/tree.go:52-63 | without cycles the recursion ends, the children of the node and of everything below it are stably sorted, and what was sorted stays so |
| `Tree.SortNestsEndlesslyIff` | types/tree.go:52-63 | the recursion nests to any depth if and only if some node is its own ancestor |
| `Tree.BuildTree` | types/tree.go:19-49 | for unique IDs, no preset children and acyclic parents: roots and children are the right input nodes, stably sorted, and the flattened forest is a permutation of the input |
| `Tree.ForestMeans` | types/tree.go:19-79 | of the forest that BuildTree returns: the roots are the nodes without a parent among the nodes, the children of a node the nodes that name it, and both ascend by int, int64, float or string value |
| `Balancer.TotalWeight` | data/connection/database.go:140-144 | the sum of the weights, wrapped around at 64 bits |
| `Balancer.Select` | data/connection/database.go:149-159 | the first replica whose accumulated weight, wrapped at 64 bits, exceeds the number; the fall-through return is unreachable even after a wrap-around |
| `Balancer.WeightedFairness` | data/connection/database.go:146-156 | in every window of totalWeight consecutive counter values replica i is chosen weights[i] times |
| `Balancer.FairWithoutWrap` | data/connection/database.go:135-160 | so it is for every window of calls in which the 64-bit counter does not wrap |
| `Balancer.FairCalls` | data/connection/database.go:135-160 | so the results of that many successive calls hold each of the distinct replicas exactly as often as its weight says |
| `Balancer.AlwaysFairIff` | data/connection/database.go:147 | for a total below 2^64, every window of calls is fair, counter wrap included, if and only if the total divides 2^64 or there is one replica |
| `Balancer.Next` | data/connection/database.go:92-160 | what each strategy picks; NoSlaves if and only if there are none; a panic for a total that is or wraps to zero, or past the end of the replicas |
| `Balancer.WeightedIsSafeIff` | data/connection/database.go:140-159 | for any weights, no counter value makes the weighted selection panic if and only if the wrapped total is not zero and the accumulated weight reaches it within the replicas |
| `Balancer.WeightedIsSafeWithoutWrapIff` | data/connection/database.go:140-159 | for positive weights with a total below 2^64 that is: 0 < number of weights <= number of replicas |
| `Balancer.WrappedTotalPanics` | data/connection/database.go:140-147 | four connected replicas of weight 2^62 make the selection divide by zero |
| `Balancer.Weights` | data/connection/database.go:119-126 | one weight per configured replica: its own if that is positive, else one |
| `Balancer.EnoughRetries` | data/connection/database.go:239-262 | round robin meets every reachable replica with as many tries as replicas, or, if the counter wraps on the way, with one less than twice as many |
| `Balancer.EnoughWeightedRetries` | data/connection/database.go:239-262 | without a wrap-around the weighted selection finds a reachable weighted replica within as many tries as the weights sum up to |
| `Balancer.DBManager.Slave` | data/connection/database.go:239-262 | a returned replica is reachable; for round robin and for weights, a replica is found, or there is a panic, if and only if one of the next maxRetry + 1 counter values leads there and none before it settles the matter otherwise; no crash where the selection is safe; "no available slaves" never arises |
| `Balancer.DBManager.Health` | data/connection/database.go:289-317 | exactly the reachable replicas stay, in order, or the master alone; without the master nothing changes; the list stays non-empty and holds only originals and the master |
| `Balancer.NewDBManager` | data/connection/database.go:163-208 | fails exactly without a master or with an unknown strategy; starts with the connected replicas or the master |
| `Balancer.ConnectedIs` | data/connection/database.go:174-182 | the replica list holds the connections that could be made, in the order of the configuration |
| `Balancer.FreshWeightedManagerIsSafeIff` | data/connection/database.go:174-197 | exactly when a new weighted manager is free of panics; for a total below 2^64 that is if one replica is configured, or several and all of them connected |
| `MetricStorage.KeyRoundTrip` | extension/metrics/memory_storage.go:216-226 | parsing undoes building if and only if the extension name has no colon |
| `MetricStorage.ParsedName` | extension/metrics/memory_storage.go:216-226 | for any extension name, parsing yields its part up to the first colon |
| `MetricStorage.SameKeyIff` | extension/metrics/memory_storage.go:216-218 | two metrics share a key if and only if their names are equal or differ by moving a part of one name across a colon |
| `MetricStorage.MemoryStorage.Store` | extension/metrics/memory_storage.go:32-53 | the error cases in order; success appends to the list of the key; the total stays the number of snapshots held |
| `MetricStorage.MemoryStorage.StoreBatch` | extension/metrics/memory_storage.go:56-79 | every list grows by exactly the valid snapshots of its key, in order; the total stays exact |
| `MetricStorage.StoredIs` | extension/metrics/memory_storage.go:65-73 | of a batch exactly the snapshots with an extension name and a metric type are stored, in order |
| `MetricStorage.MemoryStorage.Keep` | extension/metrics/memory_storage.go:175-182 | the snapshots after the cutoff, in order, and the number of the others |
| `MetricStorage.MemoryStorage.Cleanup` | extension/metrics/memory_storage.go:169-196 | every list keeps, in order, exactly the snapshots later than the cutoff; no empty list stays; the total stays exact |
| `MetricAggregation.CalculateAggregation` | extension/metrics/memory_storage.go:348-396 | the sum wrapped at 64 bits, that sum divided with truncation, maximum, minimum, count, or a latest value |
| `MetricAggregation.AverageIsBetween` | extension/metrics/memory_storage.go:361-366 | unless the sum wraps around, an average lies between minimum and maximum |
| `MetricAggregation.GroupByInterval` | extension/metrics/memory_storage.go:304-311 | each bucket holds exactly the snapshots of its interval, in order |
| `MetricAggregation.PointCovers` | extension/metrics/memory_storage.go:308-315 | from 1970 on, the point at T stands for exactly the snapshots whose second lies from T on and before the next interval; before 1970 for those up to T and behind the interval before |
| `MetricAggregation.CollectPoints` | extension/metrics/memory_storage.go:313-322 | one point per bucket, with the start of the interval and the aggregate |
| `MetricAggregation.SortedPointsAreSeries` | extension/metrics/memory_storage.go:324-327 | after sorting, one point per interval in strictly ascending time |
| `MetricAggregation.AggregateByInterval` | extension/metrics/memory_storage.go:299-345 | a series truncated to the limit, nothing for no data, or a division by zero exactly for data and an interval below one second; the seconds may be rounded up from 2^24 on |
| `MetricAggregation.SeriesAddsUp` | extension/metrics/memory_storage.go:354-359 | the counts of the buckets add up to the number of snapshots, and the sums to the total sum modulo 2^64 |
| `MetricAggregation.SeriesMaximum` | extension/metrics/memory_storage.go:368-375 | the largest bucket maximum is the overall maximum, and conversely |
| `MetricAggregation.SeriesMinimum` | extension/metrics/memory_storage.go:377-384 | the smallest bucket minimum is the overall minimum, and conversely |
| `MetricAggregation.SeriesLatest` | extension/metrics/memory_storage.go:389-395 | without a known aggregation the last point has a latest value of all snapshots |
| `MetricQuery.SelectsByName` | extension/metrics/memory_storage.go:92-101 | a filter by extension name selects by the snapshots' names up to their first colon; so by the whole name if and only if that has no colon |
| `MetricQuery.MatchesIff` | extension/metrics/memory_storage.go:229-250 | a snapshot matches if and only if its time lies strictly between start and end and it bears all labels asked for |
| `MetricQuery.ValidIff` | extension/metrics/types.go:90-125 | which query options are valid |
| `MetricQuery.TakeLatest` | extension/metrics/memory_storage.go:117-123 | the latest n by descending time; no other snapshot is later than one of these |
| `MetricQuery.PointsAre` | extension/metrics/memory_storage.go:273-278 | each raw point has the time and the value of its snapshot |
| `MetricQuery.AnswerFor` | extension/metrics/memory_storage.go:259-296 | raw points of the latest snapshots by ascending time, or the interval series; a division by zero exactly for an interval between zero and one second |
| `MetricQuery.AnswerBearsNames` | extension/metrics/memory_storage.go:290-296 | if extension names have no colon every snapshot behind an answer bears its names |
| `MetricQuery.Query` | extension/metrics/memory_storage.go:82-133 | fails exactly for invalid options, crashes exactly for a sub-second interval and a match; else one answer per key with matching snapshots and none besides, for every iteration order |
| `MetricQuery.QueryAddsUp` | extension/metrics/memory_storage.go:82-133 | without a limit the points of all answers count each matching snapshot of the store exactly once, or sum them up modulo 2^64 |
| `MetricQuery.EverythingIsCounted` | extension/metrics/memory_storage.go:82-133 | a count query that matches everything yields the number of snapshots that Total reports |
| `MetricQuery.GetLatest` | extension/metrics/memory_storage.go:136-166 | the latest snapshots, 10 by default, among exactly those held under keys of the extension |
| `MetricQuery.GathersByName` | extension/metrics/memory_storage.go:148-153 | these are exactly the snapshots stored under an extension name whose part up to the first colon is the given one |
| `RecentEvents.WindowStep` | extension/event/dispatcher.go:117-144 | trimming and capping the old window plus the new event gives the window of the whole longer history |
| `RecentEvents.WindowCount` | extension/event/dispatcher.go:223-242 | the window contains min(1000, w) of the w events of the last minute before any later time |
| `RecentEvents.InLastMinuteIs` | extension/event/dispatcher.go:232-239 | the recent events are those less than 60 seconds before the given time, counted by position |
| `RecentEvents.CapIs` | extension/event/dispatcher.go:138-143 | more than 1000 events are cut to the last 1000 |
| `RecentEvents.Dispatcher.RecordRecentEvent` | extension/event/dispatcher.go:117-144 | for any event times the buffer is the old one with the event, without the stale times at its front, capped, and stays an end of the history; the number of events lost to the cap is exact; if times never went back the buffer is the last min(1000, w) events of the trailing minute |
| `RecentEvents.Dispatcher.DropFront` | extension/event/dispatcher.go:133-143 | shifting down in place and cutting off drops exactly the front |
| `RecentEvents.Dispatcher.EventsPerMinute` | extension/event/dispatcher.go:223-242 | the rate never exceeds min(1000, w); at a time not before any event, in whatever order these came, it misses at most what the cap has dropped, so it is exact until then; if times never went back it is min(1000, w) |

## Left out

- Registration, log messages and metadata of extensions; infrastructure checks, optional services and ready events of the start-up; only the hooks that the phases call are traced.
- Mutexes: the queues, the store and the dispatcher are sequential objects, because every method holds one lock throughout. The manager does not: `Lifecycle.RunsHooksIff` says what overlapping calls do, but the calls themselves are modelled one at a time. The worker pool, the timer path and its stopping are the concurrent models.
- TaskQueue.Push, PushBatch and Cancel as methods: routing by trigger time and priority is a three-way branch; the timer route is the Push step of `TimerPath`.
- normalQueue and the priority queue as sources of work: nothing in the repository drains them into the pool.
- A Submit on a closed channel, which panics: `WorkerPool` has no Submit after Stop, and one Start. For the timer loop `Stopping` says when it happens.
- lastEmpty times, wait times and processing times of the queues and the pool.
- The branches of isRetryableError are modelled over what errors.Is and errors.As report; error wrapping itself is not.
- Backward traversal: the backward page is modelled, but its cursors do not line up with HasNext and HasPrev, so there is no traversal theorem for it.
- `strings.ToLower` beyond the letters that can occur in "forward" and "backward".
- Tree.BuildTree: nodes with equal IDs, of which only the last is found as a parent, and nodes that come with children, which `Tree.Attach` and `Tree.SortChildren` cover step by step. Sort values of different types, whose comparison panics, and NaN sort values.
- Balancer.DBManager.Slave: other callers that advance the counter during a call, and replicas whose reachability changes during it, are not modelled.
- Balancer.AlwaysFairIff: totals of 2^64 and more, for which `Balancer.Select` still says what is chosen.
- MetricAggregation.AggregateByInterval: which of the two admitted numbers of seconds the floating-point conversion of an interval of 2^24 seconds or more yields.
- Database, search, storage, mail, OAuth and message-queue clients, configuration, HTTP helpers, logging and tracing: wrappers and plumbing.
