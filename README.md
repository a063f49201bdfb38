# module-init, modelled in Dafny

module-init puts an application's modules into dependency order and initialises them.

A module has three parts:
- a name;
- the modules it needs, which must be initialised before it;
- the modules that need it, which must be initialised after it.

It also has an init function. A module collection gathers modules into a directed graph and plans them as stages:
- stage 0 holds the modules that depend on nothing;
- stage k holds the modules whose longest dependency chain has k edges.

`init(context)` runs the stages in order. It calls the init functions of a stage with the context, one after another, and waits for all of them before it starts the next stage. An init function may return a promise or nothing, and it may throw before returning. A throw stops the stage's remaining calls, and the run fails at that stage, as it does when a promise rejects. `init` is wrapped in `once`, so only the first call does the work, and every later call gets the same promise.

The model has seven files:
- `wrappers.dfy` (`Wrappers`): `Option` and `Result`.
- `module.dfy` (`Modules`): the `Module` record and the constructor's two null scans with their error messages. The source spells the second message "dependendant", and the model keeps that spelling. Also `define` and `toString`.
- `once.dfy` (`Latch`): `once`. It exists both as a pure step function and as a class with a slot. The slot is filled by the first call of the wrapped function that returns; a call that throws leaves it empty, so the next call runs the function again.
- `graph.dfy` (`Graphs`): the directed graph, described by its value (vertices and edges). Edge (a, b) reads "a depends on b". The file also holds leaves, reversal, walks and cycles, and heights. A height is the length of a module's longest dependency chain down to a leaf.
- `distances.dfy` (`Distances`): the graph library's longest-distance search that the planner calls. It is modelled as a memoised depth-first search that returns either the longest distance to every vertex or a cycle.
- `collection.dfy` (`Collections`): `add` and the collection class, the planner `getInitStages` step by step, what a stage plan is and its properties, and the staged run behind `init` with its once-latch.
- `examples.dfy` (`Scenarios`): the three scenarios of the collection's test suite, stated about the model.

The planner gives the graph a single source. It adds a fresh root vertex, links every leaf to the root, reverses the graph, and asks for each vertex's longest distance from the root. Linking the leaves removes no cycle: on a cyclic graph the search reports one. Grouping vertices by distance and dropping the root's bucket gives the stages.

The model proves four things about the result:
- Every module's stage is its height, and the stages are exactly its plan (`IsStagePlan`).
- Such a plan exists only for an acyclic graph.
- The plan is unique up to the order within a stage.
- When the search finds a cycle instead, it is a cycle of the collection's graph, so planning succeeds exactly when the graph is acyclic.

## Model

| member | source | states |
|---|---|---|
| Modules.Construct | src/lib/module.ts:12-28 | For the first null entry i of `needs`, the result is the error "module NAME has null dependency (number i+1)". With `needs` clean and the first null of `neededBy` at i, it is the "has null dependendant (number i+1)" error. Otherwise it is the module with the given name and init function and both lists entry for entry. Construction succeeds exactly when neither list holds a null. |
| Modules.NewModule | src/lib/module.ts:18-27 | The two scanning loops return exactly what `Construct` specifies: the first null of `needs` wins over any null of `neededBy`. |
| Modules.Define | src/lib/module.ts:43-47 | `define` behaves exactly as the constructor with the same arguments. |
| Modules.ToString | src/lib/module.ts:30-32 | A module prints as its name. |
| Modules.FirstNullFrom | src/lib/module.ts:18-22 | Returns the index of the first null entry at or after the start, with every earlier entry non-null. Returns nothing exactly when every entry from the start is non-null. |
| Modules.DecimalRoundTrip | src/lib/module.ts:20 | The index rendered into an error message reads back as that index. |
| Modules.MessagesIdentifyEntry | src/lib/module.ts:20-25 | The need and dependant messages never coincide. Equal messages of one kind carry the same index. |
| Latch.CallStep | src/lib/once.ts:5-13 | A call runs the wrapped function exactly when the slot is empty and then returns what the function gave. A filled slot stays as it is, and the call returns its value. After any call the slot is filled exactly when the call succeeded, and then it holds the value returned. A throw leaves the slot empty. |
| Latch.FilledStaysFilled | src/lib/once.ts:8-11 | Once the slot is filled, any sequence of calls keeps its value, returns it every time, and never runs the wrapped function. |
| Latch.CallsFromEmpty | src/lib/once.ts:5-13 | From an empty slot, when call k is the first whose function returns, the function runs on calls 0..k and never again. Each earlier call hands back its own throw. Call k and every later call return call k's value, which stays in the slot. |
| Latch.CallsAllFail | src/lib/once.ts:8-9 | From an empty slot, calls whose function always throws run it every time, hand back each throw, and leave the slot empty. |
| Latch.Once.constructor | src/lib/once.ts:5-6 | The wrapper starts with an empty slot and no recorded invocation. |
| Latch.Once.Call | src/lib/once.ts:7-12 | On an empty slot a call runs the wrapped function on this context and records the invocation. It fills the slot when the function returns and leaves it empty when it throws. On a filled slot it changes nothing and returns the slot's value. Every recorded invocation but the last threw. |
| Graphs.Graph.Leaves | src/lib/module-collection.ts:67 | The leaves are exactly the vertices with no outgoing edge: the modules that depend on nothing. |
| Graphs.Graph.Reverse | src/lib/module-collection.ts:71 | Reversal keeps the vertices and flips every edge, in both directions of membership. |
| Graphs.ReversedClosedWalk | src/lib/module-collection.ts:71 | A cycle found in the reversed graph, read backwards, is a cycle of the graph, so the graph is not acyclic. |
| Graphs.HeightIsLongestChain | src/lib/module-collection.ts:73-78 | A module's height is the length of its longest dependency chain: some walk of that many edges reaches a leaf, and no walk from it is longer. |
| Graphs.TightWalk | src/lib/module-collection.ts:73-78 | From every module, a walk reaches a leaf by dropping one height per edge. |
| Graphs.HeightBoundsWalk | src/lib/module-collection.ts:73-78 | Along any walk the height drops by at least one per edge. |
| Graphs.HeightUnique | src/lib/module-collection.ts:73-78 | Heights are determined by the graph alone. |
| Graphs.HeightAcyclic | src/lib/module-collection.ts:63-83 | A graph that has heights has no cycle. |
| Graphs.HeightNoGaps | src/lib/module-collection.ts:74-78 | Every height from 0 up to an existing height belongs to some module, so the grouped stages have no holes. |
| Distances.LongestDistances | src/lib/module-collection.ts:71 | Returns either a map giving every vertex its longest distance from a source, or a closed walk of the graph. |
| Distances.Visit | src/lib/module-collection.ts:71 | Visiting the top of the recursion stack extends the known distances consistently and keeps every earlier entry. If it meets a vertex on the stack, it returns a closed walk. |
| Distances.VisitPred | src/lib/module-collection.ts:71 | A predecessor already on the stack closes a cycle. One already known is kept. Otherwise it is visited. |
| Distances.ClosingWalk | src/lib/module-collection.ts:71 | Meeting a stacked vertex again as a predecessor of the top yields a closed walk through the top. |
| Distances.ExtendDistances | src/lib/module-collection.ts:71 | Covering one more vertex at one more than its longest covered predecessor keeps the distance invariant. |
| Distances.DistancesAcyclic | src/lib/module-collection.ts:71 | A graph whose vertices all have distances has no cycle. |
| Distances.DistancesRiseAlongWalk | src/lib/module-collection.ts:71 | Distances rise by at least one per edge along any walk. |
| Collections.AddModulesAdds | src/lib/module-collection.ts:34-43 | Adding modules adds exactly the modules, needs and dependants they mention as vertices. It adds exactly the edges "m depends on need" and "dependant depends on m" they declare, and removes nothing. |
| Collections.AddModulesIdempotent | src/lib/module-collection.ts:34-43 | Adding the same modules again leaves the graph unchanged. |
| Collections.AddModulesValid | src/lib/module-collection.ts:34-43 | Every edge added joins two vertices of the graph. |
| Collections.ModuleCollection.constructor | src/lib/module-collection.ts:16-22 | A new collection holds the empty graph, or the graph of the given modules when they are given. Init has not run. |
| Collections.ModuleCollection.Add | src/lib/module-collection.ts:29-44 | The graph becomes the old graph with the modules added in order. A single module counts as the one-element list holding it. |
| Collections.ModuleCollection.AddOne | src/lib/module-collection.ts:35-42 | One module adds its vertex, an edge to each need and an edge from each dependant. |
| Collections.ModuleCollection.AddNeeds | src/lib/module-collection.ts:37-39 | The loop over the needs adds exactly each need as a vertex and the edge from the module to it. |
| Collections.ModuleCollection.AddNeededBy | src/lib/module-collection.ts:40-42 | The loop over the dependants adds exactly each dependant as a vertex and the edge from it to the module. |
| Collections.FreshVertex | src/lib/module-collection.ts:64 | The root module is a vertex no module of the graph uses. |
| Collections.GroupByDistance | src/lib/module-collection.ts:74-78 | Bucket k holds each vertex at distance k exactly once and nothing else, and the last bucket is not empty. |
| Collections.DistancesPositive | src/lib/module-collection.ts:64-71 | In the augmented reversed graph the root is at distance 0 and every module at distance 1 or more. |
| Collections.DistancesGiveHeights | src/lib/module-collection.ts:64-78 | One less than a module's distance from the root is its height in the collection's graph. |
| Collections.CycleAvoidsRoot | src/lib/module-collection.ts:64-71 | No cycle of the augmented reversed graph passes through the root, so a cycle found there is a cycle of the collection's reversed graph. |
| Collections.BucketsArePlan | src/lib/module-collection.ts:74-82 | The buckets with bucket 0 dropped are a stage plan of the graph. |
| Collections.DistancesPlan | src/lib/module-collection.ts:63-83 | Distances from the root, grouped and shifted, give a plan of the collection's graph. |
| Collections.ModuleCollection.GetInitStages | src/lib/module-collection.ts:63-83 | Returns either a stage plan of the collection's graph or a cycle along "needed by" edges, and reads the graph only. It succeeds exactly when the graph is acyclic. |
| Collections.PlanStageIsLongestChain | src/lib/module-collection.ts:73-78 | A module in stage k is in the graph, and its longest dependency chain to a leaf has exactly k edges. Stage 0 holds exactly the leaves. |
| Collections.PlanOrdersDependencies | src/lib/module-collection.ts:53-56 | A module's stage comes strictly after the stage of everything it depends on. |
| Collections.PlanCoversEachOnce | src/lib/module-collection.ts:74-82 | A module is in some stage exactly when it is in the graph. It is in one stage only, and no stage repeats a module. |
| Collections.PlanDeterministic | src/lib/module-collection.ts:63-83 | Two plans of one graph have the same number of stages and the same modules in each stage. |
| Collections.PlanAcyclic | src/lib/module-collection.ts:63-83 | A graph with a plan has no cycle. |
| Collections.Launched | src/lib/module-collection.ts:55 | The modules a stage's map calls form a prefix of the stage. Only the last of them may throw. The prefix is shorter than the stage only when it ends at a throwing module. |
| Collections.LaunchedNoThrow | src/lib/module-collection.ts:55 | A stage with no throwing init function is called in full. |
| Collections.LaunchedStopsAtThrow | src/lib/module-collection.ts:55 | When a stage holds a throwing init function, the last module called throws. |
| Collections.LaunchedFirstThrow | src/lib/module-collection.ts:55 | The map calls the stage up to and including its first throwing module, and no further. |
| Collections.LaunchStage | src/lib/module-collection.ts:55 | One stage calls its modules' init functions with the context, in the stage's order, up to and including the first that throws. The stage fails exactly when one of its init functions throws or rejects. |
| Collections.RunStages | src/lib/module-collection.ts:53-56 | Running the stages gives the calls and the outcome of the staged run, including a stage cut short by a throw. |
| Collections.StagedShape | src/lib/module-collection.ts:53-56 | The run resolves after launching every stage when none throws or rejects. Otherwise it stops in the first failing stage, after launching that stage up to its first throwing init, and reports that stage. |
| Collections.StagedPrefix | src/lib/module-collection.ts:53-56 | The run's calls are those of its first n stages, none of which failed, followed by the launched part of stage n when stage n failed. It never reports a cycle. |
| Collections.FlattenByHeight | src/lib/module-collection.ts:53-56 | Consecutive stages, concatenated, list each module of their heights exactly once, and in order of height. |
| Collections.PlanPrefix | src/lib/module-collection.ts:53-56 | The first n stages of a plan hold, once each and by height, exactly the modules of height below n. |
| Collections.AcceptedStages | src/lib/module-collection.ts:53-56 | Stages that did not fail have no throwing or rejecting module. |
| Collections.LaunchedLayer | src/lib/module-collection.ts:55 | The launched part of a failing stage k holds distinct modules of height k, and one of them throws or rejects. It is the whole stage when no module of height k throws. |
| Collections.PlannedRun | src/lib/module-collection.ts:53-56 | A plan's run calls the modules below the stopping height in height order, none of them faulty, then the launched part of the failing stage, if any. |
| Collections.LayeredCalls | src/lib/module-collection.ts:53-56 | Those calls go in height order, once each, with the context, and only the last may be to a throwing init. |
| Collections.LaunchedInOrder | src/lib/module-collection.ts:55 | Launching a duplicate-free list ordered by height calls exactly that list, in that order, with the context. |
| Collections.RunCallsInStageOrder | src/lib/module-collection.ts:51-57 | For a graph with heights, init never reports a cycle. Every call gets the context and a module of the graph. No module is called twice, calls never go down in height, and only the last call may be to a throwing init. When init resolves, every module was called and none threw or rejected. When stage k fails, every module below height k was called and none of them threw or rejected. Only modules of height at most k were called, and a called module of height k threw or rejected. All of height k were called unless one of them throws. |
| Collections.ModuleCollection.Run | src/lib/module-collection.ts:52-56 | The body of init either reports a cycle of the graph with no call made, or is the staged run of a plan of the graph. It reports a cycle exactly when the graph has one. |
| Collections.ModuleCollection.Init | src/lib/module-collection.ts:51-57 | The first call stores the run's outcome and its calls, whatever the outcome, since the wrapped body is async and never throws. Every later call returns the stored outcome and makes no init call. |
| Scenarios.OrderingGraph | src/test/module-collection.ts:5-13 | The first test's modules build the graph a->c, a->d, b->e, d->f, e->f with g alone. |
| Scenarios.OrderingStages | src/test/module-collection.ts:4-21 | Every plan of that collection has three stages: c, f, g; then d, e; then a, b. |
| Scenarios.LayeredStages | src/test/module-collection.ts:16-20 | The same three stages, for any plan of the test's graph. |
| Scenarios.CycleGraph | src/test/module-collection.ts:24-33 | The second test's modules, with a pushed onto f's needs, build the graph with the extra edge f->a. |
| Scenarios.CycleDetected | src/test/module-collection.ts:23-39 | That graph's reverse has the cycle a -> f -> d -> a, and the graph has no plan. |
| Scenarios.InitGraph | src/test/module-collection.ts:42-51 | The third test's modules, with f declared as needed by e, build the same graph as the first test. |
| Scenarios.InitOrder | src/test/module-collection.ts:41-59 | init("hello") on that collection resolves. It calls every module once with "hello" and calls no other module. It calls c, f, g before d, e, and d, e before a, b. |
| Scenarios.InitGraphAcyclic | src/test/module-collection.ts:42-51 | That collection's graph has no cycle, so planning it succeeds. |

## Left out

- The graph library is not part of this model. Its graph is described by value. `getAdjacencyToNode` is modelled as a longest-distance search that fails on any cycle. The library's own traversal order and its cycle message text ("found circular reference ...") are not modelled.
- Collections.ModuleCollection.GetInitStages: promises some plan of the graph, not the order inside a stage. That order comes from the library's iteration order. `PlanDeterministic` shows that the stages' contents are fixed.
- Collections.ModuleCollection.GetInitStages: on a cyclic graph it promises some cycle, not the particular cycle the library's search meets first.
- Scenarios.InitOrder: proves the test's order between stages, not the order g, f, c inside the first stage, which depends on the library's iteration order.
- Scenarios.CycleDetected: proves the cycle a -> f -> d -> a and that no plan exists, not the error message text.
- Collections.ModuleCollection.GetInitStages: on an empty collection the model returns no stages. The library's answer for a root vertex that was never added is not part of this model.
- Concurrency and timing are not modelled: a stage's init calls run one after another in the model, and a stage counts as failed when any of its called functions throws or rejects. `Promise.all` rejects on the first rejection while the rest of the stage may still be running.
- Init function bodies are opaque. Which modules' init functions reject and which throw is a parameter (`Faults`), and the calls made are logged as (module, context) pairs. The error value a rejection or throw carries is not modelled.
- Module identity is a caller-supplied number, and a module's references are those numbers. The root module `'__root__'` is a fresh number. A falsy list entry is `None`, and an omitted constructor argument is `None`.
- Mutating a module's lists after `define` (the cycle test pushes a onto f's needs) is modelled by passing the lists as they are when the collection is built.
- Calling `add` after `init` has run is not modelled separately: the stored outcome is returned as in `once`.
- `isIterable` distinguishes exactly the two shapes `add` accepts, a single module or a list of modules. Other iterables, and `null`, are not modelled.
- src/lib/load-modules.ts and src/lib/callback.ts are not part of this model.
