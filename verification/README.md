# process-aggregator, modelled in Dafny

process-aggregator is a TypeScript engine for task workflows. A *process* is
a directed graph. Its nodes are *steps*, one per task status. Its edges are
*relations*, each labelled with a command name. Classes decorated with
`@Action` declare which command moves a task from one status to another.
Classes decorated with `@Step` supply per-status operators that guard reads
and updates. A small dependency-injection *context* builds all of these.
The *application* façade creates tasks, lists the commands a task offers,
runs commands and updates tasks. A task repository stores the tasks.

The repository holds two lineages of the engine:

- the current one, under `packages/core`;
- an older one, under `packges/process-manager`. It has its own context, a
  global metadata store for decorators, and two older process classes.

Two demo applications (`todo-backend`, `todo-sandbox`) define a to-do
workflow on top of the engine.

This project models all of that as pure functions over immutable data:

- the graph processor and its breadth-first and depth-first traversals
  (`graph.dfy`, `reach.dfy`, `bfs.dfy`, `dfs.dfy`, `graph_examples.dfy`);
- the `@Inject` slots, the context of both lineages, the context builders
  and the build pipeline (`inject.dfy`, `container.dfy`,
  `context_builder.dfy`, `pipeline.dfy`);
- the process of all three generations and its builder (`process.dfy`,
  `process_properties.dfy`, `process_builder.dfy`, `availability.dfy`);
- decorator metadata, the step/action/module decorator operators, and
  `bootstrapContext` (`metadata.dfy`, `step_operators.dfy`,
  `action_operators.dfy`, `modules.dfy`);
- the older lineage's global store, its decorators and the operators that
  read it (`global_store.dfy`, `store_operators.dfy`);
- the in-memory task repository and the application façade
  (`task_repository.dfy`, `application.dfy`);
- the two to-do demos (`todo.dfy`, `todo_scenarios.dfy`).

The model uses these conventions:

- Exceptions become the `Failure` case of a `Result`. The error carries the
  source's message text (`Common.Message`).
- Every JavaScript object that the source mutates in place becomes a value
  that the function returns. This covers the graph, the context, the
  process, the global store and the task repository.
- The repository is threaded through the application as the *world state*.
- Classes whose behaviour the engine only calls are an uninterpreted
  behaviour table (`behaviours.dfy`). Examples are action handlers, step
  operators and validators. The to-do demos give concrete behaviours.
- Generators become the finite sequence of what they yield.
- Dependency resolution takes a `fuel` bound on nesting depth. Running out
  is the `Maximum call stack size exceeded` error that a cyclic injection
  causes in the source.

## Model

Paths are relative to the repository root. `packges/` is the older lineage's
directory, spelled as in the repository.

| member | source | states |
|---|---|---|
| Graph.Empty | packges/process-manager/src/graph/graph-processor.ts:3-6 | A new graph processor has no nodes and no edges. It satisfies the dense-id invariant and has no duplicate edges. |
| Graph.GetNodeByValue | packges/process-manager/src/graph/graph-processor.ts:38-40 | A node is found exactly when some node's value equals the given one. The node found is a node of the graph with that value. |
| Graph.GetNodeById | packges/process-manager/src/graph/graph-processor.ts:42-44 | A node is found only when it carries the id. None means no node has the id. With dense ids, the node found is the one at that position. |
| Graph.AddNode | packges/process-manager/src/graph/graph-processor.ts:8-14 | The call fails with "Node has existed yet." exactly when an equal value is already a node. Otherwise it appends the value under the next id and leaves the edges alone. The dense-id invariant, edge uniqueness and value distinctness are preserved. |
| Graph.AddEdge | packges/process-manager/src/graph/graph-processor.ts:16-36 | An unknown start or end fails with the node-missing error. An existing start-to-end edge fails with "Edge has existed yet". Otherwise exactly one edge between the two node ids is appended. Well-formedness and edge uniqueness are preserved. |
| Graph.OutgoingEndsIn | packges/process-manager/src/graph/graph-processor.ts:59 | An id is among the ends of a node's outgoing edges iff an edge goes there. |
| Graph.GetNodeChildrenById | packges/process-manager/src/graph/graph-processor.ts:54-61 | The call fails with the node-missing error exactly when no node has the id. Otherwise it returns the node's children in node order. |
| Graph.ChildrenOfSpec | packges/process-manager/src/graph/graph-processor.ts:59-60 | The children are exactly the nodes that an edge from the id reaches. On a well-formed graph they come in ascending id order, whatever order the edges were added in. |
| Graph.ChildIds | packges/process-manager/src/graph/graph-processor.ts:59-60 | A node's child ids are exactly the ends of its edges. They are node ids, strictly ascending. |
| Graph.GetNodeChildrenByValue | packges/process-manager/src/graph/graph-processor.ts:46-52 | An unknown value fails with the node-missing error. A known value gives the children of its node. |
| Graph.GetNodeWeightsById | packges/process-manager/src/graph/graph-processor.ts:71-73 | The result lists the weights of the node's outgoing edges, one per edge, in edge order. |
| Graph.WeightsOfUnknownId | packges/process-manager/src/graph/graph-processor.ts:71-73 | An id that is not a node has no weights. Unlike the other lookups, this one does not throw. |
| Graph.GetNodeWeightsByValue | packges/process-manager/src/graph/graph-processor.ts:63-69 | The call fails with the node-missing error exactly when the value is unknown. Otherwise it returns the weights of that node's edges. |
| Graph.WeightsAfterAddEdge | packges/process-manager/src/graph/graph-processor.ts:31-35 | Appending an edge adds its weight at the end of its start node's weights. No other node's weights change. |
| Graph.UnorderedEdgesOrder | packges/process-manager/src/graph/graph-processor.ts:75-84 | The unordered edges of a node are its outgoing edges followed by its incoming edges, reversed. Each starts at the node, and the count is the sum of both. |
| Graph.UnorderedEdgesMembers | packges/process-manager/src/graph/graph-processor.ts:75-84 | The pair (id, v) is an unordered edge of id iff an edge joins id and v in either direction. |
| Graph.OutgoingPairs | packges/process-manager/src/graph/graph-processor.ts:76-78 | The first half of the unordered edges holds (id, v) iff an edge goes from id to v. |
| Graph.IncomingPairs | packges/process-manager/src/graph/graph-processor.ts:80-82 | The second half holds (id, v) iff an edge goes from v to id. |
| Graph.HasNodesWith | packges/process-manager/src/graph/graph-processor.ts:90-92 | The answer is true iff some node's value satisfies the predicate. |
| Graph.SearchNodesFirst | packges/process-manager/src/graph/graph-processor.ts:86-88 | The search is non-empty iff some node satisfies the predicate. Its first hit is the earliest such node. |
| Graph.SearchEdgesNonEmpty | packges/process-manager/src/graph/graph-processor.ts:94-96 | The edge search is non-empty iff some edge's weight satisfies the predicate. |
| Graph.SearchNodes | packges/process-manager/src/graph/graph-processor.ts:86-88 | `searchNodes` lists only nodes of the graph whose value satisfies the predicate, and it lists every such node. |
| Graph.SearchEdges | packges/process-manager/src/graph/graph-processor.ts:94-96 | `searchEdges` lists only edges of the graph whose weight satisfies the predicate, and it lists every such edge. |
| Graph.GetUnorderedEdgesById | packges/process-manager/src/graph/graph-processor.ts:75-84 | `getUnorderedEdgesById` has one entry per outgoing edge plus one per incoming edge, and every entry starts at the given node. |
| Graph.UnorderedEdgesComplete | packges/process-manager/src/graph/graph-processor.ts:75-84 | Every edge leaving the node appears as (node, end), and every edge entering it appears as (node, start), its direction turned round. |
| Bfs.BfsStart | packges/process-manager/src/graph/graph-bfs.ts:8 | The start is the given id. Without one it is node 0 when the graph has nodes, else -1. |
| Bfs.Plan | packges/process-manager/src/graph/graph-bfs.ts:15-21 | The queue keeps its old contents in front. The new tail is exactly the children not yet grey, each once. Every child turns grey. |
| Bfs.Turn | packges/process-manager/src/graph/graph-bfs.ts:13-21 | One turn of the loop keeps the queue within the graph. Either a white node turns grey or the queue gets shorter, so the loop ends. |
| Bfs.Loop | packges/process-manager/src/graph/graph-bfs.ts:13-23 | The loop only appends to what has already been yielded. |
| Bfs.Traverse | packges/process-manager/src/graph/graph-bfs.ts:4-24 | The traversal fails with the node-missing error exactly when the start is not a node, including the empty graph. Otherwise it yields the start first. It yields each node reachable from the start exactly once and nothing else. Every node after the first has an edge into it from a node yielded earlier. Nodes come first-in, first-out: a node whose first parent (the earliest yielded node with an edge into it) comes earlier is yielded earlier, and children of the same first parent come in ascending id. |
| Bfs.TraverseIsTheBfsOrder | packges/process-manager/src/graph/graph-bfs.ts:13-23 | The properties above determine the traversal: a sequence has all of them exactly when it equals what the traversal yields. |
| Bfs.BfsOrderUnique | packges/process-manager/src/graph/graph-bfs.ts:13-23 | Two sequences that both start at the same node, list its reachable set once each, have earlier parents and keep discovery order are equal. |
| Bfs.PlanAscending | packges/process-manager/src/graph/graph-bfs.ts:15-20 | The loop over the children pushes the white ones in the order it meets them, so children in ascending id are queued in ascending id. |
| Bfs.StepDiscovery | packges/process-manager/src/graph/graph-bfs.ts:14-22 | One turn keeps discovery order: the children it queues have the node just dequeued as first parent, later than that of anything already queued. |
| Bfs.OrderStep | packges/process-manager/src/graph/graph-bfs.ts:15-21 | Appending, in ascending id, white children of the node at the head of the queue to a sequence in discovery order keeps discovery order. |
| Bfs.LoopSpec | packges/process-manager/src/graph/graph-bfs.ts:13-23 | The loop invariant: the queue and the output have no duplicates, and grey is exactly what has been planned. Everything grey is reachable, and the children of every yielded node are grey. The loop ends with every reachable node yielded exactly once. The output followed by the queue stays in discovery order. |
| Bfs.StepKeepsInv | packges/process-manager/src/graph/graph-bfs.ts:14-22 | One turn of the loop preserves every conjunct of the invariant. |
| Bfs.PlanShrinksWhite | packges/process-manager/src/graph/graph-bfs.ts:15-21 | Planning children either greys a new node or changes nothing. |
| Dfs.Visit | packages/core/src/graph/graph-dfs.ts:18-26 | `dfs(v)` greys v. It only ever adds grey nodes, all of them nodes of the graph. |
| Dfs.Children | packages/core/src/graph/graph-dfs.ts:20-24 | The loop over a node's children only adds grey nodes. |
| Dfs.OrderedStart | packages/core/src/graph/graph-dfs.ts:35-38 | A start of 0 falls back to the first node, like a missing start. This is the `||` fallback. On an empty graph there is no start. |
| Dfs.Traverse | packages/core/src/graph/graph-dfs.ts:9-41 | Unordered mode always succeeds. Ordered mode fails with "Could not traverse orderly empty graph" when there is no start. It fails with the node-missing error exactly when the start is not a node. |
| Dfs.VisitGreys | packages/core/src/graph/graph-dfs.ts:18-26 | `dfs(v)` yields exactly the nodes it greys, each once, none previously grey, and v last. |
| Dfs.ChildrenGreys | packages/core/src/graph/graph-dfs.ts:20-24 | After the loop over the children, every child is grey. What was yielded is exactly what turned grey, each once. |
| Dfs.VisitReach | packages/core/src/graph/graph-dfs.ts:18-26 | Everything `dfs(v)` yields is reachable from v. Every child of a yielded node is grey afterwards. |
| Dfs.VisitPost | packages/core/src/graph/graph-dfs.ts:18-26 | `dfs(v)` yields in post-order. Each child of a yielded node was grey before, was yielded earlier, or reaches that node, which is a back edge. |
| Dfs.ChildrenPost | packages/core/src/graph/graph-dfs.ts:20-24 | The children loop yields in post-order in the same sense. |
| Dfs.AllSpec | packages/core/src/graph/graph-dfs.ts:28-33 | The unordered outer loop yields every node that was white, exactly once, and nothing else. |
| Dfs.AllPost | packages/core/src/graph/graph-dfs.ts:28-33 | The unordered outer loop yields in post-order. |
| Dfs.AllSettled | packages/core/src/graph/graph-dfs.ts:28-33 | For every yielded node and each of its children, the child was grey before, was yielded earlier, or reaches the node. |
| Dfs.UnorderedSpec | packages/core/src/graph/graph-dfs.ts:28-33 | Unordered mode yields every node exactly once, in post-order. |
| Dfs.OrderedSpec | packages/core/src/graph/graph-dfs.ts:34-40 | Ordered mode from s yields exactly the nodes reachable from s, each once, in post-order, with s last. |
| Dfs.TraverseSpec | packages/core/src/graph/graph-dfs.ts:9-41 | This combines both modes: no duplicates and post-order. Unordered mode yields all nodes. Ordered mode yields the nodes reachable from its start, ending with the start. |
| Dfs.All | packages/core/src/graph/graph-dfs.ts:28-33 | The unordered outer loop yields only nodes of the graph that were still white. |
| Dfs.LeastOpen | packages/core/src/graph/graph-dfs.ts:29-30 | The outer loop's next root is the least id that is not finished, or none when every id is finished. |
| Dfs.Descend | packages/core/src/graph/graph-dfs.ts:18-25 | The walk down from an unfinished node, always into the first child in ascending id that is neither finished nor on the current path, ends at a node of the graph that is not finished yet. This is the node `dfs` yields next. |
| Dfs.VisitDescends | packages/core/src/graph/graph-dfs.ts:18-26 | Every node `dfs(v)` yields is the node that walk finishes next from the root, counting everything yielded before it as finished. |
| Dfs.VisitIsOrderedDfs | packages/core/src/graph/graph-dfs.ts:34-40 | Ordered mode's output from s is the reference order: s comes last and only last, and each node is the walk's next one from s given the nodes before it. |
| Dfs.AllIsUnorderedDfs | packages/core/src/graph/graph-dfs.ts:28-33 | Unordered mode's output is the reference order: every node, each the walk's next one from the least unfinished id, given the nodes before it. |
| Dfs.OrderedDfsUnique | packages/core/src/graph/graph-dfs.ts:34-40 | There is at most one ordered reference order from a given start. |
| Dfs.UnorderedDfsUnique | packages/core/src/graph/graph-dfs.ts:28-33 | There is at most one unordered reference order. |
| Dfs.TraverseIsTheDfsOrder | packages/core/src/graph/graph-dfs.ts:9-41 | Unordered mode yields r exactly when r is the unordered reference order. Ordered mode from a start that is a node yields r exactly when r is the ordered reference order from it. The sibling order is therefore fixed, not only post-order. |
| GraphExamples.ReferenceShape | packages/core/src/graph/graph-bfs.spec.ts:8-17 | The test graph is written out as the nodes and edges its four `addNode` and four `addEdge` calls produce. It is well formed, and the children of each node are, by id, 0:[1,3], 1:[2,3], 2:[], 3:[]. The traversal rows below hold for every graph of this shape. |
| GraphExamples.BfsReference | packages/core/src/graph/graph-bfs.spec.ts:19-23 | With no start given, BFS on the test graph yields 0, 1, 3, 2. |
| GraphExamples.IdOrderIsNotBfs | packages/core/src/graph/graph-bfs.spec.ts:14-22 | On the test graph 0, 1, 3, 2 is a breadth-first order and 0, 1, 2, 3 is not: node 3 is found from 0, node 2 only from 1. |
| GraphExamples.BfsReferenceFromInProgress | packages/core/src/graph/graph-bfs.spec.ts:25-29 | BFS from in-progress yields 1, 2, 3. |
| GraphExamples.BfsFailures | packages/core/src/graph/graph-bfs.spec.ts:31-39 | BFS from start 15, and BFS on the empty graph with no start, fail with the node-missing error. |
| GraphExamples.DfsReference | packges/process-manager/src/graph/graph-dfs.spec.ts:19-45 | Unordered DFS yields 2, 3, 1, 0 whatever start is given. Ordered DFS from the default start yields the same. |
| GraphExamples.DfsReferenceFromInProgress | packges/process-manager/src/graph/graph-dfs.spec.ts:47-54 | Ordered DFS from in-progress yields 2, 3, 1. |
| GraphExamples.DfsFailures | packges/process-manager/src/graph/graph-dfs.spec.ts:56-71 | Unordered DFS of the empty graph yields nothing. Ordered DFS of the empty graph fails with the empty-graph error. Ordered DFS from 15 fails with the node-missing error. |
| GraphExamples.ReverseIdOrderIsNotDfs | packges/process-manager/src/graph/graph-dfs.spec.ts:19-45 | On the test graph, 2, 3, 1, 0 is the unordered reference order, and 3, 2, 1, 0 is neither it nor the ordered one from 0, although it is a post-order. |
| Common.FormatProcessName | packages/core/src/process/process/types.ts:11-13 | The key is the name, one underscore, then the version. Both parts can be read back from their positions. |
| Common.StepNotFoundReadsAsCommandNotFound | packages/core/src/process/exceptions.ts:15-20 | A missing step and a missing command are different errors. Their texts are identical: `"<status>" command not found.` |
| Common.CommandValidationMessage | packages/core/src/process/application/application.ts:168-174 | A command-validation failure reads `"<command>" command validation failed.`. A non-empty message is appended after one space. An absent message and an empty one read the same. |
| Decimal.NatToString | packages/core/src/process/task-repository/in-memory-task-repository.ts:25 | `String(n)` is a non-empty string of digits with no leading zero. |
| Decimal.ParseNatToString | packages/core/src/process/task-repository/in-memory-task-repository.ts:13-14 | Reading the digits of `String(n)` back gives n. This round trip lets a seeded repository resume its counter. |
| Decimal.NatToStringInjective | packages/core/src/process/task-repository/in-memory-task-repository.ts:25 | Distinct counter values give distinct id strings. |
| Decimal.JsNumber | packages/core/src/process/task-repository/in-memory-task-repository.ts:13 | `Number(text)` is NaN exactly when the text is not all digits. The empty text is 0. |
| Decimal.JsNumberOfNatToString | packages/core/src/process/task-repository/in-memory-task-repository.ts:13 | `Number(String(n))` is n. |
| Inject.EmptySlots | packages/core/src/context/decorators.ts:31-36 | A first `@Inject` on a class allocates ten empty slots. |
| Inject.Inject | packages/core/src/context/decorators.ts:28-39 | `@Inject(token)` at position `order` puts the token in that slot. The list is allocated first if absent, and grows if `order` is past its end. Every other slot keeps what it held. |
| Inject.InjectionArgs | packages/core/src/context/context.ts:100-104 | A class that was never decorated is constructed with no arguments. |
| Inject.TokensIn | packages/core/src/context/context.ts:101-102 | A token is resolved for the constructor iff it sits in some slot and is truthy. An empty string name is not truthy. |
| Inject.TokensNone | packages/core/src/context/context.ts:101-102 | Slots that are all empty or falsy give no arguments. |
| Inject.InjectsCommute | packges/process-manager/src/context/decorators.ts:10-19 | Decorating two different parameters gives the same slots in either order, so the order in which parameter decorators run does not matter. The older lineage's decorator is the same code as the current one. |
| Inject.TwoInjections | packages/core/src/context/context.ts:100-104 | A constructor decorated with A at position 0 and B at position 1 receives A then B. |
| Container.New | packages/core/src/context/context.ts:25-28 | A new container registers its own class as a singleton and caches itself under it. There are no transients. |
| Container.Register | packages/core/src/context/context.ts:31-42 | A token already in the map fails with "Type exists in current context". A string without a type fails with "Unknown Error". Otherwise the map gains exactly that token. A string maps to its type and a class to itself. Every other entry is unchanged. |
| Container.SetSingleton | packages/core/src/context/context.ts:29-42 | `setSingleton` applies the registration rule to the singleton map only. Everything else is unchanged. |
| Container.SetTransient | packages/core/src/context/context.ts:44-57 | `setTransient` applies the registration rule to the transient map only. A token may be both a singleton and a transient. |
| Container.MissingError | packges/process-manager/src/context/context.ts:54-62 | An unknown token fails with `Token "<name>" doesn't exist in current context` in the current lineage. It fails with "Type doesn't exist in current context" in the older one. |
| Container.Resolve | packages/core/src/context/context.ts:59-97 | An unregistered token fails with the lineage's missing-token error and changes nothing. A cached singleton answers its cached instance and changes nothing. An uncached singleton is built from its class under a fresh id and then cached. A transient is built from its class under a fresh id. Singletons take precedence over transients. Registrations never change. |
| Container.Construct | packages/core/src/context/context.ts:99-106 | Construction builds an instance of the class under the next id, with one argument per injected token. Running out of depth fails with the stack-overflow error. Any other failure is a resolution error. |
| Container.ConstructInOrder | packages/core/src/context/context.ts:99-106 | With depth to spare, construction resolves the class's injected tokens left to right. On success, the arguments are those resolutions, each made in the container the earlier ones left. The instance takes the id the counter shows after them, and the counter moves past it. On failure, the error and the container are those of the first injected token that fails. |
| Container.ResolveAll | packages/core/src/context/context.ts:100-104 | The argument list resolves to one instance per token. Any failure is a resolution error. Registrations never change. |
| Container.ResolveAllInOrder | packages/core/src/context/context.ts:100-104 | The argument list resolves left to right. On success, position i is what token i resolves to in the container the earlier positions leave. On failure, the error and the container are those of the first token that fails, after all tokens before it resolved. |
| Container.ThreadedResolveAll | packages/core/src/context/context.ts:100-104 | Conversely, resolutions chained left to right through the containers they leave are exactly what resolving the list returns. |
| Container.FailsAtResolveAll | packages/core/src/context/context.ts:100-104 | Conversely, when the tokens before position k resolve in turn and token k then fails, resolving the list fails with that error and that container. |
| Container.TryResolve | packages/core/src/context/context.ts:69-75 | `tryGetService` answers null exactly when `getService` would throw. Otherwise it gives the same instance and the same container state. |
| Container.NewResolvesSelf | packges/process-manager/src/context/context.spec.ts:14-20 | In either lineage, a new container resolves its own class to itself and changes nothing. |
| Container.SingletonIdentity | packages/core/src/context/context.ts:77-89 | Once a singleton has resolved, every later resolution returns the identical instance and changes nothing. |
| Container.TransientsDistinct | packages/core/src/context/context.ts:91-97 | Each resolution of a transient-only token builds an instance. It differs from every instance cached before and from the previous resolution's instance. |
| Container.TransientCaching | packges/process-manager/src/context/context.ts:86-94 | A transient resolution writes the instance cache exactly in the older lineage. |
| Container.LegacyTransientShadowsSingleton | packges/process-manager/src/context/context.ts:72-94 | In the older lineage, registering a singleton later under a token already resolved as a transient returns the stale transient instance forever. The cache is checked first. |
| ContextBuilder.AddSingletonTo | packages/core/src/context/context-builder.ts:8-20 | `addSingleton(token, type?)` registers a string with a type, or a class alone, as a singleton. A duplicate fails with "Type exists in current context". Any other argument shape leaves the context untouched. Only the singleton map changes. |
| ContextBuilder.AddTransientTo | packages/core/src/context/context-builder.ts:25-37 | `addTransient`, and the older `addInstance`, follow the same rule on the transient map. |
| ContextBuilder.AddSingleton | packages/core/src/context/context-builder.ts:8-20 | The operator leaves any context untouched for an unaccepted argument shape. Otherwise it fails exactly when the token is already a singleton, and then with "Type exists in current context". On success it adds the registration to the singleton map and changes no other map. |
| ContextBuilder.AddTransient | packages/core/src/context/context-builder.ts:25-37 | The same as `addSingleton`, on the transient map. |
| ContextBuilder.DefaultContextFactory | packages/core/src/context/context-builder.ts:48-50 | The default factory gives a current-lineage container whose only registration is itself, already built, with no transients. |
| ContextBuilder.BuildLegacy | packges/process-manager/src/context/context-builder.ts:33-39 | The older `build()` starts from a new older-lineage container. With nothing piped, the result is that container. |
| ContextBuilder.EmptyBuild | packages/core/src/context/context-builder.ts:85-93 | Building an empty pipe gives the factory's bare container: only the self-registration, and no transients. |
| ContextBuilder.AddSingletonIdentical | packages/core/src/context/context-builder.spec.ts:13-24 | After `pipe(addSingleton(MyService)).build`, resolving MyService twice gives the identical MyService instance, in either lineage. |
| ContextBuilder.AddTransientDistinct | packages/core/src/context/context-builder.spec.ts:26-48 | After `pipe(addTransient(...)).build`, two resolutions give two distinct instances of the registered class. This holds for a string token or a class token, in either lineage. |
| ContextBuilder.NamedWithoutTypeIsNoop | packages/core/src/context/context-builder.ts:12-19 | A string token without a type registers nothing. The build is the bare container. |
| ContextBuilder.DuplicatesArePerLifetime | packages/core/src/context/context.ts:29-57 | Adding the same class twice as a singleton fails the build. Adding it once as a singleton and once as a transient succeeds. |
| Pipeline.Pipe | packages/core/src/context/context-builder.ts:74-77 | `pipe` keeps the operators piped so far and appends the new ones after them, in order. |
| Pipeline.Build | packages/core/src/context/context-builder.ts:85-93 | With nothing piped, `build` returns the start value. |
| Pipeline.ApplyConcat | packages/core/src/context/context-builder.ts:89-91 | Running a+b is running a, then running b on its result. A failure in a skips b. |
| Pipeline.ApplyStopsAtFailure | packages/core/src/context/context-builder.ts:89-91 | Once an operator throws, the operators after it never run, and the build fails with that error. |
| Pipeline.BuildTwoPipes | packages/core/src/context/context-builder.ts:74-93 | Two `pipe` calls followed by `build` run the first batch and then the second. |
| Process.LineageOf | packges/process-manager/src/process/process/process.ts:11-17 | Both older process classes look up operators under the older tokens. Only the current process uses the current ones. |
| Process.FirstWithStatus | packages/core/src/process/process/process.ts:52 | Every lookup by status finds the first step with that status, if any. |
| Process.EndpointMissing | packges/process-manager/src/process/process.ts:40-50 | An unknown endpoint of `addRelation` gives a different error in each class. The current one gives `"<s>" command not found.` through StepNotFoundException. The older one gives `Step for status "<s>" not found`. The oldest gives `"<s>" status not found`. |
| Process.StatusMissing | packges/process-manager/src/process/process/process.ts:113-119 | An unknown status in `getAvailableStatusCommands` is StepNotFoundException in the current class. In both older classes it is `Step for status "<s>" not found`. |
| Process.CommandMissing | packges/process-manager/src/process/process/process.ts:159-161 | A command on no edge is CommandNotFoundException in the current class. It is `"<c>" command not found`, without the dot, in the older ones. It is never a resolution error. |
| Process.InitialMissing | packges/process-manager/src/process/process/process.ts:55-63 | A missing initial action is reported as `"Initial command" command not found.` in the current class. In the older ones it is "Initial command not found". |
| Process.NewProcess | packges/process-manager/src/process/process/process.ts:32-37 | A new process has no steps and no relations. The current class needs nothing from the container. The older ones resolve ActionContext at construction, so an unregistered ActionContext makes construction throw. |
| Process.AddStep | packages/core/src/process/process/process.ts:47-49 | `addStep` always appends a new step object with the status and the process's name. The step objects are distinct, so it never fails and the invariant is kept. |
| Process.FindByIdentity | packages/core/src/process/process/process.ts:52-60 | The graph finds a step object by identity. What it finds is that very node. |
| Process.AddRelation | packages/core/src/process/process/process.ts:51-61 | A `from` with no step fails with the step-missing error for `from`. Otherwise a `to` with no step fails with the error for `to`. An existing edge between the first steps of the two statuses fails with "Edge has existed yet". Otherwise exactly that edge, labelled with the command, is appended. The invariant is kept. |
| Process.CommandsFrom | packages/core/src/process/process/process.ts:126 | The commands of a node are those of its outgoing edges, in edge order. |
| Process.GetAvailableStatusCommands | packages/core/src/process/process/process.ts:121-127 | An unknown status fails with the step-missing error. A known one gives the commands of the edges leaving its first step, in insertion order. |
| Process.CommandExists | packages/core/src/process/process/process.ts:98-101 | A command exists iff some edge anywhere in the graph carries it. |
| Process.ValidateCommand | packages/core/src/process/process/process.ts:94-109 | A command on no edge fails with the command-missing error and changes nothing. Otherwise the action registered under the command is resolved. A resolution error propagates. The action's `validateTask` answers, or "valid" when the action has none. |
| Process.InvokeCommand | packages/core/src/process/process/process.ts:111-119 | A command on no edge fails. Otherwise the resolved action's `updateTask` runs with the process name assigned. Its repository writes and its outcome are the result. An action without `updateTask` fails as "not a function". |
| Process.ValidateInitialState | packages/core/src/process/process/process.ts:63-79 | An initial action that cannot be resolved becomes the initial-command-missing error. Otherwise its `validateInitialState` answers, or "valid" when it has none. |
| Process.CreateInitialTask | packages/core/src/process/process/process.ts:81-92 | An unresolvable initial action becomes the initial-command-missing error. Otherwise its `createTask` runs with the process name assigned, and its writes and outcome are the result. |
| Process.UpdateToken | packages/core/src/process/process/process.ts:130-132 | The update gate looks up the update-operator name of the task's status in the process's lineage. |
| Process.ReadToken | packages/core/src/process/process/process.ts:152-154 | The read gate looks up the read-operator name of the task's status in the process's lineage. |
| Process.ValidateUpdateOperation | packages/core/src/process/process/process.ts:129-138 | Without an update operator, or when it has no `isOperationValid`, the check answers "valid". Otherwise the operator answers. Resolution failures are swallowed. |
| Process.ValidateReadOperation | packges/process-manager/src/process/process/process.ts:143-152 | Without a read operator the check answers "valid". With one, its `isOperationValid` answers. When it lacks that method, the current class answers "valid" and the older class fails as "not a function". The current class never fails. |
| Process.UpdateMissing | packges/process-manager/src/process/process/process.ts:164-165 | A missing update operator is UpdateMethodNotImplementedException in the current class. In the older class it is the same text without the trailing dot. |
| Process.UpdateTask | packages/core/src/process/process/process.ts:140-149 | Without an update operator the update fails with the not-implemented error. Otherwise the operator's `updateTask` runs and its writes and outcome are the result. An operator without `updateTask` fails with the not-implemented error in the current class. In the older class it fails as "not a function". |
| ProcessProperties.AvailableIsCommandsFrom | packages/core/src/process/process/process.ts:121-127 | A known status offers exactly the commands of the edges leaving its first step. |
| ProcessProperties.AvailableAfterAddRelation | packages/core/src/process/process/process.ts:51-61 | A successful `addRelation` appends its command to what its `from` status offers. Every status whose first step is another node offers what it offered before. |
| ProcessProperties.AvailableAfterAddStep | packages/core/src/process/process/process.ts:47-49 | A step for a new status offers nothing. Every status already present keeps its commands. |
| ProcessProperties.FirstWithStatusStable | packages/core/src/process/process/process.ts:47-49 | Appending steps does not move the first step of a status already present. |
| ProcessProperties.DuplicateStatusAccepted | packages/core/src/process/process/process.ts:47-49 | A second `addStep` with the same status is accepted and adds a second node. Lookups by status keep finding the first one. Step objects are compared by identity, so duplicates are never detected. |
| ProcessProperties.GatesWithoutOperators | packages/core/src/process/process/process.ts:129-160 | With no operator registered for the status, reads are allowed and the update check passes. The update itself fails with the not-implemented error. The container is unchanged. |
| ProcessProperties.UpdateOperatorDoesNotGateReads | packages/core/src/process/process/process.ts:151-160 | Registering only an update operator for a status leaves reads of that status ungated, because the read token is a different token. |
| ProcessProperties.CommandCheckIgnoresStatus | packages/core/src/process/process/process.ts:94-101 | A command offered by any status passes the existence check for a task in any status. The check looks at the whole graph, not at the task's status. |
| ProcessBuilder.AddActionsTo | packages/core/src/process/process-builder/process-builder.ts:36-45 | `addActions` succeeds iff no command is already a transient token and no command repeats in the list. On success each command maps to its class, the old transients are kept, and nothing else changes. On failure the error is "Type exists in current context". |
| ProcessBuilder.AddStepsTo | packges/process-manager/src/process/process-builder/process-builder.ts:49-56 | `addSteps` always succeeds and keeps the process invariant, name and edition. The older builder's operators are the same as the current ones. |
| ProcessBuilder.AddStepsAppends | packages/core/src/process/process-builder/process-builder.ts:58-65 | `addSteps` appends one new step per status, in order, after the old steps. It adds no relation. |
| ProcessBuilder.AddRelationsTo | packages/core/src/process/process-builder/process-builder.ts:80-89 | `addRelations` keeps the invariant, name and edition on success. A first triple whose `from` has no step fails with that step-missing error. |
| ProcessBuilder.AddRelationAppendsOne | packages/core/src/process/process/process.ts:51-61 | A successful `addRelation` keeps the steps and appends exactly one edge, labelled with the command. |
| ProcessBuilder.AddRelationsAppends | packages/core/src/process/process-builder/process-builder.ts:80-89 | A successful `addRelations` keeps the steps and the old edges. The new edges carry the triples' commands in order. |
| ProcessBuilder.At | packages/core/src/process/process/process.ts:52-60 | A status that has a step is found at a node with that status. |
| ProcessBuilder.AddRelationsSucceeds | packages/core/src/process/process-builder/process-builder.ts:80-89 | When every endpoint has a step, `addRelations` succeeds iff no triple repeats a (from, to) pair and no pair already has an edge. Its only possible failure is "Edge has existed yet". |
| ProcessBuilder.FreshPairsSucceed | packages/core/src/process/process-builder/process-builder.ts:80-89 | Fresh, pairwise-distinct pairs make `addRelations` succeed. This is the "if" half. |
| ProcessBuilder.SuccessNeedsFreshPairs | packages/core/src/process/process-builder/process-builder.ts:80-89 | A successful `addRelations` had fresh, pairwise-distinct pairs. Any failure is a duplicate edge. This is the "only if" half. |
| ProcessBuilder.FirstRelation | packages/core/src/process/process-builder/process-builder.ts:84-86 | The first relation keeps every status and its first step. It adds exactly its one edge, which was new. The rest of the run continues from there. |
| ProcessBuilder.FreshEdgeKept | packages/core/src/process/process/process.ts:51-61 | A pair without an edge after one `addRelation` had none before. |
| ProcessBuilder.OneRelationKeeps | packages/core/src/process/process/process.ts:51-61 | One `addRelation` keeps every status and where it is found, and keeps every edge. |
| ProcessBuilder.FreshDistinctFromRest | packages/core/src/process/process-builder/process-builder.ts:84-86 | If the rest of the run is fresh after the first relation, no later triple repeats the first one's pair. |
| ProcessBuilder.NoRelationsFresh | packages/core/src/process/process-builder/process-builder.ts:80-89 | On a process with no edges, `addRelations` succeeds iff the triples' (from, to) pairs are pairwise distinct. |
| ProcessBuilder.EdgesAfterOne | packages/core/src/process/process/process.ts:60 | After appending one edge, an edge exists iff it existed before or is the new one. |
| ProcessBuilder.BuildProcess | packages/core/src/process/process-builder/process-builder.ts:128-136 | `build` creates the process through the factory and then runs the piped operators on it. A factory that throws, which is the older process without ActionContext, fails the build with that error. |
| ProcessBuilder.EmptyProcessBuild | packages/core/src/process/process-builder/test/process-builder.spec.ts:16-26 | Building with nothing piped gives an empty current-lineage process with the given name and changes nothing. |
| ProcessBuilder.StepsThenRelation | packages/core/src/process/process-builder/test/process-builder.spec.ts:50-70 | Piping two steps a and b, then the relation a to b labelled c, builds exactly two steps, a then b, with one edge from node 0 to node 1 labelled c. |
| Availability.CommandsLeaving | packages/core/src/process/process/process.ts:121-127 | The reference answer: the commands of the declared triples leaving a status, in declaration order. |
| Availability.NoRelationsNoCommands | packages/core/src/process/process/process.ts:121-127 | A process without relations offers nothing at any known status. |
| Availability.AvailableAfterOne | packages/core/src/process/process/process.ts:51-61 | A successful `addRelation` keeps every known status known. It appends its command to exactly its `from` status's answer. |
| Availability.AvailableAfterRelations | packages/core/src/process/process-builder/process-builder.ts:80-89 | A successful `addRelations` appends, to each status's answer, exactly the commands of the triples leaving it, in order. |
| Availability.AddedStatuses | packages/core/src/process/process-builder/process-builder.ts:58-65 | After `addSteps`, a status has a step iff it had one before or was added. |
| Availability.StepsPhaseStatuses | packages/core/src/process/actions/decorator-operators.ts:51-76 | After the steps phase of a build from declarations, a status has a step iff it had one or the declarations mention it. No relation has been added yet. |
| Availability.DeclaredCommands | packages/core/src/process/actions/decorator-operators.ts:51-76 | A successful build from declarations on a process without relations answers as follows. Every status it has or the declarations mention offers exactly the commands declared leaving it, in declaration order. Any other status is unknown. |
| Availability.OfferedCommandExists | packages/core/src/process/process/process.ts:94-127 | Every command a status offers passes the command-existence check. |
| ActionOperators.PairStatuses | packages/core/src/process/actions/decorator-operators.ts:61-66 | One action's pairs mention their statuses pair by pair, `from` before `to`: position 2k is the k-th pair's `from` and position 2k+1 its `to`. |
| ActionOperators.PairRelations | packages/core/src/process/actions/decorator-operators.ts:61-66 | Each declared (from, to) pair of an action becomes one triple carrying the action's command, in order. |
| ActionOperators.EndpointsMentioned | packages/core/src/process/actions/decorator-operators.ts:59-67 | Every collected relation's endpoints are among the collected statuses. This is why the relations phase never meets a missing step. |
| ActionOperators.StepsAndRelations | packages/core/src/process/actions/decorator-operators.ts:51-76 | The from-metadata operator keeps the process invariant, name and edition when it succeeds. |
| ActionOperators.StatusesOnce | packages/core/src/process/actions/decorator-operators.ts:57-70 | The `Set` of statuses holds each mentioned status exactly once, in order of first mention. |
| ActionOperators.StepsFirst | packages/core/src/process/actions/decorator-operators.ts:57-70 | The steps phase adds one step per distinct mentioned status, in order of first mention, after the existing steps. It adds no edges. |
| ActionOperators.RelationsNext | packages/core/src/process/actions/decorator-operators.ts:71-73 | The relations phase adds no steps. It appends one edge per collected triple, carrying the triples' commands in order. |
| ActionOperators.StepsAndRelationsSucceeds | packages/core/src/process/actions/decorator-operators.ts:51-76 | On a process without relations, the from-metadata operator succeeds iff no (from, to) pair is declared twice. Its only failure is "Edge has existed yet". |
| ActionOperators.StepsJoinable | packages/core/src/process/actions/decorator-operators.ts:68-73 | After the steps phase, every collected triple's endpoints have steps. |
| ActionOperators.ListedStatusHasStep | packages/core/src/process/actions/decorator-operators.ts:68-70 | Every status passed to `addSteps` has a step afterwards. |
| ActionOperators.FromModuleTo | packages/core/src/process/actions/decorator-operators.ts:17-42 | The from-module operator fails with DecoratorIsRequiredException exactly when some module of the tree lacks `@Module` or some listed action lacks action metadata. Otherwise it builds from the `@Action` declarations of the tree, root first, initial actions skipped. |
| ActionOperators.AddActionToContext | packages/core/src/process/actions/decorator-operators.ts:83-95 | An undecorated class fails with `Type <name> is required @Action decorator.`. An action registers as a transient under its command, and an initial action under `create_initial_action`. |
| ActionOperators.ActionResolvesUnderItsToken | packages/core/src/process/actions/test/decorator-operators.spec.ts:20-58 | After `addActionToContext`, resolving the action's token, when no singleton shadows it, gives an instance of the action's class. The token is its command, or `create_initial_action` for an initial action. |
| ActionOperators.EnsureStep | packages/core/src/process/actions/decorator-operators.ts:116-121 | A status without a step gains exactly one new step. A status with a step leaves the process unchanged. No edge changes. |
| ActionOperators.PairsToProcess | packages/core/src/process/actions/decorator-operators.ts:114-123 | The per-pair loop keeps the process invariant, name and edition. |
| ActionOperators.PairsAddEdges | packages/core/src/process/actions/decorator-operators.ts:114-123 | A successful run keeps the existing steps in front and the existing relations in front. It then has exactly one new relation per pair, in pair order. The k-th joins the first step with the pair's `from` status to the first step with its `to` status, and is labelled with the action's command. |
| ActionOperators.PairsLabels | packages/core/src/process/actions/decorator-operators.ts:113-123 | The new relations carry the action's command once per pair, as the triples of its pairs ask. |
| ActionOperators.PairsFailOnRepeatedEdge | packages/core/src/process/actions/decorator-operators.ts:114-123 | On a well-formed process the per-pair loop can only fail with "Edge has existed yet": every endpoint gets its step before its relation is added. |
| ActionOperators.RelationAndStepEdges | packages/core/src/process/actions/decorator-operators.ts:110-123 | For an `@Action` class, success adds one relation per declared pair, in declaration order, between the first steps of its statuses and labelled with the command. The only failure is "Edge has existed yet". |
| ActionOperators.RelationAndStepTo | packages/core/src/process/actions/decorator-operators.ts:103-130 | An undecorated class fails with DecoratorIsRequiredException. An initial action fails with "Unknown Error. This is most likely a bug.". An action runs the per-pair loop with its command. |
| ActionOperators.EnsureStepKeepsUnique | packages/core/src/process/actions/decorator-operators.ts:116-121 | The per-action operator never creates a second step for a status. |
| ActionOperators.EnsureStepKeepsStatuses | packages/core/src/process/actions/decorator-operators.ts:116-121 | Ensuring a step never loses a status. |
| ActionOperators.PairsKeepStatusesUnique | packages/core/src/process/actions/decorator-operators.ts:114-123 | A process whose statuses are unique keeps them unique through the per-action operator. |
| ActionOperators.PairsGiveSteps | packages/core/src/process/actions/decorator-operators.ts:114-123 | After the per-action operator succeeds, both endpoints of every declared pair have steps. Every status present before is still present. |
| ActionOperators.PairEndpointsHaveSteps | packages/core/src/process/actions/decorator-operators.ts:114-123 | Both endpoints of the k-th pair have steps after the loop. |
| ActionOperators.PairsKeepStatus | packages/core/src/process/actions/decorator-operators.ts:114-123 | A status present before the loop is present after it. |
| ActionOperators.OnePair | packages/core/src/process/actions/decorator-operators.ts:115-122 | One pair ensures its `from` step, then its `to` step, then adds the relation. The loop continues from there. |
| ActionOperators.ActivateAndCloseLists | packages/core/src/process/actions/decorator-operators.ts:57-67 | The test declarations (activate: active to in-progress, close: active to closed) collect the statuses active, in-progress, closed. They collect the two triples in declaration order. |
| ActionOperators.ActivateAndCloseSteps | packages/core/src/process/actions/decorator-operators.ts:68-70 | On a new process, the steps phase of these declarations gives steps active, in-progress and closed with ids 0, 1, 2. |
| ActionOperators.ActivateAndCloseRelations | packages/core/src/process/actions/decorator-operators.ts:71-73 | The relations phase then adds the edges 0 to 1 (activate) and 0 to 2 (close), and `active` offers activate, close. |
| ActionOperators.TwoActionsFromActive | packages/core/src/process/actions/decorator-operators.ts:51-76 | Built from the two declarations, a new process offers exactly `['activate', 'close']` at `active`. This is what the two-action test expects. |
| Metadata.GetActionMetadata | packages/core/src/process/actions/types.ts:61-68 | A class with action metadata yields that metadata. Any other class fails with DecoratorIsRequiredException naming the class and `Action`. |
| Metadata.CollectRootFirst | packages/core/src/process/modules/decorator-operators.ts:17-38 | The module walks of `bootstrapContext` are pre-order: the root's own entries come first, and every nested module's entries are contained in the root's list. |
| Metadata.CollectAllContains | packages/core/src/process/modules/decorator-operators.ts:21 | Each nested module's entries are contained in the concatenation over the nested modules. |
| Metadata.EmptyModuleContributesNothing | packages/core/src/process/modules/decorator-operators.ts:18-20 | A module without metadata contributes no entries, and neither does one with empty lists and no children. |
| Metadata.OwnDeclarations | packages/core/src/process/actions/decorator-operators.ts:32-34 | A module's action list succeeds iff every listed class has action metadata. Otherwise it fails with DecoratorIsRequiredException naming an undecorated class. |
| Metadata.OwnDeclarationsOfDecorated | packages/core/src/process/actions/decorator-operators.ts:32-34 | When every listed class is decorated, the list yields the `@Action` declarations in order, with initial actions filtered out. |
| Metadata.ModuleDeclarationsWalk | packages/core/src/process/actions/decorator-operators.ts:23-38 | The `getActionsMeta` walk succeeds iff every module of the tree has `@Module` and every listed action is decorated. On success it yields the `@Action` declarations of the tree, root first. Its only failure is DecoratorIsRequiredException. |
| Metadata.ModuleDeclarationsAllWalk | packages/core/src/process/actions/decorator-operators.ts:35-37 | The same holds for a list of nested modules. |
| Metadata.DeclarationsOfConcat | packages/core/src/process/actions/decorator-operators.ts:32-35 | Declarations of a concatenation are the concatenation of declarations. |
| StepOperators.UpdateOperatorName | packages/core/src/process/step/decorator-operators.ts:4-6 | The update-operator token is the status wrapped as `__<status>_update_operator__`. In the older lineage it is `*&<status>_update_operator&*` (packges/process-manager/src/process/step/decorator-operators.ts:4-6). |
| StepOperators.ReadOperatorName | packages/core/src/process/step/decorator-operators.ts:8-10 | The read-operator token is `__<status>_read_operator__`. In the older lineage it is `*&<status>_read_operator&*`. |
| StepOperators.NamesInjective | packages/core/src/process/step/decorator-operators.ts:4-10 | Different statuses never share an update token or a read token. |
| StepOperators.UpdateIsNeverRead | packages/core/src/process/step/decorator-operators.ts:4-10 | An update token is never a read token, whatever the two statuses. |
| StepOperators.LineagesNeverShareTokens | packges/process-manager/src/process/step/decorator-operators.ts:4-10 | No token of the current lineage equals a token of the older lineage. |
| StepOperators.AddStepOperators | packages/core/src/process/step/decorator-operators.ts:16-33 | In the current lineage, a class without `@Step` fails with DecoratorIsRequiredException. In the older lineage it leaves the context unchanged (packges/process-manager/src/process/step/decorator-operators.ts:17-20). Otherwise the context gains a transient under the update token exactly when there is an update operator, and likewise for reads. Nothing else changes. |
| Modules.ProviderOpEffect | packages/core/src/process/modules/decorator-operators.ts:42-47 | One provider registers a singleton of its class under its own type or under its string token. It fails with TYPE_EXISTS_ERROR exactly when that token is taken. |
| Modules.ProvidersFitStep | packages/core/src/process/modules/decorator-operators.ts:42-47 | A list of providers fits a context iff its first fits and the rest fit the context that registration produces. |
| Modules.ProvidersOutcome | packages/core/src/process/modules/decorator-operators.ts:42-47 | The providers' part succeeds iff no provider token is taken or repeated. A failure is TYPE_EXISTS_ERROR. A success keeps every earlier singleton and touches only singletons. |
| Modules.ProvidersPhase | packages/core/src/process/modules/decorator-operators.ts:42-47 | After the providers' part, each provider's token holds its class, and every new singleton token is some provider's. |
| Modules.ProvidersPhaseTokens | packages/core/src/process/modules/decorator-operators.ts:42-47 | Each provider's token holds its class. |
| Modules.ProvidersPhaseNew | packages/core/src/process/modules/decorator-operators.ts:42-47 | Every new singleton token is some provider's. |
| Modules.ActionOpEffect | packages/core/src/process/modules/decorator-operators.ts:48 | One action fails with DecoratorIsRequiredException when undecorated, and with TYPE_EXISTS_ERROR exactly when its token is taken. Otherwise it adds a transient of its class under its token. |
| Modules.ActionsFitStep | packages/core/src/process/modules/decorator-operators.ts:48 | A list of actions fits iff its first fits and the rest fit the context after it. |
| Modules.ActionsPhase | packages/core/src/process/modules/decorator-operators.ts:48 | The actions' part succeeds iff every action is decorated and no token is taken or repeated. It fails only with TYPE_EXISTS_ERROR or DecoratorIsRequiredException. A success keeps every earlier transient and touches only transients. |
| Modules.ActionsPhaseTokens | packages/core/src/process/modules/decorator-operators.ts:48 | After the actions' part, each action's class answers under its command, or under `create_initial_action`. |
| Modules.ActionsPhaseNew | packages/core/src/process/modules/decorator-operators.ts:48 | Every transient token the actions' part adds is some action's. |
| Modules.StepsPhase | packages/core/src/process/modules/decorator-operators.ts:49 | In the current lineage, a successful steps' part means every step class carries `@Step`. Each declared operator class then answers under its status token. Earlier transients stay, and singletons and the cache are untouched. |
| Modules.BootstrapPhases | packages/core/src/process/modules/decorator-operators.ts:40-51 | `bootstrapContext` runs three phases, each on the previous one's context: providers, actions, steps, each in walk order. |
| Modules.BootstrapContext | packages/core/src/process/modules/decorator-operators.ts:40-51 | `bootstrapContext` fails only with TYPE_EXISTS_ERROR or DecoratorIsRequiredException. A bootstrapped context is current-lineage, and nothing but the container itself has been constructed. |
| Modules.ProvidersDecideFirst | packages/core/src/process/modules/decorator-operators.ts:40-51 | If a provider token repeats, or names the container itself, the bootstrap fails with TYPE_EXISTS_ERROR, whatever the actions and steps are. |
| Modules.BootstrapStages | packages/core/src/process/modules/decorator-operators.ts:40-51 | A successful bootstrap passed through a successful providers' part and a successful actions' part. |
| Modules.BootstrapSingletons | packages/core/src/process/modules/decorator-operators.ts:17-22 | A bootstrapped context holds exactly the container itself and every provider of the tree under its token, and nothing has been constructed yet. |
| Modules.BootstrapActions | packages/core/src/process/modules/decorator-operators.ts:24-31 | In a bootstrapped context, every action of the tree is decorated and answers under its token. |
| Modules.BootstrapSteps | packages/core/src/process/modules/decorator-operators.ts:33-38 | In a bootstrapped context, every step class carries `@Step`, and each declared operator class answers under its status's token. |
| Modules.EmptyModuleBootstrap | packages/core/src/process/modules/decorator-operators.ts:18-20 | A module without metadata, or with empty metadata, bootstraps to the bare container. |
| Modules.LegacyProvidersPhase | packges/process-manager/src/process/modules/decorator-operators.ts:29 | The older providers' part succeeds only if every provider is a class. On class providers it does what the current one does. |
| Modules.LegacyBootstrapContext | packges/process-manager/src/process/modules/decorator-operators.ts:11-33 | The older `bootstrapContext` throws the TypeError on `providers` for an undecorated module. A context it builds is older-lineage, and nothing but the container itself has been constructed. |
| Modules.LegacyBootstrapRegisters | packges/process-manager/src/process/modules/decorator-operators.ts:11-33 | A successful older bootstrap had a decorated tree of class providers that fit. Each provider class is a singleton of itself, and every transient is an action's. No step operator is registered. |
| Modules.UndecoratedModuleLineages | packges/process-manager/src/process/modules/decorator-operators.ts:12-15 | On a module without `@Module`, the current bootstrap gives the bare container. The older one fails with the TypeError on `providers`. |
| Modules.LegacyRejectsTokenProviders | packges/process-manager/src/process/modules/decorator-operators.ts:29 | A `{token, type}` provider anywhere in the tree fails the older bootstrap. |
| Modules.BootstrapProcess | packges/process-manager/src/process/modules/decorator-operators.ts:35-40 | The older `bootstrapProcess` always fails, with an empty message. |
| GlobalStore.CommandsOfConcat | packges/process-manager/src/process/common/global-store.ts:60 | The commands of two concatenated action lists are the concatenation of their commands. |
| GlobalStore.ActionsIn | packges/process-manager/src/process/common/global-store.ts:51-61 | `getActionsMetadata` lists a process's actions with distinct commands. Every entry carries the same process key as the query, which does not mean the same process name. |
| GlobalStore.SetActionIn | packges/process-manager/src/process/decorators/global-store.ts:22-33 | `setActionMetadata` succeeds iff the process has no action with that command. On failure it throws the "has been already added to the global store" message. On success it appends the action to its process's list and leaves every other process key as it was. |
| GlobalStore.SetActionKeepsInv | packges/process-manager/src/process/common/global-store.ts:35-49 | Registration keeps each process's commands distinct, with every entry under its own key. |
| GlobalStore.ClearTable | packges/process-manager/src/process/decorators/global-store.ts:43-45 | After `clear()`, no process has any action. |
| GlobalStore.FindAction | packges/process-manager/src/process/common/global-store.ts:76 | A lookup by command finds an entry iff some stored action has that command, and the entry it finds has that command. |
| GlobalStore.FindActionAppend | packges/process-manager/src/process/common/global-store.ts:48 | After a fresh command is appended, the lookup finds the new entry under that command and answers as before for every other command. |
| GlobalStore.FirstEntryKept | packges/process-manager/src/process/common/global-store.ts:45-47 | A second registration of a command for the same process key throws, and the first registration is still the one found. |
| GlobalStore.VersionsIndependent | packges/process-manager/src/process/common/global-store.ts:37 | Two versions of one process have different keys, so registering for one leaves the other's actions untouched. |
| GlobalStore.KeyInjectiveWithoutUnderscore | packges/process-manager/src/process/common/global-store.ts:37 | On names without an underscore, equal keys mean equal process names. |
| GlobalStore.KeysCollide | packges/process-manager/src/process/common/global-store.ts:37 | Processes `a_b`/`c` and `a`/`b_c` share the key `a_b_c`. An action of one is listed for the other and blocks the same command there. |
| GlobalStore.LookupStep | packges/process-manager/src/process/common/global-store.ts:102 | A status lookup finds an entry iff the status is in the table, and the entry is that status's. |
| GlobalStore.PutStepSpec | packges/process-manager/src/process/common/global-store.ts:94 | `Map.set` on a status: the status then answers the new value and every other status answers as before. A new status is appended, and an existing one keeps its place. |
| GlobalStore.PutStepFinds | packges/process-manager/src/process/common/global-store.ts:94 | After `set`, the status answers the new value. |
| GlobalStore.PutStepKeepsOthers | packges/process-manager/src/process/common/global-store.ts:94 | After `set`, every other status answers as before. |
| GlobalStore.PutStepStatuses | packges/process-manager/src/process/common/global-store.ts:94 | `set` appends a new status and keeps the order of existing ones. |
| GlobalStore.SetActionMetadata | packges/process-manager/src/process/common/global-store.ts:35-49 | The richer store's `setActionMetadata` succeeds iff `getActionMetadata` finds nothing for the command. A success appends under the process key, leaves other keys and the step table alone, and keeps the store's invariant. |
| GlobalStore.GetActionMetadata | packges/process-manager/src/process/common/global-store.ts:63-77 | `getActionMetadata` finds an entry iff the process key has an action with that command, and that entry is the one it finds. |
| GlobalStore.GetAfterSetAction | packges/process-manager/src/process/common/global-store.ts:35-77 | After a registration, the new entry is found under its command and process key. Every other lookup answers as before. |
| GlobalStore.GetStepMetadata | packges/process-manager/src/process/common/global-store.ts:97-103 | `getStepMetadata` finds a status exactly when `getStepsMetadata` of the same process lists it. What it finds is listed with that status. |
| GlobalStore.GetStepsMetadata | packges/process-manager/src/process/common/global-store.ts:105-108 | `getStepsMetadata` is empty for a process with no step entry. It lists each status at most once, and every listed status can be looked up. |
| GlobalStore.StepsListedAreFound | packges/process-manager/src/process/common/global-store.ts:97-108 | Each entry `getStepsMetadata` lists is exactly what `getStepMetadata` answers for its status. |
| GlobalStore.StepsAfterSet | packges/process-manager/src/process/common/global-store.ts:84-108 | After `setStepMetadata`, the process lists the same statuses in the same order, or, for a new status, those followed by it. Every other process lists what it listed before. |
| GlobalStore.SetStepMetadataAsWritten | packges/process-manager/src/process/common/global-store.ts:84-95 | As written, a process with actions but no step map drops the step. A process without actions has its step map replaced by the single new entry. The action table never changes. |
| GlobalStore.SetStepMetadata | packges/process-manager/src/process/common/global-store.ts:84-95 | With the step map created when the step table lacks the process: the step is then found, and every other (status, process key) answers as before. |
| GlobalStore.AsWrittenAgreesWhenTablesMatch | packges/process-manager/src/process/common/global-store.ts:90-92 | The written rule and the intended rule agree whenever the process has entries in both tables or in neither. |
| GlobalStore.StepsResetWithoutActions | packges/process-manager/src/process/common/global-store.ts:90-92 | Without actions, setting `new` then `closed` loses `new` under the written rule. The intended rule keeps both. |
| GlobalStore.StepDroppedWithActions | packges/process-manager/src/process/common/global-store.ts:90-94 | With an action registered and no step map yet, the written rule drops the step and the intended rule records it. |
| GlobalStore.Clear | packges/process-manager/src/process/common/global-store.ts:79-82 | After `clear()`, every action and step lookup answers nothing. |
| GlobalStore.GetGlobalStore | packges/process-manager/src/process/common/global-store.ts:117-124 | `getGlobalStore` returns the store in the global slot and leaves it there. A fresh slot gets an empty store. |
| GlobalStore.GlobalStoreShared | packges/process-manager/src/process/common/global-store.ts:117-124 | Every call after the first returns the same store and leaves the slot alone. |
| GlobalStore.ActionDecorator | packges/process-manager/src/process/decorators/decorators.ts:17-31 | `@Action` records the class with its command and `relations ?? []`, appended to its process's list. A command already stored for the process throws the "already added" message. |
| GlobalStore.InitialActionDecorator | packges/process-manager/src/process/decorators/decorators.ts:40-65 | `@InitialAction` records the class under `create_initial_action` with no relations. If the process already has an initial action, it throws "There is already initial action named" with that class's name. |
| GlobalStore.SecondInitialActionFails | packges/process-manager/src/process/decorators/decorators.ts:46-55 | A second `@InitialAction` for the same process throws, naming the first class. |
| StoreOperators.StoredPairs | packges/process-manager/src/process/process-builder/action-decorator-operators.ts:8-10 | Each stored action becomes the pair of its command and its class, in order. |
| StoreOperators.ActionsFromStoreTo | packges/process-manager/src/process/process-builder/action-decorator-operators.ts:6-13 | The store operator fails only with TYPE_EXISTS_ERROR, and never touches singletons or the cache. |
| StoreOperators.ActionsFromStoreSucceeds | packges/process-manager/src/process/process-builder/action-decorator-operators.ts:6-13 | The store operator succeeds iff none of the process's stored commands is already a transient token. |
| StoreOperators.ActionsFromStoreRegisters | packges/process-manager/src/process/process-builder/action-decorator-operators.ts:6-13 | A successful run registers each stored command with its class. It keeps every earlier transient and adds no other token. |
| StoreOperators.ActionsFromStore | packges/process-manager/src/process/process-builder/action-decorator-operators.ts:6-13 | The operator fails only with TYPE_EXISTS_ERROR, and on any context it never touches singletons or the cache. |
| StoreOperators.ActionsFromStoreGuarded | packges/process-manager/src/process/actions/decorator-operators.ts:5-19 | The guarded variant throws "Imported actions not found" exactly when there is no first import. Otherwise it is the unguarded operator. |
| StoreOperators.OtherProcessesIgnored | packges/process-manager/src/process/process-builder/action-decorator-operators.ts:8 | Registering an action under another process key does not change what the operator registers. |
| StoreOperators.StoredCommandResolves | packges/process-manager/src/process/actions/decorator-operators.spec.ts:24-41 | After the operator, resolving a stored command that no singleton shadows constructs the stored action class. |
| StoreOperators.StoredDeclarations | packges/process-manager/src/process/process-builder/action-decorator-operators.ts:23-31 | Each stored action reads as a declaration of its command and pairs, in order. |
| StoreOperators.RelationsAndStepsFromStoreTo | packges/process-manager/src/process/process-builder/action-decorator-operators.ts:15-42 | The store-based build keeps the process invariant, name and edition. |
| StoreOperators.RelationsAndStepsFromStore | packges/process-manager/src/process/process-builder/action-decorator-operators.ts:15-42 | On any well-formed process, a successful run keeps the process invariant, name and edition. |
| StoreOperators.StoreRelationsSucceed | packges/process-manager/src/process/process-builder/action-decorator-operators.ts:15-42 | On a process without relations, the stored declarations are accepted iff no (from, to) pair is declared twice. Otherwise the build fails with EDGE_HAS_BEEN_ADDED. |
| StoreOperators.StoreTwoActionsFromActive | packges/process-manager/src/process/actions/decorator-operators.spec.ts:86-117 | `activate` (active to in-progress) and `close` (active to closed), registered for one process, give a fresh process of that name `['activate', 'close']` at `active`. |
| TaskRepository.LastNumericId | packages/core/src/process/task-repository/in-memory-task-repository.ts:13 | The id read at construction is `Number` of the last seeded task's id. There is none when nothing is seeded, and none when `Number` gives NaN. |
| TaskRepository.Seeded | packages/core/src/process/task-repository/in-memory-task-repository.ts:12-16 | A seeded repository holds the seed. Its counter continues after the last task's numeric id, and starts at 0 when there is no task or the id is not a number. |
| TaskRepository.SandboxSeeded | demos/todo-sandbox/src/app/services/todo-task-repository.ts:6-8 | The sandbox repository holds its seed, and its counter starts at 0 whatever is seeded. |
| TaskRepository.Find | packages/core/src/process/task-repository/in-memory-task-repository.ts:36-40 | The lookup answers the first position holding the id, or none when no task has it. |
| TaskRepository.GetTask | packages/core/src/process/task-repository/in-memory-task-repository.ts:21-23 | `getTask` returns the first task with the id, or null iff no task has it. |
| TaskRepository.AddTask | packages/core/src/process/task-repository/in-memory-task-repository.ts:24-34 | `addTask` ignores the incoming id. It stores the task last under `String(counter)`, advances the counter by one, and returns the stored task. |
| TaskRepository.UpdateTask | packages/core/src/process/task-repository/in-memory-task-repository.ts:35-45 | `updateTask` fails with 'Task not found' iff no task has the id. Otherwise it replaces the first task with that id, in place, and touches nothing else. |
| TaskRepository.Reset | packages/core/src/process/task-repository/in-memory-task-repository.ts:47-50 | `reset()` leaves no task and restarts the counter at 0. |
| TaskRepository.ResetRestartsIds | packages/core/src/process/task-repository/in-memory-task-repository.ts:47-50 | After a reset, no id is found and the next task added gets id "0". |
| TaskRepository.AddKeepsIdsBelow | packages/core/src/process/task-repository/in-memory-task-repository.ts:24-29 | Adding keeps the counter ahead of every numeric id. |
| TaskRepository.UpdateKeepsIdsBelow | packages/core/src/process/task-repository/in-memory-task-repository.ts:35-45 | Updating keeps the counter ahead of every numeric id. |
| TaskRepository.GetAfterAdd | packages/core/src/process/task-repository/test/in-memory-task-repository.spec.ts:100-123 | While the counter is ahead of every numeric id, the new id is unused and `getTask` of it returns the task just added. |
| TaskRepository.GetAfterUpdate | packages/core/src/process/task-repository/test/in-memory-task-repository.spec.ts:76-98 | After a successful update, `getTask` of the id returns the new version. |
| TaskRepository.FindIsFirst | packages/core/src/process/task-repository/in-memory-task-repository.ts:36 | The first position holding an id is what the lookup answers. |
| TaskRepository.SeededIdsBelow | packages/core/src/process/task-repository/in-memory-task-repository.ts:13-14 | When the last seeded id is the largest numeric id, the counter starts ahead of every id. |
| TaskRepository.SandboxSeedShadowsFirstAdd | demos/todo-sandbox/src/app/services/todo-task-repository.ts:6-30 | Seeded with a task "0", the sandbox repository gives its first added task id "0" too. `getTask("0")` then answers the seeded task, not the added one. |
| Application.ReasonOf | packages/core/src/process/application/application.ts:119 | The reason of a refusal is the validator's message. A missing message reads 'Error', and an empty one stays empty. |
| Application.CreateTask | packages/core/src/process/application/application.ts:26-35 | `createTask` reaches the initial action's `createTask` only after a valid initial-state check. An invalid state is refused as `"initial task"` with its reason, and nothing is written. A success implies the check said valid. |
| Application.InvokeCommand | packages/core/src/process/application/application.ts:49-71 | An unknown task fails with `Task with id "<id>" not found`. A command not available at the task's status fails with "Command is not available" before any action is resolved. An invalid validator answer fails with its message and writes nothing. Only a valid answer runs the action. |
| Application.GetTaskCommands | packages/core/src/process/application/application.ts:82-88 | `getTaskCommands` fails for an unknown task. Otherwise it answers the process's commands at the task's status. |
| Application.ListedCommandsAreTheInvocableOnes | packages/core/src/process/application/application.ts:56-70 | A command outside `getTaskCommands` is refused by `invokeCommand` as not available, with the world unchanged. A listed command with a valid validator answer is run by the process. |
| Application.GetTasks | packages/core/src/process/application/application.ts:95-98 | `getTasks` lists the repository's tasks in stored order, position by position, and each listed task can be looked up by its id. |
| Application.TasksAfterWrite | packages/core/src/process/application/application.ts:95-98 | After `addTask`, `getTasks` is the old list followed by the stored task. After a successful `updateTask`, it is the old list with one entry that had that id replaced by the new task. |
| Application.GetTask | packages/core/src/process/application/application.ts:110-123 | `getTask` fails for an unknown task. Otherwise the read gate decides: a refusal names the task and the reason, and a permit returns the stored task. A read never writes the repository. |
| Application.UpdateTask | packages/core/src/process/application/application.ts:136-149 | `updateTask` fails for an unknown task. An update-gate refusal names the task and the reason and writes nothing. Only a valid gate lets the process update the task. |
| Application.BootstrapApplication | packages/core/src/process/application/operators.ts:20-31 | A failing context bootstrap is the application's failure. A bootstrapped application runs on the given repository contents, and its context provides `TASK_REPOSITORY_TOKEN`. |
| Application.BootstrapApplicationSteps | packages/core/src/process/application/operators.ts:20-31 | A successful `bootstrapApplication` bootstrapped the module's context. Its process is what the from-module operator builds on a new process of that name, and it runs on that context and the given repository contents. |
| Application.BootstrapApplicationBuilds | packages/core/src/process/application/operators.ts:24-27 | A bootstrapped process is current-lineage, well formed and named as asked. It has one step per distinct status mentioned by the tree's actions, in first-mention order, and one relation per declared pair, labelled with its command, in declaration order. |
| Application.BootstrapNeedsRepository | packages/core/src/process/application/operators.ts:28 | With no repository provided under `__task_repository__`, bootstrapping fails with the missing-token error even when the context and the process build. |
| TodoDemo.ValidateNewTodo | demos/todo-backend/src/process/actions.ts:44-61 | A submission is valid iff both its name and its text are non-empty. Otherwise the complaints about name and text, name first, are joined by one space. |
| TodoDemo.CreateTodo | demos/todo-backend/src/process/actions.ts:63-75 | Creation stores a `new` task of the process under the repository's next id and always succeeds. The task has the submitted name and text, priority `low` unless one is given, the current clock reading, and no start date. |
| TodoDemo.CreatedTodoIsFound | demos/todo-backend-e2e/src/todo-controller.spec.ts:52-70 | While the counter is ahead of every id, the created todo is what its new id finds. |
| TodoDemo.CleanTask | demos/todo-backend/src/process/actions.ts:22-29 | `cleanTask` fails with "Task is null" iff the task is missing. Otherwise it returns the task. |
| TodoDemo.Move | demos/todo-backend/src/process/actions.ts:94-102 | An action writes the task back with its own target status and re-reads it. An unknown task fails with 'Task not found' and writes nothing. A known one reads back as the task just written. |
| TodoDemo.UpdatingIsProhibited | demos/todo-backend/src/process/steps.ts:17-18 | The update refusal for `closed` is "Updating a task with status closed is prohibited". |
| TodoDemo.ReadIsProhibited | demos/todo-backend/src/process/steps.ts:20-21 | The read refusal for `closed` is "Reading a task with status closed is prohibited". For any status it differs from the update refusal. |
| TodoDemo.DefaultUpdate | demos/todo-backend/src/process/steps.ts:51-62 | The default update writes the task back with only its payload replaced and returns it. An unknown task fails and writes nothing. |
| TodoDemo.InitialMethods | demos/todo-backend/src/process/actions.ts:31-76 | The initial action has a state validator and a creator, and no command validator. |
| TodoDemo.ActionMethods | demos/todo-backend/src/process/actions.ts:86-103 | Each action has `updateTask` and no validator. |
| TodoDemo.DefaultUpdateMethods | demos/todo-backend/src/process/steps.ts:43-63 | The default update operator has no gate and has a payload update. |
| TodoDemo.ProhibitingUpdateMethods | demos/todo-backend/src/process/steps.ts:24-40 | The prohibiting update operator's gate always refuses with the update message, and its update always throws that message without writing. |
| TodoDemo.ProhibitingReadMethods | demos/todo-backend/src/process/steps.ts:66-74 | The prohibiting read operator's gate always refuses with the read message. |
| TodoDemo.ActionsDeclare | demos/todo-backend/src/process/actions.ts:178-187 | The module's five actions declare the four commands' relations in module order. The initial action declares none. |
| TodoDemo.NamesDistinct | demos/todo-backend/src/process/actions.ts:78-160 | The five statuses and the four commands are pairwise distinct. |
| TodoDemo.DeclaredRelations | demos/todo-backend/src/process/actions.ts:78-160 | The declarations give six triples, one per declared pair, in module order. |
| TodoDemo.MentionedStatuses | demos/todo-backend/src/process/actions.ts:78-160 | The declarations mention exactly the five statuses. |
| TodoDemo.LeavingEachStatus | demos/todo-backend/src/controllers/todo/todo.controller.spec.ts:103-163 | The declared commands leaving each status are the documented ones. `new` offers to-work and close. `in-progress` offers hold and complete. `holding` offers to-work, `completed` offers close, and `closed` offers nothing. |
| TodoDemo.BackendCommands | demos/todo-backend/src/process/actions.ts:78-187 | The process built from the declarations offers exactly those commands at the five statuses, in declaration order. Any other status is unknown. |
| TodoDemo.BackendBuilds | demos/todo-backend/src/process/actions.ts:78-187 | The build from the declarations succeeds with a well-formed process. |
| TodoDemo.DeclaredPairsDistinct | demos/todo-backend/src/process/actions.ts:78-160 | No two declared relations join the same ordered pair of statuses. |
| TodoDemo.SandboxLeavingEachStatus | demos/todo-sandbox/src/app/process/bootstrap-process.ts:25-31 | The sandbox's hand-written triples leaving each status are the backend's offers, except that `completed` offers nothing. |
| TodoDemo.SandboxSteps | demos/todo-sandbox/src/app/process/bootstrap-process.ts:24 | The sandbox's `addSteps` gives five steps, one per status, and no relation. |
| TodoDemo.SandboxRelationsJoin | demos/todo-sandbox/src/app/process/bootstrap-process.ts:25-31 | On those steps, the five distinct triples are all accepted, keeping the steps and adding five edges. |
| TodoDemo.SandboxCommands | demos/todo-sandbox/src/app/process/bootstrap-process.ts:20-34 | The sandbox process offers the backend's commands, except that `completed` offers nothing, so a completed todo can never be closed there. |
| TodoDemo.SandboxProcess | demos/todo-sandbox/src/app/process/bootstrap-process.ts:20-34 | The sandbox process builds with five steps and five relations. |
| TodoDemo.SandboxContext | demos/todo-sandbox/src/app/process/bootstrap-process.ts:11-18 | The sandbox container builds in the older lineage with nothing constructed. Its singletons are exactly the container and ActionContext. Its transients are exactly the four commands, each under its class. |
| TodoDemo.SandboxActionContext | demos/todo-sandbox/src/app/process/bootstrap-process.ts:12 | `addActionContext()` on a fresh older container adds exactly the ActionContext singleton and no transient. |
| TodoDemo.SandboxNames | demos/todo-sandbox/src/app/process/bootstrap-process.ts:13-16 | The four commands are distinct, and none is `create_initial_action`. |
| TodoDemo.SandboxCannotCreate | demos/todo-sandbox/src/app/process/bootstrap-process.ts:11-34 | With no initial action in the sandbox container, the older process can neither validate nor create a task. Both fail with 'Initial command not found' and change nothing. |
| TodoDemo.SandboxMove | demos/todo-sandbox/src/app/process/actions.ts:80-88 | A sandbox action's `updateTask` succeeds exactly when the task is stored. Then it writes the task with the action's status and re-reads exactly that task. Otherwise it fails with 'Task not found' and writes nothing. |
| TodoDemo.SandboxMoveIsMove | demos/todo-sandbox/src/app/process/actions.ts:64-162 | The sandbox's four actions write the same repository as the backend's, and fail in the same cases with the same error. |
| TodoDemo.SandboxClasses | demos/todo-sandbox/src/app/process/actions.ts:23-26 | Every sandbox action class has a constructor description. |
| TodoDemo.SandboxInjections | demos/todo-sandbox/src/app/process/actions.ts:75-78 | Each sandbox action is constructed with exactly one argument, the repository, injected by class. |
| TodoDemo.SandboxActionsUnresolvable | demos/todo-sandbox/src/app/process/bootstrap-process.ts:11-18 | No sandbox action resolves in the sandbox's own container. The repository class they inject is not registered there, so resolution fails with the missing-type error, or as too deep when no depth is left. |
| TodoDemo.StepsModuleShape | demos/todo-sandbox/src/app/process/steps.ts:69-108 | The steps module has one `@Step` per status, in status order. Each updates through `DefaultUpdateOperator` except `closed`, which prohibits updating. Only `closed` has a read operator, the prohibiting one. |
| TodoScenarios.BackendIsTodo | demos/todo-backend/src/process/actions.ts:178-187 | The process the backend builds from its declarations offers the documented commands at the five statuses. |
| TodoScenarios.RegisteredMethods | demos/todo-backend/src/process/steps.ts:76-110 | Each class the demo registers has the demo's methods. |
| TodoScenarios.Resolves | demos/todo-backend/src/process/actions.ts:39-42 | Resolving a token wired to a demo class constructs that class, with the demo's methods. The store is untouched and the wiring stays. |
| TodoScenarios.TodoContainerIsWired | demos/todo-backend/src/process/actions.ts:30-42 | The wiring the scenarios assume can be met. A container with the initial action, the four commands, an update operator per status and the closed read operator, each registered as a transient under the token the bootstrap gives it, satisfies it, together with the demo's method table. |
| TodoScenarios.ReadGate | demos/todo-backend-e2e/src/todo-controller.spec.ts:244-258 | `getTask` of a stored todo succeeds iff it is not closed. A closed one is refused with the read message. Any other is returned as stored, and a read writes nothing. |
| TodoScenarios.UpdateOperatorOf | demos/todo-backend/src/process/steps.ts:76-110 | The update operator of `closed` is the prohibiting one. Every other status's is the default one. |
| TodoScenarios.UpdateGate | demos/todo-backend-e2e/src/todo-controller.spec.ts:220-243 | `updateTask` of a stored todo succeeds iff it is not closed. A closed one is refused with the update message and nothing is written. Any other gets the new payload, keeps its id and status, and reads back as updated. |
| TodoScenarios.CreateScenario | demos/todo-backend-e2e/src/todo-controller.spec.ts:29-70 | `createTask` refuses a submission missing a name or a text, with the validator's message, and writes nothing. A complete one is stored as a `new` todo under the next id. |
| TodoScenarios.ActionFor | demos/todo-backend/src/process/actions.ts:78-160 | Exactly the four commands have an action, registered under that command. |
| TodoScenarios.InvokeScenario | demos/todo-backend-e2e/src/todo-controller.spec.ts:72-219 | `invokeCommand` succeeds on a stored todo iff its status offers the command. An unoffered command is refused as not available and nothing changes. An offered one moves the todo to its action's status, which the repository then holds. |
| TodoScenarios.ReplaceKeepsKnown | demos/todo-backend/src/process/actions.ts:97-100 | Replacing a stored todo by one with a known status keeps every status known. |
| TodoScenarios.FoundIsKnown | demos/todo-backend/src/process/actions.ts:101 | A looked-up todo is a stored one, so its status is known. |
| TodoScenarios.CreateKeepsStatusesKnown | demos/todo-backend/src/process/actions.ts:63-75 | Creating keeps every stored todo's status one of the five. |
| TodoScenarios.AppendKeepsKnown | demos/todo-backend/src/process/actions.ts:64-74 | Appending a `new` todo keeps the statuses known. |
| TodoScenarios.InvokeKeepsStatusesKnown | demos/todo-backend/src/process/actions.ts:94-175 | Invoking a command keeps every stored todo's status one of the five. |
| TodoScenarios.UpdateKeepsStatusesKnown | demos/todo-backend/src/process/steps.ts:51-62 | Updating keeps every stored todo's status one of the five. |

## Left out

- Framework wiring for NestJS and Next.js is not modelled: `packages/nest`, the demo back end's `nestjs`/`nextjs` folders, the controllers, the Swagger DTOs, `main.ts` and `app.*`. It only adapts the engine to framework state (`ModuleRef`) that is invisible here.
- `reflect-metadata` and the decorator plumbing (`Reflect.defineMetadata`/`getMetadata`, `isType`'s test on function source) are not modelled. Decorator metadata is passed as explicit records (`Metadata.ActionMeta`, `Metadata.ModuleMeta`, `StepOperators.StepMeta` inside `StepOperators.StepClass`), and a class is a `ClassId`.
- `globalThis` is not modelled. The older lineage's global store is an explicit value threaded through the calls, and `getGlobalStore` takes and returns the slot.
- `async`/`await` is not modelled. Every promise is treated as resolved in call order, since the engine never runs two calls at once.
- Generator laziness is not modelled. A traversal is the finite sequence it yields. Its errors are the `Failure` of that sequence, which the source raises on the first `next()`.
- The clock is a parameter (`now`) wherever a demo reads `new Date()`.
- `deepClone` and object identity are not modelled. Under value semantics a copy equals its original, so the "reads return copies" promise holds trivially. The aliasing cases (the sandbox repository's `getTasks` returning its own array, its constructor keeping the caller's array) have no counterpart. Constructed instances are told apart by a fresh id from a counter, not by `===`.
- Business handlers outside the to-do demos (`IAction`, `IInitialTaskAction`, `IUpdateOperator`, `IReadOperator` implementations) are an uninterpreted behaviour table, because the engine only calls them.
- Dependency resolution carries a `fuel` bound on nesting depth. A cyclic injection, which overflows the stack in the source, ends as the error `Maximum call stack size exceeded` when the fuel runs out. Acyclic resolutions deeper than the fuel are not modelled.
- Only `""` and strings of decimal digits are read by the model's `Number()`. Negative, fractional, hexadecimal or padded ids are read as NaN, which matters only to the repository's id counter.
- TodoScenarios.Wired: the demo classes take the task repository through `@Inject(TASK_REPOSITORY_TOKEN)` (demos/todo-backend/src/process/actions.ts:39-42, steps.ts:46-49). The model constructs them without that argument, and their methods use the repository that the world carries instead. No outcome changes, because the container and the handlers then reach one and the same repository.
- Decimal.NatToString: counters are unbounded naturals, whereas `String(n)` of a JavaScript number switches to exponent notation from 1e21. The model gives plain digits there.
- Decimal.NatToStringInjective: holds for all naturals in the model. In the source, ids stay distinct only while the counter is below 2^53, where doubles are exact.
- Decimal.JsNumber: reads a digit string as its exact value. JavaScript's `Number()` rounds values above 2^53 to the nearest double.
- TaskRepository.AddTask: the counter always moves on by one. In the source, `idCounter++` stops changing at 2^53, and the same id is then issued again. The model does not represent this, because a repository reaching that count is outside any use the demos make of it.
- TaskRepository.Seeded: continues after the exact value of the last seeded id. The source continues after that id rounded to a double, which differs only for ids above 2^53.
- Absent optional fields become `None` or the empty string, as JavaScript's `??` and `||` read them.
- Steps are compared by object reference, as the graph's `===` does, so the process never detects two steps with the same status. Lookups take the first such step. This follows the code; the process types document an equality on status that the graph never uses.
- `packges/process-manager/src/process/exceptions.ts` is not modelled, because it throws while the module loads. The older process's messages come from `process/process/exceptions.ts`.
- `packges/process-manager/src/process/application/decorator.ts` is not modelled. It only overwrites a prototype property.
- The two `ActionContext` classes are not modelled beyond being registered. Each is a one-line delegation to `Context.getService`.
- `demos/todo-sandbox/src/app/app.ts` and `bootstrap-app.ts` are not modelled. They are a thin façade and wiring, with no rule of their own.
- The sandbox's `InitialTodoAction` and the operator classes of its `steps.ts` are modelled by the backend's handlers. Their bodies do the same thing; the sandbox writes validity as the strings `'true'`/`'false'`, which the model reads as the backend's boolean validation state.
- The sandbox's `actions.ts` imports `TodoProcessName` from `./types`, which exports only `TODO_PROCESS_NAME`. The model uses that constant's value, the process name the sandbox's `bootstrap-process.ts` builds.
- Type-only files, spec fakes and spec utilities have no model of their own. The specs are cited as evidence for the lemmas that state their expectations.
- The core `bootstrapContext` imports `asModuleClass` and `addStepOperatorFromMetadata`, which the step and module files do not export. The model reads `@Module` metadata as optional and uses `addStepOperatorsFromType` for the steps' part.
- The core `bootstrapContext` calls `build()` without a factory. It is modelled with `defaultContextFactory`, the factory every other caller passes.
- The older lineage calls `setInstance`, which its `IContextWriteable` declares (packges/process-manager/src/context/types.ts:7-8) but its `Context` does not define. Every call site is modelled as `setTransient`: packges/process-manager/src/context/context-builder.ts:17-19, packges/process-manager/src/process/actions/decorator-operators.ts:15, packges/process-manager/src/process/process-builder/action-decorator-operators.ts:9, packges/process-manager/src/process/process-builder/process-builder.ts:15, 24 and 34, and packges/process-manager/src/process/step/decorator-operators.ts:23 and 26. The older spec expects `setInstance` to give a new instance on every resolution (packges/process-manager/src/context/context.spec.ts:55-66), which is what a transient does.
- The older `@InitialAction` imports a store without `getActionMetadata`. It is modelled against the richer store, which has that method.
- The older lineage has no `addActionToContext` in its own files. The modules operator's import of it is modelled by the core rule: commands go under their own token and initial actions under `create_initial_action`.
- The oldest process (`packges/process-manager/src/process/process.ts`) has no read or update gates and no `updateTask`. The model's gate and update functions are therefore defined for the two newer editions only.

## Findings

| source | as written | input that shows it | evidently intended | confidence | as-written member | corrected member |
|---|---|---|---|---|---|---|
| packges/process-manager/src/process/common/global-store.ts:90 | `setStepMetadata` creates the process's step map when the *action* table lacks the process key | With no action registered, setting step `new` and then step `closed` leaves only `closed`, because the map is recreated on each call. With an action registered and no step map yet, the step is dropped: `getStepMetadata` then finds nothing | Create the step map when the *step* table lacks the process key, so that every step set is found and earlier steps are kept | not executed | GlobalStore.SetStepMetadataAsWritten (shown by GlobalStore.StepsResetWithoutActions and GlobalStore.StepDroppedWithActions) | GlobalStore.SetStepMetadata |
