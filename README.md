# graphine in Dafny

This project models graphine, a small directed-graph library. A `Graph` is a
registry of `Node`s keyed by their string id. Nodes are created on demand when
an edge names them. Each node keeps its outgoing edges in insertion order,
without repeats. `resolve(node)` returns the ids of everything reachable from
`node`, dependencies first and `node` last. It does this in one depth-first
pass of the recursive `walker`, which threads two accumulators, `resolved` and
`unresolved`.

Modules:

- `Wrappers`: `Option`, `Result` and `Outcome`, for the library's absent
  results and thrown errors.
- `Digraphs`: the abstract value of a graph, a map from each registered id to
  the ids its node links to. It also defines the edits `addNode` and `addEdge`
  make to that map (`Register`, `Linked`, `Connect`) and paths, reachability
  and cycles.
- `DependencyOrder`: `walker` as the mutually recursive functions `Walk` and
  `WalkEdges`, together with what they guarantee. The result has no repeats.
  It holds exactly the ids reachable from the start, with the start last. An
  edge whose target comes after its source in the result always closes a
  cycle, so on an acyclic graph the result is a topological order. The
  library's header example resolves to `C, D, B, A`.
- `Graphine`: the library's classes as Dafny classes.
  - `Node` has an `edges` field that `AddEdge` updates in place.
  - `Graph` has a `nodes` map that `AddNode` and `AddEdge` extend.
  - `Walker` is an imperative recursive method with a loop over the edges. It
    is proved to compute `Walk`.
  - `Resolve` wraps `Walker` and states the order guarantees.

Edges are held as the ids of their targets rather than as node references.
Within one graph every node is registered under its own id, so for edges
built through `Graph.addEdge` the reference comparison of `lib/graphine.js:64`
is an id comparison.

On cycles, the model follows the code. `walker` raises no error on a cycle. An
edge to a node that is still being walked is skipped (`lib/graphine.js:159`),
and the resulting order honours every edge except those that close a cycle
(`Ordered`, `TwoCycleSkipsBackEdge`). At `lib/graphine.js:165`,
`unresolved.slice(...)` returns a copy and does not shorten `unresolved`, so
`unresolved` only grows. This has no effect on the result. The walk tests `resolved` first,
so an id on `unresolved` that is not yet resolved is always on the active
recursion path. `DependencyOrder.Inv` states this, and every step preserves
it. So the skip at line 159 fires exactly on back edges of the current path.

## Model

| member | source | states |
|---|---|---|
| Digraphs.Linked | lib/graphine.js:62-66 | the new edge list holds the old edges (as a prefix) plus the target, grows by at most one, is unchanged when the target is already linked, and keeps edges repeat-free |
| Digraphs.Register | lib/graphine.js:99-102 | registering adds exactly the key; an existing entry is untouched; a new key gets no edges; well-formedness is kept for a non-empty key |
| Digraphs.Connect | lib/graphine.js:122-129 | adding an edge registers both ends, links the end from the start, and leaves every other node's edges as they were |
| Digraphs.ConnectKeepsWellFormed | lib/graphine.js:122-129 | adding an edge between non-empty ids leaves no dangling edge and no repeated edge |
| Digraphs.ConnectIdempotent | lib/graphine.js:64 | adding the same edge twice is the same as adding it once |
| Digraphs.ClosedSetHoldsReachable | lib/graphine.js:157-162 | a set of registered ids closed under edges holds everything reachable from its members |
| Digraphs.BackEdgeCloses | lib/graphine.js:159 | an edge u -> v with v reaching back to u makes the graph cyclic |
| DependencyOrder.Walk | lib/graphine.js:153-168 | one `walker` call only appends to `resolved` and to `unresolved`, which starts with the node's own id pushed on it, and never leaves the registered ids |
| DependencyOrder.WalkEdges | lib/graphine.js:157-162 | the `forEach` over the edges only appends to both accumulators |
| DependencyOrder.EnterKeepsInv | lib/graphine.js:154 | pushing the node on `unresolved` extends the active path along an edge and keeps the walk invariant |
| DependencyOrder.LeaveKeepsInv | lib/graphine.js:164-165 | pushing the node on `resolved` once its edges are handled keeps the invariant; leaving `unresolved` unshortened is harmless |
| DependencyOrder.WalkKeepsInv | lib/graphine.js:153-168 | every `walker` call preserves the invariant and ends with its own id resolved last |
| DependencyOrder.WalkEdgesKeepsInv | lib/graphine.js:157-162 | after the loop every edge target is resolved or on the active path, and the invariant holds |
| DependencyOrder.FinalInv | lib/graphine.js:168 | the outermost call ends with an empty active path and the start resolved last |
| DependencyOrder.EmptyPathClosed | lib/graphine.js:168 | with the active path empty, `unresolved` holds exactly the resolved ids and no edge leaves them |
| DependencyOrder.ResolveOrderCorrect | lib/graphine.js:150-168 | the result has no repeats, ends with the start, holds exactly the ids reachable from the start, and places a dependency after its dependent only across a cycle-closing edge |
| DependencyOrder.AcyclicResolveIsTopological | lib/graphine.js:150-168 | on an acyclic graph every dependency comes before its dependent |
| DependencyOrder.IsolatedVertex | lib/graphine.js:153-168 | a node without edges resolves to itself alone |
| DependencyOrder.ExampleGraph | lib/graphine.js:2-8 | the header's graph has no dangling edge |
| DependencyOrder.ExampleGraphBuilt | lib/graphine.js:2-8 | the header's `addNode`/`addEdge` calls build exactly A -> B, C; B -> C, D |
| DependencyOrder.ExampleOrder | lib/graphine.js:10-11 | resolving the header's graph from A gives C, D, B, A |
| DependencyOrder.TwoCycleSkipsBackEdge | lib/graphine.js:159 | with X -> Y and Y -> X, resolving from X skips the back edge and gives Y, X without an error |
| Graphine.Node.constructor | lib/graphine.js:50-55 | a node with the given non-empty id and no edges |
| Graphine.Node.Create | lib/graphine.js:50-55 | an empty key fails with the invalid-key error; otherwise a fresh node with that id and no edges |
| Graphine.Node.AddEdge | lib/graphine.js:62-66 | no node fails with the invalid-node error and changes nothing; otherwise the target is appended unless already linked |
| Graphine.Node.GetConnections | lib/graphine.js:73-75 | the edges in insertion order, without repeats |
| Graphine.Node.GetId | lib/graphine.js:82-84 | the node's id, which is never empty |
| Graphine.Graph.constructor | lib/graphine.js:90-92 | an empty registry |
| Graphine.Graph.AddNode | lib/graphine.js:99-102 | an empty key fails; an existing key changes nothing; a new key gets a node with no edges; existing nodes keep their identity |
| Graphine.Graph.GetNode | lib/graphine.js:110-113 | absent exactly for an unregistered key, otherwise the node registered under that key |
| Graphine.Graph.AddEdge | lib/graphine.js:122-129 | an empty start fails before any change; an empty end fails after the start is registered; otherwise both ends are registered and the end is linked from the start |
| Graphine.Graph.Link | lib/graphine.js:128 | links the end node from the start node and changes no other node's edges and no key |
| Graphine.Graph.GetConnection | lib/graphine.js:136-141 | absent exactly for an unregistered key; otherwise that node's edges, repeat-free and all registered |
| Graphine.Walker | lib/graphine.js:153-168 | the recursive `walker` with its loop over the edges computes exactly `Walk` |
| Graphine.Resolve | lib/graphine.js:150-168 | no node fails with the invalid-start error; otherwise the result is repeat-free, ends with the start, holds exactly the reachable ids, and is ordered except across cycle-closing edges |
| Graphine.BuildHeaderGraph | lib/graphine.js:2-8 | the header's calls on a new graph give the header's graph |
| Graphine.HeaderExample | lib/graphine.js:2-11 | the header example returns C, D, B, A |

## Left out

- `params` and `isOject` (`lib/graphine.js:30-32`, `:52`): node parameters are never read by the library, so nodes carry only their id and edges.
- `toCorrectString` (`lib/graphine.js:20-22`) is used only by `isOject`.
- `hasProperty` (`lib/graphine.js:41-43`) becomes map membership. JavaScript's special handling of a key such as `__proto__` on a plain object is not modelled.
- Type checks on arguments (`typeof key !== 'string'`, `instanceof Node`): keys are typed `string`, a missing node is `null`, and a value of the wrong type cannot be written in the model.
- Graphine.Resolve: requires the node to be one registered in the graph it is given, because the walk maps edge ids back to nodes through the graph.
- Nodes that belong to no graph, or to another graph, are not modelled. `Node` is not exported, but a caller can build one through `node.constructor`. A caller can also link a node from another graph with the public `Node.addEdge` on a node that `getNode`, `getConnection` or `getConnections` handed out. Only in that case can an edge list hold two nodes with the same id, which the id-based edges and `Graph.Valid` cannot express.
- Graphine.Resolve: raises no cycle error, because the code raises none; a back edge is skipped silently.
- Graphine.Node.GetConnections: returns the edge list as a value. The library returns its internal array, which a caller could mutate; that aliasing is not modelled.
- `Graph.addEdge` calls `addNode` through `this.constructor.prototype` (`lib/graphine.js:123-126`). That only matters when a subclass overrides `addNode`; the model calls `AddNode` directly.
- `DFS` and `BFS` (`lib/graphine.js:171-177`) are empty stubs.
- `module.exports` (`lib/graphine.js:179-182`): there is no module system to model.
- The depth of the JavaScript call stack is not modelled; a very long dependency chain could overflow it in the library.
