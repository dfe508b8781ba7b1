/**
 * The library itself: nodes whose edge lists grow in place, a graph that
 * registers nodes by id and creates them on demand, and `resolve`, whose
 * recursive `walker` pushes onto two shared accumulators. Edges are held as
 * the ids of their targets; ids are unique within a graph, so comparing ids
 * is comparing nodes.
 */
module Graphine {
  import opened Wrappers
  import opened Digraphs
  import opened DependencyOrder

  /** The three errors the library throws. */
  datatype Error =
    | InvalidKey    // `new Node` with an empty key
    | InvalidNode   // `Node.addEdge` without a node
    | InvalidStart  // `resolve` without a node

  class Node {
    const id: string
    var edges: seq<string>

    /** Every node has a non-empty id and an edge list without repeats. */
    ghost predicate Valid()
      reads this
    {
      id != "" && NoDup(edges)
    }

    constructor (key: string)
      requires key != ""
      ensures Valid() && id == key && edges == []
    {
      id := key;
      edges := [];
    }

    /** `new Node(key)`: throws on an empty key, otherwise a node with that id and no edges. */
    static method Create(key: string) returns (r: Result<Node, Error>)
      ensures r.Failure? <==> key == ""
      ensures r.Failure? ==> r.error == InvalidKey
      ensures r.Success? ==> fresh(r.value) && r.value.Valid() && r.value.id == key && r.value.edges == []
    {
      if key == "" {
        return Failure(InvalidKey);
      }
      var n := new Node(key);
      return Success(n);
    }

    /** Links `node` after the existing edges, unless it is linked already; throws without a node. */
    method AddEdge(node: Node?) returns (r: Outcome<Error>)
      requires Valid()
      modifies this
      ensures Valid()
      ensures r.Fail? <==> node == null
      ensures r.Fail? ==> r.error == InvalidNode && edges == old(edges)
      ensures node != null ==> edges == Linked(old(edges), node.id)
    {
      if node == null {
        return Fail(InvalidNode);
      }
      if node.id in edges {
        return Pass;
      }
      edges := edges + [node.id];
      return Pass;
    }

    function GetConnections(): (r: seq<string>)
      reads this
      requires Valid()
      ensures NoDup(r)
    {
      edges
    }

    function GetId(): (r: string)
      requires Valid()
      reads this
      ensures r != ""
    {
      id
    }
  }

  class Graph {
    var nodes: map<string, Node>
    /** The graph object and every node it has registered. */
    ghost var Repr: set<object>

    /** The abstract value: each registered id with the ids its node links to. */
    ghost function Adjacency(): Digraph
      reads this, nodes.Values
    {
      map k | k in nodes :: nodes[k].edges
    }

    /** `n` is the node registered under its own id. */
    ghost predicate Holds(n: Node)
      reads this
    {
      n.id in nodes && nodes[n.id] == n
    }

    /** Each key maps to the node with that id; no edge dangles; no edge list repeats an id. */
    ghost predicate Valid()
      reads this, Repr
    {
      && this in Repr
      && (forall k :: k in nodes ==> nodes[k] in Repr && nodes[k].id == k)
      && WellFormed(Adjacency())
    }

    /** A registered node is valid, its edges are its abstract edge list, and their targets are registered. */
    lemma HeldNodeValid(n: Node)
      requires Valid() && Holds(n)
      ensures n.Valid() && n.edges == Adjacency()[n.id]
      ensures forall e :: e in n.edges ==> e in nodes && nodes[e].id == e
    {
      assert n.id in Adjacency();
      assert forall e :: e in n.edges ==> e in Adjacency();
    }

    constructor ()
      ensures Valid() && fresh(Repr) && nodes == map[] && Adjacency() == map[]
    {
      nodes := map[];
      Repr := {this};
    }

    /** Registers a new node for `key` unless one exists; an empty key makes the node constructor throw. */
    method AddNode(key: string) returns (r: Outcome<Error>)
      requires Valid()
      modifies this
      ensures Valid() && fresh(Repr - old(Repr))
      ensures r.Fail? <==> key == ""
      ensures r.Fail? ==> r.error == InvalidKey
      ensures Adjacency() == if r.Fail? then old(Adjacency()) else Register(old(Adjacency()), key)
      ensures forall k :: k in old(nodes) ==> k in nodes && nodes[k] == old(nodes)[k]
    {
      if key in nodes {
        assert key in Adjacency();
        return Pass;
      }
      ghost var before := Adjacency();
      var created := Node.Create(key);
      if created.Failure? {
        return Fail(created.error);
      }
      nodes := nodes[key := created.value];
      Repr := Repr + {created.value};
      assert Adjacency() == before[key := []] by {
        assert forall k :: k in old(nodes) ==> nodes[k].edges == before[k];
      }
      r := Pass;
    }

    /** The node registered under `key`, or nothing. */
    function GetNode(key: string): (n: Node?)
      reads this, Repr
      requires Valid()
      ensures n == null <==> key !in Adjacency()
      ensures n != null ==> Holds(n) && n.id == key && n.edges == Adjacency()[key]
    {
      if key in nodes then nodes[key] else null
    }

    /**
     * Registers both ends, then links `end` from `start`. An empty `start`
     * throws before anything changes; an empty `end` throws after `start`
     * has been registered, which is not undone.
     */
    method AddEdge(start: string, end: string) returns (r: Outcome<Error>)
      requires Valid()
      modifies Repr
      ensures Valid() && fresh(Repr - old(Repr))
      ensures r.Fail? <==> start == "" || end == ""
      ensures r.Fail? ==> r.error == InvalidKey
      ensures Adjacency() ==
        if start == "" then old(Adjacency())
        else if end == "" then Register(old(Adjacency()), start)
        else Connect(old(Adjacency()), start, end)
      ensures forall k :: k in old(nodes) ==> k in nodes && nodes[k] == old(nodes)[k]
    {
      r := AddNode(start);
      if r.Fail? {
        return;
      }
      r := AddNode(end);
      if r.Fail? {
        return;
      }
      assert Register(Register(old(Adjacency()), start), end) == Adjacency();
      Link(start, end);
    }

    /**
     * Links the registered node `end` from the registered node `start`; no other node and no key changes.
     * `Node.AddEdge` cannot fail here, since the target is a registered node, so its outcome is dropped.
     */
    method Link(start: string, end: string)
      requires Valid() && start in nodes && end in nodes
      modifies nodes[start]
      ensures Valid()
      ensures Adjacency() == old(Adjacency())[start := Linked(old(Adjacency())[start], end)]
    {
      ghost var before := Adjacency();
      var from, to := nodes[start], nodes[end];
      HeldNodeValid(from);
      assert forall k :: k in nodes && k != start ==> nodes[k] != from;
      var linked := from.AddEdge(to);
      assert Adjacency() == before[start := Linked(before[start], end)] by {
        assert forall k :: k in nodes && k != start ==> nodes[k].edges == before[k];
      }
    }

    /** The ids `key` links to, in insertion order, or nothing when `key` is not registered. */
    function GetConnection(key: string): (r: Option<seq<string>>)
      reads this, Repr
      requires Valid()
      ensures r.None? <==> key !in Adjacency()
      ensures r.Some? ==> r.value == Adjacency()[key] && NoDup(r.value)
      ensures r.Some? ==> forall e :: e in r.value ==> e in Adjacency()
    {
      if key in nodes then
        HeldNodeValid(nodes[key]);
        Some(nodes[key].GetConnections())
      else None
    }
  }

  /**
   * `walker`: pushes the node's id on `unresolved`, walks its edges in order
   * (an edge whose target is resolved, or still on `unresolved` and so on the
   * active path, is skipped), then pushes the id on `resolved`. `unresolved`
   * is never shortened. Nothing in the graph changes.
   */
  method Walker(g: Graph, node: Node, resolved: seq<string>, unresolved: seq<string>)
    returns (res: seq<string>, unres: seq<string>)
    requires g.Valid() && g.Holds(node)
    requires node.id !in unresolved && Within(g.Adjacency(), unresolved)
    ensures (res, unres) == Walk(g.Adjacency(), node.id, resolved, unresolved)
    decreases |Pending(g.Adjacency(), unresolved)|
  {
    ghost var adj := g.Adjacency();
    g.HeldNodeValid(node);
    unres := unresolved + [node.id];
    res := resolved;
    var allEdges := node.GetConnections();
    assert forall e :: e in allEdges[..] ==> e in adj;
    var i := 0;
    while i < |allEdges|
      invariant i <= |allEdges|
      invariant Within(adj, unres) && unresolved + [node.id] <= unres
      invariant WalkEdges(adj, allEdges[i..], res, unres) == WalkEdges(adj, allEdges, resolved, unresolved + [node.id])
    {
      assert allEdges[i] in allEdges;
      var edge := g.nodes[allEdges[i]];
      if edge.id !in res {
        if edge.id !in unres {
          PrefixMembers(unresolved + [node.id], unres);
          PendingShrinks(adj, unresolved, unres);
          res, unres := Walker(g, edge, res, unres);
        }
        // otherwise the target is on the active path: the edge is skipped, no error is raised
      }
      i := i + 1;
    }
    res := res + [node.id];
  }

  /**
   * `resolve(node)`: throws without a node; otherwise the ids of everything
   * reachable from it, each once, dependencies first except across an edge
   * that closes a cycle, the node itself last.
   */
  method Resolve(g: Graph, node: Node?) returns (r: Result<seq<string>, Error>)
    requires g.Valid()
    requires node != null ==> g.Holds(node)
    ensures r.Failure? <==> node == null
    ensures r.Failure? ==> r.error == InvalidStart
    ensures r.Success? ==> r.value == ResolveOrder(g.Adjacency(), node.id)
    ensures r.Success? ==>
      && NoDup(r.value) && |r.value| > 0 && r.value[|r.value| - 1] == node.id
      && (forall x :: x in r.value <==> Reaches(g.Adjacency(), node.id, x))
      && Ordered(g.Adjacency(), r.value)
  {
    if node == null {
      return Failure(InvalidStart);
    }
    var resolved, unresolved := Walker(g, node, [], []);
    ResolveOrderCorrect(g.Adjacency(), node.id);
    return Success(resolved);
  }

  /** The header's calls: `addNode('A')`, then `addEdge` A-B, A-C, B-C, B-D. */
  method BuildHeaderGraph() returns (g: Graph)
    ensures fresh(g) && g.Valid() && g.Adjacency() == ExampleGraph()
  {
    g := new Graph();
    var ok := g.AddNode("A");
    ok := g.AddEdge("A", "B");
    ok := g.AddEdge("A", "C");
    ok := g.AddEdge("B", "C");
    ok := g.AddEdge("B", "D");
    ExampleGraphBuilt();
  }

  /** The example in the library's header: resolving from A gives C, D, B, A. */
  method HeaderExample() returns (order: Result<seq<string>, Error>)
    ensures order == Success(["C", "D", "B", "A"])
  {
    var g := BuildHeaderGraph();
    var a := g.GetNode("A");
    order := Resolve(g, a);
    ExampleOrder();
  }
}
