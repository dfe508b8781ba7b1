/**
 * The dependency-order walk of `resolve`, as functions on the abstract graph,
 * and what it guarantees: every vertex reachable from the start exactly once,
 * the start last, and a dependency after its dependent only across an edge
 * that closes a cycle (so a topological order when there is no cycle).
 */
module DependencyOrder {
  import opened Digraphs

  /** Every id in `s` is registered. */
  ghost predicate Within(g: Digraph, s: seq<string>)
  {
    forall x :: x in s ==> x in g
  }

  /** Registered ids the walk has not entered yet; its size bounds the remaining recursion. */
  ghost function Pending(g: Digraph, visited: seq<string>): set<string>
  {
    set k | k in g && k !in visited
  }

  lemma PendingShrinks(g: Digraph, before: seq<string>, after: seq<string>)
    requires forall x :: x in before ==> x in after
    ensures |Pending(g, after)| <= |Pending(g, before)|
    ensures (exists x :: x in g && x in after && x !in before) ==> |Pending(g, after)| < |Pending(g, before)|
  {
    var a, b := Pending(g, after), Pending(g, before);
    assert a <= b;
    assert b == a + (b - a);
    if exists x :: x in g && x in after && x !in before {
      var x :| x in g && x in after && x !in before;
      assert x in b - a;
    }
  }

  lemma PrefixMembers(a: seq<string>, b: seq<string>)
    requires a <= b
    ensures forall x :: x in a ==> x in b
  {
    assert a == b[..|a|];
  }

  /**
   * One call of `walker` on the vertex `id`: `id` is pushed on `unresolved`,
   * its edges are walked in order, then `id` is pushed on `resolved`.
   * `unresolved` is never shortened again.
   */
  function Walk(g: Digraph, id: string, resolved: seq<string>, unresolved: seq<string>): (res: (seq<string>, seq<string>))
    requires Closed(g) && id in g && id !in unresolved && Within(g, unresolved)
    ensures resolved <= res.0 && unresolved + [id] <= res.1
    ensures Within(g, res.1)
    decreases |Pending(g, unresolved)|, 0, 0
  {
    PendingShrinks(g, unresolved, unresolved + [id]);
    var (r, u) := WalkEdges(g, g[id], resolved, unresolved + [id]);
    (r + [id], u)
  }

  /** The `forEach` over the edges `es`: an edge whose target is resolved or on the active path is skipped. */
  function WalkEdges(g: Digraph, es: seq<string>, resolved: seq<string>, unresolved: seq<string>): (res: (seq<string>, seq<string>))
    requires Closed(g) && (forall e :: e in es ==> e in g) && Within(g, unresolved)
    ensures resolved <= res.0 && unresolved <= res.1
    ensures Within(g, res.1)
    decreases |Pending(g, unresolved)|, 1, |es|
  {
    if es == [] then (resolved, unresolved)
    else
      var edge := es[0];
      var (r, u) :=
        if edge !in resolved then
          if edge in unresolved then (resolved, unresolved)
          else Walk(g, edge, resolved, unresolved)
        else (resolved, unresolved);
      PrefixMembers(unresolved, u);
      PendingShrinks(g, unresolved, u);
      WalkEdges(g, es[1..], r, u)
  }

  /** The result of `resolve` started at `start`. */
  function ResolveOrder(g: Digraph, start: string): seq<string>
    requires Closed(g) && start in g
  {
    Walk(g, start, [], []).0
  }

  /** A dependent precedes one of its dependencies only when the edge between them closes a cycle. */
  ghost predicate Ordered(g: Digraph, r: seq<string>)
  {
    forall i, j :: 0 <= i < j < |r| && r[i] in g && r[j] in g[r[i]] ==> Reaches(g, r[j], r[i])
  }

  /**
   * What holds between calls of `walker`, with `path` the active recursion
   * path (ghost: the library does not keep it). The ids on `unresolved` are
   * exactly the resolved ones and those on the active path, so the test
   * "on `unresolved` but not resolved" picks out the active path.
   */
  ghost predicate Inv(g: Digraph, start: string, resolved: seq<string>, unresolved: seq<string>, path: seq<string>)
  {
    && NoDup(resolved)
    && (forall x :: x in unresolved <==> x in resolved || x in path)
    && (forall x :: x in resolved ==> x !in path)
    && Chain(g, path) && (path != [] ==> path[0] == start)
    && (forall x :: x in resolved ==> x in g && Reaches(g, start, x))
    && (forall x, v :: x in resolved && x in g && v in g[x] ==> v in resolved || (v in path && Reaches(g, v, x)))
    && Ordered(g, resolved)
  }

  /** The next vertex entered extends the active path along an edge (or is the start). */
  ghost predicate Extends(g: Digraph, start: string, path: seq<string>, id: string)
  {
    if path == [] then id == start else path[|path| - 1] in g && id in g[path[|path| - 1]]
  }

  /** Entering `id`: it joins `unresolved` and the active path. */
  lemma EnterKeepsInv(g: Digraph, start: string, id: string, resolved: seq<string>, unresolved: seq<string>, path: seq<string>)
    requires id in g && id !in unresolved
    requires Inv(g, start, resolved, unresolved, path) && Extends(g, start, path, id)
    ensures Inv(g, start, resolved, unresolved + [id], path + [id])
  {
    ChainExtend(g, path, id);
  }

  /** Leaving `id` once all its edges are resolved or on the active path: it moves from the path to `resolved`. */
  lemma LeaveKeepsInv(g: Digraph, start: string, id: string, resolved: seq<string>, unresolved: seq<string>, path: seq<string>)
    requires id in g && id !in path
    requires Inv(g, start, resolved, unresolved, path + [id])
    requires forall v :: v in g[id] ==> v in resolved || v in path + [id]
    ensures Inv(g, start, resolved + [id], unresolved, path)
  {
    var path', r' := path + [id], resolved + [id];
    assert id !in resolved;
    assert Chain(g, path) by {
      assert forall i :: 0 <= i < |path| ==> path[i] == path'[i];
    }
    ChainSuffixReaches(g, path', 0);
    forall v | v in g[id] && v !in r'
      ensures v in path && Reaches(g, v, id)
    {
      var k :| 0 <= k < |path'| && path'[k] == v;
      ChainSuffixReaches(g, path', k);
    }
    assert Ordered(g, r') by {
      forall i, j | 0 <= i < j < |r'| && r'[i] in g && r'[j] in g[r'[i]]
        ensures Reaches(g, r'[j], r'[i])
      {
        if j < |resolved| {
          assert r'[i] == resolved[i] && r'[j] == resolved[j];
        } else {
          assert r'[i] in resolved && r'[j] == id;
        }
      }
    }
  }

  lemma {:induction false} WalkKeepsInv(g: Digraph, start: string, id: string, resolved: seq<string>, unresolved: seq<string>, path: seq<string>)
    requires Closed(g) && id in g && id !in unresolved && Within(g, unresolved)
    requires Inv(g, start, resolved, unresolved, path) && Extends(g, start, path, id)
    ensures var (r, u) := Walk(g, id, resolved, unresolved);
      Inv(g, start, r, u, path) && |r| > 0 && r[|r| - 1] == id
    decreases |Pending(g, unresolved)|, 0, 0
  {
    EnterKeepsInv(g, start, id, resolved, unresolved, path);
    PendingShrinks(g, unresolved, unresolved + [id]);
    WalkEdgesKeepsInv(g, start, g[id], resolved, unresolved + [id], path + [id]);
    var (r, u) := WalkEdges(g, g[id], resolved, unresolved + [id]);
    LeaveKeepsInv(g, start, id, r, u, path);
  }

  lemma {:induction false} WalkEdgesKeepsInv(g: Digraph, start: string, es: seq<string>, resolved: seq<string>, unresolved: seq<string>, path: seq<string>)
    requires Closed(g) && Within(g, unresolved) && path != [] && path[|path| - 1] in g
    requires forall e :: e in es ==> e in g[path[|path| - 1]]
    requires Inv(g, start, resolved, unresolved, path)
    ensures forall e :: e in es ==> e in g
    ensures var (r, u) := WalkEdges(g, es, resolved, unresolved);
      Inv(g, start, r, u, path) && forall e :: e in es ==> e in r || e in path
    decreases |Pending(g, unresolved)|, 1, |es|
  {
    if es != [] {
      var edge := es[0];
      assert edge in es && edge in g;
      var (r, u) :=
        if edge !in resolved then
          if edge in unresolved then (resolved, unresolved)
          else Walk(g, edge, resolved, unresolved)
        else (resolved, unresolved);
      if edge !in resolved && edge !in unresolved {
        WalkKeepsInv(g, start, edge, resolved, unresolved, path);
      }
      assert edge in r || edge in path;
      PrefixMembers(unresolved, u);
      assert forall e :: e in es[1..] ==> e in es;
      PendingShrinks(g, unresolved, u);
      WalkEdgesKeepsInv(g, start, es[1..], r, u, path);
      assert WalkEdges(g, es, resolved, unresolved) == WalkEdges(g, es[1..], r, u);
      assert forall e :: e in es ==> e == edge || e in es[1..];
    }
  }

  /**
   * `resolve` lists every vertex reachable from the start exactly once, the
   * start last, and puts a dependent before one of its dependencies only
   * where that edge closes a cycle. When it returns, `unresolved` holds
   * exactly the resolved ids: the `slice` at the end of `walker` removes nothing.
   */
  lemma ResolveOrderCorrect(g: Digraph, start: string)
    requires Closed(g) && start in g
    ensures var r := ResolveOrder(g, start);
      && NoDup(r) && |r| > 0 && r[|r| - 1] == start
      && (forall x :: x in r <==> Reaches(g, start, x))
      && Ordered(g, r)
      && (forall x :: x in Walk(g, start, [], []).1 <==> x in r)
  {
    var (r, u) := Walk(g, start, [], []);
    FinalInv(g, start);
    EmptyPathClosed(g, start, r, u);
    var done := set y | y in r;
    assert forall x, v :: x in done && x in g && v in g[x] ==> v in done;
    forall x | Reaches(g, start, x)
      ensures x in r
    {
      ClosedSetHoldsReachable(g, done, start, x);
    }
  }

  /** The outermost call ends with the start resolved last and the active path empty again. */
  lemma FinalInv(g: Digraph, start: string)
    requires Closed(g) && start in g
    ensures var (r, u) := Walk(g, start, [], []);
      Inv(g, start, r, u, []) && |r| > 0 && r[|r| - 1] == start
  {
    assert Inv(g, start, [], [], []);
    WalkKeepsInv(g, start, start, [], [], []);
  }

  /** With an empty active path, `unresolved` holds just the resolved ids and no edge leaves `resolved`. */
  lemma EmptyPathClosed(g: Digraph, start: string, resolved: seq<string>, unresolved: seq<string>)
    requires Inv(g, start, resolved, unresolved, [])
    ensures forall x :: x in unresolved <==> x in resolved
    ensures forall x, v :: x in resolved && x in g && v in g[x] ==> v in resolved
  {
  }

  /** On a graph without cycles the result is a topological order: every dependency before its dependent. */
  lemma AcyclicResolveIsTopological(g: Digraph, start: string)
    requires Closed(g) && start in g && Acyclic(g)
    ensures var r := ResolveOrder(g, start);
      forall i, j :: 0 <= i < |r| && 0 <= j < |r| && r[i] in g && r[j] in g[r[i]] ==> j < i
  {
    ResolveOrderCorrect(g, start);
    var r := ResolveOrder(g, start);
    forall i, j | 0 <= i < |r| && 0 <= j < |r| && r[i] in g && r[j] in g[r[i]]
      ensures j < i
    {
      if j == i {
        ReachesSelf(g, r[i]);
        BackEdgeCloses(g, r[i], r[j]);
        assert false;
      } else if i < j {
        BackEdgeCloses(g, r[i], r[j]);
        assert false;
      }
    }
  }

  /** A vertex without edges resolves to itself alone. */
  lemma IsolatedVertex(g: Digraph, x: string)
    requires Closed(g) && x in g && g[x] == []
    ensures ResolveOrder(g, x) == [x]
  {
    assert [] + [x] == [x];
    assert WalkEdges(g, g[x], [], [x]) == ([], [x]);
  }

  /** The graph of the example in the library's header: A -> B, A -> C, B -> C, B -> D. */
  function ExampleGraph(): (g: Digraph)
    ensures Closed(g)
  {
    map["A" := ["B", "C"], "B" := ["C", "D"], "C" := [], "D" := []]
  }

  /** The header's calls `addNode('A')`, then `addEdge` A-B, A-C, B-C, B-D, build that graph. */
  lemma ExampleGraphBuilt()
    ensures Connect(Connect(Connect(Connect(Register(map[], "A"), "A", "B"), "A", "C"), "B", "C"), "B", "D") == ExampleGraph()
  {
    assert Register(map[], "A") == map["A" := []];
    ExampleStepAB();
    ExampleStepAC();
    ExampleStepBC();
    ExampleStepBD();
  }

  lemma ExampleStepAB()
    ensures Connect(map["A" := []], "A", "B") == map["A" := ["B"], "B" := []]
  {
    assert Register(Register(map["A" := []], "A"), "B") == map["A" := [], "B" := []];
    assert Linked([], "B") == ["B"];
  }

  lemma ExampleStepAC()
    ensures Connect(map["A" := ["B"], "B" := []], "A", "C") == map["A" := ["B", "C"], "B" := [], "C" := []]
  {
    assert Register(Register(map["A" := ["B"], "B" := []], "A"), "C") == map["A" := ["B"], "B" := [], "C" := []];
    assert Linked(["B"], "C") == ["B", "C"];
  }

  lemma ExampleStepBC()
    ensures Connect(map["A" := ["B", "C"], "B" := [], "C" := []], "B", "C") == map["A" := ["B", "C"], "B" := ["C"], "C" := []]
  {
    var g: Digraph := map["A" := ["B", "C"], "B" := [], "C" := []];
    assert Register(Register(g, "B"), "C") == g;
    assert Linked([], "C") == ["C"];
  }

  lemma ExampleStepBD()
    ensures Connect(map["A" := ["B", "C"], "B" := ["C"], "C" := []], "B", "D") == ExampleGraph()
  {
    var g: Digraph := map["A" := ["B", "C"], "B" := ["C"], "C" := []];
    assert Register(Register(g, "B"), "D") == map["A" := ["B", "C"], "B" := ["C"], "C" := [], "D" := []];
    assert Linked(["C"], "D") == ["C", "D"];
  }

  /** The header's worked example: resolving from A gives C, D, B, A. */
  lemma ExampleOrder()
    ensures ResolveOrder(ExampleGraph(), "A") == ["C", "D", "B", "A"]
  {
    var g := ExampleGraph();
    assert g["A"] == ["B", "C"];
    ExampleWalkB();
    assert WalkEdges(g, [], ["C", "D", "B"], ["A", "B", "C", "D"]) == (["C", "D", "B"], ["A", "B", "C", "D"]);
    assert WalkEdges(g, ["C"], ["C", "D", "B"], ["A", "B", "C", "D"]) == (["C", "D", "B"], ["A", "B", "C", "D"]);
    assert WalkEdges(g, ["B", "C"], [], ["A"]) == (["C", "D", "B"], ["A", "B", "C", "D"]);
    assert [] + ["A"] == ["A"] && ["C", "D", "B"] + ["A"] == ["C", "D", "B", "A"];
    assert Walk(g, "A", [], []) == (["C", "D", "B", "A"], ["A", "B", "C", "D"]);
  }

  /** Inside the example, entering B from A resolves C, D, then B. */
  lemma ExampleWalkB()
    ensures Walk(ExampleGraph(), "B", [], ["A"]) == (["C", "D", "B"], ["A", "B", "C", "D"])
  {
    var g := ExampleGraph();
    assert g["B"] == ["C", "D"] && g["C"] == [] && g["D"] == [];
    assert ["A", "B"] + ["C"] == ["A", "B", "C"] && [] + ["C"] == ["C"];
    assert WalkEdges(g, [], [], ["A", "B", "C"]) == ([], ["A", "B", "C"]);
    assert Walk(g, "C", [], ["A", "B"]) == (["C"], ["A", "B", "C"]);
    assert ["A", "B", "C"] + ["D"] == ["A", "B", "C", "D"] && ["C"] + ["D"] == ["C", "D"];
    assert WalkEdges(g, [], ["C"], ["A", "B", "C", "D"]) == (["C"], ["A", "B", "C", "D"]);
    assert Walk(g, "D", ["C"], ["A", "B", "C"]) == (["C", "D"], ["A", "B", "C", "D"]);
    assert WalkEdges(g, [], ["C", "D"], ["A", "B", "C", "D"]) == (["C", "D"], ["A", "B", "C", "D"]);
    assert WalkEdges(g, ["D"], ["C"], ["A", "B", "C"]) == (["C", "D"], ["A", "B", "C", "D"]);
    assert WalkEdges(g, ["C", "D"], [], ["A", "B"]) == (["C", "D"], ["A", "B", "C", "D"]);
    assert ["A"] + ["B"] == ["A", "B"] && ["C", "D"] + ["B"] == ["C", "D", "B"];
  }

  /** X -> Y -> X: no error is raised; the edge back to X is skipped and Y comes first. */
  lemma TwoCycleSkipsBackEdge()
    ensures var g := map["X" := ["Y"], "Y" := ["X"]];
      Closed(g) && ResolveOrder(g, "X") == ["Y", "X"]
  {
    var g := map["X" := ["Y"], "Y" := ["X"]];
    assert g["X"] == ["Y"] && g["Y"] == ["X"];
    assert WalkEdges(g, [], [], ["X", "Y"]) == ([], ["X", "Y"]);
    assert WalkEdges(g, ["X"], [], ["X", "Y"]) == ([], ["X", "Y"]);
    assert ["X"] + ["Y"] == ["X", "Y"] && [] + ["Y"] == ["Y"] && [] + ["X"] == ["X"];
    assert Walk(g, "Y", [], ["X"]) == (["Y"], ["X", "Y"]);
    assert WalkEdges(g, [], ["Y"], ["X", "Y"]) == (["Y"], ["X", "Y"]);
    assert WalkEdges(g, ["Y"], [], ["X"]) == (["Y"], ["X", "Y"]);
    assert ["Y"] + ["X"] == ["Y", "X"];
    assert Walk(g, "X", [], []) == (["Y", "X"], ["X", "Y"]);
  }
}
