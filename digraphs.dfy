/**
 * The abstract value of a graph: every registered id mapped to the ids its
 * node has edges to, in insertion order. Edge lists, registration and edge
 * insertion are specified here as functions on that value; paths and
 * reachability are defined over it.
 */
module Digraphs {

  type Digraph = map<string, seq<string>>

  /** No id occurs twice in `s`. */
  predicate NoDup(s: seq<string>)
  {
    forall i, j :: 0 <= i < j < |s| ==> s[i] != s[j]
  }

  /** Every edge target is itself registered: no dangling edges. */
  ghost predicate Closed(g: Digraph)
  {
    forall u, v :: u in g && v in g[u] ==> v in g
  }

  /** What a graph built by the library always satisfies. */
  ghost predicate WellFormed(g: Digraph)
  {
    && Closed(g)
    && forall u :: u in g ==> u != "" && NoDup(g[u])
  }

  /** An edge list after `target` has been linked into it. */
  function Linked(edges: seq<string>, target: string): (r: seq<string>)
    ensures target in r
    ensures forall x :: x in r <==> x in edges || x == target
    ensures edges <= r && |r| <= |edges| + 1
    ensures target in edges ==> r == edges
    ensures NoDup(edges) ==> NoDup(r)
  {
    if target in edges then edges else edges + [target]
  }

  /** The graph after `key` has been registered. */
  function Register(g: Digraph, key: string): (r: Digraph)
    ensures r.Keys == g.Keys + {key}
    ensures forall k :: k in g ==> r[k] == g[k]
    ensures key !in g ==> r[key] == []
    ensures key != "" && WellFormed(g) ==> WellFormed(r)
  {
    if key in g then g else g[key := []]
  }

  /** The graph after an edge `s` -> `e` has been added, both ends registered first. */
  function Connect(g: Digraph, s: string, e: string): (r: Digraph)
    ensures r.Keys == g.Keys + {s, e}
    ensures forall k :: k in g && k != s ==> r[k] == g[k]
    ensures e in r[s]
    ensures s in g ==> g[s] <= r[s] && |r[s]| <= |g[s]| + 1
    ensures s !in g ==> r[s] == [e]
    ensures r[s] == Linked(if s in g then g[s] else [], e)
    ensures e !in g && e != s ==> r[e] == []
  {
    var a := Register(Register(g, s), e);
    a[s := Linked(a[s], e)]
  }

  /** Adding an edge between non-empty ids keeps the graph well formed: in particular no edge dangles. */
  lemma ConnectKeepsWellFormed(g: Digraph, s: string, e: string)
    requires s != "" && e != "" && WellFormed(g)
    ensures WellFormed(Connect(g, s, e))
  {
    var a := Register(Register(g, s), e);
    assert WellFormed(a);
  }

  /** Adding the same edge a second time changes nothing. */
  lemma ConnectIdempotent(g: Digraph, s: string, e: string)
    ensures Connect(Connect(g, s, e), s, e) == Connect(g, s, e)
  {
    var once := Connect(g, s, e);
    assert Register(Register(once, s), e) == once;
  }

  // ----- paths and reachability -----

  /** `p` follows edges of `g`: each element is registered and each step is an edge. */
  ghost predicate Chain(g: Digraph, p: seq<string>)
  {
    && (forall i :: 0 <= i < |p| ==> p[i] in g)
    && (forall i :: 0 < i < |p| ==> p[i] in g[p[i - 1]])
  }

  /** There is a path (possibly of length zero) from `a` to `b`. */
  ghost predicate Reaches(g: Digraph, a: string, b: string)
  {
    exists p :: |p| >= 1 && Chain(g, p) && p[0] == a && p[|p| - 1] == b
  }

  /** No path of one or more edges returns to where it started. */
  ghost predicate Acyclic(g: Digraph)
  {
    forall p :: |p| >= 2 && Chain(g, p) ==> p[0] != p[|p| - 1]
  }

  lemma ReachesSelf(g: Digraph, a: string)
    requires a in g
    ensures Reaches(g, a, a)
  {
    var p := [a];
    assert Chain(g, p);
  }

  /** Any suffix of a chain witnesses reachability from its first to its last element. */
  lemma ChainSuffixReaches(g: Digraph, p: seq<string>, k: nat)
    requires Chain(g, p) && k < |p|
    ensures Reaches(g, p[k], p[|p| - 1])
  {
    var q := p[k..];
    assert forall i :: 0 < i < |q| ==> q[i] in g[q[i - 1]] by {
      forall i | 0 < i < |q| ensures q[i] in g[q[i - 1]] {
        assert q[i] == p[k + i] && q[i - 1] == p[k + i - 1];
      }
    }
    assert Chain(g, q);
  }

  /** Extending a chain by one edge keeps it a chain. */
  lemma ChainExtend(g: Digraph, p: seq<string>, v: string)
    requires Chain(g, p) && v in g
    requires p != [] ==> v in g[p[|p| - 1]]
    ensures Chain(g, p + [v])
  {
  }

  /** A set closed under edges that holds `a` holds everything `a` reaches. */
  lemma {:induction false} ClosedSetHoldsReachable(g: Digraph, s: set<string>, a: string, b: string)
    requires forall x, v :: x in s && x in g && v in g[x] ==> v in s
    requires a in s && Reaches(g, a, b)
    ensures b in s
  {
    var p :| |p| >= 1 && Chain(g, p) && p[0] == a && p[|p| - 1] == b;
    var i := 0;
    while i < |p| - 1
      invariant 0 <= i < |p|
      invariant p[i] in s
    {
      assert p[i + 1] in g[p[i]];
      i := i + 1;
    }
  }

  /** An edge from `u` to `v` and a path from `v` back to `u` form a cycle. */
  lemma BackEdgeCloses(g: Digraph, u: string, v: string)
    requires u in g && v in g[u] && Reaches(g, v, u)
    ensures !Acyclic(g)
  {
    var q :| |q| >= 1 && Chain(g, q) && q[0] == v && q[|q| - 1] == u;
    var c := [u] + q;
    assert forall i :: 0 < i < |c| ==> c[i] == q[i - 1];
    assert Chain(g, c);
    assert |c| >= 2 && c[0] == c[|c| - 1];
  }
}
