/** Directed graphs over the nodes 0..n-1, as networkx builds them from a
    square numpy matrix: a nonzero weight in row u, column v is the edge
    u -> v. Walks, cycles, acyclicity and source nodes are defined here. */
module Graphs {

  /** A directed graph with nodes 0..n-1 and weighted adjacency matrix w. */
  datatype Digraph = Digraph(n: nat, w: seq<seq<int>>)

  /** The matrix is n-by-n. */
  ghost predicate WellFormed(g: Digraph)
  {
    |g.w| == g.n && forall i :: 0 <= i < g.n ==> |g.w[i]| == g.n
  }

  /** u -> v is an edge: both are nodes and the weight is nonzero. */
  predicate Edge(g: Digraph, u: nat, v: nat)
  {
    u < g.n && v < g.n && u < |g.w| && v < |g.w[u]| && g.w[u][v] != 0
  }

  /** Every edge goes from a higher node to a lower one. */
  ghost predicate EdgesDescend(g: Digraph)
  {
    forall u: nat, v: nat :: Edge(g, u, v) ==> v < u
  }

  /** p is a non-empty sequence of nodes, each joined to the next by an edge. */
  ghost predicate IsWalk(g: Digraph, p: seq<nat>)
  {
    |p| >= 1 && forall k :: 0 <= k < |p| - 1 ==> Edge(g, p[k], p[k + 1])
  }

  /** A closed walk of at least one edge; a self-loop is a cycle too. */
  ghost predicate IsCycle(g: Digraph, p: seq<nat>)
  {
    |p| >= 2 && IsWalk(g, p) && p[0] == p[|p| - 1]
  }

  ghost predicate Acyclic(g: Digraph)
  {
    forall p :: !IsCycle(g, p)
  }

  /** Along a walk in a graph whose edges descend, every step lowers the
      node by at least one. */
  lemma {:induction false} WalkDescends(g: Digraph, p: seq<nat>)
    requires EdgesDescend(g) && IsWalk(g, p)
    ensures p[|p| - 1] + (|p| - 1) <= p[0]
  {
    if |p| > 1 {
      var q := p[1..];
      forall k | 0 <= k < |q| - 1
        ensures Edge(g, q[k], q[k + 1])
      {
        assert q[k] == p[k + 1] && q[k + 1] == p[k + 2];
      }
      WalkDescends(g, q);
      assert Edge(g, p[0], p[1]);
    }
  }

  /** A graph whose edges all descend has no cycle. */
  lemma DescendingAcyclic(g: Digraph)
    requires EdgesDescend(g)
    ensures Acyclic(g)
  {
    forall p
      ensures !IsCycle(g, p)
    {
      if IsCycle(g, p) {
        WalkDescends(g, p);
      }
    }
  }

  /** v is a node of in-degree 0. */
  predicate IsSource(g: Digraph, v: nat)
  {
    v < g.n && forall u: nat :: u < g.n ==> !Edge(g, u, v)
  }

  predicate StrictlyIncreasing(s: seq<nat>)
  {
    forall a, b :: 0 <= a < b < |s| ==> s[a] < s[b]
  }

  lemma AppendIncreasing(s: seq<nat>, x: nat)
    requires StrictlyIncreasing(s) && forall y :: y in s ==> y < x
    ensures StrictlyIncreasing(s + [x])
  {
    assert forall a :: 0 <= a < |s| ==> s[a] in s;
  }

  /** The sources among the nodes 0..k-1, in node order. */
  function SourcesBelow(g: Digraph, k: nat): (r: seq<nat>)
    ensures forall v: nat :: v in r <==> v < k && IsSource(g, v)
    ensures StrictlyIncreasing(r)
  {
    if k == 0 then []
    else
      var r := SourcesBelow(g, k - 1);
      if IsSource(g, k - 1) then AppendIncreasing(r, k - 1); r + [k - 1] else r
  }

  /** All sources of g, each once, in node order. */
  function Sources(g: Digraph): (r: seq<nat>)
    ensures forall v: nat :: v in r <==> IsSource(g, v)
    ensures StrictlyIncreasing(r)
  {
    SourcesBelow(g, g.n)
  }

  /** A non-empty graph whose edges descend has its highest node as a
      source, so its list of sources is never empty. */
  lemma DescendingHasSource(g: Digraph)
    requires EdgesDescend(g) && g.n > 0
    ensures IsSource(g, g.n - 1)
    ensures |Sources(g)| > 0
  {
  }
}
