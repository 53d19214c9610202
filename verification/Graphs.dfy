/** Directed graphs as adjacency lists, their paths and cycles. A ranking that falls along every edge
    rules cycles out, which is how both graph searches conclude that there is none. */
module Graphs {
  type Graph = seq<seq<nat>>

  predicate WellFormed(g: Graph) {
    forall u, k :: 0 <= u < |g| && 0 <= k < |g[u]| ==> g[u][k] < |g|
  }

  ghost predicate Edge(g: Graph, u: int, v: int) {
    0 <= u < |g| && v in g[u]
  }

  ghost predicate IsPath(g: Graph, p: seq<nat>) {
    |p| > 0 && p[0] < |g| && forall i :: 0 <= i < |p| - 1 ==> Edge(g, p[i], p[i + 1])
  }

  /** A closed walk along at least one edge; a self-loop is the shortest. */
  ghost predicate IsCycle(g: Graph, p: seq<nat>) {
    IsPath(g, p) && |p| >= 2 && p[0] == p[|p| - 1]
  }

  ghost predicate Acyclic(g: Graph) {
    !exists p :: IsCycle(g, p)
  }

  /** Every edge leads to a strictly smaller rank. */
  ghost predicate Descends(g: Graph, rank: seq<int>) {
    |rank| == |g| && forall u, v :: Edge(g, u, v) ==> 0 <= v < |g| && rank[v] < rank[u]
  }

  lemma {:induction false} PathDescends(g: Graph, rank: seq<int>, p: seq<nat>)
    requires Descends(g, rank) && IsPath(g, p)
    ensures p[|p| - 1] < |g| && rank[p[|p| - 1]] <= rank[p[0]] - (|p| - 1)
    decreases |p|
  {
    if |p| > 1 {
      var q := p[..|p| - 1];
      assert IsPath(g, q) by {
        forall i | 0 <= i < |q| - 1 ensures Edge(g, q[i], q[i + 1]) {
          assert Edge(g, p[i], p[i + 1]);
        }
      }
      PathDescends(g, rank, q);
      assert Edge(g, p[|p| - 2], p[|p| - 2 + 1]);
    }
  }

  lemma {:induction false} DescendsAcyclic(g: Graph, rank: seq<int>)
    requires Descends(g, rank)
    ensures Acyclic(g)
  {
    forall p | IsCycle(g, p) ensures false {
      PathDescends(g, rank, p);
    }
  }
}
