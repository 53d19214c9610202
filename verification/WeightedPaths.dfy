/** Costs of paths, in-degrees counted over a set of sources, and the cycle that every finite set of
    nodes contains when each of them has a predecessor in it. */
module WeightedPaths {
  import opened Graphs

  ghost function CostUpto(costs: seq<nat>, p: seq<nat>, k: nat): nat
    requires k <= |p|
  {
    if k == 0 then 0 else CostUpto(costs, p, k - 1) + (if p[k - 1] < |costs| then costs[p[k - 1]] else 0)
  }

  ghost function PathCost(costs: seq<nat>, p: seq<nat>): nat { CostUpto(costs, p, |p|) }

  lemma {:induction false} CostConcat(costs: seq<nat>, p: seq<nat>, q: seq<nat>, k: nat)
    requires k <= |q|
    ensures CostUpto(costs, p + q, |p| + k) == PathCost(costs, p) + CostUpto(costs, q, k)
  {
    if k == 0 {
      CostAgrees(costs, p, p + q, |p|);
    } else {
      CostConcat(costs, p, q, k - 1);
    }
  }

  lemma {:induction false} CostAgrees(costs: seq<nat>, p: seq<nat>, q: seq<nat>, k: nat)
    requires k <= |p| && k <= |q| && forall i :: 0 <= i < k ==> p[i] == q[i]
    ensures CostUpto(costs, p, k) == CostUpto(costs, q, k)
  {
    if k > 0 { CostAgrees(costs, p, q, k - 1); }
  }

  lemma {:induction false} PathSnoc(g: Graph, costs: seq<nat>, p: seq<nat>, v: nat)
    requires IsPath(g, p) && Edge(g, p[|p| - 1], v) && v < |costs|
    ensures IsPath(g, p + [v]) && PathCost(costs, p + [v]) == PathCost(costs, p) + costs[v]
  {
    CostConcat(costs, p, [v], 1);
    forall i | 0 <= i < |p| ensures Edge(g, (p + [v])[i], (p + [v])[i + 1]) {
      if i < |p| - 1 { assert Edge(g, p[i], p[i + 1]); }
    }
  }

  lemma {:induction false} PathPrefix(g: Graph, p: seq<nat>, k: nat)
    requires IsPath(g, p) && 0 < k <= |p|
    ensures IsPath(g, p[..k])
  {
    forall i | 0 <= i < k - 1 ensures Edge(g, p[..k][i], p[..k][i + 1]) { assert Edge(g, p[i], p[i + 1]); }
  }

  lemma {:induction false} PathSuffix(g: Graph, p: seq<nat>, k: nat)
    requires IsPath(g, p) && k < |p| - 1
    ensures IsPath(g, p[k..])
  {
    forall i | 0 <= i < |p| - k - 1 ensures Edge(g, p[k..][i], p[k..][i + 1]) { assert Edge(g, p[k + i], p[k + i + 1]); }
    assert Edge(g, p[k], p[k + 1]);
  }

  /** Gluing a path onto one that ends where it starts. */
  lemma {:induction false} PathGlue(g: Graph, costs: seq<nat>, p: seq<nat>, q: seq<nat>)
    requires IsPath(g, p) && IsPath(g, q) && p[|p| - 1] == q[0]
    ensures IsPath(g, p + q[1..]) && PathCost(costs, p + q[1..]) >= PathCost(costs, q)
  {
    var r := p + q[1..];
    forall i | 0 <= i < |r| - 1 ensures Edge(g, r[i], r[i + 1]) {
      if i < |p| - 1 { assert Edge(g, p[i], p[i + 1]); } else { assert Edge(g, q[i - |p| + 1], q[i - |p| + 1 + 1]); }
    }
    CostConcat(costs, p, q[1..], |q| - 1);
    assert q == [q[0]] + q[1..];
    CostConcat(costs, [q[0]], q[1..], |q| - 1);
    assert CostUpto(costs, p, |p|) == CostUpto(costs, p, |p| - 1) + (if p[|p| - 1] < |costs| then costs[p[|p| - 1]] else 0);
    assert CostUpto(costs, [q[0]], 1) == CostUpto(costs, [q[0]], 0) + (if q[0] < |costs| then costs[q[0]] else 0);
  }

  // ----- In-degrees -----

  ghost function CountUpto(s: seq<nat>, v: nat, k: nat): nat
    requires k <= |s|
  {
    if k == 0 then 0 else CountUpto(s, v, k - 1) + (if s[k - 1] == v then 1 else 0)
  }

  lemma {:induction false} CountMonotone(s: seq<nat>, v: nat, j: nat, k: nat)
    requires j <= k <= |s|
    ensures CountUpto(s, v, j) <= CountUpto(s, v, k)
    decreases k
  {
    if j < k { CountMonotone(s, v, j, k - 1); }
  }

  lemma {:induction false} CountPositive(s: seq<nat>, v: nat, k: nat)
    requires k <= |s|
    ensures CountUpto(s, v, k) > 0 <==> exists i :: 0 <= i < k && s[i] == v
  {
    if k > 0 { CountPositive(s, v, k - 1); }
  }

  /** How many edges lead from the sources in `from` below `k` to `v`. */
  ghost function InUpto(g: Graph, from: set<nat>, v: nat, k: nat): nat
    requires k <= |g|
  {
    if k == 0 then 0
    else InUpto(g, from, v, k - 1) + (if k - 1 in from then CountUpto(g[k - 1], v, |g[k - 1]|) else 0)
  }

  ghost function In(g: Graph, from: set<nat>, v: nat): nat { InUpto(g, from, v, |g|) }

  lemma {:induction false} InAdd(g: Graph, from: set<nat>, u: nat, v: nat, k: nat)
    requires k <= |g| && u < |g| && u !in from
    ensures InUpto(g, from + {u}, v, k) == InUpto(g, from, v, k) + (if u < k then CountUpto(g[u], v, |g[u]|) else 0)
  {
    if k > 0 { InAdd(g, from, u, v, k - 1); }
  }

  lemma {:induction false} InMonotone(g: Graph, from: set<nat>, more: set<nat>, v: nat, k: nat)
    requires k <= |g| && from <= more
    ensures InUpto(g, from, v, k) <= InUpto(g, more, v, k)
  {
    if k > 0 { InMonotone(g, from, more, v, k - 1); }
  }

  /** More edges from more sources: one of the extra sources has an edge. */
  lemma {:induction false} InGap(g: Graph, from: set<nat>, more: set<nat>, v: nat, k: nat) returns (u: nat)
    requires k <= |g| && from <= more && InUpto(g, from, v, k) < InUpto(g, more, v, k)
    ensures u in more && u !in from && Edge(g, u, v)
  {
    if k - 1 in more && k - 1 !in from && CountUpto(g[k - 1], v, |g[k - 1]|) > 0 {
      CountPositive(g[k - 1], v, |g[k - 1]|);
      u := k - 1;
    } else {
      u := InGap(g, from, more, v, k - 1);
    }
  }

  /** A source outside `from` with edges to `v` keeps the count below that of `more`. */
  lemma {:induction false} InMissing(g: Graph, from: set<nat>, more: set<nat>, u: nat, v: nat)
    requires from <= more && u in more && u !in from && u < |g|
    ensures In(g, from, v) + CountUpto(g[u], v, |g[u]|) <= In(g, more, v)
  {
    InAdd(g, from, u, v, |g|);
    InMonotone(g, from + {u}, more, v, |g|);
  }

  lemma {:induction false} InNothing(g: Graph, v: nat, k: nat)
    requires k <= |g|
    ensures InUpto(g, {}, v, k) == 0
  {
    if k > 0 { InNothing(g, v, k - 1); }
  }

  // ----- Cycles in finite sets -----

  lemma {:induction false} Pigeonhole(s: seq<nat>, bag: set<nat>) returns (i: nat, j: nat)
    requires |s| > |bag| && forall k :: 0 <= k < |s| ==> s[k] in bag
    ensures i < j < |s| && s[i] == s[j]
    decreases |s|
  {
    var last := s[|s| - 1];
    if k :| 0 <= k < |s| - 1 && s[k] == last {
      i, j := k, |s| - 1;
    } else {
      i, j := Pigeonhole(s[..|s| - 1], bag - {last});
    }
  }

  /** Every member has a predecessor inside. */
  ghost predicate Rootless(g: Graph, nodes: set<nat>) {
    forall v {:trigger HasPredecessor(g, nodes, v)} :: v in nodes ==> HasPredecessor(g, nodes, v)
  }

  ghost predicate HasPredecessor(g: Graph, nodes: set<nat>, v: nat) {
    exists u :: u in nodes && Edge(g, u, v)
  }

  lemma {:induction false} WalkBack(g: Graph, nodes: set<nat>, v: nat, length: nat) returns (p: seq<nat>)
    requires Rootless(g, nodes) && v in nodes && v < |g|
    ensures |p| == length + 1 && IsPath(g, p) && forall k :: 0 <= k < |p| ==> p[k] in nodes
  {
    if length == 0 {
      p := [v];
    } else {
      var q := WalkBack(g, nodes, v, length - 1);
      assert HasPredecessor(g, nodes, q[0]);
      var u :| u in nodes && Edge(g, u, q[0]);
      p := [u] + q;
      forall i | 0 <= i < |p| - 1 ensures Edge(g, p[i], p[i + 1]) {
        if i > 0 { assert Edge(g, q[i - 1], q[i - 1 + 1]); }
      }
    }
  }

  /** A nonempty finite set in which every node has a predecessor contains a cycle. */
  lemma {:induction false} RootlessCycle(g: Graph, nodes: set<nat>) returns (p: seq<nat>)
    requires Rootless(g, nodes) && nodes != {} && forall v :: v in nodes ==> v < |g|
    ensures IsCycle(g, p) && p[0] in nodes
  {
    var v :| v in nodes;
    var w := WalkBack(g, nodes, v, |nodes|);
    var i, j := Pigeonhole(w, nodes);
    PathPrefix(g, w, j + 1);
    PathSuffix(g, w[..j + 1], i);
    p := w[..j + 1][i..];
  }
}
