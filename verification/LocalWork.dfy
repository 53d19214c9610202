/** The longest-path pass over one PC's blocks: Kahn's traversal with a cursor over a ready list of
    blocks whose predecessors are all done. */
module LocalWork {
  import opened Core
  import opened Lists
  import opened Wrappers
  import opened Graphs
  import opened WeightedPaths
  import opened Countdown

  /** A block the PC does not own, a sum past 64 bits, a cycle, an unreachable block, or the work. */
  datatype Outcome = BadBlock | Overflow | Cyclic | Unreachable | Work(work: nat)

  ghost function Firsts(s: seq<nat>, k: nat): set<nat>
    requires k <= |s|
  {
    if k == 0 then {} else Firsts(s, k - 1) + {s[k - 1]}
  }

  lemma {:induction false} FirstsMembers(s: seq<nat>, k: nat, x: nat)
    requires k <= |s|
    ensures x in Firsts(s, k) <==> exists i :: 0 <= i < k && s[i] == x
  {
    if k > 0 { FirstsMembers(s, k - 1, x); }
  }

  lemma {:induction false} FirstsAgree(s: seq<nat>, t: seq<nat>, k: nat)
    requires k <= |s| && k <= |t| && forall i :: 0 <= i < k ==> s[i] == t[i]
    ensures Firsts(s, k) == Firsts(t, k)
  {
    if k > 0 { FirstsAgree(s, t, k - 1); }
  }

  lemma {:induction false} FirstsSize(s: seq<nat>, k: nat)
    requires AllDistinct(s) && k <= |s|
    ensures |Firsts(s, k)| == k
  {
    if k > 0 {
      FirstsSize(s, k - 1);
      FirstsMembers(s, k - 1, s[k - 1]);
    }
  }

  ghost function Ids(ids: seq<nat>): set<nat> { Firsts(ids, |ids|) }

  // ----- What the outcomes mean -----

  ghost predicate Confined(g: Graph, nodes: set<nat>) {
    forall u, v :: u in nodes && Edge(g, u, v) ==> v in nodes
  }

  ghost predicate CyclicIn(g: Graph, nodes: set<nat>) {
    exists p :: IsCycle(g, p) && p[0] in nodes
  }

  ghost predicate Leads(g: Graph, p: seq<nat>, u: nat, v: nat) {
    IsPath(g, p) && p[0] == u && p[|p| - 1] == v
  }

  ghost predicate Reaches(g: Graph, u: nat, v: nat) {
    exists p :: Leads(g, p, u, v)
  }

  ghost predicate PathCosting(g: Graph, costs: seq<nat>, u: nat, v: nat, cost: nat) {
    exists p :: Leads(g, p, u, v) && PathCost(costs, p) == cost
  }

  /** `work` is the greatest cost of any path inside, attained by a path from the entry. */
  ghost predicate Longest(g: Graph, nodes: set<nat>, costs: seq<nat>, entry: nat, work: nat) {
    && (exists v :: PathCosting(g, costs, entry, v, work))
    && (forall p :: IsPath(g, p) && p[0] in nodes ==> PathCost(costs, p) <= work)
  }

  /** A path from the entry costs more than 64 bits hold. */
  ghost predicate Exceeding(g: Graph, costs: seq<nat>, entry: nat) {
    exists v, c :: c > MAX_U64 && PathCosting(g, costs, entry, v, c)
  }

  ghost predicate AllReached(g: Graph, entry: nat, nodes: set<nat>) {
    forall v :: v in nodes ==> Reaches(g, entry, v)
  }

  // ----- In-degrees -----

  /** A control edge names at most two successors. */
  ghost predicate AtMostTwo(g: Graph) {
    forall b :: 0 <= b < |g| ==> |g[b]| <= 2
  }

  /** Few enough blocks that no in-degree passes 32 bits. */
  predicate Countable(g: Graph) { 2 * |g| <= MAX_U32 }

  lemma {:induction false} CountAtMost(s: seq<nat>, v: nat, k: nat)
    requires k <= |s|
    ensures CountUpto(s, v, k) <= k
  {
    if k > 0 { CountAtMost(s, v, k - 1); }
  }

  lemma {:induction false} CountsFit(g: Graph, from: set<nat>, v: nat, k: nat)
    requires AtMostTwo(g) && k <= |g|
    ensures InUpto(g, from, v, k) <= 2 * k
  {
    if k > 0 {
      CountsFit(g, from, v, k - 1);
      CountAtMost(g[k - 1], v, |g[k - 1]|);
    }
  }

  ghost predicate Tallied(g: Graph, from: set<nat>, extra: seq<nat>, k: nat, indegree: seq<nat>)
    requires k <= |extra|
  {
    |indegree| == |g| && forall v :: 0 <= v < |g| ==> indegree[v] == In(g, from, v) + CountUpto(extra, v, k)
  }

  lemma {:induction false} TallyNothing(g: Graph, indegree: seq<nat>)
    requires |indegree| == |g| && forall v :: 0 <= v < |g| ==> indegree[v] == 0
    ensures Tallied(g, {}, [], 0, indegree)
  {
    forall v | 0 <= v < |g| ensures indegree[v] == In(g, {}, v) + CountUpto([], v, 0) { InNothing(g, v, |g|); }
  }

  lemma {:induction false} TallyStart(g: Graph, from: set<nat>, u: nat, indegree: seq<nat>)
    requires u < |g| && Tallied(g, from, [], 0, indegree)
    ensures Tallied(g, from, g[u], 0, indegree)
  {
    forall v | 0 <= v < |g| ensures indegree[v] == In(g, from, v) + CountUpto(g[u], v, 0) {
      assert indegree[v] == In(g, from, v) + CountUpto([], v, 0);
    }
  }

  /** One more edge of `u`; the counter does not wrap. */
  lemma {:induction false} TallyStep(g: Graph, from: set<nat>, u: nat, k: nat, indegree: seq<nat>)
    requires u < |g| && u !in from && k < |g[u]| && g[u][k] < |g| && Tallied(g, from, g[u], k, indegree)
    requires AtMostTwo(g) && Countable(g)
    ensures Tallied(g, from, g[u], k + 1, indegree[g[u][k] := Up(indegree[g[u][k]])])
  {
    var s := g[u][k];
    CountsFit(g, from + {u}, s, |g|);
    InMissing(g, from, from + {u}, u, s);
    CountMonotone(g[u], s, k + 1, |g[u]|);
  }

  lemma {:induction false} TallyRow(g: Graph, from: set<nat>, u: nat, indegree: seq<nat>)
    requires u < |g| && u !in from && Tallied(g, from, g[u], |g[u]|, indegree)
    ensures Tallied(g, from + {u}, [], 0, indegree)
  {
    forall v | 0 <= v < |g| ensures indegree[v] == In(g, from + {u}, v) + CountUpto([], v, 0) {
      InAdd(g, from, u, v, |g|);
    }
  }

  /** Whether block `b` exists and belongs to the PC. */
  predicate Owned(owner: seq<nat>, pc: nat, b: nat) { b < |owner| && owner[b] == pc }

  ghost predicate OwnedRow(g: Graph, owner: seq<nat>, pc: nat, u: nat, k: nat) {
    u < |g| && k <= |g[u]| && forall i :: 0 <= i < k ==> Owned(owner, pc, g[u][i])
  }

  ghost predicate AllOwned(g: Graph, owner: seq<nat>, pc: nat, ids: seq<nat>)
    requires |owner| == |g|
  {
    forall i :: 0 <= i < |ids| ==> Owned(owner, pc, ids[i]) && OwnedRow(g, owner, pc, ids[i], |g[ids[i]]|)
  }

  method CountIndegrees(g: Graph, owner: seq<nat>, pc: nat, ids: seq<nat>, indegree: array<nat>) returns (ok: bool)
    requires |owner| == |g| == indegree.Length && AtMostTwo(g)
    requires forall b :: 0 <= b < |g| ==> indegree[b] == 0
    modifies indegree
    ensures Narrow(indegree[..])
    ensures ok <==> AllOwned(g, owner, pc, ids)
    ensures ok && AllDistinct(ids) && Countable(g) ==> Tallied(g, Ids(ids), [], 0, indegree[..])
  {
    hide Tallied, Countable, In, AllDistinct;
    ghost var exact := AllDistinct(ids) && Countable(g);
    TallyNothing(g, indegree[..]);
    for i := 0 to |ids|
      invariant Narrow(indegree[..])
      invariant forall j :: 0 <= j < i ==> Owned(owner, pc, ids[j]) && OwnedRow(g, owner, pc, ids[j], |g[ids[j]]|)
      invariant exact ==> Tallied(g, Firsts(ids, i), [], 0, indegree[..])
    {
      var id := ids[i];
      if id >= |owner| || owner[id] != pc {
        return false;
      }
      if exact {
        NotYetListed(ids, i);
        TallyStart(g, Firsts(ids, i), id, indegree[..]);
      }
      for k := 0 to |g[id]|
        invariant Narrow(indegree[..])
        invariant OwnedRow(g, owner, pc, id, k)
        invariant exact ==> Tallied(g, Firsts(ids, i), g[id], k, indegree[..])
      {
        var successor := g[id][k];
        if successor >= |owner| || owner[successor] != pc {
          assert !OwnedRow(g, owner, pc, ids[i], |g[ids[i]]|);
          return false;
        }
        if exact { TallyStep(g, Firsts(ids, i), id, k, indegree[..]); }
        ghost var counts := indegree[..];
        indegree[successor] := Up(indegree[successor]);
        assert indegree[..] == counts[successor := Up(counts[successor])];
      }
      if exact { TallyRow(g, Firsts(ids, i), id, indegree[..]); }
    }
    return true;
  }

  lemma {:induction false} NotYetListed(ids: seq<nat>, i: nat)
    requires AllDistinct(ids) && i < |ids|
    ensures ids[i] !in Firsts(ids, i)
  {
    FirstsMembers(ids, i, ids[i]);
  }

  // ----- The traversal's invariant -----

  /** In-degrees left once the sources in `done`, and the first `k` edges of `id`, are discounted. */
  ghost predicate Counted(g: Graph, nodes: set<nat>, done: set<nat>, id: nat, k: nat, indegree: seq<nat>)
    requires id < |g| && k <= |g[id]|
  {
    |indegree| == |g| && forall v :: 0 <= v < |g| ==>
      indegree[v] + In(g, done, v) + CountUpto(g[id], v, k) == In(g, nodes, v)
  }

  ghost predicate Readied(nodes: set<nat>, indegree: seq<nat>, ready: seq<nat>) {
    && AllDistinct(ready)
    && forall v :: v in ready <==> v in nodes && v < |indegree| && indegree[v] == 0
  }

  /** Every ready block comes after all its predecessors. */
  ghost predicate Ordered(g: Graph, nodes: set<nat>, ready: seq<nat>) {
    forall j, u :: 0 <= j < |ready| && u in nodes && Edge(g, u, ready[j]) ==> u in Firsts(ready, j)
  }

  ghost predicate Reached(g: Graph, nodes: set<nat>, costs: seq<nat>, entry: nat, distance: seq<Option<nat>>) {
    && |distance| == |g| && entry < |g| && |costs| == |g|
    && (forall v :: 0 <= v < |g| && distance[v].Some? ==> v in nodes && PathCosting(g, costs, entry, v, distance[v].value))
    && distance[entry].Some? && distance[entry].value >= costs[entry]
  }

  /** The first `k` edges of `u` have been relaxed. */
  ghost predicate Relaxed(g: Graph, costs: seq<nat>, distance: seq<Option<nat>>, u: nat, k: nat)
    requires |costs| == |distance| == |g| && u < |g| && k <= |g[u]|
  {
    distance[u].Some? ==> forall j :: 0 <= j < k ==>
      g[u][j] < |g| && distance[g[u][j]].Some? && distance[g[u][j]].value >= distance[u].value + costs[g[u][j]]
  }

  ghost predicate AllRelaxed(g: Graph, costs: seq<nat>, distance: seq<Option<nat>>, done: set<nat>)
    requires |costs| == |distance| == |g|
  {
    forall u :: u in done ==> u < |g| && Relaxed(g, costs, distance, u, |g[u]|)
  }

  ghost predicate Greatest(distance: seq<Option<nat>>, done: set<nat>, work: nat) {
    && (forall u :: u in done && u < |distance| && distance[u].Some? ==> distance[u].value <= work)
    && (work > 0 ==> exists u :: u in done && u < |distance| && distance[u] == Some(work))
  }

  /** A successor still to be decremented has a positive count, so it is not ready, let alone done. */
  lemma {:induction false} SuccessorWaits(g: Graph, nodes: set<nat>, done: set<nat>, id: nat, k: nat, indegree: seq<nat>, ready: seq<nat>)
    requires id < |g| && k < |g[id]| && Counted(g, nodes, done, id, k, indegree) && Readied(nodes, indegree, ready)
    requires done <= nodes && id in nodes && id !in done && g[id][k] < |g|
    requires forall u :: u in done ==> u in ready
    ensures indegree[g[id][k]] > 0 && g[id][k] !in ready && g[id][k] !in done
  {
    var s := g[id][k];
    InMissing(g, done, nodes, id, s);
    CountMonotone(g[id], s, k + 1, |g[id]|);
  }

  lemma {:induction false} CountedStep(g: Graph, nodes: set<nat>, done: set<nat>, id: nat, k: nat, indegree: seq<nat>)
    requires id < |g| && k < |g[id]| && Counted(g, nodes, done, id, k, indegree)
    requires g[id][k] < |g| && indegree[g[id][k]] > 0
    ensures Counted(g, nodes, done, id, k + 1, indegree[g[id][k] := indegree[g[id][k]] - 1])
  {
  }

  lemma {:induction false} CountedNext(g: Graph, nodes: set<nat>, done: set<nat>, id: nat, indegree: seq<nat>, next: nat)
    requires id < |g| && id !in done && Counted(g, nodes, done, id, |g[id]|, indegree) && next < |g|
    ensures Counted(g, nodes, done + {id}, next, 0, indegree)
  {
    forall v | 0 <= v < |g| ensures indegree[v] + In(g, done + {id}, v) + CountUpto(g[next], v, 0) == In(g, nodes, v) {
      InAdd(g, done, id, v, |g|);
    }
  }

  /** A block whose count has run out has all its predecessors among the processed ones. */
  lemma {:induction false} PredecessorsDone(g: Graph, nodes: set<nat>, done: set<nat>, id: nat, k: nat, indegree: seq<nat>, s: nat, u: nat)
    requires id < |g| && k <= |g[id]| && Counted(g, nodes, done, id, k, indegree)
    requires done <= nodes && id in nodes && id !in done && s < |g| && indegree[s] == 0
    requires u in nodes && Edge(g, u, s)
    ensures u in done + {id}
  {
    if u !in done + {id} {
      InMissing(g, done + {id}, nodes, u, s);
      InAdd(g, done, id, s, |g|);
      CountMonotone(g[id], s, k, |g[id]|);
      CountPositive(g[u], s, |g[u]|);
    }
  }

  lemma {:induction false} PushReady(g: Graph, nodes: set<nat>, done: set<nat>, id: nat, k: nat, indegree: seq<nat>, ready: seq<nat>, cursor: nat, s: nat)
    requires id < |g| && k <= |g[id]| && Counted(g, nodes, done, id, k, indegree)
    requires cursor < |ready| && ready[cursor] == id && done == Firsts(ready, cursor) && done <= nodes
    requires id in nodes && id !in done && s < |g| && s in nodes && s !in ready && indegree[s] == 0
    requires Ordered(g, nodes, ready)
    ensures Ordered(g, nodes, ready + [s])
  {
    var r := ready + [s];
    forall j, u | 0 <= j < |r| && u in nodes && Edge(g, u, r[j]) ensures u in Firsts(r, j) {
      FirstsAgree(ready, r, if j < |ready| then j else |ready|);
      if j == |ready| {
        PredecessorsDone(g, nodes, done, id, k, indegree, s, u);
        FirstsGrow(ready, cursor + 1, |ready|);
      }
    }
  }

  lemma {:induction false} FirstsGrow(s: seq<nat>, j: nat, k: nat)
    requires j <= k <= |s|
    ensures Firsts(s, j) <= Firsts(s, k)
    decreases k
  {
    if j < k { FirstsGrow(s, j, k - 1); }
  }

  /** The distances after the edge from `id` to `s` has been relaxed. */
  function RelaxedTo(costs: seq<nat>, distance: seq<Option<nat>>, id: nat, s: nat): (d: seq<Option<nat>>)
    requires id < |distance| && s < |distance| == |costs|
    ensures |d| == |distance|
  {
    if distance[id].None? then distance else
    var candidate := distance[id].value + costs[s];
    if distance[s].None? || candidate > distance[s].value then distance[s := Some(candidate)] else distance
  }

  /** A distance is always the cost of some path. */
  lemma {:induction false} RelaxReached(g: Graph, nodes: set<nat>, costs: seq<nat>, entry: nat, distance: seq<Option<nat>>, id: nat, s: nat)
    requires Reached(g, nodes, costs, entry, distance) && Edge(g, id, s) && s < |g| && s in nodes
    ensures Reached(g, nodes, costs, entry, RelaxedTo(costs, distance, id, s))
  {
    hide PathCost;
    if distance[id].Some? {
      var p :| Leads(g, p, entry, id) && PathCost(costs, p) == distance[id].value;
      PathSnoc(g, costs, p, s);
      assert Leads(g, p + [s], entry, s) && PathCosting(g, costs, entry, s, distance[id].value + costs[s]);
    }
  }

  /** Relaxing one edge keeps what was relaxed before, because a done block's distance is final. */
  lemma {:induction false} RelaxKeeps(g: Graph, costs: seq<nat>, distance: seq<Option<nat>>, done: set<nat>, id: nat, k: nat)
    requires |costs| == |distance| == |g| && AllRelaxed(g, costs, distance, done)
    requires id < |g| && k < |g[id]| && Relaxed(g, costs, distance, id, k)
    requires g[id][k] < |g| && g[id][k] !in done && g[id][k] != id
    ensures var d := RelaxedTo(costs, distance, id, g[id][k]);
      AllRelaxed(g, costs, d, done) && Relaxed(g, costs, d, id, k + 1)
  {
    var d := RelaxedTo(costs, distance, id, g[id][k]);
    forall u | u in done ensures u < |g| && Relaxed(g, costs, d, u, |g[u]|) {
      assert Relaxed(g, costs, distance, u, |g[u]|);
    }
  }

  // ----- The end of the traversal -----

  lemma {:induction false} PositionsGrow(g: Graph, nodes: set<nat>, ready: seq<nat>, p: seq<nat>, i: nat) returns (j: nat)
    requires Ordered(g, nodes, ready) && Confined(g, nodes) && Firsts(ready, |ready|) == nodes && AllDistinct(ready)
    requires IsPath(g, p) && p[0] in nodes && i < |ready| && ready[i] == p[0]
    ensures p[|p| - 1] in nodes && j >= i + |p| - 1 && j < |ready| && ready[j] == p[|p| - 1]
    decreases |p|
  {
    if |p| == 1 {
      j := i;
    } else {
      assert Edge(g, p[0], p[0 + 1]);
      FirstsMembers(ready, |ready|, p[1]);
      var m :| 0 <= m < |ready| && ready[m] == p[1];
      assert p[0] in Firsts(ready, m);
      FirstsMembers(ready, m, p[0]);
      var l :| 0 <= l < m && ready[l] == p[0];
      assert l == i;
      if |p| > 2 {
        PathSuffix(g, p, 1);
        j := PositionsGrow(g, nodes, ready, p[1..], m);
      } else {
        j := m;
      }
    }
  }

  lemma {:induction false} OrderedAcyclic(g: Graph, nodes: set<nat>, ready: seq<nat>)
    requires Ordered(g, nodes, ready) && Confined(g, nodes) && Firsts(ready, |ready|) == nodes && AllDistinct(ready)
    ensures !CyclicIn(g, nodes)
  {
    forall p | IsCycle(g, p) && p[0] in nodes ensures false {
      FirstsMembers(ready, |ready|, p[0]);
      var i :| 0 <= i < |ready| && ready[i] == p[0];
      var j := PositionsGrow(g, nodes, ready, p, i);
    }
  }

  /** What never became ready always has a predecessor that never did: a cycle. */
  lemma {:induction false} StuckMeansCyclic(g: Graph, nodes: set<nat>, ready: seq<nat>, indegree: seq<nat>, id: nat)
    requires id < |g| && (forall v :: v in nodes ==> v < |g|)
    requires Readied(nodes, indegree, ready) && Counted(g, nodes, Firsts(ready, |ready|), id, 0, indegree)
    requires Firsts(ready, |ready|) <= nodes && Firsts(ready, |ready|) != nodes
    ensures CyclicIn(g, nodes)
  {
    var done := Firsts(ready, |ready|);
    var stuck := nodes - done;
    forall v | v in stuck ensures HasPredecessor(g, stuck, v) {
      FirstsMembers(ready, |ready|, v);
      assert v !in ready;
      assert indegree[v] > 0;
      var u := InGap(g, done, nodes, v, |g|);
      assert u in stuck && Edge(g, u, v);
    }
    assert nodes == done + stuck && done + {} == done;
    var p := RootlessCycle(g, stuck);
    assert p[0] in nodes;
  }

  /** Once every edge is relaxed, distances bound every path from the entry. */
  lemma {:induction false} DistanceBounds(g: Graph, nodes: set<nat>, costs: seq<nat>, entry: nat, distance: seq<Option<nat>>, p: seq<nat>)
    requires Reached(g, nodes, costs, entry, distance) && AllRelaxed(g, costs, distance, nodes)
    requires IsPath(g, p) && p[0] == entry
    ensures p[|p| - 1] < |g| && distance[p[|p| - 1]].Some? && PathCost(costs, p) <= distance[p[|p| - 1]].value
    decreases |p|
  {
    if |p| == 1 {
      assert CostUpto(costs, p, 1) == CostUpto(costs, p, 0) + costs[p[0]];
    } else {
      var q := p[..|p| - 1];
      PathPrefix(g, p, |p| - 1);
      DistanceBounds(g, nodes, costs, entry, distance, q);
      var u, v := p[|p| - 2], p[|p| - 1];
      assert Edge(g, p[|p| - 2], p[|p| - 2 + 1]);
      assert u == q[|q| - 1] && Relaxed(g, costs, distance, u, |g[u]|);
      var k :| 0 <= k < |g[u]| && g[u][k] == v;
      assert p == q + [v];
      PathSnoc(g, costs, q, v);
    }
  }

  lemma {:induction false} WorkIsLongest(g: Graph, nodes: set<nat>, costs: seq<nat>, entry: nat, distance: seq<Option<nat>>, work: nat)
    requires Reached(g, nodes, costs, entry, distance) && AllRelaxed(g, costs, distance, nodes)
    requires Greatest(distance, nodes, work) && (forall v :: v in nodes ==> v < |g| && distance[v].Some?)
    requires entry in nodes
    ensures Longest(g, nodes, costs, entry, work) && AllReached(g, entry, nodes)
  {
    var u := entry;
    if work > 0 {
      u :| u in nodes && u < |distance| && distance[u] == Some(work);
    }
    assert PathCosting(g, costs, entry, u, work);
    forall v | v in nodes ensures Reaches(g, entry, v) {
      var p :| Leads(g, p, entry, v) && PathCost(costs, p) == distance[v].value;
    }
    forall q | IsPath(g, q) && q[0] in nodes ensures PathCost(costs, q) <= work {
      var p :| Leads(g, p, entry, q[0]) && PathCost(costs, p) == distance[q[0]].value;
      PathGlue(g, costs, p, q);
      var r := p + q[1..];
      DistanceBounds(g, nodes, costs, entry, distance, r);
      assert r[|r| - 1] in nodes;
    }
  }

  lemma {:induction false} NoDistanceUnreached(g: Graph, nodes: set<nat>, costs: seq<nat>, entry: nat, distance: seq<Option<nat>>, v: nat)
    requires Reached(g, nodes, costs, entry, distance) && AllRelaxed(g, costs, distance, nodes)
    requires v < |g| && distance[v].None?
    ensures !Reaches(g, entry, v)
  {
    if Reaches(g, entry, v) {
      var p :| Leads(g, p, entry, v);
      DistanceBounds(g, nodes, costs, entry, distance, p);
    }
  }

  // ----- The pass -----

  /** The PC lists every block it owns. */
  ghost predicate Exhaustive(owner: seq<nat>, pc: nat, ids: seq<nat>) {
    forall b :: 0 <= b < |owner| && owner[b] == pc ==> b in ids
  }

  lemma {:induction false} OwnedConfined(g: Graph, owner: seq<nat>, pc: nat, ids: seq<nat>)
    requires |owner| == |g| && AllOwned(g, owner, pc, ids) && Exhaustive(owner, pc, ids)
    ensures Confined(g, Ids(ids)) && forall v :: v in Ids(ids) <==> v in ids
    ensures forall v :: v in Ids(ids) ==> v < |g|
    ensures forall i :: 0 <= i < |ids| ==> ids[i] < |g|
  {
    forall v ensures v in Ids(ids) <==> v in ids {
      if v >= 0 { FirstsMembers(ids, |ids|, v); }
    }
    forall u, v | u in Ids(ids) && Edge(g, u, v) ensures v in Ids(ids) {
      var i :| 0 <= i < |ids| && ids[i] == u;
      var k :| 0 <= k < |g[u]| && g[u][k] == v;
      assert OwnedRow(g, owner, pc, ids[i], |g[ids[i]]|);
    }
  }

  /** The blocks with no predecessor, in listing order. */
  method InitialReady(ids: seq<nat>, indegree: array<nat>) returns (ready: seq<nat>)
    requires forall i :: 0 <= i < |ids| ==> ids[i] < indegree.Length
    ensures forall i :: 0 <= i < |ready| ==> ready[i] < indegree.Length
    ensures AllDistinct(ids) ==> Readied(Ids(ids), indegree[..], ready)
  {
    ready := [];
    for i := 0 to |ids|
      invariant forall v :: v in ready <==> v in Firsts(ids, i) && v < indegree.Length && indegree[v] == 0
      invariant AllDistinct(ids) ==> AllDistinct(ready)
    {
      FirstsMembers(ids, i, ids[i]);
      if indegree[ids[i]] == 0 {
        ready := ready + [ids[i]];
      }
    }
    forall i | 0 <= i < |ready| ensures ready[i] < indegree.Length { assert ready[i] in ready; }
  }

  lemma {:induction false} StartOrdered(g: Graph, nodes: set<nat>, indegree: seq<nat>, ready: seq<nat>)
    requires Tallied(g, nodes, [], 0, indegree) && Readied(nodes, indegree, ready)
    requires forall v :: v in nodes ==> v < |g|
    ensures Ordered(g, nodes, ready)
  {
    forall j, u | 0 <= j < |ready| && u in nodes ensures !Edge(g, u, ready[j]) {
      assert ready[j] in ready && indegree[ready[j]] == In(g, nodes, ready[j]);
      EdgeCounted(g, nodes, u, ready[j]);
    }
  }

  lemma {:induction false} EdgeCounted(g: Graph, nodes: set<nat>, u: nat, v: nat)
    requires u in nodes && u < |g|
    ensures Edge(g, u, v) ==> In(g, nodes, v) > 0
  {
    InNothing(g, v, |g|);
    InMissing(g, {}, nodes, u, v);
    CountPositive(g[u], v, |g[u]|);
  }

  /** Everything the traversal knows when the first `cursor` ready blocks are done. */
  ghost predicate Walking(g: Graph, nodes: set<nat>, costs: seq<nat>, entry: nat,
                          indegree: seq<nat>, distance: seq<Option<nat>>, ready: seq<nat>, cursor: nat, work: nat)
  {
    && |costs| == |g| && cursor <= |ready| && entry < |g|
    && (forall v :: v in nodes ==> v < |g|)
    && Readied(nodes, indegree, ready) && Ordered(g, nodes, ready)
    && Counted(g, nodes, Firsts(ready, cursor), entry, 0, indegree)
    && Reached(g, nodes, costs, entry, distance) && AllRelaxed(g, costs, distance, Firsts(ready, cursor))
    && Greatest(distance, Firsts(ready, cursor), work)
  }

  /** Mid-way through the successors of the block under the cursor. */
  ghost predicate Visiting(g: Graph, nodes: set<nat>, costs: seq<nat>, entry: nat,
                           indegree: seq<nat>, distance: seq<Option<nat>>, ready: seq<nat>, cursor: nat, work: nat, k: nat)
  {
    && |costs| == |g| && cursor < |ready|
    && (forall v :: v in nodes ==> v < |g|)
    && ready[cursor] in nodes && k <= |g[ready[cursor]]|
    && Readied(nodes, indegree, ready) && Ordered(g, nodes, ready)
    && Counted(g, nodes, Firsts(ready, cursor), ready[cursor], k, indegree)
    && Reached(g, nodes, costs, entry, distance) && AllRelaxed(g, costs, distance, Firsts(ready, cursor))
    && Relaxed(g, costs, distance, ready[cursor], k)
    && Greatest(distance, Firsts(ready, cursor) + {ready[cursor]}, work)
  }

  lemma {:induction false} ReadyFacts(nodes: set<nat>, indegree: seq<nat>, ready: seq<nat>, cursor: nat)
    requires Readied(nodes, indegree, ready) && cursor <= |ready|
    ensures Firsts(ready, cursor) <= nodes && forall u :: u in Firsts(ready, cursor) ==> u in ready
    ensures cursor < |ready| ==> ready[cursor] !in Firsts(ready, cursor) && ready[cursor] in nodes
  {
    forall u | u in Firsts(ready, cursor) ensures u in ready { FirstsMembers(ready, cursor, u); }
    if cursor < |ready| {
      FirstsMembers(ready, cursor, ready[cursor]);
      assert ready[cursor] in ready;
    }
  }

  lemma {:induction false} Visit(g: Graph, nodes: set<nat>, costs: seq<nat>, entry: nat,
              indegree: seq<nat>, distance: seq<Option<nat>>, ready: seq<nat>, cursor: nat, work: nat)
    requires Walking(g, nodes, costs, entry, indegree, distance, ready, cursor, work) && cursor < |ready|
    ensures ready[cursor] < |distance|
    ensures var d := distance[ready[cursor]];
      Visiting(g, nodes, costs, entry, indegree, distance, ready, cursor, if d.Some? then Max(work, d.value) else work, 0)
  {
    ReadyFacts(nodes, indegree, ready, cursor);
    var id := ready[cursor];
    var d := distance[id];
    var w := if d.Some? then Max(work, d.value) else work;
    if w > 0 {
      if w == work {
        var u :| u in Firsts(ready, cursor) && u < |distance| && distance[u] == Some(work);
        assert u in Firsts(ready, cursor) + {id};
      } else {
        assert id in Firsts(ready, cursor) + {id};
      }
    }
  }

  lemma {:induction false} Leave(g: Graph, nodes: set<nat>, costs: seq<nat>, entry: nat,
              indegree: seq<nat>, distance: seq<Option<nat>>, ready: seq<nat>, cursor: nat, work: nat)
    requires cursor < |ready| && ready[cursor] < |g|
    requires Visiting(g, nodes, costs, entry, indegree, distance, ready, cursor, work, |g[ready[cursor]]|)
    ensures Walking(g, nodes, costs, entry, indegree, distance, ready, cursor + 1, work)
  {
    ReadyFacts(nodes, indegree, ready, cursor);
    CountedNext(g, nodes, Firsts(ready, cursor), ready[cursor], indegree, entry);
  }

  lemma {:induction false} FollowCounts(g: Graph, nodes: set<nat>, costs: seq<nat>, entry: nat,
                     indegree: seq<nat>, distance: seq<Option<nat>>, ready: seq<nat>, cursor: nat, work: nat, k: nat)
    requires Visiting(g, nodes, costs, entry, indegree, distance, ready, cursor, work, k)
    requires k < |g[ready[cursor]]| && g[ready[cursor]][k] in nodes
    ensures var s := g[ready[cursor]][k];
      && s < |g| && indegree[s] > 0 && s !in ready
      && var left := indegree[s := indegree[s] - 1];
         var next := if left[s] == 0 then ready + [s] else ready;
      && Counted(g, nodes, Firsts(next, cursor), ready[cursor], k + 1, left)
      && Firsts(next, cursor) == Firsts(ready, cursor)
      && Readied(nodes, left, next) && Ordered(g, nodes, next)
  {
    hide Reached, AllRelaxed, Relaxed, Greatest;
    ReadyFacts(nodes, indegree, ready, cursor);
    var id, s := ready[cursor], g[ready[cursor]][k];
    var done := Firsts(ready, cursor);
    SuccessorWaits(g, nodes, done, id, k, indegree, ready);
    CountedStep(g, nodes, done, id, k, indegree);
    var left := indegree[s := indegree[s] - 1];
    if left[s] == 0 {
      PushReady(g, nodes, done, id, k + 1, left, ready, cursor, s);
      FirstsAgree(ready, ready + [s], cursor);
    }
  }

  lemma {:induction false} RelaxGreatest(costs: seq<nat>, distance: seq<Option<nat>>, done: set<nat>, id: nat, s: nat, work: nat)
    requires id < |distance| && s < |distance| == |costs| && Greatest(distance, done, work) && s !in done
    ensures Greatest(RelaxedTo(costs, distance, id, s), done, work)
  {
    var d := RelaxedTo(costs, distance, id, s);
    if work > 0 {
      var u :| u in done && u < |distance| && distance[u] == Some(work);
      assert d[u] == Some(work);
    }
  }

  lemma {:induction false} FollowDistances(g: Graph, nodes: set<nat>, costs: seq<nat>, entry: nat,
                        distance: seq<Option<nat>>, done: set<nat>, id: nat, k: nat, work: nat)
    requires Reached(g, nodes, costs, entry, distance) && AllRelaxed(g, costs, distance, done)
    requires id < |g| && k < |g[id]| && Relaxed(g, costs, distance, id, k) && Greatest(distance, done + {id}, work)
    requires g[id][k] < |g| && g[id][k] in nodes && g[id][k] !in done && g[id][k] != id
    ensures var d := RelaxedTo(costs, distance, id, g[id][k]);
      && Reached(g, nodes, costs, entry, d) && AllRelaxed(g, costs, d, done)
      && Relaxed(g, costs, d, id, k + 1) && Greatest(d, done + {id}, work)
  {
    hide Reached, AllRelaxed, Relaxed, Greatest, RelaxedTo;
    DistancesSized(g, nodes, costs, entry, distance);
    assert Edge(g, id, g[id][k]);
    RelaxReached(g, nodes, costs, entry, distance, id, g[id][k]);
    RelaxKeeps(g, costs, distance, done, id, k);
    RelaxGreatest(costs, distance, done + {id}, id, g[id][k], work);
  }

  /** One edge of the block under the cursor. */
  lemma {:induction false} Follow(g: Graph, nodes: set<nat>, costs: seq<nat>, entry: nat,
               indegree: seq<nat>, distance: seq<Option<nat>>, ready: seq<nat>, cursor: nat, work: nat, k: nat)
    requires Visiting(g, nodes, costs, entry, indegree, distance, ready, cursor, work, k)
    requires k < |g[ready[cursor]]| && g[ready[cursor]][k] in nodes
    ensures var s := g[ready[cursor]][k];
      && s < |g| && indegree[s] > 0
      && var left := indegree[s := indegree[s] - 1];
         Visiting(g, nodes, costs, entry, left, RelaxedTo(costs, distance, ready[cursor], s),
                  if left[s] == 0 then ready + [s] else ready, cursor, work, k + 1)
  {
    hide Counted, Readied, Ordered, Reached, AllRelaxed, Relaxed, Greatest, RelaxedTo;
    ReadyFacts(nodes, indegree, ready, cursor);
    FollowCounts(g, nodes, costs, entry, indegree, distance, ready, cursor, work, k);
    var s := g[ready[cursor]][k];
    ReadyNotSuccessor(ready, cursor, s);
    DistancesSized(g, nodes, costs, entry, distance);
    FollowDistances(g, nodes, costs, entry, distance, Firsts(ready, cursor), ready[cursor], k, work);
  }

  lemma {:induction false} DistancesSized(g: Graph, nodes: set<nat>, costs: seq<nat>, entry: nat, distance: seq<Option<nat>>)
    requires Reached(g, nodes, costs, entry, distance)
    ensures |distance| == |g| == |costs|
  {
  }

  lemma {:induction false} ReadyNotSuccessor(ready: seq<nat>, cursor: nat, s: nat)
    requires cursor < |ready| && s !in ready
    ensures s != ready[cursor] && s !in Firsts(ready, cursor)
  {
    FirstsMembers(ready, cursor, s);
  }

  lemma {:induction false} OverflowWitness(g: Graph, nodes: set<nat>, costs: seq<nat>, entry: nat, distance: seq<Option<nat>>, id: nat, k: nat)
    requires Reached(g, nodes, costs, entry, distance) && id < |g| && k < |g[id]| && g[id][k] < |g| && distance[id].Some?
    ensures PathCosting(g, costs, entry, g[id][k], distance[id].value + costs[g[id][k]])
  {
    var p :| Leads(g, p, entry, id) && PathCost(costs, p) == distance[id].value;
    PathSnoc(g, costs, p, g[id][k]);
    assert Leads(g, p + [g[id][k]], entry, g[id][k]);
  }

  ghost predicate Fits(distance: seq<Option<nat>>) {
    forall v :: 0 <= v < |distance| && distance[v].Some? ==> distance[v].value <= MAX_U64
  }

  /** One edge, with a 32-bit counter: either the sum passes 64 bits or the invariant moves on. */
  lemma {:induction false} FollowOrExceed(g: Graph, nodes: set<nat>, costs: seq<nat>, entry: nat,
               indegree: seq<nat>, distance: seq<Option<nat>>, ready: seq<nat>, cursor: nat, work: nat, k: nat)
    requires Visiting(g, nodes, costs, entry, indegree, distance, ready, cursor, work, k) && Confined(g, nodes)
    requires ready[cursor] < |g| && k < |g[ready[cursor]]|
    ensures var id, s := ready[cursor], g[ready[cursor]][k];
      && id < |distance| && s < |g| && |distance| == |g| == |costs| == |indegree|
      && (distance[id].Some? && distance[id].value + costs[s] > MAX_U64 ==> Exceeding(g, costs, entry))
      && var left := indegree[s := Down(indegree[s])];
         Visiting(g, nodes, costs, entry, left, RelaxedTo(costs, distance, id, s),
                  if left[s] == 0 then ready + [s] else ready, cursor, work, k + 1)
  {
    hide Readied, Ordered, AllRelaxed, Relaxed, Greatest, RelaxedTo, PathCosting;
    var id, s := ready[cursor], g[ready[cursor]][k];
    assert Edge(g, id, s);
    Follow(g, nodes, costs, entry, indegree, distance, ready, cursor, work, k);
    if distance[id].Some? { OverflowWitness(g, nodes, costs, entry, distance, id, k); }
  }

  lemma {:induction false} ReadyInRange(indegree: seq<nat>, ready: seq<nat>, start: nat, cursor: nat)
    requires Paced(indegree, ready, start, cursor, 0) && cursor < |ready|
    ensures ready[cursor] < |indegree|
  {
  }

  /** The cursor loop. Stops early when a sum would pass 64 bits. However the counters came about, it
      ends. */
  method Traverse(g: Graph, ghost nodes: set<nat>, costs: seq<nat>, entry: nat,
                  indegree: array<nat>, distance: array<Option<nat>>, ready0: seq<nat>, ghost exact: bool)
    returns (overflow: bool, ready: seq<nat>, work: nat)
    requires indegree != distance as object && indegree.Length == distance.Length == |g| == |costs|
    requires WellFormed(g) && AtMostTwo(g) && Paced(indegree[..], ready0, |ready0|, 0, 0)
    requires exact ==> Confined(g, nodes) && Walking(g, nodes, costs, entry, indegree[..], distance[..], ready0, 0, 0)
    modifies indegree, distance
    ensures exact && overflow ==> Exceeding(g, costs, entry)
    ensures exact && !overflow ==> Walking(g, nodes, costs, entry, indegree[..], distance[..], ready, |ready|, work)
  {
    hide Walking, Visiting, Paced, Exceeding;
    ready, work := ready0, 0;
    var cursor := 0;
    PacedBounds(indegree[..], ready, |ready0|, 0);
    while cursor < |ready|
      invariant cursor <= |ready| <= 2 * (|g| + |ready0|)
      invariant Paced(indegree[..], ready, |ready0|, cursor, 0)
      invariant exact ==> Walking(g, nodes, costs, entry, indegree[..], distance[..], ready, cursor, work)
      decreases 2 * (|g| + |ready0|) - cursor
    {
      ReadyInRange(indegree[..], ready, |ready0|, cursor);
      var id := ready[cursor];
      if exact { Visit(g, nodes, costs, entry, indegree[..], distance[..], ready, cursor, work); }
      if distance[id].Some? {
        work := Max(work, distance[id].value);
      }
      for k := 0 to |g[id]|
        invariant cursor < |ready| && ready[cursor] == id
        invariant Paced(indegree[..], ready, |ready0|, cursor, k)
        invariant exact ==> Visiting(g, nodes, costs, entry, indegree[..], distance[..], ready, cursor, work, k)
      {
        var successor := g[id][k];
        ghost var i0, d0 := indegree[..], distance[..];
        PacedDown(i0, ready, |ready0|, cursor, k, successor);
        if exact { FollowOrExceed(g, nodes, costs, entry, i0, d0, ready, cursor, work, k); }
        if distance[id].Some? {
          var successorCost := costs[successor];
          if distance[id].value + successorCost > MAX_U64 {
            return true, ready, work;
          }
          var candidate := distance[id].value + successorCost;
          if distance[successor].None? || candidate > distance[successor].value {
            distance[successor] := Some(candidate);
          }
        }
        assert distance[..] == RelaxedTo(costs, d0, id, successor);
        indegree[successor] := Down(indegree[successor]);
        assert indegree[..] == i0[successor := Down(i0[successor])];
        if indegree[successor] == 0 {
          ready := ready + [successor];
        }
      }
      PacedNext(indegree[..], ready, |ready0|, cursor, |g[id]|);
      if exact { Leave(g, nodes, costs, entry, indegree[..], distance[..], ready, cursor, work); }
      cursor := cursor + 1;
      PacedBounds(indegree[..], ready, |ready0|, cursor);
    }
    overflow := false;
  }

  /** The listing is exact: every block of the PC once, and few enough to count. */
  ghost predicate Exact(g: Graph, owner: seq<nat>, pc: nat, ids: seq<nat>) {
    AllDistinct(ids) && Exhaustive(owner, pc, ids) && Countable(g)
  }

  /** The work of one PC, or what is wrong with its block graph. */
  method Compute(g: Graph, owner: seq<nat>, costs: seq<nat>, pc: nat, ids: seq<nat>) returns (r: Outcome)
    requires |owner| == |costs| == |g| && WellFormed(g) && AtMostTwo(g) && ids != []
    ensures r.BadBlock? <==> !AllOwned(g, owner, pc, ids)
    ensures Exact(g, owner, pc, ids) ==>
      && (r.Overflow? ==> Exceeding(g, costs, ids[0]))
      && (r.Cyclic? ==> CyclicIn(g, Ids(ids)))
      && (r.Unreachable? ==> !AllReached(g, ids[0], Ids(ids)))
      && (r.Work? ==> !CyclicIn(g, Ids(ids)) && AllReached(g, ids[0], Ids(ids)) && Longest(g, Ids(ids), costs, ids[0], r.work))
  {
    hide Counted, Readied, Ordered, Reached, AllRelaxed, Relaxed, Greatest, Confined, CyclicIn, AllReached, Longest, Walking, Tallied;
    hide PathCosting, Reaches, Ids, Exceeding, Exhaustive, Countable, Paced, AllDistinct;
    var indegree := new nat[|g|](_ => 0);
    var distance := new Option<nat>[|g|](_ => None);
    var ok := CountIndegrees(g, owner, pc, ids, indegree);
    if !ok {
      return BadBlock;
    }
    ghost var exact := Exact(g, owner, pc, ids);
    OwnedInRange(g, owner, pc, ids);
    var ready := InitialReady(ids, indegree);
    var entry := ids[0];
    distance[entry] := Some(costs[entry]);
    if exact {
      OwnedConfined(g, owner, pc, ids);
      assert entry in ids;
      Begin(g, Ids(ids), costs, entry, indegree[..], distance[..], ready);
    }
    PacedStart(indegree[..], ready);
    var overflow, work;
    overflow, ready, work := Traverse(g, Ids(ids), costs, entry, indegree, distance, ready, exact);
    if overflow {
      return Overflow;
    }
    if exact { Finish(g, ids, costs, entry, indegree[..], distance[..], ready, work); }
    if |ready| != |ids| {
      return Cyclic;
    }
    for i := 0 to |ids|
      invariant forall j :: 0 <= j < i ==> distance[ids[j]].Some?
    {
      if distance[ids[i]].None? {
        if exact {
          NoDistanceUnreached(g, Ids(ids), costs, entry, distance[..], ids[i]);
          NotAllReached(g, ids, entry, i);
        }
        return Unreachable;
      }
    }
    if exact {
      AllHaveDistances(ids, distance[..]);
      WorkIsLongest(g, Ids(ids), costs, entry, distance[..], work);
    }
    return Work(work);
  }

  lemma {:induction false} OwnedInRange(g: Graph, owner: seq<nat>, pc: nat, ids: seq<nat>)
    requires |owner| == |g| && AllOwned(g, owner, pc, ids)
    ensures forall i :: 0 <= i < |ids| ==> ids[i] < |g|
  {
  }

  lemma {:induction false} NotAllReached(g: Graph, ids: seq<nat>, entry: nat, i: nat)
    requires i < |ids| && !Reaches(g, entry, ids[i])
    ensures !AllReached(g, entry, Ids(ids))
  {
    FirstsMembers(ids, |ids|, ids[i]);
  }

  lemma {:induction false} AllHaveDistances(ids: seq<nat>, distance: seq<Option<nat>>)
    requires forall i :: 0 <= i < |ids| ==> ids[i] < |distance| && distance[ids[i]].Some?
    ensures forall v :: v in Ids(ids) ==> v < |distance| && distance[v].Some?
  {
    forall v | v in Ids(ids) ensures v < |distance| && distance[v].Some? { FirstsMembers(ids, |ids|, v); }
  }

  /** Either everything was processed, or what is left over hides a cycle. */
  lemma {:induction false} Finish(g: Graph, ids: seq<nat>, costs: seq<nat>, entry: nat,
               indegree: seq<nat>, distance: seq<Option<nat>>, ready: seq<nat>, work: nat)
    requires AllDistinct(ids) && Confined(g, Ids(ids))
    requires Walking(g, Ids(ids), costs, entry, indegree, distance, ready, |ready|, work)
    ensures |distance| == |g| == |costs|
    ensures |ready| != |ids| ==> CyclicIn(g, Ids(ids))
    ensures |ready| == |ids| ==>
      && !CyclicIn(g, Ids(ids)) && Reached(g, Ids(ids), costs, entry, distance)
      && AllRelaxed(g, costs, distance, Ids(ids)) && Greatest(distance, Ids(ids), work)
  {
    hide Counted, Ordered, Relaxed, Greatest, Confined, CyclicIn;
    ReadyFacts(Ids(ids), indegree, ready, |ready|);
    FirstsSize(ready, |ready|);
    FirstsSize(ids, |ids|);
    SubsetSize(Firsts(ready, |ready|), Ids(ids));
    if |ready| != |ids| {
      StuckMeansCyclic(g, Ids(ids), ready, indegree, entry);
    } else {
      OrderedAcyclic(g, Ids(ids), ready);
    }
  }

  lemma {:induction false} Begin(g: Graph, nodes: set<nat>, costs: seq<nat>, entry: nat,
              indegree: seq<nat>, distance: seq<Option<nat>>, ready: seq<nat>)
    requires |costs| == |g| == |distance| && entry in nodes && (forall v :: v in nodes ==> v < |g|)
    requires Tallied(g, nodes, [], 0, indegree) && Readied(nodes, indegree, ready)
    requires forall v :: 0 <= v < |g| ==> distance[v] == if v == entry then Some(costs[entry]) else None
    ensures Walking(g, nodes, costs, entry, indegree, distance, ready, 0, 0)
  {
    StartOrdered(g, nodes, indegree, ready);
    forall v | 0 <= v < |g| ensures indegree[v] + In(g, {}, v) + CountUpto(g[entry], v, 0) == In(g, nodes, v) {
      InNothing(g, v, |g|);
    }
    assert CostUpto(costs, [entry], 1) == CostUpto(costs, [entry], 0) + costs[entry];
    assert Leads(g, [entry], entry, entry) && PathCosting(g, costs, entry, entry, costs[entry]);
  }
}
