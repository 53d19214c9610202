/** The verifier's own traversal of one PC's blocks. */
module VerifierWork {
  import opened Core
  import opened Lists
  import opened Wrappers
  import opened Graphs
  import opened WeightedPaths
  import opened Countdown
  import opened LocalWork

  /** What the verifier accepts: a closed, acyclic, wholly reachable block graph on which no path
      from the entry costs more than 64 bits hold. */
  ghost predicate Acceptable(g: Graph, owner: seq<nat>, costs: seq<nat>, pc: nat, ids: seq<nat>)
    requires |owner| == |g| && ids != []
  {
    && AllOwned(g, owner, pc, ids) && !CyclicIn(g, Ids(ids)) && AllReached(g, ids[0], Ids(ids))
    && !Exceeding(g, costs, ids[0])
  }

  /** Successors of other PCs are noted and skipped, not refused. */
  method CountOwn(g: Graph, owner: seq<nat>, pc: nat, ids: seq<nat>, indegree: array<nat>) returns (invalid: bool)
    requires |owner| == |g| == indegree.Length && WellFormed(g) && AtMostTwo(g) && AllDistinct(ids)
    requires forall i :: 0 <= i < |ids| ==> Owned(owner, pc, ids[i])
    requires forall b :: 0 <= b < |g| ==> indegree[b] == 0
    modifies indegree
    ensures Narrow(indegree[..])
    ensures invalid <==> !AllOwned(g, owner, pc, ids)
    ensures !invalid && Countable(g) ==> Tallied(g, Ids(ids), [], 0, indegree[..])
  {
    hide Tallied, Countable, In;
    TallyNothing(g, indegree[..]);
    invalid := false;
    for i := 0 to |ids|
      invariant Narrow(indegree[..])
      invariant invalid <==> exists j :: 0 <= j < i && !OwnedRow(g, owner, pc, ids[j], |g[ids[j]]|)
      invariant !invalid && Countable(g) ==> Tallied(g, Firsts(ids, i), [], 0, indegree[..])
    {
      var id := ids[i];
      ghost var before := invalid;
      FirstsMembers(ids, i, id);
      if !invalid && Countable(g) { TallyStart(g, Firsts(ids, i), id, indegree[..]); }
      for k := 0 to |g[id]|
        invariant Narrow(indegree[..])
        invariant invalid <==> before || !OwnedRow(g, owner, pc, id, k)
        invariant !invalid && Countable(g) ==> Tallied(g, Firsts(ids, i), g[id], k, indegree[..])
      {
        var successor := g[id][k];
        if owner[successor] != pc {
          invalid := true;
        } else {
          if !invalid && Countable(g) { TallyStep(g, Firsts(ids, i), id, k, indegree[..]); }
          ghost var counts := indegree[..];
          indegree[successor] := Up(indegree[successor]);
          assert indegree[..] == counts[successor := Up(counts[successor])];
        }
      }
      if !invalid && Countable(g) { TallyRow(g, Firsts(ids, i), id, indegree[..]); }
    }
  }

  /** The cursor loop. An overflow is noted, and that edge not relaxed; counters of blocks outside the
      PC wrap; the loop goes on either way, and ends. */
  method Traverse(g: Graph, ghost nodes: set<nat>, costs: seq<nat>, entry: nat,
                  indegree: array<nat>, distance: array<Option<nat>>, ready0: seq<nat>, invalid0: bool)
    returns (invalid: bool, ready: seq<nat>, work: nat)
    requires indegree != distance as object && indegree.Length == distance.Length == |g| == |costs|
    requires WellFormed(g) && AtMostTwo(g) && Paced(indegree[..], ready0, |ready0|, 0, 0) && Fits(distance[..])
    requires !invalid0 && Countable(g) ==>
      Confined(g, nodes) && Walking(g, nodes, costs, entry, indegree[..], distance[..], ready0, 0, 0)
    modifies indegree, distance
    ensures Fits(distance[..]) && work <= MAX_U64 && (invalid0 ==> invalid)
    ensures invalid && Countable(g) ==> invalid0 || Exceeding(g, costs, entry)
    ensures !invalid && Countable(g) ==>
      !invalid0 && Walking(g, nodes, costs, entry, indegree[..], distance[..], ready, |ready|, work)
  {
    hide Walking, Visiting, Paced, Exceeding, Countable;
    invalid, ready, work := invalid0, ready0, 0;
    var cursor := 0;
    PacedBounds(indegree[..], ready, |ready0|, 0);
    while cursor < |ready|
      invariant cursor <= |ready| <= 2 * (|g| + |ready0|)
      invariant Fits(distance[..]) && work <= MAX_U64 && (invalid0 ==> invalid)
      invariant Paced(indegree[..], ready, |ready0|, cursor, 0)
      invariant invalid && Countable(g) ==> invalid0 || Exceeding(g, costs, entry)
      invariant !invalid && Countable(g) ==>
        !invalid0 && Walking(g, nodes, costs, entry, indegree[..], distance[..], ready, cursor, work)
      decreases 2 * (|g| + |ready0|) - cursor
    {
      ReadyInRange(indegree[..], ready, |ready0|, cursor);
      var id := ready[cursor];
      if !invalid && Countable(g) { Visit(g, nodes, costs, entry, indegree[..], distance[..], ready, cursor, work); }
      if distance[id].Some? {
        work := Max(work, distance[id].value);
      }
      for k := 0 to |g[id]|
        invariant cursor < |ready| && ready[cursor] == id
        invariant Fits(distance[..]) && (invalid0 ==> invalid)
        invariant Paced(indegree[..], ready, |ready0|, cursor, k)
        invariant invalid && Countable(g) ==> invalid0 || Exceeding(g, costs, entry)
        invariant !invalid && Countable(g) ==>
          !invalid0 && Visiting(g, nodes, costs, entry, indegree[..], distance[..], ready, cursor, work, k)
      {
        var successor := g[id][k];
        ghost var i0, d0 := indegree[..], distance[..];
        PacedDown(i0, ready, |ready0|, cursor, k, successor);
        if !invalid && Countable(g) { FollowOrExceed(g, nodes, costs, entry, i0, d0, ready, cursor, work, k); }
        if distance[id].Some? {
          var cost := costs[successor];
          if distance[id].value + cost > MAX_U64 {
            invalid := true;
          } else {
            var candidate := distance[id].value + cost;
            if distance[successor].None? || candidate > distance[successor].value {
              distance[successor] := Some(candidate);
            }
          }
        }
        assert !invalid ==> distance[..] == RelaxedTo(costs, d0, id, successor);
        indegree[successor] := Down(indegree[successor]);
        assert indegree[..] == i0[successor := Down(i0[successor])];
        if indegree[successor] == 0 {
          ready := ready + [successor];
        }
      }
      PacedNext(indegree[..], ready, |ready0|, cursor, |g[id]|);
      if !invalid && Countable(g) { Leave(g, nodes, costs, entry, indegree[..], distance[..], ready, cursor, work); }
      cursor := cursor + 1;
      PacedBounds(indegree[..], ready, |ready0|, cursor);
    }
  }
  /** One PC: the work, or that something is wrong with its block graph, found out at the end. */
  method Recompute(g: Graph, owner: seq<nat>, costs: seq<nat>, pc: nat, ids: seq<nat>) returns (invalid: bool, work: nat)
    requires |owner| == |costs| == |g| && WellFormed(g) && AtMostTwo(g)
    requires ids != [] && AllDistinct(ids) && Exhaustive(owner, pc, ids)
    requires forall i :: 0 <= i < |ids| ==> Owned(owner, pc, ids[i])
    requires forall b :: 0 <= b < |costs| ==> costs[b] <= MAX_U64
    ensures Countable(g) ==> (invalid <==> !Acceptable(g, owner, costs, pc, ids))
    ensures Countable(g) && !invalid ==> Longest(g, Ids(ids), costs, ids[0], work)
    ensures work <= MAX_U64
  {
    hide Counted, Readied, Ordered, Reached, AllRelaxed, Relaxed, Greatest, Confined, CyclicIn, AllReached, Longest, Walking, Tallied;
    hide PathCosting, Reaches, Ids, Exceeding, Exhaustive, Countable, Paced, AllDistinct, AllOwned;
    var indegree := new nat[|g|](_ => 0);
    var distance := new Option<nat>[|g|](_ => None);
    invalid := CountOwn(g, owner, pc, ids, indegree);
    var ready := InitialReady(ids, indegree);
    var entry := ids[0];
    distance[entry] := Some(costs[entry]);
    if !invalid && Countable(g) {
      OwnedConfined(g, owner, pc, ids);
      assert entry in ids;
      Begin(g, Ids(ids), costs, entry, indegree[..], distance[..], ready);
    }
    PacedStart(indegree[..], ready);
    ghost var foreign := invalid;
    invalid, ready, work := Traverse(g, Ids(ids), costs, entry, indegree, distance, ready, invalid);
    ghost var last := distance[..];
    if !invalid && Countable(g) { Finish(g, ids, costs, entry, indegree[..], last, ready, work); }
    if |ready| != |ids| {
      invalid := true;
    }
    ghost var whole := !invalid && Countable(g);
    assert whole ==> Reached(g, Ids(ids), costs, entry, last) && AllRelaxed(g, costs, last, Ids(ids));
    for i := 0 to |ids|
      invariant distance[..] == last
      invariant invalid && whole ==> !AllReached(g, entry, Ids(ids))
      invariant Countable(g) && !whole ==> invalid && !Acceptable(g, owner, costs, pc, ids)
      invariant !invalid ==> !foreign && forall j :: 0 <= j < i ==> last[ids[j]].Some?
    {
      if distance[ids[i]].None? {
        if whole {
          NoDistanceUnreached(g, Ids(ids), costs, entry, last, ids[i]);
          NotAllReached(g, ids, entry, i);
        }
        invalid := true;
      }
    }
    if !invalid && Countable(g) {
      AllHaveDistances(ids, last);
      WorkIsLongest(g, Ids(ids), costs, entry, last, work);
      LongestNotExceeding(g, ids, costs, work);
    }
  }

  lemma {:induction false} LongestNotExceeding(g: Graph, ids: seq<nat>, costs: seq<nat>, work: nat)
    requires ids != [] && Longest(g, Ids(ids), costs, ids[0], work) && work <= MAX_U64
    ensures !Exceeding(g, costs, ids[0])
  {
    FirstsMembers(ids, |ids|, ids[0]);
  }
}
