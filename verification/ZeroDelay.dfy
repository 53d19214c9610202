/** The zero-delay check: a depth-first search with three colours. */
module ZeroDelay {
  import opened Lists
  import opened Wrappers
  import opened Graphs

  datatype Frame = Frame(node: nat, next: nat)

  const WHITE := 0
  const ACTIVE := 1
  const DONE := 2

  function Top(stack: seq<Frame>): Frame
    requires stack != []
  {
    stack[|stack| - 1]
  }

  /** The stack after its top frame has moved on to the next successor. */
  function Advanced(stack: seq<Frame>): (r: seq<Frame>)
    requires stack != []
    ensures |r| == |stack|
  {
    stack[|stack| - 1 := Top(stack).(next := Top(stack).next + 1)]
  }

  function Nodes(stack: seq<Frame>): (r: seq<nat>)
    ensures |r| == |stack| && forall i :: 0 <= i < |stack| ==> r[i] == stack[i].node
  {
    seq(|stack|, i requires 0 <= i < |stack| => stack[i].node)
  }

  ghost predicate InRange(g: Graph, stack: seq<Frame>) {
    forall i :: 0 <= i < |stack| ==> stack[i].node < |g| && stack[i].next <= |g[stack[i].node]|
  }

  /** Arrays and stack agree: the active nodes are the stack, in order, without repetition. */
  ghost predicate Agrees(color: seq<int>, position: seq<int>, stack: seq<nat>) {
    && |color| == |position|
    && (forall u :: 0 <= u < |color| ==> color[u] == WHITE || color[u] == ACTIVE || color[u] == DONE)
    && (forall i :: 0 <= i < |stack| ==> stack[i] < |color| && color[stack[i]] == ACTIVE && position[stack[i]] == i)
    && (forall u :: 0 <= u < |color| && color[u] == ACTIVE ==> u in stack)
  }

  /** Frame `i` has finished every successor it has passed, except one it is waiting for above it. */
  ghost predicate FrameOk(g: Graph, color: seq<int>, stack: seq<Frame>, i: nat)
    requires WellFormed(g) && |color| == |g| && InRange(g, stack) && i < |stack|
  {
    var f := stack[i];
    if i == |stack| - 1 then
      forall k :: 0 <= k < f.next ==> color[g[f.node][k]] == DONE
    else
      && f.next > 0 && g[f.node][f.next - 1] == stack[i + 1].node
      && forall k :: 0 <= k < f.next - 1 ==> color[g[f.node][k]] == DONE
  }

  ghost predicate Chained(g: Graph, color: seq<int>, stack: seq<Frame>)
    requires WellFormed(g) && |color| == |g| && InRange(g, stack)
  {
    forall i :: 0 <= i < |stack| ==> FrameOk(g, color, stack, i)
  }

  /** Finished nodes only lead to nodes that finished before them. */
  ghost predicate Settled(g: Graph, color: seq<int>, rank: seq<int>, clock: int)
    requires |color| == |g|
  {
    && |rank| == |g|
    && (forall u :: 0 <= u < |g| && color[u] == DONE ==> rank[u] < clock)
    && (forall u, v :: Edge(g, u, v) && color[u] == DONE ==> 0 <= v < |g| && color[v] == DONE && rank[v] < rank[u])
  }

  ghost predicate Searching(g: Graph, color: seq<int>, position: seq<int>, stack: seq<Frame>, rank: seq<int>, clock: int) {
    && WellFormed(g) && |color| == |g| && InRange(g, stack)
    && Agrees(color, position, Nodes(stack)) && Chained(g, color, stack) && Settled(g, color, rank, clock)
  }

  ghost function Whites(color: seq<int>): set<nat> {
    set u | 0 <= u < |color| && color[u] == WHITE
  }

  lemma {:induction false} AgreesPush(color: seq<int>, position: seq<int>, stack: seq<nat>, v: nat)
    requires Agrees(color, position, stack) && v < |color| && color[v] == WHITE
    ensures Agrees(color[v := ACTIVE], position[v := |stack|], stack + [v])
    ensures Whites(color[v := ACTIVE]) < Whites(color)
  {
    assert v in Whites(color) && v !in Whites(color[v := ACTIVE]);
    assert Whites(color[v := ACTIVE]) <= Whites(color);
  }

  lemma {:induction false} AgreesPop(color: seq<int>, position: seq<int>, stack: seq<nat>)
    requires Agrees(color, position, stack) && stack != []
    ensures var u := stack[|stack| - 1];
      && Agrees(color[u := DONE], position[u := -1], stack[..|stack| - 1])
      && Whites(color[u := DONE]) == Whites(color)
  {
    var u := stack[|stack| - 1];
    var done := color[u := DONE];
    forall w | 0 <= w < |done| && done[w] == ACTIVE ensures w in stack[..|stack| - 1] {
      assert w in stack;
    }
    assert forall w :: w in Whites(color[u := DONE]) <==> w in Whites(color);
  }

  /** Whether the top frame may advance over the successor it points at. */
  ghost predicate Points(g: Graph, stack: seq<Frame>, v: nat)
    requires InRange(g, stack)
  {
    stack != [] && Top(stack).next < |g[Top(stack).node]| && g[Top(stack).node][Top(stack).next] == v
  }

  lemma {:induction false} ChainedAdvance(g: Graph, color: seq<int>, stack: seq<Frame>, v: nat)
    requires WellFormed(g) && |color| == |g| && InRange(g, stack) && Chained(g, color, stack)
    requires v < |g| && Points(g, stack, v) && color[v] == DONE
    ensures InRange(g, Advanced(stack)) && Chained(g, color, Advanced(stack))
  {
    forall i | 0 <= i < |stack| ensures FrameOk(g, color, Advanced(stack), i) {
      assert FrameOk(g, color, stack, i);
    }
  }

  lemma {:induction false} ChainedPush(g: Graph, color: seq<int>, stack: seq<Frame>, v: nat)
    requires WellFormed(g) && |color| == |g| && InRange(g, stack) && Chained(g, color, stack)
    requires v < |g| && color[v] == WHITE && (stack == [] || Points(g, stack, v))
    ensures var s := (if stack == [] then [] else Advanced(stack)) + [Frame(v, 0)];
      InRange(g, s) && Chained(g, color[v := ACTIVE], s)
  {
    hide FrameOk, Points;
    var s := (if stack == [] then [] else Advanced(stack)) + [Frame(v, 0)];
    PushInRange(g, stack, v);
    var entered := color[v := ACTIVE];
    forall i | 0 <= i < |s| ensures FrameOk(g, entered, s, i) {
      if i < |stack| { assert FrameOk(g, color, stack, i); }
      FramePush(g, color, stack, v, i);
    }
  }

  lemma {:induction false} PushInRange(g: Graph, stack: seq<Frame>, v: nat)
    requires InRange(g, stack) && v < |g| && (stack == [] || Points(g, stack, v))
    ensures InRange(g, (if stack == [] then [] else Advanced(stack)) + [Frame(v, 0)])
  {
  }

  lemma {:induction false} FramePush(g: Graph, color: seq<int>, stack: seq<Frame>, v: nat, i: nat)
    requires WellFormed(g) && |color| == |g| && InRange(g, stack) && i <= |stack|
    requires v < |g| && color[v] == WHITE && (stack == [] || Points(g, stack, v))
    requires i < |stack| ==> FrameOk(g, color, stack, i)
    ensures var s := (if stack == [] then [] else Advanced(stack)) + [Frame(v, 0)];
      InRange(g, s) && FrameOk(g, color[v := ACTIVE], s, i)
  {
    PushInRange(g, stack, v);
    var s := (if stack == [] then [] else Advanced(stack)) + [Frame(v, 0)];
    if i < |stack| - 1 {
      assert s[i] == stack[i] && s[i + 1].node == stack[i + 1].node;
    } else if i == |stack| - 1 {
      assert s[i] == Top(stack).(next := Top(stack).next + 1) && s[i + 1] == Frame(v, 0);
    }
  }

  lemma {:induction false} ChainedPop(g: Graph, color: seq<int>, stack: seq<Frame>)
    requires WellFormed(g) && |color| == |g| && InRange(g, stack) && Chained(g, color, stack)
    requires stack != []
    ensures InRange(g, stack[..|stack| - 1]) && Chained(g, color[Top(stack).node := DONE], stack[..|stack| - 1])
  {
    var done, rest := color[Top(stack).node := DONE], stack[..|stack| - 1];
    forall i | 0 <= i < |rest| ensures FrameOk(g, done, rest, i) {
      assert FrameOk(g, color, stack, i);
    }
  }

  lemma {:induction false} SettledPop(g: Graph, color: seq<int>, stack: seq<Frame>, rank: seq<int>, clock: int)
    requires WellFormed(g) && |color| == |g| && InRange(g, stack) && Chained(g, color, stack)
    requires Settled(g, color, rank, clock) && stack != [] && color[Top(stack).node] == ACTIVE
    requires Top(stack).next == |g[Top(stack).node]|
    ensures Settled(g, color[Top(stack).node := DONE], rank[Top(stack).node := clock], clock + 1)
  {
    var top := Top(stack).node;
    var color', rank' := color[top := DONE], rank[top := clock];
    assert FrameOk(g, color, stack, |stack| - 1);
    forall u, v | Edge(g, u, v) && color'[u] == DONE
      ensures 0 <= v < |g| && color'[v] == DONE && rank'[v] < rank'[u]
    {
      if u == top {
        var k :| 0 <= k < |g[top]| && g[top][k] == v;
        assert color[g[top][k]] == DONE;
      }
    }
  }

  /** Pushing a fresh node, as the root of a search or as the successor the top frame points at. */
  lemma {:induction false} PushKeeps(g: Graph, color: seq<int>, position: seq<int>, stack: seq<Frame>, rank: seq<int>, clock: int, v: nat)
    requires Searching(g, color, position, stack, rank, clock) && v < |g| && color[v] == WHITE
    requires stack == [] || Points(g, stack, v)
    ensures var s := (if stack == [] then [] else Advanced(stack)) + [Frame(v, 0)];
      Searching(g, color[v := ACTIVE], position[v := |stack|], s, rank, clock)
    ensures Whites(color[v := ACTIVE]) < Whites(color)
  {
    hide Agrees, Chained, FrameOk;
    AgreesPush(color, position, Nodes(stack), v);
    ChainedPush(g, color, stack, v);
    var s := (if stack == [] then [] else Advanced(stack)) + [Frame(v, 0)];
    assert Nodes(s) == Nodes(stack) + [v];
  }

  lemma {:induction false} SkipKeeps(g: Graph, color: seq<int>, position: seq<int>, stack: seq<Frame>, rank: seq<int>, clock: int, v: nat)
    requires Searching(g, color, position, stack, rank, clock) && v < |g| && Points(g, stack, v)
    requires color[v] != WHITE && color[v] != ACTIVE
    ensures Searching(g, color, position, Advanced(stack), rank, clock)
  {
    hide Chained, FrameOk;
    ChainedAdvance(g, color, stack, v);
    assert Nodes(Advanced(stack)) == Nodes(stack);
  }

  /** Popping a frame that has seen all its successors finishes its node. */
  lemma {:induction false} PopKeeps(g: Graph, color: seq<int>, position: seq<int>, stack: seq<Frame>, rank: seq<int>, clock: int)
    requires Searching(g, color, position, stack, rank, clock) && stack != []
    requires Top(stack).next == |g[Top(stack).node]|
    ensures var u := Top(stack).node;
      && Searching(g, color[u := DONE], position[u := -1], stack[..|stack| - 1], rank[u := clock], clock + 1)
      && Whites(color[u := DONE]) == Whites(color)
  {
    hide Chained, FrameOk;
    AgreesPop(color, position, Nodes(stack));
    ChainedPop(g, color, stack);
    assert color[Nodes(stack)[|stack| - 1]] == ACTIVE;
    SettledPop(g, color, stack, rank, clock);
    assert Nodes(stack[..|stack| - 1]) == Nodes(stack)[..|stack| - 1];
  }

  /** Along the stack each node has an edge to the next. */
  lemma {:induction false} StackEdges(g: Graph, color: seq<int>, stack: seq<Frame>, i: nat)
    requires WellFormed(g) && |color| == |g| && InRange(g, stack) && Chained(g, color, stack)
    requires i + 1 < |stack|
    ensures Edge(g, stack[i].node, stack[i + 1].node)
  {
    assert FrameOk(g, color, stack, i);
    assert g[stack[i].node][stack[i].next - 1] == stack[i + 1].node;
  }

  /** An edge back to an active node closes a simple cycle along the stack. */
  lemma {:induction false} BackEdge(g: Graph, color: seq<int>, position: seq<int>, stack: seq<Frame>, rank: seq<int>, clock: int, v: nat)
    requires Searching(g, color, position, stack, rank, clock) && v < |g| && Points(g, stack, v) && color[v] == ACTIVE
    ensures 0 <= position[v] < |stack|
    ensures IsCycle(g, Nodes(stack[position[v]..]) + [v]) && AllDistinct(Nodes(stack[position[v]..]))
  {
    hide Chained, FrameOk, Settled;
    assert v in Nodes(stack);
    var i := position[v];
    var p := Nodes(stack[i..]) + [v];
    forall k | 0 <= k < |p| - 1 ensures Edge(g, p[k], p[k + 1]) {
      if k < |p| - 2 {
        StackEdges(g, color, stack, i + k);
      }
    }
    forall a, b | 0 <= a < b < |stack| - i ensures Nodes(stack[i..])[a] != Nodes(stack[i..])[b] {
      assert position[Nodes(stack)[i + a]] == i + a && position[Nodes(stack)[i + b]] == i + b;
    }
  }

  lemma {:induction false} AllDone(g: Graph, color: seq<int>, position: seq<int>, rank: seq<int>, clock: int)
    requires Searching(g, color, position, [], rank, clock)
    requires forall u :: 0 <= u < |g| ==> color[u] != WHITE
    ensures Acyclic(g)
  {
    forall u | 0 <= u < |g| ensures color[u] == DONE {
      assert color[u] == ACTIVE ==> u in Nodes([]);
    }
    DescendsAcyclic(g, rank);
  }

  lemma {:induction false} StartsSearching(g: Graph, color: seq<int>, position: seq<int>, rank: seq<int>)
    requires WellFormed(g) && |color| == |position| == |rank| == |g|
    requires forall u :: 0 <= u < |g| ==> color[u] == WHITE
    ensures Searching(g, color, position, [], rank, 0)
  {
  }

  /** Succeeds exactly on acyclic graphs; otherwise reports a simple cycle, first node repeated last. */
  method FindCycle(edges: Graph) returns (cycle: Option<seq<nat>>)
    requires WellFormed(edges)
    ensures cycle.None? <==> Acyclic(edges)
    ensures cycle.Some? ==> IsCycle(edges, cycle.value) && AllDistinct(cycle.value[..|cycle.value| - 1])
  {
    hide Agrees, Chained, Settled, FrameOk;
    var n := |edges|;
    var color := new int[n](_ => WHITE);
    var activePosition := new int[n](_ => -1);
    var stack: seq<Frame> := [];
    ghost var rank, clock := seq(n, _ => 0), 0;
    StartsSearching(edges, color[..], activePosition[..], rank);
    for start := 0 to n
      invariant stack == [] && |rank| == n
      invariant Searching(edges, color[..], activePosition[..], stack, rank, clock)
      invariant forall u :: 0 <= u < start ==> color[u] != WHITE
    {
      if color[start] != WHITE {
        continue;
      }
      PushKeeps(edges, color[..], activePosition[..], stack, rank, clock, start);
      ghost var c, q := color[..], activePosition[..];
      color[start] := ACTIVE;
      activePosition[start] := 0;
      stack := stack + [Frame(start, 0)];
      assert color[..] == c[start := ACTIVE] && activePosition[..] == q[start := 0];
      while stack != []
        invariant Searching(edges, color[..], activePosition[..], stack, rank, clock) && |rank| == n
        invariant forall u :: 0 <= u <= start ==> color[u] != WHITE
        decreases Whites(color[..]), |stack|, if stack == [] then 0 else |edges[Top(stack).node]| - Top(stack).next
      {
        var frame := Top(stack);
        ghost var c, q := color[..], activePosition[..];
        if frame.next == |edges[frame.node]| {
          PopKeeps(edges, color[..], activePosition[..], stack, rank, clock);
          color[frame.node] := DONE;
          activePosition[frame.node] := -1;
          stack := stack[..|stack| - 1];
          rank, clock := rank[frame.node := clock], clock + 1;
          assert color[..] == c[frame.node := DONE] && activePosition[..] == q[frame.node := -1];
          continue;
        }
        var successor := edges[frame.node][frame.next];
        if color[successor] == WHITE {
          PushKeeps(edges, color[..], activePosition[..], stack, rank, clock, successor);
          stack := Advanced(stack);
          color[successor] := ACTIVE;
          activePosition[successor] := |stack|;
          assert color[..] == c[successor := ACTIVE] && activePosition[..] == q[successor := |stack|];
          stack := stack + [Frame(successor, 0)];
          continue;
        }
        if color[successor] != ACTIVE {
          SkipKeeps(edges, color[..], activePosition[..], stack, rank, clock, successor);
          stack := Advanced(stack);
          continue;
        }
        BackEdge(edges, color[..], activePosition[..], stack, rank, clock, successor);
        var report := Nodes(stack[activePosition[successor]..]) + [successor];
        assert report[..|report| - 1] == Nodes(stack[activePosition[successor]..]);
        return Some(report);
      }
    }
    AllDone(edges, color[..], activePosition[..], rank, clock);
    return None;
  }
}
