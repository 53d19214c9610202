/** Block costs and process fairness: planner and verifier. */
module ProcessCost {
  import opened Core
  import opened Lists
  import opened Wrappers
  import opened Graphs
  import opened WeightedPaths
  import opened LocalWork
  import opened VerifierWork

  datatype ActionKind = Original | Constant | ForInitialize | ForCondition | ForIncrement | ScalarWrap | ScalarUnwrap
  datatype Emission = CopyScalar | Inline | Invoke | Wrap | Unwrap | ForwardOnly

  datatype Action = Action(kind: ActionKind, emission: Emission) {
    /** Whether the planner charges the action. */
    predicate Charged() {
      kind == ScalarWrap || kind == ScalarUnwrap || emission == CopyScalar || emission == Inline || emission == Invoke
      || kind == ForCondition || kind == ForIncrement
    }

    /** What the verifier expects the action to cost. */
    function Cost(): nat { if emission == ForwardOnly then 0 else 1 }

    /** The verifier's check that kind and emission fit together. */
    predicate ArmOk() {
      && (kind == ScalarWrap <==> emission == Wrap)
      && (kind == ScalarUnwrap <==> emission == Unwrap)
      && (kind == ForInitialize ==> emission == ForwardOnly)
      && (kind == ForCondition || kind == ForIncrement ==> emission == CopyScalar)
    }
  }

  datatype ControlEdge = Branch(onTrue: nat, onFalse: nat) | LocalContinue(target: nat) | Suspend(transition: nat) | Terminate {
    function Successors(): seq<nat> {
      match this
      case Branch(t, f) => [t, f]
      case LocalContinue(t) => [t]
      case Suspend(_) => []
      case Terminate => []
    }
  }

  datatype Block = Block(pc: nat, loads: nat, actions: seq<Action>, edge: ControlEdge)
  datatype Pc = Pc(id: nat, blocks: seq<nat>)

  /** A process's control plan; `stores[t]` is how many values transition `t` stores. */
  datatype Control = Control(pcs: seq<Pc>, blocks: seq<Block>, stores: seq<nat>, boundedLoops: bool, boundedWork: nat) {
    function Flow(): (g: Graph)
      ensures AtMostTwo(g)
      ensures |g| == |blocks| && forall b :: 0 <= b < |blocks| ==> g[b] == blocks[b].edge.Successors()
    {
      seq(|blocks|, b requires 0 <= b < |blocks| => blocks[b].edge.Successors())
    }

    function Owners(): (r: seq<nat>)
      ensures |r| == |blocks| && forall b :: 0 <= b < |blocks| ==> r[b] == blocks[b].pc
    {
      seq(|blocks|, b requires 0 <= b < |blocks| => blocks[b].pc)
    }

    ghost predicate TransitionsExist() {
      forall b :: 0 <= b < |blocks| && blocks[b].edge.Suspend? ==> blocks[b].edge.transition < |stores|
    }

    /** Branches and local continuations name blocks of the plan. */
    ghost predicate TargetsExist() { WellFormed(Flow()) }

    /** The builder lists every block under its PC, once, and there are few enough to count. */
    ghost predicate WellListed() {
      forall i :: 0 <= i < |pcs| ==> Exact(Flow(), Owners(), pcs[i].id, pcs[i].blocks)
    }
  }

  // ----- Block costs -----

  function ChargedUpto(actions: seq<Action>, k: nat): nat
    requires k <= |actions|
  {
    if k == 0 then 0 else ChargedUpto(actions, k - 1) + (if actions[k - 1].Charged() then 1 else 0)
  }

  function EdgeCost(edge: ControlEdge, stores: seq<nat>): nat {
    if edge.Suspend? then (if edge.transition < |stores| then stores[edge.transition] else 0) + 2 else 1
  }

  /** Entry loads, charged actions, and either the stores with the wake and the suspension or one branch. */
  function BlockCost(b: Block, stores: seq<nat>): (c: nat)
    ensures c >= 1
  {
    b.loads + ChargedUpto(b.actions, |b.actions|) + EdgeCost(b.edge, stores)
  }

  /** The kinds of action and how each may be emitted. */
  lemma {:induction false} ArmsTable(a: Action)
    ensures a.ArmOk() <==>
      match a.kind
      case ScalarWrap => a.emission == Wrap
      case ScalarUnwrap => a.emission == Unwrap
      case ForInitialize => a.emission == ForwardOnly
      case ForCondition => a.emission == CopyScalar
      case ForIncrement => a.emission == CopyScalar
      case Original => a.emission in {CopyScalar, Inline, Invoke, ForwardOnly}
      case Constant => a.emission in {CopyScalar, Inline, Invoke, ForwardOnly}
  {
  }

  /** The positions of the first `k` actions that generate code. */
  ghost function Generating(actions: seq<Action>, k: nat): set<nat>
    requires k <= |actions|
  {
    set a: nat | a < k && actions[a].emission != ForwardOnly
  }

  lemma {:induction false} ChargedGenerating(actions: seq<Action>, k: nat)
    requires k <= |actions| && forall a :: 0 <= a < k ==> actions[a].ArmOk()
    ensures ChargedUpto(actions, k) == |Generating(actions, k)|
  {
    if k > 0 {
      ChargedGenerating(actions, k - 1);
      var before := Generating(actions, k - 1);
      assert Generating(actions, k) == if actions[k - 1].emission != ForwardOnly then before + {k - 1} else before;
    }
  }

  /** What a block costs, from its parts: its entry loads, one for each action that generates code, and
      for its edge either one, or the stores of its transition with the wake and the suspension. */
  lemma {:induction false} BlockCostIs(b: Block, stores: seq<nat>)
    requires forall a :: 0 <= a < |b.actions| ==> b.actions[a].ArmOk()
    ensures !b.edge.Suspend? ==> BlockCost(b, stores) == b.loads + |Generating(b.actions, |b.actions|)| + 1
    ensures b.edge.Suspend? && b.edge.transition < |stores| ==>
      BlockCost(b, stores) == b.loads + |Generating(b.actions, |b.actions|)| + stores[b.edge.transition] + 2
  {
    ChargedGenerating(b.actions, |b.actions|);
  }

  /** A block that only yields costs two. */
  lemma {:induction false} YieldCosts(pc: nat, transition: nat, stores: seq<nat>)
    requires transition < |stores| && stores[transition] == 0
    ensures BlockCost(Block(pc, 0, [], Suspend(transition)), stores) == 2
  {
    assert ChargedUpto([], 0) == 0;
  }

  ghost predicate CostsOf(control: Control, costs: seq<nat>) {
    |costs| == |control.blocks| && forall b :: 0 <= b < |costs| ==> costs[b] == BlockCost(control.blocks[b], control.stores)
  }

  /** The contract cost of every block. */
  ghost function ContractCosts(control: Control): (costs: seq<nat>)
    ensures CostsOf(control, costs)
  {
    seq(|control.blocks|, b requires 0 <= b < |control.blocks| => BlockCost(control.blocks[b], control.stores))
  }

  method PlanBlockCosts(control: Control) returns (r: Option<seq<nat>>)
    ensures r.Some? <==> control.TransitionsExist()
    ensures r.Some? ==> CostsOf(control, r.value)
  {
    var costs := new nat[|control.blocks|];
    for b := 0 to |control.blocks|
      invariant forall j :: 0 <= j < b ==> costs[j] == BlockCost(control.blocks[j], control.stores)
      invariant forall j :: 0 <= j < b && control.blocks[j].edge.Suspend? ==> control.blocks[j].edge.transition < |control.stores|
    {
      var block := control.blocks[b];
      var cost := block.loads;
      for a := 0 to |block.actions|
        invariant cost == block.loads + ChargedUpto(block.actions, a)
      {
        if block.actions[a].Charged() {
          cost := cost + 1;
        }
      }
      if block.edge.Suspend? {
        if block.edge.transition >= |control.stores| {
          return None;
        }
        cost := cost + control.stores[block.edge.transition] + 2;
      } else {
        cost := cost + 1;
      }
      costs[b] := cost;
    }
    return Some(costs[..]);
  }

  // ----- Fairness -----

  /** A PC's block graph is closed, acyclic and wholly reachable from its first block. */
  ghost predicate PcSound(control: Control, pc: Pc) {
    && pc.blocks != [] && AllOwned(control.Flow(), control.Owners(), pc.id, pc.blocks)
    && !CyclicIn(control.Flow(), Ids(pc.blocks)) && AllReached(control.Flow(), pc.blocks[0], Ids(pc.blocks))
  }

  /** Every path inside the PC, from any of its blocks, costs at most `work`. */
  ghost predicate Within(control: Control, costs: seq<nat>, pc: Pc, work: nat) {
    forall p :: IsPath(control.Flow(), p) && p[0] in Ids(pc.blocks) ==> PathCost(costs, p) <= work
  }

  ghost predicate Attained(control: Control, costs: seq<nat>, pc: Pc, work: nat) {
    pc.blocks != [] && exists v :: PathCosting(control.Flow(), costs, pc.blocks[0], v, work)
  }

  /** `work` is the greatest path cost over the first `k` PCs. */
  ghost predicate MaxWork(control: Control, costs: seq<nat>, k: nat, work: nat)
    requires k <= |control.pcs|
  {
    && (forall i :: 0 <= i < k ==> Within(control, costs, control.pcs[i], work))
    && (if k == 0 then work == 0 else exists i :: 0 <= i < k && Attained(control, costs, control.pcs[i], work))
  }

  /** What a plan without bounded loops must satisfy, stated on paths alone. */
  ghost predicate Plannable(control: Control, costs: seq<nat>, limit: nat) {
    && control.TransitionsExist() && control.pcs != []
    && (forall i :: 0 <= i < |control.pcs| ==> PcSound(control, control.pcs[i]))
    && (forall i :: 0 <= i < |control.pcs| ==> Within(control, costs, control.pcs[i], limit))
  }

  datatype Plan = Plan(costs: seq<nat>, fairness: nat)

  lemma {:induction false} WithinMonotone(control: Control, costs: seq<nat>, pc: Pc, work: nat, more: nat)
    requires Within(control, costs, pc, work) && work <= more
    ensures Within(control, costs, pc, more)
  {
  }

  lemma {:induction false} MaxWorkExtends(control: Control, costs: seq<nat>, k: nat, before: nat, work: nat)
    requires k < |control.pcs| && MaxWork(control, costs, k, before) && control.pcs[k].blocks != []
    requires Longest(control.Flow(), Ids(control.pcs[k].blocks), costs, control.pcs[k].blocks[0], work)
    ensures MaxWork(control, costs, k + 1, Max(before, work))
  {
    hide Within, Attained, PathCosting, PathCost;
    var m := Max(before, work);
    LongestParts(control, costs, control.pcs[k], work);
    forall i | 0 <= i < k + 1 ensures Within(control, costs, control.pcs[i], m) {
      WithinMonotone(control, costs, control.pcs[i], if i == k then work else before, m);
    }
    if m == work {
      assert Attained(control, costs, control.pcs[k], m);
    } else {
      var i :| 0 <= i < k && Attained(control, costs, control.pcs[i], before);
      assert Attained(control, costs, control.pcs[i], m);
    }
  }

  lemma {:induction false} LongestParts(control: Control, costs: seq<nat>, pc: Pc, work: nat)
    requires pc.blocks != [] && Longest(control.Flow(), Ids(pc.blocks), costs, pc.blocks[0], work)
    ensures Within(control, costs, pc, work) && Attained(control, costs, pc, work)
  {
  }

  /** A path too expensive for 64 bits is too expensive for any 64-bit limit. */
  lemma {:induction false} OverflowExceeds(control: Control, costs: seq<nat>, pc: Pc, limit: nat)
    requires limit <= MAX_U64 && pc.blocks != [] && Exceeding(control.Flow(), costs, pc.blocks[0])
    ensures !Within(control, costs, pc, limit)
  {
    var v, c :| c > MAX_U64 && PathCosting(control.Flow(), costs, pc.blocks[0], v, c);
    var p :| Leads(control.Flow(), p, pc.blocks[0], v) && PathCost(costs, p) == c;
    FirstsMembers(pc.blocks, |pc.blocks|, pc.blocks[0]);
  }

  lemma {:induction false} AttainedExceeds(control: Control, costs: seq<nat>, k: nat, work: nat, limit: nat)
    requires k <= |control.pcs| && MaxWork(control, costs, k, work) && work > limit
    ensures exists i :: 0 <= i < k && !Within(control, costs, control.pcs[i], limit)
  {
    var i :| 0 <= i < k && Attained(control, costs, control.pcs[i], work);
    var pc := control.pcs[i];
    var v :| PathCosting(control.Flow(), costs, pc.blocks[0], v, work);
    var p :| Leads(control.Flow(), p, pc.blocks[0], v) && PathCost(costs, p) == work;
    FirstsMembers(pc.blocks, |pc.blocks|, pc.blocks[0]);
    assert !Within(control, costs, pc, limit);
  }

  lemma {:induction false} WorkPositive(control: Control, costs: seq<nat>, k: nat, work: nat)
    requires 0 < k <= |control.pcs| && MaxWork(control, costs, k, work) && CostsOf(control, costs)
    requires PcSound(control, control.pcs[0])
    ensures work > 0
  {
    var entry := control.pcs[0].blocks[0];
    assert Owned(control.Owners(), control.pcs[0].id, entry);
    FirstsMembers(control.pcs[0].blocks, |control.pcs[0].blocks|, entry);
    assert IsPath(control.Flow(), [entry]);
    assert CostUpto(costs, [entry], 1) == CostUpto(costs, [entry], 0) + costs[entry];
    assert PathCost(costs, [entry]) >= 1;
  }

  /** One PC's contribution: its longest path, or the declared bound when its loops are bounded. */
  ghost predicate Bounded(control: Control, costs: seq<nat>, pc: Pc, fairness: nat) {
    if control.boundedLoops && pc.blocks != [] && CyclicIn(control.Flow(), Ids(pc.blocks))
    then 0 < control.boundedWork <= fairness
    else PcSound(control, pc) && Within(control, costs, pc, fairness)
  }

  /** What one PC contributes: the cost of a path from its entry, or the declared bound likewise. */
  ghost predicate Gives(control: Control, costs: seq<nat>, pc: Pc, work: nat) {
    if control.boundedLoops && pc.blocks != [] && CyclicIn(control.Flow(), Ids(pc.blocks))
    then work == control.boundedWork
    else Attained(control, costs, pc, work)
  }

  /** One of the first `k` PCs contributes all of it. */
  ghost predicate GivenBefore(control: Control, costs: seq<nat>, k: nat, fairness: nat)
    requires k <= |control.pcs|
  {
    fairness == 0 || exists i :: 0 <= i < k && Gives(control, costs, control.pcs[i], fairness)
  }

  lemma {:induction false} GivenNext(control: Control, costs: seq<nat>, k: nat, before: nat, work: nat)
    requires k < |control.pcs| && GivenBefore(control, costs, k, before) && Gives(control, costs, control.pcs[k], work)
    ensures GivenBefore(control, costs, k + 1, Max(before, work))
  {
    hide Gives;
  }

  lemma {:induction false} BoundedMonotone(control: Control, costs: seq<nat>, pc: Pc, f: nat, g: nat)
    requires Bounded(control, costs, pc, f) && f <= g
    ensures Bounded(control, costs, pc, g)
  {
    if !(control.boundedLoops && pc.blocks != [] && CyclicIn(control.Flow(), Ids(pc.blocks))) {
      WithinMonotone(control, costs, pc, f, g);
    }
  }

  /** Succeeds on a plan without bounded loops exactly when every PC is sound and within the limit.
      The verdict is exact for the listings the builder makes. */
  method PlanProcessCost(control: Control, limit: nat) returns (r: Option<Plan>)
    requires control.TargetsExist() && limit <= MAX_U64
    ensures control.WellListed() && !control.boundedLoops ==> (r.Some? <==> Plannable(control, ContractCosts(control), limit))
    ensures r.Some? ==> r.value.costs == ContractCosts(control) && 0 < r.value.fairness <= limit
    ensures control.WellListed() && r.Some? && !control.boundedLoops ==>
      MaxWork(control, ContractCosts(control), |control.pcs|, r.value.fairness)
    ensures control.WellListed() && r.Some? ==>
      forall i :: 0 <= i < |control.pcs| ==> Bounded(control, ContractCosts(control), control.pcs[i], r.value.fairness)
    ensures control.WellListed() && r.Some? ==>
      exists i :: 0 <= i < |control.pcs| && Gives(control, ContractCosts(control), control.pcs[i], r.value.fairness)
  {
    hide GivenBefore, CyclicIn, AllReached, Longest, Within, Attained, AllOwned, PathCosting, Ids, Control.TransitionsExist, CostsOf, ContractCosts;
    hide Exact, Exceeding, WellFormed;
    var planned := PlanBlockCosts(control);
    if planned.None? {
      return None;
    }
    ghost var costs, exact := planned.value, control.WellListed();
    CostsUnique(control, costs);
    var fairness: nat := 0;
    NothingGiven(control, costs);
    for i := 0 to |control.pcs|
      invariant exact ==> GivenBefore(control, costs, i, fairness)
      invariant exact && !control.boundedLoops ==> MaxWork(control, costs, i, fairness)
      invariant exact ==> forall j :: 0 <= j < i ==> Bounded(control, costs, control.pcs[j], fairness)
    {
      var pc := control.pcs[i];
      if pc.blocks == [] {
        return None;
      }
      ghost var before := fairness;
      var outcome := Compute(control.Flow(), control.Owners(), planned.value, pc.id, pc.blocks);
      if outcome.Overflow? {
        if exact { OverflowExceeds(control, costs, pc, limit); }
        return None;
      }
      if outcome.Cyclic? && control.boundedLoops {
        if control.boundedWork == 0 || control.boundedWork > limit {
          return None;
        }
        if exact { GivenNext(control, costs, i, before, control.boundedWork); }
        fairness := Max(fairness, control.boundedWork);
      } else if outcome.Work? {
        if exact {
          WorkBounds(control, costs, i, before, outcome.work);
          GivenNext(control, costs, i, before, outcome.work);
        }
        fairness := Max(fairness, outcome.work);
      } else {
        return None;
      }
      if exact { StillBounded(control, costs, i, before, fairness); }
    }
    if fairness == 0 {
      if exact && !control.boundedLoops && control.pcs != [] && PcSound(control, control.pcs[0]) {
        WorkPositive(control, costs, |control.pcs|, fairness);
      }
      return None;
    }
    if fairness > limit {
      if exact && !control.boundedLoops {
        AttainedExceeds(control, costs, |control.pcs|, fairness, limit);
      }
      return None;
    }
    if exact { GivenSome(control, costs, fairness); }
    if exact && !control.boundedLoops { BoundedPlannable(control, costs, fairness, limit); }
    return Some(Plan(planned.value, fairness));
  }

  lemma {:induction false} NothingGiven(control: Control, costs: seq<nat>)
    ensures GivenBefore(control, costs, 0, 0)
  {
  }

  lemma {:induction false} GivenSome(control: Control, costs: seq<nat>, fairness: nat)
    requires GivenBefore(control, costs, |control.pcs|, fairness) && fairness > 0
    ensures exists i :: 0 <= i < |control.pcs| && Gives(control, costs, control.pcs[i], fairness)
  {
    hide Gives;
  }

  /** The PC just searched, whose longest path costs `work`. */
  lemma {:induction false} WorkBounds(control: Control, costs: seq<nat>, i: nat, before: nat, work: nat)
    requires i < |control.pcs| && control.pcs[i].blocks != [] && PcSound(control, control.pcs[i])
    requires Longest(control.Flow(), Ids(control.pcs[i].blocks), costs, control.pcs[i].blocks[0], work)
    ensures MaxWork(control, costs, i, before) ==> MaxWork(control, costs, i + 1, Max(before, work))
    ensures Bounded(control, costs, control.pcs[i], Max(before, work)) && Gives(control, costs, control.pcs[i], work)
  {
    hide CyclicIn, AllReached, Longest, Within, Attained, AllOwned, PathCosting, Ids;
    LongestParts(control, costs, control.pcs[i], work);
    WithinMonotone(control, costs, control.pcs[i], work, Max(before, work));
    if MaxWork(control, costs, i, before) { MaxWorkExtends(control, costs, i, before, work); }
  }

  lemma {:induction false} StillBounded(control: Control, costs: seq<nat>, k: nat, before: nat, fairness: nat)
    requires k < |control.pcs| && before <= fairness
    requires forall j :: 0 <= j < k ==> Bounded(control, costs, control.pcs[j], before)
    ensures forall j :: 0 <= j < k ==> Bounded(control, costs, control.pcs[j], fairness)
  {
    forall j | 0 <= j < k ensures Bounded(control, costs, control.pcs[j], fairness) {
      BoundedMonotone(control, costs, control.pcs[j], before, fairness);
    }
  }

  lemma {:induction false} BoundedPlannable(control: Control, costs: seq<nat>, fairness: nat, limit: nat)
    requires !control.boundedLoops && fairness <= limit
    requires forall i :: 0 <= i < |control.pcs| ==> Bounded(control, costs, control.pcs[i], fairness)
    ensures forall i :: 0 <= i < |control.pcs| ==> PcSound(control, control.pcs[i]) && Within(control, costs, control.pcs[i], limit)
  {
    hide PcSound, Within;
    forall i | 0 <= i < |control.pcs|
      ensures PcSound(control, control.pcs[i]) && Within(control, costs, control.pcs[i], limit)
    {
      assert Bounded(control, costs, control.pcs[i], fairness);
      WithinMonotone(control, costs, control.pcs[i], fairness, limit);
    }
  }

  lemma {:induction false} CostsUnique(control: Control, costs: seq<nat>)
    requires CostsOf(control, costs)
    ensures costs == ContractCosts(control) && |costs| == |control.blocks|
  {
  }

  // ----- The verifier -----

  /** Dense PC ids, and block lists that are strictly increasing, owned, and cover every block. */
  ghost predicate Listed(control: Control) {
    && (forall i :: 0 <= i < |control.pcs| ==> control.pcs[i].id == i && RowListed(control, i, |control.pcs[i].blocks|))
    && (forall b :: 0 <= b < |control.blocks| ==> InRow(control, b))
  }

  ghost predicate RowListed(control: Control, i: nat, k: nat)
    requires i < |control.pcs| && k <= |control.pcs[i].blocks|
  {
    var row := control.pcs[i].blocks;
    && (forall j :: 0 <= j < k ==> row[j] < |control.blocks| && control.blocks[row[j]].pc == i)
    && (forall j, l :: 0 <= j < l < k ==> row[j] < row[l])
  }

  ghost predicate InRow(control: Control, b: nat)
    requires b < |control.blocks|
  {
    control.blocks[b].pc < |control.pcs| && b in control.pcs[control.blocks[b].pc].blocks
  }

  lemma {:induction false} ListedIsWellListed(control: Control)
    requires Listed(control)
    ensures forall i :: 0 <= i < |control.pcs| ==>
      && AllDistinct(control.pcs[i].blocks) && Exhaustive(control.Owners(), control.pcs[i].id, control.pcs[i].blocks)
      && forall j :: 0 <= j < |control.pcs[i].blocks| ==> Owned(control.Owners(), control.pcs[i].id, control.pcs[i].blocks[j])
    ensures Countable(control.Flow()) ==> control.WellListed()
  {
    forall i | 0 <= i < |control.pcs|
      ensures AllDistinct(control.pcs[i].blocks) && Exhaustive(control.Owners(), control.pcs[i].id, control.pcs[i].blocks)
      ensures forall j :: 0 <= j < |control.pcs[i].blocks| ==> Owned(control.Owners(), control.pcs[i].id, control.pcs[i].blocks[j])
    {
      assert RowListed(control, i, |control.pcs[i].blocks|);
      forall b | 0 <= b < |control.blocks| && control.Owners()[b] == control.pcs[i].id ensures b in control.pcs[i].blocks {
        assert InRow(control, b);
      }
    }
  }

  /** Which blocks the listing loop has marked: those of earlier rows, and the start of row `i`. */
  ghost predicate Marked(control: Control, marks: seq<bool>, i: nat, k: nat) {
    |marks| == |control.blocks| && forall b :: 0 <= b < |marks| ==>
      (marks[b] <==>
        ((control.blocks[b].pc < i && control.blocks[b].pc < |control.pcs| && b in control.pcs[control.blocks[b].pc].blocks)
          || (control.blocks[b].pc == i && i < |control.pcs| && k <= |control.pcs[i].blocks| && b in control.pcs[i].blocks[..k])))
  }

  lemma {:induction false} MarkOne(control: Control, marks: seq<bool>, i: nat, k: nat)
    requires i < |control.pcs| && k < |control.pcs[i].blocks| && Marked(control, marks, i, k) && RowListed(control, i, k)
    requires control.pcs[i].blocks[k] < |control.blocks| && control.blocks[control.pcs[i].blocks[k]].pc == i
    ensures Marked(control, marks[control.pcs[i].blocks[k] := true], i, k + 1)
  {
    var row := control.pcs[i].blocks;
    assert row[..k + 1] == row[..k] + [row[k]];
  }

  lemma {:induction false} MarkRow(control: Control, marks: seq<bool>, i: nat)
    requires i < |control.pcs| && Marked(control, marks, i, |control.pcs[i].blocks|)
    ensures Marked(control, marks, i + 1, 0)
  {
    assert control.pcs[i].blocks[..|control.pcs[i].blocks|] == control.pcs[i].blocks;
  }

  method CheckListing(control: Control) returns (ok: bool)
    ensures ok <==> Listed(control)
  {
    hide Marked, RowListed, InRow;
    var marks := new bool[|control.blocks|](_ => false);
    NothingMarked(control, marks[..]);
    for i := 0 to |control.pcs|
      invariant forall j :: 0 <= j < i ==> control.pcs[j].id == j
    {
      if control.pcs[i].id != i {
        return false;
      }
    }
    for i := 0 to |control.pcs|
      invariant forall j :: 0 <= j < i ==> RowListed(control, j, |control.pcs[j].blocks|)
      invariant Marked(control, marks[..], i, 0)
    {
      var row := control.pcs[i].blocks;
      EmptyRow(control, i);
      for k := 0 to |row|
        invariant RowListed(control, i, k) && Marked(control, marks[..], i, k)
      {
        var block := row[k];
        if block >= |control.blocks| || control.blocks[block].pc != i || marks[block] || (k > 0 && row[k - 1] >= block) {
          RowRefused(control, marks[..], i, k);
          return false;
        }
        MarkOne(control, marks[..], i, k);
        RowExtends(control, i, k);
        ghost var before := marks[..];
        marks[block] := true;
        assert marks[..] == before[block := true];
      }
      MarkRow(control, marks[..], i);
    }
    for b := 0 to |control.blocks|
      invariant Marked(control, marks[..], |control.pcs|, 0)
      invariant forall c :: 0 <= c < b ==> InRow(control, c)
    {
      MarkedAll(control, marks[..], b);
      if !marks[b] {
        return false;
      }
    }
    return true;
  }

  lemma {:induction false} NothingMarked(control: Control, marks: seq<bool>)
    requires |marks| == |control.blocks| && forall b :: 0 <= b < |marks| ==> !marks[b]
    ensures Marked(control, marks, 0, 0)
  {
  }

  lemma {:induction false} MarkedAll(control: Control, marks: seq<bool>, b: nat)
    requires Marked(control, marks, |control.pcs|, 0) && b < |control.blocks|
    ensures marks[b] <==> InRow(control, b)
  {
  }

  lemma {:induction false} EmptyRow(control: Control, i: nat)
    requires i < |control.pcs|
    ensures RowListed(control, i, 0)
  {
  }

  lemma {:induction false} RowExtends(control: Control, i: nat, k: nat)
    requires i < |control.pcs| && k < |control.pcs[i].blocks| && RowListed(control, i, k)
    requires var row := control.pcs[i].blocks;
      row[k] < |control.blocks| && control.blocks[row[k]].pc == i && (k == 0 || row[k - 1] < row[k])
    ensures RowListed(control, i, k + 1)
  {
  }

  lemma {:induction false} RowRefused(control: Control, marks: seq<bool>, i: nat, k: nat)
    requires i < |control.pcs| && k < |control.pcs[i].blocks| && Marked(control, marks, i, k)
    requires var row := control.pcs[i].blocks;
      row[k] >= |control.blocks| || control.blocks[row[k]].pc != i || marks[row[k]] || (k > 0 && row[k - 1] >= row[k])
    ensures !RowListed(control, i, |control.pcs[i].blocks|)
  {
    var row := control.pcs[i].blocks;
    if row[k] < |control.blocks| && control.blocks[row[k]].pc == i && marks[row[k]] {
      assert row[k] in row[..k];
      var j :| 0 <= j < k && row[..k][j] == row[k];
      assert row[j] == row[k];
    }
  }

  function ExpectedUpto(actions: seq<Action>, k: nat): nat
    requires k <= |actions|
  {
    if k == 0 then 0 else ExpectedUpto(actions, k - 1) + actions[k - 1].Cost()
  }

  ghost predicate ArmsOk(control: Control) {
    forall b, a :: 0 <= b < |control.blocks| && 0 <= a < |control.blocks[b].actions| ==> control.blocks[b].actions[a].ArmOk()
  }

  /** Under the arm check, the two charging rules agree action by action. */
  lemma {:induction false} ChargesAgree(actions: seq<Action>, k: nat)
    requires k <= |actions| && forall a :: 0 <= a < k ==> actions[a].ArmOk()
    ensures ExpectedUpto(actions, k) == ChargedUpto(actions, k)
  {
    if k > 0 { ChargesAgree(actions, k - 1); }
  }

  /** Arms, then recomputed costs, block by block. */
  method CheckBlockCosts(control: Control, costs: seq<nat>) returns (ok: bool)
    requires control.TransitionsExist() && |costs| == |control.blocks|
    ensures ok <==> ArmsOk(control) && CostsOf(control, costs)
  {
    for b := 0 to |control.blocks|
      invariant forall j, a :: 0 <= j < b && 0 <= a < |control.blocks[j].actions| ==> control.blocks[j].actions[a].ArmOk()
      invariant forall j :: 0 <= j < b ==> costs[j] == BlockCost(control.blocks[j], control.stores)
    {
      var block := control.blocks[b];
      var expected := block.loads;
      for a := 0 to |block.actions|
        invariant forall j :: 0 <= j < a ==> block.actions[j].ArmOk()
        invariant expected == block.loads + ExpectedUpto(block.actions, a)
      {
        if !block.actions[a].ArmOk() {
          return false;
        }
        expected := expected + block.actions[a].Cost();
      }
      ChargesAgree(block.actions, |block.actions|);
      if block.edge.Suspend? {
        expected := expected + control.stores[block.edge.transition] + 2;
      } else {
        expected := expected + 1;
      }
      if costs[b] != expected {
        return false;
      }
    }
    return true;
  }

  /** Everything the verifier establishes about a plan without bounded loops. */
  ghost predicate Verified(control: Control, plan: Plan, limit: nat) {
    && Listed(control) && ArmsOk(control) && CostsOf(control, plan.costs)
    && Plannable(control, plan.costs, limit) && MaxWork(control, plan.costs, |control.pcs|, plan.fairness)
  }

  lemma {:induction false} MaxWorkUnique(control: Control, costs: seq<nat>, k: nat, a: nat, b: nat)
    requires k <= |control.pcs| && MaxWork(control, costs, k, a) && MaxWork(control, costs, k, b)
    ensures a == b
  {
    MaxWorkAtMost(control, costs, k, a, b);
    MaxWorkAtMost(control, costs, k, b, a);
  }

  lemma {:induction false} MaxWorkAtMost(control: Control, costs: seq<nat>, k: nat, a: nat, b: nat)
    requires k <= |control.pcs| && MaxWork(control, costs, k, a) && MaxWork(control, costs, k, b)
    ensures a <= b
  {
    if a > b {
      AttainedExceeds(control, costs, k, a, b);
    }
  }

  /** Suspensions name transitions of the plan, and other edges name blocks of it. */
  method CheckReferences(control: Control) returns (ok: bool)
    ensures ok <==> control.TransitionsExist() && control.TargetsExist()
  {
    for b := 0 to |control.blocks|
      invariant forall j :: 0 <= j < b && control.blocks[j].edge.Suspend? ==> control.blocks[j].edge.transition < |control.stores|
      invariant forall j, k :: 0 <= j < b && 0 <= k < |control.Flow()[j]| ==> control.Flow()[j][k] < |control.blocks|
    {
      var edge := control.blocks[b].edge;
      assert control.Flow()[b] == edge.Successors();
      if edge.Suspend? && edge.transition >= |control.stores| {
        return false;
      }
      if edge.Branch? && (edge.onTrue >= |control.blocks| || edge.onFalse >= |control.blocks|) {
        assert edge.Successors()[0] == edge.onTrue && edge.Successors()[1] == edge.onFalse;
        return false;
      }
      if edge.LocalContinue? && edge.target >= |control.blocks| {
        assert edge.Successors()[0] == edge.target;
        return false;
      }
    }
    return true;
  }

  /** The verifier accepts a plan without bounded loops exactly when its references, costs and
      fairness are right. */
  method VerifyPlan(control: Control, plan: Plan, limit: nat) returns (ok: bool)
    requires |plan.costs| == |control.blocks| && !control.boundedLoops
    requires limit <= MAX_U64 && forall b :: 0 <= b < |plan.costs| ==> plan.costs[b] <= MAX_U64
    ensures Countable(control.Flow()) ==> (ok <==> Verified(control, plan, limit))
  {
    hide CyclicIn, AllReached, Longest, Within, Attained, AllOwned, PathCosting, Ids, Control.TransitionsExist, CostsOf;
    hide Listed, ArmsOk, WellFormed, Countable, Exceeding, Exhaustive, AllDistinct;
    var closed := CheckReferences(control);
    if !closed {
      if control.TransitionsExist() { NoTarget(control, plan, limit); }
      return false;
    }
    var listed := CheckListing(control);
    if !listed || control.pcs == [] {
      return false;
    }
    ListedIsWellListed(control);
    var costed := CheckBlockCosts(control, plan.costs);
    if !costed {
      return false;
    }
    ghost var countable := Countable(control.Flow());
    var expected: nat := 0;
    for i := 0 to |control.pcs|
      invariant countable ==> MaxWork(control, plan.costs, i, expected)
      invariant countable ==> forall j :: 0 <= j < i ==> PcSound(control, control.pcs[j])
    {
      var pc := control.pcs[i];
      if pc.blocks == [] {
        return false;
      }
      var invalid, work := Recompute(control.Flow(), control.Owners(), plan.costs, pc.id, pc.blocks);
      if invalid {
        if countable { NotAcceptable(control, plan.costs, pc, limit); }
        return false;
      }
      if countable { MaxWorkExtends(control, plan.costs, i, expected, work); }
      expected := Max(expected, work);
    }
    if countable { ExpectedDecides(control, plan, limit, expected); }
    return plan.fairness == expected && expected != 0 && plan.fairness <= limit;
  }

  /** A verified plan names no block that is not there: every block is listed, and the successors of
      listed blocks are owned. */
  lemma {:induction false} NoTarget(control: Control, plan: Plan, limit: nat)
    requires !control.TargetsExist()
    ensures !Verified(control, plan, limit)
  {
    if Verified(control, plan, limit) {
      forall u, k | 0 <= u < |control.Flow()| && 0 <= k < |control.Flow()[u]| ensures control.Flow()[u][k] < |control.Flow()| {
        assert InRow(control, u);
        var pc := control.pcs[control.blocks[u].pc];
        assert PcSound(control, pc);
        var i :| 0 <= i < |pc.blocks| && pc.blocks[i] == u;
        assert OwnedRow(control.Flow(), control.Owners(), pc.id, pc.blocks[i], |control.Flow()[pc.blocks[i]]|);
      }
    }
  }

  lemma {:induction false} NotAcceptable(control: Control, costs: seq<nat>, pc: Pc, limit: nat)
    requires limit <= MAX_U64 && pc.blocks != []
    requires !Acceptable(control.Flow(), control.Owners(), costs, pc.id, pc.blocks)
    ensures !PcSound(control, pc) || !Within(control, costs, pc, limit)
  {
    hide CyclicIn, AllReached, AllOwned, Exceeding, Within;
    if PcSound(control, pc) { OverflowExceeds(control, costs, pc, limit); }
  }

  /** The last comparisons: the recomputed work is the only right fairness. */
  lemma {:induction false} ExpectedDecides(control: Control, plan: Plan, limit: nat, expected: nat)
    requires Listed(control) && ArmsOk(control) && CostsOf(control, plan.costs) && control.TransitionsExist()
    requires control.pcs != [] && MaxWork(control, plan.costs, |control.pcs|, expected)
    requires forall i :: 0 <= i < |control.pcs| ==> PcSound(control, control.pcs[i])
    ensures expected > 0 && (Verified(control, plan, limit) <==> plan.fairness == expected && plan.fairness <= limit)
  {
    hide PcSound, Within, Attained, Listed, ArmsOk, CostsOf, Control.TransitionsExist;
    WorkPositive(control, plan.costs, |control.pcs|, expected);
    if MaxWork(control, plan.costs, |control.pcs|, plan.fairness) {
      MaxWorkUnique(control, plan.costs, |control.pcs|, plan.fairness, expected);
    }
    if expected > limit {
      AttainedExceeds(control, plan.costs, |control.pcs|, expected, limit);
    } else {
      forall i | 0 <= i < |control.pcs| ensures Within(control, plan.costs, control.pcs[i], limit) {
        WithinMonotone(control, plan.costs, control.pcs[i], expected, limit);
      }
    }
  }

  /** Planner and verifier, each with its own traversal, agree: what one plans the other accepts, and
      nothing else. */
  method PlanThenVerify(control: Control, limit: nat, claim: Plan) returns (planned: Option<Plan>, accepted: bool)
    requires Listed(control) && ArmsOk(control) && control.TargetsExist() && !control.boundedLoops
    requires |claim.costs| == |control.blocks|
    requires limit <= MAX_U64 && forall b :: 0 <= b < |claim.costs| ==> claim.costs[b] <= MAX_U64
    ensures Countable(control.Flow()) ==> (accepted <==> planned == Some(claim))
  {
    hide CyclicIn, AllReached, Longest, Within, Attained, AllOwned, PathCosting, Ids, Control.TransitionsExist, Exact;
    hide Listed, ArmsOk, PcSound, CostsOf, ContractCosts, Countable, Control.TargetsExist;
    ListedIsWellListed(control);
    ghost var costs := ContractCosts(control);
    planned := PlanProcessCost(control, limit);
    accepted := VerifyPlan(control, claim, limit);
    if CostsOf(control, claim.costs) { CostsUnique(control, claim.costs); }
    if planned.Some? && Countable(control.Flow()) && MaxWork(control, costs, |control.pcs|, claim.fairness) {
      MaxWorkUnique(control, costs, |control.pcs|, claim.fairness, planned.value.fairness);
    }
  }

  /** Every block costs at least one, so fairness also bounds the number of blocks on any path. */
  lemma {:induction false} FairnessBoundsLength(control: Control, plan: Plan, limit: nat, i: nat, p: seq<nat>)
    requires Verified(control, plan, limit) && i < |control.pcs|
    requires IsPath(control.Flow(), p) && p[0] in Ids(control.pcs[i].blocks)
    ensures |p| <= plan.fairness
  {
    var pc := control.pcs[i];
    ListedIsWellListed(control);
    assert PcSound(control, pc) && Within(control, plan.costs, pc, plan.fairness);
    OwnedConfined(control.Flow(), control.Owners(), pc.id, pc.blocks);
    CostAtLeastLength(control, plan.costs, pc, p, |p|);
  }

  lemma {:induction false} CostAtLeastLength(control: Control, costs: seq<nat>, pc: Pc, p: seq<nat>, k: nat)
    requires CostsOf(control, costs) && Confined(control.Flow(), Ids(pc.blocks))
    requires forall v :: v in Ids(pc.blocks) ==> v < |control.blocks|
    requires IsPath(control.Flow(), p) && p[0] in Ids(pc.blocks) && 1 <= k <= |p|
    ensures p[k - 1] in Ids(pc.blocks) && CostUpto(costs, p, k) >= k
  {
    if k > 1 {
      CostAtLeastLength(control, costs, pc, p, k - 1);
      assert Edge(control.Flow(), p[k - 2], p[k - 2 + 1]);
    } else {
      assert CostUpto(costs, p, 0) == 0;
    }
  }
}
