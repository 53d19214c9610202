/** A system of runtime objects and the loops that drive one epoch of it. */
module Machines {
  import opened Core
  import opened Wrappers
  import opened SimQueues
  import opened Networks
  import opened QueueObjects

  /** A runtime object with the positions of its queues. */
  datatype Component<T> =
    | LinkObject(link: QueueLink<T>, src: nat, dst: nat)
    | IngressObject(ingress: HostIngress<T>, dst: nat)
    | EgressObject(egress: HostEgress<T>, src: nat)
  {
    ghost function Object(): object {
      match this
      case LinkObject(link, _, _) => link
      case IngressObject(ingress, _) => ingress
      case EgressObject(egress, _) => egress
    }

    function State(): Actor<T>
      reads Object()
    {
      match this
      case LinkObject(link, src, dst) => Link(link.State(src, dst))
      case IngressObject(ingress, dst) => Ingress(ingress.State(dst))
      case EgressObject(egress, src) => Egress(egress.State(src))
    }

    ghost predicate ConnectedTo(queues: seq<SimQueue<T>>) {
      match this
      case LinkObject(link, src, dst) =>
        src < |queues| && dst < |queues| && link.source == queues[src] && link.destination == queues[dst]
      case IngressObject(ingress, dst) => dst < |queues| && ingress.destination == queues[dst]
      case EgressObject(egress, src) => src < |queues| && egress.source == queues[src]
    }
  }

  // ----- A step on one or two queues is a step on all of them -----

  lemma {:induction false} TransferLocal<T>(queues: seq<Queue<T>>, src: nat, dst: nat)
    requires src < |queues| && dst < |queues| && TransferPossible(queues[src], queues[dst])
    ensures src != dst ==> var pair := Transfer([queues[src], queues[dst]], 0, 1);
      Transfer(queues, src, dst) == queues[src := pair[0]][dst := pair[1]]
    ensures src == dst ==> Transfer(queues, src, dst) == queues[src := Transfer([queues[src]], 0, 0)[0]]
  {
    if src != dst { TransferPair(queues[src], queues[dst]); } else { TransferSelf(queues[src]); }
  }

  lemma {:induction false} LinkLocal<T>(queues: seq<Queue<T>>, l: LinkState, now: Time)
    requires l.src < |queues| && l.dst < |queues| && l.src != l.dst
    ensures var (pair, k) := WorkLink([queues[l.src], queues[l.dst]], l.(src := 0, dst := 1), now);
      WorkLink(queues, l, now) == (queues[l.src := pair[0]][l.dst := pair[1]], k.(src := l.src, dst := l.dst))
  {
    hide Transfer, TransferPossible, Queue.IsFull;
    assert queues[l.src := queues[l.src]][l.dst := queues[l.dst]] == queues;
    if TransferPossible(queues[l.src], queues[l.dst]) { TransferLocal(queues, l.src, l.dst); }
  }

  lemma {:induction false} LoopLocal<T>(queues: seq<Queue<T>>, l: LinkState, now: Time)
    requires l.src == l.dst < |queues|
    ensures var (one, k) := WorkLink([queues[l.src]], l.(src := 0, dst := 0), now);
      WorkLink(queues, l, now) == (queues[l.src := one[0]], k.(src := l.src, dst := l.dst))
  {
    hide Transfer, TransferPossible, Queue.IsFull;
    assert queues[l.src := queues[l.src]] == queues;
    if TransferPossible(queues[l.src], queues[l.dst]) { TransferLocal(queues, l.src, l.dst); }
  }

  lemma {:induction false} IngressLocal<T>(queues: seq<Queue<T>>, g: IngressState<T>)
    requires g.dst < |queues|
    ensures var (one, k) := WorkIngress([queues[g.dst]], g.(dst := 0));
      WorkIngress(queues, g) == (queues[g.dst := one[0]], k.(dst := g.dst))
  {
    assert queues[g.dst := queues[g.dst]] == queues;
  }

  lemma {:induction false} EgressLocal<T>(queues: seq<Queue<T>>, e: EgressState<T>)
    requires e.src < |queues|
    ensures var (one, k) := WorkEgress([queues[e.src]], e.(src := 0));
      WorkEgress(queues, e) == (queues[e.src := one[0]], k.(src := e.src))
  {
    assert queues[e.src := queues[e.src]] == queues;
  }

  /** Nothing changed but the named queues and actor `i`. */
  ghost predicate Elsewhere<T>(n: Net<T>, m: Net<T>, src: nat, dst: nat, i: nat) {
    && |m.queues| == |n.queues| && |m.actors| == |n.actors|
    && (forall j :: 0 <= j < |n.queues| && j != src && j != dst ==> m.queues[j] == n.queues[j])
    && (forall k :: 0 <= k < |n.actors| && k != i ==> m.actors[k] == n.actors[k])
  }

  lemma {:induction false} LinkWorked<T>(n: Net<T>, m: Net<T>, i: nat, now: Time)
    requires i < |n.actors| == |m.actors| && n.actors[i].Link? && n.actors[i].Valid(|n.queues|)
    requires Elsewhere(n, m, n.actors[i].l.src, n.actors[i].l.dst, i)
    requires var l := n.actors[i].l;
      m.actors[i].Link? && l.src == m.actors[i].l.src && l.dst == m.actors[i].l.dst
    requires var l, k := n.actors[i].l, m.actors[i].l;
      if l.src != l.dst then
        ([m.queues[l.src], m.queues[l.dst]], k.(src := 0, dst := 1)) ==
          WorkLink([n.queues[l.src], n.queues[l.dst]], l.(src := 0, dst := 1), now)
      else
        ([m.queues[l.src]], k.(src := 0, dst := 0)) == WorkLink([n.queues[l.src]], l.(src := 0, dst := 0), now)
    ensures m == Work(n, i, now)
  {
    hide WorkLink;
    var l := n.actors[i].l;
    if l.src != l.dst { LinkLocal(n.queues, l, now); } else { LoopLocal(n.queues, l, now); }
    var r := Work(n, i, now);
    assert m.queues == r.queues && m.actors == r.actors;
  }

  lemma {:induction false} IngressWorked<T>(n: Net<T>, m: Net<T>, i: nat, now: Time)
    requires i < |n.actors| == |m.actors| && n.actors[i].Ingress? && n.actors[i].Valid(|n.queues|)
    requires Elsewhere(n, m, n.actors[i].g.dst, n.actors[i].g.dst, i)
    requires m.actors[i].Ingress? && m.actors[i].g.dst == n.actors[i].g.dst
    requires var g := n.actors[i].g;
      ([m.queues[g.dst]], m.actors[i].g.(dst := 0)) == WorkIngress([n.queues[g.dst]], g.(dst := 0))
    ensures m == Work(n, i, now)
  {
    hide WorkIngress;
    IngressLocal(n.queues, n.actors[i].g);
    var r := Work(n, i, now);
    assert m.queues == r.queues && m.actors == r.actors;
  }

  lemma {:induction false} EgressWorked<T>(n: Net<T>, m: Net<T>, i: nat, now: Time)
    requires i < |n.actors| == |m.actors| && n.actors[i].Egress? && n.actors[i].Valid(|n.queues|)
    requires Elsewhere(n, m, n.actors[i].e.src, n.actors[i].e.src, i)
    requires m.actors[i].Egress? && m.actors[i].e.src == n.actors[i].e.src
    requires var e := n.actors[i].e;
      ([m.queues[e.src]], m.actors[i].e.(src := 0)) == WorkEgress([n.queues[e.src]], e.(src := 0))
    ensures m == Work(n, i, now)
  {
    hide WorkEgress;
    EgressLocal(n.queues, n.actors[i].e);
    var r := Work(n, i, now);
    assert m.queues == r.queues && m.actors == r.actors;
  }

  // ----- The system -----

  class Machine<T> {
    const queues: seq<SimQueue<T>>
    const actors: seq<Component<T>>

    ghost function Objects(): set<object> {
      (set j | 0 <= j < |queues| :: queues[j] as object) + (set i | 0 <= i < |actors| :: actors[i].Object())
    }

    /** Every object is there once, and components are connected to the queues they name. */
    ghost predicate Wired() {
      && (forall j, k :: 0 <= j < k < |queues| ==> queues[j] != queues[k])
      && (forall i, k :: 0 <= i < k < |actors| ==> actors[i].Object() != actors[k].Object())
      && (forall i :: 0 <= i < |actors| ==> actors[i].ConnectedTo(queues))
    }

    ghost function QueueStates(): (r: seq<Queue<T>>)
      reads Objects()
      ensures |r| == |queues| && forall j :: 0 <= j < |queues| ==> r[j] == queues[j].State()
    {
      seq(|queues|, j requires 0 <= j < |queues| reads Objects() => queues[j].State())
    }

    ghost function ActorStates(): (r: seq<Actor<T>>)
      reads Objects()
      ensures |r| == |actors| && forall i :: 0 <= i < |actors| ==> r[i] == actors[i].State()
    {
      seq(|actors|, i requires 0 <= i < |actors| reads Objects() => actors[i].State())
    }

    ghost function State(): Net<T>
      reads Objects()
    {
      Net(QueueStates(), ActorStates())
    }

    constructor (queues: seq<SimQueue<T>>, actors: seq<Component<T>>)
      ensures this.queues == queues && this.actors == actors
    {
      this.queues, this.actors := queues, actors;
    }

    /** Different positions hold different objects. */
    lemma {:induction false} WiredApart(i: nat)
      requires Wired() && i < |actors|
      ensures actors[i].ConnectedTo(queues)
      ensures forall k :: 0 <= k < |actors| && k != i ==> actors[k].Object() != actors[i].Object()
      ensures forall j, k :: 0 <= j < |queues| && 0 <= k < |queues| && j != k ==> queues[j] != queues[k]
    {
    }

    method WorkOnLink(i: nat, now: Time)
      requires Wired() && State().Valid() && i < |actors| && actors[i].LinkObject?
      modifies Objects()
      ensures State() == Work(old(State()), i, now)
    {
      hide WorkLink, Queue.Valid, Work, Wired;
      ghost var n := State();
      WiredApart(i);
      var c := actors[i];
      assert n.queues[c.src].Valid() && n.queues[c.dst].Valid() && n.actors[i].Valid(|n.queues|);
      c.link.DoWork(now);
      ghost var m := State();
      assert Elsewhere(n, m, c.src, c.dst, i);
      LinkWorked(n, m, i, now);
    }

    method WorkOnIngress(i: nat, now: Time)
      requires Wired() && State().Valid() && i < |actors| && actors[i].IngressObject?
      modifies Objects()
      ensures State() == Work(old(State()), i, now)
    {
      hide WorkIngress, Queue.Valid, Work, Wired;
      ghost var n := State();
      WiredApart(i);
      var c := actors[i];
      assert n.queues[c.dst].Valid() && n.actors[i].Valid(|n.queues|);
      c.ingress.DoWork();
      ghost var m := State();
      assert Elsewhere(n, m, c.dst, c.dst, i);
      IngressWorked(n, m, i, now);
    }

    method WorkOnEgress(i: nat, now: Time)
      requires Wired() && State().Valid() && i < |actors| && actors[i].EgressObject?
      modifies Objects()
      ensures State() == Work(old(State()), i, now)
    {
      hide WorkEgress, Queue.Valid, Work, Wired;
      ghost var n := State();
      WiredApart(i);
      var c := actors[i];
      assert n.queues[c.src].Valid() && n.actors[i].Valid(|n.queues|);
      c.egress.DoWork();
      ghost var m := State();
      assert Elsewhere(n, m, c.src, c.src, i);
      EgressWorked(n, m, i, now);
    }

    /** One dispatch of `doWork`. */
    method DoWork(i: nat, now: Time)
      requires Wired() && State().Valid() && i < |actors|
      modifies Objects()
      ensures State() == Work(old(State()), i, now)
    {
      match actors[i]
      case LinkObject(_, _, _) => WorkOnLink(i, now);
      case IngressObject(_, _) => WorkOnIngress(i, now);
      case EgressObject(_, _) => WorkOnEgress(i, now);
    }

    /** One dispatch of `doXfer`. */
    method XferQueue(j: nat)
      requires Wired() && State().Valid() && j < |queues|
      modifies Objects()
      ensures State() == XferOne(old(State()), OfQueue(j))
    {
      hide Queue.Valid, Queue.Xfer, Wired;
      ghost var n := State();
      QueuesApart(j);
      assert n.queues[j].Valid();
      queues[j].DoXfer();
      assert QueueStates() == n.queues[j := n.queues[j].Xfer()];
      assert ActorStates() == n.actors;
    }

    lemma {:induction false} QueuesApart(j: nat)
      requires Wired() && j < |queues|
      ensures forall k :: 0 <= k < |queues| && k != j ==> queues[k] != queues[j]
    {
    }

    method XferActor(i: nat)
      requires Wired() && State().Valid() && i < |actors|
      modifies Objects()
      ensures State() == XferOne(old(State()), OfActor(i))
    {
      hide Queue.Valid, Wired;
      ghost var n := State();
      WiredApart(i);
      match actors[i] {
        case LinkObject(link, _, _) => link.DoXfer();
        case IngressObject(ingress, dst) =>
          ingress.DoXfer();
          assert n.actors[i].g == old(ingress.State(0)).(dst := dst);
        case EgressObject(egress, src) =>
          egress.DoXfer();
          assert n.actors[i].e == old(egress.State(0)).(src := src);
      }
      assert QueueStates() == n.queues;
      assert ActorStates() == n.actors[i := n.actors[i].Xfer()];
    }

    /** The two loops of one epoch: every Work call, then every Xfer call. The objects end as the
        network does. */
    method RunEpoch(s: Schedule, now: Time)
      requires Wired() && State().Valid() && WorkInRange(State(), s.work) && XferInRange(State(), s.xfer)
      modifies Objects()
      ensures State() == Epoch(old(State()), s, now)
    {
      hide Wired, Net.Valid, Work, XferOne;
      ghost var n := State();
      assert s.work[0..] == s.work;
      for k := 0 to |s.work|
        invariant State().Valid() && SameShape(n, State()) && WorkInRange(State(), s.work[k..])
        invariant WorkAll(State(), s.work[k..], now) == WorkAll(n, s.work, now)
      {
        ghost var m := State();
        WorkStep(m, s.work[k..], now);
        DoWork(s.work[k], now);
        assert s.work[k..][1..] == s.work[k + 1..];
      }
      ghost var m := State();
      WorkAllShape(n, s.work, now);
      assert m == WorkAll(n, s.work, now);
      assert s.xfer[0..] == s.xfer;
      for k := 0 to |s.xfer|
        invariant State().Valid() && XferInRange(State(), s.xfer[k..])
        invariant XferAll(State(), s.xfer[k..]) == XferAll(m, s.xfer)
      {
        XferStep(State(), s.xfer[k..]);
        match s.xfer[k] {
          case OfQueue(j) => XferQueue(j);
          case OfActor(i) => XferActor(i);
        }
        assert s.xfer[k..][1..] == s.xfer[k + 1..];
      }
    }
  }

  lemma {:induction false} WorkStep<T>(n: Net<T>, order: seq<nat>, now: Time)
    requires n.Valid() && order != [] && WorkInRange(n, order)
    ensures order[0] < |n.actors| && n.actors[order[0]].Valid(|n.queues|)
    ensures Work(n, order[0], now).Valid() && SameShape(n, Work(n, order[0], now))
    ensures WorkInRange(Work(n, order[0], now), order[1..])
    ensures WorkAll(n, order, now) == WorkAll(Work(n, order[0], now), order[1..], now)
  {
    WorkValid(n, order[0], now);
  }

  lemma {:induction false} XferStep<T>(n: Net<T>, order: seq<Target>)
    requires n.Valid() && order != [] && XferInRange(n, order)
    ensures Addresses(n, order[0]) && XferOne(n, order[0]).Valid() && XferInRange(XferOne(n, order[0]), order[1..])
    ensures XferAll(n, order) == XferAll(XferOne(n, order[0]), order[1..])
  {
    XferOneShape(n, order[0]);
  }
}
