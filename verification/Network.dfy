/** Networks of queues, links and host mailboxes, and their epochs. */
module Networks {
  import opened Core
  import opened Lists
  import opened Wrappers
  import opened SimQueues

  datatype LinkState = LinkState(
    src: nat, dst: nat, lastWork: Option<Time>, pending: bool, failed: bool,
    transferred: nat, stalledEmpty: nat, stalledFull: nat)
  {
    function Xfer(): LinkState {
      if pending then this.(pending := false, transferred := transferred + 1) else this
    }
  }

  datatype IngressState<T> = IngressState(dst: nat, mailbox: Option<T>, proposed: bool, accepted: nat, published: nat)
  {
    function Stage(x: T): (IngressState<T>, bool) {
      if mailbox.Some? || proposed then (this, false)
      else (this.(mailbox := Some(x), accepted := accepted + 1), true)
    }

    function Xfer(): IngressState<T> {
      if proposed then this.(mailbox := None, proposed := false, published := published + 1) else this
    }
  }

  datatype EgressState<T> = EgressState(
    src: nat, mailbox: Option<T>, proposedValue: Option<T>, proposed: bool, published: nat, completed: nat)
  {
    function Take(): (EgressState<T>, Option<T>) {
      if mailbox.None? then (this, None) else (this.(mailbox := None, completed := completed + 1), mailbox)
    }

    function Xfer(): EgressState<T> {
      if proposed then
        this.(mailbox := proposedValue, proposedValue := None, proposed := false, published := published + 1)
      else this
    }
  }

  function AsSeq<T>(o: Option<T>): seq<T> {
    if o.Some? then [o.value] else []
  }

  datatype Actor<T> = Link(l: LinkState) | Ingress(g: IngressState<T>) | Egress(e: EgressState<T>)
  {
    predicate PopsFrom(j: nat) { (Link? && l.src == j) || (Egress? && e.src == j) }
    predicate PushesTo(j: nat) { (Link? && l.dst == j) || (Ingress? && g.dst == j) }

    /** Publication of the actor itself; the queues publish their own proposals. */
    function Xfer(): Actor<T> {
      match this
      case Link(l) => Link(l.Xfer())
      case Ingress(g) => Ingress(g.Xfer())
      case Egress(e) => Egress(e.Xfer())
    }

    predicate Pending() {
      match this
      case Link(l) => l.pending
      case Ingress(g) => g.proposed
      case Egress(e) => e.proposed
    }

    /** The values held outside the queues that no queue proposal carries yet. */
    function Held(): seq<T> {
      match this
      case Link(_) => []
      case Ingress(g) => if g.proposed then [] else AsSeq(g.mailbox)
      case Egress(e) => AsSeq(e.mailbox) + AsSeq(e.proposedValue)
    }

    ghost predicate Valid(queues: nat) {
      match this
      case Link(l) => l.src < queues && l.dst < queues
      case Ingress(g) => g.dst < queues && (g.proposed ==> g.mailbox.Some?)
      case Egress(e) => e.src < queues && (e.proposed <==> e.proposedValue.Some?) && (e.proposed ==> e.mailbox.None?)
    }

    /** Same kind, same endpoints. */
    ghost predicate SameEnds(that: Actor<T>) {
      match this
      case Link(l) => that.Link? && that.l.src == l.src && that.l.dst == l.dst
      case Ingress(g) => that.Ingress? && that.g.dst == g.dst
      case Egress(e) => that.Egress? && that.e.src == e.src
    }
  }

  ghost predicate AllValid<T>(queues: seq<Queue<T>>) {
    forall j :: 0 <= j < |queues| ==> queues[j].Valid()
  }

  datatype Net<T> = Net(queues: seq<Queue<T>>, actors: seq<Actor<T>>) {
    ghost predicate Valid() {
      && AllValid(queues)
      && forall i :: 0 <= i < |actors| ==> actors[i].Valid(|queues|)
    }

    /** What the compiler checks: one popping actor and one pushing actor per queue at most. */
    ghost predicate SingleEnded() {
      forall i, k, j :: 0 <= i < k < |actors| && 0 <= j < |queues| ==>
        && !(actors[i].PopsFrom(j) && actors[k].PopsFrom(j))
        && !(actors[i].PushesTo(j) && actors[k].PushesTo(j))
    }

    /** Between epochs nothing is pending, and no link has worked in the epoch to come. */
    ghost predicate AtBarrier(now: Time) {
      && (forall j :: 0 <= j < |queues| ==> queues[j].AtBarrier())
      && (forall i :: 0 <= i < |actors| ==> !actors[i].Pending() && (actors[i].Link? ==> actors[i].l.lastWork != Some(now)))
    }
  }

  // ----- Work -----

  /** `proposeTransferTo`: the paired push and pop, in that order, so that a queue may feed itself. */
  function Transfer<T>(queues: seq<Queue<T>>, src: nat, dst: nat): (r: seq<Queue<T>>)
    requires src < |queues| && dst < |queues|
    requires TransferPossible(queues[src], queues[dst])
    ensures |r| == |queues|
  {
    var pushed := queues[dst := queues[dst].(pushes := queues[dst].pushes + [queues[src].committed[queues[src].pops]])];
    pushed[src := pushed[src].(pops := pushed[src].pops + 1)]
  }

  function WorkLink<T>(queues: seq<Queue<T>>, l: LinkState, now: Time): (r: (seq<Queue<T>>, LinkState))
    requires l.src < |queues| && l.dst < |queues|
    ensures |r.0| == |queues|
  {
    if l.lastWork == Some(now) then (queues, l) else
    var l := l.(lastWork := Some(now));
    if |queues[l.src].committed| == 0 then (queues, l.(stalledEmpty := l.stalledEmpty + 1))
    else if queues[l.dst].IsFull() then (queues, l.(stalledFull := l.stalledFull + 1))
    else if TransferPossible(queues[l.src], queues[l.dst]) then
      (Transfer(queues, l.src, l.dst), l.(pending := true))
    else (queues, l.(failed := true))
  }

  function WorkIngress<T>(queues: seq<Queue<T>>, g: IngressState<T>): (r: (seq<Queue<T>>, IngressState<T>))
    requires g.dst < |queues|
    ensures |r.0| == |queues|
  {
    if g.mailbox.Some? && !g.proposed then
      var (q, ok) := queues[g.dst].Push(g.mailbox.value);
      (queues[g.dst := q], g.(proposed := ok))
    else (queues, g)
  }

  function WorkEgress<T>(queues: seq<Queue<T>>, e: EgressState<T>): (r: (seq<Queue<T>>, EgressState<T>))
    requires e.src < |queues|
    ensures |r.0| == |queues|
  {
    if e.mailbox.None? && !e.proposed then
      var (q, v) := queues[e.src].Pop();
      if v.Some? then (queues[e.src := q], e.(proposedValue := v, proposed := true)) else (queues, e)
    else (queues, e)
  }

  function WorkActor<T>(queues: seq<Queue<T>>, a: Actor<T>, now: Time): (r: (seq<Queue<T>>, Actor<T>))
    requires a.Valid(|queues|)
    ensures |r.0| == |queues|
  {
    match a
    case Link(l) => var (qs, l) := WorkLink(queues, l, now); (qs, Link(l))
    case Ingress(g) => var (qs, g) := WorkIngress(queues, g); (qs, Ingress(g))
    case Egress(e) => var (qs, e) := WorkEgress(queues, e); (qs, Egress(e))
  }

  function Work<T>(n: Net<T>, i: nat, now: Time): (r: Net<T>)
    requires i < |n.actors| && n.actors[i].Valid(|n.queues|)
    ensures |r.queues| == |n.queues| && |r.actors| == |n.actors|
  {
    var (qs, a) := WorkActor(n.queues, n.actors[i], now);
    Net(qs, n.actors[i := a])
  }

  /** Work keeps the network well formed and never reconnects it. */
  lemma {:induction false} WorkActorValid<T>(queues: seq<Queue<T>>, a: Actor<T>, now: Time)
    requires AllValid(queues) && a.Valid(|queues|)
    ensures AllValid(WorkActor(queues, a, now).0)
    ensures WorkActor(queues, a, now).1.Valid(|queues|) && a.SameEnds(WorkActor(queues, a, now).1)
    ensures forall j :: 0 <= j < |queues| ==> WorkActor(queues, a, now).0[j].cfg == queues[j].cfg
  {
    hide Queue.Valid;
    match a
    case Link(l) => if TransferPossible(queues[l.src], queues[l.dst]) { TransferValid(queues, l.src, l.dst); }
    case Ingress(g) => if g.mailbox.Some? { PushValid(queues[g.dst], g.mailbox.value); }
    case Egress(e) => PopValid(queues[e.src]);
  }

  lemma {:induction false} TransferValid<T>(queues: seq<Queue<T>>, src: nat, dst: nat)
    requires AllValid(queues) && src < |queues| && dst < |queues| && TransferPossible(queues[src], queues[dst])
    ensures AllValid(Transfer(queues, src, dst))
    ensures forall j :: 0 <= j < |queues| ==> Transfer(queues, src, dst)[j].cfg == queues[j].cfg
  {
    AcceptsExact(queues[dst]);
  }

  lemma {:induction false} WorkValid<T>(n: Net<T>, i: nat, now: Time)
    requires n.Valid() && i < |n.actors|
    ensures Work(n, i, now).Valid()
    ensures SameShape(n, Work(n, i, now))
  {
    WorkActorValid(n.queues, n.actors[i], now);
  }

  /** Same queues with the same capacities, same actors with the same endpoints. */
  ghost predicate SameShape<T>(n: Net<T>, m: Net<T>) {
    && |m.queues| == |n.queues| && |m.actors| == |n.actors|
    && (forall j :: 0 <= j < |n.queues| ==> m.queues[j].cfg == n.queues[j].cfg)
    && (forall i :: 0 <= i < |n.actors| ==> n.actors[i].SameEnds(m.actors[i]))
  }

  // ----- Schedules -----

  predicate WorkInRange<T>(n: Net<T>, order: seq<nat>) {
    forall k :: 0 <= k < |order| ==> order[k] < |n.actors|
  }

  function WorkAll<T>(n: Net<T>, order: seq<nat>, now: Time): (r: Net<T>)
    requires n.Valid() && WorkInRange(n, order)
    decreases |order|
  {
    if order == [] then n else
      WorkValid(n, order[0], now);
      WorkAll(Work(n, order[0], now), order[1..], now)
  }

  /** One Xfer call addresses a queue or an actor. */
  datatype Target = OfQueue(j: nat) | OfActor(i: nat)

  predicate Addresses<T>(n: Net<T>, t: Target) {
    match t
    case OfQueue(j) => j < |n.queues|
    case OfActor(i) => i < |n.actors|
  }

  predicate XferInRange<T>(n: Net<T>, order: seq<Target>) {
    forall k :: 0 <= k < |order| ==> Addresses(n, order[k])
  }

  function XferOne<T>(n: Net<T>, t: Target): (r: Net<T>)
    requires Addresses(n, t)
  {
    match t
    case OfQueue(j) => n.(queues := n.queues[j := n.queues[j].Xfer()])
    case OfActor(i) => n.(actors := n.actors[i := n.actors[i].Xfer()])
  }

  function XferAll<T>(n: Net<T>, order: seq<Target>): (r: Net<T>)
    requires XferInRange(n, order)
    ensures |r.queues| == |n.queues| && |r.actors| == |n.actors|
    decreases |order|
  {
    if order == [] then n else XferAll(XferOne(n, order[0]), order[1..])
  }

  // ----- The Work phase, independently of order -----

  /** Whether actor `i` gets its proposal through, judged on the committed state alone. */
  predicate Fires<T>(n: Net<T>, i: nat)
    requires i < |n.actors| && n.actors[i].Valid(|n.queues|)
  {
    match n.actors[i]
    case Link(l) => |n.queues[l.src].committed| > 0 && !n.queues[l.dst].IsFull()
    case Ingress(g) => g.mailbox.Some? && !n.queues[g.dst].IsFull()
    case Egress(e) => e.mailbox.None? && |n.queues[e.src].committed| > 0
  }

  function Carried<T>(n: Net<T>, i: nat): T
    requires i < |n.actors| && n.actors[i].Valid(|n.queues|) && !n.actors[i].Egress? && Fires(n, i)
  {
    if n.actors[i].Link? then n.queues[n.actors[i].l.src].committed[0] else n.actors[i].g.mailbox.value
  }

  /** `q` is queue `j` of the barrier state `n` after exactly the actors in `done` have worked. */
  ghost predicate QueueWorked<T>(n: Net<T>, done: set<nat>, j: nat, q: Queue<T>)
    requires n.Valid() && j < |n.queues|
  {
    && q == n.queues[j].(pushes := q.pushes, pops := q.pops)
    && (forall i :: i in done && i < |n.actors| && n.actors[i].PushesTo(j) && Fires(n, i) ==> q.pushes == [Carried(n, i)])
    && ((forall i :: i in done && i < |n.actors| && n.actors[i].PushesTo(j) ==> !Fires(n, i)) ==> q.pushes == [])
    && (forall i :: i in done && i < |n.actors| && n.actors[i].PopsFrom(j) && Fires(n, i) ==> q.pops == 1)
    && ((forall i :: i in done && i < |n.actors| && n.actors[i].PopsFrom(j) ==> !Fires(n, i)) ==> q.pops == 0)
  }

  ghost predicate Worked<T>(n: Net<T>, done: set<nat>, now: Time, m: Net<T>)
    requires n.Valid()
  {
    && |m.queues| == |n.queues| && |m.actors| == |n.actors|
    && (forall i :: 0 <= i < |n.actors| ==>
          m.actors[i] == if i in done then Work(n, i, now).actors[i] else n.actors[i])
    && (forall j :: 0 <= j < |n.queues| ==> QueueWorked(n, done, j, m.queues[j]))
  }

  /** The description leaves no freedom: it pins every queue and every actor. */
  lemma {:induction false} WorkedUnique<T>(n: Net<T>, done: set<nat>, now: Time, a: Net<T>, b: Net<T>)
    requires n.Valid() && Worked(n, done, now, a) && Worked(n, done, now, b)
    ensures a == b
  {
    forall j | 0 <= j < |n.queues| ensures a.queues[j] == b.queues[j] {
      assert QueueWorked(n, done, j, a.queues[j]) && QueueWorked(n, done, j, b.queues[j]);
    }
    assert a.queues == b.queues && a.actors == b.actors;
  }

  /** On a barrier state an actor fires exactly when its Work call succeeds. */
  lemma {:induction false} WorkAtBarrier<T>(n: Net<T>, i: nat, now: Time)
    requires n.Valid() && n.AtBarrier(now) && i < |n.actors|
    ensures Work(n, i, now).actors[i].Pending() <==> Fires(n, i)
    ensures n.actors[i].Link? ==> Work(n, i, now).actors[i].l.failed == n.actors[i].l.failed
  {
    match n.actors[i]
    case Link(l) => assert n.queues[l.dst].Accepts() <==> !n.queues[l.dst].IsFull();
    case Ingress(g) => assert n.queues[g.dst].Accepts() <==> !n.queues[g.dst].IsFull();
    case Egress(e) =>
  }

  /** What one Work call does to queue `j` when `i` is its first worker on either side. */
  ghost predicate QueueStep<T>(n: Net<T>, i: nat, j: nat, before: Queue<T>, after: Queue<T>)
    requires n.Valid() && i < |n.actors|
  {
    && after == before.(pushes := after.pushes, pops := after.pops)
    && after.pushes == (if n.actors[i].PushesTo(j) && Fires(n, i) then [Carried(n, i)] else before.pushes)
    && after.pops == (if n.actors[i].PopsFrom(j) && Fires(n, i) then 1 else before.pops)
  }

  /** `i` is still to work: both its endpoints look as they did at the barrier, on its side. */
  ghost predicate Untouched<T>(n: Net<T>, m: Net<T>, i: nat)
    requires i < |n.actors|
  {
    && |m.queues| == |n.queues| && |m.actors| == |n.actors| && m.actors[i] == n.actors[i]
    && forall j :: 0 <= j < |n.queues| ==>
         && m.queues[j] == n.queues[j].(pushes := m.queues[j].pushes, pops := m.queues[j].pops)
         && (n.actors[i].PushesTo(j) ==> m.queues[j].pushes == [])
         && (n.actors[i].PopsFrom(j) ==> m.queues[j].pops == 0)
  }

  lemma {:induction false} NotYetWorked<T>(n: Net<T>, done: set<nat>, now: Time, m: Net<T>, i: nat)
    requires n.Valid() && n.SingleEnded() && Worked(n, done, now, m)
    requires i < |n.actors| && i !in done
    ensures Untouched(n, m, i)
  {
    forall j | 0 <= j < |n.queues|
      ensures m.queues[j] == n.queues[j].(pushes := m.queues[j].pushes, pops := m.queues[j].pops)
      ensures n.actors[i].PushesTo(j) ==> m.queues[j].pushes == []
      ensures n.actors[i].PopsFrom(j) ==> m.queues[j].pops == 0
    {
      assert QueueWorked(n, done, j, m.queues[j]);
    }
  }

  lemma {:induction false} WorkEffect<T>(n: Net<T>, now: Time, m: Net<T>, i: nat)
    requires n.Valid() && n.AtBarrier(now) && i < |n.actors| && Untouched(n, m, i)
    ensures Work(m, i, now).actors == m.actors[i := Work(n, i, now).actors[i]]
    ensures forall j :: 0 <= j < |n.queues| ==> QueueStep(n, i, j, m.queues[j], Work(m, i, now).queues[j])
  {
    match n.actors[i]
    case Link(l) =>
      assert n.queues[l.dst].Accepts() == m.queues[l.dst].Accepts() == !n.queues[l.dst].IsFull();
      assert n.queues[l.dst].IsFull() == m.queues[l.dst].IsFull();
    case Ingress(g) =>
      assert n.queues[g.dst].Accepts() == m.queues[g.dst].Accepts() == !n.queues[g.dst].IsFull();
    case Egress(e) =>
  }

  lemma {:induction false} QueueExtends<T>(n: Net<T>, done: set<nat>, i: nat, j: nat, before: Queue<T>, after: Queue<T>)
    requires n.Valid() && n.SingleEnded() && i < |n.actors| && i !in done && j < |n.queues|
    requires QueueWorked(n, done, j, before) && QueueStep(n, i, j, before, after)
    ensures QueueWorked(n, done + {i}, j, after)
  {
  }

  /** Working a further actor extends the description, whatever was worked before. */
  lemma {:induction false} WorkExtends<T>(n: Net<T>, done: set<nat>, now: Time, m: Net<T>, i: nat)
    requires n.Valid() && n.AtBarrier(now) && n.SingleEnded() && Worked(n, done, now, m)
    requires i < |n.actors| && i !in done
    ensures m.actors[i].Valid(|m.queues|)
    ensures Worked(n, done + {i}, now, Work(m, i, now))
  {
    NotYetWorked(n, done, now, m, i);
    WorkEffect(n, now, m, i);
    var r := Work(m, i, now);
    forall j | 0 <= j < |n.queues| ensures QueueWorked(n, done + {i}, j, r.queues[j]) {
      QueueExtends(n, done, i, j, m.queues[j], r.queues[j]);
    }
  }

  /** A second Work call in the same epoch changes nothing. */
  lemma {:induction false} WorkAgain<T>(n: Net<T>, done: set<nat>, now: Time, m: Net<T>, i: nat)
    requires n.Valid() && n.AtBarrier(now) && n.SingleEnded() && Worked(n, done, now, m)
    requires i < |n.actors| && i in done
    ensures m.actors[i].Valid(|m.queues|) && Work(m, i, now) == m
  {
    WorkAtBarrier(n, i, now);
    WorkActorValid(n.queues, n.actors[i], now);
    var a := n.actors[i];
    if a.Ingress? && a.g.mailbox.Some? && !Fires(n, i) {
      assert QueueWorked(n, done, a.g.dst, m.queues[a.g.dst]);
      assert m.queues[a.g.dst].pushes == [];
      assert m.queues[a.g.dst := m.queues[a.g.dst]] == m.queues;
    }
    if a.Egress? && a.e.mailbox.None? && !Fires(n, i) {
      assert QueueWorked(n, done, a.e.src, m.queues[a.e.src]);
    }
    assert WorkActor(m.queues, m.actors[i], now) == (m.queues, m.actors[i]);
  }

  lemma {:induction false} WorkAllWorked<T>(n: Net<T>, done: set<nat>, now: Time, m: Net<T>, order: seq<nat>)
    requires n.Valid() && n.AtBarrier(now) && n.SingleEnded() && Worked(n, done, now, m) && m.Valid()
    requires WorkInRange(n, order)
    ensures Worked(n, done + Elements(order), now, WorkAll(m, order, now))
    ensures WorkAll(m, order, now).Valid()
    decreases |order|
  {
    hide Work, Worked, Net.Valid, Net.AtBarrier, Net.SingleEnded;
    if order == [] {
      assert done + Elements(order) == done;
    } else {
      var i := order[0];
      if i in done {
        WorkAgain(n, done, now, m, i);
        WorkAllWorked(n, done, now, m, order[1..]);
        assert done + Elements(order[1..]) == done + Elements(order);
      } else {
        WorkExtends(n, done, now, m, i);
        WorkValid(m, i, now);
        WorkAllWorked(n, done + {i}, now, Work(m, i, now), order[1..]);
        assert done + {i} + Elements(order[1..]) == done + Elements(order);
      }
    }
  }

  // ----- The Xfer phase, independently of order -----

  ghost predicate Xferred<T>(n: Net<T>, done: set<Target>, m: Net<T>) {
    && |m.queues| == |n.queues| && |m.actors| == |n.actors|
    && (forall j :: 0 <= j < |n.queues| ==> m.queues[j] == if OfQueue(j) in done then n.queues[j].Xfer() else n.queues[j])
    && (forall i :: 0 <= i < |n.actors| ==> m.actors[i] == if OfActor(i) in done then n.actors[i].Xfer() else n.actors[i])
  }

  lemma {:induction false} XferExtends<T>(n: Net<T>, done: set<Target>, m: Net<T>, t: Target)
    requires n.Valid() && Xferred(n, done, m) && Addresses(n, t)
    ensures Xferred(n, done + {t}, XferOne(m, t))
  {
    hide Queue.Xfer, Queue.Valid, Actor.Xfer, Actor.Valid;
    match t
    case OfQueue(j) =>
      QueueXferTwice(n.queues[j]);
    case OfActor(i) =>
      ActorXferTwice(n.actors[i]);
  }

  /** A second barrier publishes nothing more. */
  lemma {:induction false} QueueXferTwice<T>(q: Queue<T>)
    requires q.Valid()
    ensures q.Xfer().Xfer() == q.Xfer()
  {
    hide Queue.Xfer, Queue.Valid;
    XferValid(q);
    ValidWatermark(q.Xfer());
    XferIdempotent(q.Xfer());
  }

  lemma {:induction false} ValidWatermark<T>(q: Queue<T>)
    requires q.Valid()
    ensures |q.committed| <= q.highWatermark
  {
  }

  lemma {:induction false} ActorXferTwice<T>(a: Actor<T>)
    ensures a.Xfer().Xfer() == a.Xfer()
  {
  }

  lemma {:induction false} XferAllXferred<T>(n: Net<T>, done: set<Target>, m: Net<T>, order: seq<Target>)
    requires n.Valid() && Xferred(n, done, m)
    requires XferInRange(n, order)
    ensures Xferred(n, done + Elements(order), XferAll(m, order))
    decreases |order|
  {
    if order == [] {
      assert done + Elements(order) == done;
    } else {
      var t := order[0];
      XferExtends(n, done, m, t);
      XferAllXferred(n, done + {t}, XferOne(m, t), order[1..]);
      assert done + {t} + Elements(order[1..]) == done + Elements(order);
    }
  }

  // ----- The epoch -----

  /** A schedule lists Work calls and Xfer calls; repetitions are allowed. */
  datatype Schedule = Schedule(work: seq<nat>, xfer: seq<Target>)

  ghost predicate Complete<T>(n: Net<T>, s: Schedule) {
    && WorkInRange(n, s.work) && XferInRange(n, s.xfer)
    && (forall i :: 0 <= i < |n.actors| ==> i in s.work && OfActor(i) in s.xfer)
    && (forall j :: 0 <= j < |n.queues| ==> OfQueue(j) in s.xfer)
  }

  lemma {:induction false} WorkAllShape<T>(n: Net<T>, order: seq<nat>, now: Time)
    requires n.Valid() && WorkInRange(n, order)
    ensures WorkAll(n, order, now).Valid() && SameShape(n, WorkAll(n, order, now))
    decreases |order|
  {
    if order != [] {
      WorkValid(n, order[0], now);
      WorkAllShape(Work(n, order[0], now), order[1..], now);
    }
  }

  lemma {:induction false} XferOneShape<T>(n: Net<T>, t: Target)
    requires n.Valid() && Addresses(n, t)
    ensures XferOne(n, t).Valid() && SameShape(n, XferOne(n, t))
  {
    if t.OfQueue? { XferValid(n.queues[t.j]); }
  }

  lemma {:induction false} XferAllShape<T>(n: Net<T>, order: seq<Target>)
    requires n.Valid() && XferInRange(n, order)
    ensures XferAll(n, order).Valid() && SameShape(n, XferAll(n, order))
    decreases |order|
  {
    if order != [] {
      XferOneShape(n, order[0]);
      XferAllShape(XferOne(n, order[0]), order[1..]);
    }
  }

  function Epoch<T>(n: Net<T>, s: Schedule, now: Time): (r: Net<T>)
    requires n.Valid()
    requires WorkInRange(n, s.work) && XferInRange(n, s.xfer)
  {
    WorkAllShape(n, s.work, now);
    XferAll(WorkAll(n, s.work, now), s.xfer)
  }

  /** Two schedules that call the same things, in any order and any number of times, end alike. */
  lemma {:induction false} EpochOrderFree<T>(n: Net<T>, s: Schedule, t: Schedule, now: Time)
    requires n.Valid() && n.AtBarrier(now) && n.SingleEnded()
    requires WorkInRange(n, s.work) && XferInRange(n, s.xfer)
    requires Elements(s.work) == Elements(t.work) && Elements(s.xfer) == Elements(t.xfer)
    ensures WorkInRange(n, t.work) && XferInRange(n, t.xfer)
    ensures Epoch(n, s, now) == Epoch(n, t, now)
  {
    forall k | 0 <= k < |t.work| ensures t.work[k] < |n.actors| { assert t.work[k] in Elements(s.work); }
    forall k | 0 <= k < |t.xfer| ensures Addresses(n, t.xfer[k]) { assert t.xfer[k] in Elements(s.xfer); }
    assert Worked(n, {}, now, n);
    WorkAllWorked(n, {}, now, n, s.work);
    WorkAllWorked(n, {}, now, n, t.work);
    var a, b := WorkAll(n, s.work, now), WorkAll(n, t.work, now);
    WorkedUnique(n, {} + Elements(s.work), now, a, b);
    XferAllXferred(a, {}, a, s.xfer);
    XferAllXferred(a, {}, a, t.xfer);
    var c, d := XferAll(a, s.xfer), XferAll(a, t.xfer);
    assert c.queues == d.queues && c.actors == d.actors;
  }

  lemma {:induction false} SameShapeSingleEnded<T>(n: Net<T>, m: Net<T>)
    requires SameShape(n, m) && n.SingleEnded()
    ensures m.SingleEnded()
  {
    forall i, k, j | 0 <= i < k < |m.actors| && 0 <= j < |m.queues|
      ensures !(m.actors[i].PopsFrom(j) && m.actors[k].PopsFrom(j))
      ensures !(m.actors[i].PushesTo(j) && m.actors[k].PushesTo(j))
    {
      assert n.actors[i].SameEnds(m.actors[i]) && n.actors[k].SameEnds(m.actors[k]);
      assert !(n.actors[i].PopsFrom(j) && n.actors[k].PopsFrom(j));
      assert !(n.actors[i].PushesTo(j) && n.actors[k].PushesTo(j));
    }
  }

  /** Each actor after a complete epoch is the published form of its Work at the barrier state. */
  lemma {:induction false} EpochActor<T>(n: Net<T>, s: Schedule, now: Time, i: nat)
    requires n.Valid() && n.AtBarrier(now) && n.SingleEnded() && Complete(n, s) && i < |n.actors|
    ensures |Epoch(n, s, now).actors| == |n.actors|
    ensures Epoch(n, s, now).actors[i] == Work(n, i, now).actors[i].Xfer()
  {
    assert Worked(n, {}, now, n);
    WorkAllWorked(n, {}, now, n, s.work);
    var m := WorkAll(n, s.work, now);
    XferAllXferred(m, {}, m, s.xfer);
    assert i in s.work && OfActor(i) in s.xfer;
  }

  /** A complete epoch ends at a barrier again, in the same topology, and no link has failed. */
  lemma {:induction false} EpochEndsAtBarrier<T>(n: Net<T>, s: Schedule, now: Time, later: Time)
    requires n.Valid() && n.AtBarrier(now) && n.SingleEnded() && Complete(n, s) && later != now
    ensures var r := Epoch(n, s, now);
      && r.Valid() && SameShape(n, r) && r.SingleEnded() && r.AtBarrier(later)
      && forall i :: 0 <= i < |n.actors| && n.actors[i].Link? ==> r.actors[i].l.failed == n.actors[i].l.failed
  {
    hide Work, WorkAll, XferAll, Net.Valid, Net.SingleEnded, Actor.Xfer, Queue.Xfer;
    WorkAllShape(n, s.work, now);
    var m := WorkAll(n, s.work, now);
    XferAllShape(m, s.xfer);
    var r := XferAll(m, s.xfer);
    SameShapeTransitive(n, m, r);
    SameShapeSingleEnded(n, r);
    XferAllXferred(m, {}, m, s.xfer);
    QueuesSettle(m, Elements(s.xfer), r);
    forall i | 0 <= i < |n.actors|
      ensures !r.actors[i].Pending()
      ensures n.actors[i].Link? ==> r.actors[i].l.lastWork == Some(now) && r.actors[i].l.failed == n.actors[i].l.failed
    {
      EpochActor(n, s, now, i);
      ActorSettles(n, i, now);
    }
  }

  lemma {:induction false} QueuesSettle<T>(m: Net<T>, done: set<Target>, r: Net<T>)
    requires m.Valid() && Xferred(m, {} + done, r) && forall j :: 0 <= j < |m.queues| ==> OfQueue(j) in done
    ensures forall j :: 0 <= j < |r.queues| ==> r.queues[j].AtBarrier()
  {
    hide Queue.Xfer, Queue.Valid;
    forall j | 0 <= j < |r.queues| ensures r.queues[j].AtBarrier() { XferValid(m.queues[j]); }
  }

  lemma {:induction false} ActorSettles<T>(n: Net<T>, i: nat, now: Time)
    requires n.Valid() && n.AtBarrier(now) && i < |n.actors|
    ensures var a := Work(n, i, now).actors[i].Xfer();
      && !a.Pending() && (a.Link? <==> n.actors[i].Link?)
      && (a.Link? ==> a.l.lastWork == Some(now) && a.l.failed == n.actors[i].l.failed)
  {
    hide Queue.Valid;
    WorkAtBarrier(n, i, now);
  }

  lemma {:induction false} SameShapeTransitive<T>(a: Net<T>, b: Net<T>, c: Net<T>)
    requires SameShape(a, b) && SameShape(b, c)
    ensures SameShape(a, c)
  {
    forall i | 0 <= i < |a.actors| ensures a.actors[i].SameEnds(c.actors[i]) {
      assert a.actors[i].SameEnds(b.actors[i]) && b.actors[i].SameEnds(c.actors[i]);
    }
  }
}
