/** Whole runs of a network: conservation, and order in pipelines. */
module Delivery {
  import opened Core
  import opened Wrappers
  import opened SimQueues
  import opened Networks

  // ----- Runs -----

  /** Anything that can happen, at any moment, mid-epoch included. */
  datatype Event<T> = WorkOf(i: nat, now: Time) | XferOf(t: Target) | Stage(i: nat, x: T) | Take(i: nat)

  /** A network with the values its hosts staged successfully and the values they took. */
  datatype Trace<T> = Trace(net: Net<T>, staged: seq<T>, taken: seq<T>)

  predicate Possible<T>(n: Net<T>, ev: Event<T>) {
    match ev
    case WorkOf(i, _) => i < |n.actors|
    case XferOf(t) => Addresses(n, t)
    case Stage(i, _) => i < |n.actors| && n.actors[i].Ingress?
    case Take(i) => i < |n.actors| && n.actors[i].Egress?
  }

  function Exec<T>(s: Trace<T>, ev: Event<T>): (r: Trace<T>)
    requires s.net.Valid() && Possible(s.net, ev)
  {
    match ev
    case WorkOf(i, now) => s.(net := Work(s.net, i, now))
    case XferOf(t) => s.(net := XferOne(s.net, t))
    case Stage(i, x) =>
      var (g, ok) := s.net.actors[i].g.Stage(x);
      Trace(s.net.(actors := s.net.actors[i := Ingress(g)]), if ok then s.staged + [x] else s.staged, s.taken)
    case Take(i) =>
      var (e, v) := s.net.actors[i].e.Take();
      Trace(s.net.(actors := s.net.actors[i := Egress(e)]), s.staged, s.taken + AsSeq(v))
  }

  lemma {:induction false} ExecValid<T>(s: Trace<T>, ev: Event<T>)
    requires s.net.Valid() && Possible(s.net, ev)
    ensures Exec(s, ev).net.Valid() && SameShape(s.net, Exec(s, ev).net)
  {
    match ev
    case WorkOf(i, now) => WorkValid(s.net, i, now);
    case XferOf(t) => XferOneShape(s.net, t);
    case Stage(i, x) =>
    case Take(i) =>
  }

  ghost predicate PossibleRun<T>(n: Net<T>, evs: seq<Event<T>>) {
    forall k :: 0 <= k < |evs| ==> Possible(n, evs[k])
  }

  /** Topology never changes, so an event that is possible stays possible. */
  lemma {:induction false} PossibleStays<T>(n: Net<T>, m: Net<T>, evs: seq<Event<T>>)
    requires SameShape(n, m) && PossibleRun(n, evs)
    ensures PossibleRun(m, evs)
  {
    forall k | 0 <= k < |evs| ensures Possible(m, evs[k]) {
      if evs[k].Stage? || evs[k].Take? {
        assert n.actors[evs[k].i].SameEnds(m.actors[evs[k].i]);
      }
    }
  }

  ghost function ExecAll<T>(s: Trace<T>, evs: seq<Event<T>>): (r: Trace<T>)
    requires s.net.Valid() && PossibleRun(s.net, evs)
    decreases |evs|
  {
    if evs == [] then s else
      ExecValid(s, evs[0]);
      PossibleStays(s.net, Exec(s, evs[0]).net, evs[1..]);
      ExecAll(Exec(s, evs[0]), evs[1..])
  }

  // ----- Sequences of slots -----

  /** The contents of the first `k` slots of a row, read from the last slot to the first. */
  function Upto<T>(slots: seq<seq<T>>, k: nat): seq<T>
    requires k <= |slots|
  {
    if k == 0 then [] else slots[k - 1] + Upto(slots, k - 1)
  }

  function Gather<T>(slots: seq<seq<T>>): seq<T> { Upto(slots, |slots|) }

  lemma {:induction false} UptoAgrees<T>(a: seq<seq<T>>, b: seq<seq<T>>, k: nat)
    requires k <= |a| && k <= |b| && forall j :: 0 <= j < k ==> a[j] == b[j]
    ensures Upto(a, k) == Upto(b, k)
  {
    if k > 0 { UptoAgrees(a, b, k - 1); }
  }

  /** Replacing one slot changes the bag of contents by exactly that slot. */
  lemma {:induction false} UptoUpdate<T>(slots: seq<seq<T>>, i: nat, s: seq<T>, k: nat)
    requires i < k <= |slots|
    ensures multiset(Upto(slots[i := s], k)) + multiset(slots[i]) == multiset(Upto(slots, k)) + multiset(s)
    decreases k
  {
    if k - 1 == i {
      UptoAgrees(slots, slots[i := s], i);
    } else {
      UptoUpdate(slots, i, s, k - 1);
      var x, u, v := multiset(slots[k - 1]), multiset(Upto(slots, k - 1)), multiset(Upto(slots[i := s], k - 1));
      assert multiset(Upto(slots, k)) == x + u && multiset(Upto(slots[i := s], k)) == x + v;
      BagPrepend(x, u, v, multiset(slots[i]), multiset(s));
    }
  }

  lemma {:induction false} BagPrepend<T>(x: multiset<T>, u: multiset<T>, v: multiset<T>, a: multiset<T>, b: multiset<T>)
    requires v + a == u + b
    ensures (x + v) + a == (x + u) + b
  {
    assert (x + v) + a == x + (v + a) && (x + u) + b == x + (u + b);
  }

  /** The row of slots after the head of slot `i` has moved one slot forward. */
  function Moved<T>(slots: seq<seq<T>>, i: nat): (r: seq<seq<T>>)
    requires i + 1 < |slots| && slots[i] != []
    ensures |r| == |slots|
  {
    slots[i := slots[i][1..]][i + 1 := slots[i + 1] + [slots[i][0]]]
  }

  /** Moving the head of one slot to the end of the next leaves the contents in order. */
  lemma {:induction false} UptoMoved<T>(slots: seq<seq<T>>, i: nat, k: nat)
    requires i + 1 < k <= |slots| && slots[i] != []
    ensures Upto(Moved(slots, i), k) == Upto(slots, k)
    decreases k
  {
    hide Upto, Moved;
    var m := Moved(slots, i);
    MovedAt(slots, i);
    UptoNext(slots, k - 1);
    UptoNext(m, k - 1);
    if k - 1 == i + 1 {
      UptoAgrees(slots, m, i);
      UptoNext(slots, i);
      UptoNext(m, i);
      Regroup(slots[i + 1], slots[i], Upto(slots, i));
    } else {
      UptoMoved(slots, i, k - 1);
    }
  }

  lemma {:induction false} UptoNext<T>(slots: seq<seq<T>>, k: nat)
    requires k < |slots|
    ensures Upto(slots, k + 1) == slots[k] + Upto(slots, k)
  {
  }

  lemma {:induction false} MovedAt<T>(slots: seq<seq<T>>, i: nat)
    requires i + 1 < |slots| && slots[i] != []
    ensures forall j :: 0 <= j < |slots| && j != i && j != i + 1 ==> Moved(slots, i)[j] == slots[j]
    ensures Moved(slots, i)[i] == slots[i][1..] && Moved(slots, i)[i + 1] == slots[i + 1] + [slots[i][0]]
  {
  }

  /** The head of `b` read at the end of `a`. */
  lemma {:induction false} Regroup<T>(a: seq<T>, b: seq<T>, c: seq<T>)
    requires b != []
    ensures (a + [b[0]]) + (b[1..] + c) == a + (b + c)
  {
    assert b == [b[0]] + b[1..];
  }

  lemma {:induction false} UptoFirst<T>(slots: seq<seq<T>>, xs: seq<T>, k: nat)
    requires 1 <= k <= |slots|
    ensures Upto(slots[0 := slots[0] + xs], k) == Upto(slots, k) + xs
    decreases k
  {
    if k > 1 { UptoFirst(slots, xs, k - 1); }
  }

  function Lives<T>(queues: seq<Queue<T>>): (r: seq<seq<T>>)
    ensures |r| == |queues| && forall j :: 0 <= j < |queues| ==> r[j] == queues[j].Live()
  {
    seq(|queues|, j requires 0 <= j < |queues| => queues[j].Live())
  }

  function Helds<T>(actors: seq<Actor<T>>): (r: seq<seq<T>>)
    ensures |r| == |actors| && forall i :: 0 <= i < |actors| ==> r[i] == actors[i].Held()
  {
    seq(|actors|, i requires 0 <= i < |actors| => actors[i].Held())
  }

  // ----- Conservation in any network -----

  ghost function Bag<T>(slots: seq<seq<T>>): multiset<T> { multiset(Gather(slots)) }

  /** Every value in the queues, in pending proposals and in host mailboxes. */
  ghost function InFlight<T>(n: Net<T>): multiset<T> { Bag(Lives(n.queues)) + Bag(Helds(n.actors)) }

  ghost predicate Conserved<T>(s: Trace<T>) {
    multiset(s.staged) == multiset(s.taken) + InFlight(s.net)
  }

  lemma {:induction false} Cancel<T>(a: multiset<T>, b: multiset<T>, c: multiset<T>)
    requires a + c == b + c
    ensures a == b
  {
    assert (a + c) - c == a && (b + c) - c == b;
  }

  lemma {:induction false} BagGains<T>(slots: seq<seq<T>>, k: nat, xs: seq<T>)
    requires k < |slots|
    ensures Bag(slots[k := slots[k] + xs]) == Bag(slots) + multiset(xs)
  {
    UptoUpdate(slots, k, slots[k] + xs, |slots|);
    Cancel(Bag(slots[k := slots[k] + xs]), Bag(slots) + multiset(xs), multiset(slots[k]));
  }

  lemma {:induction false} BagLoses<T>(slots: seq<seq<T>>, k: nat, xs: seq<T>, rest: seq<T>)
    requires k < |slots| && slots[k] == xs + rest
    ensures Bag(slots) == Bag(slots[k := rest]) + multiset(xs)
  {
    UptoUpdate(slots, k, rest, |slots|);
    Cancel(Bag(slots), Bag(slots[k := rest]) + multiset(xs), multiset(rest));
  }

  lemma {:induction false} BagTransfer<T>(slots: seq<seq<T>>, src: nat, dst: nat, x: T, rest: seq<T>)
    requires src < |slots| && dst < |slots| && slots[dst := slots[dst] + [x]][src] == [x] + rest
    ensures Bag(slots[dst := slots[dst] + [x]][src := rest]) == Bag(slots)
  {
    BagGains(slots, dst, [x]);
    var pushed := slots[dst := slots[dst] + [x]];
    BagLoses(pushed, src, [x], rest);
    Cancel(Bag(pushed[src := rest]), Bag(slots), multiset([x]));
  }

  lemma {:induction false} LivesUpdated<T>(queues: seq<Queue<T>>, j: nat, q: Queue<T>)
    requires j < |queues|
    ensures Lives(queues[j := q]) == Lives(queues)[j := q.Live()]
  {
  }

  lemma {:induction false} HeldsUpdated<T>(actors: seq<Actor<T>>, i: nat, a: Actor<T>)
    requires i < |actors|
    ensures Helds(actors[i := a]) == Helds(actors)[i := a.Held()]
  {
  }

  lemma {:induction false} TransferConserves<T>(queues: seq<Queue<T>>, src: nat, dst: nat)
    requires AllValid(queues) && src < |queues| && dst < |queues| && TransferPossible(queues[src], queues[dst])
    ensures Bag(Lives(Transfer(queues, src, dst))) == Bag(Lives(queues))
  {
    hide Bag;
    var x := queues[src].committed[queues[src].pops];
    var d := queues[dst].(pushes := queues[dst].pushes + [x]);
    AppendedLive(queues[dst], x);
    LivesUpdated(queues, dst, d);
    var pushed := queues[dst := d];
    ClaimedLive(pushed[src]);
    var s := pushed[src].(pops := pushed[src].pops + 1);
    LivesUpdated(pushed, src, s);
    BagTransfer(Lives(queues), src, dst, x, s.Live());
  }

  lemma {:induction false} AppendedLive<T>(q: Queue<T>, x: T)
    requires q.pops <= |q.committed|
    ensures q.(pushes := q.pushes + [x]).Live() == q.Live() + [x]
  {
  }

  lemma {:induction false} ClaimedLive<T>(q: Queue<T>)
    requires q.pops < |q.committed|
    ensures q.Live() == [q.committed[q.pops]] + q.(pops := q.pops + 1).Live()
  {
    assert q.committed[q.pops..] == [q.committed[q.pops]] + q.committed[q.pops + 1..];
  }

  lemma {:induction false} IngressConserves<T>(n: Net<T>, i: nat, now: Time)
    requires n.Valid() && i < |n.actors| && n.actors[i].Ingress?
    ensures InFlight(Work(n, i, now)) == InFlight(n)
  {
    hide Bag;
    var g := n.actors[i].g;
    var (qs, b) := WorkActor(n.queues, n.actors[i], now);
    HeldsUpdated(n.actors, i, b);
    if g.mailbox.Some? && !g.proposed && n.queues[g.dst].Accepts() {
      var q, x := n.queues[g.dst], g.mailbox.value;
      AppendedLive(q, x);
      LivesUpdated(n.queues, g.dst, qs[g.dst]);
      BagGains(Lives(n.queues), g.dst, [x]);
      assert n.actors[i].Held() == [x] + b.Held();
      BagLoses(Helds(n.actors), i, [x], b.Held());
    } else {
      assert n.actors[i := b] == n.actors && qs == n.queues;
    }
  }

  lemma {:induction false} EgressConserves<T>(n: Net<T>, i: nat, now: Time)
    requires n.Valid() && i < |n.actors| && n.actors[i].Egress?
    ensures InFlight(Work(n, i, now)) == InFlight(n)
  {
    hide Bag;
    var e := n.actors[i].e;
    var b := WorkActor(n.queues, n.actors[i], now).1;
    if e.mailbox.None? && !e.proposed && n.queues[e.src].Pop().1.Some? {
      var (q, v) := n.queues[e.src].Pop();
      PopValid(n.queues[e.src]);
      LivesUpdated(n.queues, e.src, q);
      BagLoses(Lives(n.queues), e.src, [v.value], q.Live());
      HeldsUpdated(n.actors, i, b);
      BagGains(Helds(n.actors), i, [v.value]);
    } else {
      assert n.actors[i := b] == n.actors;
    }
  }

  /** Work moves values between holders, in whatever topology, and loses none. */
  lemma {:induction false} WorkConserves<T>(n: Net<T>, i: nat, now: Time)
    requires n.Valid() && i < |n.actors|
    ensures InFlight(Work(n, i, now)) == InFlight(n)
  {
    match n.actors[i]
    case Link(l) =>
      var (qs, b) := WorkActor(n.queues, n.actors[i], now);
      HeldsUpdated(n.actors, i, b);
      assert Helds(n.actors)[i := b.Held()] == Helds(n.actors);
      if qs != n.queues { TransferConserves(n.queues, l.src, l.dst); }
    case Ingress(_) => IngressConserves(n, i, now);
    case Egress(_) => EgressConserves(n, i, now);
  }

  lemma {:induction false} ActorXferHeld<T>(a: Actor<T>, queues: nat)
    requires a.Valid(queues)
    ensures a.Xfer().Held() == a.Held()
  {
  }

  /** Publication changes what is committed, not what is in flight. */
  lemma {:induction false} XferConserves<T>(n: Net<T>, t: Target)
    requires n.Valid() && Addresses(n, t)
    ensures Lives(XferOne(n, t).queues) == Lives(n.queues) && Helds(XferOne(n, t).actors) == Helds(n.actors)
  {
    match t
    case OfQueue(j) => XferValid(n.queues[j]);
    case OfActor(i) => ActorXferHeld(n.actors[i], |n.queues|);
  }

  lemma {:induction false} StageConserves<T>(s: Trace<T>, i: nat, x: T)
    requires s.net.Valid() && Possible(s.net, Stage(i, x)) && Conserved(s)
    ensures Conserved(Exec(s, Stage(i, x)))
  {
    hide Bag;
    var (g, ok) := s.net.actors[i].g.Stage(x);
    HeldsUpdated(s.net.actors, i, Ingress(g));
    if ok {
      assert Ingress(g).Held() == s.net.actors[i].Held() + [x];
      BagGains(Helds(s.net.actors), i, [x]);
      assert InFlight(Exec(s, Stage(i, x)).net) == InFlight(s.net) + multiset([x]);
      assert multiset(s.staged + [x]) == multiset(s.staged) + multiset([x]);
    } else {
      assert s.net.actors[i := Ingress(g)] == s.net.actors;
    }
  }

  lemma {:induction false} TakeConserves<T>(s: Trace<T>, i: nat)
    requires s.net.Valid() && Possible(s.net, Event<T>.Take(i)) && Conserved(s)
    ensures Conserved(Exec(s, Event<T>.Take(i)))
  {
    hide Bag;
    var (e, v) := s.net.actors[i].e.Take();
    HeldsUpdated(s.net.actors, i, Egress(e));
    assert s.net.actors[i].Held() == AsSeq(v) + Egress(e).Held();
    BagLoses(Helds(s.net.actors), i, AsSeq(v), Egress(e).Held());
  }

  lemma {:induction false} ExecConserves<T>(s: Trace<T>, ev: Event<T>)
    requires s.net.Valid() && Possible(s.net, ev) && Conserved(s)
    ensures Conserved(Exec(s, ev))
  {
    match ev
    case WorkOf(i, now) => WorkConserves(s.net, i, now);
    case XferOf(t) => XferConserves(s.net, t);
    case Stage(i, x) => StageConserves(s, i, x);
    case Take(i) => TakeConserves(s, i);
  }

  /** In any topology and under any interleaving, every staged value is taken once or still in flight once. */
  lemma {:induction false} RunConserves<T>(s: Trace<T>, evs: seq<Event<T>>)
    requires s.net.Valid() && PossibleRun(s.net, evs) && Conserved(s)
    ensures Conserved(ExecAll(s, evs))
    decreases |evs|
  {
    if evs != [] {
      ExecConserves(s, evs[0]);
      ExecValid(s, evs[0]);
      PossibleStays(s.net, Exec(s, evs[0]).net, evs[1..]);
      RunConserves(Exec(s, evs[0]), evs[1..]);
    }
  }

  // ----- Exactly-once, in-order delivery through a pipeline -----

  /** Host ingress, n queues joined by n - 1 links, host egress. */
  ghost predicate Pipeline<T>(n: Net<T>) {
    var k := |n.queues|;
    && k >= 1 && |n.actors| == k + 1
    && n.actors[0].Ingress? && n.actors[0].g.dst == 0
    && n.actors[k].Egress? && n.actors[k].e.src == k - 1
    && forall i :: 1 <= i < k ==> n.actors[i].Link? && n.actors[i].l.src == i - 1 && n.actors[i].l.dst == i
  }

  /** The ingress, the queues in order, the egress: actor `i` feeds slot `i + 1` from slot `i`. */
  function Slot<T>(n: Net<T>, k: nat): seq<T>
    requires |n.actors| == |n.queues| + 1 && k < |n.queues| + 2
  {
    if k == 0 then n.actors[0].Held()
    else if k <= |n.queues| then n.queues[k - 1].Live()
    else n.actors[|n.queues|].Held()
  }

  function Slots<T>(n: Net<T>): (r: seq<seq<T>>)
    requires |n.actors| == |n.queues| + 1
    ensures |r| == |n.queues| + 2
  {
    seq(|n.queues| + 2, k requires 0 <= k < |n.queues| + 2 => Slot(n, k))
  }

  lemma {:induction false} SlotAt<T>(n: Net<T>, k: nat)
    requires |n.actors| == |n.queues| + 1 && k < |n.queues| + 2
    ensures Slots(n)[k] == Slot(n, k)
  {
  }

  lemma {:induction false} SlotsQueue<T>(n: Net<T>, j: nat, q: Queue<T>)
    requires |n.actors| == |n.queues| + 1 && j < |n.queues|
    ensures Slots(Net(n.queues[j := q], n.actors)) == Slots(n)[j + 1 := q.Live()]
  {
    var m := Net(n.queues[j := q], n.actors);
    forall k | 0 <= k < |n.queues| + 2 ensures Slots(m)[k] == Slots(n)[j + 1 := q.Live()][k] {
      SlotAt(m, k);
      SlotAt(n, k);
    }
  }

  lemma {:induction false} SlotsActor<T>(n: Net<T>, i: nat, a: Actor<T>)
    requires |n.actors| == |n.queues| + 1 && i < |n.actors|
    ensures Slots(Net(n.queues, n.actors[i := a])) ==
      if i == 0 && n.queues != [] then Slots(n)[0 := a.Held()]
      else if i == |n.queues| && n.queues != [] then Slots(n)[i + 1 := a.Held()]
      else if n.queues == [] then [a.Held(), a.Held()]
      else Slots(n)
  {
    var m := Net(n.queues, n.actors[i := a]);
    forall k | 0 <= k < |n.queues| + 2 ensures Slots(m)[k] == Slot(m, k) && Slots(n)[k] == Slot(n, k) {
      SlotAt(m, k);
      SlotAt(n, k);
    }
  }

  ghost predicate InOrder<T>(s: Trace<T>)
    requires |s.net.actors| == |s.net.queues| + 1
  {
    s.staged == s.taken + Gather(Slots(s.net))
  }

  lemma {:induction false} PipelineStays<T>(n: Net<T>, m: Net<T>)
    requires Pipeline(n) && SameShape(n, m)
    ensures Pipeline(m)
  {
    forall i | 0 <= i < |n.actors| ensures n.actors[i].SameEnds(m.actors[i]) {}
  }

  /** `Moved`, written in either order of its two updates. */
  lemma {:induction false} MovedBy<T>(slots: seq<seq<T>>, i: nat, x: T, rest: seq<T>, next: seq<T>)
    requires i + 1 < |slots| && slots[i] == [x] + rest && next == slots[i + 1] + [x]
    ensures Moved(slots, i) == slots[i := rest][i + 1 := next] == slots[i + 1 := next][i := rest]
  {
    assert slots[i][1..] == rest;
  }

  lemma {:induction false} TransferMoves<T>(n: Net<T>, i: nat)
    requires |n.actors| == |n.queues| + 1 && 1 <= i < |n.queues| && n.queues[i].pops <= |n.queues[i].committed|
    requires TransferPossible(n.queues[i - 1], n.queues[i])
    ensures Slots(n)[i] != []
    ensures Slots(Net(Transfer(n.queues, i - 1, i), n.actors)) == Moved(Slots(n), i)
  {
    hide Slots, Moved;
    var src, dst := n.queues[i - 1], n.queues[i];
    var x := src.committed[src.pops];
    AppendedLive(dst, x);
    ClaimedLive(src);
    var d, c := dst.(pushes := dst.pushes + [x]), src.(pops := src.pops + 1);
    SlotsQueue(n, i, d);
    SlotsQueue(Net(n.queues[i := d], n.actors), i - 1, c);
    SlotAt(n, i);
    SlotAt(n, i + 1);
    MovedBy(Slots(n), i, x, c.Live(), d.Live());
  }

  /** What one Work call of actor `i` may do to the row of slots. */
  ghost predicate Forwards<T>(n: Net<T>, i: nat, m: Net<T>)
    requires |n.actors| == |m.actors| == |n.queues| + 1 && |m.queues| == |n.queues| && i < |n.actors|
  {
    && (Slots(m) == Slots(n) || (Slots(n)[i] != [] && Slots(m) == Moved(Slots(n), i)))
    && (!n.actors[i].Pending() && m.actors[i].Pending() ==> Slots(n)[i] != [] && Slots(m) == Moved(Slots(n), i))
  }

  lemma {:induction false} LinkForwards<T>(n: Net<T>, i: nat, now: Time)
    requires n.Valid() && Pipeline(n) && 1 <= i < |n.queues|
    ensures Forwards(n, i, Work(n, i, now))
  {
    hide Slots, Moved;
    var (qs, b) := WorkActor(n.queues, n.actors[i], now);
    SlotsActor(Net(qs, n.actors), i, b);
    if qs != n.queues { TransferMoves(n, i); }
  }

  lemma {:induction false} IngressForwards<T>(n: Net<T>, now: Time)
    requires n.Valid() && Pipeline(n)
    ensures Forwards(n, 0, Work(n, 0, now))
  {
    hide Slots, Moved;
    var g, q := n.actors[0].g, n.queues[0];
    var (qs, b) := WorkActor(n.queues, n.actors[0], now);
    SlotsActor(Net(qs, n.actors), 0, b);
    SlotAt(n, 0);
    SlotAt(n, 1);
    if g.mailbox.Some? && !g.proposed && q.Accepts() {
      AppendedLive(q, g.mailbox.value);
      SlotsQueue(n, 0, qs[0]);
      MovedBy(Slots(n), 0, g.mailbox.value, b.Held(), qs[0].Live());
    } else {
      assert qs == n.queues;
    }
  }

  lemma {:induction false} EgressForwards<T>(n: Net<T>, now: Time)
    requires n.Valid() && Pipeline(n)
    ensures Forwards(n, |n.queues|, Work(n, |n.queues|, now))
  {
    hide Slots, Moved;
    var k := |n.queues|;
    var (qs, b) := WorkActor(n.queues, n.actors[k], now);
    SlotsActor(Net(qs, n.actors), k, b);
    SlotAt(n, k);
    SlotAt(n, k + 1);
    if qs != n.queues {
      ClaimedLive(n.queues[k - 1]);
      SlotsQueue(n, k - 1, qs[k - 1]);
      var v := n.queues[k - 1].committed[n.queues[k - 1].pops];
      MovedBy(Slots(n), k, v, qs[k - 1].Live(), b.Held());
    }
  }

  /** One Work call in a pipeline moves at most one value, one slot forward. */
  lemma {:induction false} WorkForwards<T>(n: Net<T>, i: nat, now: Time)
    requires n.Valid() && Pipeline(n) && i < |n.actors|
    ensures Forwards(n, i, Work(n, i, now))
  {
    if i == 0 {
      IngressForwards(n, now);
    } else if i == |n.queues| {
      EgressForwards(n, now);
    } else {
      LinkForwards(n, i, now);
    }
  }

  lemma {:induction false} StageAppends<T>(n: Net<T>, x: T)
    requires n.Valid() && Pipeline(n)
    ensures var (g, ok) := n.actors[0].g.Stage(x);
      Gather(Slots(n.(actors := n.actors[0 := Ingress(g)]))) == Gather(Slots(n)) + (if ok then [x] else [])
  {
    hide Upto, Slots;
    var (g, ok) := n.actors[0].g.Stage(x);
    SlotsActor(n, 0, Ingress(g));
    SlotAt(n, 0);
    UptoFirst(Slots(n), if ok then [x] else [], |Slots(n)|);
    assert Ingress(g).Held() == Slots(n)[0] + (if ok then [x] else []);
  }

  lemma {:induction false} TakeRemoves<T>(n: Net<T>)
    requires n.Valid() && Pipeline(n)
    ensures var (e, v) := n.actors[|n.queues|].e.Take();
      Gather(Slots(n)) == AsSeq(v) + Gather(Slots(n.(actors := n.actors[|n.queues| := Egress(e)])))
  {
    hide Slots;
    var k := |n.queues|;
    var (e, v) := n.actors[k].e.Take();
    SlotsActor(n, k, Egress(e));
    var a, b := Slots(n), Slots(n.(actors := n.actors[k := Egress(e)]));
    SlotAt(n, k + 1);
    UptoAgrees(a, b, k + 1);
    assert a[k + 1] == AsSeq(v) + b[k + 1];
  }

  lemma {:induction false} XferSlots<T>(n: Net<T>, t: Target)
    requires n.Valid() && Pipeline(n) && Addresses(n, t)
    ensures Slots(XferOne(n, t)) == Slots(n)
  {
    hide Slots, Slot, Queue.Xfer, Actor.Xfer, Queue.Valid, Actor.Valid;
    match t
    case OfQueue(j) =>
      XferValid(n.queues[j]);
      SlotsQueue(n, j, n.queues[j].Xfer());
      QueueSlot(n, j);
    case OfActor(i) =>
      ActorXferHeld(n.actors[i], |n.queues|);
      SlotsActor(n, i, n.actors[i].Xfer());
      ActorSlots(n);
  }

  lemma {:induction false} QueueSlot<T>(n: Net<T>, j: nat)
    requires |n.actors| == |n.queues| + 1 && j < |n.queues|
    ensures Slots(n)[j + 1] == n.queues[j].Live()
  {
    hide Slots, Queue.Live;
    SlotAt(n, j + 1);
  }

  lemma {:induction false} ActorSlots<T>(n: Net<T>)
    requires |n.actors| == |n.queues| + 1
    ensures Slots(n)[0] == n.actors[0].Held() && Slots(n)[|n.queues| + 1] == n.actors[|n.queues|].Held()
  {
    SlotAt(n, 0);
    SlotAt(n, |n.queues| + 1);
  }

  lemma {:induction false} ExecInOrder<T>(s: Trace<T>, ev: Event<T>)
    requires s.net.Valid() && Possible(s.net, ev) && Pipeline(s.net) && InOrder(s)
    ensures SameShape(s.net, Exec(s, ev).net) && InOrder(Exec(s, ev))
  {
    hide Upto, Slots;
    ExecValid(s, ev);
    match ev
    case WorkOf(i, now) =>
      WorkForwards(s.net, i, now);
      if Slots(Work(s.net, i, now)) != Slots(s.net) { UptoMoved(Slots(s.net), i, |Slots(s.net)|); }
    case XferOf(t) => XferSlots(s.net, t);
    case Stage(i, x) => StageAppends(s.net, x);
    case Take(i) => TakeRemoves(s.net);
  }

  /** At every moment of every run: staged == taken ++ egress ++ queue n ++ ... ++ queue 1 ++ ingress. */
  lemma {:induction false} ExactlyOnceInOrder<T>(s: Trace<T>, evs: seq<Event<T>>)
    requires s.net.Valid() && PossibleRun(s.net, evs) && Pipeline(s.net) && InOrder(s)
    ensures Pipeline(ExecAll(s, evs).net) && ExecAll(s, evs).net.Valid() && InOrder(ExecAll(s, evs))
    decreases |evs|
  {
    if evs != [] {
      var t := Exec(s, evs[0]);
      ExecInOrder(s, evs[0]);
      ExecValid(s, evs[0]);
      PossibleStays(s.net, t.net, evs[1..]);
      PipelineStays(s.net, t.net);
      ExactlyOnceInOrder(t, evs[1..]);
    }
  }

  /** At a barrier the slots are the two mailboxes and the committed queue contents. */
  lemma {:induction false} BarrierSlots<T>(n: Net<T>, now: Time)
    requires n.Valid() && n.AtBarrier(now) && Pipeline(n)
    ensures Slots(n)[0] == AsSeq(n.actors[0].g.mailbox)
    ensures Slots(n)[|n.queues| + 1] == AsSeq(n.actors[|n.queues|].e.mailbox)
    ensures forall j :: 0 <= j < |n.queues| ==> Slots(n)[j + 1] == n.queues[j].committed
  {
    assert !n.actors[0].Pending() && !n.actors[|n.queues|].Pending();
    SlotAt(n, 0);
    SlotAt(n, |n.queues| + 1);
    forall j | 0 <= j < |n.queues| ensures Slots(n)[j + 1] == n.queues[j].committed {
      assert n.queues[j].AtBarrier();
      SlotAt(n, j + 1);
    }
  }
}
