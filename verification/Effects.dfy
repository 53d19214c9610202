/** What one complete epoch does to each queue, link and mailbox. */
module Effects {
  import opened Core
  import opened Lists
  import opened Wrappers
  import opened SimQueues
  import opened Networks

  /** Queue `j` can hold one more entry than it has published. */
  ghost predicate HasRoom<T>(n: Net<T>, j: nat)
    requires j < |n.queues|
  {
    n.queues[j].cfg.Fits(|n.queues[j].committed| + 1)
  }

  /** Whether actor `i` moves a value in the coming epoch. */
  ghost predicate Moves<T>(n: Net<T>, i: nat)
    requires i < |n.actors| && n.actors[i].Valid(|n.queues|)
  {
    match n.actors[i]
    case Link(l) => n.queues[l.src].committed != [] && HasRoom(n, l.dst)
    case Ingress(g) => g.mailbox.Some? && HasRoom(n, g.dst)
    case Egress(e) => e.mailbox.None? && n.queues[e.src].committed != []
  }

  /** The value it moves: the head of its queue, or its mailbox. */
  ghost function Value<T>(n: Net<T>, i: nat): T
    requires i < |n.actors| && n.actors[i].Valid(|n.queues|) && Moves(n, i)
  {
    match n.actors[i]
    case Link(l) => n.queues[l.src].committed[0]
    case Ingress(g) => g.mailbox.value
    case Egress(e) => n.queues[e.src].committed[0]
  }

  lemma {:induction false} FullExactly<T>(q: Queue<T>)
    ensures q.IsFull() <==> !q.cfg.Fits(|q.committed| + 1)
  {
    ByteTestExact(q.cfg, |q.committed| + 1);
  }

  lemma {:induction false} MovesFires<T>(n: Net<T>, i: nat)
    requires n.Valid() && i < |n.actors|
    ensures Moves(n, i) <==> Fires(n, i)
    ensures Moves(n, i) && !n.actors[i].Egress? ==> Value(n, i) == Carried(n, i)
  {
    hide Queue.Valid;
    match n.actors[i]
    case Link(l) => FullExactly(n.queues[l.dst]);
    case Ingress(g) => FullExactly(n.queues[g.dst]);
    case Egress(_) =>
  }

  lemma {:induction false} BarrierQueue<T>(n: Net<T>, now: Time, j: nat)
    requires n.Valid() && n.AtBarrier(now) && j < |n.queues|
    ensures var q := n.queues[j]; q.pops == 0 && q.pushes == [] && (q.Accepts() <==> !q.IsFull())
    ensures n.queues[j].IsFull() <==> !HasRoom(n, j)
  {
    FullExactly(n.queues[j]);
  }

  /** A link counts exactly one outcome per epoch: a transfer, an empty source, or else a full
      destination. */
  lemma {:induction false} EpochLink<T>(n: Net<T>, s: Schedule, now: Time, i: nat)
    requires n.Valid() && n.AtBarrier(now) && n.SingleEnded() && Complete(n, s) && i < |n.actors| && n.actors[i].Link?
    ensures |Epoch(n, s, now).actors| == |n.actors|
    ensures var l := n.actors[i].l; var empty := n.queues[l.src].committed == [];
      Epoch(n, s, now).actors[i] == Link(l.(lastWork := Some(now),
        transferred := l.transferred + (if Moves(n, i) then 1 else 0),
        stalledEmpty := l.stalledEmpty + (if empty then 1 else 0),
        stalledFull := l.stalledFull + (if !empty && !HasRoom(n, l.dst) then 1 else 0)))
  {
    hide Epoch, Queue.Valid, Queue.IsFull, Queue.Accepts, HasRoom, Transfer, Complete, Net.SingleEnded, Net.AtBarrier;
    EpochActor(n, s, now, i);
    var l := n.actors[i].l;
    BarrierQueue(n, now, l.src);
    BarrierQueue(n, now, l.dst);
    BarrierActor(n, now, i);
  }

  lemma {:induction false} BarrierActor<T>(n: Net<T>, now: Time, i: nat)
    requires n.Valid() && n.AtBarrier(now) && i < |n.actors|
    ensures !n.actors[i].Pending() && (n.actors[i].Link? ==> n.actors[i].l.lastWork != Some(now))
    ensures n.actors[i].Egress? ==> n.actors[i].e.proposedValue.None?
  {
  }

  /** An ingress hands over its mailbox, and counts it, exactly when there is a value and room for it. */
  lemma {:induction false} EpochIngress<T>(n: Net<T>, s: Schedule, now: Time, i: nat)
    requires n.Valid() && n.AtBarrier(now) && n.SingleEnded() && Complete(n, s) && i < |n.actors| && n.actors[i].Ingress?
    ensures |Epoch(n, s, now).actors| == |n.actors|
    ensures var g := n.actors[i].g;
      Epoch(n, s, now).actors[i] == Ingress(if Moves(n, i) then g.(mailbox := None, published := g.published + 1) else g)
  {
    hide Epoch, Queue.Valid, Queue.IsFull, Queue.Accepts, HasRoom, Complete, Net.SingleEnded, Net.AtBarrier;
    EpochActor(n, s, now, i);
    BarrierQueue(n, now, n.actors[i].g.dst);
    BarrierActor(n, now, i);
  }

  /** An egress takes the head of its queue, and counts it, exactly when its mailbox is free and there is
      one. */
  lemma {:induction false} EpochEgress<T>(n: Net<T>, s: Schedule, now: Time, i: nat)
    requires n.Valid() && n.AtBarrier(now) && n.SingleEnded() && Complete(n, s) && i < |n.actors| && n.actors[i].Egress?
    ensures |Epoch(n, s, now).actors| == |n.actors|
    ensures var e := n.actors[i].e;
      Epoch(n, s, now).actors[i] ==
        Egress(if Moves(n, i) then e.(mailbox := Some(Value(n, i)), published := e.published + 1) else e)
  {
    hide Epoch, Queue.Valid, Queue.IsFull, Queue.Accepts, HasRoom, Complete, Net.SingleEnded, Net.AtBarrier;
    EpochActor(n, s, now, i);
    BarrierQueue(n, now, n.actors[i].e.src);
    BarrierActor(n, now, i);
  }

  /** A queue loses its head exactly when the actor that pops from it moves, gains the value of the actor
      that pushes to it exactly when that moves, and counts both. */
  lemma {:induction false} EpochQueue<T>(n: Net<T>, s: Schedule, now: Time, j: nat) returns (popped: nat, arrived: seq<T>)
    requires n.Valid() && n.AtBarrier(now) && n.SingleEnded() && Complete(n, s) && j < |n.queues|
    ensures popped <= |n.queues[j].committed| && |Epoch(n, s, now).queues| == |n.queues|
    ensures popped == if exists i :: 0 <= i < |n.actors| && n.actors[i].PopsFrom(j) && Moves(n, i) then 1 else 0
    ensures forall i :: 0 <= i < |n.actors| && n.actors[i].PushesTo(j) && Moves(n, i) ==> arrived == [Value(n, i)]
    ensures (forall i :: 0 <= i < |n.actors| && n.actors[i].PushesTo(j) ==> !Moves(n, i)) ==> arrived == []
    ensures var q, r := n.queues[j], Epoch(n, s, now).queues[j];
      && r.committed == q.committed[popped..] + arrived && r.pushes == [] && r.pops == 0 && r.cfg == q.cfg
      && r.totalPushes == q.totalPushes + |arrived| && r.totalPops == q.totalPops + popped
      && r.highWatermark == Max(q.highWatermark, |r.committed|)
  {
    hide Moves, Value, Fires, Carried, Queue.Valid, Net.SingleEnded, Work;
    WorkAllShape(n, s.work, now);
    assert Worked(n, {}, now, n);
    WorkAllWorked(n, {}, now, n, s.work);
    var m := WorkAll(n, s.work, now);
    XferAllXferred(m, {}, m, s.xfer);
    assert OfQueue(j) in {} + Elements(s.xfer);
    forall i | 0 <= i < |n.actors| ensures Moves(n, i) <==> Fires(n, i) { MovesFires(n, i); }
    var done := {} + Elements(s.work);
    assert QueueWorked(n, done, j, m.queues[j]);
    popped, arrived := m.queues[j].pops, m.queues[j].pushes;
    QueueCounts(n, done, j, m.queues[j]);
    forall i | 0 <= i < |n.actors| && n.actors[i].PushesTo(j) && Moves(n, i) ensures arrived == [Value(n, i)] { MovesFires(n, i); }
    QueuePublished(n.queues[j], m.queues[j]);
  }

  lemma {:induction false} QueueCounts<T>(n: Net<T>, done: set<nat>, j: nat, q: Queue<T>)
    requires n.Valid() && j < |n.queues| && QueueWorked(n, done, j, q) && forall i :: 0 <= i < |n.actors| ==> i in done
    requires n.queues[j].pops == 0 && n.queues[j].pushes == []
    ensures q.pops == if exists i :: 0 <= i < |n.actors| && n.actors[i].PopsFrom(j) && Fires(n, i) then 1 else 0
    ensures q.pops <= |n.queues[j].committed|
    ensures forall i :: 0 <= i < |n.actors| && n.actors[i].PushesTo(j) && Fires(n, i) ==>
      !n.actors[i].Egress? && q.pushes == [Carried(n, i)]
    ensures (forall i :: 0 <= i < |n.actors| && n.actors[i].PushesTo(j) ==> !Fires(n, i)) ==> q.pushes == []
  {
    hide Queue.Valid, Queue.IsFull;
    if i: nat :| i < |n.actors| && n.actors[i].PopsFrom(j) && Fires(n, i) {
      assert i in done;
    } else {
      forall i | i in done && i < |n.actors| && n.actors[i].PopsFrom(j) ensures !Fires(n, i) {}
    }
  }

  /** The barrier on a queue whose pops are published entries. */
  lemma {:induction false} QueuePublished<T>(q: Queue<T>, w: Queue<T>)
    requires w == q.(pushes := w.pushes, pops := w.pops) && w.pops <= |q.committed|
    ensures var r := w.Xfer();
      && r.committed == q.committed[w.pops..] + w.pushes && r.pushes == [] && r.pops == 0 && r.cfg == q.cfg
      && r.totalPushes == q.totalPushes + |w.pushes| && r.totalPops == q.totalPops + w.pops
      && r.highWatermark == Max(q.highWatermark, |r.committed|)
  {
    assert (q.committed + w.pushes)[w.pops..] == q.committed[w.pops..] + w.pushes;
  }
}
