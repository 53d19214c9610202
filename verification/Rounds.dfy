/** Runs made of complete epochs, with host calls at the barriers between them. Any two schedules
    give the same run, and a pipeline whose host keeps taking delivers everything in bounded time. */
module Rounds {
  import opened Core
  import opened Lists
  import opened SimQueues
  import opened Networks
  import opened Delivery

  /** Host calls at a barrier, then one epoch. */
  datatype Round<T> = Round(host: seq<Event<T>>, schedule: Schedule, now: Time)

  ghost predicate HostOnly<T>(evs: seq<Event<T>>) {
    forall k :: 0 <= k < |evs| ==> evs[k].Stage? || evs[k].Take?
  }

  ghost predicate RoundsFit<T>(n: Net<T>, rounds: seq<Round<T>>) {
    && (forall k :: 0 <= k < |rounds| ==>
          HostOnly(rounds[k].host) && PossibleRun(n, rounds[k].host) && Complete(n, rounds[k].schedule))
    && (forall k :: 0 <= k < |rounds| - 1 ==> rounds[k].now != rounds[k + 1].now)
  }

  /** A network in service: well formed, single-ended, and at a barrier before the first round. */
  ghost predicate Ready<T>(n: Net<T>, rounds: seq<Round<T>>) {
    && n.Valid() && n.SingleEnded() && RoundsFit(n, rounds)
    && if rounds == [] then exists now :: n.AtBarrier(now) else n.AtBarrier(rounds[0].now)
  }

  lemma {:induction false} HostCalls<T>(s: Trace<T>, evs: seq<Event<T>>, now: Time)
    requires s.net.Valid() && s.net.AtBarrier(now) && HostOnly(evs) && PossibleRun(s.net, evs)
    ensures ExecAll(s, evs).net.Valid() && ExecAll(s, evs).net.AtBarrier(now)
    ensures SameShape(s.net, ExecAll(s, evs).net)
    decreases |evs|
  {
    if evs != [] {
      var t := Exec(s, evs[0]);
      ExecValid(s, evs[0]);
      PossibleStays(s.net, t.net, evs[1..]);
      HostCalls(t, evs[1..], now);
      SameShapeTransitive(s.net, t.net, ExecAll(t, evs[1..]).net);
    }
  }

  lemma {:induction false} CompleteStays<T>(n: Net<T>, m: Net<T>, s: Schedule)
    requires SameShape(n, m) && Complete(n, s)
    ensures Complete(m, s)
  {
    forall k | 0 <= k < |s.xfer| ensures Addresses(m, s.xfer[k]) {
      assert Addresses(n, s.xfer[k]);
    }
  }

  ghost function Play<T>(s: Trace<T>, r: Round<T>): (t: Trace<T>)
    requires s.net.Valid() && s.net.AtBarrier(r.now)
    requires HostOnly(r.host) && PossibleRun(s.net, r.host) && Complete(s.net, r.schedule)
  {
    HostCalls(s, r.host, r.now);
    var a := ExecAll(s, r.host);
    CompleteStays(s.net, a.net, r.schedule);
    a.(net := Epoch(a.net, r.schedule, r.now))
  }

  /** A round hands the next one a network in service. */
  lemma {:induction false} PlayReady<T>(s: Trace<T>, rounds: seq<Round<T>>)
    requires Ready(s.net, rounds) && rounds != []
    ensures Ready(Play(s, rounds[0]).net, rounds[1..])
    ensures SameShape(s.net, Play(s, rounds[0]).net)
  {
    var r := rounds[0];
    HostCalls(s, r.host, r.now);
    var a := ExecAll(s, r.host);
    CompleteStays(s.net, a.net, r.schedule);
    SameShapeSingleEnded(s.net, a.net);
    var later := if |rounds| > 1 then rounds[1].now else r.now.(tick := r.now.tick + 1);
    EpochEndsAtBarrier(a.net, r.schedule, r.now, later);
    var t := Play(s, r);
    SameShapeTransitive(s.net, a.net, t.net);
    forall k | 0 < k < |rounds|
      ensures PossibleRun(t.net, rounds[k].host) && Complete(t.net, rounds[k].schedule)
    {
      PossibleStays(s.net, t.net, rounds[k].host);
      CompleteStays(s.net, t.net, rounds[k].schedule);
    }
  }

  ghost function PlayAll<T>(s: Trace<T>, rounds: seq<Round<T>>): (t: Trace<T>)
    requires Ready(s.net, rounds)
    decreases |rounds|
  {
    if rounds == [] then s else
      PlayReady(s, rounds);
      PlayAll(Play(s, rounds[0]), rounds[1..])
  }

  // ----- Determinism -----

  /** Same host calls, same times; only the order and multiplicity of Work and Xfer calls differ. */
  ghost predicate SameInputs<T>(a: seq<Round<T>>, b: seq<Round<T>>) {
    |a| == |b| && forall k :: 0 <= k < |a| ==> a[k].host == b[k].host && a[k].now == b[k].now
  }

  lemma {:induction false} CompleteElements<T>(n: Net<T>, s: Schedule, t: Schedule)
    requires Complete(n, s) && Complete(n, t)
    ensures Elements(s.work) == Elements(t.work) && Elements(s.xfer) == Elements(t.xfer)
  {
    forall x | x in s.work ensures x in t.work {}
    forall x | x in t.work ensures x in s.work {}
    forall x | x in s.xfer ensures x in t.xfer {
      assert Addresses(n, x);
    }
    forall x | x in t.xfer ensures x in s.xfer {
      assert Addresses(n, x);
    }
  }

  /** Two runs that differ only in how each epoch is scheduled go through the same states. */
  lemma {:induction false} SchedulesAgree<T>(s: Trace<T>, a: seq<Round<T>>, b: seq<Round<T>>)
    requires Ready(s.net, a) && Ready(s.net, b) && SameInputs(a, b)
    ensures PlayAll(s, a) == PlayAll(s, b)
    decreases |a|
  {
    if a != [] {
      HostCalls(s, a[0].host, a[0].now);
      var h := ExecAll(s, a[0].host);
      CompleteStays(s.net, h.net, a[0].schedule);
      CompleteStays(s.net, h.net, b[0].schedule);
      CompleteElements(h.net, a[0].schedule, b[0].schedule);
      SameShapeSingleEnded(s.net, h.net);
      EpochOrderFree(h.net, a[0].schedule, b[0].schedule, a[0].now);
      PlayReady(s, a);
      PlayReady(s, b);
      SchedulesAgree(Play(s, a[0]), a[1..], b[1..]);
    }
  }

  // ----- Progress -----

  /** How many slot-to-slot moves separate the contents of the first `k` slots from the `k`th. */
  ghost function Ahead<T>(slots: seq<seq<T>>, k: nat): nat
    requires k <= |slots|
  {
    if k == 0 then 0 else |Upto(slots, k - 1)| + Ahead(slots, k - 1)
  }

  ghost function Distance<T>(slots: seq<seq<T>>): nat { Ahead(slots, |slots|) }

  lemma {:induction false} AheadAgrees<T>(a: seq<seq<T>>, b: seq<seq<T>>, k: nat)
    requires 1 <= k <= |a| && k <= |b| && forall j :: 0 <= j < k - 1 ==> a[j] == b[j]
    ensures Ahead(a, k) == Ahead(b, k)
    decreases k
  {
    UptoAgrees(a, b, k - 1);
    if k > 1 { AheadAgrees(a, b, k - 1); }
  }

  lemma {:induction false} AheadNext<T>(slots: seq<seq<T>>, k: nat)
    requires k < |slots|
    ensures Ahead(slots, k + 1) == |Upto(slots, k)| + Ahead(slots, k)
  {
    hide Upto;
  }

  lemma {:induction false} AheadMoved<T>(slots: seq<seq<T>>, i: nat, k: nat)
    requires i + 1 < k <= |slots| && slots[i] != []
    ensures Ahead(Moved(slots, i), k) == Ahead(slots, k) - 1
    decreases k
  {
    hide Ahead, Upto, Moved;
    var m := Moved(slots, i);
    MovedAt(slots, i);
    AheadNext(slots, k - 1);
    AheadNext(m, k - 1);
    if k - 1 == i + 1 {
      UptoAgrees(slots, m, i);
      AheadAgrees(slots, m, i + 1);
      UptoNext(m, i);
      UptoNext(slots, i);
    } else {
      UptoMoved(slots, i, k - 1);
      AheadMoved(slots, i, k - 1);
    }
  }

  lemma {:induction false} WorkAllProgress<T>(n: Net<T>, order: seq<nat>, now: Time)
    requires n.Valid() && Pipeline(n) && WorkInRange(n, order)
    ensures var m := WorkAll(n, order, now);
      && m.Valid() && SameShape(n, m)
      && Gather(Slots(m)) == Gather(Slots(n)) && Distance(Slots(m)) <= Distance(Slots(n))
      && ((exists i :: 0 <= i < |n.actors| && !n.actors[i].Pending() && m.actors[i].Pending()) ==>
            Distance(Slots(m)) < Distance(Slots(n)))
    decreases |order|
  {
    if order != [] {
      var i := order[0];
      var m := Work(n, i, now);
      WorkValid(n, i, now);
      WorkForwards(n, i, now);
      if Slots(m) != Slots(n) {
        UptoMoved(Slots(n), i, |Slots(n)|);
        AheadMoved(Slots(n), i, |Slots(n)|);
      }
      PipelineStays(n, m);
      WorkAllProgress(m, order[1..], now);
      SameShapeTransitive(n, m, WorkAll(m, order[1..], now));
      if !n.actors[i].Pending() && m.actors[i].Pending() {
        AheadMoved(Slots(n), i, |Slots(n)|);
      }
    }
  }

  lemma {:induction false} XferAllSlots<T>(n: Net<T>, order: seq<Target>)
    requires n.Valid() && Pipeline(n) && XferInRange(n, order)
    ensures SameShape(n, XferAll(n, order)) && Slots(XferAll(n, order)) == Slots(n)
    decreases |order|
  {
    if order != [] {
      XferSlots(n, order[0]);
      XferOneShape(n, order[0]);
      PipelineStays(n, XferOne(n, order[0]));
      XferAllSlots(XferOne(n, order[0]), order[1..]);
      SameShapeTransitive(n, XferOne(n, order[0]), XferAll(n, order));
    }
  }

  /** Every queue can hold at least one entry. */
  ghost predicate Roomy<T>(n: Net<T>) {
    forall j :: 0 <= j < |n.queues| ==> n.queues[j].cfg.Fits(1)
  }

  lemma {:induction false} NothingAhead<T>(slots: seq<seq<T>>, k: nat)
    requires k <= |slots| && forall j :: 0 <= j < k - 1 ==> slots[j] == []
    ensures Ahead(slots, k) == 0 && (k > 0 ==> Upto(slots, k - 1) == [])
  {
    if k > 0 { NothingAhead(slots, k - 1); }
  }

  /** The foremost value that has not reached the last slot. */
  lemma {:induction false} Foremost<T>(slots: seq<seq<T>>) returns (k: nat)
    requires Distance(slots) > 0
    ensures k < |slots| - 1 && slots[k] != [] && forall j :: k < j < |slots| - 1 ==> slots[j] == []
  {
    if forall j :: 0 <= j < |slots| - 1 ==> slots[j] == [] {
      NothingAhead(slots, |slots|);
      assert false;
    }
    k := |slots| - 2;
    while slots[k] == []
      invariant 0 <= k < |slots| - 1 && (forall j :: k < j < |slots| - 1 ==> slots[j] == [])
      decreases k
    {
      k := k - 1;
    }
  }

  /** With the egress mailbox empty and something upstream, the foremost value can move. */
  lemma {:induction false} SomeActorFires<T>(n: Net<T>, now: Time) returns (k: nat)
    requires n.Valid() && n.AtBarrier(now) && Pipeline(n) && Roomy(n)
    requires n.actors[|n.queues|].e.mailbox.None? && Distance(Slots(n)) > 0
    ensures k < |n.actors| && Fires(n, k)
  {
    hide Slots, Ahead, Distance;
    BarrierSlots(n, now);
    k := Foremost(Slots(n));
    if k < |n.queues| {
      assert Slots(n)[k + 1] == n.queues[k].committed == [];
      AcceptsExact(n.queues[k]);
    }
  }

  lemma {:induction false} NothingWorked<T>(n: Net<T>, now: Time)
    requires n.Valid() && n.AtBarrier(now) && n.SingleEnded()
    ensures Worked(n, {}, now, n)
  {
  }

  lemma {:induction false} WorkedPending<T>(n: Net<T>, done: set<nat>, now: Time, m: Net<T>, k: nat)
    requires n.Valid() && n.AtBarrier(now) && Worked(n, done, now, m) && k < |n.actors| && k in done
    ensures |m.actors| == |n.actors| && m.actors[k] == Work(n, k, now).actors[k]
  {
  }

  /** One complete epoch brings the contents strictly closer to the host. */
  lemma {:induction false} EpochProgress<T>(n: Net<T>, s: Schedule, now: Time)
    requires n.Valid() && n.AtBarrier(now) && n.SingleEnded() && Complete(n, s) && Pipeline(n) && Roomy(n)
    ensures var r := Epoch(n, s, now);
      && SameShape(n, r) && Gather(Slots(r)) == Gather(Slots(n)) && Distance(Slots(r)) <= Distance(Slots(n))
      && (n.actors[|n.queues|].e.mailbox.None? && Distance(Slots(n)) > 0 ==> Distance(Slots(r)) < Distance(Slots(n)))
  {
    hide WorkAll, XferAll, Gather, Distance, Slots, Worked;
    var m := WorkAll(n, s.work, now);
    WorkAllProgress(n, s.work, now);
    PipelineStays(n, m);
    XferAllSlots(m, s.xfer);
    SameShapeTransitive(n, m, XferAll(m, s.xfer));
    if n.actors[|n.queues|].e.mailbox.None? && Distance(Slots(n)) > 0 {
      var k := SomeActorFires(n, now);
      WorkAtBarrier(n, k, now);
      NothingWorked(n, now);
      WorkAllWorked(n, {}, now, n, s.work);
      WorkedPending(n, {} + Elements(s.work), now, m, k);
      assert !n.actors[k].Pending() && m.actors[k].Pending();
    }
  }

  /** The host takes once before each epoch and stages nothing. */
  ghost predicate OnlyTakes<T>(n: Net<T>, rounds: seq<Round<T>>) {
    forall k :: 0 <= k < |rounds| ==> rounds[k].host == [Take(|n.queues|)]
  }

  /** A bounded number of epochs brings everything to the egress: its length is the initial distance. */
  lemma {:induction false} Drains<T>(s: Trace<T>, rounds: seq<Round<T>>)
    requires Ready(s.net, rounds) && Pipeline(s.net) && Roomy(s.net) && OnlyTakes(s.net, rounds) && InOrder(s)
    ensures var t := PlayAll(s, rounds);
      && SameShape(s.net, t.net) && t.net.Valid() && InOrder(t) && t.staged == s.staged
      && (Distance(Slots(t.net)) == 0 || Distance(Slots(t.net)) + |rounds| <= Distance(Slots(s.net)))
    decreases |rounds|
  {
    if rounds != [] {
      var t := Play(s, rounds[0]);
      PlayReady(s, rounds);
      PlayTake(s, rounds[0]);
      PipelineStays(s.net, t.net);
      Drains(t, rounds[1..]);
      SameShapeTransitive(s.net, t.net, PlayAll(t, rounds[1..]).net);
    }
  }

  lemma {:induction false} PlayTake<T>(s: Trace<T>, r: Round<T>)
    requires s.net.Valid() && s.net.AtBarrier(r.now) && s.net.SingleEnded()
    requires HostOnly(r.host) && PossibleRun(s.net, r.host) && Complete(s.net, r.schedule)
    requires Pipeline(s.net) && Roomy(s.net) && InOrder(s) && r.host == [Take(|s.net.queues|)]
    ensures var t := Play(s, r);
      && SameShape(s.net, t.net) && InOrder(t) && t.staged == s.staged
      && (Distance(Slots(t.net)) == 0 || Distance(Slots(t.net)) < Distance(Slots(s.net)))
  {
    hide Upto, Slots, Complete;
    var k := |s.net.queues|;
    var a := Exec(s, r.host[0]);
    assert ExecAll(s, r.host) == a;
    HostCalls(s, r.host, r.now);
    ExecInOrder(s, r.host[0]);
    PipelineStays(s.net, a.net);
    SameShapeSingleEnded(s.net, a.net);
    CompleteStays(s.net, a.net, r.schedule);
    var e := s.net.actors[k].e.Take().0;
    SlotsActor(s.net, k, Egress(e));
    AheadAgrees(Slots(s.net), Slots(a.net), k + 2);
    EpochProgress(a.net, r.schedule, r.now);
    SameShapeTransitive(s.net, a.net, Play(s, r).net);
  }

  /** Bounded delivery: after as many rounds as the initial distance, one last take completes delivery. */
  lemma {:induction false} EverythingIsDelivered<T>(s: Trace<T>, rounds: seq<Round<T>>)
    requires Ready(s.net, rounds) && Pipeline(s.net) && Roomy(s.net) && OnlyTakes(s.net, rounds) && InOrder(s)
    requires |rounds| >= Distance(Slots(s.net)) && |rounds| > 0
    ensures var t := PlayAll(s, rounds);
      && t.net.Valid() && Possible(t.net, Event<T>.Take(|t.net.queues|))
      && Exec(t, Take(|t.net.queues|)).taken == s.staged
  {
    hide Upto, Distance, Slots, Ready;
    Drains(s, rounds);
    var t := PlayAll(s, rounds);
    PipelineStays(s.net, t.net);
    PlayAllAtBarrier(s, rounds);
    AllAtEgress(t.net);
  }

  lemma {:induction false} AllAtEgress<T>(n: Net<T>)
    requires n.Valid() && Pipeline(n) && Distance(Slots(n)) == 0 && exists now :: n.AtBarrier(now)
    ensures Gather(Slots(n)) == AsSeq(n.actors[|n.queues|].e.mailbox)
  {
    var now :| n.AtBarrier(now);
    BarrierSlots(n, now);
    assert Upto(Slots(n), |n.queues| + 1) == [];
  }

  lemma {:induction false} PlayAllAtBarrier<T>(s: Trace<T>, rounds: seq<Round<T>>)
    requires Ready(s.net, rounds)
    ensures exists now :: PlayAll(s, rounds).net.AtBarrier(now)
    decreases |rounds|
  {
    if rounds == [] {
      var now :| s.net.AtBarrier(now);
      assert PlayAll(s, rounds).net.AtBarrier(now);
    } else {
      PlayReady(s, rounds);
      PlayAllAtBarrier(Play(s, rounds[0]), rounds[1..]);
      var now :| PlayAll(Play(s, rounds[0]), rounds[1..]).net.AtBarrier(now);
      assert PlayAll(s, rounds).net.AtBarrier(now);
    }
  }
}
