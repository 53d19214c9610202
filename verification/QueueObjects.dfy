/** The runtime objects that move values between queues. Each method is tied to the network step it
    performs on its own queues; a machine of such objects lifts that to the whole network. */
module QueueObjects {
  import opened Core
  import opened Wrappers
  import opened SimQueues
  import opened Networks

  lemma {:induction false} TransferPair<T>(s: Queue<T>, d: Queue<T>)
    requires TransferPossible(s, d)
    ensures Transfer([s, d], 0, 1) == [s.(pops := s.pops + 1), d.(pushes := d.pushes + [s.committed[s.pops]])]
  {
  }

  lemma {:induction false} TransferSelf<T>(q: Queue<T>)
    requires TransferPossible(q, q)
    ensures Transfer([q], 0, 0) == [q.(pushes := q.pushes + [q.committed[q.pops]], pops := q.pops + 1)]
  {
  }

  class QueueLink<T> {
    const source: SimQueue<T>
    const destination: SimQueue<T>
    var lastWorkEpoch: Option<Time>
    var pendingTransfer: bool
    var failed: bool
    var transferred: nat
    var stalledEmpty: nat
    var stalledFull: nat

    /** The link between queue `src` and queue `dst` of a network. */
    function State(src: nat, dst: nat): LinkState
      reads this
    {
      LinkState(src, dst, lastWorkEpoch, pendingTransfer, failed, transferred, stalledEmpty, stalledFull)
    }

    constructor (source: SimQueue<T>, destination: SimQueue<T>)
      ensures this.source == source && this.destination == destination
      ensures forall s, d :: State(s, d) == LinkState(s, d, None, false, false, 0, 0, 0)
    {
      this.source, this.destination := source, destination;
      lastWorkEpoch, pendingTransfer, failed := None, false, false;
      transferred, stalledEmpty, stalledFull := 0, 0, 0;
    }

    method DoWork(now: Time)
      requires source.State().Valid() && destination.State().Valid()
      modifies this, source`popProposalCount, destination`pushProposals
      ensures source.State().Valid() && destination.State().Valid()
      // two distinct queues: the network step on [source, destination]
      ensures source != destination ==>
                ([source.State(), destination.State()], State(0, 1)) ==
                WorkLink([old(source.State()), old(destination.State())], old(State(0, 1)), now)
      // a queue feeding itself
      ensures source == destination ==>
                ([source.State()], State(0, 0)) == WorkLink([old(source.State())], old(State(0, 0)), now)
    {
      hide Config.Fits;
      if lastWorkEpoch == Some(now) {
        return;
      }
      lastWorkEpoch := Some(now);
      if |source.committed| == 0 {
        stalledEmpty := stalledEmpty + 1;
        return;
      }
      if |destination.committed| >= destination.cfg.entryCapacity ||
         destination.cfg.ExceedsBytes(|destination.committed| + 1)
      {
        stalledFull := stalledFull + 1;
        return;
      }
      var ok := source.ProposeTransferTo(destination);
      if !ok {
        assert destination.pushProposals == old(destination.pushProposals);
        failed := true;
        return;
      }
      pendingTransfer := true;
      TransferPair(old(source.State()), old(destination.State()));
      if source == destination { TransferSelf(old(source.State())); }
    }

    method DoXfer()
      modifies this
      ensures forall s, d :: State(s, d) == old(State(s, d)).Xfer()
    {
      if !pendingTransfer {
        return;
      }
      pendingTransfer := false;
      transferred := transferred + 1;
    }
  }

  class HostIngress<T> {
    const destination: SimQueue<T>
    var mailbox: Option<T>
    var proposed: bool
    var hostAccepted: nat
    var queueCommitted: nat

    function State(dst: nat): IngressState<T>
      reads this
    {
      IngressState(dst, mailbox, proposed, hostAccepted, queueCommitted)
    }

    constructor (destination: SimQueue<T>)
      ensures this.destination == destination && State(0) == IngressState(0, None, false, 0, 0)
    {
      this.destination := destination;
      mailbox, proposed, hostAccepted, queueCommitted := None, false, 0, 0;
    }

    method Stage(value: T) returns (ok: bool)
      modifies this
      ensures (State(0), ok) == old(State(0)).Stage(value)
      ensures ok <==> old(mailbox).None? && !old(proposed)
      ensures mailbox == (if ok then Some(value) else old(mailbox)) && hostAccepted == old(hostAccepted) + (if ok then 1 else 0)
    {
      if mailbox.Some? || proposed {
        return false;
      }
      mailbox := Some(value);
      hostAccepted := hostAccepted + 1;
      return true;
    }

    method DoWork()
      requires destination.State().Valid()
      modifies this, destination`pushProposals
      ensures destination.State().Valid()
      ensures ([destination.State()], State(0)) == WorkIngress([old(destination.State())], old(State(0)))
    {
      if mailbox.Some? && !proposed {
        var ok := destination.ProposePush(mailbox.value);
        proposed := ok;
        assert [old(destination.State())][0 := destination.State()] == [destination.State()];
      }
    }

    method DoXfer()
      modifies this
      ensures State(0) == old(State(0)).Xfer()
    {
      if !proposed {
        return;
      }
      mailbox := None;
      proposed := false;
      queueCommitted := queueCommitted + 1;
    }
  }

  class HostEgress<T> {
    const source: SimQueue<T>
    var mailbox: Option<T>
    var proposedValue: Option<T>
    var proposed: bool
    var queueCommitted: nat
    var hostCompleted: nat

    function State(src: nat): EgressState<T>
      reads this
    {
      EgressState(src, mailbox, proposedValue, proposed, queueCommitted, hostCompleted)
    }

    constructor (source: SimQueue<T>)
      ensures this.source == source && State(0) == EgressState(0, None, None, false, 0, 0)
    {
      this.source := source;
      mailbox, proposedValue, proposed, queueCommitted, hostCompleted := None, None, false, 0, 0;
    }

    method Take() returns (r: Option<T>)
      modifies this
      ensures (State(0), r) == old(State(0)).Take()
      ensures r == old(mailbox) && mailbox == None && hostCompleted == old(hostCompleted) + (if r.Some? then 1 else 0)
    {
      if mailbox.None? {
        return None;
      }
      r := mailbox;
      mailbox := None;
      hostCompleted := hostCompleted + 1;
    }

    method DoWork()
      requires source.State().Valid()
      modifies this, source`popProposalCount
      ensures source.State().Valid()
      ensures ([source.State()], State(0)) == WorkEgress([old(source.State())], old(State(0)))
    {
      if mailbox.None? && !proposed {
        var value := source.ProposePop();
        if value.Some? {
          proposedValue := value;
          proposed := true;
          assert [old(source.State())][0 := source.State()] == [source.State()];
        }
      }
    }

    method DoXfer()
      modifies this
      ensures State(0) == old(State(0)).Xfer()
    {
      if !proposed {
        return;
      }
      mailbox := proposedValue;
      proposedValue := None;
      proposed := false;
      queueCommitted := queueCommitted + 1;
    }
  }
}
