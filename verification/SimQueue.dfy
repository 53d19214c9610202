/** `SimQueue<T>`: proposals during Work, published at the Xfer barrier. */
module SimQueues {
  import opened Wrappers

  /** Capacities, and the packet's serialized size (0 means the byte limit does not apply). */
  datatype Config = Config(entryCapacity: nat, byteCapacity: nat, elementBytes: nat) {

    predicate ExceedsBytes(elements: nat) {
      elementBytes != 0 && elements > byteCapacity / elementBytes
    }

    /** The serialized size of so many entries, one entry at a time. */
    ghost function Bytes(elements: nat): nat {
      if elements == 0 then 0 else elementBytes + Bytes(elements - 1)
    }

    /** What the capacities promise, without the floor division the code checks. */
    ghost predicate Fits(elements: nat) {
      elements <= entryCapacity && Bytes(elements) <= byteCapacity
    }
  }

  datatype Queue<T> = Queue(
    cfg: Config,
    committed: seq<T>,
    pushes: seq<T>,
    pops: nat,
    highWatermark: nat,
    totalPushes: nat,
    totalPops: nat)
  {
    predicate IsFull() {
      |committed| >= cfg.entryCapacity || cfg.ExceedsBytes(|committed| + 1)
    }

    predicate Accepts() {
      var occupied := |pushes| + |committed|;
      occupied < cfg.entryCapacity && !cfg.ExceedsBytes(occupied + 1)
    }

    /** The entries not yet spoken for by a pop, followed by the pending pushes. */
    function Live(): seq<T> {
      if pops <= |committed| then committed[pops..] + pushes else []
    }

    predicate AtBarrier() { pushes == [] && pops == 0 }

    ghost predicate Valid() {
      && pops <= |committed|
      && cfg.Fits(|committed| + |pushes|)
      && |committed| <= highWatermark
      && cfg.Fits(highWatermark)
      && totalPushes == totalPops + |committed|
    }

    function Push(x: T): (Queue<T>, bool) {
      if Accepts() then (this.(pushes := pushes + [x]), true) else (this, false)
    }

    function Pop(): (Queue<T>, Option<T>) {
      if pops < |committed| then (this.(pops := pops + 1), Some(committed[pops])) else (this, None)
    }

    /** Publication: the pushes arrive first, then the front `pops` entries leave. */
    function Xfer(): Queue<T> {
      var all := committed + pushes;
      var k := Min(pops, |all|);
      this.(committed := all[k..], pushes := [], pops := 0,
            totalPushes := totalPushes + |pushes|, totalPops := totalPops + k,
            highWatermark := Max(highWatermark, |all| - k))
    }
  }

  function Empty<T>(cfg: Config): Queue<T> {
    Queue(cfg, [], [], 0, 0, 0, 0)
  }

  /** When `proposeTransferTo` publishes its paired proposals. */
  predicate TransferPossible<T>(s: Queue<T>, d: Queue<T>) {
    s.pops < |s.committed| && d.Accepts()
  }

  /** The floor-division test admits exactly the element counts whose bytes fit. */
  lemma {:induction false} ByteTestExact(cfg: Config, n: nat)
    ensures !cfg.ExceedsBytes(n) <==> cfg.Bytes(n) <= cfg.byteCapacity
  {
    BytesProduct(cfg, n);
    if cfg.elementBytes != 0 {
      var b, q := cfg.elementBytes, cfg.byteCapacity / cfg.elementBytes;
      assert cfg.byteCapacity == q * b + cfg.byteCapacity % b;
      if n <= q {
        MulMonotone(n, q, b);
      } else {
        MulMonotone(q + 1, n, b);
      }
    }
  }

  lemma {:induction false} BytesProduct(cfg: Config, n: nat)
    ensures cfg.Bytes(n) == n * cfg.elementBytes
  {
    if n > 0 { BytesProduct(cfg, n - 1); }
  }

  lemma {:induction false} BytesMonotone(cfg: Config, m: nat, n: nat)
    requires m <= n
    ensures cfg.Bytes(m) <= cfg.Bytes(n)
    decreases n
  {
    if m < n { BytesMonotone(cfg, m, n - 1); }
  }

  lemma {:induction false} MulMonotone(m: nat, n: nat, b: nat)
    requires m <= n
    ensures m * b <= n * b
  {
  }

  /** A push is accepted exactly when one more entry still fits both capacities. */
  lemma {:induction false} AcceptsExact<T>(q: Queue<T>)
    ensures q.Accepts() <==> q.cfg.Fits(|q.committed| + |q.pushes| + 1)
  {
    ByteTestExact(q.cfg, |q.committed| + |q.pushes| + 1);
  }

  lemma {:induction false} PushValid<T>(q: Queue<T>, x: T)
    requires q.Valid()
    ensures q.Push(x).0.Valid()
    ensures q.Push(x).1 <==> q.cfg.Fits(|q.committed| + |q.pushes| + 1)
    ensures q.Push(x).0.Live() == q.Live() + (if q.Push(x).1 then [x] else [])
  {
    AcceptsExact(q);
    assert q.committed[q.pops..] + (q.pushes + [x]) == q.Live() + [x];
    assert q.Live() + [] == q.Live();
  }

  lemma {:induction false} PopValid<T>(q: Queue<T>)
    requires q.Valid()
    ensures q.Pop().0.Valid()
    ensures q.Pop().1.Some? ==> q.Live() == [q.Pop().1.value] + q.Pop().0.Live()
    ensures q.Pop().1.None? ==> q.Pop().0 == q
  {
    if q.pops < |q.committed| {
      assert q.committed[q.pops..] == [q.committed[q.pops]] + q.committed[q.pops + 1..];
    }
  }

  /** Publishing never reorders, drops or duplicates: the live sequence is untouched. */
  lemma {:induction false} XferValid<T>(q: Queue<T>)
    requires q.Valid()
    ensures q.Xfer().Valid() && q.Xfer().AtBarrier()
    ensures q.Xfer().committed == q.Live() == q.Xfer().Live()
    ensures q.Xfer().totalPushes == q.totalPushes + |q.pushes| && q.Xfer().totalPops == q.totalPops + q.pops
  {
    assert (q.committed + q.pushes)[q.pops..] == q.committed[q.pops..] + q.pushes;
    BytesMonotone(q.cfg, |q.Live()|, |q.committed| + |q.pushes|);
  }

  lemma {:induction false} XferIdempotent<T>(q: Queue<T>)
    requires q.AtBarrier() && |q.committed| <= q.highWatermark
    ensures q.Xfer() == q
  {
    assert q.committed + q.pushes == q.committed;
  }

  // ----- Every run is a FIFO -----

  datatype Op<T> = Push(x: T) | Pop | Commit

  /** A queue with the history of one run: values whose push was accepted, values handed out by
      pops, entries published by a barrier and entries removed by a barrier. */
  datatype History<T> = History(q: Queue<T>, admitted: seq<T>, delivered: seq<T>, published: seq<T>, removed: seq<T>)

  function Step<T>(h: History<T>, op: Op<T>): History<T> {
    match op
    case Push(x) =>
      var (q, ok) := h.q.Push(x);
      if ok then h.(q := q, admitted := h.admitted + [x]) else h.(q := q)
    case Pop =>
      var (q, v) := h.q.Pop();
      if v.Some? then h.(q := q, delivered := h.delivered + [v.value]) else h.(q := q)
    case Commit =>
      var all := h.q.committed + h.q.pushes;
      h.(q := h.q.Xfer(),
         published := h.published + h.q.pushes,
         removed := h.removed + all[..Min(h.q.pops, |all|)])
  }

  function Run<T>(h: History<T>, ops: seq<Op<T>>): History<T>
    decreases |ops|
  {
    if ops == [] then h else Run(Step(h, ops[0]), ops[1..])
  }

  /** The plain FIFO the queue refines, stated on histories alone. */
  ghost predicate Fifo<T>(h: History<T>) {
    && h.q.Valid()
    // entries leave in exactly the order they were admitted, and none is lost or duplicated
    && h.admitted == h.delivered + h.q.committed[h.q.pops..] + h.q.pushes
    // a pop only ever hands out entries published by an earlier barrier
    && h.published == h.delivered + h.q.committed[h.q.pops..]
    // a barrier removes exactly what was handed out
    && h.delivered == h.removed + h.q.committed[..h.q.pops]
    && h.published == h.removed + h.q.committed
    && h.q.totalPushes == |h.published| && h.q.totalPops == |h.removed|
  }

  lemma {:induction false} PopFifo<T>(h: History<T>)
    requires Fifo(h)
    ensures Fifo(Step(h, Pop))
  {
    var q := h.q;
    PopValid(q);
    if q.pops < |q.committed| {
      var v := q.committed[q.pops];
      assert q.committed[q.pops..] == [v] + q.committed[q.pops + 1..];
      assert q.committed[..q.pops + 1] == q.committed[..q.pops] + [v];
      assert h.delivered + [v] + q.committed[q.pops + 1..] == h.published;
      assert h.removed + (q.committed[..q.pops] + [v]) == h.delivered + [v];
    }
  }

  lemma {:induction false} CommitFifo<T>(h: History<T>)
    requires Fifo(h)
    ensures Fifo(Step(h, Commit))
  {
    var q := h.q;
    XferValid(q);
    var all := q.committed + q.pushes;
    assert all[..q.pops] == q.committed[..q.pops];
    assert all[q.pops..] == q.committed[q.pops..] + q.pushes;
    var h' := Step(h, Commit);
    assert h'.q.committed[0..] == h'.q.committed && h'.q.committed[..0] == [];
    assert h'.published == h.admitted == h.delivered + all[q.pops..];
    assert h'.delivered == h'.removed;
  }

  lemma {:induction false} StepFifo<T>(h: History<T>, op: Op<T>)
    requires Fifo(h)
    ensures Fifo(Step(h, op))
  {
    match op
    case Push(x) =>
      PushValid(h.q, x);
      assert h.delivered + h.q.committed[h.q.pops..] + (h.q.pushes + [x]) == h.admitted + [x];
    case Pop => PopFifo(h);
    case Commit => CommitFifo(h);
  }

  lemma {:induction false} RunFifo<T>(h: History<T>, ops: seq<Op<T>>)
    requires Fifo(h)
    ensures Fifo(Run(h, ops))
    decreases |ops|
  {
    if ops != [] {
      StepFifo(h, ops[0]);
      RunFifo(Step(h, ops[0]), ops[1..]);
    }
  }

  /** Every run of a fresh queue is a FIFO that never exceeds its entry and byte capacities. */
  lemma {:induction false} QueueRefinesFifo<T>(cfg: Config, ops: seq<Op<T>>)
    ensures var h := Run(History(Empty(cfg), [], [], [], []), ops);
      && Fifo(h)
      && h.q.totalPushes == h.q.totalPops + |h.q.committed|
      && |h.q.committed| <= h.q.highWatermark <= cfg.entryCapacity
      && h.q.highWatermark * cfg.elementBytes <= cfg.byteCapacity
  {
    var h := History(Empty<T>(cfg), [], [], [], []);
    RunFifo(h, ops);
    RunConfig(h, ops);
    BytesProduct(cfg, Run(h, ops).q.highWatermark);
  }

  lemma {:induction false} RunConfig<T>(h: History<T>, ops: seq<Op<T>>)
    ensures Run(h, ops).q.cfg == h.q.cfg
    decreases |ops|
  {
    if ops != [] { RunConfig(Step(h, ops[0]), ops[1..]); }
  }

  /** A pop hands out the next published value, and nothing exactly when all have been handed out. */
  lemma {:induction false} PopExactly<T>(h: History<T>)
    requires Fifo(h)
    ensures h.q.Pop().1 == if |h.delivered| < |h.published| then Some(h.published[|h.delivered|]) else None
  {
    assert h.published == h.delivered + h.q.committed[h.q.pops..];
  }

  // ----- The recorded peak -----

  /** The largest number of entries published at any instant of the run. */
  function Peak<T>(h: History<T>, ops: seq<Op<T>>): nat
    decreases |ops|
  {
    if ops == [] then |h.q.committed| else Max(|h.q.committed|, Peak(Step(h, ops[0]), ops[1..]))
  }

  lemma {:induction false} StepPeak<T>(h: History<T>, op: Op<T>)
    requires |h.q.committed| <= h.q.highWatermark
    ensures Step(h, op).q.highWatermark == Max(h.q.highWatermark, |Step(h, op).q.committed|)
  {
  }

  /** The recorded peak is the peak. */
  lemma {:induction false} PeakExact<T>(h: History<T>, ops: seq<Op<T>>)
    requires |h.q.committed| <= h.q.highWatermark
    ensures Run(h, ops).q.highWatermark == Max(h.q.highWatermark, Peak(h, ops))
    decreases |ops|
  {
    hide Step;
    if ops != [] {
      StepPeak(h, ops[0]);
      PeakExact(Step(h, ops[0]), ops[1..]);
    }
  }

  // ----- The runtime object -----

  class SimQueue<T> {
    const cfg: Config
    var committed: seq<T>
    var pushProposals: seq<T>
    var popProposalCount: nat
    var highWatermark: nat
    var totalPushes: nat
    var totalPops: nat

    function State(): Queue<T>
      reads this
    {
      Queue(cfg, committed, pushProposals, popProposalCount, highWatermark, totalPushes, totalPops)
    }

    constructor (cfg: Config)
      ensures State() == Empty(cfg) && State().Valid()
    {
      this.cfg := cfg;
      committed, pushProposals := [], [];
      popProposalCount, highWatermark, totalPushes, totalPops := 0, 0, 0, 0;
    }

    method ProposePush(element: T) returns (ok: bool)
      requires State().Valid()
      modifies this`pushProposals
      ensures (State(), ok) == old(State()).Push(element)
      ensures State().Valid()
      ensures ok <==> cfg.Fits(|committed| + |old(pushProposals)| + 1)
    {
      PushValid(State(), element);
      var occupied := |pushProposals| + |committed|;
      if occupied >= cfg.entryCapacity || cfg.ExceedsBytes(occupied + 1) {
        return false;
      }
      pushProposals := pushProposals + [element];
      return true;
    }

    method ProposePop() returns (r: Option<T>)
      requires State().Valid()
      modifies this`popProposalCount
      ensures (State(), r) == old(State()).Pop()
      ensures State().Valid()
    {
      PopValid(State());
      if popProposalCount >= |committed| {
        return None;
      }
      var index := popProposalCount;
      popProposalCount := popProposalCount + 1;
      return Some(committed[index]);
    }

    method ProposeTransferTo(destination: SimQueue<T>) returns (ok: bool)
      requires State().Valid() && destination.State().Valid()
      modifies this`popProposalCount, destination`pushProposals
      ensures State().Valid() && destination.State().Valid()
      ensures ok <==> TransferPossible(old(State()), old(destination.State()))
      ensures popProposalCount == old(popProposalCount) + (if ok then 1 else 0)
      ensures destination.pushProposals ==
                old(destination.pushProposals) + (if ok then [committed[old(popProposalCount)]] else [])
    {
      AcceptsExact(destination.State());
      if popProposalCount >= |committed| {
        return false;
      }
      var occupied := |destination.pushProposals| + |destination.committed|;
      if occupied >= destination.cfg.entryCapacity || destination.cfg.ExceedsBytes(occupied + 1) {
        return false;
      }
      destination.pushProposals := destination.pushProposals + [committed[popProposalCount]];
      popProposalCount := popProposalCount + 1;
      return true;
    }

    /** The two commit loops of `doXfer`, in source order. */
    method DoXfer()
      requires State().Valid()
      modifies this
      ensures State() == old(State()).Xfer()
      ensures State().Valid() && committed == old(State().Live())
    {
      XferValid(State());
      ghost var q := State();
      var i := 0;
      while i < |pushProposals|
        invariant pushProposals == q.pushes && 0 <= i <= |q.pushes|
        invariant State() == q.(committed := q.committed + q.pushes[..i], totalPushes := q.totalPushes + i)
      {
        committed := committed + [pushProposals[i]];
        totalPushes := totalPushes + 1;
        i := i + 1;
        assert q.pushes[..i] == q.pushes[..i - 1] + [q.pushes[i - 1]];
        assert q.committed + q.pushes[..i] == q.committed + q.pushes[..i - 1] + [q.pushes[i - 1]];
      }
      pushProposals := [];
      ghost var all := q.committed + q.pushes;
      assert q.pushes[..i] == q.pushes;
      i := 0;
      while i < popProposalCount && |committed| > 0
        invariant 0 <= i <= popProposalCount && i <= |all|
        invariant State() == q.(committed := all[i..], pushes := [],
                                totalPushes := q.totalPushes + |q.pushes|, totalPops := q.totalPops + i)
        decreases popProposalCount - i
      {
        committed := committed[1..];
        totalPops := totalPops + 1;
        i := i + 1;
      }
      popProposalCount := 0;
      if |committed| > highWatermark {
        highWatermark := |committed|;
      }
    }
  }
}
