/** `TimedEventQueue<T>`: a bounded queue of delayed events. */
module TimedEventQueues {
  import opened Wrappers
  import opened Ordering
  import opened Core

  datatype Failure = NegativeEventDelay | TickOverflow | EventSequenceOverflow

  datatype Entry<T> = Entry(ready: Time, sequence: nat, value: T)

  /** `Earlier`. */
  function EntryKey<T>(e: Entry<T>): Key { [e.ready.tick, e.ready.delta, e.sequence] }

  /** `std::multiset::insert`, one entry after another. */
  function InsertAll<T>(committed: seq<Entry<T>>, entries: seq<Entry<T>>): (r: seq<Entry<T>>)
    ensures |r| == |committed| + |entries|
    decreases |entries|
  {
    if entries == [] then committed else InsertAll(Insert(EntryKey<T>, entries[0], committed), entries[1..])
  }

  lemma {:induction false} InsertAllKeeps<T>(committed: seq<Entry<T>>, entries: seq<Entry<T>>)
    ensures multiset(InsertAll(committed, entries)) == multiset(committed) + multiset(entries)
    decreases |entries|
  {
    if entries != [] {
      InsertAllKeeps(Insert(EntryKey<T>, entries[0], committed), entries[1..]);
      assert entries == [entries[0]] + entries[1..];
    }
  }

  datatype TimedQueue<T> = TimedQueue(
    capacity: nat,
    committed: seq<Entry<T>>,
    proposals: seq<Entry<T>>,
    pops: nat,
    nextSequence: nat,
    highWatermark: nat,
    totalPushes: nat,
    totalPops: nat,
    failure: Option<Failure>)
  {
    function TrySchedule(value: T, now: Time, delay: int): (TimedQueue<T>, bool) {
      if delay < 0 then (this.(failure := Some(NegativeEventDelay)), false)
      else if now.tick > MAX_U64 - delay then (this.(failure := Some(TickOverflow)), false)
      else if |committed| + |proposals| >= capacity then (this, false)
      else if nextSequence == MAX_U64 then (this.(failure := Some(EventSequenceOverflow)), false)
      else (this.(proposals := proposals + [Issued(value, now, delay)], nextSequence := nextSequence + 1), true)
    }

    /** A delay of zero stays in this delta; any other starts a later tick. */
    function Issued(value: T, now: Time, delay: nat): Entry<T> {
      Entry(Time(now.tick + delay, if delay == 0 then now.delta else 0), nextSequence, value)
    }

    function TryRecv(now: Time): (TimedQueue<T>, Option<Entry<T>>) {
      if pops >= |committed| || now.Before(committed[pops].ready) then (this, None)
      else (this.(pops := pops + 1), Some(committed[pops]))
    }

    function Xfer(): TimedQueue<T> {
      var k := Min(pops, |committed|);
      var all := InsertAll(committed[k..], proposals);
      this.(committed := all, proposals := [], pops := 0, totalPops := totalPops + k,
            totalPushes := totalPushes + |proposals|, highWatermark := Max(highWatermark, |all|))
    }
  }

  function Empty<T>(capacity: nat): TimedQueue<T> {
    TimedQueue(capacity, [], [], 0, 0, 0, 0, 0, None)
  }

  // ----- The order of entries -----

  lemma {:induction false} LessEntries<T>(x: Entry<T>, y: Entry<T>)
    ensures Less(EntryKey(x), EntryKey(y)) <==> x.ready.Before(y.ready) || (x.ready == y.ready && x.sequence < y.sequence)
  {
    var (a1, a2, a3) := (x.ready.tick, x.ready.delta, x.sequence);
    var (b1, b2, b3) := (y.ready.tick, y.ready.delta, y.sequence);
    LessFirst(a1, [a2, a3], b1, [b2, b3]);
    LessFirst(a2, [a3], b2, [b3]);
    LessFirst(a3, [], b3, []);
    assert [a1] + [a2, a3] == EntryKey(x) && [b1] + [b2, b3] == EntryKey(y);
    assert [a2] + [a3] == [a2, a3] && [b2] + [b3] == [b2, b3] && [a3] + [] == [a3] && [b3] + [] == [b3];
  }

  /** Everything in `a` precedes everything in `b`. */
  ghost predicate Precede<T>(key: T -> Key, a: seq<T>, b: seq<T>) {
    forall i, j :: 0 <= i < |a| && 0 <= j < |b| ==> Less(key(a[i]), key(b[j]))
  }

  lemma {:induction false} StrictConcat<T>(key: T -> Key, a: seq<T>, b: seq<T>)
    ensures StrictlySorted(key, a + b) <==> StrictlySorted(key, a) && StrictlySorted(key, b) && Precede(key, a, b)
  {
    var c := a + b;
    forall i | 0 <= i < |a| ensures c[i] == a[i] {}
    forall j | 0 <= j < |b| ensures c[|a| + j] == b[j] {}
    if StrictlySorted(key, c) {
      forall i, j | 0 <= i < j < |b| ensures Less(key(b[i]), key(b[j])) {
        assert Less(key(c[|a| + i]), key(c[|a| + j]));
      }
      forall i, j | 0 <= i < |a| && 0 <= j < |b| ensures Less(key(a[i]), key(b[j])) {
        assert Less(key(c[i]), key(c[|a| + j]));
      }
    }
    if StrictlySorted(key, a) && StrictlySorted(key, b) && Precede(key, a, b) {
      forall i, j | 0 <= i < j < |c| ensures Less(key(c[i]), key(c[j])) {
        if i < |a| <= j { assert c[j] == b[j - |a|]; }
        if |a| <= i { assert c[i] == b[i - |a|] && c[j] == b[j - |a|]; }
      }
    }
  }

  lemma {:induction false} InsertAfter<T>(key: T -> Key, done: seq<T>, p: T, rest: seq<T>)
    requires StrictlySorted(key, done + rest) && Precede(key, done, [p])
    requires forall i :: 0 <= i < |rest| ==> key(rest[i]) != key(p)
    ensures StrictlySorted(key, done + Insert(key, p, rest))
  {
    var r := Insert(key, p, rest);
    StrictConcat(key, done, rest);
    InsertStrict(key, p, rest);
    forall i, j | 0 <= i < |done| && 0 <= j < |r| ensures Less(key(done[i]), key(r[j])) {
      assert r[j] in multiset(r);
      if r[j] == p {
        assert Less(key(done[i]), key([p][0]));
      } else {
        assert r[j] in rest;
      }
    }
    StrictConcat(key, done, r);
  }

  /** New entries: numbered from `base` and not ready before anything already delivered. */
  ghost predicate Fresh<T>(done: seq<Entry<T>>, rest: seq<Entry<T>>, entries: seq<Entry<T>>, base: nat) {
    && (forall i :: 0 <= i < |done| ==> done[i].sequence < base)
    && (forall i :: 0 <= i < |rest| ==> rest[i].sequence < base)
    && (forall i :: 0 <= i < |entries| ==> entries[i].sequence == base + i)
    && (forall i, j :: 0 <= i < |done| && 0 <= j < |entries| ==> done[i].ready.NotAfter(entries[j].ready))
  }

  /** Publishing new entries keeps everything delivered so far in front of everything still held. */
  lemma {:induction false} InsertAllAfter<T>(done: seq<Entry<T>>, rest: seq<Entry<T>>, entries: seq<Entry<T>>, base: nat)
    requires StrictlySorted(EntryKey<T>, done + rest) && Fresh(done, rest, entries, base)
    ensures StrictlySorted(EntryKey<T>, done + InsertAll(rest, entries))
    ensures forall i :: 0 <= i < |InsertAll(rest, entries)| ==> InsertAll(rest, entries)[i].sequence < base + |entries|
    decreases |entries|
  {
    if entries != [] {
      var p, tail := entries[0], entries[1..];
      var grown := Insert(EntryKey<T>, p, rest);
      forall i | 0 <= i < |done| ensures Less(EntryKey(done[i]), EntryKey(p)) { LessEntries(done[i], p); }
      InsertAfter(EntryKey<T>, done, p, rest);
      forall i | 0 <= i < |grown| ensures grown[i].sequence < base + 1 {
        assert grown[i] in multiset(grown);
        assert grown[i] == p || grown[i] in rest;
      }
      forall j | 0 <= j < |tail| ensures tail[j] == entries[j + 1] {}
      InsertAllAfter(done, grown, tail, base + 1);
    }
  }

  // ----- When an event is accepted and when it is ready -----

  /** An event is accepted exactly when its delay is not negative, its tick fits 64 bits, there is room
      and a sequence number is left. A refusal for want of room changes nothing, and the other three
      record which they are. */
  lemma {:induction false} ScheduleExactly<T>(q: TimedQueue<T>, value: T, now: Time, delay: int)
    ensures var (r, ok) := q.TrySchedule(value, now, delay);
      && (ok <==> (delay >= 0 && now.tick + delay <= MAX_U64 && |q.committed| + |q.proposals| < q.capacity
            && q.nextSequence != MAX_U64))
      && (delay < 0 ==> r.failure == Some(NegativeEventDelay))
      && (delay >= 0 && now.tick + delay > MAX_U64 ==> r.failure == Some(TickOverflow))
      && (delay >= 0 && now.tick + delay <= MAX_U64 && |q.committed| + |q.proposals| >= q.capacity ==> r == q)
      && ((delay >= 0 && now.tick + delay <= MAX_U64 && |q.committed| + |q.proposals| < q.capacity
            && q.nextSequence == MAX_U64) ==> r.failure == Some(EventSequenceOverflow))
      && (ok ==> r.failure == q.failure && r.nextSequence == q.nextSequence + 1)
      && (!ok ==> r.(failure := q.failure) == q)
  {
  }

  /** An event scheduled alone and published is handed out from its tick on, in any delta of it, when
      its delay is positive, and from the scheduling epoch on when it is zero. */
  lemma {:induction false} ReadyExactly<T>(q: TimedQueue<T>, value: T, now: Time, delay: int, t: Time)
    requires q.committed == [] && q.proposals == [] && q.pops == 0
    requires q.TrySchedule(value, now, delay).1
    ensures var (r, e) := q.TrySchedule(value, now, delay).0.Xfer().TryRecv(t);
      && (delay > 0 ==> (e.Some? <==> t.tick >= now.tick + delay))
      && (delay == 0 ==> (e.Some? <==> now.NotAfter(t)))
      && (e.Some? ==> e.value.value == value && r.pops == 1)
  {
    hide InsertAll;
    var p := q.TrySchedule(value, now, delay).0;
    assert p.proposals == [p.proposals[0]];
    InsertOne([], p.proposals[0]);
    assert p.committed[0..] == [];
  }

  lemma {:induction false} InsertOne<T>(s: seq<Entry<T>>, e: Entry<T>)
    requires s == []
    ensures InsertAll(s, [e]) == [e]
  {
    assert InsertAll([e], [e][1..]) == [e];
  }

  // ----- Runs -----

  datatype Action<T> = Schedule(value: T, delay: int) | Recv | Commit
  datatype Op<T> = Op(now: Time, action: Action<T>)

  /** A queue with one run's history: entries accepted, entries handed out and when, entries erased
      at a barrier. */
  datatype History<T> = History(
    q: TimedQueue<T>, scheduled: seq<Entry<T>>, delivered: seq<Entry<T>>, at: seq<Time>, removed: seq<Entry<T>>)

  function Step<T>(h: History<T>, op: Op<T>): History<T> {
    var q := h.q;
    match op.action
    case Schedule(value, delay) =>
      var (r, ok) := q.TrySchedule(value, op.now, delay);
      h.(q := r, scheduled := h.scheduled + if ok then [q.Issued(value, op.now, delay)] else [])
    case Recv =>
      var (r, e) := q.TryRecv(op.now);
      if e.Some? then h.(q := r, delivered := h.delivered + [e.value], at := h.at + [op.now]) else h
    case Commit =>
      h.(q := q.Xfer(), removed := h.removed + q.committed[..Min(q.pops, |q.committed|)])
  }

  function Run<T>(h: History<T>, ops: seq<Op<T>>): History<T>
    decreases |ops|
  {
    if ops == [] then h else Run(Step(h, ops[0]), ops[1..])
  }

  function Start<T>(capacity: nat): History<T> {
    History(Empty(capacity), [], [], [], [])
  }

  /** Epochs never decrease, and the last thing before a new epoch is the barrier. */
  ghost predicate Disciplined<T>(ops: seq<Op<T>>) {
    forall i :: 0 <= i < |ops| - 1 ==>
      ops[i].now.NotAfter(ops[i + 1].now) && (ops[i].now == ops[i + 1].now || ops[i].action.Commit?)
  }

  ghost function Flow<T>(h: History<T>): seq<Entry<T>> { h.removed + h.q.committed }

  /** Whatever the epochs do: capacity, counters, and exactly the entries handed out are erased. */
  ghost predicate Tracked<T>(h: History<T>) {
    var q := h.q;
    && q.pops <= |q.committed|
    && h.delivered == h.removed + q.committed[..q.pops]
    && q.totalPops == |h.removed| && q.totalPushes == q.totalPops + |q.committed|
    && |q.committed| + |q.proposals| <= q.capacity
    && |q.committed| <= q.highWatermark <= q.capacity
  }

  /** Every accepted entry is in exactly one place. */
  ghost predicate Conserved<T>(h: History<T>) {
    multiset(h.scheduled) == multiset(h.removed) + multiset(h.q.committed) + multiset(h.q.proposals)
  }

  /** Every accepted entry has its own number, and pending ones have the latest. */
  ghost predicate Numbered<T>(h: History<T>) {
    var q := h.q;
    && |q.proposals| <= q.nextSequence == |h.scheduled| <= MAX_U64
    && (forall i :: 0 <= i < |h.scheduled| ==> h.scheduled[i].sequence == i && h.scheduled[i].ready.tick <= MAX_U64)
    && (forall i :: 0 <= i < |q.proposals| ==> q.proposals[i].sequence == q.nextSequence - |q.proposals| + i)
    && (forall i :: 0 <= i < |h.removed| ==> h.removed[i].sequence < q.nextSequence - |q.proposals|)
    && (forall i :: 0 <= i < |q.committed| ==> q.committed[i].sequence < q.nextSequence - |q.proposals|)
  }

  /** Nothing is handed out early; nothing pending is ready before the current epoch. */
  ghost predicate Timely<T>(h: History<T>, now: Time) {
    && |h.at| == |h.delivered|
    && (forall i :: 0 <= i < |h.at| ==> h.delivered[i].ready.NotAfter(h.at[i]) && h.at[i].NotAfter(now))
    && (forall i :: 0 <= i < |h.q.proposals| ==> now.NotAfter(h.q.proposals[i].ready))
  }

  ghost predicate Safe<T>(h: History<T>, now: Time) {
    Tracked(h) && Numbered(h) && Conserved(h) && Timely(h, now) && StrictlySorted(EntryKey<T>, Flow(h))
  }

  lemma {:induction false} ScheduleSafe<T>(h: History<T>, now: Time, value: T, delay: int)
    requires Safe(h, now)
    ensures Safe(Step(h, Op(now, Schedule(value, delay))), now)
  {
    hide Numbered, Conserved, StrictlySorted;
    ScheduleConserved(h, now, value, delay);
    ScheduleNumbered(h, now, value, delay);
  }

  lemma {:induction false} ScheduleConserved<T>(h: History<T>, now: Time, value: T, delay: int)
    requires Conserved(h)
    ensures Conserved(Step(h, Op(now, Schedule(value, delay))))
  {
  }

  lemma {:induction false} ScheduleNumbered<T>(h: History<T>, now: Time, value: T, delay: int)
    requires Numbered(h)
    ensures Numbered(Step(h, Op(now, Schedule(value, delay))))
  {
  }

  lemma {:induction false} RecvSafe<T>(h: History<T>, now: Time)
    requires Safe(h, now)
    ensures Safe(Step(h, Op(now, Recv)), now)
  {
    var q := h.q;
    if q.pops < |q.committed| {
      assert q.committed[..q.pops + 1] == q.committed[..q.pops] + [q.committed[q.pops]];
      assert h.delivered + [q.committed[q.pops]] == h.removed + (q.committed[..q.pops] + [q.committed[q.pops]]);
    }
  }

  lemma {:induction false} CommitTracked<T>(h: History<T>)
    requires Tracked(h)
    ensures var g := Step(h, Op(Time(0, 0), Commit)); Tracked(g) && g.removed == h.delivered
  {
    var g := Step(h, Op(Time(0, 0), Commit));
    assert g.q.committed[..0] == [];
  }

  lemma {:induction false} CommitNumbered<T>(h: History<T>)
    requires Tracked(h) && Numbered(h)
    requires forall i :: 0 <= i < |h.q.Xfer().committed| ==> h.q.Xfer().committed[i].sequence < h.q.nextSequence
    ensures Numbered(Step(h, Op(Time(0, 0), Commit)))
  {
    hide InsertAll;
    var q, g := h.q, Step(h, Op(Time(0, 0), Commit));
    forall i | 0 <= i < |g.removed| ensures g.removed[i].sequence < q.nextSequence {
      assert g.removed[i] == if i < |h.removed| then h.removed[i] else q.committed[i - |h.removed|];
    }
  }

  lemma {:induction false} CommitConserved<T>(h: History<T>)
    requires Tracked(h) && Conserved(h)
    ensures Conserved(Step(h, Op(Time(0, 0), Commit)))
  {
    hide InsertAll;
    var q := h.q;
    assert q.committed == q.committed[..q.pops] + q.committed[q.pops..];
    InsertAllKeeps(q.committed[q.pops..], q.proposals);
  }

  lemma {:induction false} CommitSafe<T>(h: History<T>, now: Time)
    requires Safe(h, now)
    ensures Safe(Step(h, Op(now, Commit)), now)
  {
    hide InsertAll, StrictlySorted, Numbered, Conserved;
    var q := h.q;
    var done, rest := h.delivered, q.committed[q.pops..];
    assert h.removed + q.committed == done + rest;
    forall i, j | 0 <= i < |done| && 0 <= j < |q.proposals| ensures done[i].ready.NotAfter(q.proposals[j].ready) {
      assert h.at[i].NotAfter(now) && now.NotAfter(q.proposals[j].ready);
    }
    CommitFresh(h);
    InsertAllAfter(done, rest, q.proposals, q.nextSequence - |q.proposals|);
    CommitTracked(h);
    CommitNumbered(h);
    CommitConserved(h);
  }

  lemma {:induction false} CommitFresh<T>(h: History<T>)
    requires Tracked(h) && Numbered(h)
    requires forall i, j :: 0 <= i < |h.delivered| && 0 <= j < |h.q.proposals| ==> h.delivered[i].ready.NotAfter(h.q.proposals[j].ready)
    ensures |h.q.proposals| <= h.q.nextSequence
    ensures Fresh(h.delivered, h.q.committed[h.q.pops..], h.q.proposals, h.q.nextSequence - |h.q.proposals|)
  {
    var q := h.q;
    forall i | 0 <= i < |h.delivered| ensures h.delivered[i].sequence < q.nextSequence - |q.proposals| {
      assert h.delivered[i] == if i < |h.removed| then h.removed[i] else q.committed[i - |h.removed|];
    }
  }

  lemma {:induction false} StepSafe<T>(h: History<T>, op: Op<T>)
    requires Safe(h, op.now)
    ensures Safe(Step(h, op), op.now)
  {
    match op.action
    case Schedule(value, delay) => ScheduleSafe(h, op.now, value, delay);
    case Recv => RecvSafe(h, op.now);
    case Commit => CommitSafe(h, op.now);
  }

  /** With nothing pending, time may pass. */
  lemma {:induction false} Advance<T>(h: History<T>, now: Time, later: Time)
    requires Safe(h, now) && now.NotAfter(later) && (now == later || h.q.proposals == [])
    ensures Safe(h, later)
  {
  }

  lemma {:induction false} RunSafe<T>(h: History<T>, now: Time, ops: seq<Op<T>>) returns (end: Time)
    requires Safe(h, now) && Disciplined(ops)
    requires ops != [] ==> now.NotAfter(ops[0].now) && (now == ops[0].now || h.q.proposals == [])
    ensures Safe(Run(h, ops), end)
    decreases |ops|
  {
    end := now;
    if ops != [] {
      Advance(h, now, ops[0].now);
      StepSafe(h, ops[0]);
      var tail := ops[1..];
      forall i | 0 <= i < |tail| - 1
        ensures tail[i].now.NotAfter(tail[i + 1].now) && (tail[i].now == tail[i + 1].now || tail[i].action.Commit?)
      {
        assert tail[i] == ops[i + 1] && tail[i + 1] == ops[i + 2];
      }
      if |ops| > 1 { assert tail[0] == ops[0 + 1]; }
      end := RunSafe(Step(h, ops[0]), ops[0].now, tail);
    }
  }

  /** Every disciplined run, at every instant: what is handed out is strictly increasing in (ready
      epoch, sequence), never early, never twice; capacity and counters are exact. */
  lemma {:induction false} DeliveredInOrder<T>(capacity: nat, ops: seq<Op<T>>)
    requires Disciplined(ops)
    ensures var h := Run(Start<T>(capacity), ops);
      && Tracked(h) && Numbered(h)
      && StrictlySorted(EntryKey<T>, h.delivered)
      && |h.at| == |h.delivered| && (forall i :: 0 <= i < |h.at| ==> h.delivered[i].ready.NotAfter(h.at[i]))
      && multiset(h.scheduled) == multiset(h.delivered) + multiset(h.q.committed[h.q.pops..]) + multiset(h.q.proposals)
  {
    hide Step, Run, Numbered, Conserved, StrictlySorted;
    var start := Start<T>(capacity);
    var h := Run(start, ops);
    var first := if ops == [] then Time(0, 0) else ops[0].now;
    StartSafe<T>(capacity, first);
    var end := RunSafe(start, first, ops);
    DeliveredFirst(h);
  }

  lemma {:induction false} StartSafe<T>(capacity: nat, now: Time)
    ensures Safe(Start<T>(capacity), now)
  {
  }

  lemma {:induction false} DeliveredFirst<T>(h: History<T>)
    requires Tracked(h) && Conserved(h) && StrictlySorted(EntryKey<T>, Flow(h))
    ensures StrictlySorted(EntryKey<T>, h.delivered)
    ensures multiset(h.scheduled) == multiset(h.delivered) + multiset(h.q.committed[h.q.pops..]) + multiset(h.q.proposals)
  {
    hide StrictlySorted;
    var rest := h.q.committed[h.q.pops..];
    assert h.q.committed == h.q.committed[..h.q.pops] + rest;
    assert Flow(h) == h.delivered + rest;
    StrictConcat(EntryKey<T>, h.delivered, rest);
  }

  // ----- Exactly when delivery stays in order -----

  /** What the caller of the barrier can check: nothing pending is ready before the last entry handed
      out. */
  predicate InTime<T>(h: History<T>) {
    forall i :: 0 <= i < |h.q.proposals| && h.delivered != [] ==>
      h.delivered[|h.delivered| - 1].ready.NotAfter(h.q.proposals[i].ready)
  }

  /** Every barrier of the run found its pending entries in time. */
  predicate AllInTime<T>(h: History<T>, ops: seq<Op<T>>)
    decreases |ops|
  {
    ops == [] || ((ops[0].action.Commit? ==> InTime(h)) && AllInTime(Step(h, ops[0]), ops[1..]))
  }

  /** What holds in every run, whatever the epochs of its operations: nothing is handed out early. */
  ghost predicate Steady<T>(h: History<T>) {
    && Tracked(h) && Numbered(h) && Conserved(h) && StrictlySorted(EntryKey<T>, h.q.committed)
    && |h.at| == |h.delivered| && (forall i :: 0 <= i < |h.at| ==> h.delivered[i].ready.NotAfter(h.at[i]))
  }

  lemma {:induction false} SplitFlow<T>(h: History<T>)
    requires Tracked(h)
    ensures Flow(h) == h.delivered + h.q.committed[h.q.pops..]
    ensures Flow(Step(h, Op(Time(0, 0), Commit))) == h.delivered + InsertAll(h.q.committed[h.q.pops..], h.q.proposals)
  {
    hide InsertAll;
    assert h.q.committed == h.q.committed[..h.q.pops] + h.q.committed[h.q.pops..];
  }

  lemma {:induction false} InsertAllHolds<T>(rest: seq<Entry<T>>, entries: seq<Entry<T>>)
    ensures forall i :: 0 <= i < |rest| ==> rest[i] in InsertAll(rest, entries)
    ensures forall i :: 0 <= i < |entries| ==> entries[i] in InsertAll(rest, entries)
  {
    var all := InsertAll(rest, entries);
    InsertAllKeeps(rest, entries);
    forall i | 0 <= i < |rest| ensures rest[i] in all { assert rest[i] in multiset(rest) && rest[i] in multiset(all); }
    forall i | 0 <= i < |entries| ensures entries[i] in all {
      assert entries[i] in multiset(entries) && entries[i] in multiset(all);
    }
  }

  lemma {:induction false} DoneInTime<T>(h: History<T>)
    requires StrictlySorted(EntryKey<T>, h.delivered) && InTime(h)
    ensures forall i, j :: 0 <= i < |h.delivered| && 0 <= j < |h.q.proposals| ==>
      h.delivered[i].ready.NotAfter(h.q.proposals[j].ready)
  {
    forall i, j | 0 <= i < |h.delivered| && 0 <= j < |h.q.proposals|
      ensures h.delivered[i].ready.NotAfter(h.q.proposals[j].ready)
    {
      LessEntries(h.delivered[i], h.delivered[|h.delivered| - 1]);
    }
  }

  lemma {:induction false} CommitInOrder<T>(h: History<T>)
    requires Tracked(h) && Numbered(h) && StrictlySorted(EntryKey<T>, Flow(h)) && InTime(h)
    ensures StrictlySorted(EntryKey<T>, Flow(Step(h, Op(Time(0, 0), Commit))))
  {
    hide StrictlySorted, InsertAll, InTime, Numbered;
    var q := h.q;
    SplitFlow(h);
    StrictConcat(EntryKey<T>, h.delivered, q.committed[q.pops..]);
    DoneInTime(h);
    CommitFresh(h);
    InsertAllAfter(h.delivered, q.committed[q.pops..], q.proposals, q.nextSequence - |q.proposals|);
  }

  lemma {:induction false} CommitShows<T>(h: History<T>)
    requires Tracked(h) && StrictlySorted(EntryKey<T>, h.q.committed)
    requires StrictlySorted(EntryKey<T>, Flow(Step(h, Op(Time(0, 0), Commit))))
    ensures StrictlySorted(EntryKey<T>, Flow(h)) && InTime(h)
  {
    hide StrictlySorted, InsertAll;
    var done, rest, entries := h.delivered, h.q.committed[h.q.pops..], h.q.proposals;
    var all := InsertAll(rest, entries);
    SplitFlow(h);
    StrictConcat(EntryKey<T>, done, all);
    InsertAllHolds(rest, entries);
    assert h.q.committed == h.q.committed[..h.q.pops] + rest;
    StrictConcat(EntryKey<T>, h.q.committed[..h.q.pops], rest);
    forall i, j | 0 <= i < |done| && 0 <= j < |rest| ensures Less(EntryKey(done[i]), EntryKey(rest[j])) {
      var k :| 0 <= k < |all| && all[k] == rest[j];
      assert Less(EntryKey(done[i]), EntryKey(all[k]));
    }
    StrictConcat(EntryKey<T>, done, rest);
    forall i | 0 <= i < |entries| && done != [] ensures done[|done| - 1].ready.NotAfter(entries[i].ready) {
      var k :| 0 <= k < |all| && all[k] == entries[i];
      assert Less(EntryKey(done[|done| - 1]), EntryKey(all[k]));
      LessEntries(done[|done| - 1], entries[i]);
    }
  }

  /** A barrier leaves everything handed out and everything held in one strict order exactly when
      they were in order and the entries it publishes are in time. */
  lemma {:induction false} CommitExact<T>(h: History<T>)
    requires Tracked(h) && Numbered(h) && StrictlySorted(EntryKey<T>, h.q.committed)
    ensures StrictlySorted(EntryKey<T>, Flow(Step(h, Op(Time(0, 0), Commit)))) <==>
      StrictlySorted(EntryKey<T>, Flow(h)) && InTime(h)
  {
    hide StrictlySorted, Step, InTime, Numbered, Tracked, Flow;
    if StrictlySorted(EntryKey<T>, Flow(h)) && InTime(h) { CommitInOrder(h); }
    if StrictlySorted(EntryKey<T>, Flow(Step(h, Op(Time(0, 0), Commit)))) { CommitShows(h); }
  }

  /** The held entries alone are always in order and numbered before the pending ones. */
  lemma {:induction false} CommitHeld<T>(h: History<T>)
    requires Tracked(h) && Numbered(h) && StrictlySorted(EntryKey<T>, h.q.committed)
    ensures StrictlySorted(EntryKey<T>, h.q.Xfer().committed)
    ensures forall i :: 0 <= i < |h.q.Xfer().committed| ==> h.q.Xfer().committed[i].sequence < h.q.nextSequence
  {
    hide StrictlySorted, InsertAll;
    var q := h.q;
    var rest := q.committed[q.pops..];
    assert q.committed == q.committed[..q.pops] + rest && [] + rest == rest;
    StrictConcat(EntryKey<T>, q.committed[..q.pops], rest);
    InsertAllAfter([], rest, q.proposals, q.nextSequence - |q.proposals|);
    assert [] + InsertAll(rest, q.proposals) == InsertAll(rest, q.proposals);
  }

  lemma {:induction false} CommitSteady<T>(h: History<T>)
    requires Steady(h)
    ensures Steady(Step(h, Op(Time(0, 0), Commit)))
  {
    hide StrictlySorted, InsertAll, Numbered, Conserved;
    CommitHeld(h);
    CommitTracked(h);
    CommitNumbered(h);
    CommitConserved(h);
  }

  lemma {:induction false} RecvSteady<T>(h: History<T>, now: Time)
    requires Steady(h)
    ensures Steady(Step(h, Op(now, Recv))) && Flow(Step(h, Op(now, Recv))) == Flow(h)
  {
    hide StrictlySorted;
    var q := h.q;
    if q.pops < |q.committed| {
      assert q.committed[..q.pops + 1] == q.committed[..q.pops] + [q.committed[q.pops]];
      assert h.delivered + [q.committed[q.pops]] == h.removed + (q.committed[..q.pops] + [q.committed[q.pops]]);
    }
  }

  lemma {:induction false} ScheduleSteady<T>(h: History<T>, now: Time, value: T, delay: int)
    requires Steady(h)
    ensures Steady(Step(h, Op(now, Schedule(value, delay)))) && Flow(Step(h, Op(now, Schedule(value, delay)))) == Flow(h)
  {
    hide Numbered, Conserved, StrictlySorted;
    ScheduleConserved(h, now, value, delay);
    ScheduleNumbered(h, now, value, delay);
  }

  lemma {:induction false} StepExact<T>(h: History<T>, op: Op<T>)
    requires Steady(h)
    ensures Steady(Step(h, op))
    ensures StrictlySorted(EntryKey<T>, Flow(Step(h, op))) <==>
      StrictlySorted(EntryKey<T>, Flow(h)) && (op.action.Commit? ==> InTime(h))
  {
    hide StrictlySorted, Numbered, Conserved, Tracked, InTime, Flow;
    match op.action
    case Schedule(value, delay) => ScheduleSteady(h, op.now, value, delay);
    case Recv => RecvSteady(h, op.now);
    case Commit =>
      CommitSteady(h);
      CommitExact(h);
      assert Step(h, op) == Step(h, Op(Time(0, 0), Commit));
  }

  lemma {:induction false} RunExact<T>(h: History<T>, ops: seq<Op<T>>)
    requires Steady(h)
    ensures Steady(Run(h, ops))
    ensures StrictlySorted(EntryKey<T>, Flow(Run(h, ops))) <==> StrictlySorted(EntryKey<T>, Flow(h)) && AllInTime(h, ops)
    decreases |ops|
  {
    hide StrictlySorted, Steady, InTime, Flow, Step;
    if ops != [] {
      StepExact(h, ops[0]);
      RunExact(Step(h, ops[0]), ops[1..]);
    }
  }

  /** Every run of any operations at any epochs: nothing is lost, repeated or handed out early, and
      everything handed out followed by everything held is strictly increasing in (ready epoch,
      sequence) exactly when every barrier found its pending entries in time. */
  lemma {:induction false} OrderedExactly<T>(capacity: nat, ops: seq<Op<T>>)
    ensures var h := Run(Start<T>(capacity), ops);
      && Steady(h)
      && multiset(h.scheduled) == multiset(h.delivered) + multiset(h.q.committed[h.q.pops..]) + multiset(h.q.proposals)
      && (StrictlySorted(EntryKey<T>, h.delivered + h.q.committed[h.q.pops..]) <==> AllInTime(Start<T>(capacity), ops))
      && (AllInTime(Start<T>(capacity), ops) ==> StrictlySorted(EntryKey<T>, h.delivered))
      && (h.q.pops == |h.q.committed| ==>
        (StrictlySorted(EntryKey<T>, h.delivered) <==> AllInTime(Start<T>(capacity), ops)))
  {
    hide Step, Run, AllInTime, Numbered, StrictlySorted;
    var start := Start<T>(capacity);
    var h := Run(start, ops);
    StartSteady<T>(capacity);
    RunExact(start, ops);
    SplitFlow(h);
    var rest := h.q.committed[h.q.pops..];
    StrictConcat(EntryKey<T>, h.delivered, rest);
    assert h.q.committed == h.q.committed[..h.q.pops] + rest;
    assert rest == [] ==> h.delivered + rest == h.delivered;
  }

  lemma {:induction false} StartSteady<T>(capacity: nat)
    ensures Steady(Start<T>(capacity)) && StrictlySorted(EntryKey<T>, Flow(Start<T>(capacity)))
  {
  }

  /** The discipline of the runtime, a barrier before every new epoch, is enough. */
  lemma {:induction false} DisciplineSuffices<T>(capacity: nat, ops: seq<Op<T>>)
    requires Disciplined(ops)
    ensures AllInTime(Start<T>(capacity), ops)
  {
    hide Step, Run, AllInTime, Numbered, Conserved, StrictlySorted, Disciplined;
    var start := Start<T>(capacity);
    var first := if ops == [] then Time(0, 0) else ops[0].now;
    StartSafe<T>(capacity, first);
    var end := RunSafe(start, first, ops);
    StartSteady<T>(capacity);
    RunExact(start, ops);
  }

  /** It is not needed: this run publishes a late entry before anything has been handed out. */
  lemma {:induction false} DisciplineNotNeeded()
    ensures var ops := [Op(Time(0, 0), Schedule(7, 5)), Op(Time(1, 0), Commit)];
      !Disciplined(ops) && AllInTime(Start<int>(2), ops)
  {
    var ops := [Op(Time(0, 0), Schedule(7, 5)), Op(Time(1, 0), Commit)];
    assert !(ops[0].now == ops[1].now || ops[0].action.Commit?);
    var h := Step(Start<int>(2), ops[0]);
    assert InTime(h) && ops[1..][0] == ops[1] && ops[1..][1..] == [];
    assert AllInTime(Step(h, ops[1]), ops[1..][1..]);
    assert AllInTime(h, ops[1..]);
  }

  /** `tryRecv` refuses exactly when nothing held is ready, and otherwise hands out the earliest. */
  lemma {:induction false} RecvEarliest<T>(q: TimedQueue<T>, now: Time)
    requires StrictlySorted(EntryKey<T>, q.committed)
    ensures q.TryRecv(now).1.None? <==> forall i :: q.pops <= i < |q.committed| ==> now.Before(q.committed[i].ready)
    ensures q.TryRecv(now).1.Some? ==> forall i :: q.pops < i < |q.committed| ==>
      Less(EntryKey(q.TryRecv(now).1.value), EntryKey(q.committed[i]))
  {
    if q.pops < |q.committed| && now.Before(q.committed[q.pops].ready) {
      forall i | q.pops < i < |q.committed| ensures now.Before(q.committed[i].ready) {
        LessEntries(q.committed[q.pops], q.committed[i]);
      }
    }
  }

  /** A barrier that is not in time: an event scheduled in one epoch but published only after a later
      epoch has popped is handed out behind an event that was ready after it. */
  lemma {:induction false} LatePublication()
    ensures var early, late := Time(1, 0), Time(5, 0);
      var ops := [Op(Time(0, 0), Schedule(7, 4)), Op(Time(0, 0), Commit), Op(early, Schedule(8, 0)),
                  Op(late, Recv), Op(late, Commit), Op(late, Recv)];
      var h := Run(Start<int>(2), ops);
      && (forall i :: 0 <= i < |ops| - 1 ==> ops[i].now.NotAfter(ops[i + 1].now))
      && h.delivered == [Entry(Time(4, 0), 0, 7), Entry(Time(1, 0), 1, 8)]
      && !StrictlySorted(EntryKey<int>, h.delivered)
  {
    var early, late := Time(1, 0), Time(5, 0);
    var ops := [Op(Time(0, 0), Schedule(7, 4)), Op(Time(0, 0), Commit), Op(early, Schedule(8, 0)),
                Op(late, Recv), Op(late, Commit), Op(late, Recv)];
    var a, b := Entry(Time(4, 0), 0, 7), Entry(Time(1, 0), 1, 8);
    hide Run, Step, StrictlySorted;
    var h2 := History(TimedQueue(2, [a], [], 0, 1, 1, 1, 0, None), [a], [], [], []);
    var h4 := History(TimedQueue(2, [a], [b], 1, 2, 1, 1, 0, None), [a, b], [a], [late], []);
    LateHead(a, b, h2, h4);
    LateTail(a, b, h4);
    RunTwo(Start<int>(2), ops);
    RunTwo(h2, ops[2..]);
    RunTwo(h4, ops[4..]);
    RunNone(Step(Step(h4, ops[4]), ops[5]), ops[6..]);
    OutOfOrder(a, b);
  }

  lemma {:induction false} OutOfOrder<T>(a: Entry<T>, b: Entry<T>)
    requires b.ready.Before(a.ready)
    ensures !StrictlySorted(EntryKey<T>, [a, b])
  {
    var s := [a, b];
    LessEntries(s[0], s[1]);
  }

  lemma {:induction false} LateHead(a: Entry<int>, b: Entry<int>, h2: History<int>, h4: History<int>)
    requires a == Entry(Time(4, 0), 0, 7) && b == Entry(Time(1, 0), 1, 8)
    requires h2 == History(TimedQueue(2, [a], [], 0, 1, 1, 1, 0, None), [a], [], [], [])
    requires h4 == History(TimedQueue(2, [a], [b], 1, 2, 1, 1, 0, None), [a, b], [a], [Time(5, 0)], [])
    ensures Step(Step(Start<int>(2), Op(Time(0, 0), Schedule(7, 4))), Op(Time(0, 0), Commit)) == h2
    ensures Step(Step(h2, Op(Time(1, 0), Schedule(8, 0))), Op(Time(5, 0), Recv)) == h4
  {
    hide InsertAll;
    InsertOne([], a);
    assert Step(Start<int>(2), Op(Time(0, 0), Schedule(7, 4))).q.proposals == [a];
  }

  lemma {:induction false} LateTail<T>(a: Entry<T>, b: Entry<T>, h: History<T>)
    requires h.q.committed == [a] && h.q.proposals == [b] && h.q.pops == 1 && h.delivered == [a] && b.ready == Time(1, 0)
    ensures Step(Step(h, Op(Time(5, 0), Commit)), Op(Time(5, 0), Recv)).delivered == [a, b]
  {
    hide InsertAll;
    InsertOne([], b);
    assert [a][1..] == [];
  }

  lemma {:induction false} RunTwo<T>(h: History<T>, ops: seq<Op<T>>)
    requires |ops| >= 2
    ensures Run(h, ops) == Run(Step(Step(h, ops[0]), ops[1]), ops[2..])
  {
    hide Step;
    assert ops[1..][0] == ops[1] && ops[1..][1..] == ops[2..];
    assert Run(h, ops) == Run(Step(h, ops[0]), ops[1..]);
  }

  lemma {:induction false} RunNone<T>(h: History<T>, ops: seq<Op<T>>)
    requires ops == []
    ensures Run(h, ops) == h
  {
  }

  // ----- The recorded peak -----

  /** The largest number of events published at any instant of the run. */
  function Peak<T>(h: History<T>, ops: seq<Op<T>>): nat
    decreases |ops|
  {
    if ops == [] then |h.q.committed| else Max(|h.q.committed|, Peak(Step(h, ops[0]), ops[1..]))
  }

  lemma {:induction false} StepPeak<T>(h: History<T>, op: Op<T>)
    requires |h.q.committed| <= h.q.highWatermark
    ensures Step(h, op).q.highWatermark == Max(h.q.highWatermark, |Step(h, op).q.committed|)
  {
    hide InsertAll;
  }

  /** The recorded peak is the peak. */
  lemma {:induction false} PeakExact<T>(h: History<T>, ops: seq<Op<T>>)
    requires |h.q.committed| <= h.q.highWatermark
    ensures Run(h, ops).q.highWatermark == Max(h.q.highWatermark, Peak(h, ops))
    decreases |ops|
  {
    hide Step;
    if ops != [] {
      StepPeak(h, ops[0]);
      PeakExact(Step(h, ops[0]), ops[1..]);
    }
  }

  // ----- The runtime object -----

  class TimedEventQueue<T> {
    const capacity: nat
    var committed: seq<Entry<T>>
    var scheduleProposals: seq<Entry<T>>
    var popProposalCount: nat
    var nextSequence: nat
    var highWatermark: nat
    var totalPushes: nat
    var totalPops: nat
    var failure: Option<Failure>

    function State(): TimedQueue<T>
      reads this
    {
      TimedQueue(capacity, committed, scheduleProposals, popProposalCount, nextSequence, highWatermark,
                 totalPushes, totalPops, failure)
    }

    constructor (capacity: nat)
      ensures State() == Empty(capacity)
    {
      this.capacity := capacity;
      committed, scheduleProposals, failure := [], [], None;
      popProposalCount, nextSequence, highWatermark, totalPushes, totalPops := 0, 0, 0, 0, 0;
    }

    method TrySchedule(value: T, now: Time, delay: int) returns (ok: bool)
      modifies this`scheduleProposals, this`nextSequence, this`failure
      ensures (State(), ok) == old(State()).TrySchedule(value, now, delay)
    {
      if delay < 0 {
        failure := Some(NegativeEventDelay);
        return false;
      }
      if now.tick > MAX_U64 - delay {
        failure := Some(TickOverflow);
        return false;
      }
      if |committed| + |scheduleProposals| >= capacity {
        return false;
      }
      if nextSequence == MAX_U64 {
        failure := Some(EventSequenceOverflow);
        return false;
      }
      var ready := Time(now.tick + delay, if delay == 0 then now.delta else 0);
      scheduleProposals := scheduleProposals + [Entry(ready, nextSequence, value)];
      nextSequence := nextSequence + 1;
      return true;
    }

    method TryRecv(now: Time) returns (r: Option<T>)
      modifies this`popProposalCount
      ensures State() == old(State()).TryRecv(now).0
      ensures match old(State()).TryRecv(now).1 case None => r == None case Some(e) => r == Some(e.value)
    {
      if popProposalCount >= |committed| || now.Before(committed[popProposalCount].ready) {
        return None;
      }
      popProposalCount := popProposalCount + 1;
      return Some(committed[popProposalCount - 1].value);
    }

    method ErasePopped()
      modifies this`committed, this`totalPops, this`popProposalCount
      ensures var k := Min(old(popProposalCount), |old(committed)|);
        committed == old(committed)[k..] && totalPops == old(totalPops) + k && popProposalCount == 0
    {
      var index := 0;
      while index < popProposalCount && committed != []
        invariant popProposalCount == old(popProposalCount)
        invariant 0 <= index <= popProposalCount && index <= |old(committed)|
        invariant committed == old(committed)[index..] && totalPops == old(totalPops) + index
        decreases popProposalCount - index
      {
        committed := committed[1..];
        totalPops := totalPops + 1;
        index := index + 1;
      }
      popProposalCount := 0;
    }

    method PublishSchedules()
      modifies this`committed, this`totalPushes, this`scheduleProposals
      ensures committed == InsertAll(old(committed), old(scheduleProposals))
      ensures totalPushes == old(totalPushes) + |old(scheduleProposals)| && scheduleProposals == []
    {
      hide Insert, InsertAll;
      InsertNone(committed);
      assert scheduleProposals[..0] == [];
      for i := 0 to |scheduleProposals|
        invariant scheduleProposals == old(scheduleProposals)
        invariant committed == InsertAll(old(committed), scheduleProposals[..i]) && totalPushes == old(totalPushes) + i
      {
        InsertMore(old(committed), scheduleProposals, i);
        committed := Insert(EntryKey<T>, scheduleProposals[i], committed);
        totalPushes := totalPushes + 1;
      }
      assert scheduleProposals[..|scheduleProposals|] == scheduleProposals;
      scheduleProposals := [];
    }

    /** Erase the popped entries from the front, then insert the schedules. */
    method DoXfer()
      modifies this
      ensures State() == old(State()).Xfer()
    {
      ErasePopped();
      PublishSchedules();
      highWatermark := Max(highWatermark, |committed|);
    }
  }

  lemma {:induction false} InsertNone<T>(s: seq<Entry<T>>)
    ensures InsertAll(s, []) == s
  {
  }

  lemma {:induction false} InsertMore<T>(s: seq<Entry<T>>, entries: seq<Entry<T>>, i: nat)
    requires i < |entries|
    ensures entries[..i + 1] == entries[..i] + [entries[i]]
    ensures InsertAll(s, entries[..i + 1]) == Insert(EntryKey<T>, entries[i], InsertAll(s, entries[..i]))
    decreases i
  {
    hide Insert;
    assert entries[..i + 1] == entries[..i] + [entries[i]];
    if i == 0 {
      InsertOnly(s, entries[0]);
      assert entries[..1] == [entries[0]] && entries[..0] == [];
    } else {
      var first, tail := entries[0], entries[1..];
      InsertMore(Insert(EntryKey<T>, first, s), tail, i - 1);
      assert entries[..i + 1][1..] == tail[..i] && entries[..i][1..] == tail[..i - 1];
    }
  }

  lemma {:induction false} InsertOnly<T>(s: seq<Entry<T>>, e: Entry<T>)
    ensures InsertAll(s, [e]) == Insert(EntryKey<T>, e, s)
  {
    assert [e][1..] == [];
  }
}
