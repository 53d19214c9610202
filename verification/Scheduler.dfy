/** `Scheduler<T>`: a bounded priority scheduler. Admission checks identity, arbitration selects by a
    stable key, and the Xfer barrier publishes. */
module Schedulers {
  import opened Wrappers
  import opened Ordering
  import opened Core

  datatype Entry<T> = Entry(
    value: T, priority: nat, issue: Time, portIndex: nat, instanceIndex: nat, owner: nat, transaction: nat)

  /** `stableKey`. */
  function StableKey<T>(e: Entry<T>): Key {
    [e.priority, e.issue.tick, e.issue.delta, e.portIndex, e.instanceIndex, e.owner, e.transaction]
  }

  function Identity<T>(e: Entry<T>): Key { [e.owner, e.transaction] }

  /** Every proposal is stamped with the epoch it is arbitrated in. */
  function Stamp<T>(s: seq<Entry<T>>, now: Time): (r: seq<Entry<T>>)
    ensures |r| == |s| && forall i :: 0 <= i < |s| ==> r[i] == s[i].(issue := now)
  {
    seq(|s|, i requires 0 <= i < |s| => s[i].(issue := now))
  }

  function Transactions<T>(s: seq<Entry<T>>): (r: seq<nat>)
    ensures |r| == |s| && forall i :: 0 <= i < |s| ==> r[i] == s[i].transaction
  {
    seq(|s|, i requires 0 <= i < |s| => s[i].transaction)
  }

  predicate Identified<T>(s: seq<Entry<T>>, owner: nat, transaction: nat) {
    exists i :: 0 <= i < |s| && Identity(s[i]) == [owner, transaction]
  }

  /** Committed and newly accepted entries in one stable order. */
  function Merge<T>(held: seq<Entry<T>>, accepted: seq<Entry<T>>): (r: seq<Entry<T>>)
    ensures |r| == |held| + |accepted|
  {
    SortBy(StableKey<T>, held + accepted)
  }

  datatype Pool<T> = Pool(
    capacity: nat,
    proposals: seq<Entry<T>>,
    accepted: seq<Entry<T>>,
    rejected: seq<Entry<T>>,
    committed: seq<Entry<T>>,
    rejectedTransactions: seq<nat>,
    pops: nat,
    highWatermark: nat,
    totalScheduled: nat,
    totalPops: nat)
  {
    predicate ContainsIdentity(owner: nat, transaction: nat) {
      Identified(proposals, owner, transaction) || Identified(accepted, owner, transaction)
      || Identified(committed, owner, transaction)
    }

    function Propose(e: Entry<T>): (Pool<T>, bool) {
      if e.owner == INVALID_OBJECT || ContainsIdentity(e.owner, e.transaction) then (this, false)
      else (this.(proposals := proposals + [e.(issue := Time(0, 0))]), true)
    }

    function Pop(): (Pool<T>, Option<Entry<T>>) {
      if pops >= |committed| then (this, None) else (this.(pops := pops + 1), Some(committed[pops]))
    }

    /** How many proposals the free capacity admits. */
    function Room(): (n: nat)
      ensures n <= |proposals|
    {
      var occupied := |committed| + |accepted|;
      Min(if capacity > occupied then capacity - occupied else 0, |proposals|)
    }

    function Arbitrate(now: Time): Pool<T> {
      var s := SortBy(StableKey<T>, Stamp(proposals, now));
      this.(proposals := [], accepted := accepted + s[..Room()], rejected := rejected + s[Room()..])
    }

    function Xfer(): Pool<T> {
      var k := Min(pops, |committed|);
      var all := Merge(committed[k..], accepted);
      this.(committed := all, accepted := [], rejected := [], pops := 0,
            rejectedTransactions := rejectedTransactions + Transactions(rejected),
            totalPops := totalPops + k, totalScheduled := totalScheduled + |accepted|,
            highWatermark := Max(highWatermark, |all|))
    }

    /** Everything whose identity is taken. */
    function Known(): seq<Entry<T>> { committed + accepted + proposals }

    ghost predicate Valid() {
      && pops <= |committed|
      && DistinctKeys(Identity<T>, Known())
      && StrictlySorted(StableKey<T>, committed)
      && |committed| + |accepted| <= capacity
      && |committed| <= highWatermark <= capacity
      && totalScheduled == totalPops + |committed|
    }
  }

  function Empty<T>(capacity: nat): Pool<T> {
    Pool(capacity, [], [], [], [], [], 0, 0, 0, 0)
  }

  // ----- Identities -----

  lemma {:induction false} DistinctSlice<T>(key: T -> Key, s: seq<T>, i: nat, j: nat)
    requires i <= j <= |s| && DistinctKeys(key, s)
    ensures DistinctKeys(key, s[i..j])
  {
  }

  lemma {:induction false} DistinctAppend<T>(key: T -> Key, s: seq<T>, x: T)
    requires DistinctKeys(key, s) && forall i :: 0 <= i < |s| ==> key(s[i]) != key(x)
    ensures DistinctKeys(key, s + [x])
  {
  }

  /** Entries that differ in identity differ in stable key. */
  lemma {:induction false} IdentityDecides<T>(s: seq<Entry<T>>)
    requires DistinctKeys(Identity<T>, s)
    ensures DistinctKeys(StableKey<T>, s)
  {
    forall i, j | 0 <= i < j < |s| ensures StableKey(s[i]) != StableKey(s[j]) {
      assert Identity(s[i]) != Identity(s[j]);
      assert StableKey(s[i])[5] != StableKey(s[j])[5] || StableKey(s[i])[6] != StableKey(s[j])[6];
    }
  }

  lemma {:induction false} ProposeValid<T>(p: Pool<T>, e: Entry<T>)
    requires p.Valid()
    ensures p.Propose(e).0.Valid()
  {
    hide SortBy, StrictlySorted;
    if p.Propose(e).1 {
      var x, s := e.(issue := Time(0, 0)), p.Known();
      forall i | 0 <= i < |s| ensures Identity(s[i]) != Identity(x) {
        var c, a := |p.committed|, |p.accepted|;
        assert s[i] == if i < c then p.committed[i] else if i < c + a then p.accepted[i - c] else p.proposals[i - c - a];
      }
      DistinctAppend(Identity<T>, s, x);
      assert p.Propose(e).0.Known() == s + [x];
    }
  }

  lemma {:induction false} PopValid<T>(p: Pool<T>)
    requires p.Valid()
    ensures p.Pop().0.Valid()
  {
  }

  lemma {:induction false} StampDistinct<T>(before: seq<Entry<T>>, s: seq<Entry<T>>, now: Time)
    requires DistinctKeys(Identity<T>, before + s)
    ensures DistinctKeys(Identity<T>, before + Stamp(s, now)) && DistinctKeys(Identity<T>, Stamp(s, now))
  {
    var a, b := before + s, before + Stamp(s, now);
    forall i | 0 <= i < |b| ensures Identity(b[i]) == Identity(a[i]) {
      if i >= |before| { assert b[i] == s[i - |before|].(issue := now); }
    }
    forall i, j | 0 <= i < j < |b| ensures Identity(b[i]) != Identity(b[j]) {
      assert Identity(a[i]) != Identity(a[j]);
    }
    DistinctSlice(Identity<T>, b, |before|, |b|);
    assert b[|before|..|b|] == Stamp(s, now);
  }

  lemma {:induction false} ArbitrateValid<T>(p: Pool<T>, now: Time)
    requires p.Valid()
    ensures p.Arbitrate(now).Valid()
  {
    hide SortBy, StrictlySorted, DistinctKeys, Identity, StableKey;
    var before, stamped := p.committed + p.accepted, Stamp(p.proposals, now);
    var s := SortBy(StableKey<T>, stamped);
    StampDistinct(before, p.proposals, now);
    DistinctKeysPermuted(Identity<T>, before + stamped, before + s);
    var n := |before| + p.Room();
    DistinctSlice(Identity<T>, before + s, 0, n);
    assert (before + s)[0..n] == p.Arbitrate(now).Known();
  }

  lemma {:induction false} XferValid<T>(p: Pool<T>)
    requires p.Valid()
    ensures p.Xfer().Valid()
  {
    hide SortBy, StrictlySorted, DistinctKeys, Identity, StableKey;
    var rest := p.committed[p.pops..] + p.accepted;
    var s := SortBy(StableKey<T>, rest);
    var all := p.Known();
    DistinctSlice(Identity<T>, all, p.pops, |all|);
    assert all[p.pops..|all|] == rest + p.proposals;
    DistinctKeysPermuted(Identity<T>, rest + p.proposals, s + p.proposals);
    assert s + [] + p.proposals == s + p.proposals;
    DistinctSlice(Identity<T>, rest + p.proposals, 0, |rest|);
    assert (rest + p.proposals)[0..|rest|] == rest;
    IdentityDecides(rest);
    SortByStrict(StableKey<T>, rest);
  }

  // ----- Arbitration forgets the order of proposals -----

  lemma {:induction false} StampMember<T>(s: seq<Entry<T>>, t: seq<Entry<T>>, now: Time, x: Entry<T>)
    requires multiset(s) == multiset(t) && x in Stamp(s, now)
    ensures x in Stamp(t, now)
  {
    var i :| 0 <= i < |s| && Stamp(s, now)[i] == x;
    assert s[i] in multiset(t);
    var j :| 0 <= j < |t| && t[j] == s[i];
    assert Stamp(t, now)[j] == x;
  }

  lemma {:induction false} StampPermuted<T>(s: seq<Entry<T>>, t: seq<Entry<T>>, now: Time)
    requires DistinctKeys(Identity<T>, s) && multiset(s) == multiset(t)
    ensures multiset(Stamp(s, now)) == multiset(Stamp(t, now))
  {
    hide Stamp, Identity;
    DistinctKeysPermuted(Identity<T>, s, t);
    assert [] + s == s && [] + t == t;
    StampDistinct([], s, now);
    StampDistinct([], t, now);
    hide DistinctKeys;
    var a, b := Stamp(s, now), Stamp(t, now);
    forall x: Entry<T> ensures multiset(a)[x] == multiset(b)[x] {
      CountStamped(s, t, now, x);
    }
  }

  lemma {:induction false} CountStamped<T>(s: seq<Entry<T>>, t: seq<Entry<T>>, now: Time, x: Entry<T>)
    requires multiset(s) == multiset(t)
    requires DistinctKeys(Identity<T>, Stamp(s, now)) && DistinctKeys(Identity<T>, Stamp(t, now))
    ensures multiset(Stamp(s, now))[x] == multiset(Stamp(t, now))[x]
  {
    hide Stamp, Identity, DistinctKeys;
    if x in Stamp(s, now) {
      StampMember(s, t, now, x);
      OneOf(Stamp(s, now), x);
      OneOf(Stamp(t, now), x);
    } else if x in Stamp(t, now) {
      StampMember(t, s, now, x);
    }
  }

  lemma {:induction false} OneOf<T>(s: seq<Entry<T>>, x: Entry<T>)
    requires DistinctKeys(Identity<T>, s) && x in s
    ensures multiset(s)[x] == 1
  {
    var k :| 0 <= k < |s| && s[k] == x;
    CountOnce(Identity<T>, s, k);
  }

  lemma {:induction false} ArbitrationOrderFree<T>(p: Pool<T>, proposals: seq<Entry<T>>, now: Time)
    requires p.Valid() && multiset(p.proposals) == multiset(proposals)
    ensures p.(proposals := proposals).Arbitrate(now) == p.Arbitrate(now)
  {
    hide SortBy, Stamp, Identity, StableKey;
    var before := p.committed + p.accepted;
    assert |multiset(p.proposals)| == |multiset(proposals)|;
    DistinctSlice(Identity<T>, p.Known(), |before|, |p.Known()|);
    assert p.Known()[|before|..|p.Known()|] == p.proposals;
    StampPermuted(p.proposals, proposals, now);
    StampDistinct(before, p.proposals, now);
    IdentityDecides(Stamp(p.proposals, now));
    SortByPermuted(StableKey<T>, Stamp(p.proposals, now), Stamp(proposals, now));
  }

  /** Arbitration takes the lowest stable keys: nothing refused precedes anything accepted now, and
      something is refused only when the capacity is used up. */
  lemma {:induction false} ArbitrationSelects<T>(p: Pool<T>, now: Time)
    requires p.Valid()
    ensures var a := p.Arbitrate(now);
      var won, lost := a.accepted[|p.accepted|..], a.rejected[|p.rejected|..];
      && multiset(won) + multiset(lost) == multiset(Stamp(p.proposals, now))
      && (forall i, j :: 0 <= i < |won| && 0 <= j < |lost| ==> Less(StableKey(won[i]), StableKey(lost[j])))
      && (lost != [] ==> |p.committed| + |a.accepted| == p.capacity)
  {
    hide SortBy, Identity, StableKey, Stamp;
    var s := SortBy(StableKey<T>, Stamp(p.proposals, now));
    StampSorted(p, now);
    var a, n := p.Arbitrate(now), p.Room();
    assert a.accepted[|p.accepted|..] == s[..n] && a.rejected[|p.rejected|..] == s[n..];
    assert s == s[..n] + s[n..];
  }

  lemma {:induction false} StampSorted<T>(p: Pool<T>, now: Time)
    requires p.Valid()
    ensures StrictlySorted(StableKey<T>, SortBy(StableKey<T>, Stamp(p.proposals, now)))
  {
    hide SortBy, Identity, StableKey;
    StampDistinct(p.committed + p.accepted, p.proposals, now);
    IdentityDecides(Stamp(p.proposals, now));
    SortByStrict(StableKey<T>, Stamp(p.proposals, now));
  }

  // ----- The order on fields -----

  /** Entries of one epoch and one priority: by port, instance, owner, transaction. */
  predicate BeforeWithin<T>(x: Entry<T>, y: Entry<T>) {
    || x.portIndex < y.portIndex
    || (x.portIndex == y.portIndex && x.instanceIndex < y.instanceIndex)
    || (x.portIndex == y.portIndex && x.instanceIndex == y.instanceIndex && x.owner < y.owner)
    || (x.portIndex == y.portIndex && x.instanceIndex == y.instanceIndex && x.owner == y.owner
        && x.transaction < y.transaction)
  }

  /** The smaller priority value goes first, then the earlier epoch, then the order within an epoch. */
  predicate GoesFirst<T>(x: Entry<T>, y: Entry<T>) {
    || x.priority < y.priority
    || (x.priority == y.priority && x.issue.Before(y.issue))
    || (x.priority == y.priority && x.issue == y.issue && BeforeWithin(x, y))
  }

  lemma {:induction false} LessTail<T>(x: Entry<T>, y: Entry<T>)
    ensures Less([x.portIndex, x.instanceIndex, x.owner, x.transaction], [y.portIndex, y.instanceIndex, y.owner, y.transaction])
      <==> BeforeWithin(x, y)
  {
    LessFirst(x.portIndex, [x.instanceIndex, x.owner, x.transaction], y.portIndex, [y.instanceIndex, y.owner, y.transaction]);
    LessFirst(x.instanceIndex, [x.owner, x.transaction], y.instanceIndex, [y.owner, y.transaction]);
    LessFirst(x.owner, [x.transaction], y.owner, [y.transaction]);
    LessFirst(x.transaction, [], y.transaction, []);
    Conses(x.portIndex, x.instanceIndex, x.owner, x.transaction);
    Conses(y.portIndex, y.instanceIndex, y.owner, y.transaction);
  }

  lemma {:induction false} Conses(a: int, b: int, c: int, d: int)
    ensures [a] + [b, c, d] == [a, b, c, d] && [b] + [c, d] == [b, c, d] && [c] + [d] == [c, d] && [d] + [] == [d]
  {
  }

  /** The scheduler's comparison, field by field. */
  lemma {:induction false} LessEntries<T>(x: Entry<T>, y: Entry<T>)
    ensures Less(StableKey(x), StableKey(y)) <==> GoesFirst(x, y)
  {
    hide Less, BeforeWithin;
    var a := [x.portIndex, x.instanceIndex, x.owner, x.transaction];
    var b := [y.portIndex, y.instanceIndex, y.owner, y.transaction];
    LessTail(x, y);
    LessFirst(x.issue.delta, a, y.issue.delta, b);
    LessFirst(x.issue.tick, [x.issue.delta] + a, y.issue.tick, [y.issue.delta] + b);
    LessFirst(x.priority, [x.issue.tick] + ([x.issue.delta] + a), y.priority, [y.issue.tick] + ([y.issue.delta] + b));
    assert StableKey(x) == [x.priority] + ([x.issue.tick] + ([x.issue.delta] + a));
    assert StableKey(y) == [y.priority] + ([y.issue.tick] + ([y.issue.delta] + b));
  }

  /** Who gets the free capacity: everything accepted now is stamped with this epoch and goes before
      everything refused now, a smaller priority value first and otherwise by the stable fields; and
      nothing is refused while there is room. */
  lemma {:induction false} ArbitrationByPriority<T>(p: Pool<T>, now: Time)
    requires p.Valid()
    ensures var a := p.Arbitrate(now);
      var won, lost := a.accepted[|p.accepted|..], a.rejected[|p.rejected|..];
      && a.accepted[..|p.accepted|] == p.accepted && a.rejected[..|p.rejected|] == p.rejected
      && (forall i :: 0 <= i < |won| ==> won[i].issue == now) && (forall j :: 0 <= j < |lost| ==> lost[j].issue == now)
      && (forall i, j :: 0 <= i < |won| && 0 <= j < |lost| ==>
            won[i].priority < lost[j].priority || (won[i].priority == lost[j].priority && BeforeWithin(won[i], lost[j])))
      && (forall i, j :: 0 <= i < j < |won| ==>
            won[i].priority < won[j].priority || (won[i].priority == won[j].priority && BeforeWithin(won[i], won[j])))
      && |won| == Min(p.capacity - |p.committed| - |p.accepted|, |p.proposals|)
  {
    hide SortBy, Identity, StableKey, Stamp, BeforeWithin;
    var s := SortBy(StableKey<T>, Stamp(p.proposals, now));
    StampSorted(p, now);
    SortedStamp(p.proposals, now, s);
    var a, n := p.Arbitrate(now), p.Room();
    assert a.accepted[|p.accepted|..] == s[..n] && a.rejected[|p.rejected|..] == s[n..];
    forall i, j | 0 <= i < j < |s|
      ensures s[i].priority < s[j].priority || (s[i].priority == s[j].priority && BeforeWithin(s[i], s[j]))
    {
      LessEntries(s[i], s[j]);
    }
  }

  /** What the barrier publishes is in that order, whatever was held before. */
  lemma {:induction false} CommittedByPriority<T>(p: Pool<T>, i: nat, j: nat)
    requires p.Valid() && i < j < |p.Xfer().committed|
    ensures GoesFirst(p.Xfer().committed[i], p.Xfer().committed[j])
    ensures multiset(p.Xfer().committed) == multiset(p.committed[p.pops..]) + multiset(p.accepted)
  {
    hide SortBy, Identity, StableKey, GoesFirst;
    XferValid(p);
    LessEntries(p.Xfer().committed[i], p.Xfer().committed[j]);
  }

  // ----- Every run -----

  datatype Op<T> = Propose(entry: Entry<T>) | Pop | Arbitrate(now: Time) | Commit

  /** A scheduler with one run's history: entries ever accepted, handed out, erased and refused, and
      the latest arbitration epoch. */
  datatype History<T> = History(
    p: Pool<T>, admitted: seq<Entry<T>>, delivered: seq<Entry<T>>, removed: seq<Entry<T>>, refused: seq<Entry<T>>, last: Time)

  function Step<T>(h: History<T>, op: Op<T>): History<T> {
    var p := h.p;
    match op
    case Propose(e) => h.(p := p.Propose(e).0)
    case Pop =>
      var (q, e) := p.Pop();
      h.(p := q, delivered := h.delivered + if e.Some? then [e.value] else [])
    case Arbitrate(now) =>
      var q := p.Arbitrate(now);
      h.(p := q, admitted := h.admitted + q.accepted[|p.accepted|..], last := now)
    case Commit =>
      h.(p := p.Xfer(), removed := h.removed + p.committed[..Min(p.pops, |p.committed|)], refused := h.refused + p.rejected)
  }

  function Run<T>(h: History<T>, ops: seq<Op<T>>): History<T>
    decreases |ops|
  {
    if ops == [] then h else Run(Step(h, ops[0]), ops[1..])
  }

  function Start<T>(capacity: nat): History<T> {
    History(Empty(capacity), [], [], [], [], Time(0, 0))
  }

  /** Arbitration epochs never decrease. */
  ghost predicate Monotone<T>(last: Time, ops: seq<Op<T>>)
    decreases |ops|
  {
    ops == [] ||
    if ops[0].Arbitrate? then last.NotAfter(ops[0].now) && Monotone(ops[0].now, ops[1..]) else Monotone(last, ops[1..])
  }

  /** Entries in the order they leave or will leave at the earliest. */
  function Flow<T>(h: History<T>): seq<Entry<T>> { h.removed + h.p.committed + h.p.accepted }

  /** `x` may be ahead of `y`: a later epoch goes first only with a strictly smaller priority value. */
  predicate MayPrecede<T>(x: Entry<T>, y: Entry<T>) { y.issue.Before(x.issue) ==> x.priority < y.priority }

  ghost predicate Fair<T>(s: seq<Entry<T>>) {
    forall i, j :: 0 <= i < j < |s| ==> MayPrecede(s[i], s[j])
  }

  /** Counters, and every entry accepted so far is in exactly one place. */
  ghost predicate Tracked<T>(h: History<T>) {
    var p := h.p;
    && p.pops <= |p.committed|
    && h.delivered == h.removed + p.committed[..p.pops]
    && multiset(h.admitted) == multiset(Flow(h))
    && p.totalPops == |h.removed|
    && p.rejectedTransactions == Transactions(h.refused)
  }

  ghost predicate Stamped<T>(s: seq<Entry<T>>, last: Time) {
    forall i :: 0 <= i < |s| ==> s[i].issue.NotAfter(last)
  }

  ghost predicate Safe<T>(h: History<T>) {
    h.p.Valid() && Tracked(h) && Fair(Flow(h)) && Stamped(Flow(h), h.last)
  }

  lemma {:induction false} LessPriority<T>(x: Entry<T>, y: Entry<T>)
    requires Less(StableKey(x), StableKey(y))
    ensures MayPrecede(x, y)
  {
    LessThird(StableKey(x), StableKey(y));
  }

  lemma {:induction false} LessThird(a: Key, b: Key)
    requires |a| >= 3 && |b| >= 3 && Less(a, b)
    ensures a[0] < b[0] || (a[0] == b[0] && (a[1] < b[1] || (a[1] == b[1] && a[2] <= b[2])))
  {
    if a[0] == b[0] {
      assert Less(a[1..], b[1..]);
      if a[1] == b[1] { assert Less(a[1..][1..], b[1..][1..]); }
    }
  }

  lemma {:induction false} ArbitrateTracked<T>(h: History<T>, now: Time)
    requires Tracked(h)
    ensures Tracked(Step(h, Arbitrate(now)))
  {
    hide SortBy, Stamp, StableKey, Transactions;
    var p, g := h.p, Step(h, Arbitrate(now));
    var won := g.p.accepted[|p.accepted|..];
    assert g.p.accepted == p.accepted + won;
    assert Flow(g) == Flow(h) + won;
  }

  lemma {:induction false} ArbitrateFair<T>(h: History<T>, now: Time)
    requires Fair(Flow(h)) && Stamped(Flow(h), h.last) && h.last.NotAfter(now)
    ensures Fair(Flow(Step(h, Arbitrate(now)))) && Stamped(Flow(Step(h, Arbitrate(now))), now)
  {
    hide SortBy, StableKey, Fair, Stamped, Stamp;
    var p, g := h.p, Step(h, Arbitrate(now));
    var s := SortBy(StableKey<T>, Stamp(p.proposals, now));
    SortedStamp(p.proposals, now, s);
    assert Flow(g) == Flow(h) + s[..p.Room()];
    AppendFair(Flow(h), s[..p.Room()], h.last, now);
  }

  lemma {:induction false} SortedStamp<T>(s: seq<Entry<T>>, now: Time, r: seq<Entry<T>>)
    requires multiset(r) == multiset(Stamp(s, now))
    ensures forall i :: 0 <= i < |r| ==> r[i].issue == now
  {
    forall i | 0 <= i < |r| ensures r[i].issue == now {
      assert r[i] in multiset(Stamp(s, now));
    }
  }

  /** Entries of the present epoch may follow all earlier ones. */
  lemma {:induction false} AppendFair<T>(before: seq<Entry<T>>, won: seq<Entry<T>>, last: Time, now: Time)
    requires Fair(before) && Stamped(before, last) && last.NotAfter(now)
    requires forall i :: 0 <= i < |won| ==> won[i].issue == now
    ensures Fair(before + won) && Stamped(before + won, now)
  {
    var all := before + won;
    forall i | 0 <= i < |all| ensures all[i].issue.NotAfter(now) {
      if i < |before| { assert before[i].issue.NotAfter(last); }
    }
    forall i, j | 0 <= i < j < |all| ensures MayPrecede(all[i], all[j]) {
      if j < |before| { assert MayPrecede(before[i], before[j]); }
    }
  }

  lemma {:induction false} CommitTracked<T>(h: History<T>)
    requires Tracked(h)
    ensures Tracked(Step(h, Commit))
  {
    hide SortBy, StableKey, Transactions;
    var p, g := h.p, Step(h, Commit);
    var front, rest := p.committed[..p.pops], p.committed[p.pops..] + p.accepted;
    assert Flow(h) == h.removed + front + rest by { assert p.committed == front + p.committed[p.pops..]; }
    assert Flow(g) == h.removed + front + SortBy(StableKey<T>, rest) + [];
    assert g.p.committed[..0] == [];
    TransactionsConcat(h.refused, p.rejected);
  }

  lemma {:induction false} TransactionsConcat<T>(a: seq<Entry<T>>, b: seq<Entry<T>>)
    ensures Transactions(a + b) == Transactions(a) + Transactions(b)
  {
  }

  /** Sorting what is held behind what has left keeps the flow fair. */
  lemma {:induction false} SortFair<T>(front: seq<Entry<T>>, rest: seq<Entry<T>>)
    requires Fair(front + rest) && DistinctKeys(StableKey<T>, rest)
    ensures Fair(front + SortBy(StableKey<T>, rest))
  {
    hide StableKey, SortBy, MayPrecede;
    var s := SortBy(StableKey<T>, rest);
    var a, b := front + rest, front + s;
    SortByStrict(StableKey<T>, rest);
    forall i, j | 0 <= i < j < |b| ensures MayPrecede(b[i], b[j]) {
      if j < |front| {
        assert MayPrecede(a[i], a[j]);
      } else if i < |front| {
        assert b[j] == s[j - |front|] && s[j - |front|] in multiset(rest);
        var k :| 0 <= k < |rest| && rest[k] == b[j];
        assert MayPrecede(a[i], a[|front| + k]);
      } else {
        assert Less(StableKey(s[i - |front|]), StableKey(s[j - |front|]));
        LessPriority(b[i], b[j]);
      }
    }
  }

  lemma {:induction false} CommitFair<T>(h: History<T>)
    requires h.p.Valid() && Fair(Flow(h)) && Stamped(Flow(h), h.last)
    ensures Fair(Flow(Step(h, Commit))) && Stamped(Flow(Step(h, Commit)), h.last)
  {
    hide SortBy, StableKey, Identity, Fair;
    var p, g := h.p, Step(h, Commit);
    var front, rest := h.removed + p.committed[..p.pops], p.committed[p.pops..] + p.accepted;
    assert Flow(h) == front + rest by { assert p.committed == p.committed[..p.pops] + p.committed[p.pops..]; }
    DistinctSlice(Identity<T>, p.Known(), p.pops, |p.committed| + |p.accepted|);
    assert p.Known()[p.pops..|p.committed| + |p.accepted|] == rest;
    IdentityDecides(rest);
    SortFair(front, rest);
    assert Flow(g) == front + SortBy(StableKey<T>, rest);
    StampedSort(front, rest, h.last);
  }

  lemma {:induction false} StampedSort<T>(front: seq<Entry<T>>, rest: seq<Entry<T>>, last: Time)
    requires Stamped(front + rest, last)
    ensures Stamped(front + SortBy(StableKey<T>, rest), last)
  {
    hide SortBy, StableKey;
    var s := SortBy(StableKey<T>, rest);
    forall i | 0 <= i < |front + s| ensures (front + s)[i].issue.NotAfter(last) {
      if i < |front| {
        assert (front + rest)[i] == front[i];
      } else {
        assert s[i - |front|] in multiset(rest);
        var k :| 0 <= k < |rest| && rest[k] == s[i - |front|];
        assert (front + rest)[|front| + k] == rest[k];
      }
    }
  }

  lemma {:induction false} ProposalTracked<T>(h: History<T>, op: Op<T>)
    requires Tracked(h) && (op.Propose? || op.Pop?)
    ensures Tracked(Step(h, op)) && Flow(Step(h, op)) == Flow(h) && Step(h, op).last == h.last
  {
    var p := h.p;
    if op.Pop? && p.pops < |p.committed| {
      assert p.committed[..p.pops + 1] == p.committed[..p.pops] + [p.committed[p.pops]];
    }
  }

  lemma {:induction false} StepSafe<T>(h: History<T>, op: Op<T>)
    requires Safe(h) && (op.Arbitrate? ==> h.last.NotAfter(op.now))
    ensures Safe(Step(h, op)) && Step(h, op).last == (if op.Arbitrate? then op.now else h.last)
  {
    hide Pool.Valid, Pool.Xfer, Pool.Arbitrate, Pool.Propose, Pool.Pop, Tracked, Fair, Stamped, Flow;
    match op
    case Propose(e) => ProposeValid(h.p, e); ProposalTracked(h, op);
    case Pop => PopValid(h.p); ProposalTracked(h, op);
    case Arbitrate(now) => ArbitrateValid(h.p, now); ArbitrateTracked(h, now); ArbitrateFair(h, now);
    case Commit => XferValid(h.p); CommitTracked(h); CommitFair(h);
  }

  lemma {:induction false} RunSafe<T>(h: History<T>, ops: seq<Op<T>>)
    requires Safe(h) && Monotone(h.last, ops)
    ensures Safe(Run(h, ops))
    decreases |ops|
  {
    hide Step, Safe;
    if ops != [] {
      StepSafe(h, ops[0]);
      RunSafe(Step(h, ops[0]), ops[1..]);
    }
  }

  /** Every run with non-decreasing arbitration epochs: the invariant holds, and an entry leaves before
      one accepted in an earlier epoch only with a strictly smaller priority value. */
  lemma {:induction false} LeavesFairly<T>(capacity: nat, ops: seq<Op<T>>)
    requires Monotone(Time(0, 0), ops)
    ensures var h := Run(Start<T>(capacity), ops); h.p.Valid() && Tracked(h) && Fair(h.delivered)
  {
    hide Step, StrictlySorted;
    var h := Run(Start<T>(capacity), ops);
    assert Safe(Start<T>(capacity)) by { StartSafe<T>(capacity); }
    RunSafe(Start<T>(capacity), ops);
    DeliveredFair(h);
  }

  lemma {:induction false} StartSafe<T>(capacity: nat)
    ensures Safe(Start<T>(capacity))
  {
  }

  lemma {:induction false} DeliveredFair<T>(h: History<T>)
    requires Safe(h)
    ensures Fair(h.delivered)
  {
    forall i, j | 0 <= i < j < |h.delivered| ensures MayPrecede(h.delivered[i], h.delivered[j]) {
      assert Flow(h)[i] == h.delivered[i] && Flow(h)[j] == h.delivered[j];
    }
  }

  /** A pop hands out the next published entry, and nothing exactly when all have been handed out. */
  lemma {:induction false} PopExactly<T>(h: History<T>)
    requires Tracked(h)
    ensures h.p.Pop().1 ==
      if |h.delivered| < |h.removed + h.p.committed| then Some((h.removed + h.p.committed)[|h.delivered|]) else None
  {
  }

  /** The largest number of entries published at any instant of the run. */
  function Peak<T>(h: History<T>, ops: seq<Op<T>>): nat
    decreases |ops|
  {
    if ops == [] then |h.p.committed| else Max(|h.p.committed|, Peak(Step(h, ops[0]), ops[1..]))
  }

  lemma {:induction false} StepPeak<T>(h: History<T>, op: Op<T>)
    requires |h.p.committed| <= h.p.highWatermark
    ensures Step(h, op).p.highWatermark == Max(h.p.highWatermark, |Step(h, op).p.committed|)
  {
    hide SortBy, StableKey, Stamp;
  }

  /** The recorded peak is the peak. */
  lemma {:induction false} PeakExact<T>(h: History<T>, ops: seq<Op<T>>)
    requires |h.p.committed| <= h.p.highWatermark
    ensures Run(h, ops).p.highWatermark == Max(h.p.highWatermark, Peak(h, ops))
    decreases |ops|
  {
    hide Step;
    if ops != [] {
      StepPeak(h, ops[0]);
      PeakExact(Step(h, ops[0]), ops[1..]);
    }
  }

  // ----- The runtime object -----

  class Scheduler<T> {
    const capacity: nat
    var proposals: seq<Entry<T>>
    var accepted: seq<Entry<T>>
    var rejected: seq<Entry<T>>
    var committed: seq<Entry<T>>
    var rejectedTransactions: seq<nat>
    var popProposalCount: nat
    var highWatermark: nat
    var totalScheduled: nat
    var totalPops: nat

    function State(): Pool<T>
      reads this
    {
      Pool(capacity, proposals, accepted, rejected, committed, rejectedTransactions, popProposalCount,
           highWatermark, totalScheduled, totalPops)
    }

    constructor (capacity: nat)
      ensures State() == Empty(capacity)
    {
      this.capacity := capacity;
      proposals, accepted, rejected, committed, rejectedTransactions := [], [], [], [], [];
      popProposalCount, highWatermark, totalScheduled, totalPops := 0, 0, 0, 0;
    }

    method ContainsIdentity(ownerId: nat, transactionId: nat) returns (found: bool)
      ensures found <==> State().ContainsIdentity(ownerId, transactionId)
    {
      found := AnyIdentity(proposals, ownerId, transactionId);
      if !found { found := AnyIdentity(accepted, ownerId, transactionId); }
      if !found { found := AnyIdentity(committed, ownerId, transactionId); }
    }

    method ProposeSchedule(value: T, priority: nat, portIndex: nat, instanceIndex: nat, ownerId: nat, transactionId: nat)
      returns (ok: bool)
      modifies this`proposals
      ensures (State(), ok) ==
        old(State()).Propose(Entry(value, priority, Time(0, 0), portIndex, instanceIndex, ownerId, transactionId))
      ensures ok <==> (ownerId != INVALID_OBJECT &&
        forall e :: e in committed + accepted + old(proposals) ==> e.owner != ownerId || e.transaction != transactionId)
    {
      IdentityTaken(State(), ownerId, transactionId);
      if ownerId == INVALID_OBJECT {
        return false;
      }
      var found := ContainsIdentity(ownerId, transactionId);
      if found {
        return false;
      }
      proposals := proposals + [Entry(value, priority, Time(0, 0), portIndex, instanceIndex, ownerId, transactionId)];
      return true;
    }

    method ProposePop() returns (r: Option<T>)
      modifies this`popProposalCount
      ensures State() == old(State()).Pop().0
      ensures match old(State()).Pop().1 case None => r == None case Some(e) => r == Some(e.value)
    {
      if popProposalCount >= |committed| {
        return None;
      }
      popProposalCount := popProposalCount + 1;
      return Some(committed[popProposalCount - 1].value);
    }

    method DoArbitrate(now: Time)
      modifies this`proposals, this`accepted, this`rejected
      ensures State() == old(State()).Arbitrate(now)
    {
      hide SortBy, StableKey;
      for i := 0 to |proposals|
        invariant |proposals| == |old(proposals)| && accepted == old(accepted) && rejected == old(rejected)
        invariant forall j :: 0 <= j < |proposals| ==>
          proposals[j] == if j < i then old(proposals)[j].(issue := now) else old(proposals)[j]
      {
        proposals := proposals[i := proposals[i].(issue := now)];
      }
      assert proposals == Stamp(old(proposals), now);
      proposals := SortBy(StableKey<T>, proposals);
      var occupied := |committed| + |accepted|;
      var available := if capacity > occupied then capacity - occupied else 0;
      var acceptedCount := Min(available, |proposals|);
      accepted := accepted + proposals[..acceptedCount];
      rejected := rejected + proposals[acceptedCount..];
      proposals := [];
    }

    method DoXfer()
      modifies this
      ensures State() == old(State()).Xfer()
    {
      hide Merge, Transactions;
      var popped := Min(popProposalCount, |committed|);
      committed := committed[popped..];
      totalPops := totalPops + popped;
      popProposalCount := 0;
      PublishAccepted();
      RecordRejections();
      highWatermark := Max(highWatermark, |committed|);
    }

    method PublishAccepted()
      modifies this`committed, this`accepted, this`totalScheduled
      ensures committed == Merge(old(committed), old(accepted)) && accepted == []
      ensures totalScheduled == old(totalScheduled) + |old(accepted)|
    {
      totalScheduled := totalScheduled + |accepted|;
      committed := committed + accepted;
      accepted := [];
      committed := SortBy(StableKey<T>, committed);
    }

    method RecordRejections()
      modifies this`rejected, this`rejectedTransactions
      ensures rejected == [] && rejectedTransactions == old(rejectedTransactions) + Transactions(old(rejected))
    {
      for i := 0 to |rejected|
        invariant rejected == old(rejected)
        invariant rejectedTransactions == old(rejectedTransactions) + Transactions(rejected)[..i]
      {
        rejectedTransactions := rejectedTransactions + [rejected[i].transaction];
        assert Transactions(rejected)[..i + 1] == Transactions(rejected)[..i] + [rejected[i].transaction];
      }
      assert Transactions(rejected)[..|rejected|] == Transactions(rejected);
      rejected := [];
    }

    method Validate() returns (ok: bool)
      ensures ok <==> |committed| <= capacity && DistinctKeys(Identity<T>, committed)
    {
      if |committed| > capacity {
        return false;
      }
      for left := 0 to |committed|
        invariant forall i, j :: 0 <= i < left && i < j < |committed| ==> Identity(committed[i]) != Identity(committed[j])
      {
        for right := left + 1 to |committed|
          invariant forall j :: left < j < right ==> Identity(committed[left]) != Identity(committed[j])
        {
          if committed[left].owner == committed[right].owner && committed[left].transaction == committed[right].transaction {
            return false;
          }
          assert Identity(committed[left])[0] != Identity(committed[right])[0] ||
                 Identity(committed[left])[1] != Identity(committed[right])[1];
        }
      }
      return true;
    }
  }

  lemma {:induction false} IdentityTaken<T>(p: Pool<T>, owner: nat, transaction: nat)
    ensures p.ContainsIdentity(owner, transaction) <==>
      exists e :: e in p.committed + p.accepted + p.proposals && e.owner == owner && e.transaction == transaction
  {
    forall e: Entry<T> ensures Identity(e) == [owner, transaction] <==> e.owner == owner && e.transaction == transaction {
      assert Identity(e)[0] == e.owner && Identity(e)[1] == e.transaction;
    }
    forall e | e in p.committed + p.accepted + p.proposals && e.owner == owner && e.transaction == transaction
      ensures p.ContainsIdentity(owner, transaction)
    {
      IdentifiedMember(p.committed, e);
      IdentifiedMember(p.accepted, e);
      IdentifiedMember(p.proposals, e);
    }
  }

  lemma {:induction false} IdentifiedMember<T>(s: seq<Entry<T>>, e: Entry<T>)
    ensures e in s ==> Identified(s, e.owner, e.transaction)
  {
    if e in s {
      var i :| 0 <= i < |s| && s[i] == e;
      assert Identity(s[i]) == [e.owner, e.transaction];
    }
  }

  method AnyIdentity<T>(s: seq<Entry<T>>, ownerId: nat, transactionId: nat) returns (found: bool)
    ensures found <==> Identified(s, ownerId, transactionId)
  {
    for i := 0 to |s|
      invariant forall j :: 0 <= j < i ==> Identity(s[j]) != [ownerId, transactionId]
    {
      if s[i].owner == ownerId && s[i].transaction == transactionId {
        return true;
      }
      assert Identity(s[i])[0] != ownerId || Identity(s[i])[1] != transactionId;
    }
    return false;
  }

  /** `validate()` holds of every reachable scheduler. */
  lemma {:induction false} ValidValidates<T>(p: Pool<T>)
    requires p.Valid()
    ensures |p.committed| <= p.capacity && DistinctKeys(Identity<T>, p.committed)
  {
    DistinctSlice(Identity<T>, p.Known(), 0, |p.committed|);
    assert p.Known()[0..|p.committed|] == p.committed;
  }
}
