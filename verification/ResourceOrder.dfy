/** The order in which a `Resource` serves reservations. */
module ResourceOrder {
  import opened Wrappers
  import opened Ordering
  import opened Resources

  /** Reservations of one priority: by port, instance, owner, root, transaction. */
  predicate BeforeWithin(x: Reservation, y: Reservation) {
    || x.portIndex < y.portIndex
    || (x.portIndex == y.portIndex && x.instanceIndex < y.instanceIndex)
    || (x.portIndex == y.portIndex && x.instanceIndex == y.instanceIndex && x.owner < y.owner)
    || (x.portIndex == y.portIndex && x.instanceIndex == y.instanceIndex && x.owner == y.owner && x.root < y.root)
    || (x.portIndex == y.portIndex && x.instanceIndex == y.instanceIndex && x.owner == y.owner && x.root == y.root
        && x.transaction < y.transaction)
  }

  /** The smaller priority value goes first. */
  predicate GoesFirst(x: Reservation, y: Reservation) {
    x.priority < y.priority || (x.priority == y.priority && BeforeWithin(x, y))
  }

  lemma {:induction false} Conses(a: int, b: int, c: int, d: int, e: int)
    ensures [a] + [b, c, d, e] == [a, b, c, d, e] && [b] + [c, d, e] == [b, c, d, e]
    ensures [c] + [d, e] == [c, d, e] && [d] + [e] == [d, e] && [e] + [] == [e]
  {
  }

  lemma {:induction false} LessTail(x: Reservation, y: Reservation)
    ensures var a := [x.portIndex, x.instanceIndex, x.owner, x.root, x.transaction];
      var b := [y.portIndex, y.instanceIndex, y.owner, y.root, y.transaction];
      Less(a, b) <==> BeforeWithin(x, y)
  {
    hide Less;
    LessFirst(x.portIndex, [x.instanceIndex, x.owner, x.root, x.transaction], y.portIndex, [y.instanceIndex, y.owner, y.root, y.transaction]);
    LessFirst(x.instanceIndex, [x.owner, x.root, x.transaction], y.instanceIndex, [y.owner, y.root, y.transaction]);
    LessFirst(x.owner, [x.root, x.transaction], y.owner, [y.root, y.transaction]);
    LessFirst(x.root, [x.transaction], y.root, [y.transaction]);
    LessFirst(x.transaction, [], y.transaction, []);
    LessIrreflexive([]);
    Conses(x.portIndex, x.instanceIndex, x.owner, x.root, x.transaction);
    Conses(y.portIndex, y.instanceIndex, y.owner, y.root, y.transaction);
  }

  /** The resource's comparison, field by field. */
  lemma {:induction false} LessReservations(x: Reservation, y: Reservation)
    ensures Less(ReservationKey(x), ReservationKey(y)) <==> GoesFirst(x, y)
  {
    hide Less, BeforeWithin;
    var a := [x.portIndex, x.instanceIndex, x.owner, x.root, x.transaction];
    var b := [y.portIndex, y.instanceIndex, y.owner, y.root, y.transaction];
    LessTail(x, y);
    LessFirst(x.priority, a, y.priority, b);
    assert ReservationKey(x) == [x.priority] + a && ReservationKey(y) == [y.priority] + b;
  }

  ghost predicate InOrder(s: seq<Reservation>) {
    forall i, j :: 0 <= i < j < |s| ==> GoesFirst(s[i], s[j])
  }

  lemma {:induction false} SortedInOrder(s: seq<Reservation>)
    requires DistinctTransactions(s)
    ensures var r := SortBy(ReservationKey, s); InOrder(r) && DistinctTransactions(r) && multiset(r) == multiset(s)
  {
    hide SortBy, ReservationKey, GoesFirst;
    var r := SortBy(ReservationKey, s);
    SortedProposals(s);
    forall i, j | 0 <= i < j < |r| ensures GoesFirst(r[i], r[j]) { LessReservations(r[i], r[j]); }
  }

  lemma {:induction false} NeverBothFirst(x: Reservation, y: Reservation)
    ensures !(GoesFirst(x, y) && GoesFirst(y, x)) && !GoesFirst(x, x)
  {
  }

  // ----- Who is granted -----

  /** The members of `s` that go before `p`. */
  function Ahead(s: seq<Reservation>, p: Reservation): (r: seq<Reservation>)
    ensures forall x :: x in r <==> x in s && GoesFirst(x, p)
  {
    if s == [] then [] else
      var front, last := s[..|s| - 1], s[|s| - 1];
      assert s == front + [last];
      if GoesFirst(last, p) then Ahead(front, p) + [last] else Ahead(front, p)
  }

  lemma {:induction false} AheadSnoc(s: seq<Reservation>, x: Reservation, p: Reservation)
    ensures Ahead(s + [x], p) == if GoesFirst(x, p) then Ahead(s, p) + [x] else Ahead(s, p)
  {
    hide GoesFirst;
    assert (s + [x])[..|s|] == s;
  }

  /** Of the first `k` in order, those granted ahead of the `i`th are those granted among the first
      `i`. */
  lemma {:induction false} GrantAhead(s: seq<Reservation>, k: nat, i: nat, available: nat)
    requires InOrder(s) && i < |s| && k <= |s|
    ensures Ahead(Grant(s, k, available), s[i]) == Grant(s, if k <= i then k else i, available)
  {
    hide GoesFirst, Ahead, Total;
    if k == 0 {
      NobodyAhead(s[i]);
    } else {
      GrantAhead(s, k - 1, i, available);
      AheadSnoc(Grant(s, k - 1, available), s[k - 1], s[i]);
      if k - 1 < i {
        assert GoesFirst(s[k - 1], s[i]);
      } else {
        NeverBothFirst(s[i], s[k - 1]);
        assert k - 1 > i ==> GoesFirst(s[i], s[k - 1]);
      }
    }
  }

  lemma {:induction false} NobodyAhead(p: Reservation)
    ensures Ahead([], p) == []
  {
  }

  /** Greedy arbitration by priority: a proposal is granted exactly when it fits beside the granted
      proposals that go before it, and refused otherwise. */
  lemma {:induction false} ArbitrationByPriority(l: Ledger, p: Reservation)
    requires l.Valid() && p in l.proposals
    ensures var a := l.Arbitrate(); var left := l.capacity - l.active - Total(Ahead(a.accepted, p));
      && (p in a.accepted <==> p.amount <= left)
      && (p.transaction in a.refused <==> p.amount > left)
      && InOrder(a.accepted)
  {
    hide Ledger.Valid, SortBy, Grant, Refuse, ReservationKey, GoesFirst, Ahead, Total;
    var s, available := SortBy(ReservationKey, l.proposals), l.capacity - l.active;
    CapacityFits(l);
    SortedInOrder(l.proposals);
    assert p in multiset(s);
    var i :| 0 <= i < |s| && s[i] == p;
    GrantAhead(s, |s|, i, available);
    ArbitrationMaximal(l, p);
    GrantDecides(s, i, available);
    GrantInOrder(s, |s|, available);
    RefuseOnce(s, i, available);
  }

  lemma {:induction false} CapacityFits(l: Ledger)
    requires l.Valid()
    ensures 0 <= l.active <= l.capacity && DistinctTransactions(l.proposals)
  {
  }

  /** A reservation refused by transaction was not granted: transactions are distinct. */
  lemma {:induction false} RefuseOnce(s: seq<Reservation>, i: nat, available: nat)
    requires DistinctTransactions(s) && i < |s|
    ensures s[i].amount <= available - Total(Grant(s, i, available)) ==> s[i].transaction !in Refuse(s, |s|, available)
  {
    hide Total;
    RefuseFrom(s, |s|, i, available);
  }

  lemma {:induction false} RefuseFrom(s: seq<Reservation>, k: nat, i: nat, available: nat)
    requires DistinctTransactions(s) && i < |s| && k <= |s|
    ensures s[i].transaction in Refuse(s, k, available) ==> s[i].amount > available - Total(Grant(s, i, available))
  {
    hide Total, Grant;
    if k > 0 { RefuseFrom(s, k - 1, i, available); }
  }

  lemma {:induction false} GrantInOrder(s: seq<Reservation>, k: nat, available: nat)
    requires InOrder(s) && k <= |s|
    ensures InOrder(Grant(s, k, available))
    ensures forall j :: 0 <= j < |Grant(s, k, available)| ==> exists i :: 0 <= i < k && s[i] == Grant(s, k, available)[j]
  {
    hide GoesFirst, Total;
    if k > 0 { GrantInOrder(s, k - 1, available); }
  }

  // ----- Whose reservations a release drains -----

  /** An owner's reservations that go before `r`. */
  function OwnedAhead(m: Reservations, r: Reservation): Reservations {
    map t | t in m && m[t].owner == r.owner && GoesFirst(m[t], r) :: m[t]
  }

  lemma {:induction false} PrefixAhead(m: Reservations, owned: seq<Reservation>, i: nat)
    requires Keyed(m) && InOrder(owned) && i < |owned|
    requires Lists(owned, OwnedBy(m, owned[i].owner))
    ensures Lists(owned[..i], OwnedAhead(m, owned[i])) && Keyed(OwnedAhead(m, owned[i]))
  {
    hide GoesFirst;
    var part, front := OwnedAhead(m, owned[i]), owned[..i];
    forall j | 0 <= j < |front| ensures front[j].transaction in part && part[front[j].transaction] == front[j] {
      assert GoesFirst(owned[j], owned[i]);
    }
    forall j | i <= j < |owned| ensures !GoesFirst(owned[j], owned[i]) {
      NeverBothFirst(owned[i], owned[j]);
      if i < j { assert GoesFirst(owned[i], owned[j]); }
    }
    forall t | t in part ensures part[t] in front {
      assert t in OwnedBy(m, owned[i].owner) && OwnedBy(m, owned[i].owner)[t] in owned;
      var j :| 0 <= j < |owned| && owned[j] == part[t];
      assert front[j] == part[t];
    }
  }

  /** What a release of so many units leaves of a reservation when those before it hold `before`. */
  function Remainder(amount: nat, units: nat, before: nat): nat {
    if units <= before then amount else if units - before >= amount then 0 else amount - (units - before)
  }

  /** A release, reservation by reservation and in priority order, whatever else is live. */
  lemma {:induction false} GiveByPriority(l: Ledger, r: Release, t: nat)
    requires l.Balanced() && t in l.live
    ensures var g := l.Give(r).live; var x := l.live[t];
      var left := Remainder(x.amount, r.units, Held(OwnedAhead(l.live, x)));
      if x.owner != r.claimant then t in g && g[t] == x
      else if left == 0 then t !in g
      else t in g && g[t] == x.(amount := left)
  {
    hide SortBy, ReservationKey, Listing, Held, GoesFirst, Drain, Total, Lists, Left, Keyed, OwnedBy, OwnedAhead;
    var x := l.live[t];
    var owned := SortBy(ReservationKey, Listing(OwnedBy(l.live, r.claimant)));
    BalancedKeyed(l);
    OwnedListed(l.live, r.claimant);
    OwnedSound(l, r.claimant, owned);
    DrainExact(l.live, owned, r.units, t);
    if x.owner != r.claimant {
      GiveExact(l, r);
    } else {
      var i := OwnedPosition(l, r.claimant, owned, t);
      OwnedInOrder(l.live, r.claimant);
      PrefixAhead(l.live, owned, i);
      ListsTotal(owned[..i], OwnedAhead(l.live, x));
      LeftMeans(owned, i, r.units);
    }
  }

  lemma {:induction false} BalancedKeyed(l: Ledger)
    requires l.Balanced()
    ensures Keyed(l.live)
  {
  }

  lemma {:induction false} LeftMeans(owned: seq<Reservation>, i: nat, units: nat)
    requires i < |owned|
    ensures Left(owned, i, units) == Remainder(owned[i].amount, units, Total(owned[..i]))
  {
  }

  lemma {:induction false} OwnedSound(l: Ledger, owner: nat, owned: seq<Reservation>)
    requires l.Balanced() && Lists(owned, OwnedBy(l.live, owner))
    ensures forall i :: 0 <= i < |owned| ==> owned[i].amount > 0 && owned[i].owner == owner
  {
    hide Held;
    forall i | 0 <= i < |owned| ensures owned[i].amount > 0 && owned[i].owner == owner {
      assert l.live[owned[i].transaction] == owned[i];
    }
  }

  lemma {:induction false} OwnedPosition(l: Ledger, owner: nat, owned: seq<Reservation>, t: nat) returns (i: nat)
    requires l.Balanced() && Lists(owned, OwnedBy(l.live, owner)) && t in l.live && l.live[t].owner == owner
    ensures i < |owned| && owned[i] == l.live[t] && owned[i].transaction == t
  {
    hide Held;
    assert OwnedBy(l.live, owner)[t] in owned;
    i :| 0 <= i < |owned| && owned[i] == l.live[t];
  }

  lemma {:induction false} OwnedInOrder(m: Reservations, owner: nat)
    requires Keyed(m)
    ensures InOrder(SortBy(ReservationKey, Listing(OwnedBy(m, owner))))
  {
    hide SortBy, ReservationKey, GoesFirst;
    var part := OwnedBy(m, owner);
    ListingLists(part);
    SortedInOrder(Listing(part));
  }

  // ----- The counters of the barrier -----

  lemma {:induction false} AdmitTotals(l: Ledger, k: nat)
    requires k <= |l.accepted|
    ensures l.AdmitAll(k).reserved == l.reserved + Total(l.accepted[..k]) && l.AdmitAll(k).cancelled == l.cancelled
  {
    hide Total;
    if k == 0 {
      TotalNone(l.accepted[..0]);
    } else {
      AdmitTotals(l, k - 1);
      assert l.accepted[..k] == l.accepted[..k - 1] + [l.accepted[k - 1]];
      TotalSnoc(l.accepted[..k - 1], l.accepted[k - 1]);
    }
  }

  /** The barrier counts what was granted and reports what was refused; its highest use so far is the
      higher of the two. */
  lemma {:induction false} BarrierCounts(l: Ledger)
    requires l.Valid()
    ensures var g := l.Xfer();
      && g.reserved == l.reserved + Total(l.accepted) && g.rejected == l.refused
      && g.active + (g.released - l.released) + (g.cancelled - l.cancelled) == l.active + Total(l.accepted)
      && g.highWatermark == (if g.active > l.highWatermark then g.active else l.highWatermark)
  {
    hide Ledger.AdmitAll, Ledger.DropAll, Ledger.GiveAll, Total;
    var a := l.AdmitAll(|l.accepted|);
    AdmitBalanced(l, |l.accepted|);
    AdmitFrame(l, |l.accepted|);
    AdmitTotals(l, |l.accepted|);
    assert l.accepted[..|l.accepted|] == l.accepted;
    var c := a.DropAll(|a.cancellations|);
    DropAllBalanced(a, |a.cancellations|);
    GiveAllBalanced(c, |c.releases|);
    GiveAllFrame(c, |c.releases|);
  }

  /** The largest capacity in use at any instant of the run. */
  ghost function Peak(l: Ledger, ops: seq<Op>): int
    requires l.Valid()
    decreases |ops|
  {
    if ops == [] then l.active else
      StepValid(l, ops[0]);
      var rest := Peak(Step(l, ops[0]), ops[1..]);
      if l.active > rest then l.active else rest
  }

  lemma {:induction false} StepPeak(l: Ledger, op: Op)
    requires l.Valid()
    ensures Step(l, op).highWatermark == if Step(l, op).active > l.highWatermark then Step(l, op).active else l.highWatermark
  {
    hide Ledger.Xfer, SortBy, Grant, Refuse, Held, Total;
    if op.Commit? { BarrierCounts(l); }
  }

  /** The recorded peak is the peak. */
  lemma {:induction false} PeakExact(l: Ledger, ops: seq<Op>)
    requires l.Valid()
    ensures var peak := Peak(l, ops);
      Run(l, ops).highWatermark == if peak > l.highWatermark then peak else l.highWatermark
    decreases |ops|
  {
    hide Step, Ledger.Valid;
    PeakRoom(l);
    if ops != [] {
      StepValid(l, ops[0]);
      StepPeak(l, ops[0]);
      PeakExact(Step(l, ops[0]), ops[1..]);
    }
  }

  lemma {:induction false} PeakRoom(l: Ledger)
    requires l.Valid()
    ensures l.active <= l.highWatermark && l.active <= l.capacity
  {
  }
}
