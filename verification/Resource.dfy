/** `Resource`: reservations against one fixed capacity. */
module Resources {
  import opened Wrappers
  import opened Ordering
  import opened Core

  datatype Reservation = Reservation(
    owner: nat, amount: nat, issue: Time, ready: Time, transaction: nat, root: nat,
    priority: nat, portIndex: nat, instanceIndex: nat)
  {
    predicate Sound() { owner != INVALID_OBJECT && amount != 0 && issue.NotAfter(ready) }
  }

  datatype Release = Release(claimant: nat, units: nat)

  /** `reservationLess`. */
  function ReservationKey(r: Reservation): Key {
    [r.priority, r.portIndex, r.instanceIndex, r.owner, r.root, r.transaction]
  }

  // ----- Sums -----

  function Total(s: seq<Reservation>): nat {
    if s == [] then 0 else s[0].amount + Total(s[1..])
  }

  lemma {:induction false} TotalSnoc(s: seq<Reservation>, r: Reservation)
    ensures Total(s + [r]) == Total(s) + r.amount
  {
    if s == [] {
      assert [] + [r] == [r] && [r][1..] == [];
    } else {
      TotalSnoc(s[1..], r);
      assert (s + [r])[1..] == s[1..] + [r];
    }
  }

  type Reservations = map<nat, Reservation>

  ghost function Pick(m: Reservations): (t: nat)
    requires m != map[]
    ensures t in m
  {
    var t :| t in m; t
  }

  /** The amounts held by every reservation of a map. */
  ghost function Held(m: Reservations): nat
    decreases |m.Keys|
  {
    if m == map[] then 0 else
      var t := Pick(m);
      assert (m - {t}).Keys == m.Keys - {t};
      m[t].amount + Held(m - {t})
  }

  lemma {:induction false} HeldRemove(m: Reservations, t: nat)
    requires t in m
    ensures Held(m) == m[t].amount + Held(m - {t})
    decreases |m.Keys|
  {
    var p := Pick(m);
    if p != t {
      assert (m - {p}).Keys == m.Keys - {p} && (m - {t}).Keys == m.Keys - {t};
      HeldRemove(m - {p}, t);
      HeldRemove(m - {t}, p);
      assert (m - {p}) - {t} == (m - {t}) - {p};
    }
  }

  lemma {:induction false} HeldUpdate(m: Reservations, t: nat, r: Reservation)
    ensures Held(m[t := r]) + (if t in m then m[t].amount else 0) == Held(m) + r.amount
  {
    HeldRemove(m[t := r], t);
    assert m[t := r] - {t} == m - {t};
    if t in m {
      HeldRemove(m, t);
    } else {
      assert m - {t} == m;
    }
  }

  function OwnedBy(m: Reservations, owner: nat): Reservations {
    map t | t in m && m[t].owner == owner :: m[t]
  }

  /** `s` lists every reservation of `m` once. */
  ghost predicate Lists(s: seq<Reservation>, m: Reservations) {
    && (forall i :: 0 <= i < |s| ==> s[i].transaction in m && m[s[i].transaction] == s[i])
    && (forall i, j :: 0 <= i < j < |s| ==> s[i].transaction != s[j].transaction)
    && (forall t :: t in m ==> m[t] in s)
  }

  ghost predicate Keyed(m: Reservations) { forall t :: t in m ==> m[t].transaction == t }

  lemma {:induction false} ListsTotal(s: seq<Reservation>, m: Reservations)
    requires Lists(s, m) && Keyed(m)
    ensures Total(s) == Held(m)
    decreases |s|
  {
    if s == [] {
      assert m.Keys == {};
    } else {
      var t, rest := s[0].transaction, s[1..];
      HeldRemove(m, t);
      forall u | u in m - {t} ensures m[u] in rest {
        assert m[u] in s;
      }
      ListsTotal(rest, m - {t});
    }
  }

  lemma {:induction false} ListsAlike(s: seq<Reservation>, r: seq<Reservation>, m: Reservations)
    requires Lists(s, m) && Lists(r, m)
    ensures multiset(s) == multiset(r)
  {
    forall x: Reservation ensures multiset(s)[x] == multiset(r)[x] {
      CountListed(s, m, x);
      CountListed(r, m, x);
    }
  }

  lemma {:induction false} CountListed(s: seq<Reservation>, m: Reservations, x: Reservation)
    requires Lists(s, m)
    ensures multiset(s)[x] == if x.transaction in m && m[x.transaction] == x then 1 else 0
  {
    assert x.transaction in m && m[x.transaction] == x ==> m[x.transaction] in s;
    if x in s {
      var k :| 0 <= k < |s| && s[k] == x;
      ListedDistinct(s);
      CountOnce(ReservationKey, s, k);
    }
  }

  lemma {:induction false} ListedDistinct(s: seq<Reservation>)
    requires forall i, j :: 0 <= i < j < |s| ==> s[i].transaction != s[j].transaction
    ensures DistinctKeys(ReservationKey, s)
  {
    forall i, j | 0 <= i < j < |s| ensures ReservationKey(s[i]) != ReservationKey(s[j]) {
      assert ReservationKey(s[i])[5] != ReservationKey(s[j])[5];
    }
  }

  ghost function Listing(m: Reservations): seq<Reservation>
    decreases |m.Keys|
  {
    if m == map[] then [] else
      var t := Pick(m);
      assert (m - {t}).Keys == m.Keys - {t};
      [m[t]] + Listing(m - {t})
  }

  lemma {:induction false} ListingLists(m: Reservations)
    requires Keyed(m)
    ensures Lists(Listing(m), m)
    decreases |m.Keys|
  {
    if m != map[] {
      var t := Pick(m);
      var n := m - {t};
      assert n.Keys == m.Keys - {t};
      ListingLists(n);
      ListsCons(m, t, Listing(n));
    }
  }

  lemma {:induction false} ListsCons(m: Reservations, t: nat, rest: seq<Reservation>)
    requires Keyed(m) && t in m && Lists(rest, m - {t})
    ensures Lists([m[t]] + rest, m)
  {
    var n, s := m - {t}, [m[t]] + rest;
    forall u | u in m ensures m[u] in s {
      if u != t {
        assert n[u] in rest;
      } else {
        assert s[0] == m[u];
      }
    }
    forall i | 0 <= i < |s| ensures s[i].transaction in m && m[s[i].transaction] == s[i] {
      if i > 0 { assert s[i] == rest[i - 1]; }
    }
    forall i, j | 0 <= i < j < |s| ensures s[i].transaction != s[j].transaction {
      assert s[j] == rest[j - 1];
      if i > 0 { assert s[i] == rest[i - 1]; }
    }
  }

  // ----- Arbitration -----

  /** Which of the first `k` proposals, taken in order, fit in what the earlier ones leave. */
  function Grant(s: seq<Reservation>, k: nat, available: nat): (r: seq<Reservation>)
    requires k <= |s|
    ensures Total(r) <= available
  {
    if k == 0 then [] else
      var g := Grant(s, k - 1, available);
      if s[k - 1].amount <= available - Total(g) then TotalSnoc(g, s[k - 1]); g + [s[k - 1]] else g
  }

  function Refuse(s: seq<Reservation>, k: nat, available: nat): seq<nat>
    requires k <= |s|
  {
    if k == 0 then [] else
      var r := Refuse(s, k - 1, available);
      if s[k - 1].amount <= available - Total(Grant(s, k - 1, available)) then r else r + [s[k - 1].transaction]
  }

  lemma {:induction false} GrantGrows(s: seq<Reservation>, j: nat, k: nat, available: nat)
    requires j <= k <= |s|
    ensures Total(Grant(s, j, available)) <= Total(Grant(s, k, available))
    ensures forall p :: p in Grant(s, j, available) ==> p in Grant(s, k, available)
    ensures forall t :: t in Refuse(s, j, available) ==> t in Refuse(s, k, available)
    decreases k
  {
    if j < k {
      GrantGrows(s, j, k - 1, available);
      TotalSnoc(Grant(s, k - 1, available), s[k - 1]);
    }
  }

  /** A proposal is granted exactly when it fits beside those granted before it; a refused one does
      not fit in what is left in the end either. */
  lemma {:induction false} GrantDecides(s: seq<Reservation>, i: nat, available: nat)
    requires i < |s|
    ensures var left := available - Total(Grant(s, |s|, available));
      if s[i].amount <= available - Total(Grant(s, i, available)) then s[i] in Grant(s, |s|, available)
      else s[i].transaction in Refuse(s, |s|, available) && s[i].amount > left
  {
    GrantGrows(s, i + 1, |s|, available);
    GrantGrows(s, i, |s|, available);
  }

  /** Grants and refusals split the proposals. */
  lemma {:induction false} GrantSplits(s: seq<Reservation>, k: nat, available: nat)
    requires k <= |s|
    ensures multiset(Transactions(s[..k])) ==
      multiset(Transactions(Grant(s, k, available))) + multiset(Refuse(s, k, available))
  {
    hide Transactions, Total;
    if k > 0 {
      var g := Grant(s, k - 1, available);
      GrantSplits(s, k - 1, available);
      assert s[..k] == s[..k - 1] + [s[k - 1]];
      TransactionsSnoc(s[..k - 1], s[k - 1]);
      TransactionsSnoc(g, s[k - 1]);
      if s[k - 1].amount <= available - Total(g) {
        assert Grant(s, k, available) == g + [s[k - 1]];
      } else {
        assert Refuse(s, k, available) == Refuse(s, k - 1, available) + [s[k - 1].transaction];
      }
    } else {
      NoTransactions();
      assert s[..0] == [];
    }
  }

  lemma {:induction false} NoTransactions()
    ensures Transactions([]) == []
  {
  }

  function Transactions(s: seq<Reservation>): (r: seq<nat>)
    ensures |r| == |s| && forall i :: 0 <= i < |s| ==> r[i] == s[i].transaction
  {
    seq(|s|, i requires 0 <= i < |s| => s[i].transaction)
  }

  lemma {:induction false} TransactionsSnoc(s: seq<Reservation>, r: Reservation)
    ensures Transactions(s + [r]) == Transactions(s) + [r.transaction]
  {
  }

  ghost predicate DistinctTransactions(s: seq<Reservation>) {
    forall i, j :: 0 <= i < j < |s| ==> s[i].transaction != s[j].transaction
  }

  // ----- The state and its steps -----

  datatype Ledger = Ledger(
    capacity: nat,
    active: int,
    proposals: seq<Reservation>,
    accepted: seq<Reservation>,
    refused: seq<nat>,
    rejected: seq<nat>,
    releases: seq<Release>,
    cancellations: seq<nat>,
    live: Reservations,
    highWatermark: int,
    reserved: int,
    released: int,
    cancelled: int)
  {
    predicate Reservable(r: Reservation) {
      && r.Sound() && r.amount <= capacity
      && r.transaction !in live && r.transaction !in Transactions(proposals)
    }

    function Reserve(r: Reservation): (Ledger, bool) {
      if Reservable(r) then (this.(proposals := proposals + [r]), true) else (this, false)
    }

    /** What an owner may still release: its live amounts without those about to be cancelled. */
    ghost function Releasable(owner: nat): nat {
      Held(OwnedBy(live - Pending(), owner))
    }

    function Pending(): set<nat> { set t | t in cancellations }

    ghost function Free(claimant: nat, units: nat): (Ledger, bool) {
      if units != 0 && units + Promised(releases, |releases|, claimant) <= Releasable(claimant)
      then (this.(releases := releases + [Release(claimant, units)]), true) else (this, false)
    }

    function Cancel(owner: nat, transaction: nat): (Ledger, bool) {
      if transaction in live && live[transaction].owner == owner && transaction !in cancellations
      then (this.(cancellations := cancellations + [transaction]), true) else (this, false)
    }

    /** Greedy in stable order; the proposals stay until the barrier. */
    function Arbitrate(): Ledger
      requires active <= capacity
    {
      var s := SortBy(ReservationKey, proposals);
      this.(proposals := s, accepted := Grant(s, |s|, capacity - active), refused := Refuse(s, |s|, capacity - active))
    }

    function Admit(r: Reservation): Ledger {
      this.(live := if r.transaction in live then live else live[r.transaction := r],
            active := active + r.amount, reserved := reserved + r.amount)
    }

    function Drop(transaction: nat): Ledger {
      if transaction !in live then this else
        var amount := live[transaction].amount;
        this.(live := live - {transaction}, active := active - amount, cancelled := cancelled + amount)
    }

    /** One release takes from its owner's reservations in stable order. */
    ghost function Give(r: Release): Ledger {
      var owned := SortBy(ReservationKey, Listing(OwnedBy(live, r.claimant)));
      var given := Min(r.units, Held(OwnedBy(live, r.claimant)));
      this.(live := Drain(live, owned, r.units), active := active - given, released := released + given)
    }

    ghost function AdmitAll(k: nat): Ledger
      requires k <= |accepted|
    {
      if k == 0 then this else AdmitAll(k - 1).Admit(accepted[k - 1])
    }

    ghost function DropAll(k: nat): Ledger
      requires k <= |cancellations|
    {
      if k == 0 then this else DropAll(k - 1).Drop(cancellations[k - 1])
    }

    ghost function GiveAll(k: nat): Ledger
      requires k <= |releases|
    {
      if k == 0 then this else GiveAll(k - 1).Give(releases[k - 1])
    }

    ghost function Settle(): Ledger {
      this.(rejected := refused, proposals := [], accepted := [], releases := [], cancellations := [], refused := [],
            highWatermark := if active > highWatermark then active else highWatermark)
    }

    /** Admissions, then cancellations, then releases. */
    ghost function Xfer(): Ledger {
      var a := AdmitAll(|accepted|);
      var c := a.DropAll(|a.cancellations|);
      c.GiveAll(|c.releases|).Settle()
    }

    /** The books: capacity in use is what the live reservations hold, and everything ever reserved
        is in use, released or cancelled. */
    ghost predicate Balanced() {
      && Keyed(live) && (forall t :: t in live ==> live[t].Sound())
      && active == Held(live) <= capacity
      && reserved == active + released + cancelled
      && released >= 0 && cancelled >= 0
    }

    /** What `validate()` checks. */
    ghost predicate Validates() {
      Keyed(live) && (forall t :: t in live ==> live[t].Sound()) && active == Held(live) <= capacity
    }

    ghost predicate Valid() {
      && Balanced() && active <= highWatermark <= capacity
      && DistinctTransactions(proposals) && DistinctTransactions(accepted)
      && (forall i :: 0 <= i < |proposals| ==> proposals[i].transaction !in live && proposals[i].Sound())
      && (forall i :: 0 <= i < |accepted| ==> accepted[i].transaction !in live && accepted[i].Sound())
      && active + Total(accepted) <= capacity
    }
  }

  function Idle(capacity: nat): Ledger {
    Ledger(capacity, 0, [], [], [], [], [], [], map[], 0, 0, 0, 0)
  }

  ghost function Promised(releases: seq<Release>, k: nat, claimant: nat): nat
    requires k <= |releases|
  {
    if k == 0 then 0 else Promised(releases, k - 1, claimant) + if releases[k - 1].claimant == claimant then releases[k - 1].units else 0
  }

  /** Takes `units` from the listed reservations, front to back; emptied ones disappear. */
  function Drain(m: Reservations, owned: seq<Reservation>, units: nat): Reservations
    decreases |owned|
  {
    if owned == [] || units == 0 then m else
      var r, given := owned[0], Min(units, owned[0].amount);
      Drain(Taken(m, r, given), owned[1..], units - given)
  }

  function Taken(m: Reservations, r: Reservation, given: nat): Reservations
    requires given <= r.amount
  {
    if given == r.amount then m - {r.transaction} else m[r.transaction := r.(amount := r.amount - given)]
  }

  // ----- Releases -----

  /** Listed reservations still hold what the list says. */
  ghost predicate Current(m: Reservations, owned: seq<Reservation>) {
    && DistinctTransactions(owned)
    && forall i :: 0 <= i < |owned| ==> owned[i].transaction in m && m[owned[i].transaction] == owned[i]
  }

  lemma {:induction false} TakenHeld(m: Reservations, r: Reservation, given: nat)
    requires given <= r.amount && r.transaction in m && m[r.transaction] == r
    ensures Held(Taken(m, r, given)) == Held(m) - given
  {
    if given == r.amount {
      HeldRemove(m, r.transaction);
    } else {
      HeldUpdate(m, r.transaction, r.(amount := r.amount - given));
    }
  }

  lemma {:induction false} TakenCurrent(m: Reservations, owned: seq<Reservation>, given: nat)
    requires owned != [] && Current(m, owned) && given <= owned[0].amount
    ensures Current(Taken(m, owned[0], given), owned[1..])
  {
    var n, rest := Taken(m, owned[0], given), owned[1..];
    forall i | 0 <= i < |rest| ensures rest[i].transaction in n && n[rest[i].transaction] == rest[i] {
      assert rest[i] == owned[i + 1] && owned[0].transaction != owned[i + 1].transaction;
    }
  }

  /** A release takes exactly the smaller of its amount and what the listed reservations hold. */
  lemma {:induction false} DrainHeld(m: Reservations, owned: seq<Reservation>, units: nat)
    requires Current(m, owned)
    ensures Held(Drain(m, owned, units)) == Held(m) - Min(units, Total(owned))
    decreases |owned|
  {
    if owned != [] && units != 0 {
      var given := Min(units, owned[0].amount);
      TakenHeld(m, owned[0], given);
      TakenCurrent(m, owned, given);
      DrainHeld(Taken(m, owned[0], given), owned[1..], units - given);
    }
  }

  /** What is left of the `i`th listed reservation once those before it have given what they could. */
  function Left(owned: seq<Reservation>, i: nat, units: nat): nat
    requires i < |owned|
  {
    var before := Total(owned[..i]);
    owned[i].amount - (if units <= before then 0 else Min(owned[i].amount, units - before))
  }

  lemma {:induction false} TotalHead(s: seq<Reservation>, i: nat)
    requires 0 < i <= |s|
    ensures Total(s[..i]) == s[0].amount + Total(s[1..][..i - 1])
  {
    assert s[..i][1..] == s[1..][..i - 1];
  }

  /** Reservation by reservation: the listed ones are drained strictly in order, the others keep
      exactly what they had. */
  lemma {:induction false} DrainExact(m: Reservations, owned: seq<Reservation>, units: nat, t: nat)
    requires Current(m, owned) && forall i :: 0 <= i < |owned| ==> owned[i].amount > 0
    ensures var n := Drain(m, owned, units);
      && (t !in Transactions(owned) ==> (t in n <==> t in m) && (t in m ==> n[t] == m[t]))
      && forall i :: 0 <= i < |owned| && owned[i].transaction == t ==>
           if Left(owned, i, units) == 0 then t !in n
           else t in n && n[t] == owned[i].(amount := Left(owned, i, units))
    decreases |owned|
  {
    if owned == [] {
    } else if units == 0 {
    } else {
      var given, rest := Min(units, owned[0].amount), owned[1..];
      var n := Taken(m, owned[0], given);
      TakenCurrent(m, owned, given);
      DrainExact(n, rest, units - given, t);
      assert owned[..0] == [];
      forall i | 0 <= i < |owned| && owned[i].transaction == t
        ensures i > 0 ==> Left(owned, i, units) == Left(rest, i - 1, units - given)
      {
        if i > 0 { TotalHead(owned, i); }
      }
      assert t !in Transactions(owned) ==> forall i :: 0 <= i < |rest| ==> rest[i] == owned[i + 1];
      DrainFirst(m, owned, units, t);
      DrainRest(m, owned, units, t);
    }
  }

  lemma {:induction false} DrainFirst(m: Reservations, owned: seq<Reservation>, units: nat, t: nat)
    requires Current(m, owned) && owned != []
    ensures t == owned[0].transaction ==> t !in Transactions(owned[1..])
  {
    forall i | 0 <= i < |owned[1..]| ensures owned[1..][i].transaction != owned[0].transaction {}
  }

  lemma {:induction false} DrainRest(m: Reservations, owned: seq<Reservation>, units: nat, t: nat)
    requires owned != []
    ensures t !in Transactions(owned) ==> t !in Transactions(owned[1..]) && t != owned[0].transaction
  {
    if t in Transactions(owned[1..]) {
      var i :| 0 <= i < |owned[1..]| && owned[1..][i].transaction == t;
      assert Transactions(owned)[i + 1] == t;
    }
    assert Transactions(owned)[0] == owned[0].transaction;
  }

  lemma {:induction false} ListsPermuted(s: seq<Reservation>, r: seq<Reservation>, m: Reservations)
    requires Lists(s, m) && multiset(s) == multiset(r)
    ensures Lists(r, m)
  {
    forall i, j | 0 <= i < j < |s| ensures TransactionKey(s[i]) != TransactionKey(s[j]) {
      assert TransactionKey(s[i])[0] != TransactionKey(s[j])[0];
    }
    DistinctKeysPermuted(TransactionKey, s, r);
    forall i | 0 <= i < |r| ensures r[i].transaction in m && m[r[i].transaction] == r[i] {
      assert r[i] in multiset(s);
    }
    forall i, j | 0 <= i < j < |r| ensures r[i].transaction != r[j].transaction {
      assert TransactionKey(r[i]) != TransactionKey(r[j]);
    }
    forall t | t in m ensures m[t] in r {
      assert m[t] in multiset(s);
    }
  }

  function TransactionKey(r: Reservation): Key { [r.transaction] }

  /** Whatever order an owner's reservations are collected in, sorting yields the same list. */
  lemma {:induction false} OwnedListed(m: Reservations, owner: nat)
    requires Keyed(m)
    ensures var owned := SortBy(ReservationKey, Listing(OwnedBy(m, owner)));
      Lists(owned, OwnedBy(m, owner)) && Current(m, owned) && Total(owned) == Held(OwnedBy(m, owner))
  {
    var part := OwnedBy(m, owner);
    var owned := SortBy(ReservationKey, Listing(part));
    ListingLists(part);
    ListsPermuted(Listing(part), owned, part);
    ListsTotal(owned, part);
  }

  lemma {:induction false} DrainSound(m: Reservations, owned: seq<Reservation>, units: nat)
    requires Current(m, owned) && Keyed(m) && forall t :: t in m ==> m[t].Sound()
    ensures var n := Drain(m, owned, units);
      Keyed(n) && n.Keys <= m.Keys && forall t :: t in n ==> n[t].Sound()
    decreases |owned|
  {
    if owned != [] && units != 0 {
      var given := Min(units, owned[0].amount);
      TakenCurrent(m, owned, given);
      DrainSound(Taken(m, owned[0], given), owned[1..], units - given);
    }
  }

  /** A release removes exactly the smaller of its units and its owner's live total. */
  lemma {:induction false} GiveExact(l: Ledger, r: Release)
    requires l.Balanced()
    ensures var g, given := l.Give(r), Min(r.units, Held(OwnedBy(l.live, r.claimant)));
      && g.Balanced()
      && Held(g.live) == Held(l.live) - given
      && g.released == l.released + given
      && forall t :: t in l.live && l.live[t].owner != r.claimant ==> t in g.live && g.live[t] == l.live[t]
  {
    hide Listing, SortBy, ReservationKey;
    OwnedListed(l.live, r.claimant);
    var owned := SortBy(ReservationKey, Listing(OwnedBy(l.live, r.claimant)));
    DrainHeld(l.live, owned, r.units);
    DrainSound(l.live, owned, r.units);
    forall t | t in l.live && l.live[t].owner != r.claimant ensures t in l.Give(r).live && l.Give(r).live[t] == l.live[t] {
      DrainExact(l.live, owned, r.units, t);
    }
  }

  // ----- The barrier -----

  lemma {:induction false} DropBalanced(l: Ledger, t: nat)
    requires l.Balanced()
    ensures l.Drop(t).Balanced() && l.Drop(t).active <= l.active
  {
    if t in l.live { HeldRemove(l.live, t); }
  }

  lemma {:induction false} AdmitOne(a: Ledger, r: Reservation)
    requires a.Balanced() && r.Sound() && r.transaction !in a.live && a.active + r.amount <= a.capacity
    ensures a.Admit(r).Balanced()
  {
    HeldUpdate(a.live, r.transaction, r);
  }

  /** Which transactions are live after `k` admissions. */
  ghost predicate AdmittedFrom(l: Ledger, k: nat, live: Reservations)
    requires k <= |l.accepted|
  {
    forall t :: t in live ==> t in l.live || exists i :: 0 <= i < k && l.accepted[i].transaction == t
  }

  lemma {:induction false} AdmitNext(l: Ledger, k: nat)
    requires l.Valid() && k < |l.accepted| && AdmittedFrom(l, k, l.AdmitAll(k).live)
    ensures l.accepted[k].transaction !in l.AdmitAll(k).live && AdmittedFrom(l, k + 1, l.AdmitAll(k + 1).live)
  {
    hide Held, Total;
    forall t | t in l.AdmitAll(k + 1).live ensures t in l.live || exists i :: 0 <= i < k + 1 && l.accepted[i].transaction == t {
      if t !in l.AdmitAll(k).live { assert l.accepted[k].transaction == t; }
    }
  }

  lemma {:induction false} AdmitFrame(l: Ledger, k: nat)
    requires k <= |l.accepted|
    ensures var a := l.AdmitAll(k); a == l.(live := a.live, active := a.active, reserved := a.reserved)
    ensures l.AdmitAll(k).active == l.active + Total(l.accepted[..k])
  {
    hide Total;
    if k == 0 {
      TotalNone(l.accepted[..0]);
    } else {
      AdmitFrame(l, k - 1);
      assert l.accepted[..k] == l.accepted[..k - 1] + [l.accepted[k - 1]];
      TotalSnoc(l.accepted[..k - 1], l.accepted[k - 1]);
    }
  }

  lemma {:induction false} TotalNone(s: seq<Reservation>)
    requires s == []
    ensures Total(s) == 0
  {
  }

  lemma {:induction false} AdmitBalanced(l: Ledger, k: nat)
    requires l.Valid() && k <= |l.accepted|
    ensures l.AdmitAll(k).Balanced() && AdmittedFrom(l, k, l.AdmitAll(k).live)
  {
    hide Ledger.Valid, Ledger.Balanced, Ledger.Admit, AdmittedFrom, Total, Held, Keyed;
    if k == 0 {
      AdmitNone(l);
    } else {
      AdmitBalanced(l, k - 1);
      AdmitNext(l, k - 1);
      AdmitFits(l, k - 1);
      AdmitOne(l.AdmitAll(k - 1), l.accepted[k - 1]);
      AdmitUnfolds(l, k - 1);
    }
  }

  lemma {:induction false} AdmitNone(l: Ledger)
    requires l.Valid()
    ensures l.AdmitAll(0).Balanced() && AdmittedFrom(l, 0, l.AdmitAll(0).live)
  {
  }

  lemma {:induction false} AdmitUnfolds(l: Ledger, k: nat)
    requires k < |l.accepted|
    ensures l.AdmitAll(k + 1) == l.AdmitAll(k).Admit(l.accepted[k])
  {
    hide Ledger.Admit;
  }

  lemma {:induction false} AdmitFits(l: Ledger, k: nat)
    requires l.Valid() && k < |l.accepted|
    ensures l.accepted[k].Sound() && l.AdmitAll(k).active + l.accepted[k].amount <= l.AdmitAll(k).capacity
  {
    hide Ledger.Valid, Ledger.AdmitAll;
    AdmitRoom(l, k);
    AdmitFrame(l, k);
  }

  lemma {:induction false} AdmitRoom(l: Ledger, k: nat)
    requires l.Valid() && k < |l.accepted|
    ensures l.accepted[k].Sound() && l.active + Total(l.accepted[..k]) + l.accepted[k].amount <= l.capacity
    ensures Total(l.accepted[..k + 1]) == Total(l.accepted[..k]) + l.accepted[k].amount
  {
    assert l.accepted[..k + 1] == l.accepted[..k] + [l.accepted[k]];
    TotalSnoc(l.accepted[..k], l.accepted[k]);
    TotalPrefix(l.accepted, k + 1);
  }

  lemma {:induction false} TotalPrefix(s: seq<Reservation>, k: nat)
    requires k <= |s|
    ensures Total(s[..k]) <= Total(s)
  {
    if k > 0 {
      TotalPrefix(s[1..], k - 1);
      TotalHead(s, k);
    }
  }

  lemma {:induction false} DropAllBalanced(l: Ledger, k: nat)
    requires l.Balanced() && k <= |l.cancellations|
    ensures var c := l.DropAll(k); c.Balanced() && c == l.(live := c.live, active := c.active, cancelled := c.cancelled)
  {
    if k > 0 {
      DropAllBalanced(l, k - 1);
      DropBalanced(l.DropAll(k - 1), l.cancellations[k - 1]);
    }
  }

  lemma {:induction false} GiveAllFrame(l: Ledger, k: nat)
    requires k <= |l.releases|
    ensures var g := l.GiveAll(k); g == l.(live := g.live, active := g.active, released := g.released)
  {
    hide Held, Drain, SortBy, Listing, OwnedBy;
    if k > 0 { GiveAllFrame(l, k - 1); }
  }

  lemma {:induction false} GiveAllBalanced(l: Ledger, k: nat)
    requires l.Balanced() && k <= |l.releases|
    ensures l.GiveAll(k).Balanced()
  {
    hide Ledger.Balanced, Ledger.Give, Held;
    if k > 0 {
      GiveAllBalanced(l, k - 1);
      GiveExact(l.GiveAll(k - 1), l.releases[k - 1]);
    }
  }

  lemma {:induction false} XferValid(l: Ledger)
    requires l.Valid()
    ensures l.Xfer().Valid()
  {
    hide Ledger.AdmitAll, Ledger.DropAll, Ledger.GiveAll;
    var a := l.AdmitAll(|l.accepted|);
    AdmitBalanced(l, |l.accepted|);
    AdmitFrame(l, |l.accepted|);
    var c := a.DropAll(|a.cancellations|);
    DropAllBalanced(a, |a.cancellations|);
    GiveAllBalanced(c, |c.releases|);
    GiveAllFrame(c, |c.releases|);
  }

  // ----- Arbitration -----

  lemma {:induction false} GrantFrom(s: seq<Reservation>, k: nat, available: nat)
    requires k <= |s| && DistinctTransactions(s)
    ensures var g := Grant(s, k, available);
      DistinctTransactions(g) && forall j :: 0 <= j < |g| ==> exists i :: 0 <= i < k && s[i] == g[j]
  {
    if k > 0 {
      GrantFrom(s, k - 1, available);
    }
  }

  lemma {:induction false} SortedProposals(s: seq<Reservation>)
    requires DistinctTransactions(s)
    ensures var r := SortBy(ReservationKey, s);
      DistinctTransactions(r) && StrictlySorted(ReservationKey, r) && forall i :: 0 <= i < |r| ==> r[i] in s
  {
    var r := SortBy(ReservationKey, s);
    ListedDistinct(s);
    SortByStrict(ReservationKey, s);
    forall i, j | 0 <= i < j < |s| ensures TransactionKey(s[i]) != TransactionKey(s[j]) {
      assert TransactionKey(s[i])[0] != TransactionKey(s[j])[0];
    }
    DistinctKeysPermuted(TransactionKey, s, r);
    forall i, j | 0 <= i < j < |r| ensures r[i].transaction != r[j].transaction {
      assert TransactionKey(r[i]) != TransactionKey(r[j]);
    }
    forall i | 0 <= i < |r| ensures r[i] in s {
      assert r[i] in multiset(r);
    }
  }

  lemma {:induction false} ArbitrateValid(l: Ledger)
    requires l.Valid()
    ensures l.Arbitrate().Valid()
  {
    hide SortBy, Grant, Refuse, ReservationKey;
    var s := SortBy(ReservationKey, l.proposals);
    SortedProposals(l.proposals);
    GrantFrom(s, |s|, l.capacity - l.active);
  }

  /** Arbitration forgets the order of the proposals. */
  lemma {:induction false} ArbitrationOrderFree(l: Ledger, proposals: seq<Reservation>)
    requires l.Valid() && multiset(l.proposals) == multiset(proposals)
    ensures l.(proposals := proposals).Arbitrate() == l.Arbitrate()
  {
    hide SortBy, Grant, Refuse, ReservationKey, Held;
    ListedDistinct(l.proposals);
    SortByPermuted(ReservationKey, l.proposals, proposals);
  }

  /** Arbitration stays within the available capacity; each proposal is either granted or refused,
      and a refused one would not fit in the capacity left at the end. */
  lemma {:induction false} ArbitrationMaximal(l: Ledger, p: Reservation)
    requires l.Valid() && p in l.proposals
    ensures var a := l.Arbitrate(); var left := l.capacity - l.active - Total(a.accepted);
      && left >= 0
      && (p in a.accepted <==> p.transaction !in a.refused)
      && (p.transaction in a.refused ==> p.amount > left)
      && multiset(Transactions(l.proposals)) == multiset(Transactions(a.accepted)) + multiset(a.refused)
  {
    hide Grant, Refuse, ReservationKey, SortBy;
    var s, available := SortBy(ReservationKey, l.proposals), l.capacity - l.active;
    SortedProposals(l.proposals);
    assert p in multiset(l.proposals);
    var i :| 0 <= i < |s| && s[i] == p;
    GrantDecides(s, i, available);
    GrantSplits(s, |s|, available);
    assert s[..|s|] == s;
    SortTransactions(l.proposals);
    OneTransaction(s, i);
    if p in Grant(s, |s|, available) { TransactionIn(Grant(s, |s|, available), p); }
  }

  lemma {:induction false} TransactionIn(s: seq<Reservation>, p: Reservation)
    requires p in s
    ensures p.transaction in multiset(Transactions(s))
  {
    var i :| 0 <= i < |s| && s[i] == p;
    assert Transactions(s)[i] == p.transaction;
  }

  lemma {:induction false} OneTransaction(s: seq<Reservation>, i: nat)
    requires i < |s| && DistinctTransactions(s)
    ensures multiset(Transactions(s))[s[i].transaction] == 1
  {
    var t := Transactions(s);
    assert t == t[..i] + [t[i]] + t[i + 1..];
    assert t[i] !in t[..i] && t[i] !in t[i + 1..];
  }

  lemma {:induction false} TransactionsCons(r: Reservation, s: seq<Reservation>)
    ensures Transactions([r] + s) == [r.transaction] + Transactions(s)
    ensures multiset(Transactions([r] + s)) == multiset{r.transaction} + multiset(Transactions(s))
  {
  }

  lemma {:induction false} InsertTransactions(r: Reservation, s: seq<Reservation>)
    ensures multiset(Transactions(Insert(ReservationKey, r, s))) == multiset{r.transaction} + multiset(Transactions(s))
  {
    hide Transactions, ReservationKey, Less;
    if s == [] || Less(ReservationKey(r), ReservationKey(s[0])) {
      TransactionsCons(r, s);
    } else {
      var t := Insert(ReservationKey, r, s[1..]);
      InsertTransactions(r, s[1..]);
      TransactionsCons(s[0], t);
      TransactionsCons(s[0], s[1..]);
      assert s == [s[0]] + s[1..];
    }
  }

  lemma {:induction false} SortTransactions(s: seq<Reservation>)
    ensures multiset(Transactions(SortBy(ReservationKey, s))) == multiset(Transactions(s))
  {
    hide Transactions, Insert, ReservationKey;
    if s != [] {
      SortTransactions(s[1..]);
      InsertTransactions(s[0], SortBy(ReservationKey, s[1..]));
      TransactionsCons(s[0], s[1..]);
      assert s == [s[0]] + s[1..];
    }
  }

  // ----- Every interleaving -----

  datatype Op =
    | Reserve(request: Reservation)
    | Free(claimant: nat, units: nat)
    | Cancel(owner: nat, transaction: nat)
    | Arbitrate
    | Commit

  ghost function Step(l: Ledger, op: Op): Ledger
    requires l.active <= l.capacity
  {
    match op
    case Reserve(r) => l.Reserve(r).0
    case Free(claimant, units) => l.Free(claimant, units).0
    case Cancel(owner, t) => l.Cancel(owner, t).0
    case Arbitrate => l.Arbitrate()
    case Commit => l.Xfer()
  }

  lemma {:induction false} ReserveValid(l: Ledger, r: Reservation)
    requires l.Valid()
    ensures l.Reserve(r).0.Valid()
  {
    if l.Reservable(r) {
      forall i | 0 <= i < |l.proposals| ensures l.proposals[i].transaction != r.transaction {
        assert Transactions(l.proposals)[i] == l.proposals[i].transaction;
      }
    }
  }

  lemma {:induction false} StepValid(l: Ledger, op: Op)
    requires l.Valid()
    ensures Step(l, op).Valid() && Step(l, op).capacity == l.capacity
  {
    hide Ledger.Reserve, Ledger.Arbitrate, Ledger.Xfer;
    match op
    case Reserve(r) => ReserveValid(l, r); ReserveFrame(l, r);
    case Free(_, _) =>
    case Cancel(_, _) =>
    case Arbitrate => ArbitrateValid(l); ReserveFrame(l, Reservation(0, 0, Time(0, 0), Time(0, 0), 0, 0, 0, 0, 0));
    case Commit => XferValid(l); XferFrame(l);
  }

  lemma {:induction false} ReserveFrame(l: Ledger, r: Reservation)
    requires l.Valid()
    ensures l.Reserve(r).0.capacity == l.capacity && l.Arbitrate().capacity == l.capacity
  {
  }

  lemma {:induction false} XferFrame(l: Ledger)
    requires l.Valid()
    ensures l.Xfer().capacity == l.capacity
  {
    hide Ledger.AdmitAll, Ledger.DropAll, Ledger.GiveAll;
    var a := l.AdmitAll(|l.accepted|);
    AdmitBalanced(l, |l.accepted|);
    AdmitFrame(l, |l.accepted|);
    var c := a.DropAll(|a.cancellations|);
    DropAllBalanced(a, |a.cancellations|);
    GiveAllBalanced(c, |c.releases|);
    GiveAllFrame(c, |c.releases|);
  }

  ghost function Run(l: Ledger, ops: seq<Op>): (r: Ledger)
    requires l.Valid()
    ensures r.Valid() && r.capacity == l.capacity
    decreases |ops|
  {
    if ops == [] then l else
      StepValid(l, ops[0]);
      Run(Step(l, ops[0]), ops[1..])
  }

  /** After every interleaving of reservations, releases, cancellations, arbitrations and barriers,
      the capacity in use is exactly what live reservations hold, never more than there is, and
      everything ever reserved is in use, released or cancelled. */
  lemma {:induction false} LedgerBalances(capacity: nat, ops: seq<Op>)
    ensures Idle(capacity).Valid()
    ensures var l := Run(Idle(capacity), ops);
      && l.active == Held(l.live) && 0 <= l.active <= l.highWatermark <= capacity
      && l.reserved == l.active + l.released + l.cancelled
      && l.Validates()
  {
  }

  // ----- The runtime object -----

  class Resource {
    const totalCapacity: nat
    var activeCapacity: nat
    var proposals: seq<Reservation>
    var acceptedProposals: seq<Reservation>
    var proposedRejectedTransactions: seq<nat>
    var rejectedTransactions: seq<nat>
    var releaseProposals: seq<Release>
    var cancellationProposals: seq<nat>
    var reservations: Reservations
    var highWatermark: nat
    var totalReservations: nat
    var totalReleases: nat
    var totalCancellations: nat

    function State(): Ledger
      reads this
    {
      Ledger(totalCapacity, activeCapacity, proposals, acceptedProposals, proposedRejectedTransactions,
             rejectedTransactions, releaseProposals, cancellationProposals, reservations, highWatermark,
             totalReservations, totalReleases, totalCancellations)
    }

    constructor (totalCapacity: nat)
      ensures State() == Idle(totalCapacity)
    {
      this.totalCapacity := totalCapacity;
      activeCapacity, highWatermark, totalReservations, totalReleases, totalCancellations := 0, 0, 0, 0, 0;
      proposals, acceptedProposals, proposedRejectedTransactions, rejectedTransactions := [], [], [], [];
      releaseProposals, cancellationProposals, reservations := [], [], map[];
    }

    method ProposeReserve(request: Reservation) returns (ok: bool)
      modifies this`proposals
      ensures (State(), ok) == old(State()).Reserve(request)
      ensures ok <==> (request.owner != INVALID_OBJECT && 0 < request.amount <= totalCapacity
        && request.issue.NotAfter(request.ready) && request.transaction !in reservations
        && forall p :: p in old(proposals) ==> p.transaction != request.transaction)
    {
      if request.owner == INVALID_OBJECT || request.amount == 0 || request.amount > totalCapacity ||
        request.ready.Before(request.issue) || request.transaction in reservations
      {
        return false;
      }
      for i := 0 to |proposals|
        invariant proposals == old(proposals)
        invariant forall j :: 0 <= j < i ==> proposals[j].transaction != request.transaction
      {
        if proposals[i].transaction == request.transaction {
          assert Transactions(proposals)[i] == request.transaction && proposals[i] in proposals;
          return false;
        }
      }
      proposals := proposals + [request];
      return true;
    }

    /** The amounts an owner could release if nothing else were pending, one reservation at a time. */
    method OwnedAmount(owner: nat) returns (amount: nat)
      ensures amount == State().Releasable(owner)
    {
      amount := 0;
      var rest := reservations.Keys;
      ghost var pending := State().Pending();
      assert OwnedBy(reservations - (pending + rest), owner) == map[];
      while rest != {}
        invariant rest <= reservations.Keys
        invariant amount == Held(OwnedBy(reservations - (pending + rest), owner))
        decreases rest
      {
        var t :| t in rest;
        ghost var before := OwnedBy(reservations - (pending + rest), owner);
        rest := rest - {t};
        ghost var after := OwnedBy(reservations - (pending + rest), owner);
        if reservations[t].owner == owner && t !in cancellationProposals {
          amount := amount + reservations[t].amount;
          assert after == before[t := reservations[t]];
          HeldUpdate(before, t, reservations[t]);
        } else {
          assert after == before;
        }
      }
      assert pending + {} == pending;
    }

    method ProposeRelease(owner: nat, amount: nat) returns (ok: bool)
      modifies this`releaseProposals
      ensures (State(), ok) == old(State()).Free(owner, amount)
      ensures ok <==> (0 < amount && amount + Promised(old(releaseProposals), |old(releaseProposals)|, owner)
        <= Held(OwnedBy(reservations - (set t | t in cancellationProposals), owner)))
    {
      if amount == 0 {
        return false;
      }
      var whole := OwnedAmount(owner);
      var releasable := whole;
      for i := 0 to |releaseProposals|
        invariant releaseProposals == old(releaseProposals)
        invariant releasable + Promised(releaseProposals, i, owner) == whole
               || (releasable == 0 && Promised(releaseProposals, i, owner) >= whole)
      {
        if releaseProposals[i].claimant == owner {
          releasable := if releaseProposals[i].units > releasable then 0 else releasable - releaseProposals[i].units;
        }
      }
      if amount > releasable {
        return false;
      }
      releaseProposals := releaseProposals + [Release(owner, amount)];
      return true;
    }

    method ProposeCancel(owner: nat, transactionId: nat) returns (ok: bool)
      modifies this`cancellationProposals
      ensures (State(), ok) == old(State()).Cancel(owner, transactionId)
      ensures ok <==> (transactionId in reservations && reservations[transactionId].owner == owner
        && transactionId !in old(cancellationProposals))
    {
      if transactionId !in reservations || reservations[transactionId].owner != owner || transactionId in cancellationProposals {
        return false;
      }
      cancellationProposals := cancellationProposals + [transactionId];
      return true;
    }

    method DoArbitrate()
      requires State().Valid()
      modifies this`proposals, this`acceptedProposals, this`proposedRejectedTransactions
      ensures State() == old(State()).Arbitrate() && State().Valid()
    {
      hide SortBy, ReservationKey, Ledger.Valid, Held;
      ArbitrateValid(State());
      CapacityLeft(State());
      acceptedProposals, proposedRejectedTransactions := [], [];
      proposals := SortBy(ReservationKey, proposals);
      ghost var available := totalCapacity - activeCapacity;
      var remaining := totalCapacity - activeCapacity;
      for i := 0 to |proposals|
        invariant proposals == SortBy(ReservationKey, old(proposals))
        invariant acceptedProposals == Grant(proposals, i, available)
        invariant proposedRejectedTransactions == Refuse(proposals, i, available)
        invariant remaining + Total(acceptedProposals) == available
      {
        var proposal := proposals[i];
        if proposal.amount <= remaining {
          TotalSnoc(acceptedProposals, proposal);
          acceptedProposals := acceptedProposals + [proposal];
          remaining := remaining - proposal.amount;
        } else {
          proposedRejectedTransactions := proposedRejectedTransactions + [proposal.transaction];
        }
      }
    }

    method AdmitAccepted()
      requires State().Valid()
      modifies this`reservations, this`activeCapacity, this`totalReservations
      ensures State() == old(State()).AdmitAll(|acceptedProposals|) && State().Balanced()
    {
      hide Ledger.Valid, Ledger.Balanced;
      ghost var l := State();
      for i := 0 to |acceptedProposals|
        invariant State() == l.AdmitAll(i)
      {
        var reservation := acceptedProposals[i];
        if reservation.transaction !in reservations {
          reservations := reservations[reservation.transaction := reservation];
        }
        activeCapacity := activeCapacity + reservation.amount;
        totalReservations := totalReservations + reservation.amount;
      }
      AdmitBalanced(l, |acceptedProposals|);
    }

    /** The subtraction cannot underflow: what is live is part of what is active. */
    method DropCancelled()
      requires State().Balanced()
      modifies this`reservations, this`activeCapacity, this`totalCancellations
      ensures State() == old(State()).DropAll(|cancellationProposals|) && State().Balanced()
    {
      hide Ledger.DropAll;
      ghost var l := State();
      NothingDropped(l);
      for i := 0 to |cancellationProposals|
        invariant cancellationProposals == l.cancellations
        invariant State() == l.DropAll(i) && State().Balanced()
      {
        var transactionId := cancellationProposals[i];
        DropNext(l, i);
        DropBalanced(State(), transactionId);
        if transactionId in reservations {
          HeldRemove(reservations, transactionId);
          var amount := reservations[transactionId].amount;
          activeCapacity := activeCapacity - amount;
          totalCancellations := totalCancellations + amount;
          reservations := reservations - {transactionId};
        }
      }
    }

    /** The owner's reservations in stable order. */
    method CollectOwned(owner: nat) returns (owned: seq<Reservation>)
      requires Keyed(reservations)
      ensures owned == SortBy(ReservationKey, Listing(OwnedBy(reservations, owner)))
    {
      hide SortBy, ReservationKey, Listing;
      owned := [];
      var rest := reservations.Keys;
      assert OwnedBy(reservations - rest, owner) == map[];
      while rest != {}
        invariant rest <= reservations.Keys
        invariant Lists(owned, OwnedBy(reservations - rest, owner))
        decreases rest
      {
        var t :| t in rest;
        ghost var before := OwnedBy(reservations - rest, owner);
        rest := rest - {t};
        ghost var after := OwnedBy(reservations - rest, owner);
        if reservations[t].owner == owner {
          assert after - {t} == before;
          ListsCons(after, t, owned);
          owned := [reservations[t]] + owned;
        } else {
          assert after == before;
        }
      }
      assert reservations - {} == reservations;
      ghost var part := OwnedBy(reservations, owner);
      ListingLists(part);
      ListsAlike(owned, Listing(part), part);
      ListedDistinct(owned);
      SortByPermuted(ReservationKey, owned, Listing(part));
      owned := SortBy(ReservationKey, owned);
    }

    /** The draining loop, and the erasure of what it emptied. */
    method DrainOwned(owned: seq<Reservation>, units: nat)
      requires Current(reservations, owned) && activeCapacity == Held(reservations)
      modifies this`reservations, this`activeCapacity, this`totalReleases
      ensures reservations == Drain(old(reservations), owned, units) && activeCapacity == Held(reservations)
      ensures activeCapacity + totalReleases == old(activeCapacity + totalReleases)
    {
      hide Held, Drain, Taken, Current;
      var remaining: nat := units;
      var emptied: set<nat> := {};
      assert reservations - {} == reservations && owned[0..] == owned;
      var i := 0;
      while i < |owned| && remaining != 0
        invariant 0 <= i <= |owned|
        invariant emptied <= reservations.Keys && (forall t :: t in emptied ==> reservations[t].amount == 0)
        invariant Current(reservations - emptied, owned[i..])
        invariant Drain(reservations - emptied, owned[i..], remaining) == Drain(old(reservations), owned, units)
        invariant activeCapacity == Held(reservations - emptied)
        invariant activeCapacity + totalReleases == old(activeCapacity + totalReleases)
      {
        ghost var visible, tail := reservations - emptied, owned[i..];
        assert tail[0] == owned[i] && tail[1..] == owned[i + 1..];
        DrainStep(visible, tail, remaining);
        var t := owned[i].transaction;
        var released := Min(remaining, reservations[t].amount);
        TakenInPlace(reservations, emptied, owned[i], released);
        reservations := reservations[t := reservations[t].(amount := reservations[t].amount - released)];
        activeCapacity := activeCapacity - released;
        totalReleases := totalReleases + released;
        remaining := remaining - released;
        if reservations[t].amount == 0 {
          emptied := emptied + {t};
        }
        i := i + 1;
      }
      reservations := reservations - emptied;
      DrainDone(reservations, owned[i..], remaining);
    }

    /** `applyRelease`: an owner's reservations are drained in stable order. */
    method ApplyRelease(release: Release)
      requires State().Balanced()
      modifies this`reservations, this`activeCapacity, this`totalReleases
      ensures State() == old(State()).Give(release) && State().Balanced()
    {
      hide SortBy, ReservationKey, Listing, Held, Total, Drain, Taken, Current, OwnedBy, Lists, Keyed, Ledger.Balanced;
      ghost var l := State();
      BalancedMeans(l);
      GiveExact(l, release);
      OwnedListed(reservations, release.claimant);
      var owned := CollectOwned(release.claimant);
      DrainHeld(reservations, owned, release.units);
      DrainOwned(owned, release.units);
    }

    method GiveReleased()
      requires State().Balanced()
      modifies this`reservations, this`activeCapacity, this`totalReleases
      ensures State() == old(State()).GiveAll(|releaseProposals|) && State().Balanced()
    {
      hide Ledger.Give, Ledger.Balanced;
      ghost var l := State();
      for i := 0 to |releaseProposals|
        invariant releaseProposals == l.releases
        invariant State() == l.GiveAll(i) && State().Balanced()
      {
        ApplyRelease(releaseProposals[i]);
      }
    }

    method DoXfer()
      requires State().Valid()
      modifies this
      ensures State() == old(State()).Xfer() && State().Valid()
    {
      hide Ledger.AdmitAll, Ledger.DropAll, Ledger.GiveAll, Ledger.Valid, Ledger.Balanced;
      XferValid(State());
      AdmitAccepted();
      DropCancelled();
      GiveReleased();
      rejectedTransactions := proposedRejectedTransactions;
      proposals, acceptedProposals, proposedRejectedTransactions := [], [], [];
      releaseProposals, cancellationProposals := [], [];
      if activeCapacity > highWatermark {
        highWatermark := activeCapacity;
      }
    }

    method Validate() returns (ok: bool)
      ensures ok <==> State().Validates()
    {
      var capacity := 0;
      var rest := reservations.Keys;
      assert reservations - rest == map[];
      while rest != {}
        invariant rest <= reservations.Keys
        invariant forall t :: t in reservations && t !in rest ==> reservations[t].transaction == t && reservations[t].Sound()
        invariant capacity == Held(reservations - rest)
        decreases rest
      {
        var t :| t in rest;
        var reservation := reservations[t];
        if t != reservation.transaction || reservation.owner == INVALID_OBJECT || reservation.amount == 0 ||
          reservation.ready.Before(reservation.issue)
        {
          return false;
        }
        ghost var before := reservations - rest;
        rest := rest - {t};
        assert reservations - rest == before[t := reservation];
        HeldUpdate(before, t, reservation);
        capacity := capacity + reservation.amount;
      }
      assert reservations - {} == reservations;
      return capacity == activeCapacity && capacity <= totalCapacity;
    }
  }

  lemma {:induction false} BalancedMeans(l: Ledger)
    requires l.Balanced()
    ensures Keyed(l.live) && l.active == Held(l.live)
  {
  }

  lemma {:induction false} DrainDone(m: Reservations, owned: seq<Reservation>, units: nat)
    requires owned == [] || units == 0
    ensures Drain(m, owned, units) == m
  {
  }

  lemma {:induction false} DrainStep(m: Reservations, owned: seq<Reservation>, units: nat)
    requires owned != [] && units != 0 && Current(m, owned)
    ensures var given := Min(units, owned[0].amount);
      && owned[0].transaction in m && m[owned[0].transaction] == owned[0] && given <= Held(m)
      && Held(Taken(m, owned[0], given)) == Held(m) - given
      && Current(Taken(m, owned[0], given), owned[1..])
      && Drain(m, owned, units) == Drain(Taken(m, owned[0], given), owned[1..], units - given)
  {
    var given := Min(units, owned[0].amount);
    TakenHeld(m, owned[0], given);
    TakenCurrent(m, owned, given);
  }

  /** Writing the smaller amount and hiding an emptied reservation is taking it. */
  lemma {:induction false} TakenInPlace(m: Reservations, emptied: set<nat>, r: Reservation, given: nat)
    requires given <= r.amount && r.transaction in m - emptied && m[r.transaction] == r
    ensures m[r.transaction := r.(amount := r.amount - given)]
            - (if r.amount - given == 0 then emptied + {r.transaction} else emptied)
         == Taken(m - emptied, r, given)
  {
  }

  lemma {:induction false} CapacityLeft(l: Ledger)
    requires l.Valid()
    ensures 0 <= l.active <= l.capacity
  {
  }

  lemma {:induction false} NothingDropped(l: Ledger)
    ensures l.DropAll(0) == l
  {
  }

  lemma {:induction false} DropNext(l: Ledger, k: nat)
    requires k < |l.cancellations|
    ensures l.DropAll(k + 1) == l.DropAll(k).Drop(l.cancellations[k])
  {
  }
}
