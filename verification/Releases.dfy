/** `Resource::doXfer`: when accepted releases are honoured. */
module Releases {
  import opened Wrappers
  import opened Resources
  import opened Ordering

  /** The admitted reservations by transaction. */
  function Granted(s: seq<Reservation>, k: nat): Reservations
    requires k <= |s|
  {
    if k == 0 then map[] else Granted(s, k - 1)[s[k - 1].transaction := s[k - 1]]
  }

  /** What the releases of a barrier find: the live and the granted reservations without those
      pending cancellation. */
  ghost function Coming(l: Ledger): Reservations {
    (l.live + Granted(l.accepted, |l.accepted|)) - l.Pending()
  }

  /** What an owner's pending releases find, and what they ask for. */
  ghost function Found(l: Ledger, owner: nat): nat { Held(OwnedBy(Coming(l), owner)) }

  ghost function Asked(l: Ledger, owner: nat): nat { Promised(l.releases, |l.releases|, owner) }

  ghost predicate Honoured(l: Ledger, owner: nat) { Asked(l, owner) <= Found(l, owner) }

  function Units(releases: seq<Release>, k: nat): nat
    requires k <= |releases|
  {
    if k == 0 then 0 else Units(releases, k - 1) + releases[k - 1].units
  }

  // ----- Owners -----

  ghost function Others(m: Reservations, owner: nat): Reservations { m - OwnedBy(m, owner).Keys }

  lemma {:induction false} HeldSplit(m: Reservations, owner: nat)
    ensures Held(m) == Held(OwnedBy(m, owner)) + Held(Others(m, owner))
    decreases |m.Keys|
  {
    hide OwnedBy, Others;
    if m == map[] {
      SplitNone(owner);
    } else {
      var t :| t in m;
      var n := m - {t};
      assert n.Keys == m.Keys - {t};
      HeldSplit(n, owner);
      HeldRemove(m, t);
      SplitWithout(m, t, owner);
      if m[t].owner == owner { HeldRemove(OwnedBy(m, owner), t); } else { HeldRemove(Others(m, owner), t); }
    }
  }

  lemma {:induction false} SplitNone(owner: nat)
    ensures OwnedBy(map[], owner) == map[] && Others(map[], owner) == map[]
  {
  }

  lemma {:induction false} SplitWithout(m: Reservations, t: nat, owner: nat)
    requires t in m
    ensures m[t].owner == owner ==>
      && t in OwnedBy(m, owner) && OwnedBy(m, owner)[t] == m[t]
      && OwnedBy(m - {t}, owner) == OwnedBy(m, owner) - {t} && Others(m - {t}, owner) == Others(m, owner)
    ensures m[t].owner != owner ==>
      && t in Others(m, owner) && Others(m, owner)[t] == m[t]
      && OwnedBy(m - {t}, owner) == OwnedBy(m, owner) && Others(m - {t}, owner) == Others(m, owner) - {t}
  {
    if m[t].owner == owner {
      assert OwnedBy(m - {t}, owner) == OwnedBy(m, owner) - {t};
      assert Others(m - {t}, owner) == Others(m, owner);
    } else {
      assert OwnedBy(m - {t}, owner) == OwnedBy(m, owner);
      assert Others(m - {t}, owner) == Others(m, owner) - {t};
    }
  }

  /** Draining changes no owner and adds no reservation. */
  lemma {:induction false} DrainOwners(m: Reservations, owned: seq<Reservation>, units: nat)
    requires Current(m, owned)
    ensures var n := Drain(m, owned, units); forall t :: t in n ==> t in m && n[t].owner == m[t].owner
    decreases |owned|
  {
    if owned != [] && units != 0 {
      var given := Min(units, owned[0].amount);
      TakenCurrent(m, owned, given);
      DrainOwners(Taken(m, owned[0], given), owned[1..], units - given);
    }
  }

  /** One release takes from its own owner alone. */
  lemma {:induction false} GiveOwner(l: Ledger, r: Release, owner: nat)
    requires l.Balanced()
    ensures Held(OwnedBy(l.Give(r).live, owner)) ==
      Held(OwnedBy(l.live, owner)) - if owner == r.claimant then Min(r.units, Held(OwnedBy(l.live, owner))) else 0
  {
    hide Held, Listing, SortBy, ReservationKey, Drain;
    var g := l.Give(r);
    GiveExact(l, r);
    GiveKeepsOwners(l, r);
    if owner == r.claimant {
      HeldSplit(l.live, owner);
      HeldSplit(g.live, owner);
      assert Others(l.live, owner) == Others(g.live, owner);
    } else {
      assert OwnedBy(l.live, owner) == OwnedBy(g.live, owner);
    }
  }

  lemma {:induction false} GiveKeepsOwners(l: Ledger, r: Release)
    requires l.Balanced()
    ensures var n := l.Give(r).live; forall t :: t in n ==> t in l.live && n[t].owner == l.live[t].owner
  {
    hide Held, Listing, SortBy, ReservationKey, Drain;
    OwnedListed(l.live, r.claimant);
    DrainOwners(l.live, SortBy(ReservationKey, Listing(OwnedBy(l.live, r.claimant))), r.units);
  }

  // ----- The three phases of the barrier -----

  lemma {:induction false} AdmitLive(l: Ledger, k: nat)
    requires l.Valid() && k <= |l.accepted|
    ensures l.AdmitAll(k).live == l.live + Granted(l.accepted, k)
  {
    hide Ledger.Valid, Ledger.Balanced, AdmittedFrom, Held, Total;
    if k == 0 {
      AdmitNone(l);
    } else {
      AdmitLive(l, k - 1);
      AdmitBalanced(l, k - 1);
      AdmitNext(l, k - 1);
      AdmitUnfolds(l, k - 1);
    }
  }

  lemma {:induction false} DropLive(l: Ledger, k: nat)
    requires k <= |l.cancellations|
    ensures l.DropAll(k).live == l.live - set t | t in l.cancellations[..k]
  {
    if k > 0 {
      DropLive(l, k - 1);
      assert l.cancellations[..k] == l.cancellations[..k - 1] + [l.cancellations[k - 1]];
    }
  }

  /** The ledger the releases start from. */
  ghost function Dropped(l: Ledger): Ledger {
    var a := l.AdmitAll(|l.accepted|);
    a.DropAll(|a.cancellations|)
  }

  lemma {:induction false} DroppedComing(l: Ledger)
    requires l.Valid()
    ensures var c := Dropped(l);
      c.live == Coming(l) && c.Balanced() && c.releases == l.releases && c.released == l.released
    ensures l.Xfer() == Dropped(l).GiveAll(|l.releases|).Settle()
  {
    hide Ledger.AdmitAll, Ledger.DropAll, Ledger.GiveAll, Held, Total, Granted;
    var a := l.AdmitAll(|l.accepted|);
    AdmitBalanced(l, |l.accepted|);
    AdmitFrame(l, |l.accepted|);
    AdmitLive(l, |l.accepted|);
    DropAllBalanced(a, |a.cancellations|);
    DropLive(a, |a.cancellations|);
    assert a.cancellations[..|a.cancellations|] == l.cancellations;
  }

  lemma {:induction false} GiveAllOwner(l: Ledger, k: nat, owner: nat)
    requires l.Balanced() && k <= |l.releases|
    ensures var before := Held(OwnedBy(l.live, owner));
      Held(OwnedBy(l.GiveAll(k).live, owner)) == before - Min(Promised(l.releases, k, owner), before)
  {
    hide Ledger.Balanced, Ledger.Give, Held, OwnedBy;
    if k > 0 {
      GiveAllOwner(l, k - 1, owner);
      GiveAllBalanced(l, k - 1);
      GiveOwner(l.GiveAll(k - 1), l.releases[k - 1], owner);
    }
  }

  /** What the `k`th release frees. */
  lemma {:induction false} GiveAllNext(l: Ledger, k: nat)
    requires l.Balanced() && k < |l.releases|
    ensures var r := l.releases[k];
      var before := Held(OwnedBy(l.live, r.claimant));
      l.GiveAll(k + 1).released == l.GiveAll(k).released
        + Min(r.units, before - Min(Promised(l.releases, k, r.claimant), before))
  {
    hide Ledger.Balanced, Ledger.Give, Held, OwnedBy;
    GiveAllOwner(l, k, l.releases[k].claimant);
    GiveAllBalanced(l, k);
    GiveExact(l.GiveAll(k), l.releases[k]);
  }

  /** After `k` releases every owner so far got all it asked for. */
  ghost predicate Served(l: Ledger, k: nat)
    requires k <= |l.releases|
  {
    forall o :: Promised(l.releases, k, o) <= Held(OwnedBy(l.live, o))
  }

  lemma {:induction false} ServedNext(l: Ledger, k: nat)
    requires k < |l.releases|
    ensures Served(l, k + 1) <==>
      Served(l, k) && Promised(l.releases, k + 1, l.releases[k].claimant) <= Held(OwnedBy(l.live, l.releases[k].claimant))
  {
    hide Held, OwnedBy;
    if Served(l, k + 1) {
      forall o ensures Promised(l.releases, k, o) <= Held(OwnedBy(l.live, o)) {
        assert Promised(l.releases, k + 1, o) <= Held(OwnedBy(l.live, o));
      }
    }
    if Served(l, k) && Promised(l.releases, k + 1, l.releases[k].claimant) <= Held(OwnedBy(l.live, l.releases[k].claimant)) {
      forall o ensures Promised(l.releases, k + 1, o) <= Held(OwnedBy(l.live, o)) {
        assert Promised(l.releases, k, o) <= Held(OwnedBy(l.live, o));
      }
    }
  }

  lemma {:induction false} GiveAllTotal(l: Ledger, k: nat)
    requires l.Balanced() && k <= |l.releases|
    ensures l.GiveAll(k).released <= l.released + Units(l.releases, k)
    ensures l.GiveAll(k).released == l.released + Units(l.releases, k) <==> Served(l, k)
  {
    hide Ledger.Balanced, Ledger.Give, Held, OwnedBy, Served;
    if k == 0 {
      ServedNone(l);
    } else {
      GiveAllTotal(l, k - 1);
      GiveAllNext(l, k - 1);
      ServedNext(l, k - 1);
      if Served(l, k - 1) { ServedOwner(l, k - 1, l.releases[k - 1].claimant); }
    }
  }

  lemma {:induction false} ServedNone(l: Ledger)
    ensures Served(l, 0)
  {
  }

  lemma {:induction false} ServedOwner(l: Ledger, k: nat, owner: nat)
    requires k <= |l.releases| && Served(l, k)
    ensures Promised(l.releases, k, owner) <= Held(OwnedBy(l.live, owner))
  {
  }

  // ----- When a release is honoured -----

  /** At every barrier an owner is left with what its releases find less what they ask for, so they
      are freed in full exactly when they ask for no more than they find. */
  lemma {:induction false} ReleasedExactly(l: Ledger, owner: nat)
    requires l.Valid()
    ensures Held(OwnedBy(l.Xfer().live, owner)) == Found(l, owner) - Min(Asked(l, owner), Found(l, owner))
    ensures Held(OwnedBy(l.Xfer().live, owner)) + Asked(l, owner) == Found(l, owner) <==> Honoured(l, owner)
  {
    hide Ledger.Valid, Ledger.Balanced, Held, OwnedBy, Coming, Dropped, Ledger.GiveAll;
    DroppedComing(l);
    GiveAllOwner(Dropped(l), |l.releases|, owner);
  }

  /** The released counter grows by everything asked for exactly when every owner is honoured, and
      never by more. */
  lemma {:induction false} AllReleasedExactly(l: Ledger)
    requires l.Valid()
    ensures l.Xfer().released <= l.released + Units(l.releases, |l.releases|)
    ensures l.Xfer().released == l.released + Units(l.releases, |l.releases|) <==> forall o :: Honoured(l, o)
  {
    hide Ledger.Valid, Ledger.Balanced, Held, OwnedBy, Coming, Dropped, Ledger.GiveAll;
    var c := Dropped(l);
    DroppedComing(l);
    GiveAllTotal(c, |l.releases|);
    if Served(c, |l.releases|) {
      forall o ensures Honoured(l, o) { ServedOwner(c, |l.releases|, o); }
    }
    if forall o :: Honoured(l, o) {
      forall o ensures Promised(c.releases, |l.releases|, o) <= Held(OwnedBy(c.live, o)) { assert Honoured(l, o); }
    }
  }

  /** Acceptance alone is not enough: an owner frees its only reservation and then cancels it, both
      are accepted, and the barrier frees nothing. */
  lemma {:induction false} ReleaseLost(l: Ledger, r: Reservation)
    requires l.Valid() && l.live == map[r.transaction := r]
    requires l.accepted == [] && l.releases == [] && l.cancellations == []
    ensures var (f, freed) := l.Free(r.owner, r.amount);
      var (c, cancelled) := f.Cancel(r.owner, r.transaction);
      && freed && cancelled && c.Valid() && c.Xfer().released == l.released
      && c.Xfer().cancelled == l.cancelled + r.amount
  {
    var f, c := l.Free(r.owner, r.amount).0, l.Cancel(r.owner, r.transaction).0;
    assert l.live - l.Pending() == l.live && OwnedBy(l.live, r.owner) == l.live;
    HeldRemove(l.live, r.transaction);
    assert l.live - {r.transaction} == map[];
    var g := f.Cancel(r.owner, r.transaction).0;
    LostBarrier(g, r);
  }

  lemma {:induction false} LostBarrier(l: Ledger, r: Reservation)
    requires l.live == map[r.transaction := r] && l.accepted == [] && l.cancellations == [r.transaction]
    requires l.releases == [Release(r.owner, r.amount)]
    ensures l.Xfer().released == l.released && l.Xfer().cancelled == l.cancelled + r.amount
  {
    var a := l.AdmitAll(0);
    assert a == l && a.cancellations[0] == r.transaction;
    var c := a.DropAll(1);
    assert c == a.DropAll(0).Drop(r.transaction) && c.live == map[];
    assert OwnedBy(c.live, r.owner) == map[];
    assert c.GiveAll(1) == c.GiveAll(0).Give(Release(r.owner, r.amount));
  }

  // ----- The guard a caller can check -----

  /** Nobody has promised more than it could still release. */
  ghost predicate Covered(l: Ledger) {
    forall o :: Asked(l, o) <= l.Releasable(o)
  }

  lemma {:induction false} HeldMonotone(m: Reservations, n: Reservations)
    requires forall t :: t in m ==> t in n && n[t] == m[t]
    ensures Held(m) <= Held(n)
    decreases |m.Keys|
  {
    if m != map[] {
      var t :| t in m;
      assert (m - {t}).Keys == m.Keys - {t};
      HeldRemove(m, t);
      HeldRemove(n, t);
      HeldMonotone(m - {t}, n - {t});
    }
  }

  lemma {:induction false} GrantedFrom(s: seq<Reservation>, k: nat, t: nat)
    requires k <= |s| && t in Granted(s, k)
    ensures exists i :: 0 <= i < k && s[i].transaction == t
  {
    if t != s[k - 1].transaction { GrantedFrom(s, k - 1, t); }
  }

  /** A covered ledger honours every release at its barrier. */
  lemma {:induction false} CoveredHonours(l: Ledger, owner: nat)
    requires l.Valid() && Covered(l)
    ensures Honoured(l, owner)
  {
    hide Held;
    var whole, part := OwnedBy(Coming(l), owner), OwnedBy(l.live - l.Pending(), owner);
    forall t | t in part ensures t in whole && whole[t] == part[t] {
      if t in Granted(l.accepted, |l.accepted|) { GrantedFrom(l.accepted, |l.accepted|, t); }
    }
    HeldMonotone(part, whole);
    assert Asked(l, owner) <= l.Releasable(owner);
  }

  /** Every operation but a cancellation keeps the ledger covered; an accepted cancellation keeps it
      exactly when its owner still holds, without that reservation, what it has promised. */
  lemma {:induction false} StepCovered(l: Ledger, op: Op)
    requires l.Valid() && Covered(l)
    ensures !op.Cancel? ==> Covered(Step(l, op))
    ensures op.Cancel? && l.Cancel(op.owner, op.transaction).1 ==>
      (Covered(Step(l, op)) <==> Asked(l, op.owner) + l.live[op.transaction].amount <= l.Releasable(op.owner))
    ensures op.Cancel? && !l.Cancel(op.owner, op.transaction).1 ==> Step(l, op) == l
  {
    hide Ledger.Valid, Held, OwnedBy, Covered;
    CapacityLeft(l);
    match op
    case Reserve(r) => SameCovered(l, Step(l, op));
    case Free(claimant, units) => FreeCovered(l, claimant, units);
    case Cancel(owner, t) => if l.Cancel(owner, t).1 { CancelCovered(l, owner, t); }
    case Arbitrate => SameCovered(l, Step(l, op));
    case Commit => CommitCovered(l);
  }

  lemma {:induction false} SameCovered(l: Ledger, g: Ledger)
    requires Covered(l) && g.live == l.live && g.releases == l.releases && g.cancellations == l.cancellations
    ensures Covered(g)
  {
    forall o ensures Asked(g, o) <= g.Releasable(o) { assert Asked(l, o) <= l.Releasable(o); }
  }

  lemma {:induction false} PromisedMore(releases: seq<Release>, r: Release, k: nat, owner: nat)
    requires k <= |releases|
    ensures Promised(releases + [r], k, owner) == Promised(releases, k, owner)
    ensures Promised(releases + [r], |releases| + 1, owner) ==
      Promised(releases + [r], |releases|, owner) + if r.claimant == owner then r.units else 0
  {
    if k > 0 { PromisedMore(releases, r, k - 1, owner); }
  }

  lemma {:induction false} FreeCovered(l: Ledger, claimant: nat, units: nat)
    requires Covered(l)
    ensures Covered(l.Free(claimant, units).0)
  {
    hide Held, OwnedBy;
    var g := l.Free(claimant, units).0;
    if l.Free(claimant, units).1 {
      forall o ensures Asked(g, o) <= g.Releasable(o) {
        PromisedMore(l.releases, Release(claimant, units), |l.releases|, o);
        assert Asked(l, o) <= l.Releasable(o);
      }
    }
  }

  lemma {:induction false} CancelReleasable(l: Ledger, owner: nat, t: nat, o: nat)
    requires l.Cancel(owner, t).1
    ensures l.Cancel(owner, t).0.Releasable(o) == l.Releasable(o) - if o == owner then l.live[t].amount else 0
  {
    var g := l.Cancel(owner, t).0;
    assert g.Pending() == l.Pending() + {t};
    var before := OwnedBy(l.live - l.Pending(), o);
    if o == owner {
      HeldRemove(before, t);
      assert before - {t} == OwnedBy(g.live - g.Pending(), o);
    } else {
      assert before == OwnedBy(g.live - g.Pending(), o);
    }
  }

  lemma {:induction false} CancelCovered(l: Ledger, owner: nat, t: nat)
    requires Covered(l) && l.Cancel(owner, t).1
    ensures Covered(l.Cancel(owner, t).0) <==> Asked(l, owner) + l.live[t].amount <= l.Releasable(owner)
  {
    hide Held, OwnedBy, Ledger.Releasable;
    var g := l.Cancel(owner, t).0;
    CancelReleasable(l, owner, t, owner);
    if Asked(l, owner) + l.live[t].amount <= l.Releasable(owner) {
      forall o ensures Asked(g, o) <= g.Releasable(o) {
        CancelReleasable(l, owner, t, o);
        assert Asked(l, o) <= l.Releasable(o);
      }
    }
    if Covered(g) { assert Asked(g, owner) <= g.Releasable(owner); }
  }

  lemma {:induction false} CommitCovered(l: Ledger)
    ensures Covered(l.Xfer())
  {
    hide Ledger.AdmitAll, Ledger.DropAll, Ledger.GiveAll, Held, OwnedBy;
  }

  /** Every cancellation of the run leaves its owner with what it has promised. */
  ghost predicate Careful(l: Ledger, ops: seq<Op>)
    requires l.Valid()
    decreases |ops|
  {
    ops == [] ||
      (StepValid(l, ops[0]);
       && (ops[0].Cancel? && l.Cancel(ops[0].owner, ops[0].transaction).1 ==>
             Asked(l, ops[0].owner) + l.live[ops[0].transaction].amount <= l.Releasable(ops[0].owner))
       && Careful(Step(l, ops[0]), ops[1..]))
  }

  lemma {:induction false} RunCovered(l: Ledger, ops: seq<Op>)
    requires l.Valid() && Covered(l) && Careful(l, ops)
    ensures Covered(Run(l, ops))
    decreases |ops|
  {
    hide Ledger.Valid, Covered, Step, Ledger.Releasable;
    if ops != [] {
      CapacityLeft(l);
      StepValid(l, ops[0]);
      StepCovered(l, ops[0]);
      RunCovered(Step(l, ops[0]), ops[1..]);
    }
  }

  /** In every run whose cancellations are careful, each barrier frees every accepted release in
      full. */
  lemma {:induction false} CarefulRunsRelease(capacity: nat, ops: seq<Op>)
    ensures Idle(capacity).Valid()
    ensures var l := Run(Idle(capacity), ops);
      Careful(Idle(capacity), ops) ==> l.Xfer().released == l.released + Units(l.releases, |l.releases|)
  {
    hide Ledger.Valid, Ledger.Xfer, Careful, Run, Covered, Honoured;
    IdleCovered(capacity);
    if Careful(Idle(capacity), ops) {
      var l := Run(Idle(capacity), ops);
      RunCovered(Idle(capacity), ops);
      forall o ensures Honoured(l, o) { CoveredHonours(l, o); }
      AllReleasedExactly(l);
    }
  }

  lemma {:induction false} IdleCovered(capacity: nat)
    ensures Idle(capacity).Valid() && Covered(Idle(capacity))
  {
  }
}
