/** `Statistic`: a counter, gauge or histogram of 64-bit values. Mutations are proposals until the
    Xfer barrier. */
module Statistics {
  import opened Core
  import opened Lists
  import opened Wrappers

  type U64 = n: int | 0 <= n <= 0xFFFF_FFFF_FFFF_FFFF

  datatype Kind = Counter | Gauge | Histogram

  ghost predicate Increasing(s: seq<U64>) { forall i, j :: 0 <= i < j < |s| ==> s[i] < s[j] }

  // ----- Sums over observations -----

  function Sum(f: U64 -> nat, s: seq<U64>): nat {
    if s == [] then 0 else Sum(f, s[..|s| - 1]) + f(s[|s| - 1])
  }

  function Itself(v: U64): nat { v }

  lemma {:induction false} SumSnoc(f: U64 -> nat, s: seq<U64>, v: U64)
    ensures Sum(f, s + [v]) == Sum(f, s) + f(v)
  {
    assert (s + [v])[..|s|] == s;
  }

  lemma {:induction false} SumConcat(f: U64 -> nat, a: seq<U64>, b: seq<U64>)
    ensures Sum(f, a + b) == Sum(f, a) + Sum(f, b)
    decreases |b|
  {
    if b == [] {
      assert a + [] == a;
    } else {
      var c, v := b[..|b| - 1], b[|b| - 1];
      SumConcat(f, a, c);
      assert a + b == (a + c) + [v];
      SumSnoc(f, a + c, v);
    }
  }

  lemma {:induction false} SumWithout(f: U64 -> nat, s: seq<U64>, k: nat)
    requires k < |s|
    ensures Sum(f, s) == Sum(f, s[..k] + s[k + 1..]) + f(s[k])
  {
    hide Sum;
    var front, v, back := s[..k], s[k], s[k + 1..];
    assert s == (front + [v]) + back;
    SumConcat(f, front + [v], back);
    SumSnoc(f, front, v);
    SumConcat(f, front, back);
  }

  /** Sums forget the order. */
  lemma {:induction false} SumPermuted(f: U64 -> nat, a: seq<U64>, b: seq<U64>)
    requires multiset(a) == multiset(b)
    ensures Sum(f, a) == Sum(f, b)
    decreases |a|
  {
    assert |multiset(a)| == |multiset(b)|;
    if a != [] {
      var n := |a| - 1;
      assert a[n] in multiset(b);
      var k :| 0 <= k < |b| && b[k] == a[n];
      SumWithout(f, b, k);
      WithoutOne(b, k);
      SumWithout(f, a, n);
      WithoutOne(a, n);
      assert a[..n] + a[n + 1..] == a[..n];
      SumPermuted(f, a[..n], b[..k] + b[k + 1..]);
    }
  }

  // ----- Histograms -----

  /** Bucket `b` holds the values above the bound before it, up to its own. */
  predicate InBucket(bounds: seq<U64>, b: nat, v: U64)
    requires b <= |bounds|
  {
    (b > 0 ==> bounds[b - 1] < v) && (b < |bounds| ==> v <= bounds[b])
  }

  /** Counts one for a value of bucket `b`. */
  function Falls(bounds: seq<U64>, b: nat): U64 -> nat
    requires b <= |bounds|
  {
    v => if InBucket(bounds, b, v) then 1 else 0
  }

  /** `std::lower_bound`: the first bound from `k` on that is not below the value. */
  function LowerBound(bounds: seq<U64>, v: U64, k: nat): (b: nat)
    requires k <= |bounds| && (k > 0 ==> bounds[k - 1] < v)
    ensures k <= b <= |bounds| && InBucket(bounds, b, v)
    decreases |bounds| - k
  {
    if k == |bounds| || v <= bounds[k] then k else LowerBound(bounds, v, k + 1)
  }

  /** With increasing bounds a value belongs to one bucket only. */
  lemma {:induction false} BucketUnique(bounds: seq<U64>, v: U64, a: nat, b: nat)
    requires Increasing(bounds) && a <= |bounds| && b <= |bounds| && InBucket(bounds, a, v) && InBucket(bounds, b, v)
    ensures a == b
  {
  }

  datatype Summary = Summary(count: nat, sum: nat, minimum: Option<nat>, maximum: Option<nat>, buckets: seq<nat>)

  function NoneSeen(buckets: nat): Summary { Summary(0, 0, None, None, seq(buckets, _ => 0)) }

  ghost predicate Least(s: seq<U64>, m: Option<nat>) {
    match m case None => s == [] case Some(x) => x in s && forall i :: 0 <= i < |s| ==> x <= s[i]
  }

  ghost predicate Greatest(s: seq<U64>, m: Option<nat>) {
    match m case None => s == [] case Some(x) => x in s && forall i :: 0 <= i < |s| ==> s[i] <= x
  }

  /** The summary of a list of observations, each field by itself. */
  ghost predicate Summarizes(s: Summary, bounds: seq<U64>, seen: seq<U64>) {
    && s.count == |seen| && s.sum == Sum(Itself, seen)
    && Least(seen, s.minimum) && Greatest(seen, s.maximum)
    && |s.buckets| == |bounds| + 1
    && forall b :: 0 <= b <= |bounds| ==> s.buckets[b] == Sum(Falls(bounds, b), seen)
  }

  /** A list of observations has one summary, and its order does not matter. */
  lemma {:induction false} SummaryOfMultiset(bounds: seq<U64>, a: seq<U64>, b: seq<U64>, s: Summary, t: Summary)
    requires multiset(a) == multiset(b) && Summarizes(s, bounds, a) && Summarizes(t, bounds, b)
    ensures s == t
  {
    hide Sum;
    assert |multiset(a)| == |multiset(b)|;
    SumPermuted(Itself, a, b);
    forall i | 0 <= i <= |bounds| ensures s.buckets[i] == t.buckets[i] {
      SumPermuted(Falls(bounds, i), a, b);
    }
    ExtremesPermuted(a, b, s.minimum, t.minimum, s.maximum, t.maximum);
  }

  lemma {:induction false} ExtremesPermuted(a: seq<U64>, b: seq<U64>, l: Option<nat>, m: Option<nat>, g: Option<nat>, h: Option<nat>)
    requires multiset(a) == multiset(b) && Least(a, l) && Least(b, m) && Greatest(a, g) && Greatest(b, h)
    ensures l == m && g == h
  {
    assert |multiset(a)| == |multiset(b)|;
    if a != [] {
      assert l.value in multiset(b) && m.value in multiset(a);
      assert g.value in multiset(b) && h.value in multiset(a);
    }
  }

  /** One more observation. */
  function With(s: Summary, v: U64, b: nat): Summary
    requires b < |s.buckets|
  {
    Summary(s.count + 1, s.sum + v,
            if s.minimum.None? || v < s.minimum.value then Some(v as nat) else s.minimum,
            if s.maximum.None? || v > s.maximum.value then Some(v as nat) else s.maximum,
            s.buckets[b := s.buckets[b] + 1])
  }

  lemma {:induction false} WithSummarizes(s: Summary, bounds: seq<U64>, seen: seq<U64>, v: U64)
    requires Increasing(bounds) && Summarizes(s, bounds, seen)
    ensures Summarizes(With(s, v, LowerBound(bounds, v, 0)), bounds, seen + [v])
  {
    hide Sum, InBucket, LowerBound;
    var at := LowerBound(bounds, v, 0);
    SumSnoc(Itself, seen, v);
    forall b | 0 <= b <= |bounds| ensures Sum(Falls(bounds, b), seen + [v]) == s.buckets[b] + if b == at then 1 else 0 {
      SumSnoc(Falls(bounds, b), seen, v);
      if InBucket(bounds, b, v) { BucketUnique(bounds, v, b, at); }
    }
    WithExtremes(s, seen, v, at);
  }

  lemma {:induction false} WithExtremes(s: Summary, seen: seq<U64>, v: U64, at: nat)
    requires Least(seen, s.minimum) && Greatest(seen, s.maximum) && at < |s.buckets|
    ensures Least(seen + [v], With(s, v, at).minimum) && Greatest(seen + [v], With(s, v, at).maximum)
  {
    assert (seen + [v])[|seen|] == v;
  }

  /** Folding the proposals into the committed summary. */
  function Merge(s: Summary, p: Summary): Summary
    requires |s.buckets| == |p.buckets|
  {
    Summary(s.count + p.count, s.sum + p.sum,
            if p.minimum.Some? && (s.minimum.None? || p.minimum.value < s.minimum.value) then p.minimum else s.minimum,
            if p.maximum.Some? && (s.maximum.None? || p.maximum.value > s.maximum.value) then p.maximum else s.maximum,
            seq(|s.buckets|, i requires 0 <= i < |s.buckets| => s.buckets[i] + p.buckets[i]))
  }

  lemma {:induction false} MergeSummarizes(s: Summary, p: Summary, bounds: seq<U64>, seen: seq<U64>, proposed: seq<U64>)
    requires Summarizes(s, bounds, seen) && Summarizes(p, bounds, proposed)
    ensures Summarizes(Merge(s, p), bounds, seen + proposed)
  {
    hide Sum;
    SumConcat(Itself, seen, proposed);
    forall b | 0 <= b <= |bounds| ensures Sum(Falls(bounds, b), seen + proposed) == s.buckets[b] + p.buckets[b] {
      SumConcat(Falls(bounds, b), seen, proposed);
    }
    MergeExtremes(s, p, seen, proposed);
  }

  lemma {:induction false} MergeExtremes(s: Summary, p: Summary, seen: seq<U64>, proposed: seq<U64>)
    requires Least(seen, s.minimum) && Greatest(seen, s.maximum) && Least(proposed, p.minimum) && Greatest(proposed, p.maximum)
    requires |s.buckets| == |p.buckets|
    ensures Least(seen + proposed, Merge(s, p).minimum) && Greatest(seen + proposed, Merge(s, p).maximum)
  {
    var all := seen + proposed;
    forall i | 0 <= i < |all| ensures all[i] == if i < |seen| then seen[i] else proposed[i - |seen|] {}
  }

  /** Every observation is in one bucket, so the counts of the buckets add up to the count. */
  lemma {:induction false} BucketsTotal(s: Summary, bounds: seq<U64>, seen: seq<U64>)
    requires Increasing(bounds) && Summarizes(s, bounds, seen)
    ensures Tally(s.buckets, |s.buckets|) == s.count
  {
    FallsTotal(bounds, seen, s.buckets);
  }

  lemma {:induction false} FallsAt(bounds: seq<U64>, b: nat, v: U64)
    requires Increasing(bounds) && b <= |bounds|
    ensures Falls(bounds, b)(v) == if b == LowerBound(bounds, v, 0) then 1 else 0
  {
    if InBucket(bounds, b, v) { BucketUnique(bounds, v, b, LowerBound(bounds, v, 0)); }
  }

  lemma {:induction false} FallsTotal(bounds: seq<U64>, seen: seq<U64>, counts: seq<nat>)
    requires Increasing(bounds) && |counts| == |bounds| + 1
    requires forall b :: 0 <= b <= |bounds| ==> counts[b] == Sum(Falls(bounds, b), seen)
    ensures Tally(counts, |counts|) == |seen|
    decreases |seen|
  {
    hide Falls, InBucket;
    if seen == [] {
      TallyZero(counts, |counts|);
    } else {
      var t, v := seen[..|seen| - 1], seen[|seen| - 1];
      var fewer := seq(|bounds| + 1, b requires 0 <= b <= |bounds| => Sum(Falls(bounds, b), t));
      FallsTotal(bounds, t, fewer);
      assert seen == t + [v];
      forall b | 0 <= b <= |bounds| ensures counts[b] == fewer[b] + if b == LowerBound(bounds, v, 0) then 1 else 0 {
        SumSnoc(Falls(bounds, b), t, v);
        FallsAt(bounds, b, v);
      }
      TallyOne(fewer, counts, LowerBound(bounds, v, 0), |counts|);
    }
  }

  function Tally(s: seq<nat>, k: nat): nat
    requires k <= |s|
  {
    if k == 0 then 0 else Tally(s, k - 1) + s[k - 1]
  }

  lemma {:induction false} TallyZero(s: seq<nat>, k: nat)
    requires k <= |s| && forall i :: 0 <= i < |s| ==> s[i] == 0
    ensures Tally(s, k) == 0
  {
    if k > 0 { TallyZero(s, k - 1); }
  }

  lemma {:induction false} TallyOne(s: seq<nat>, t: seq<nat>, at: nat, k: nat)
    requires |s| == |t| && k <= |s| && forall b :: 0 <= b < |s| ==> t[b] == s[b] + if b == at then 1 else 0
    ensures Tally(t, k) == Tally(s, k) + if at < k then 1 else 0
  {
    if k > 0 { TallyOne(s, t, at, k - 1); }
  }

  /** How many of the observations are at most `x`. */
  function CountAtMost(seen: seq<U64>, x: U64): nat {
    if seen == [] then 0 else CountAtMost(seen[..|seen| - 1], x) + if seen[|seen| - 1] <= x then 1 else 0
  }

  /** With increasing bounds, the buckets up to the `b`th hold the values up to its bound. */
  lemma {:induction false} UpToBound(bounds: seq<U64>, v: U64, b: nat)
    requires Increasing(bounds) && b < |bounds|
    ensures LowerBound(bounds, v, 0) <= b <==> v <= bounds[b]
  {
    var at := LowerBound(bounds, v, 0);
    if at < b { assert bounds[at] < bounds[b]; }
    if b < at { assert b == at - 1 || bounds[b] < bounds[at - 1]; }
  }

  lemma {:induction false} FallsUpTo(bounds: seq<U64>, seen: seq<U64>, counts: seq<nat>, b: nat)
    requires Increasing(bounds) && |counts| == |bounds| + 1 && b < |bounds|
    requires forall i :: 0 <= i <= |bounds| ==> counts[i] == Sum(Falls(bounds, i), seen)
    ensures Tally(counts, b + 1) == CountAtMost(seen, bounds[b])
    decreases |seen|
  {
    hide Falls, InBucket;
    if seen == [] {
      TallyZero(counts, b + 1);
    } else {
      var t, v := seen[..|seen| - 1], seen[|seen| - 1];
      var fewer := seq(|bounds| + 1, i requires 0 <= i <= |bounds| => Sum(Falls(bounds, i), t));
      FallsUpTo(bounds, t, fewer, b);
      assert seen == t + [v];
      forall i | 0 <= i <= |bounds| ensures counts[i] == fewer[i] + if i == LowerBound(bounds, v, 0) then 1 else 0 {
        SumSnoc(Falls(bounds, i), t, v);
        FallsAt(bounds, i, v);
      }
      TallyOne(fewer, counts, LowerBound(bounds, v, 0), b + 1);
      UpToBound(bounds, v, b);
    }
  }

  /** The counts of the buckets up to a bound add up to the number of observations at most that bound. */
  lemma {:induction false} BucketsCumulate(s: Summary, bounds: seq<U64>, seen: seq<U64>, b: nat)
    requires Increasing(bounds) && Summarizes(s, bounds, seen) && b < |bounds|
    ensures Tally(s.buckets, b + 1) == CountAtMost(seen, bounds[b])
  {
    hide Sum, Falls;
    FallsUpTo(bounds, seen, s.buckets, b);
  }

  lemma {:induction false} TallyBounds(s: seq<nat>, k: nat, i: nat)
    requires i < k <= |s|
    ensures s[i] <= Tally(s, k)
    decreases k
  {
    if i < k - 1 { TallyBounds(s, k - 1, i); }
  }

  // ----- The state and its steps -----

  datatype Stat = Stat(
    kind: Kind, bounds: seq<U64>, valid: bool, value: nat, whole: Summary, pending: bool, proposedValue: nat, part: Summary)
  {
    ghost predicate Shaped() {
      |whole.buckets| == |part.buckets| == |bounds| + 1
    }

    function Add(amount: U64): (Stat, bool) {
      if !valid || kind != Counter || amount > MAX_U64 - proposedValue || proposedValue + amount > MAX_U64 - value
      then (this, false)
      else (this.(proposedValue := proposedValue + amount, pending := true), true)
    }

    function Set(to: U64): (Stat, bool) {
      if !valid || kind != Gauge || pending then (this, false) else (this.(proposedValue := to, pending := true), true)
    }

    function Observe(v: U64): (Stat, bool)
      requires Shaped()
    {
      if !valid || kind != Histogram || part.count >= MAX_U64 - whole.count || v > MAX_U64 - part.sum
         || part.sum + v > MAX_U64 - whole.sum
      then (this, false)
      else
        var b := LowerBound(bounds, v, 0);
        if part.buckets[b] >= MAX_U64 - whole.buckets[b] then (this, false)
        else (this.(part := With(part, v, b), pending := true), true)
    }

    function Xfer(): Stat
      requires Shaped()
    {
      if !pending then this else
        this.(value := if kind == Counter then value + proposedValue else if kind == Gauge then proposedValue else value,
              whole := if kind == Histogram then Merge(whole, part) else whole,
              proposedValue := 0, part := NoneSeen(|part.buckets|), pending := false)
    }
  }

  predicate AdjacentIncreasing(s: seq<U64>) { forall i :: 0 <= i < |s| - 1 ==> s[i] < s[i + 1] }

  lemma {:induction false} AdjacentEnough(s: seq<U64>, i: nat, j: nat)
    requires AdjacentIncreasing(s) && i < j < |s|
    ensures s[i] < s[j]
    decreases j
  {
    assert s[j - 1] < s[(j - 1) + 1];
    if i < j - 1 { AdjacentEnough(s, i, j - 1); }
  }

  function NewHistogram(bounds: seq<U64>): Stat {
    Stat(Histogram, bounds, AdjacentIncreasing(bounds), 0, NoneSeen(|bounds| + 1), false, 0, NoneSeen(|bounds| + 1))
  }

  function NewScalar(kind: Kind): Stat {
    Stat(kind, [], kind != Histogram, 0, NoneSeen(1), false, 0, NoneSeen(1))
  }

  // ----- Runs of a histogram -----

  datatype Op = Observe(value: U64) | Commit

  /** A histogram with the accepted observations, committed and pending, and every verdict given. */
  datatype History = History(s: Stat, seen: seq<U64>, proposed: seq<U64>, verdicts: seq<bool>)

  /** The statistic summarizes exactly the accepted observations and nothing exceeds 64 bits. */
  ghost predicate Tracks(h: History) {
    var s := h.s;
    && s.kind == Histogram && (s.valid <==> Increasing(s.bounds))
    && (s.pending <==> h.proposed != [])
    && (!s.valid ==> h.seen == h.proposed == [])
    && Summarizes(s.whole, s.bounds, h.seen) && Summarizes(s.part, s.bounds, h.proposed)
    && s.whole.count + s.part.count <= MAX_U64 && s.whole.sum + s.part.sum <= MAX_U64
  }

  function Step(h: History, op: Op): History
    requires h.s.Shaped()
  {
    match op
    case Observe(v) =>
      var (s, ok) := h.s.Observe(v);
      h.(s := s, proposed := h.proposed + if ok then [v] else [], verdicts := h.verdicts + [ok])
    case Commit => h.(s := h.s.Xfer(), seen := h.seen + h.proposed, proposed := [])
  }

  /** Whether one more observation is accepted after `taken`: no pending or committed split matters. */
  predicate Fits(bounds: seq<U64>, taken: seq<U64>, v: U64) {
    AdjacentIncreasing(bounds) && |taken| < MAX_U64 && Sum(Itself, taken) + v <= MAX_U64
  }

  /** The bucket test never refuses: a bucket holds no more than the whole histogram. */
  lemma {:induction false} BucketRoom(h: History, b: nat)
    requires Tracks(h) && b <= |h.s.bounds| && h.s.valid && h.s.whole.count + h.s.part.count < MAX_U64
    ensures h.s.whole.buckets[b] + h.s.part.buckets[b] < MAX_U64
  {
    hide Sum, Falls, Least, Greatest;
    BucketsTotal(h.s.whole, h.s.bounds, h.seen);
    BucketsTotal(h.s.part, h.s.bounds, h.proposed);
    TallyBounds(h.s.whole.buckets, |h.s.bounds| + 1, b);
    TallyBounds(h.s.part.buckets, |h.s.bounds| + 1, b);
  }

  lemma {:induction false} BoundsChecked(bounds: seq<U64>)
    ensures AdjacentIncreasing(bounds) <==> Increasing(bounds)
  {
    if AdjacentIncreasing(bounds) {
      forall i, j | 0 <= i < j < |bounds| ensures bounds[i] < bounds[j] { AdjacentEnough(bounds, i, j); }
    }
  }

  lemma {:induction false} ObserveTracks(h: History, v: U64)
    requires Tracks(h)
    ensures Tracks(Step(h, Observe(v)))
    ensures Step(h, Observe(v)).verdicts == h.verdicts + [Fits(h.s.bounds, h.seen + h.proposed, v)]
  {
    hide Sum, Falls, Least, Greatest, InBucket, LowerBound;
    BoundsChecked(h.s.bounds);
    SumConcat(Itself, h.seen, h.proposed);
    if Fits(h.s.bounds, h.seen + h.proposed, v) {
      BucketRoom(h, LowerBound(h.s.bounds, v, 0));
      WithSummarizes(h.s.part, h.s.bounds, h.proposed, v);
    }
    assert h.proposed + [] == h.proposed;
  }

  lemma {:induction false} NoneSummarizes(bounds: seq<U64>)
    ensures Summarizes(NoneSeen(|bounds| + 1), bounds, [])
  {
  }

  lemma {:induction false} CommitTracks(h: History)
    requires Tracks(h)
    ensures Tracks(Step(h, Commit))
  {
    hide Sum, Falls, Least, Greatest;
    NoneSummarizes(h.s.bounds);
    assert h.seen + [] == h.seen;
    MergeSummarizes(h.s.whole, h.s.part, h.s.bounds, h.seen, h.proposed);
  }

  lemma {:induction false} StepTracks(h: History, op: Op)
    requires Tracks(h)
    ensures Tracks(Step(h, op)) && Step(h, op).s.bounds == h.s.bounds
  {
    hide Summarizes;
    match op
    case Observe(v) => ObserveTracks(h, v); assert h.s.Shaped() by { SummaryShape(h); }
    case Commit => CommitTracks(h); assert h.s.Shaped() by { SummaryShape(h); }
  }

  lemma {:induction false} SummaryShape(h: History)
    requires Tracks(h)
    ensures h.s.Shaped()
  {
  }

  ghost function Run(h: History, ops: seq<Op>, k: nat): (r: History)
    requires Tracks(h) && k <= |ops|
    ensures Tracks(r) && r.s.bounds == h.s.bounds
  {
    if k == 0 then h else
      StepTracks(Run(h, ops, k - 1), ops[k - 1]);
      Step(Run(h, ops, k - 1), ops[k - 1])
  }

  /** The observations among the first `k` operations. */
  function Offered(ops: seq<Op>, k: nat): seq<U64>
    requires k <= |ops|
  {
    if k == 0 then [] else Offered(ops, k - 1) + if ops[k - 1].Observe? then [ops[k - 1].value] else []
  }

  /** Which of the offered observations a histogram takes, whenever its barriers fall. */
  function Taken(bounds: seq<U64>, offered: seq<U64>): seq<U64>
    decreases |offered|
  {
    if offered == [] then [] else
      var t, v := Taken(bounds, offered[..|offered| - 1]), offered[|offered| - 1];
      if Fits(bounds, t, v) then t + [v] else t
  }

  function Verdicts(bounds: seq<U64>, offered: seq<U64>): seq<bool>
    decreases |offered|
  {
    if offered == [] then [] else
      var rest := offered[..|offered| - 1];
      Verdicts(bounds, rest) + [Fits(bounds, Taken(bounds, rest), offered[|offered| - 1])]
  }

  function Start(bounds: seq<U64>): History { History(NewHistogram(bounds), [], [], []) }

  lemma {:induction false} StartTracks(bounds: seq<U64>)
    ensures Tracks(Start(bounds))
  {
    BoundsChecked(bounds);
    NoneSummarizes(bounds);
  }

  lemma {:induction false} OfferedStep(ops: seq<Op>, k: nat)
    requires k < |ops|
    ensures ops[k].Commit? ==> Offered(ops, k + 1) == Offered(ops, k)
    ensures ops[k].Observe? ==> Offered(ops, k + 1) == Offered(ops, k) + [ops[k].value]
  {
  }

  lemma {:induction false} TakenSnoc(bounds: seq<U64>, offered: seq<U64>, v: U64)
    ensures Taken(bounds, offered + [v]) ==
      if Fits(bounds, Taken(bounds, offered), v) then Taken(bounds, offered) + [v] else Taken(bounds, offered)
    ensures Verdicts(bounds, offered + [v]) == Verdicts(bounds, offered) + [Fits(bounds, Taken(bounds, offered), v)]
  {
    assert (offered + [v])[..|offered|] == offered;
  }

  /** What is accepted depends on the observations alone, not on where the barriers fall. */
  lemma {:induction false} RunTakes(bounds: seq<U64>, ops: seq<Op>, k: nat)
    requires k <= |ops|
    ensures Tracks(Start(bounds))
    ensures var h := Run(Start(bounds), ops, k);
      h.seen + h.proposed == Taken(bounds, Offered(ops, k)) && h.verdicts == Verdicts(bounds, Offered(ops, k))
  {
    hide Fits, Offered, Taken, Verdicts, Tracks;
    StartTracks(bounds);
    if k == 0 {
      NothingOffered(bounds, ops);
    } else {
      RunTakes(bounds, ops, k - 1);
      OfferedStep(ops, k - 1);
      var h := Run(Start(bounds), ops, k - 1);
      if ops[k - 1].Observe? {
        var v := ops[k - 1].value;
        ObserveTracks(h, v);
        TakenSnoc(bounds, Offered(ops, k - 1), v);
        ProposedGrows(h, v);
        assert h.seen + (h.proposed + [v]) == (h.seen + h.proposed) + [v];
      } else {
        assert Step(h, Commit).seen + [] == h.seen + h.proposed by { SummaryShape(h); }
      }
    }
  }

  lemma {:induction false} NothingOffered(bounds: seq<U64>, ops: seq<Op>)
    ensures Offered(ops, 0) == [] && Taken(bounds, []) == [] && Verdicts(bounds, []) == []
  {
  }

  lemma {:induction false} ProposedGrows(h: History, v: U64)
    requires Tracks(h)
    ensures h.s.Shaped()
    ensures Step(h, Observe(v)).seen == h.seen
    ensures Step(h, Observe(v)).proposed == h.proposed + if Fits(h.s.bounds, h.seen + h.proposed, v) then [v] else []
  {
    hide Fits;
    ObserveTracks(h, v);
    var g := Step(h, Observe(v));
    assert g.verdicts[|h.verdicts|] == Fits(h.s.bounds, h.seen + h.proposed, v);
  }

  /** The published histogram is determined by the offered observations: batching any of them into
      one barrier gives the same verdicts and the same statistic as a barrier after each. */
  lemma {:induction false} BatchingAgrees(bounds: seq<U64>, a: seq<Op>, b: seq<Op>)
    requires Offered(a, |a|) == Offered(b, |b|)
    ensures Tracks(Start(bounds))
    ensures var g, h := Run(Start(bounds), a, |a|), Run(Start(bounds), b, |b|);
      && g.verdicts == h.verdicts
      && g.s.Shaped() && h.s.Shaped() && g.s.Xfer() == h.s.Xfer()
      && Summarizes(g.s.Xfer().whole, bounds, Taken(bounds, Offered(a, |a|)))
  {
    hide Taken, Verdicts, Offered, Summarizes;
    RunTakes(bounds, a, |a|);
    RunTakes(bounds, b, |b|);
    Published(bounds, Run(Start(bounds), a, |a|), Run(Start(bounds), b, |b|), a, b);
  }

  /** Fields the run never touches. */
  ghost predicate Plain(s: Stat, bounds: seq<U64>) {
    s.kind == Histogram && s.bounds == bounds && s.valid == AdjacentIncreasing(bounds) && s.value == s.proposedValue == 0
    && (!s.pending ==> s.part == NoneSeen(|bounds| + 1))
  }

  lemma {:induction false} RunPlain(bounds: seq<U64>, ops: seq<Op>, k: nat)
    requires Tracks(Start(bounds)) && k <= |ops|
    ensures Plain(Run(Start(bounds), ops, k).s, bounds)
  {
    hide Summarizes, LowerBound, Merge, With;
    if k > 0 {
      RunPlain(bounds, ops, k - 1);
      SummaryShape(Run(Start(bounds), ops, k - 1));
    }
  }

  lemma {:induction false} Published(bounds: seq<U64>, g: History, h: History, a: seq<Op>, b: seq<Op>)
    requires Tracks(g) && Tracks(h) && g.seen + g.proposed == h.seen + h.proposed
    requires Tracks(Start(bounds)) && g == Run(Start(bounds), a, |a|) && h == Run(Start(bounds), b, |b|)
    ensures g.s.Shaped() && h.s.Shaped() && g.s.Xfer() == h.s.Xfer()
    ensures Summarizes(g.s.Xfer().whole, bounds, g.seen + g.proposed)
  {
    hide Summarizes, Run, Tracks, Stat.Xfer, Plain;
    RunPlain(bounds, a, |a|);
    RunPlain(bounds, b, |b|);
    PublishedPlain(bounds, g);
    PublishedPlain(bounds, h);
    SummaryOfMultiset(bounds, g.seen + g.proposed, h.seen + h.proposed, g.s.Xfer().whole, h.s.Xfer().whole);
  }

  /** What a barrier leaves, apart from the summary, is the same for every run. */
  lemma {:induction false} PublishedPlain(bounds: seq<U64>, h: History)
    requires Tracks(h) && Plain(h.s, bounds)
    ensures h.s.Shaped()
    ensures var s := h.s.Xfer();
      && s == Stat(Histogram, bounds, AdjacentIncreasing(bounds), 0, s.whole, false, 0, NoneSeen(|bounds| + 1))
      && Summarizes(s.whole, bounds, h.seen + h.proposed)
  {
    hide Sum, Falls, Least, Greatest;
    SummaryShape(h);
    CommitTracks(h);
  }

  // ----- Counters and gauges -----

  /** A statistic only takes what its kind is for, and nothing when its bounds are not increasing or a
      histogram has none. */
  lemma {:induction false} OtherKindsRefuse(s: Stat, v: U64, bounds: seq<U64>)
    requires s.Shaped()
    ensures s.Add(v).1 ==> s.valid && s.kind == Counter
    ensures s.Set(v).1 ==> s.valid && s.kind == Gauge
    ensures s.Observe(v).1 ==> s.valid && s.kind == Histogram
    ensures NewHistogram(bounds).valid <==> Increasing(bounds)
    ensures NewScalar(Counter).valid && NewScalar(Gauge).valid && !NewScalar(Histogram).valid
  {
    BoundsChecked(bounds);
  }

  /** A counter never wraps: adds are accepted exactly while the published value would fit. */
  lemma {:induction false} CounterExact(s: Stat, amount: U64)
    requires s.kind == Counter && s.valid && s.Shaped() && s.value + s.proposedValue <= MAX_U64
    requires s.proposedValue > 0 ==> s.pending
    ensures var (t, ok) := s.Add(amount);
      && (ok <==> s.value + s.proposedValue + amount <= MAX_U64)
      && t.Xfer().value == s.Xfer().value + (if ok then amount else 0) <= MAX_U64
  {
  }

  /** The first `k` values offered to a gauge in one epoch, and the verdict on each. */
  function SetAll(s: Stat, offered: seq<U64>, k: nat): (Stat, seq<bool>)
    requires k <= |offered|
  {
    if k == 0 then (s, []) else
      var (t, verdicts) := SetAll(s, offered, k - 1);
      (t.Set(offered[k - 1]).0, verdicts + [t.Set(offered[k - 1]).1])
  }

  /** Of an epoch's values a gauge takes the first and refuses the others. */
  lemma {:induction false} GaugeEpoch(s: Stat, offered: seq<U64>, k: nat)
    requires s.kind == Gauge && s.valid && !s.pending && k <= |offered|
    ensures var (t, verdicts) := SetAll(s, offered, k);
      && |verdicts| == k && (forall i :: 0 <= i < k ==> (verdicts[i] <==> i == 0))
      && t == if k == 0 then s else s.(proposedValue := offered[0], pending := true)
  {
    if k > 0 { GaugeEpoch(s, offered, k - 1); }
  }

  /** A gauge through the first `k` epochs, each with its offered values and a barrier. */
  function GaugeRun(epochs: seq<seq<U64>>, k: nat): (s: Stat)
    requires k <= |epochs|
    ensures s.kind == Gauge && s.valid && s.whole == s.part == NoneSeen(1) && s.bounds == [] && !s.pending
  {
    if k == 0 then NewScalar(Gauge) else
      var s := GaugeRun(epochs, k - 1);
      GaugeEpoch(s, epochs[k - 1], |epochs[k - 1]|);
      SetAll(s, epochs[k - 1], |epochs[k - 1]|).0.Xfer()
  }

  /** The first value offered in the latest epoch that offered any. */
  function LatestFirst(epochs: seq<seq<U64>>, k: nat): nat
    requires k <= |epochs|
  {
    if k == 0 then 0 else if epochs[k - 1] != [] then epochs[k - 1][0] else LatestFirst(epochs, k - 1)
  }

  /** A gauge shows the first value of the latest epoch that set it, whatever else was offered. */
  lemma {:induction false} GaugePublishesFirst(epochs: seq<seq<U64>>, k: nat)
    requires k <= |epochs|
    ensures GaugeRun(epochs, k).value == LatestFirst(epochs, k)
  {
    if k > 0 {
      GaugePublishesFirst(epochs, k - 1);
      GaugeEpoch(GaugeRun(epochs, k - 1), epochs[k - 1], |epochs[k - 1]|);
    }
  }

  // ----- The runtime object -----

  class Statistic {
    const kind: Kind
    const bounds: seq<U64>
    const valid: bool
    const bucketCounts: array<nat>
    const proposedBucketCounts: array<nat>
    var value: nat
    var count: nat
    var sum: nat
    var minimum: Option<nat>
    var maximum: Option<nat>
    var pending: bool
    var proposedValue: nat
    var proposedCount: nat
    var proposedSum: nat
    var proposedMinimum: Option<nat>
    var proposedMaximum: Option<nat>

    function State(): Stat
      reads this, bucketCounts, proposedBucketCounts
    {
      Stat(kind, bounds, valid, value, Summary(count, sum, minimum, maximum, bucketCounts[..]), pending, proposedValue,
           Summary(proposedCount, proposedSum, proposedMinimum, proposedMaximum, proposedBucketCounts[..]))
    }

    ghost predicate Shaped() {
      bucketCounts != proposedBucketCounts && bucketCounts.Length == proposedBucketCounts.Length == |bounds| + 1
    }

    /** A counter or a gauge. */
    constructor (kind: Kind)
      ensures State() == NewScalar(kind) && Shaped() && fresh(bucketCounts) && fresh(proposedBucketCounts)
    {
      this.kind := kind;
      bounds, valid := [], kind != Histogram;
      bucketCounts := new nat[1](_ => 0);
      proposedBucketCounts := new nat[1](_ => 0);
      value, count, sum, minimum, maximum, pending := 0, 0, 0, None, None, false;
      proposedValue, proposedCount, proposedSum, proposedMinimum, proposedMaximum := 0, 0, 0, None, None;
      new;
      assert State().whole.buckets == NoneSeen(1).buckets && State().part.buckets == NoneSeen(1).buckets;
    }

    constructor FromBounds(bounds: seq<U64>)
      ensures State() == NewHistogram(bounds) && Shaped() && fresh(bucketCounts) && fresh(proposedBucketCounts)
    {
      kind := Histogram;
      this.bounds := bounds;
      valid := AdjacentIncreasing(bounds);
      bucketCounts := new nat[|bounds| + 1](_ => 0);
      proposedBucketCounts := new nat[|bounds| + 1](_ => 0);
      value, count, sum, minimum, maximum, pending := 0, 0, 0, None, None, false;
      proposedValue, proposedCount, proposedSum, proposedMinimum, proposedMaximum := 0, 0, 0, None, None;
      new;
      assert State().whole.buckets == NoneSeen(|bounds| + 1).buckets && State().part.buckets == NoneSeen(|bounds| + 1).buckets;
    }

    method ProposeAdd(amount: U64) returns (ok: bool)
      modifies this`proposedValue, this`pending
      ensures (State(), ok) == old(State()).Add(amount)
    {
      if !valid || kind != Counter || amount > MAX_U64 - proposedValue || proposedValue + amount > MAX_U64 - value {
        return false;
      }
      proposedValue := proposedValue + amount;
      pending := true;
      return true;
    }

    /** At most one value per epoch, and that value is what the next barrier publishes. */
    method ProposeSet(to: U64) returns (ok: bool)
      requires Shaped()
      modifies this`proposedValue, this`pending
      ensures (State(), ok) == old(State()).Set(to)
      ensures ok <==> valid && kind == Gauge && !old(pending)
      ensures State().Shaped() && (ok ==> pending && State().Xfer().value == to)
    {
      if !valid || kind != Gauge || pending {
        return false;
      }
      proposedValue := to;
      pending := true;
      return true;
    }

    method ProposeObserve(v: U64) returns (ok: bool)
      requires Shaped()
      modifies proposedBucketCounts, this`proposedCount, this`proposedSum, this`proposedMinimum, this`proposedMaximum, this`pending
      ensures old(State()).Shaped() && (State(), ok) == old(State()).Observe(v)
    {
      if !valid || kind != Histogram || proposedCount >= MAX_U64 - count || v > MAX_U64 - proposedSum ||
        proposedSum + v > MAX_U64 - sum
      {
        return false;
      }
      var bucket := LowerBound(bounds, v, 0);
      if proposedBucketCounts[bucket] >= MAX_U64 - bucketCounts[bucket] {
        return false;
      }
      proposedBucketCounts[bucket] := proposedBucketCounts[bucket] + 1;
      proposedCount := proposedCount + 1;
      proposedSum := proposedSum + v;
      if proposedMinimum.None? || v < proposedMinimum.value {
        proposedMinimum := Some(v);
      }
      if proposedMaximum.None? || v > proposedMaximum.value {
        proposedMaximum := Some(v);
      }
      pending := true;
      return true;
    }

    method AddBuckets()
      requires Shaped()
      modifies bucketCounts
      ensures forall i :: 0 <= i < bucketCounts.Length ==> bucketCounts[i] == old(bucketCounts[i]) + proposedBucketCounts[i]
    {
      for index := 0 to bucketCounts.Length
        invariant forall i :: 0 <= i < bucketCounts.Length ==>
          bucketCounts[i] == old(bucketCounts[i]) + if i < index then proposedBucketCounts[i] else 0
      {
        bucketCounts[index] := bucketCounts[index] + proposedBucketCounts[index];
      }
    }

    method ClearProposals()
      requires Shaped()
      modifies proposedBucketCounts, this`proposedValue, this`proposedCount, this`proposedSum, this`proposedMinimum,
               this`proposedMaximum, this`pending
      ensures State() == old(State()).(proposedValue := 0, part := NoneSeen(|bounds| + 1), pending := false)
    {
      for i := 0 to proposedBucketCounts.Length
        invariant bucketCounts[..] == old(bucketCounts[..])
        invariant forall j :: 0 <= j < i ==> proposedBucketCounts[j] == 0
      {
        proposedBucketCounts[i] := 0;
      }
      proposedValue, proposedCount, proposedSum, proposedMinimum, proposedMaximum := 0, 0, 0, None, None;
      pending := false;
      assert proposedBucketCounts[..] == NoneSeen(|bounds| + 1).buckets;
    }

    /** The histogram branch: counts, sum, extremes and buckets. */
    method MergeProposals()
      requires Shaped()
      modifies bucketCounts, this`count, this`sum, this`minimum, this`maximum
      ensures old(State()).Shaped() && State() == old(State()).(whole := Merge(old(State()).whole, old(State()).part))
    {
      ghost var s := State();
      count := count + proposedCount;
      sum := sum + proposedSum;
      if proposedMinimum.Some? && (minimum.None? || proposedMinimum.value < minimum.value) {
        minimum := proposedMinimum;
      }
      if proposedMaximum.Some? && (maximum.None? || proposedMaximum.value > maximum.value) {
        maximum := proposedMaximum;
      }
      AddBuckets();
      assert bucketCounts[..] == Merge(s.whole, s.part).buckets;
    }

    method DoXfer()
      requires Shaped()
      modifies this, bucketCounts, proposedBucketCounts
      ensures old(State()).Shaped() && State() == old(State()).Xfer()
    {
      hide Merge, NoneSeen;
      if !pending {
        return;
      }
      if kind == Counter {
        value := value + proposedValue;
      } else if kind == Gauge {
        value := proposedValue;
      } else {
        MergeProposals();
      }
      ClearProposals();
    }
  }
}
