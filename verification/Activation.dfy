/** The activation table: built as a compressed adjacency, and read back. */
module Activation {
  import opened Core
  import opened Lists
  import opened Wrappers
  import opened Ordering

  datatype Edge = Edge(source: nat, target: nat)

  function EdgeKey(e: Edge): Key { [e.source, e.target] }

  datatype Plan = Plan(offsets: seq<nat>, targets: seq<nat>)

  datatype BuildError = EmptyName | TooManyEntries | NotDense | TooManyEdges | EndpointOutOfRange

  /** A dispatch entry: its object id, and whether its object expression is non-empty. */
  datatype Entry = Entry(objectId: nat, named: bool)

  function EntryKey(e: Entry): Key { [e.objectId] }

  /** A slice the offsets describe; reading it is defined for plans `validate` accepts. */
  ghost predicate Sliced(p: Plan, source: nat) {
    source + 1 < |p.offsets| ==> p.offsets[source] <= p.offsets[source + 1] <= |p.targets|
  }

  function TargetsFor(p: Plan, source: nat): seq<nat>
    requires Sliced(p, source)
  {
    if |p.offsets| == 0 || source >= |p.offsets| - 1 then [] else p.targets[p.offsets[source]..p.offsets[source + 1]]
  }

  /** Strictly increasing. */
  ghost predicate Increasing(s: seq<nat>) { forall i, j :: 0 <= i < j < |s| ==> s[i] < s[j] }

  /** One row as `validate` checks it: neighbours only. */
  ghost predicate RowOk(p: Plan, count: nat, source: nat)
    requires source + 1 < |p.offsets|
  {
    var begin, end := p.offsets[source], p.offsets[source + 1];
    && begin <= end <= |p.targets|
    && forall i :: begin <= i < end ==> p.targets[i] < count && (i > begin ==> p.targets[i - 1] < p.targets[i])
  }

  ghost predicate WellFormed(p: Plan, count: nat) {
    && |p.offsets| == count + 1 && |p.targets| <= MAX_U32
    && p.offsets[0] == 0 && p.offsets[count] == |p.targets|
    && forall s :: 0 <= s < count ==> RowOk(p, count, s)
  }

  // ----- Reading -----

  method Validate(p: Plan, count: nat) returns (ok: bool)
    ensures ok <==> WellFormed(p, count)
  {
    if |p.offsets| != count + 1 || |p.targets| > MAX_U32 || p.offsets[0] != 0 || p.offsets[count] != |p.targets| {
      return false;
    }
    for source := 0 to count
      invariant forall s :: 0 <= s < source ==> RowOk(p, count, s)
    {
      var begin, end := p.offsets[source], p.offsets[source + 1];
      if begin > end || end > |p.targets| {
        assert !RowOk(p, count, source);
        return false;
      }
      for index := begin to end
        invariant forall i :: begin <= i < index ==> p.targets[i] < count && (i > begin ==> p.targets[i - 1] < p.targets[i])
      {
        if p.targets[index] >= count || (index > begin && p.targets[index - 1] >= p.targets[index]) {
          assert !RowOk(p, count, source);
          return false;
        }
      }
    }
    return true;
  }

  /** Comparing neighbours is enough: every row of an accepted plan is strictly increasing. */
  lemma {:induction false} RowIncreasing(p: Plan, count: nat, source: nat)
    requires WellFormed(p, count) && source < count
    ensures Sliced(p, source) && Increasing(TargetsFor(p, source))
    ensures forall t :: t in TargetsFor(p, source) ==> t < count
  {
    assert RowOk(p, count, source);
    var begin, end := p.offsets[source], p.offsets[source + 1];
    var row := TargetsFor(p, source);
    forall i, j | 0 <= i < j < |row| ensures row[i] < row[j] {
      Climb(p, count, source, begin + i, begin + j);
    }
    forall t | t in row ensures t < count {
      var i :| 0 <= i < |row| && row[i] == t;
      assert p.targets[begin + i] < count;
    }
  }

  lemma {:induction false} Climb(p: Plan, count: nat, source: nat, i: nat, j: nat)
    requires source + 1 < |p.offsets| && RowOk(p, count, source)
    requires p.offsets[source] <= i < j < p.offsets[source + 1]
    ensures p.targets[i] < p.targets[j]
    decreases j
  {
    assert p.targets[j - 1] < p.targets[j];
    if i < j - 1 { Climb(p, count, source, i, j - 1); }
  }

  function Singleton(t: nat): Key { [t] }

  /** Strictly increasing lists of the same numbers are the same list. */
  lemma {:induction false} IncreasingUnique(a: seq<nat>, b: seq<nat>)
    requires Increasing(a) && Increasing(b) && forall t: nat :: t in a <==> t in b
    ensures a == b
  {
    forall s: seq<nat>, i, j | s in {a, b} && 0 <= i < j < |s| ensures Less(Singleton(s[i]), Singleton(s[j])) {
    }
    forall t: nat ensures multiset(a)[t] == multiset(b)[t] {
      if t in a {
        Once(a, t);
        Once(b, t);
      }
    }
    SortedUnique(Singleton, a, b);
  }

  lemma {:induction false} Once(s: seq<nat>, t: nat)
    requires Increasing(s) && t in s
    ensures multiset(s)[t] == 1
  {
    var k :| 0 <= k < |s| && s[k] == t;
    forall i, j | 0 <= i < j < |s| ensures Singleton(s[i]) != Singleton(s[j]) {
      assert Singleton(s[i])[0] != Singleton(s[j])[0];
    }
    CountOnce(Singleton, s, k);
  }

  ghost predicate SameRow(p: Plan, q: Plan, source: nat) {
    && Sliced(p, source) && Sliced(q, source)
    && forall t: nat :: t in TargetsFor(p, source) <==> t in TargetsFor(q, source)
  }

  lemma {:induction false} RowsAgree(p: Plan, q: Plan, count: nat, k: nat)
    requires WellFormed(p, count) && WellFormed(q, count) && k <= count
    requires forall s :: 0 <= s < count ==> SameRow(p, q, s)
    ensures p.offsets[k] <= |p.targets| && p.offsets[k] <= |q.targets| && p.offsets[k] == q.offsets[k]
    ensures p.offsets[..k + 1] == q.offsets[..k + 1]
    ensures p.targets[..p.offsets[k]] == q.targets[..p.offsets[k]]
  {
    if k > 0 {
      hide WellFormed, SameRow, Increasing;
      RowsAgree(p, q, count, k - 1);
      assert SameRow(p, q, k - 1);
      RowEqual(p, q, count, k - 1);
      RowEnds(p, count, k - 1);
      RowEnds(q, count, k - 1);
      assert p.offsets[..k + 1] == p.offsets[..k] + [p.offsets[k]] && q.offsets[..k + 1] == q.offsets[..k] + [q.offsets[k]];
    }
  }

  lemma {:induction false} RowEqual(p: Plan, q: Plan, count: nat, s: nat)
    requires WellFormed(p, count) && WellFormed(q, count) && s < count && SameRow(p, q, s)
    ensures TargetsFor(p, s) == TargetsFor(q, s)
  {
    RowIncreasing(p, count, s);
    RowIncreasing(q, count, s);
    IncreasingUnique(TargetsFor(p, s), TargetsFor(q, s));
  }

  /** A row extends the targets of the sources before it. */
  lemma {:induction false} RowEnds(p: Plan, count: nat, s: nat)
    requires WellFormed(p, count) && s < count
    ensures |p.offsets| == count + 1 && Sliced(p, s) && p.offsets[s] <= p.offsets[s + 1] <= |p.targets|
    ensures |TargetsFor(p, s)| == p.offsets[s + 1] - p.offsets[s]
    ensures p.targets[..p.offsets[s + 1]] == p.targets[..p.offsets[s]] + TargetsFor(p, s)
  {
    assert RowOk(p, count, s);
  }

  /** The table is canonical: two accepted plans with the same targets for every source are equal. */
  lemma {:induction false} PlanUnique(p: Plan, q: Plan, count: nat)
    requires WellFormed(p, count) && WellFormed(q, count)
    requires forall s :: 0 <= s < count ==> SameRow(p, q, s)
    ensures p == q
  {
    RowsAgree(p, q, count, count);
    assert p.offsets[..count + 1] == p.offsets && q.offsets[..count + 1] == q.offsets;
    assert p.targets[..|p.targets|] == p.targets && q.targets[..|q.targets|] == q.targets;
  }

  // ----- Building -----

  ghost predicate InRange(edges: seq<Edge>, count: nat) {
    forall i :: 0 <= i < |edges| ==> edges[i].source < count && edges[i].target < count
  }

  /** Edges of `u`'s first `k` that leave `s`. */
  ghost function Leaving(u: seq<Edge>, s: nat, k: nat): nat
    requires k <= |u|
  {
    if k == 0 then 0 else Leaving(u, s, k - 1) + if u[k - 1].source == s then 1 else 0
  }

  /** Edges of `u`'s first `k` whose source is below `s`. */
  ghost function Below(u: seq<Edge>, s: nat, k: nat): (n: nat)
    requires k <= |u|
    ensures n <= k
  {
    if k == 0 then 0 else Below(u, s, k - 1) + if u[k - 1].source < s then 1 else 0
  }

  lemma {:induction false} BelowNext(u: seq<Edge>, s: nat, k: nat)
    requires k <= |u|
    ensures Below(u, s + 1, k) == Below(u, s, k) + Leaving(u, s, k)
    ensures Below(u, 0, k) == 0
  {
    if k > 0 { BelowNext(u, s, k - 1); }
  }

  ghost predicate SourcesSorted(u: seq<Edge>) {
    forall i, j :: 0 <= i < j < |u| ==> u[i].source < u[j].source || (u[i].source == u[j].source && u[i].target < u[j].target)
  }

  /** In a sorted list the edges below `s` come first. */
  lemma {:induction false} BelowFirst(u: seq<Edge>, s: nat, k: nat, i: nat)
    requires SourcesSorted(u) && i < k <= |u|
    ensures u[i].source < s <==> i < Below(u, s, k)
    decreases k
  {
    if i < k - 1 {
      BelowFirst(u, s, k - 1, i);
    }
    if u[k - 1].source < s {
      BelowAll(u, s, k - 1);
    }
  }

  lemma {:induction false} BelowAll(u: seq<Edge>, s: nat, k: nat)
    requires k <= |u| && forall i :: 0 <= i < k ==> u[i].source < s
    ensures Below(u, s, k) == k
  {
    if k > 0 { BelowAll(u, s, k - 1); }
  }

  /** What the offsets hold in the end. */
  ghost predicate Compressed(p: Plan, u: seq<Edge>, count: nat) {
    && |p.offsets| == count + 1 && |p.targets| == |u|
    && (forall s :: 0 <= s <= count ==> p.offsets[s] == Below(u, s, |u|))
    && forall i :: 0 <= i < |u| ==> p.targets[i] == u[i].target
  }

  lemma {:induction false} CompressedRow(p: Plan, u: seq<Edge>, count: nat, s: nat)
    requires Compressed(p, u, count) && SourcesSorted(u) && InRange(u, count) && s < count
    ensures RowOk(p, count, s)
    ensures forall i :: p.offsets[s] <= i < p.offsets[s + 1] ==> u[i].source == s
    ensures forall i :: 0 <= i < |u| && u[i].source == s ==> p.offsets[s] <= i < p.offsets[s + 1]
  {
    BelowNext(u, s, |u|);
    forall i | 0 <= i < |u| ensures p.offsets[s] <= i < p.offsets[s + 1] <==> u[i].source == s {
      BelowFirst(u, s, |u|, i);
      BelowFirst(u, s + 1, |u|, i);
    }
  }

  ghost predicate Represents(p: Plan, edges: seq<Edge>, source: nat) {
    Sliced(p, source) && forall t: nat :: t in TargetsFor(p, source) <==> Edge(source, t) in edges
  }

  lemma {:induction false} CompressedMeans(p: Plan, u: seq<Edge>, count: nat)
    requires Compressed(p, u, count) && SourcesSorted(u) && InRange(u, count) && |u| <= MAX_U32
    ensures WellFormed(p, count)
    ensures forall s :: 0 <= s < count ==> Represents(p, u, s)
  {
    BelowNext(u, 0, |u|);
    BelowAll(u, count, |u|);
    forall s | 0 <= s < count ensures RowOk(p, count, s) && Represents(p, u, s) {
      CompressedRow(p, u, count, s);
      CompressedRepresents(p, u, count, s);
    }
  }

  lemma {:induction false} CompressedRepresents(p: Plan, u: seq<Edge>, count: nat, s: nat)
    requires Compressed(p, u, count) && s < count && RowOk(p, count, s)
    requires forall i :: p.offsets[s] <= i < p.offsets[s + 1] ==> u[i].source == s
    requires forall i :: 0 <= i < |u| && u[i].source == s ==> p.offsets[s] <= i < p.offsets[s + 1]
    ensures Represents(p, u, s)
  {
    hide Below;
    var row := TargetsFor(p, s);
    forall t: nat ensures t in row <==> Edge(s, t) in u {
      if t in row {
        var i :| 0 <= i < |row| && row[i] == t;
        assert u[p.offsets[s] + i] == Edge(s, t);
      }
      if Edge(s, t) in u {
        var i :| 0 <= i < |u| && u[i] == Edge(s, t);
        assert row[i - p.offsets[s]] == t;
      }
    }
  }

  lemma {:induction false} LessEdges(d: Edge, e: Edge)
    ensures Less(EdgeKey(d), EdgeKey(e)) <==> d.source < e.source || (d.source == e.source && d.target < e.target)
  {
    assert EdgeKey(d)[1..] == [d.target] && EdgeKey(e)[1..] == [e.target];
    assert [d.target][1..] == [] && [e.target][1..] == [];
    assert Less([d.target], [e.target]) <==> d.target < e.target;
  }

  lemma {:induction false} AppendSorted(u: seq<Edge>, e: Edge)
    requires SourcesSorted(u)
    requires u != [] ==> Less(EdgeKey(u[|u| - 1]), EdgeKey(e))
    ensures SourcesSorted(u + [e])
  {
    if u != [] {
      LessEdges(u[|u| - 1], e);
      forall i | 0 <= i < |u| ensures u[i].source < e.source || (u[i].source == e.source && u[i].target < e.target) {
        if i < |u| - 1 { assert u[i].source <= u[|u| - 1].source; }
      }
    }
  }

  lemma {:induction false} SortedSize(u: seq<Edge>)
    requires SourcesSorted(u)
    ensures |Elements(u)| == |u|
  {
    if u != [] {
      var t, e := u[..|u| - 1], u[|u| - 1];
      SortedSize(t);
      assert u == t + [e] && e !in t;
      assert Elements(u) == Elements(t) + {e};
    }
  }

  /** Sort, then drop repeats of the last kept edge. */
  method SortedDistinct(edges: seq<Edge>) returns (u: seq<Edge>)
    ensures SourcesSorted(u) && Elements(u) == Elements(edges) && |u| == |Elements(edges)|
  {
    hide Less, EdgeKey, SortBy, SourcesSorted, Elements;
    var s := SortBy(EdgeKey, edges);
    SortBySorted(EdgeKey, edges);
    u := [];
    NothingSorted();
    assert s[..0] == [];
    for i := 0 to |s|
      invariant SourcesSorted(u)
      invariant Elements(u) == Elements(s[..i])
      invariant if i == 0 then u == [] else u != [] && u[|u| - 1] == s[i - 1]
    {
      ElementsSnoc(s[..i], s[i]);
      ElementsSnoc(u, s[i]);
      assert s[..i + 1] == s[..i] + [s[i]];
      if u == [] || u[|u| - 1] != s[i] {
        if i > 0 {
          assert !Less(EdgeKey(s[i]), EdgeKey(s[i - 1]));
          LessOrSame(s[i - 1], s[i]);
        }
        AppendSorted(u, s[i]);
        u := u + [s[i]];
      }
    }
    assert s[..|s|] == s;
    SortKeepsEdges(edges);
    SortedSize(u);
  }

  lemma {:induction false} SortKeepsEdges(edges: seq<Edge>)
    ensures Elements(SortBy(EdgeKey, edges)) == Elements(edges)
  {
    hide SortBy, EdgeKey;
    var s := SortBy(EdgeKey, edges);
    forall e ensures e in s <==> e in edges {
      assert e in multiset(s) <==> e in multiset(edges);
    }
  }

  lemma {:induction false} NothingSorted()
    ensures SourcesSorted([]) && Elements<Edge>([]) == {}
  {
  }

  lemma {:induction false} ElementsSnoc(s: seq<Edge>, e: Edge)
    ensures Elements(s + [e]) == Elements(s) + {e}
    ensures s != [] && s[|s| - 1] == e ==> Elements(s) + {e} == Elements(s)
  {
  }

  lemma {:induction false} LessOrSame(d: Edge, e: Edge)
    requires !Less(EdgeKey(e), EdgeKey(d))
    ensures d == e || Less(EdgeKey(d), EdgeKey(e))
  {
    LessEdges(d, e);
    LessEdges(e, d);
  }

  /** Ids are exactly 0, 1, ..., each with an expression. */
  ghost predicate Dense(entries: seq<Entry>) {
    && (forall i :: 0 <= i < |entries| ==> entries[i].objectId < |entries| && entries[i].named)
    && forall i, j :: 0 <= i < j < |entries| ==> entries[i].objectId != entries[j].objectId
  }

  lemma {:induction false} StrictGap(ids: seq<nat>, i: nat, j: nat)
    requires i <= j < |ids| && Increasing(ids)
    ensures ids[i] + (j - i) <= ids[j]
    decreases j
  {
    if i < j { StrictGap(ids, i, j - 1); }
  }

  lemma {:induction false} DenseSorted(entries: seq<Entry>, s: seq<Entry>)
    requires Dense(entries) && Sorted(EntryKey, s) && multiset(s) == multiset(entries)
    ensures forall i :: 0 <= i < |s| ==> s[i] == Entry(i, true)
  {
    assert |multiset(s)| == |multiset(entries)|;
    forall i, j | 0 <= i < j < |entries| ensures EntryKey(entries[i]) != EntryKey(entries[j]) {
      assert EntryKey(entries[i])[0] != EntryKey(entries[j])[0];
    }
    DistinctKeysPermuted(EntryKey, entries, s);
    var ids := seq(|s|, i requires 0 <= i < |s| => s[i].objectId);
    forall i, j | 0 <= i < j < |ids| ensures ids[i] < ids[j] {
      LessId(s[j], s[i]);
      assert EntryKey(s[i]) != EntryKey(s[j]);
    }
    forall i | 0 <= i < |s| ensures s[i].objectId < |s| && s[i].named {
      assert s[i] in multiset(s);
      var k :| 0 <= k < |entries| && entries[k] == s[i];
    }
    forall i | 0 <= i < |s| ensures s[i] == Entry(i, true) {
      StrictGap(ids, 0, i);
      StrictGap(ids, i, |s| - 1);
    }
  }

  lemma {:induction false} LessId(a: Entry, b: Entry)
    ensures Less(EntryKey(a), EntryKey(b)) <==> a.objectId < b.objectId
  {
  }

  lemma {:induction false} SortedDense(entries: seq<Entry>, s: seq<Entry>)
    requires multiset(s) == multiset(entries) && forall i :: 0 <= i < |s| ==> s[i] == Entry(i, true)
    ensures Dense(entries)
  {
    assert |multiset(s)| == |multiset(entries)|;
    forall i, j | 0 <= i < j < |s| ensures EntryKey(s[i]) != EntryKey(s[j]) {
      assert EntryKey(s[i])[0] != EntryKey(s[j])[0];
    }
    DistinctKeysPermuted(EntryKey, s, entries);
    forall i | 0 <= i < |entries| ensures entries[i].objectId < |entries| && entries[i].named {
      assert entries[i] in multiset(s);
      var k :| 0 <= k < |s| && s[k] == entries[i];
    }
    forall i, j | 0 <= i < j < |entries| ensures entries[i].objectId != entries[j].objectId {
      assert EntryKey(entries[i]) != EntryKey(entries[j]);
    }
  }

  /** The dense-id check on the sorted entries. */
  method CheckDense(entries: seq<Entry>) returns (ok: bool)
    ensures ok <==> Dense(entries)
  {
    hide EntryKey, Dense, Sorted;
    var s := SortBy(EntryKey, entries);
    SortBySorted(EntryKey, entries);
    for index := 0 to |s|
      invariant forall i :: 0 <= i < index ==> s[i] == Entry(i, true)
    {
      if s[index].objectId != index || !s[index].named {
        if Dense(entries) { DenseSorted(entries, s); }
        return false;
      }
    }
    SortedDense(entries, s);
    return true;
  }

  /** Counts the edges of each source one place to the right, and collects the targets. */
  method CountEdges(u: seq<Edge>, offsets: array<nat>) returns (ok: bool, targets: seq<nat>)
    requires offsets.Length > 0 && forall s :: 0 <= s < offsets.Length ==> offsets[s] == 0
    modifies offsets
    ensures ok <==> InRange(u, offsets.Length - 1)
    ensures ok ==> |targets| == |u| && forall i :: 0 <= i < |u| ==> targets[i] == u[i].target
    ensures ok ==> offsets[0] == 0 && forall s :: 0 <= s < offsets.Length - 1 ==> offsets[s + 1] == Leaving(u, s, |u|)
  {
    var count := offsets.Length - 1;
    targets := [];
    for k := 0 to |u|
      invariant forall i :: 0 <= i < k ==> u[i].source < count && u[i].target < count
      invariant |targets| == k && forall i :: 0 <= i < k ==> targets[i] == u[i].target
      invariant offsets[0] == 0 && forall s :: 0 <= s < count ==> offsets[s + 1] == Leaving(u, s, k)
    {
      if u[k].source >= count || u[k].target >= count {
        return false, [];
      }
      offsets[u[k].source + 1] := offsets[u[k].source + 1] + 1;
      targets := targets + [u[k].target];
    }
    return true, targets;
  }

  /** Turns the counts into starts, in place. */
  method PrefixSums(ghost u: seq<Edge>, offsets: array<nat>)
    requires offsets.Length > 0 && offsets[0] == 0
    requires forall s :: 0 <= s < offsets.Length - 1 ==> offsets[s + 1] == Leaving(u, s, |u|)
    modifies offsets
    ensures forall s :: 0 <= s < offsets.Length ==> offsets[s] == Below(u, s, |u|)
  {
    BelowNext(u, 0, |u|);
    for index := 1 to offsets.Length
      invariant forall s :: 0 <= s < index ==> offsets[s] == Below(u, s, |u|)
      invariant forall s :: index <= s < offsets.Length ==> offsets[s] == Leaving(u, s - 1, |u|)
    {
      BelowNext(u, index - 1, |u|);
      offsets[index] := offsets[index] + offsets[index - 1];
    }
  }

  /** The checks, the counting loop and the prefix sums of `generateDispatchHeader`. */
  method BuildPlan(namespaceName: string, modelType: string, entries: seq<Entry>, edges: seq<Edge>)
    returns (r: Result<Plan, BuildError>)
    ensures r == Err(EmptyName) <==> namespaceName == "" || modelType == ""
    ensures r == Err(TooManyEntries) <==> namespaceName != "" && modelType != "" && |entries| > MAX_U32
    ensures r == Err(NotDense) <==> namespaceName != "" && modelType != "" && |entries| <= MAX_U32 && !Dense(entries)
    ensures r == Err(TooManyEdges) <==> Tabulated(namespaceName, modelType, entries) && |Elements(edges)| > MAX_U32
    ensures r == Err(EndpointOutOfRange) <==>
      (Tabulated(namespaceName, modelType, entries) && |Elements(edges)| <= MAX_U32 && !InRange(edges, |entries|))
    ensures r.Ok? ==> WellFormed(r.value, |entries|) && |r.value.targets| == |Elements(edges)|
    ensures r.Ok? ==> forall s :: 0 <= s < |entries| ==> Represents(r.value, edges, s)
    ensures r.Ok? ==> forall s :: 0 <= s <= |entries| ==> r.value.offsets[s] <= MAX_U32
  {
    hide Dense, Elements, SourcesSorted, InRange, WellFormed, Represents;
    if namespaceName == "" || modelType == "" {
      return Err(EmptyName);
    }
    if |entries| > MAX_U32 {
      return Err(TooManyEntries);
    }
    var dense := CheckDense(entries);
    if !dense {
      return Err(NotDense);
    }
    var u := SortedDistinct(edges);
    if |u| > MAX_U32 {
      return Err(TooManyEdges);
    }
    SameEdges(u, edges, |entries|);
    var offsets := new nat[|entries| + 1](_ => 0);
    var inRange, targets := CountEdges(u, offsets);
    if !inRange {
      return Err(EndpointOutOfRange);
    }
    PrefixSums(u, offsets);
    var plan := Plan(offsets[..], targets);
    CompressedMeans(plan, u, |entries|);
    RepresentsSame(plan, u, edges, |entries|);
    return Ok(plan);
  }

  /** The dispatch table part of the input is in order. */
  ghost predicate Tabulated(namespaceName: string, modelType: string, entries: seq<Entry>) {
    namespaceName != "" && modelType != "" && |entries| <= MAX_U32 && Dense(entries)
  }

  lemma {:induction false} SameEdges(u: seq<Edge>, edges: seq<Edge>, count: nat)
    requires Elements(u) == Elements(edges)
    ensures InRange(u, count) <==> InRange(edges, count)
  {
    if InRange(u, count) { SubsetInRange(u, edges, count); }
    if InRange(edges, count) { SubsetInRange(edges, u, count); }
  }

  lemma {:induction false} SubsetInRange(u: seq<Edge>, edges: seq<Edge>, count: nat)
    requires Elements(edges) <= Elements(u) && InRange(u, count)
    ensures InRange(edges, count)
  {
    forall i | 0 <= i < |edges| ensures edges[i].source < count && edges[i].target < count {
      assert edges[i] in Elements(u);
      var k :| 0 <= k < |u| && u[k] == edges[i];
    }
  }

  lemma {:induction false} RepresentsSame(p: Plan, u: seq<Edge>, edges: seq<Edge>, count: nat)
    requires Elements(u) == Elements(edges) && forall s :: 0 <= s < count ==> Represents(p, u, s)
    ensures forall s :: 0 <= s < count ==> Represents(p, edges, s)
  {
    forall s | 0 <= s < count ensures Represents(p, edges, s) {
      assert Represents(p, u, s);
      forall t: nat ensures Edge(s, t) in u <==> Edge(s, t) in edges {
        assert Edge(s, t) in Elements(u) <==> Edge(s, t) in Elements(edges);
      }
    }
  }

  // ----- The way back -----

  function RowEdges(source: nat, row: seq<nat>): (r: seq<Edge>)
    ensures |r| == |row| && forall i :: 0 <= i < |row| ==> r[i] == Edge(source, row[i])
  {
    seq(|row|, i requires 0 <= i < |row| => Edge(source, row[i]))
  }

  ghost predicate AllSliced(p: Plan, count: nat) { forall s :: 0 <= s < count ==> Sliced(p, s) }

  /** The edges a plan stands for, source by source. */
  ghost function EdgesOf(p: Plan, k: nat): seq<Edge>
    requires AllSliced(p, k)
  {
    if k == 0 then [] else EdgesOf(p, k - 1) + RowEdges(k - 1, TargetsFor(p, k - 1))
  }

  lemma {:induction false} RowMeans(source: nat, row: seq<nat>, e: Edge)
    ensures e in RowEdges(source, row) <==> e.source == source && e.target in row
  {
    var r := RowEdges(source, row);
    if e in r {
      var i :| 0 <= i < |r| && r[i] == e;
      assert row[i] == e.target;
    }
    if e.source == source && e.target in row {
      var i :| 0 <= i < |row| && row[i] == e.target;
      assert r[i] == e;
    }
  }

  lemma {:induction false} EdgesMean(p: Plan, k: nat, e: Edge)
    requires AllSliced(p, k)
    ensures e in EdgesOf(p, k) <==> e.source < k && e.target in TargetsFor(p, e.source)
  {
    hide RowEdges, TargetsFor;
    if k > 0 {
      EdgesMean(p, k - 1, e);
      RowMeans(k - 1, TargetsFor(p, k - 1), e);
    }
  }

  lemma {:induction false} WellFormedSliced(p: Plan, count: nat)
    requires WellFormed(p, count)
    ensures AllSliced(p, count)
  {
    forall s | 0 <= s < count ensures Sliced(p, s) {
      assert RowOk(p, count, s);
    }
  }

  lemma {:induction false} EdgesCount(p: Plan, count: nat, k: nat)
    requires WellFormed(p, count) && k <= count && AllSliced(p, k)
    ensures |EdgesOf(p, k)| == p.offsets[k] <= |p.targets|
  {
    hide RowEdges;
    if k > 0 {
      EdgesCount(p, count, k - 1);
      assert RowOk(p, count, k - 1);
    }
  }

  lemma {:induction false} ElementsSmall(edges: seq<Edge>)
    ensures |Elements(edges)| <= |edges|
  {
    if edges != [] {
      var t, e := edges[..|edges| - 1], edges[|edges| - 1];
      ElementsSmall(t);
      assert edges == t + [e];
      assert Elements(edges) == Elements(t) + {e};
    }
  }

  /** Every plan `validate` accepts is what the generator builds: it is never refused its own edges,
      and any accepted plan representing them is that plan. */
  lemma {:induction false} RoundTrip(p: Plan, q: Plan, count: nat)
    requires WellFormed(p, count)
    ensures AllSliced(p, count)
    ensures InRange(EdgesOf(p, count), count) && |Elements(EdgesOf(p, count))| <= MAX_U32
    ensures WellFormed(q, count) && (forall s :: 0 <= s < count ==> Represents(q, EdgesOf(p, count), s)) ==> p == q
  {
    WellFormedSliced(p, count);
    var edges := EdgesOf(p, count);
    EdgesCount(p, count, count);
    ElementsSmall(edges);
    forall i | 0 <= i < |edges| ensures edges[i].source < count && edges[i].target < count {
      EdgesMean(p, count, edges[i]);
      RowIncreasing(p, count, edges[i].source);
    }
    if WellFormed(q, count) && forall s :: 0 <= s < count ==> Represents(q, edges, s) {
      forall s | 0 <= s < count ensures SameRow(p, q, s) {
        assert Represents(q, edges, s);
        forall t: nat ensures t in TargetsFor(p, s) <==> t in TargetsFor(q, s) {
          EdgesMean(p, count, Edge(s, t));
        }
      }
      PlanUnique(p, q, count);
    }
  }
}
