/** Every comparison in the modelled code (`std::tie` tuples, byte strings, UTF-16 code units) is
    lexicographic, so all of them are one order on integer sequences. Sorting is a library call in
    the source; here it is an insertion sort, and `SortedUnique` says that whatever algorithm sorts
    elements with distinct keys, the result is this one. */
module Ordering {

  type Key = seq<int>

  /** `std::lexicographical_compare` on two keys. */
  predicate Less(a: Key, b: Key) {
    |b| > 0 && (|a| == 0 || a[0] < b[0] || (a[0] == b[0] && Less(a[1..], b[1..])))
  }

  /** The two keys agree before position `k`, where the first ends or is smaller. */
  ghost predicate DiffersAt(a: Key, b: Key, k: nat) {
    k <= |a| && k < |b| && (forall i :: 0 <= i < k ==> a[i] == b[i]) && (k == |a| || a[k] < b[k])
  }

  /** The order is lexicographic: decided at the first difference, with a proper prefix first. */
  lemma {:induction false} LessExactly(a: Key, b: Key)
    ensures Less(a, b) <==> exists k :: DiffersAt(a, b, k)
  {
    if Less(a, b) {
      var k := FirstDifference(a, b);
    }
    forall k | DiffersAt(a, b, k) ensures Less(a, b) { DifferenceDecides(a, b, k); }
  }

  lemma {:induction false} FirstDifference(a: Key, b: Key) returns (k: nat)
    requires Less(a, b)
    ensures DiffersAt(a, b, k)
  {
    if a == [] || a[0] < b[0] {
      k := 0;
    } else {
      k := FirstDifference(a[1..], b[1..]);
      k := k + 1;
      forall i | 0 <= i < k ensures a[i] == b[i] {
        if i > 0 { assert a[1..][i - 1] == b[1..][i - 1]; }
      }
    }
  }

  lemma {:induction false} DifferenceDecides(a: Key, b: Key, k: nat)
    requires DiffersAt(a, b, k)
    ensures Less(a, b)
    decreases k
  {
    if k > 0 {
      assert DiffersAt(a[1..], b[1..], k - 1);
      DifferenceDecides(a[1..], b[1..], k - 1);
    }
  }

  lemma {:induction false} LessFirst(x: int, a: Key, y: int, b: Key)
    ensures Less([x] + a, [y] + b) <==> x < y || (x == y && Less(a, b))
  {
    assert ([x] + a)[1..] == a && ([y] + b)[1..] == b;
  }

  lemma {:induction false} LessIrreflexive(a: Key)
    ensures !Less(a, a)
  {
    if |a| > 0 { LessIrreflexive(a[1..]); }
  }

  lemma {:induction false} LessTransitive(a: Key, b: Key, c: Key)
    requires Less(a, b) && Less(b, c)
    ensures Less(a, c)
  {
    if |a| > 0 && a[0] == b[0] && b[0] == c[0] {
      LessTransitive(a[1..], b[1..], c[1..]);
    }
  }

  lemma {:induction false} LessTotal(a: Key, b: Key)
    ensures a == b || Less(a, b) || Less(b, a)
  {
    if |a| > 0 && |b| > 0 && a[0] == b[0] {
      LessTotal(a[1..], b[1..]);
      assert a[1..] == b[1..] ==> [a[0]] + a[1..] == [b[0]] + b[1..];
    }
  }

  lemma {:induction false} LessAsymmetric(a: Key, b: Key)
    requires Less(a, b)
    ensures !Less(b, a)
  {
    if Less(b, a) {
      LessTransitive(a, b, a);
      LessIrreflexive(a);
    }
  }

  /** `!Less(c, a)` and `!Less(b, c)` compose: the non-strict order is transitive. */
  lemma {:induction false} NotLessTransitive(a: Key, b: Key, c: Key)
    requires !Less(b, a) && !Less(c, b)
    ensures !Less(c, a)
  {
    if Less(c, a) {
      LessTotal(a, b);
      if Less(a, b) { LessTransitive(c, a, b); }
    }
  }

  ghost predicate Sorted<T>(key: T -> Key, s: seq<T>) {
    forall i, j :: 0 <= i < j < |s| ==> !Less(key(s[j]), key(s[i]))
  }

  ghost predicate StrictlySorted<T>(key: T -> Key, s: seq<T>) {
    forall i, j :: 0 <= i < j < |s| ==> Less(key(s[i]), key(s[j]))
  }

  ghost predicate DistinctKeys<T>(key: T -> Key, s: seq<T>) {
    forall i, j :: 0 <= i < j < |s| ==> key(s[i]) != key(s[j])
  }

  function Insert<T>(key: T -> Key, x: T, s: seq<T>): (r: seq<T>)
    ensures multiset(r) == multiset{x} + multiset(s)
    ensures |r| == |s| + 1
  {
    if s == [] || Less(key(x), key(s[0])) then
      [x] + s
    else
      assert s == [s[0]] + s[1..];
      [s[0]] + Insert(key, x, s[1..])
  }

  function SortBy<T>(key: T -> Key, s: seq<T>): (r: seq<T>)
    ensures multiset(r) == multiset(s)
    ensures |r| == |s|
  {
    if s == [] then [] else
      assert s == [s[0]] + s[1..];
      Insert(key, s[0], SortBy(key, s[1..]))
  }

  lemma {:induction false} InsertSorted<T>(key: T -> Key, x: T, s: seq<T>)
    requires Sorted(key, s)
    ensures Sorted(key, Insert(key, x, s))
  {
    if s == [] {
    } else if Less(key(x), key(s[0])) {
      LessAsymmetric(key(x), key(s[0]));
      forall j | 0 <= j < |s| ensures !Less(key(s[j]), key(x)) {
        if j > 0 { NotLessTransitive(key(x), key(s[0]), key(s[j])); }
      }
    } else {
      InsertSorted(key, x, s[1..]);
      var t := Insert(key, x, s[1..]);
      forall j | 0 <= j < |t| ensures !Less(key(t[j]), key(s[0])) {
        assert t[j] in multiset(t);
        if t[j] != x {
          assert t[j] in s[1..];
        }
      }
    }
  }

  lemma {:induction false} SortBySorted<T>(key: T -> Key, s: seq<T>)
    ensures Sorted(key, SortBy(key, s))
  {
    if s != [] {
      SortBySorted(key, s[1..]);
      InsertSorted(key, s[0], SortBy(key, s[1..]));
    }
  }

  /** Distinct keys stay distinct under permutation. */
  lemma {:induction false} DistinctKeysPermuted<T>(key: T -> Key, s: seq<T>, t: seq<T>)
    requires DistinctKeys(key, s) && multiset(s) == multiset(t)
    ensures DistinctKeys(key, t)
  {
    forall i, j | 0 <= i < j < |t| ensures key(t[i]) != key(t[j]) {
      if key(t[i]) == key(t[j]) {
        assert t[i] in multiset(t) && t[j] in multiset(t);
        var k :| 0 <= k < |s| && s[k] == t[i];
        var l :| 0 <= l < |s| && s[l] == t[j];
        assert k == l;
        CountTwice(t, i, j);
        CountOnce(key, s, k);
        assert false;
      }
    }
  }

  lemma {:induction false} CountTwice<T>(t: seq<T>, i: nat, j: nat)
    requires i < j < |t| && t[i] == t[j]
    ensures multiset(t)[t[i]] >= 2
  {
    assert t == t[..i] + [t[i]] + t[i + 1..j] + [t[j]] + t[j + 1..];
  }

  lemma {:induction false} CountOnce<T>(key: T -> Key, s: seq<T>, k: nat)
    requires k < |s| && DistinctKeys(key, s)
    ensures multiset(s)[s[k]] == 1
  {
    assert s == s[..k] + [s[k]] + s[k + 1..];
    assert s[k] !in s[..k] && s[k] !in s[k + 1..];
  }

  lemma {:induction false} SortByStrict<T>(key: T -> Key, s: seq<T>)
    requires DistinctKeys(key, s)
    ensures StrictlySorted(key, SortBy(key, s))
  {
    SortBySorted(key, s);
    var r := SortBy(key, s);
    DistinctKeysPermuted(key, s, r);
    forall i, j | 0 <= i < j < |r| ensures Less(key(r[i]), key(r[j])) {
      LessTotal(key(r[i]), key(r[j]));
    }
  }

  lemma {:induction false} StrictIsSorted<T>(key: T -> Key, s: seq<T>)
    requires StrictlySorted(key, s)
    ensures Sorted(key, s) && DistinctKeys(key, s)
  {
    forall i, j | 0 <= i < j < |s| ensures !Less(key(s[j]), key(s[i])) && key(s[i]) != key(s[j]) {
      LessAsymmetric(key(s[i]), key(s[j]));
      LessIrreflexive(key(s[i]));
    }
  }

  lemma {:induction false} InsertStrict<T>(key: T -> Key, p: T, rest: seq<T>)
    requires StrictlySorted(key, rest) && forall i :: 0 <= i < |rest| ==> key(rest[i]) != key(p)
    ensures StrictlySorted(key, Insert(key, p, rest))
  {
    var r := Insert(key, p, rest);
    StrictIsSorted(key, rest);
    InsertSorted(key, p, rest);
    DistinctKeysPermuted(key, [p] + rest, r);
    forall i, j | 0 <= i < j < |r| ensures Less(key(r[i]), key(r[j])) {
      LessTotal(key(r[i]), key(r[j]));
    }
  }

  /** Strictly sorted arrangements of one multiset start alike. */
  lemma {:induction false} SortedHeads<T>(key: T -> Key, a: seq<T>, b: seq<T>)
    requires StrictlySorted(key, a) && StrictlySorted(key, b)
    requires multiset(a) == multiset(b) && |a| > 0 && |b| > 0
    ensures a[0] == b[0]
  {
    assert a[0] in multiset(b) && b[0] in multiset(a);
    var k :| 0 <= k < |b| && b[k] == a[0];
    var j :| 0 <= j < |a| && a[j] == b[0];
    if k > 0 && j > 0 { LessAsymmetric(key(b[0]), key(a[0])); }
  }

  lemma {:induction false} MultisetTail<T>(a: seq<T>, b: seq<T>)
    requires multiset(a) == multiset(b) && |a| > 0 && |b| > 0 && a[0] == b[0]
    ensures multiset(a[1..]) == multiset(b[1..])
  {
    assert a == [a[0]] + a[1..] && b == [b[0]] + b[1..];
    assert multiset(a[1..]) == multiset(a) - multiset{a[0]};
    assert multiset(b[1..]) == multiset(b) - multiset{b[0]};
  }

  /** A strictly sorted arrangement of a multiset is the only one. */
  lemma {:induction false} SortedUnique<T>(key: T -> Key, a: seq<T>, b: seq<T>)
    requires StrictlySorted(key, a) && StrictlySorted(key, b)
    requires multiset(a) == multiset(b)
    ensures a == b
  {
    assert |multiset(a)| == |a| && |multiset(b)| == |b|;
    if |a| > 0 {
      SortedHeads(key, a, b);
      MultisetTail(a, b);
      SortedUnique(key, a[1..], b[1..]);
      assert a == [a[0]] + a[1..] && b == [b[0]] + b[1..];
    }
  }

  /** Sorting forgets the order in which elements with distinct keys were supplied. */
  lemma {:induction false} SortByPermuted<T>(key: T -> Key, s: seq<T>, t: seq<T>)
    requires DistinctKeys(key, s) && multiset(s) == multiset(t)
    ensures SortBy(key, s) == SortBy(key, t)
  {
    DistinctKeysPermuted(key, s, t);
    SortByStrict(key, s);
    SortByStrict(key, t);
    SortedUnique(key, SortBy(key, s), SortBy(key, t));
  }
}
