/** What the limits on constructed JSON mean, value by value. */
module JsonLimits {
  import opened Wrappers
  import opened Utf
  import opened NumberText
  import opened Json
  import opened Preflight

  /** Every value inside `v`, with its depth. */
  ghost function Nodes(v: Value, depth: nat): seq<Frame>
    decreases v, 1, 0
  {
    [Frame(v, depth)] + KidNodes(v, Kids(v), depth + 1)
  }

  ghost function KidNodes(v: Value, k: nat, depth: nat): seq<Frame>
    requires k <= Kids(v)
    decreases v, 0, k
  {
    if k == 0 then [] else KidNodes(v, k - 1, depth) + Nodes(Kid(v, k - 1), depth)
  }

  /** The strings a value holds itself: its text, or the names of its members. */
  ghost function Texts(v: Value): seq<Bytes> {
    match v
    case Str(s) => [s]
    case Obj(ms) => seq(|ms|, i requires 0 <= i < |ms| => ms[i].name)
    case _ => []
  }

  ghost function Length(texts: seq<Bytes>): nat {
    if texts == [] then 0 else Length(texts[..|texts| - 1]) + |texts[|texts| - 1]|
  }

  /** The bytes of all strings in a list of values. */
  ghost function TextBytes(nodes: seq<Frame>): nat {
    if nodes == [] then 0 else TextBytes(nodes[..|nodes| - 1]) + Length(Texts(nodes[|nodes| - 1].value))
  }

  /** The limits that concern one value, and its depth. */
  ghost predicate WithinOwn(l: Limits, f: Frame) {
    && f.depth <= l.maxDepth
    && (forall i :: 0 <= i < |Texts(f.value)| ==> |Texts(f.value)[i]| <= l.maxStringBytes && Utf8Octets(Texts(f.value)[i]))
    && (f.value.Arr? ==> |f.value.elements| <= l.maxArrayElements)
    && (f.value.Obj? ==> |f.value.members| <= l.maxObjectMembers)
    && (f.value.Num? ==> f.value.n != NonFinite && f.value.n != NegativeZero)
  }

  ghost predicate AllWithin(l: Limits, nodes: seq<Frame>) {
    forall i :: 0 <= i < |nodes| ==> WithinOwn(l, nodes[i])
  }

  lemma {:induction false} AllWithinConcat(l: Limits, a: seq<Frame>, b: seq<Frame>)
    ensures AllWithin(l, a + b) <==> AllWithin(l, a) && AllWithin(l, b)
  {
    hide WithinOwn;
    var c := a + b;
    forall i | 0 <= i < |a| ensures c[i] == a[i] {}
    forall i | 0 <= i < |b| ensures c[|a| + i] == b[i] {}
  }

  lemma {:induction false} TextBytesConcat(a: seq<Frame>, b: seq<Frame>)
    ensures TextBytes(a + b) == TextBytes(a) + TextBytes(b)
    decreases |b|
  {
    if b == [] {
      assert a + b == a;
    } else {
      var c, f := b[..|b| - 1], b[|b| - 1];
      TextBytesConcat(a, c);
      assert (a + b)[..|a + b| - 1] == a + c;
    }
  }

  // ----- The three measures -----

  lemma {:induction false} WorkCounts(v: Value, depth: nat)
    ensures |Nodes(v, depth)| == Work(v)
    decreases v, 1, 0
  {
    WorkCountsKids(v, Kids(v), depth + 1);
  }

  lemma {:induction false} WorkCountsKids(v: Value, k: nat, depth: nat)
    requires k <= Kids(v)
    ensures |KidNodes(v, k, depth)| == KidsWork(v, k)
    decreases v, 0, k
  {
    if k > 0 {
      WorkCountsKids(v, k - 1, depth);
      WorkCounts(Kid(v, k - 1), depth);
    }
  }

  lemma {:induction false} NamesCount(ms: seq<Member>, k: nat, texts: seq<Bytes>)
    requires k <= |ms| && |texts| == k && forall i :: 0 <= i < k ==> texts[i] == ms[i].name
    ensures Length(texts) == NamesRaw(ms, k)
  {
    if k > 0 { NamesCount(ms, k - 1, texts[..k - 1]); }
  }

  lemma {:induction false} OwnRawCounts(v: Value)
    ensures Length(Texts(v)) == OwnRaw(v)
  {
    if v.Obj? {
      NamesCount(v.members, |v.members|, Texts(v));
    } else if v.Str? {
      assert Texts(v)[..0] == [];
    }
  }

  lemma {:induction false} OneNode(f: Frame)
    ensures TextBytes([f]) == Length(Texts(f.value))
  {
    assert [f][..0] == [];
  }

  lemma {:induction false} NoTexts()
    ensures TextBytes([]) == 0
  {
  }

  lemma {:induction false} RawCounts(v: Value, depth: nat)
    ensures TextBytes(Nodes(v, depth)) == Raw(v)
    decreases v, 1, 0
  {
    hide TextBytes, Texts, Length;
    RawCountsKids(v, Kids(v), depth + 1);
    OwnRawCounts(v);
    OneNode(Frame(v, depth));
    TextBytesConcat([Frame(v, depth)], KidNodes(v, Kids(v), depth + 1));
  }

  lemma {:induction false} RawCountsKids(v: Value, k: nat, depth: nat)
    requires k <= Kids(v)
    ensures TextBytes(KidNodes(v, k, depth)) == KidsRaw(v, k)
    decreases v, 0, k
  {
    hide TextBytes, Kid, Texts;
    NoTexts();
    if k > 0 {
      RawCountsKids(v, k - 1, depth);
      RawCounts(Kid(v, k - 1), depth);
      TextBytesConcat(KidNodes(v, k - 1, depth), Nodes(Kid(v, k - 1), depth));
    }
  }

  lemma {:induction false} OwnMeans(l: Limits, f: Frame)
    ensures WithinOwn(l, f) <==> f.depth <= l.maxDepth && OwnOk(l, f.value)
  {
    hide Utf16, Utf8Octets;
    match f.value
    case Str(s) => AcceptsExactly(s); assert Texts(f.value)[0] == s;
    case Obj(ms) =>
      forall i | 0 <= i < |ms| ensures Utf16(ms[i].name).Some? <==> Utf8Octets(Texts(f.value)[i]) { AcceptsExactly(ms[i].name); }
    case _ =>
  }

  lemma {:induction false} FitsMeans(l: Limits, v: Value, depth: nat)
    ensures Fits(l, v, depth) <==> AllWithin(l, Nodes(v, depth))
    decreases v, 1, 0
  {
    hide WithinOwn, OwnOk;
    OwnMeans(l, Frame(v, depth));
    FitsMeansKids(l, v, Kids(v), depth + 1);
    AllWithinConcat(l, [Frame(v, depth)], KidNodes(v, Kids(v), depth + 1));
    assert AllWithin(l, [Frame(v, depth)]) <==> WithinOwn(l, [Frame(v, depth)][0]);
  }

  lemma {:induction false} FitsMeansKids(l: Limits, v: Value, k: nat, depth: nat)
    requires k <= Kids(v)
    ensures AllWithin(l, KidNodes(v, k, depth)) <==> forall i :: 0 <= i < k ==> Fits(l, Kid(v, i), depth)
    decreases v, 0, k
  {
    hide WithinOwn, OwnOk, Kid;
    if k > 0 {
      FitsMeansKids(l, v, k - 1, depth);
      FitsMeans(l, Kid(v, k - 1), depth);
      AllWithinConcat(l, KidNodes(v, k - 1, depth), Nodes(Kid(v, k - 1), depth));
    }
  }

  /** What the pre-pass accepts, without its measures: every value inside is within the limits that
      concern it alone, there are not too many values nor too many bytes of strings, and the canonical
      text is not too long. */
  lemma {:induction false} AdmissibleExactly(l: Limits, v: Value)
    ensures Admissible(l, v) <==>
      (AllWithin(l, Nodes(v, 1)) && |Nodes(v, 1)| <= l.maxStructuralWork && TextBytes(Nodes(v, 1)) <= l.maxTotalStringBytes
       && Write(v).Some? && |Write(v).value| <= l.maxInputBytes)
  {
    hide Nodes, AllWithin, Write, TextBytes, Work, Raw, Size, Fits;
    FitsMeans(l, v, 1);
    WorkCounts(v, 1);
    RawCounts(v, 1);
    if Fits(l, v, 1) { FitsMeansWritable(l, v, 1); }
    if Write(v).Some? { SizeIsLength(v); }
  }
}
