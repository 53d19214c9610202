/** The worklist pre-pass: limits, and the size of the canonical text. */
module Preflight {
  import opened Wrappers
  import opened Ordering
  import opened Utf
  import opened NumberText
  import opened Json

  datatype Limits = Limits(
    maxInputBytes: nat, maxDepth: nat, maxStructuralWork: nat, maxStringBytes: nat,
    maxTotalStringBytes: nat, maxArrayElements: nat, maxObjectMembers: nat)

  // ----- Measures of a value -----

  function Kids(v: Value): nat {
    if v.Arr? then |v.elements| else if v.Obj? then |v.members| else 0
  }

  function Kid(v: Value, i: nat): (k: Value)
    requires i < Kids(v)
    ensures k < v
  {
    if v.Arr? then v.elements[i] else v.members[i].value
  }

  /** The quoted lengths of the first `k` member names. */
  ghost function NamesSize(ms: seq<Member>, k: nat): nat
    requires k <= |ms|
  {
    if k == 0 then 0 else NamesSize(ms, k - 1) + |Quoted(ms[k - 1].name)|
  }

  ghost function NamesRaw(ms: seq<Member>, k: nat): nat
    requires k <= |ms|
  {
    if k == 0 then 0 else NamesRaw(ms, k - 1) + |ms[k - 1].name|
  }

  /** Bytes a value contributes besides its children: brackets, commas, colons, names, scalars. */
  ghost function OwnSize(v: Value): nat {
    match v
    case Null => 4
    case Bool(b) => if b then 4 else 5
    case Num(n) => if Text(n).Some? then |Text(n).value| else 0
    case Str(s) => |Quoted(s)|
    case Arr(es) => 2 + (if es == [] then 0 else |es| - 1)
    case Obj(ms) => 2 + (if ms == [] then 0 else |ms| - 1 + |ms|) + NamesSize(ms, |ms|)
  }

  ghost function OwnRaw(v: Value): nat {
    if v.Str? then |v.s| else if v.Obj? then NamesRaw(v.members, |v.members|) else 0
  }

  ghost function Size(v: Value): nat
    decreases v, 1, 0
  {
    OwnSize(v) + KidsSize(v, Kids(v))
  }

  ghost function KidsSize(v: Value, k: nat): nat
    requires k <= Kids(v)
    decreases v, 0, k
  {
    if k == 0 then 0 else KidsSize(v, k - 1) + Size(Kid(v, k - 1))
  }

  ghost function Work(v: Value): nat
    decreases v, 1, 0
  {
    1 + KidsWork(v, Kids(v))
  }

  ghost function KidsWork(v: Value, k: nat): nat
    requires k <= Kids(v)
    decreases v, 0, k
  {
    if k == 0 then 0 else KidsWork(v, k - 1) + Work(Kid(v, k - 1))
  }

  ghost function Raw(v: Value): nat
    decreases v, 1, 0
  {
    OwnRaw(v) + KidsRaw(v, Kids(v))
  }

  ghost function KidsRaw(v: Value, k: nat): nat
    requires k <= Kids(v)
    decreases v, 0, k
  {
    if k == 0 then 0 else KidsRaw(v, k - 1) + Raw(Kid(v, k - 1))
  }

  ghost predicate NameOk(l: Limits, s: Bytes) { |s| <= l.maxStringBytes && Utf16(s).Some? }

  /** The limits that concern one value alone. */
  ghost predicate OwnOk(l: Limits, v: Value) {
    match v
    case Num(n) => Text(n).Some?
    case Str(s) => NameOk(l, s)
    case Arr(es) => |es| <= l.maxArrayElements
    case Obj(ms) => |ms| <= l.maxObjectMembers && forall i :: 0 <= i < |ms| ==> NameOk(l, ms[i].name)
    case _ => true
  }

  ghost predicate Fits(l: Limits, v: Value, depth: nat)
    decreases v
  {
    depth <= l.maxDepth && OwnOk(l, v) && forall i :: 0 <= i < Kids(v) ==> Fits(l, Kid(v, i), depth + 1)
  }

  /** What the pre-pass accepts. */
  ghost predicate Admissible(l: Limits, v: Value) {
    && Fits(l, v, 1) && Work(v) <= l.maxStructuralWork
    && Raw(v) <= l.maxTotalStringBytes && Size(v) <= l.maxInputBytes
  }

  // ----- The worklist -----

  datatype Frame = Frame(value: Value, depth: nat)

  ghost function PendingSize(p: seq<Frame>, k: nat): nat
    requires k <= |p|
  {
    if k == 0 then 0 else PendingSize(p, k - 1) + Size(p[k - 1].value)
  }

  ghost function PendingWork(p: seq<Frame>, k: nat): nat
    requires k <= |p|
  {
    if k == 0 then 0 else PendingWork(p, k - 1) + Work(p[k - 1].value)
  }

  ghost function PendingRaw(p: seq<Frame>, k: nat): nat
    requires k <= |p|
  {
    if k == 0 then 0 else PendingRaw(p, k - 1) + Raw(p[k - 1].value)
  }

  ghost predicate AllFit(l: Limits, p: seq<Frame>) {
    forall i :: 0 <= i < |p| ==> Fits(l, p[i].value, p[i].depth)
  }

  lemma {:induction false} PendingAgrees(p: seq<Frame>, q: seq<Frame>, k: nat)
    requires k <= |p| && k <= |q| && forall i :: 0 <= i < k ==> p[i] == q[i]
    ensures PendingSize(p, k) == PendingSize(q, k) && PendingWork(p, k) == PendingWork(q, k) && PendingRaw(p, k) == PendingRaw(q, k)
  {
    hide Size, Work, Raw;
    if k > 0 { PendingAgrees(p, q, k - 1); }
  }

  lemma {:induction false} Pushed(p: seq<Frame>, f: Frame)
    ensures PendingSize(p + [f], |p| + 1) == PendingSize(p, |p|) + Size(f.value)
    ensures PendingWork(p + [f], |p| + 1) == PendingWork(p, |p|) + Work(f.value)
    ensures PendingRaw(p + [f], |p| + 1) == PendingRaw(p, |p|) + Raw(f.value)
  {
    PendingAgrees(p, p + [f], |p|);
  }

  lemma {:induction false} Popped(p: seq<Frame>)
    requires p != []
    ensures PendingSize(p, |p|) == PendingSize(p[..|p| - 1], |p| - 1) + Size(p[|p| - 1].value)
    ensures PendingWork(p, |p|) == PendingWork(p[..|p| - 1], |p| - 1) + Work(p[|p| - 1].value)
    ensures PendingRaw(p, |p|) == PendingRaw(p[..|p| - 1], |p| - 1) + Raw(p[|p| - 1].value)
  {
    PendingAgrees(p, p[..|p| - 1], |p| - 1);
  }

  lemma {:induction false} WorkPositive(p: seq<Frame>, k: nat)
    requires k <= |p|
    ensures PendingWork(p, k) >= k
  {
    if k > 0 { WorkPositive(p, k - 1); }
  }

  // ----- The size of a string -----

  /** `canonicalStringSize`: counts what `writeEscapedString` would write. */
  method CanonicalStringSize(text: Bytes) returns (r: Option<nat>)
    ensures r == if Utf16(text).Some? then Some(|Quoted(text)|) else None
  {
    hide Utf16;
    var units := Utf16Units(text);
    if units.None? {
      return None;
    }
    var size := 2;
    for i := 0 to |text|
      invariant size + |EscapeFrom(text, i)| == |Quoted(text)|
    {
      var byte := text[i];
      if byte == QUOTE || byte == BACKSLASH || byte == 0x08 || byte == 0x09 || byte == 0x0A || byte == 0x0C || byte == 0x0D {
        size := size + 2;
      } else if byte < 0x20 {
        size := size + 6;
      } else {
        size := size + 1;
      }
    }
    return Some(size);
  }

  // ----- The pre-pass object -----

  /** The running totals, together with what is still pending, account for the whole value. */
  ghost predicate Accounts(l: Limits, v: Value, work: nat, raw: nat, bytes: nat, p: seq<Frame>) {
    && work + PendingWork(p, |p|) == Work(v)
    && raw + PendingRaw(p, |p|) == Raw(v)
    && bytes + PendingSize(p, |p|) == Size(v)
    && work <= l.maxStructuralWork && raw <= l.maxTotalStringBytes && bytes <= l.maxInputBytes
    && (Fits(l, v, 1) <==> AllFit(l, p))
  }

  class ConstructedJsonPreflight {
    const limits: Limits
    var pending: seq<Frame>
    var structuralWork: nat
    var totalStringBytes: nat
    var canonicalBytes: nat

    constructor (limits: Limits)
      ensures this.limits == limits && pending == []
      ensures structuralWork == totalStringBytes == canonicalBytes == 0
    {
      this.limits := limits;
      pending := [];
      structuralWork, totalStringBytes, canonicalBytes := 0, 0, 0;
    }

    ghost predicate WithinLimits()
      reads this
    {
      structuralWork <= limits.maxStructuralWork && totalStringBytes <= limits.maxTotalStringBytes
      && canonicalBytes <= limits.maxInputBytes
    }

    method Enter(depth: nat) returns (ok: bool)
      modifies this`structuralWork
      ensures ok <==> depth <= limits.maxDepth && old(structuralWork) + 1 <= limits.maxStructuralWork
      ensures ok ==> structuralWork == old(structuralWork) + 1
    {
      if depth > limits.maxDepth {
        return false;
      }
      structuralWork := structuralWork + 1;
      return structuralWork <= limits.maxStructuralWork;
    }

    method AccountCanonicalBytes(bytes: nat) returns (ok: bool)
      requires canonicalBytes <= limits.maxInputBytes
      modifies this`canonicalBytes
      ensures ok <==> old(canonicalBytes) + bytes <= limits.maxInputBytes
      ensures canonicalBytes == old(canonicalBytes) + (if ok then bytes else 0)
    {
      if bytes > limits.maxInputBytes - canonicalBytes {
        return false;
      }
      canonicalBytes := canonicalBytes + bytes;
      return true;
    }

    method AccountRawString(text: Bytes) returns (ok: bool)
      requires totalStringBytes <= limits.maxTotalStringBytes
      modifies this`totalStringBytes
      ensures ok <==> |text| <= limits.maxStringBytes && old(totalStringBytes) + |text| <= limits.maxTotalStringBytes
      ensures totalStringBytes == old(totalStringBytes) + (if ok then |text| else 0)
    {
      if |text| > limits.maxStringBytes {
        return false;
      }
      if |text| > limits.maxTotalStringBytes - totalStringBytes {
        return false;
      }
      totalStringBytes := totalStringBytes + |text|;
      return true;
    }

    method AccountCanonicalString(text: Bytes) returns (ok: bool)
      requires canonicalBytes <= limits.maxInputBytes
      modifies this`canonicalBytes
      ensures ok <==> Utf16(text).Some? && old(canonicalBytes) + |Quoted(text)| <= limits.maxInputBytes
      ensures canonicalBytes == old(canonicalBytes) + (if ok then |Quoted(text)| else 0)
    {
      var size := CanonicalStringSize(text);
      if size.None? {
        return false;
      }
      ok := AccountCanonicalBytes(size.value);
    }

    /** Accounts for an object's own bytes and pushes its values. */
    method VisitObject(v: Value, depth: nat) returns (ok: bool)
      requires v.Obj? && WithinLimits()
      modifies this`pending, this`totalStringBytes, this`canonicalBytes
      ensures ok <==>
        (OwnOk(limits, v) && old(totalStringBytes) + OwnRaw(v) <= limits.maxTotalStringBytes
          && old(canonicalBytes) + OwnSize(v) <= limits.maxInputBytes)
      ensures ok ==> totalStringBytes == old(totalStringBytes) + OwnRaw(v) && canonicalBytes == old(canonicalBytes) + OwnSize(v)
      ensures ok ==> pending == old(pending) + KidFrames(v, depth, Kids(v))
    {
      hide Utf16, Quoted;
      var ms := v.members;
      if |ms| > limits.maxObjectMembers {
        return false;
      }
      ok := AccountCanonicalBytes(2);
      if !ok {
        return;
      }
      if |ms| > 0 {
        ok := AccountCanonicalBytes(|ms| - 1);
        if !ok {
          return;
        }
        ok := AccountCanonicalBytes(|ms|);
        if !ok {
          return;
        }
      }
      ghost var framing := canonicalBytes;
      for i := 0 to |ms|
        invariant forall j :: 0 <= j < i ==> NameOk(limits, ms[j].name)
        invariant totalStringBytes == old(totalStringBytes) + NamesRaw(ms, i) <= limits.maxTotalStringBytes
        invariant canonicalBytes == framing + NamesSize(ms, i) <= limits.maxInputBytes
        invariant pending == old(pending) + KidFrames(v, depth, i)
      {
        NamesGrow(ms, i + 1, |ms|);
        ok := AccountRawString(ms[i].name);
        if !ok {
          return;
        }
        ok := AccountCanonicalString(ms[i].name);
        if !ok {
          return;
        }
        pending := pending + [Frame(ms[i].value, depth + 1)];
      }
      ok := true;
    }

    /** The body of `drain` for one entered frame. */
    method Visit(v: Value, depth: nat) returns (ok: bool)
      requires WithinLimits()
      modifies this`pending, this`totalStringBytes, this`canonicalBytes
      ensures ok <==>
        (OwnOk(limits, v) && old(totalStringBytes) + OwnRaw(v) <= limits.maxTotalStringBytes
          && old(canonicalBytes) + OwnSize(v) <= limits.maxInputBytes)
      ensures ok ==> totalStringBytes == old(totalStringBytes) + OwnRaw(v) && canonicalBytes == old(canonicalBytes) + OwnSize(v)
      ensures ok ==> pending == old(pending) + KidFrames(v, depth, Kids(v))
    {
      hide Utf16, Quoted, Text, KidFrames;
      assert pending + KidFrames(v, depth, 0) == pending;
      match v
      case Null => ok := AccountCanonicalBytes(4);
      case Bool(b) => ok := AccountCanonicalBytes(if b then 4 else 5);
      case Str(s) =>
        ok := AccountRawString(s);
        if ok {
          ok := AccountCanonicalString(s);
        }
      case Arr(es) =>
        if |es| > limits.maxArrayElements {
          return false;
        }
        ok := AccountCanonicalBytes(2);
        if ok && |es| > 0 {
          ok := AccountCanonicalBytes(|es| - 1);
        }
        if !ok {
          return;
        }
        for i := 0 to |es|
          invariant pending == old(pending) + KidFrames(v, depth, i)
          invariant totalStringBytes == old(totalStringBytes) && canonicalBytes == old(canonicalBytes) + OwnSize(v)
        {
          assert KidFrames(v, depth, i + 1) == KidFrames(v, depth, i) + [Frame(es[i], depth + 1)];
          pending := pending + [Frame(es[i], depth + 1)];
        }
      case Obj(_) => ok := VisitObject(v, depth);
      case Num(n) =>
        if Text(n).None? {
          return false;
        }
        ok := AccountCanonicalBytes(|Text(n).value|);
    }

    method Drain(ghost v: Value) returns (ok: bool)
      requires Accounts(limits, v, structuralWork, totalStringBytes, canonicalBytes, pending)
      modifies this
      ensures ok <==> Admissible(limits, v)
      ensures ok ==> canonicalBytes == Size(v)
    {
      hide Fits, OwnOk, OwnRaw, OwnSize, Work, Raw, Size, PendingWork, PendingRaw, PendingSize, KidFrames, AllFit;
      while pending != []
        invariant Accounts(limits, v, structuralWork, totalStringBytes, canonicalBytes, pending)
        decreases limits.maxStructuralWork - structuralWork
      {
        var frame := pending[|pending| - 1];
        StepBound(limits, v, structuralWork, totalStringBytes, canonicalBytes, pending);
        StepAccounts(limits, v, structuralWork, totalStringBytes, canonicalBytes, pending);
        pending := pending[..|pending| - 1];
        ok := Enter(frame.depth);
        if !ok {
          return;
        }
        ok := Visit(frame.value, frame.depth);
        if !ok {
          return;
        }
      }
      Settled(limits, v, structuralWork, totalStringBytes, canonicalBytes);
      ok := true;
    }

    /** Succeeds with the canonical size exactly on the values within every limit. */
    method Run(v: Value) returns (r: Option<nat>)
      requires pending == [] && structuralWork == totalStringBytes == canonicalBytes == 0
      modifies this
      ensures r == if Admissible(limits, v) then Some(Size(v)) else None
    {
      pending := [Frame(v, 1)];
      Alone(limits, v);
      var ok := Drain(v);
      return if ok then Some(canonicalBytes) else None;
    }

    /** The overload for an object enters and visits it before draining. */
    method RunObject(v: Value) returns (r: Option<nat>)
      requires v.Obj? && pending == [] && structuralWork == totalStringBytes == canonicalBytes == 0
      modifies this
      ensures r == if Admissible(limits, v) then Some(Size(v)) else None
    {
      hide Fits, OwnOk, OwnRaw, OwnSize, Work, Raw, Size, PendingWork, PendingRaw, PendingSize, KidFrames, AllFit;
      Alone(limits, v);
      StepBound(limits, v, 0, 0, 0, [Frame(v, 1)]);
      StepAccounts(limits, v, 0, 0, 0, [Frame(v, 1)]);
      assert [Frame(v, 1)][..0] == [];
      var ok := Enter(1);
      if !ok {
        return None;
      }
      ok := VisitObject(v, 1);
      if !ok {
        return None;
      }
      ok := Drain(v);
      return if ok then Some(canonicalBytes) else None;
    }
  }

  lemma {:induction false} Alone(l: Limits, v: Value)
    ensures Accounts(l, v, 0, 0, 0, [Frame(v, 1)])
  {
    var p := [Frame(v, 1)];
    assert PendingWork(p, 1) == PendingWork(p, 0) + Work(v) && PendingRaw(p, 1) == PendingRaw(p, 0) + Raw(v);
    assert PendingSize(p, 1) == PendingSize(p, 0) + Size(v);
  }

  lemma {:induction false} Settled(l: Limits, v: Value, work: nat, raw: nat, bytes: nat)
    requires Accounts(l, v, work, raw, bytes, [])
    ensures Admissible(l, v) && bytes == Size(v)
  {
  }

  /** What the frame on top still needs never exceeds what the whole value needs. */
  lemma {:induction false} StepBound(l: Limits, v: Value, work: nat, raw: nat, bytes: nat, p: seq<Frame>)
    requires Accounts(l, v, work, raw, bytes, p) && p != []
    ensures var f := p[|p| - 1];
      Admissible(l, v) ==>
        && f.depth <= l.maxDepth && work + 1 <= l.maxStructuralWork && OwnOk(l, f.value)
        && raw + OwnRaw(f.value) <= l.maxTotalStringBytes && bytes + OwnSize(f.value) <= l.maxInputBytes
  {
    var f := p[|p| - 1];
    Popped(p);
    assert AllFit(l, p) ==> Fits(l, f.value, f.depth);
  }

  lemma {:induction false} KidsPending(p: seq<Frame>, v: Value, depth: nat, k: nat)
    requires k <= Kids(v)
    ensures var q := p + KidFrames(v, depth, k);
      && PendingSize(q, |q|) == PendingSize(p, |p|) + KidsSize(v, k)
      && PendingWork(q, |q|) == PendingWork(p, |p|) + KidsWork(v, k)
      && PendingRaw(q, |q|) == PendingRaw(p, |p|) + KidsRaw(v, k)
  {
    hide Size, Work, Raw, PendingSize, PendingWork, PendingRaw, KidFrames;
    if k == 0 {
      assert p + KidFrames(v, depth, 0) == p;
    } else {
      KidsPending(p, v, depth, k - 1);
      var f := Frame(Kid(v, k - 1), depth + 1);
      var q := p + KidFrames(v, depth, k - 1);
      assert p + KidFrames(v, depth, k) == q + [f];
      Pushed(q, f);
    }
  }

  lemma {:induction false} FitsStep(l: Limits, p: seq<Frame>)
    requires p != []
    ensures var f := p[|p| - 1];
      AllFit(l, p) <==>
        (f.depth <= l.maxDepth && OwnOk(l, f.value) && AllFit(l, p[..|p| - 1] + KidFrames(f.value, f.depth, Kids(f.value))))
  {
    var f, rest := p[|p| - 1], p[..|p| - 1];
    var q := rest + KidFrames(f.value, f.depth, Kids(f.value));
    if AllFit(l, p) {
      assert Fits(l, p[|p| - 1].value, p[|p| - 1].depth);
      forall i | 0 <= i < |q| ensures Fits(l, q[i].value, q[i].depth) {
        if i < |rest| { assert q[i] == p[i]; }
      }
    }
    if AllFit(l, q) && f.depth <= l.maxDepth && OwnOk(l, f.value) {
      forall i | 0 <= i < Kids(f.value) ensures Fits(l, Kid(f.value, i), f.depth + 1) {
        assert q[|rest| + i] == Frame(Kid(f.value, i), f.depth + 1);
      }
      forall i | 0 <= i < |p| ensures Fits(l, p[i].value, p[i].depth) {
        if i < |rest| { assert q[i] == p[i]; }
      }
    }
  }

  /** Replacing the top frame by its children, after accounting for its own part, keeps the books. */
  lemma {:induction false} StepAccounts(l: Limits, v: Value, work: nat, raw: nat, bytes: nat, p: seq<Frame>)
    requires Accounts(l, v, work, raw, bytes, p) && p != []
    ensures var f := p[|p| - 1];
      && f.depth <= l.maxDepth && work + 1 <= l.maxStructuralWork && OwnOk(l, f.value)
      && raw + OwnRaw(f.value) <= l.maxTotalStringBytes && bytes + OwnSize(f.value) <= l.maxInputBytes ==>
        Accounts(l, v, work + 1, raw + OwnRaw(f.value), bytes + OwnSize(f.value),
                 p[..|p| - 1] + KidFrames(f.value, f.depth, Kids(f.value)))
  {
    hide OwnOk, OwnRaw, OwnSize, KidFrames, AllFit;
    var f := p[|p| - 1];
    Popped(p);
    KidsPending(p[..|p| - 1], f.value, f.depth, Kids(f.value));
    FitsStep(l, p);
  }

  lemma {:induction false} NamesGrow(ms: seq<Member>, j: nat, k: nat)
    requires j <= k <= |ms|
    ensures NamesRaw(ms, j) <= NamesRaw(ms, k) && NamesSize(ms, j) <= NamesSize(ms, k)
    decreases k
  {
    if j < k { NamesGrow(ms, j, k - 1); }
  }

  /** The frames pushed for the first `k` children. */
  ghost function KidFrames(v: Value, depth: nat, k: nat): (r: seq<Frame>)
    requires k <= Kids(v)
    ensures |r| == k && forall i :: 0 <= i < k ==> r[i] == Frame(Kid(v, i), depth + 1)
  {
    if k == 0 then [] else KidFrames(v, depth, k - 1) + [Frame(Kid(v, k - 1), depth + 1)]
  }

  // ----- The prediction is exact -----

  /** The bytes each placed member takes. */
  ghost function Weight(ps: seq<Printed>): nat {
    if ps == [] then 0 else |Quoted(ps[0].name)| + 1 + |ps[0].text| + Weight(ps[1..])
  }

  lemma {:induction false} InsertWeight(p: Printed, ps: seq<Printed>)
    ensures Weight(Insert(PrintedKey, p, ps)) == |Quoted(p.name)| + 1 + |p.text| + Weight(ps)
  {
    if ps == [] || Less(PrintedKey(p), PrintedKey(ps[0])) {
      assert ([p] + ps)[1..] == ps;
    } else {
      InsertWeight(p, ps[1..]);
      assert ([ps[0]] + Insert(PrintedKey, p, ps[1..]))[1..] == Insert(PrintedKey, p, ps[1..]);
    }
  }

  lemma {:induction false} SortWeight(ps: seq<Printed>)
    ensures Weight(SortBy(PrintedKey, ps)) == Weight(ps)
  {
    if ps != [] {
      SortWeight(ps[1..]);
      InsertWeight(ps[0], SortBy(PrintedKey, ps[1..]));
    }
  }

  lemma {:induction false} WeightSnoc(ps: seq<Printed>, p: Printed)
    ensures Weight(ps + [p]) == Weight(ps) + |Quoted(p.name)| + 1 + |p.text|
  {
    if ps == [] {
      assert [] + [p] == [p] && [p][1..] == [];
    } else {
      WeightSnoc(ps[1..], p);
      assert (ps + [p])[1..] == ps[1..] + [p];
    }
  }

  lemma {:induction false} MembersLength(ps: seq<Printed>, i: nat)
    requires i <= |ps|
    ensures |MembersFrom(ps, i)| == Weight(ps[i..]) + (if i == |ps| then 0 else if i == 0 then |ps| - 1 else |ps| - i)
    decreases |ps| - i
  {
    if i < |ps| {
      MembersLength(ps, i + 1);
      assert ps[i..][1..] == ps[i + 1..];
    }
  }

  /** Whenever a value has canonical text, its predicted size is the length of that text. */
  lemma {:induction false} SizeIsLength(v: Value)
    requires Write(v).Some?
    ensures |Write(v).value| == Size(v)
    decreases v, 1, 0
  {
    if v.Arr? {
      hide Write, ElementsFrom;
      WriteArr(v);
      ElementsLength(v, 0);
      assert KidsSize(v, 0) == 0;
    } else if v.Obj? {
      ObjectLength(v);
    } else {
      ScalarLength(v);
    }
  }

  lemma {:induction false} ScalarLength(v: Value)
    requires Write(v).Some? && !v.Arr? && !v.Obj?
    ensures |Write(v).value| == Size(v)
  {
    hide Quoted, Utf16, Text;
    assert KidsSize(v, 0) == 0;
  }

  lemma {:induction false} ObjectLength(v: Value)
    requires v.Obj? && Write(v).Some?
    ensures |Write(v).value| == Size(v)
    decreases v, 0, |v.members| + 1
  {
    hide Write, Print, MembersFrom, NamesSize, KidsSize, Weight;
    WriteObj(v);
    PrintWeight(v, |v.members|);
    SortWeight(Print(v, |v.members|).value);
    MembersLength(Placed(v), 0);
    assert Placed(v)[0..] == Placed(v);
  }

  lemma {:induction false} ElementsLength(v: Value, i: nat)
    requires v.Arr? && i <= |v.elements| && ElementsFrom(v, i).Some?
    ensures |ElementsFrom(v, i).value| + KidsSize(v, i)
         == KidsSize(v, |v.elements|) + (if i == |v.elements| then 0 else if i == 0 then |v.elements| - 1 else |v.elements| - i)
    decreases v, 0, |v.elements| - i
  {
    if i < |v.elements| {
      ElementsStep(v, i, []);
      SizeIsLength(v.elements[i]);
      ElementsLength(v, i + 1);
      assert KidsSize(v, i + 1) == KidsSize(v, i) + Size(v.elements[i]);
    }
  }

  lemma {:induction false} PrintWeight(v: Value, k: nat)
    requires v.Obj? && k <= |v.members| && Print(v, k).Some?
    ensures Weight(Print(v, k).value) == NamesSize(v.members, k) + k + KidsSize(v, k)
    decreases v, 0, k
  {
    if k > 0 {
      var m := v.members[k - 1];
      PrintWeight(v, k - 1);
      SizeIsLength(m.value);
      WeightSnoc(Print(v, k - 1).value, Printed(m.name, Write(m.value).value));
    }
  }

  /** Everything the pre-pass accepts can be written. */
  lemma {:induction false} FitsMeansWritable(l: Limits, v: Value, depth: nat)
    requires Fits(l, v, depth)
    ensures Write(v).Some?
    decreases v, 1, 0
  {
    if v.Arr? {
      ElementsWritable(l, v, depth, 0);
    } else if v.Obj? {
      PrintWritable(l, v, depth, |v.members|);
    }
  }

  lemma {:induction false} ElementsWritable(l: Limits, v: Value, depth: nat, i: nat)
    requires Fits(l, v, depth) && v.Arr? && i <= |v.elements|
    ensures ElementsFrom(v, i).Some?
    decreases v, 0, |v.elements| - i
  {
    if i < |v.elements| {
      assert Fits(l, Kid(v, i), depth + 1);
      FitsMeansWritable(l, v.elements[i], depth + 1);
      ElementsWritable(l, v, depth, i + 1);
    }
  }

  lemma {:induction false} PrintWritable(l: Limits, v: Value, depth: nat, k: nat)
    requires Fits(l, v, depth) && v.Obj? && k <= |v.members|
    ensures Print(v, k).Some?
    decreases v, 0, k
  {
    if k > 0 {
      assert Fits(l, Kid(v, k - 1), depth + 1) && NameOk(l, v.members[k - 1].name);
      FitsMeansWritable(l, v.members[k - 1].value, depth + 1);
      PrintWritable(l, v, depth, k - 1);
    }
  }

  /** `canonicalizeJson`: after an accepted pre-pass the writer succeeds and fills exactly the
      predicted bytes; a refused one writes nothing. */
  method Canonicalize(limits: Limits, v: Value) returns (r: Option<seq<int>>)
    ensures r.Some? <==> Admissible(limits, v)
    ensures r.Some? ==> r == Write(v) && |r.value| == Size(v) <= limits.maxInputBytes
  {
    var preflight := new ConstructedJsonPreflight(limits);
    var size := preflight.Run(v);
    if size.None? {
      return None;
    }
    FitsMeansWritable(limits, v, 1);
    SizeIsLength(v);
    return Write(v);
  }
}
