/** The canonical JSON writer of RFC 8785, and what its bytes determine. */
module Json {
  import opened Wrappers
  import opened Ordering
  import opened Utf
  import opened NumberText

  /** A JSON value. An object's members are listed in the arbitrary order of the underlying hash map. */
  datatype Value =
    | Null
    | Bool(b: bool)
    | Num(n: Number)
    | Str(s: Bytes)
    | Arr(elements: seq<Value>)
    | Obj(members: seq<Member>)

  datatype Member = Member(name: Bytes, value: Value)

  /** Map keys are distinct, and numbers are given by their shortest digits. */
  ghost predicate WellFormed(v: Value) {
    match v
    case Num(n) => n.Shortest()
    case Arr(es) => forall i :: 0 <= i < |es| ==> WellFormed(es[i])
    case Obj(ms) =>
      && (forall i :: 0 <= i < |ms| ==> WellFormed(ms[i].value))
      && (forall i, j :: 0 <= i < j < |ms| ==> ms[i].name != ms[j].name)
    case _ => true
  }

  /** Equal up to the order of object members, at every depth. */
  ghost predicate Equivalent(a: Value, b: Value)
    decreases a, 2
  {
    match (a, b)
    case (Null, Null) => true
    case (Bool(x), Bool(y)) => x == y
    case (Num(m), Num(n)) => m == n
    case (Str(s), Str(t)) => s == t
    case (Arr(x), Arr(y)) => |x| == |y| && forall i :: 0 <= i < |x| ==> Equivalent(x[i], y[i])
    case (Obj(x), Obj(y)) =>
      (forall i :: 0 <= i < |x| ==> HasRight(a, i, b)) && (forall j :: 0 <= j < |y| ==> HasLeft(a, b, j))
    case _ => false
  }

  /** Members `i` of `a` and `j` of `b` have the same name and equivalent values. */
  ghost predicate Paired(a: Value, i: nat, b: Value, j: nat)
    requires a.Obj? && b.Obj?
    decreases a, 0
  {
    i < |a.members| && j < |b.members| && a.members[i].name == b.members[j].name
    && Equivalent(a.members[i].value, b.members[j].value)
  }

  ghost predicate HasRight(a: Value, i: nat, b: Value)
    requires a.Obj? && b.Obj?
    decreases a, 1
  {
    exists j :: Paired(a, i, b, j)
  }

  ghost predicate HasLeft(a: Value, b: Value, j: nat)
    requires a.Obj? && b.Obj?
    decreases a, 1
  {
    exists i :: Paired(a, i, b, j)
  }

  // ----- Strings -----

  const QUOTE := 0x22
  const BACKSLASH := 0x5C

  function Hex(d: nat): int
    requires d < 16
  {
    if d < 10 then 0x30 + d else 0x61 + d - 10
  }

  function EscapeByte(b: Byte): seq<int> {
    if b == QUOTE || b == BACKSLASH then [BACKSLASH, b]
    else if b == 0x08 then [BACKSLASH, 0x62]
    else if b == 0x09 then [BACKSLASH, 0x74]
    else if b == 0x0A then [BACKSLASH, 0x6E]
    else if b == 0x0C then [BACKSLASH, 0x66]
    else if b == 0x0D then [BACKSLASH, 0x72]
    else if b < 0x20 then [BACKSLASH, 0x75, 0x30, 0x30, Hex(b / 16), Hex(b % 16)]
    else [b]
  }

  /** The escaped text of `s` from index `i` on. */
  function EscapeFrom(s: Bytes, i: nat): seq<int>
    requires i <= |s|
    decreases |s| - i
  {
    if i == |s| then [] else EscapeByte(s[i]) + EscapeFrom(s, i + 1)
  }

  function Quoted(s: Bytes): seq<int> { [QUOTE] + EscapeFrom(s, 0) + [QUOTE] }

  /** `writeEscapedString`: nothing is written for a string that is not UTF-8. */
  method WriteEscapedString(text: Bytes) returns (r: Option<seq<int>>)
    ensures r == if Utf16(text).Some? then Some(Quoted(text)) else None
  {
    hide EscapeFrom, Utf16;
    var units := Utf16Units(text);
    if units.None? {
      return None;
    }
    var output := [QUOTE];
    for i := 0 to |text|
      invariant output + EscapeFrom(text, i) == [QUOTE] + EscapeFrom(text, 0)
    {
      EscapeStep(text, i, output);
      ghost var before := output;
      var byte := text[i];
      if byte == QUOTE || byte == BACKSLASH { output := output + [BACKSLASH, byte]; }
      else if byte == 0x08 { output := output + [BACKSLASH, 0x62]; }
      else if byte == 0x09 { output := output + [BACKSLASH, 0x74]; }
      else if byte == 0x0A { output := output + [BACKSLASH, 0x6E]; }
      else if byte == 0x0C { output := output + [BACKSLASH, 0x66]; }
      else if byte == 0x0D { output := output + [BACKSLASH, 0x72]; }
      else if byte < 0x20 { output := output + [BACKSLASH, 0x75, 0x30, 0x30, Hex(byte / 16), Hex(byte % 16)]; }
      else { output := output + [byte]; }
      assert output == before + EscapeByte(byte);
    }
    EscapeEnd(text, output);
    return Some(output + [QUOTE]);
  }

  lemma {:induction false} EscapeStep(s: Bytes, i: nat, output: seq<int>)
    requires i < |s|
    ensures output + EscapeByte(s[i]) + EscapeFrom(s, i + 1) == output + EscapeFrom(s, i)
  {
  }

  lemma {:induction false} EscapeEnd(s: Bytes, output: seq<int>)
    ensures output + EscapeFrom(s, |s|) == output
  {
  }

  /** Escapes form a prefix code, and none of them starts with the closing quote. */
  lemma {:induction false} EscapePrefix(b: Byte, c: Byte, x: seq<int>, y: seq<int>)
    requires EscapeByte(b) + x == EscapeByte(c) + y
    ensures b == c && x == y
  {
    var p, q := EscapeByte(b), EscapeByte(c);
    assert (p + x)[0] == p[0] && (q + y)[0] == q[0];
    if p[0] == BACKSLASH {
      assert (p + x)[1] == p[1] && (q + y)[1] == q[1];
      if p[1] == 0x75 {
        assert (p + x)[4] == p[4] && (q + y)[4] == q[4];
        assert (p + x)[5] == p[5] && (q + y)[5] == q[5];
      }
    }
    assert b == c;
    assert x == (p + x)[|p|..] && y == (q + y)[|q|..];
  }

  /** The rest of a string either closes it or goes on with an escape, which never looks like the close. */
  lemma {:induction false} EscapeRest(s: Bytes, i: nat, x: seq<int>)
    requires i <= |s|
    ensures i == |s| ==> EscapeFrom(s, i) + [QUOTE] + x == [QUOTE] + x
    ensures i < |s| ==> (EscapeFrom(s, i) + [QUOTE] + x)[0] != QUOTE
    ensures i < |s| ==> EscapeFrom(s, i) + [QUOTE] + x == EscapeByte(s[i]) + (EscapeFrom(s, i + 1) + [QUOTE] + x)
  {
    if i < |s| { Reassociate(EscapeByte(s[i]), EscapeFrom(s, i + 1), [QUOTE], x); }
  }

  lemma {:induction false} Reassociate(a: seq<int>, b: seq<int>, c: seq<int>, d: seq<int>)
    ensures (a + b) + c + d == a + (b + c + d)
  {
  }

  /** The escaping of a string can be undone: its text says where it ends and what it was. */
  lemma {:induction false} EscapeUnique(s: Bytes, i: nat, t: Bytes, j: nat, x: seq<int>, y: seq<int>)
    requires i <= |s| && j <= |t|
    requires EscapeFrom(s, i) + [QUOTE] + x == EscapeFrom(t, j) + [QUOTE] + y
    ensures s[i..] == t[j..] && x == y
    decreases |s| - i
  {
    hide EscapeFrom, EscapeByte;
    EscapeRest(s, i, x);
    EscapeRest(t, j, y);
    if i == |s| || j == |t| {
      assert ([QUOTE] + x)[0] == QUOTE && ([QUOTE] + y)[0] == QUOTE;
      assert x == ([QUOTE] + x)[1..] && y == ([QUOTE] + y)[1..];
    } else {
      EscapePrefix(s[i], t[j], EscapeFrom(s, i + 1) + [QUOTE] + x, EscapeFrom(t, j + 1) + [QUOTE] + y);
      EscapeUnique(s, i + 1, t, j + 1, x, y);
      assert s[i..] == [s[i]] + s[i + 1..] && t[j..] == [t[j]] + t[j + 1..];
    }
  }

  lemma {:induction false} QuotedUnique(s: Bytes, t: Bytes, x: seq<int>, y: seq<int>)
    requires Quoted(s) + x == Quoted(t) + y
    ensures s == t && x == y
  {
    var l, r := EscapeFrom(s, 0) + [QUOTE] + x, EscapeFrom(t, 0) + [QUOTE] + y;
    assert l == (Quoted(s) + x)[1..] && r == (Quoted(t) + y)[1..];
    EscapeUnique(s, 0, t, 0, x, y);
    assert s[0..] == s && t[0..] == t;
  }

  // ----- The writer -----

  const COMMA := 0x2C
  const COLON := 0x3A

  /** A member ready to be placed: its name and the text of its value. */
  datatype Printed = Printed(name: Bytes, text: seq<int>)

  /** Members are placed by the UTF-16 code units of their names. */
  function PrintedKey(p: Printed): Key { if Utf16(p.name).Some? then Utf16(p.name).value else [] }

  function Separator(i: nat): seq<int> { if i > 0 then [COMMA] else [] }

  function MembersFrom(ps: seq<Printed>, i: nat): seq<int>
    requires i <= |ps|
    decreases |ps| - i
  {
    if i == |ps| then []
    else Separator(i) + Quoted(ps[i].name) + [COLON] + ps[i].text + MembersFrom(ps, i + 1)
  }

  /** `writeCanonical`: the text of a value, or `None` when any part of it cannot be canonical. */
  function Write(v: Value): Option<seq<int>>
    decreases v, 1, 0
  {
    match v
    case Null => Some([0x6E, 0x75, 0x6C, 0x6C])
    case Bool(b) => Some(if b then [0x74, 0x72, 0x75, 0x65] else [0x66, 0x61, 0x6C, 0x73, 0x65])
    case Num(n) => Text(n)
    case Str(s) => if Utf16(s).Some? then Some(Quoted(s)) else None
    case Arr(es) =>
      (match ElementsFrom(v, 0)
       case None => None
       case Some(body) => Some([0x5B] + body + [0x5D]))
    case Obj(ms) =>
      match Print(v, |ms|)
      case None => None
      case Some(ps) => Some([0x7B] + MembersFrom(SortBy(PrintedKey, ps), 0) + [0x7D])
  }

  function ElementsFrom(v: Value, i: nat): Option<seq<int>>
    requires v.Arr? && i <= |v.elements|
    decreases v, 0, |v.elements| - i
  {
    if i == |v.elements| then Some([]) else
    match (Write(v.elements[i]), ElementsFrom(v, i + 1))
    case (Some(text), Some(rest)) => Some(Separator(i) + text + rest)
    case _ => None
  }

  /** The first `k` members, printed, in the order they are listed. */
  function Print(v: Value, k: nat): (r: Option<seq<Printed>>)
    requires v.Obj? && k <= |v.members|
    ensures r.Some? ==> |r.value| == k
    decreases v, 0, k
  {
    if k == 0 then Some([]) else
    var m := v.members[k - 1];
    match (Print(v, k - 1), Utf16(m.name), Write(m.value))
    case (Some(ps), Some(_), Some(text)) => Some(ps + [Printed(m.name, text)])
    case _ => None
  }

  // ----- Shape of the text -----

  predicate Opens(v: Value, b: int) {
    match v
    case Null => b == 0x6E
    case Bool(t) => b == if t then 0x74 else 0x66
    case Num(_) => b == MINUS || ZERO <= b <= ZERO + 9
    case Str(_) => b == QUOTE
    case Arr(_) => b == 0x5B
    case Obj(_) => b == 0x7B
  }

  lemma {:induction false} FirstByte(v: Value)
    requires WellFormed(v) && Write(v).Some?
    ensures Write(v).value != [] && Opens(v, Write(v).value[0])
  {
    if v.Num? { TextShape(v.n); }
  }

  /** What may follow a value: nothing, a separator or a closing bracket. */
  predicate Delimited(x: seq<int>) { x == [] || x[0] == COMMA || x[0] == 0x5D || x[0] == 0x7D }

  lemma {:induction false} NumberUnique(m: Number, n: Number, x: seq<int>, y: seq<int>)
    requires m.Shortest() && n.Shortest() && Text(m).Some? && Text(n).Some?
    requires Text(m).value + x == Text(n).value + y && Delimited(x) && Delimited(y)
    ensures m == n && x == y
  {
    TextShape(m);
    TextShape(n);
    var s, t := Text(m).value, Text(n).value;
    Overrun(s, t, x, y);
    Overrun(t, s, y, x);
    assert s == (s + x)[..|s|] && t == (t + y)[..|t|];
    assert x == (s + x)[|s|..] && y == (t + y)[|t|..];
    TextInjective(m, n);
  }

  // ----- Printed members -----

  ghost predicate From(v: Value, p: Printed, i: nat)
    requires v.Obj?
  {
    i < |v.members| && p.name == v.members[i].name && Write(v.members[i].value) == Some(p.text) && Utf16(p.name).Some?
  }

  ghost predicate Unprintable(v: Value, i: nat)
    requires v.Obj? && i < |v.members|
  {
    Utf16(v.members[i].name).None? || Write(v.members[i].value).None?
  }

  lemma {:induction false} PrintFrom(v: Value, k: nat)
    requires v.Obj? && k <= |v.members|
    ensures Print(v, k).Some? ==> forall i :: 0 <= i < k ==> From(v, Print(v, k).value[i], i)
    ensures Print(v, k).None? <==> exists i :: 0 <= i < k && Unprintable(v, i)
  {
    if k > 0 {
      hide Write, Utf16;
      PrintFrom(v, k - 1);
      assert Unprintable(v, k - 1) <==> (Utf16(v.members[k - 1].name).None? || Write(v.members[k - 1].value).None?);
    }
  }

  /** The members in the order they are written. */
  function Placed(v: Value): (ps: seq<Printed>)
    requires v.Obj? && Print(v, |v.members|).Some?
    ensures |ps| == |v.members|
  {
    SortBy(PrintedKey, Print(v, |v.members|).value)
  }

  /** Every placed member comes from a listed one. */
  lemma {:induction false} SourceOf(v: Value, k: nat) returns (i: nat)
    requires v.Obj? && Print(v, |v.members|).Some? && k < |v.members|
    ensures From(v, Placed(v)[k], i)
  {
    hide Write, From;
    var listed := Print(v, |v.members|).value;
    PrintFrom(v, |v.members|);
    assert Placed(v)[k] in multiset(Placed(v)) && Placed(v)[k] in listed;
    i :| 0 <= i < |listed| && listed[i] == Placed(v)[k];
  }

  /** Every listed member is placed somewhere. */
  lemma {:induction false} PlaceOf(v: Value, i: nat) returns (k: nat)
    requires v.Obj? && Print(v, |v.members|).Some? && i < |v.members|
    ensures k < |v.members| && From(v, Placed(v)[k], i)
  {
    hide Write, From;
    var listed := Print(v, |v.members|).value;
    PrintFrom(v, |v.members|);
    assert listed[i] in multiset(listed) && listed[i] in Placed(v);
    k :| 0 <= k < |Placed(v)| && Placed(v)[k] == listed[i];
  }

  lemma {:induction false} PrintedDistinct(v: Value)
    requires v.Obj? && WellFormed(v) && Print(v, |v.members|).Some?
    ensures DistinctKeys(PrintedKey, Print(v, |v.members|).value)
  {
    var ps := Print(v, |v.members|).value;
    PrintFrom(v, |v.members|);
    forall i, j | 0 <= i < j < |ps| ensures PrintedKey(ps[i]) != PrintedKey(ps[j]) {
      assert From(v, ps[i], i) && From(v, ps[j], j);
      if PrintedKey(ps[i]) == PrintedKey(ps[j]) {
        Utf16Injective(ps[i].name, ps[j].name);
      }
    }
  }

  // ----- Unfolding, one step at a time -----

  lemma {:induction false} WriteArr(v: Value)
    requires v.Arr? && Write(v).Some?
    ensures ElementsFrom(v, 0).Some? && Write(v).value == [0x5B] + ElementsFrom(v, 0).value + [0x5D]
  {
  }

  lemma {:induction false} WriteObj(v: Value)
    requires v.Obj? && Write(v).Some?
    ensures Print(v, |v.members|).Some? && Write(v).value == [0x7B] + MembersFrom(Placed(v), 0) + [0x7D]
  {
  }

  lemma {:induction false} Regroup(a: seq<int>, b: seq<int>, c: seq<int>, d: seq<int>, e: seq<int>, f: seq<int>, g: seq<int>)
    ensures (a + b + c + d + e) + f + g == a + (b + (c + (d + (e + f + g))))
  {
  }

  /** The rest of an array: it closes, or goes on with an element and then starts or closes again. */
  lemma {:induction false} ElementsStep(v: Value, i: nat, x: seq<int>)
    requires v.Arr? && i <= |v.elements| && ElementsFrom(v, i).Some?
    ensures i > 0 ==> Delimited(ElementsFrom(v, i).value + [0x5D] + x)
    ensures i == |v.elements| ==> ElementsFrom(v, i).value == []
    ensures i < |v.elements| ==>
      && Write(v.elements[i]).Some? && ElementsFrom(v, i + 1).Some?
      && ElementsFrom(v, i).value == Separator(i) + Write(v.elements[i]).value + ElementsFrom(v, i + 1).value
      && ElementsFrom(v, i).value + [0x5D] + x ==
           Separator(i) + (Write(v.elements[i]).value + (ElementsFrom(v, i + 1).value + [0x5D] + x))
  {
    if i < |v.elements| {
      Regroup(Separator(i), Write(v.elements[i]).value, [], [], ElementsFrom(v, i + 1).value, [0x5D], x);
      var t, m := Write(v.elements[i]).value, ElementsFrom(v, i + 1).value;
      assert Separator(i) + t + [] + [] + m == Separator(i) + t + m;
      assert t + ([] + ([] + (m + [0x5D] + x))) == t + (m + [0x5D] + x);
    }
  }

  /** The rest of an object likewise. */
  lemma {:induction false} MembersStep(ps: seq<Printed>, i: nat, x: seq<int>)
    requires i <= |ps|
    ensures i > 0 ==> Delimited(MembersFrom(ps, i) + [0x7D] + x)
    ensures i == |ps| ==> MembersFrom(ps, i) == []
    ensures i < |ps| ==>
      MembersFrom(ps, i) + [0x7D] + x ==
        Separator(i) + (Quoted(ps[i].name) + ([COLON] + (ps[i].text + (MembersFrom(ps, i + 1) + [0x7D] + x))))
  {
    if i < |ps| {
      hide Quoted;
      var n, t, m := Quoted(ps[i].name), ps[i].text, MembersFrom(ps, i + 1);
      assert MembersFrom(ps, i) == Separator(i) + n + [COLON] + t + m;
      Regroup(Separator(i), n, [COLON], t, m, [0x7D], x);
    }
  }

  lemma {:induction false} Child(v: Value)
    requires WellFormed(v)
    ensures v.Arr? ==> forall i :: 0 <= i < |v.elements| ==> WellFormed(v.elements[i])
    ensures v.Obj? ==> forall i :: 0 <= i < |v.members| ==> WellFormed(v.members[i].value)
  {
  }

  lemma {:induction false} EquivalentArr(a: Value, b: Value)
    requires a.Arr? && b.Arr? && |a.elements| == |b.elements|
    requires forall k :: 0 <= k < |a.elements| ==> Equivalent(a.elements[k], b.elements[k])
    ensures Equivalent(a, b)
  {
  }

  lemma {:induction false} EquivalentObj(a: Value, b: Value)
    requires a.Obj? && b.Obj?
    requires forall i :: 0 <= i < |a.members| ==> HasRight(a, i, b)
    requires forall j :: 0 <= j < |b.members| ==> HasLeft(a, b, j)
    ensures Equivalent(a, b)
  {
  }

  // ----- Equal bytes mean equivalent values -----

  lemma {:induction false} CutAt(s: seq<int>, t: seq<int>, x: seq<int>, y: seq<int>)
    requires s + x == t + y && |s| == |t|
    ensures s == t && x == y
  {
    assert s == (s + x)[..|s|] && t == (t + y)[..|t|];
    assert x == (s + x)[|s|..] && y == (t + y)[|t|..];
  }

  /** Texts that agree up to what follows them open alike, so the values are of one kind. */
  lemma {:induction false} SameKind(a: Value, b: Value, x: seq<int>, y: seq<int>)
    requires WellFormed(a) && WellFormed(b) && Write(a).Some? && Write(b).Some?
    requires Write(a).value + x == Write(b).value + y
    ensures (a.Null? <==> b.Null?) && (a.Bool? <==> b.Bool?) && (a.Bool? ==> a.b == b.b)
    ensures (a.Num? <==> b.Num?) && (a.Str? <==> b.Str?) && (a.Arr? <==> b.Arr?) && (a.Obj? <==> b.Obj?)
  {
    FirstByte(a);
    FirstByte(b);
    assert (Write(a).value + x)[0] == Write(a).value[0] && (Write(b).value + y)[0] == Write(b).value[0];
  }

  lemma {:induction false} ScalarUnique(a: Value, b: Value, x: seq<int>, y: seq<int>)
    requires WellFormed(a) && WellFormed(b) && Write(a).Some? && Write(b).Some?
    requires Write(a).value + x == Write(b).value + y && Delimited(x) && Delimited(y)
    requires !a.Arr? && !a.Obj?
    ensures Equivalent(a, b) && Write(a) == Write(b) && x == y
  {
    SameKind(a, b, x, y);
    match a
    case Null => CutAt(Write(a).value, Write(b).value, x, y);
    case Bool(_) => CutAt(Write(a).value, Write(b).value, x, y);
    case Num(m) => NumberUnique(m, b.n, x, y);
    case Str(p) => QuotedUnique(p, b.s, x, y);
  }

  lemma {:induction false} Shift(open: int, p: seq<int>, close: int, x: seq<int>)
    ensures ([open] + p + [close]) + x == [open] + (p + [close] + x)
  {
  }

  /** A text says where it ends and, up to member order, which value it is. */
  lemma {:induction false} Unique(a: Value, b: Value, x: seq<int>, y: seq<int>)
    requires WellFormed(a) && WellFormed(b) && Write(a).Some? && Write(b).Some?
    requires Write(a).value + x == Write(b).value + y && Delimited(x) && Delimited(y)
    ensures Equivalent(a, b) && Write(a) == Write(b) && x == y
    decreases a, 1, 0
  {
    hide Write, WellFormed, Equivalent, ElementsFrom, MembersFrom, Print, Placed;
    SameKind(a, b, x, y);
    if a.Arr? {
      WriteArr(a);
      WriteArr(b);
      var p, q := ElementsFrom(a, 0).value, ElementsFrom(b, 0).value;
      Shift(0x5B, p, 0x5D, x);
      Shift(0x5B, q, 0x5D, y);
      CutAt([0x5B], [0x5B], p + [0x5D] + x, q + [0x5D] + y);
      UniqueElements(a, b, 0, x, y);
      EquivalentArr(a, b);
    } else if a.Obj? {
      WriteObj(a);
      WriteObj(b);
      var p, q := MembersFrom(Placed(a), 0), MembersFrom(Placed(b), 0);
      Shift(0x7B, p, 0x7D, x);
      Shift(0x7B, q, 0x7D, y);
      CutAt([0x7B], [0x7B], p + [0x7D] + x, q + [0x7D] + y);
      UniqueMembers(a, b, 0, x, y);
      assert Placed(a)[0..] == Placed(a) && Placed(b)[0..] == Placed(b);
      MatchMembers(a, b);
    } else {
      ScalarUnique(a, b, x, y);
    }
  }

  lemma {:induction false} UniqueElements(a: Value, b: Value, i: nat, x: seq<int>, y: seq<int>)
    requires WellFormed(a) && WellFormed(b) && a.Arr? && b.Arr? && i <= |a.elements| && i <= |b.elements|
    requires ElementsFrom(a, i).Some? && ElementsFrom(b, i).Some?
    requires ElementsFrom(a, i).value + [0x5D] + x == ElementsFrom(b, i).value + [0x5D] + y
    ensures ElementsFrom(a, i) == ElementsFrom(b, i) && x == y && |a.elements| == |b.elements|
    ensures forall k :: i <= k < |a.elements| ==> Equivalent(a.elements[k], b.elements[k])
    decreases a, 0, |a.elements| - i
  {
    hide Write, WellFormed, Equivalent, ElementsFrom;
    ElementsStep(a, i, x);
    ElementsStep(b, i, y);
    if i == |a.elements| || i == |b.elements| {
      if i < |a.elements| { ElementsOpen(a, i, x); }
      if i < |b.elements| { ElementsOpen(b, i, y); }
      assert [] + [0x5D] + x == [0x5D] + x && [] + [0x5D] + y == [0x5D] + y;
      CutAt([0x5D], [0x5D], x, y);
    } else {
      var s, t := Write(a.elements[i]).value, Write(b.elements[i]).value;
      var p, q := ElementsFrom(a, i + 1).value + [0x5D] + x, ElementsFrom(b, i + 1).value + [0x5D] + y;
      CutAt(Separator(i), Separator(i), s + p, t + q);
      ElementsStep(a, i + 1, x);
      ElementsStep(b, i + 1, y);
      Child(a);
      Child(b);
      Unique(a.elements[i], b.elements[i], p, q);
      UniqueElements(a, b, i + 1, x, y);
    }
  }

  lemma {:induction false} ElementsOpen(v: Value, i: nat, x: seq<int>)
    requires WellFormed(v) && v.Arr? && i < |v.elements| && ElementsFrom(v, i).Some?
    ensures (ElementsFrom(v, i).value + [0x5D] + x)[0] != 0x5D
  {
    FirstByte(v.elements[i]);
  }

  lemma {:induction false} UniqueMembers(a: Value, b: Value, i: nat, x: seq<int>, y: seq<int>)
    requires WellFormed(a) && WellFormed(b) && a.Obj? && b.Obj?
    requires Print(a, |a.members|).Some? && Print(b, |b.members|).Some? && i <= |a.members| && i <= |b.members|
    requires MembersFrom(Placed(a), i) + [0x7D] + x == MembersFrom(Placed(b), i) + [0x7D] + y
    ensures Placed(a)[i..] == Placed(b)[i..] && x == y
    decreases a, 0, |a.members| - i
  {
    hide Write, WellFormed, Equivalent, MembersFrom, Print, Placed, Quoted;
    var pa, pb := Placed(a), Placed(b);
    MembersStep(pa, i, x);
    MembersStep(pb, i, y);
    if i == |pa| || i == |pb| {
      if i < |pa| { MembersOpen(pa, i, x); }
      if i < |pb| { MembersOpen(pb, i, y); }
      assert [] + [0x7D] + x == [0x7D] + x && [] + [0x7D] + y == [0x7D] + y;
      CutAt([0x7D], [0x7D], x, y);
    } else {
      var p, q := MembersFrom(pa, i + 1) + [0x7D] + x, MembersFrom(pb, i + 1) + [0x7D] + y;
      var s, t := [COLON] + (pa[i].text + p), [COLON] + (pb[i].text + q);
      CutAt(Separator(i), Separator(i), Quoted(pa[i].name) + s, Quoted(pb[i].name) + t);
      QuotedUnique(pa[i].name, pb[i].name, s, t);
      CutAt([COLON], [COLON], pa[i].text + p, pb[i].text + q);
      MembersStep(pa, i + 1, x);
      MembersStep(pb, i + 1, y);
      var m := SourceOf(a, i);
      var n := SourceOf(b, i);
      Child(a);
      Child(b);
      Unique(a.members[m].value, b.members[n].value, p, q);
      UniqueMembers(a, b, i + 1, x, y);
      assert pa[i..] == [pa[i]] + pa[i + 1..] && pb[i..] == [pb[i]] + pb[i + 1..];
    }
  }

  lemma {:induction false} MembersOpen(ps: seq<Printed>, i: nat, x: seq<int>)
    requires i < |ps|
    ensures (MembersFrom(ps, i) + [0x7D] + x)[0] != 0x7D
  {
    MembersStep(ps, i, x);
  }

  /** Identically placed members pair up, name by name. */
  lemma {:induction false} MatchMembers(a: Value, b: Value)
    requires WellFormed(a) && WellFormed(b) && a.Obj? && b.Obj?
    requires Print(a, |a.members|).Some? && Print(b, |b.members|).Some? && Placed(a) == Placed(b)
    ensures Equivalent(a, b)
    decreases a, 0, 0
  {
    hide Write, WellFormed, Equivalent, Print, Placed;
    Child(a);
    Child(b);
    forall i | 0 <= i < |a.members| ensures HasRight(a, i, b) {
      var k := PlaceOf(a, i);
      var j := SourceOf(b, k);
      Unique(a.members[i].value, b.members[j].value, [], []);
      assert Paired(a, i, b, j);
    }
    forall j | 0 <= j < |b.members| ensures HasLeft(a, b, j) {
      var k := PlaceOf(b, j);
      var i := SourceOf(a, k);
      Unique(a.members[i].value, b.members[j].value, [], []);
      assert Paired(a, i, b, j);
    }
    EquivalentObj(a, b);
  }

  // ----- Equivalent values have equal bytes -----

  lemma {:induction false} SameBag(s: seq<Printed>, t: seq<Printed>)
    requires DistinctKeys(PrintedKey, s) && DistinctKeys(PrintedKey, t) && forall p :: p in s <==> p in t
    ensures multiset(s) == multiset(t)
  {
    forall p ensures multiset(s)[p] == multiset(t)[p] {
      if p in s {
        var i :| 0 <= i < |s| && s[i] == p;
        CountOnce(PrintedKey, s, i);
        var j :| 0 <= j < |t| && t[j] == p;
        CountOnce(PrintedKey, t, j);
      }
    }
  }

  /** Equivalent values are written alike, or are both refused. */
  lemma {:induction false} EquivalentText(a: Value, b: Value)
    requires WellFormed(a) && WellFormed(b) && Equivalent(a, b)
    ensures Write(a) == Write(b)
    decreases a, 2, 0
  {
    if a.Arr? {
      EquivalentElements(a, b, 0);
    } else if a.Obj? {
      EquivalentMembers(a, b);
    }
  }

  lemma {:induction false} EquivalentElements(a: Value, b: Value, i: nat)
    requires WellFormed(a) && WellFormed(b) && a.Arr? && b.Arr? && Equivalent(a, b) && i <= |a.elements|
    ensures ElementsFrom(a, i) == ElementsFrom(b, i)
    decreases a, 1, |a.elements| - i
  {
    if i < |a.elements| {
      EquivalentText(a.elements[i], b.elements[i]);
      EquivalentElements(a, b, i + 1);
    }
  }

  lemma {:induction false} RightText(a: Value, i: nat, b: Value) returns (j: nat)
    requires WellFormed(a) && WellFormed(b) && a.Obj? && b.Obj? && Equivalent(a, b) && i < |a.members|
    ensures j < |b.members| && a.members[i].name == b.members[j].name && Write(a.members[i].value) == Write(b.members[j].value)
    decreases a, 0, 0
  {
    hide Write;
    assert HasRight(a, i, b);
    j :| Paired(a, i, b, j);
    EquivalentText(a.members[i].value, b.members[j].value);
  }

  lemma {:induction false} LeftText(a: Value, b: Value, j: nat) returns (i: nat)
    requires WellFormed(a) && WellFormed(b) && a.Obj? && b.Obj? && Equivalent(a, b) && j < |b.members|
    ensures i < |a.members| && a.members[i].name == b.members[j].name && Write(a.members[i].value) == Write(b.members[j].value)
    decreases a, 0, 0
  {
    hide Write;
    assert HasLeft(a, b, j);
    i :| Paired(a, i, b, j);
    EquivalentText(a.members[i].value, b.members[j].value);
  }

  lemma {:induction false} EquivalentMembers(a: Value, b: Value)
    requires WellFormed(a) && WellFormed(b) && a.Obj? && b.Obj? && Equivalent(a, b)
    ensures Write(a) == Write(b)
    decreases a, 1, 0
  {
    hide Equivalent, WellFormed, Print, MembersFrom, Utf16;
    var pa, pb := Print(a, |a.members|), Print(b, |b.members|);
    PrintFrom(a, |a.members|);
    PrintFrom(b, |b.members|);
    if pb.None? {
      var j :| 0 <= j < |b.members| && Unprintable(b, j);
      var i := LeftText(a, b, j);
      assert Unprintable(a, i);
    }
    if pa.None? {
      var i :| 0 <= i < |a.members| && Unprintable(a, i);
      var j := RightText(a, i, b);
      assert Unprintable(b, j);
    } else {
      PrintedAlike(a, b);
      PrintedDistinct(a);
      PrintedDistinct(b);
      SameBag(pa.value, pb.value);
      SortByPermuted(PrintedKey, pa.value, pb.value);
    }
  }

  lemma {:induction false} PrintedAlike(a: Value, b: Value)
    requires WellFormed(a) && WellFormed(b) && a.Obj? && b.Obj? && Equivalent(a, b)
    requires Print(a, |a.members|).Some? && Print(b, |b.members|).Some?
    ensures forall p :: p in Print(a, |a.members|).value <==> p in Print(b, |b.members|).value
    decreases a, 0, 1
  {
    hide Equivalent, WellFormed, Print, Utf16, Write;
    var pa, pb := Print(a, |a.members|).value, Print(b, |b.members|).value;
    PrintFrom(a, |a.members|);
    PrintFrom(b, |b.members|);
    forall p ensures p in pa <==> p in pb {
      if p in pa {
        var i :| 0 <= i < |pa| && pa[i] == p;
        var j := RightText(a, i, b);
        assert From(a, pa[i], i) && From(b, pb[j], j);
        assert pb[j] == p;
      }
      if p in pb {
        var j :| 0 <= j < |pb| && pb[j] == p;
        var i := LeftText(a, b, j);
        assert From(a, pa[i], i) && From(b, pb[j], j);
        assert pa[i] == p;
      }
    }
  }

  /** The bytes are canonical: two values share them exactly when they are equal up to member order. */
  lemma {:induction false} CanonicalBytes(a: Value, b: Value)
    requires WellFormed(a) && WellFormed(b) && Write(a).Some? && Write(b).Some?
    ensures Write(a) == Write(b) <==> Equivalent(a, b)
  {
    if Write(a) == Write(b) { Unique(a, b, [], []); }
    if Equivalent(a, b) { EquivalentText(a, b); }
  }

  /** Members are written in strictly increasing order of the UTF-16 code units of their names. */
  lemma {:induction false} PlacedInOrder(v: Value)
    requires v.Obj? && WellFormed(v) && Print(v, |v.members|).Some?
    ensures StrictlySorted(PrintedKey, Placed(v))
  {
    PrintedDistinct(v);
    SortByStrict(PrintedKey, Print(v, |v.members|).value);
  }

  /** Section 3.2.3 of RFC 8785 orders distinct names strictly and totally. */
  lemma {:induction false} NamesOrdered(s: Bytes, t: Bytes)
    requires Utf16(s).Some? && Utf16(t).Some? && s != t
    ensures Less(Utf16(s).value, Utf16(t).value) != Less(Utf16(t).value, Utf16(s).value)
  {
    if Utf16(s) == Utf16(t) { Utf16Injective(s, t); }
    LessTotal(Utf16(s).value, Utf16(t).value);
    if Less(Utf16(s).value, Utf16(t).value) { LessAsymmetric(Utf16(s).value, Utf16(t).value); }
  }
}
