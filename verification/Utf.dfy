/** UTF-8 strings (RFC 3629) and the UTF-16 units that order names. */
module Utf {
  import opened Wrappers

  type Byte = b: int | 0 <= b < 256
  type Bytes = seq<Byte>

  // ----- The grammar -----

  predicate Tail(b: Byte) { 0x80 <= b <= 0xBF }

  /** UTF8-char of section 4 of RFC 3629. */
  predicate Utf8Char(s: Bytes) {
    match |s|
    case 1 => s[0] <= 0x7F
    case 2 => 0xC2 <= s[0] <= 0xDF && Tail(s[1])
    case 3 =>
      && Tail(s[2])
      && (|| (s[0] == 0xE0 && 0xA0 <= s[1] <= 0xBF)
          || (0xE1 <= s[0] <= 0xEC && Tail(s[1]))
          || (s[0] == 0xED && 0x80 <= s[1] <= 0x9F)
          || (0xEE <= s[0] <= 0xEF && Tail(s[1])))
    case 4 =>
      && Tail(s[2]) && Tail(s[3])
      && (|| (s[0] == 0xF0 && 0x90 <= s[1] <= 0xBF)
          || (0xF1 <= s[0] <= 0xF3 && Tail(s[1]))
          || (s[0] == 0xF4 && 0x80 <= s[1] <= 0x8F))
    case _ => false
  }

  /** UTF8-octets: any concatenation of UTF8-chars. */
  ghost predicate Utf8Octets(s: Bytes) {
    s == [] || exists k :: 1 <= k <= |s| && Utf8Char(s[..k]) && Utf8Octets(s[k..])
  }

  // ----- Decoding, as the loop body does it; lead bytes tested by masking are ranges here -----

  /** Length announced by a lead byte; 0 for a byte that cannot lead. */
  function Length(first: Byte): nat {
    if first < 0x80 then 1
    else if 0xC0 <= first < 0xE0 then 2
    else if 0xE0 <= first < 0xF0 then 3
    else if 0xF0 <= first < 0xF8 then 4
    else 0
  }

  function Payload(first: Byte): nat {
    if first < 0x80 then first
    else if 0xC0 <= first < 0xE0 then first - 0xC0
    else if 0xE0 <= first < 0xF0 then first - 0xE0
    else if 0xF0 <= first < 0xF8 then first - 0xF0
    else 0
  }

  /** The six bits a continuation byte carries. */
  function Low(b: Byte): nat { b % 64 }

  /** The code point built from a payload and the first `k` continuation bytes. */
  function Combine(s: Bytes, k: nat): nat
    requires 1 <= k <= |s|
  {
    if k == 1 then Payload(s[0]) else Combine(s, k - 1) * 64 + Low(s[k - 1])
  }

  predicate Scalar(c: nat) { c <= 0x10FFFF && !(0xD800 <= c <= 0xDFFF) }

  predicate Shortest(c: nat, count: nat) {
    !(count == 2 && c < 0x80) && !(count == 3 && c < 0x800) && !(count == 4 && c < 0x10000)
  }

  /** The scalar value at the front of `s` and the bytes it occupies, or `None` for any of the errors. */
  function Next(s: Bytes): (r: Option<(nat, nat)>)
    requires s != []
    ensures r.Some? ==> 1 <= r.value.1 <= |s| && r.value.1 <= 4 && Scalar(r.value.0)
  {
    var count := Length(s[0]);
    if count == 0 || count > |s| then None
    else if exists i :: 1 <= i < count && !Tail(s[i]) then None
    else
      var c := Combine(s, count);
      if !Shortest(c, count) || !Scalar(c) then None else Some((c, count))
  }

  /** The UTF-16 code units of one scalar value. */
  function Units(c: nat): seq<int> {
    if c <= 0xFFFF then [c] else [0xD800 + (c - 0x10000) / 1024, 0xDC00 + (c - 0x10000) % 1024]
  }

  function Utf16(s: Bytes): Option<seq<int>> {
    if s == [] then Some([]) else
    match Next(s)
    case None => None
    case Some((c, k)) =>
      match Utf16(s[k..])
      case None => None
      case Some(rest) => Some(Units(c) + rest)
  }

  // ----- The decoder accepts exactly the grammar -----

  /** `count - 1` continuation bytes carrying the low bits of `c`, after a lead byte for the rest. */
  function EncodeIn(c: nat, count: nat): (r: seq<int>)
    requires 1 <= count <= 4
    ensures |r| == count
  {
    if count == 1 then [c] else EncodeIn(c / 64, count - 1) + [0x80 + c % 64]
  }

  /** The UTF-8 encoding of a scalar value, section 3 of RFC 3629. */
  function Encode(c: nat): seq<int> {
    var (mark, count) :=
      if c < 0x80 then (0, 1) else if c < 0x800 then (0xC0, 2) else if c < 0x10000 then (0xE0, 3) else (0xF0, 4);
    var r := EncodeIn(c, count);
    r[0 := mark + r[0]]
  }

  lemma {:induction false} CombineUnfolds(s: Bytes)
    requires s != []
    ensures Combine(s, 1) == Payload(s[0])
    ensures |s| >= 2 ==> Combine(s, 2) == Payload(s[0]) * 64 + Low(s[1])
    ensures |s| >= 3 ==> Combine(s, 3) == Payload(s[0]) * 4096 + Low(s[1]) * 64 + Low(s[2])
    ensures |s| >= 4 ==> Combine(s, 4) == Payload(s[0]) * 262144 + Low(s[1]) * 4096 + Low(s[2]) * 64 + Low(s[3])
  {
    if |s| >= 3 { assert Combine(s, 3) == Combine(s, 2) * 64 + Low(s[2]); }
    if |s| >= 4 { assert Combine(s, 4) == Combine(s, 3) * 64 + Low(s[3]); }
  }

  /** What the checks of one decoding step amount to. */
  predicate Decodes(s: Bytes, k: nat)
    requires 1 <= k <= |s|
  {
    Length(s[0]) == k && (forall i :: 1 <= i < k ==> Tail(s[i])) && Shortest(Combine(s, k), k) && Scalar(Combine(s, k))
  }

  lemma {:induction false} NextDecodes(s: Bytes, k: nat)
    requires s != [] && 1 <= k <= |s|
    ensures (Next(s).Some? && Next(s).value.1 == k) <==> Decodes(s, k)
  {
    hide Combine, Shortest, Scalar, Tail;
  }

  lemma {:induction false} ShortChars(s: Bytes)
    requires s != []
    ensures Decodes(s, 1) <==> Utf8Char(s[..1])
    ensures |s| >= 2 ==> (Decodes(s, 2) <==> Utf8Char(s[..2]))
  {
    CombineUnfolds(s);
    TailMod(s);
  }

  lemma {:induction false} LongChars(s: Bytes)
    requires s != []
    ensures |s| >= 3 ==> (Decodes(s, 3) <==> Utf8Char(s[..3]))
    ensures |s| >= 4 ==> (Decodes(s, 4) <==> Utf8Char(s[..4]))
  {
    CombineUnfolds(s);
    TailMod(s);
  }

  /** One decoding step consumes exactly one UTF8-char. */
  lemma {:induction false} NextIsChar(s: Bytes, k: nat)
    requires s != [] && 1 <= k <= |s|
    ensures (Next(s).Some? && Next(s).value.1 == k) <==> Utf8Char(s[..k])
  {
    hide Next, Combine, Shortest, Scalar, Tail;
    NextDecodes(s, k);
    if k <= 2 {
      ShortChars(s);
    } else if k <= 4 {
      LongChars(s);
    }
  }

  lemma {:induction false} TailMod(s: Bytes)
    ensures forall i :: 0 <= i < |s| && Tail(s[i]) ==> Low(s[i]) == s[i] - 0x80
  {
  }

  /** Splitting the combined code point back gives the payload and the continuation bytes. */
  lemma {:induction false} CombineEncodes(s: Bytes, k: nat)
    requires 1 <= k <= |s| && k <= 4 && forall i :: 1 <= i < k ==> Tail(s[i])
    ensures EncodeIn(Combine(s, k), k) == [Payload(s[0])] + s[1..k]
  {
    if k > 1 {
      CombineEncodes(s, k - 1);
      var c, b := Combine(s, k - 1), Low(s[k - 1]);
      assert (c * 64 + b) / 64 == c && (c * 64 + b) % 64 == b;
      assert 0x80 + b == s[k - 1];
      assert s[1..k] == s[1..k - 1] + [s[k - 1]];
    }
  }

  lemma {:induction false} CombineBounds(s: Bytes)
    requires s != []
    ensures |s| >= 2 && Length(s[0]) == 2 ==> Combine(s, 2) < 0x800
    ensures |s| >= 3 && Length(s[0]) == 3 ==> Combine(s, 3) < 0x10000
  {
    CombineUnfolds(s);
  }

  /** The bytes consumed are the encoding of the scalar value produced. */
  lemma {:induction false} NextEncodes(s: Bytes)
    requires s != [] && Next(s).Some?
    ensures s[..Next(s).value.1] == Encode(Next(s).value.0)
  {
    var (c, k) := Next(s).value;
    CombineEncodes(s, k);
    CombineBounds(s);
    assert s[..k] == [s[0]] + s[1..k];
  }

  /** The decoder succeeds on exactly the well-formed strings. */
  lemma {:induction false} AcceptsExactly(s: Bytes)
    ensures Utf16(s).Some? <==> Utf8Octets(s)
    decreases |s|
  {
    if s != [] {
      if Next(s).Some? {
        var k := Next(s).value.1;
        NextIsChar(s, k);
        AcceptsExactly(s[k..]);
      }
      if Utf8Octets(s) {
        var k :| 1 <= k <= |s| && Utf8Char(s[..k]) && Utf8Octets(s[k..]);
        NextIsChar(s, k);
      }
    }
  }

  // ----- Decoding is injective -----

  /** Code units of scalar values form a prefix code: a high surrogate always announces a pair. */
  lemma {:induction false} UnitsPrefix(c: nat, d: nat, x: seq<int>, y: seq<int>)
    requires Scalar(c) && Scalar(d) && Units(c) + x == Units(d) + y
    ensures c == d && x == y
  {
    var a, b := Units(c), Units(d);
    assert (a + x)[0] == a[0] && (b + y)[0] == b[0];
    if c > 0xFFFF && d > 0xFFFF {
      assert (a + x)[1] == a[1] && (b + y)[1] == b[1];
    }
    assert c == d;
    assert x == (a + x)[|a|..] && y == (b + y)[|b|..];
  }

  lemma {:induction false} SomeUnits(s: Bytes)
    ensures Utf16(s).Some? ==> (s == [] <==> Utf16(s).value == [])
  {
  }

  /** Distinct well-formed strings have distinct code units. */
  lemma {:induction false} Utf16Injective(s: Bytes, t: Bytes)
    requires Utf16(s).Some? && Utf16(s) == Utf16(t)
    ensures s == t
    decreases |s|
  {
    hide Next, Units, Encode;
    SomeUnits(s);
    SomeUnits(t);
    if s != [] && t != [] {
      var (c, k) := Next(s).value;
      var (d, l) := Next(t).value;
      UnitsPrefix(c, d, Utf16(s[k..]).value, Utf16(t[l..]).value);
      NextEncodes(s);
      NextEncodes(t);
      Utf16Injective(s[k..], t[l..]);
      assert s == s[..k] + s[k..] && t == t[..l] + t[l..];
    }
  }

  // ----- The loop -----

  lemma {:induction false} NextFound(s: Bytes, c: nat, count: nat)
    requires s != [] && 1 <= count == Length(s[0]) <= |s| && (forall i :: 1 <= i < count ==> Tail(s[i]))
    requires c == Combine(s, count) && Shortest(c, count) && Scalar(c)
    ensures Next(s) == Some((c, count))
    ensures Utf16(s).Some? <==> Utf16(s[count..]).Some?
    ensures Utf16(s).Some? ==> Utf16(s).value == Units(c) + Utf16(s[count..]).value
  {
  }

  lemma {:induction false} CombineNext(s: Bytes, k: nat)
    requires k < |s|
    ensures k == 0 ==> Combine(s, 1) == Payload(s[0])
    ensures k > 0 ==> Combine(s, k + 1) == Combine(s, k) * 64 + Low(s[k])
  {
  }

  lemma {:induction false} NothingLeft(s: Bytes)
    requires s == []
    ensures Utf16(s) == Some([])
  {
  }

  lemma {:induction false} NextMissing(s: Bytes)
    requires s != []
    ensures Length(s[0]) == 0 || Length(s[0]) > |s| ==> Utf16(s).None?
    ensures Length(s[0]) <= |s| && (exists i :: 1 <= i < Length(s[0]) && !Tail(s[i])) ==> Utf16(s).None?
    ensures 1 <= Length(s[0]) <= |s| && !(Shortest(Combine(s, Length(s[0])), Length(s[0])) && Scalar(Combine(s, Length(s[0])))) ==> Utf16(s).None?
  {
  }

  /** `utf16Units`: decode front to back, failing on the first malformed character. */
  method Utf16Units(text: Bytes) returns (r: Option<seq<int>>)
    ensures r == Utf16(text)
    ensures r.Some? <==> Utf8Octets(text)
  {
    hide Next, Combine, Utf8Octets, Utf16, Shortest, Scalar, Length, Payload;
    AcceptsExactly(text);
    var units: seq<int> := [];
    var index := 0;
    assert text[0..] == text;
    while index < |text|
      invariant 0 <= index <= |text|
      invariant Utf16(text).Some? <==> Utf16(text[index..]).Some?
      invariant Utf16(text).Some? ==> Utf16(text).value == units + Utf16(text[index..]).value
    {
      ghost var rest := text[index..];
      ghost var before := units;
      NextMissing(rest);
      var first := text[index];
      assert rest[0] == first;
      CombineNext(rest, 0);
      var codePoint: nat := Payload(first);
      var count := Length(first);
      if count == 0 {
        return None;
      }
      if index + count > |text| {
        return None;
      }
      var offset := 1;
      while offset < count
        invariant 1 <= offset <= count
        invariant forall i :: 1 <= i < offset ==> Tail(rest[i])
        invariant codePoint == Combine(rest, offset)
      {
        var continuation := text[index + offset];
        assert continuation == rest[offset];
        CombineNext(rest, offset);
        if !Tail(continuation) {
          return None;
        }
        codePoint := codePoint * 64 + Low(continuation);
        offset := offset + 1;
      }
      if !Shortest(codePoint, count) || !Scalar(codePoint) {
        return None;
      }
      NextFound(rest, codePoint, count);
      assert rest[count..] == text[index + count..];
      if codePoint <= 0xFFFF {
        units := units + [codePoint];
      } else {
        var reduced := codePoint - 0x10000;
        units := units + [0xD800 + reduced / 1024];
        units := units + [0xDC00 + reduced % 1024];
      }
      assert units == before + Units(codePoint);
      index := index + count;
    }
    NothingLeft(text[index..]);
    assert units + [] == units;
    return Some(units);
  }
}
