/** UTF-16 read back: what the units that order names stand for. */
module Surrogates {
  import opened Wrappers
  import opened Ordering
  import opened Utf

  /** The decoder of section 2.2 of RFC 2781: a unit outside the surrogate range stands for itself, a
      high surrogate with a low one for a value above 0xFFFF, and anything else is an error. */
  function DecodeUtf16(units: seq<int>): Option<seq<nat>> {
    if units == [] then Some([])
    else if 0 <= units[0] < 0xD800 || 0xDFFF < units[0] <= 0xFFFF then
      match DecodeUtf16(units[1..])
      case None => None
      case Some(rest) => Some([units[0] as nat] + rest)
    else if |units| >= 2 && 0xD800 <= units[0] <= 0xDBFF && 0xDC00 <= units[1] <= 0xDFFF then
      match DecodeUtf16(units[2..])
      case None => None
      case Some(rest) => Some([0x10000 + (units[0] % 0x400) * 0x400 + units[1] % 0x400] + rest)
    else None
  }

  /** The UTF-8 text of a list of scalar values. */
  function EncodeAll(cs: seq<nat>): seq<int> {
    if cs == [] then [] else Encode(cs[0]) + EncodeAll(cs[1..])
  }

  ghost predicate Scalars(cs: seq<nat>) { forall i :: 0 <= i < |cs| ==> Scalar(cs[i]) }

  lemma {:induction false} UnitsDecode(c: nat, x: seq<int>)
    requires Scalar(c)
    ensures DecodeUtf16(Units(c) + x) ==
      match DecodeUtf16(x) case None => None case Some(rest) => Some([c] + rest)
    ensures forall i :: 0 <= i < |Units(c)| ==> 0 <= Units(c)[i] <= 0xFFFF
  {
    var u := Units(c) + x;
    if c <= 0xFFFF {
      assert u[1..] == x;
    } else {
      var r := c - 0x10000;
      assert u[0] == 0xD800 + r / 1024 && u[1] == 0xDC00 + r % 1024 && u[2..] == x;
      SurrogateHalves(r);
    }
  }

  lemma {:induction false} SurrogateHalves(r: nat)
    requires r <= 0xFFFFF
    ensures (0xD800 + r / 1024) % 0x400 == r / 1024 && (0xDC00 + r % 1024) % 0x400 == r % 1024
    ensures (r / 1024) * 1024 + r % 1024 == r && r / 1024 < 0x400
  {
  }

  /** The units of a name, decoded as UTF-16 and encoded as UTF-8, are the name: they are its scalar
      values, each unit in 16 bits. */
  lemma {:induction false} Utf16Decodes(s: Bytes)
    requires Utf16(s).Some?
    ensures var units := Utf16(s).value;
      && (forall i :: 0 <= i < |units| ==> 0 <= units[i] <= 0xFFFF)
      && DecodeUtf16(units).Some? && Scalars(DecodeUtf16(units).value) && EncodeAll(DecodeUtf16(units).value) == s
    decreases |s|
  {
    hide Next, Units, Encode;
    if s != [] {
      var (c, k) := Next(s).value;
      var rest := Utf16(s[k..]).value;
      Utf16Decodes(s[k..]);
      UnitsDecode(c, rest);
      NextEncodes(s);
      var cs := DecodeUtf16(rest).value;
      assert ([c] + cs)[1..] == cs && s == s[..k] + s[k..];
    }
  }

  // ----- The units of a name from its scalar values -----

  function UnitsAll(cs: seq<nat>): seq<int> {
    if cs == [] then [] else Units(cs[0]) + UnitsAll(cs[1..])
  }

  lemma {:induction false} EncodeUnfolds(c: nat)
    requires Scalar(c)
    ensures c < 0x80 ==> Encode(c) == [c]
    ensures 0x80 <= c < 0x800 ==> Encode(c) == [0xC0 + c / 64, 0x80 + c % 64]
    ensures 0x800 <= c < 0x10000 ==> Encode(c) == [0xE0 + c / 4096, 0x80 + c / 64 % 64, 0x80 + c % 64]
    ensures 0x10000 <= c ==> Encode(c) == [0xF0 + c / 262144, 0x80 + c / 4096 % 64, 0x80 + c / 64 % 64, 0x80 + c % 64]
  {
    assert EncodeIn(c, 1) == [c];
    var a, b, d := c / 64, c / 64 / 64, c / 64 / 64 / 64;
    assert b == c / 4096 && d == c / 262144;
    assert EncodeIn(c, 2) == EncodeIn(a, 1) + [0x80 + c % 64] && EncodeIn(a, 1) == [a];
    assert EncodeIn(c, 3) == EncodeIn(a, 2) + [0x80 + c % 64] && EncodeIn(a, 2) == EncodeIn(b, 1) + [0x80 + a % 64];
    assert EncodeIn(b, 1) == [b] && EncodeIn(d, 1) == [d];
    assert EncodeIn(c, 4) == EncodeIn(a, 3) + [0x80 + c % 64] && EncodeIn(a, 3) == EncodeIn(b, 2) + [0x80 + a % 64];
    assert EncodeIn(b, 2) == EncodeIn(d, 1) + [0x80 + b % 64];
  }

  /** A value from its groups of six bits. */
  lemma {:induction false} SixBits(c: nat)
    ensures c == c / 64 * 64 + c % 64
    ensures c == c / 4096 * 4096 + c / 64 % 64 * 64 + c % 64
    ensures c == c / 262144 * 262144 + c / 4096 % 64 * 4096 + c / 64 % 64 * 64 + c % 64
  {
    var a, b := c / 64, c / 64 / 64;
    assert c == a * 64 + c % 64 && a == b * 64 + a % 64 && b == b / 64 * 64 + b % 64;
    assert b == c / 4096 && b / 64 == c / 262144;
  }

  lemma {:induction false} ShortEncoded(s: Bytes, c: nat)
    requires c < 0x800 && |Encode(c)| <= |s| && Encode(c) == s[..|Encode(c)|]
    ensures var k := |Encode(c)|;
      && 1 <= k == Length(s[0]) && (forall i :: 1 <= i < k ==> Tail(s[i])) && Combine(s, k) == c && Shortest(c, k)
  {
    hide Encode, Combine;
    EncodeUnfolds(c);
    forall i | 0 <= i < |Encode(c)| ensures s[i] == Encode(c)[i] {}
    CombineUnfolds(s);
    SixBits(c);
  }

  lemma {:induction false} ThreeEncoded(s: Bytes, c: nat)
    requires Scalar(c) && 0x800 <= c < 0x10000 && |Encode(c)| <= |s| && Encode(c) == s[..|Encode(c)|]
    ensures |Encode(c)| == 3 == Length(s[0]) && Tail(s[1]) && Tail(s[2]) && Combine(s, 3) == c
  {
    hide Encode, Combine;
    EncodeUnfolds(c);
    forall i | 0 <= i < |Encode(c)| ensures s[i] == Encode(c)[i] {}
    CombineUnfolds(s);
    SixBits(c);
    assert c / 4096 < 16;
  }

  lemma {:induction false} FourEncoded(s: Bytes, c: nat)
    requires Scalar(c) && 0x10000 <= c && |Encode(c)| <= |s| && Encode(c) == s[..|Encode(c)|]
    ensures |Encode(c)| == 4 == Length(s[0]) && Tail(s[1]) && Tail(s[2]) && Tail(s[3]) && Combine(s, 4) == c
  {
    hide Encode, Combine;
    EncodeUnfolds(c);
    forall i | 0 <= i < |Encode(c)| ensures s[i] == Encode(c)[i] {}
    CombineUnfolds(s);
    SixBits(c);
    assert c / 262144 < 8;
  }

  /** Decoding the UTF-8 encoding of a scalar value gives it back. */
  lemma {:induction false} NextDecodesEncoded(s: Bytes, c: nat, x: seq<int>)
    requires Scalar(c) && s == Encode(c) + x
    ensures s != [] && Next(s) == Some((c, |Encode(c)|)) && s[|Encode(c)|..] == x
  {
    hide Encode, Combine, Length, Tail, Scalar, Next;
    var k := |Encode(c)|;
    EncodedLength(c);
    assert Encode(c) == s[..k] && s[k..] == x;
    if c < 0x800 {
      ShortEncoded(s, c);
    } else if c < 0x10000 {
      ThreeEncoded(s, c);
    } else {
      FourEncoded(s, c);
    }
    NextFound(s, c, k);
  }

  lemma {:induction false} EncodedLength(c: nat)
    requires Scalar(c)
    ensures |Encode(c)| >= 1
  {
  }

  lemma {:induction false} Utf16Of(s: Bytes, cs: seq<nat>)
    requires Scalars(cs) && s == EncodeAll(cs)
    ensures Utf16(s) == Some(UnitsAll(cs))
    decreases |cs|
  {
    hide Next, Units, Encode;
    if cs != [] {
      NextDecodesEncoded(s, cs[0], EncodeAll(cs[1..]));
      Utf16Of(s[|Encode(cs[0])|..], cs[1..]);
    }
  }

  // ----- How names compare -----

  lemma {:induction false} LessPrefixed(p: Key, a: Key, b: Key)
    ensures Less(p + a, p + b) <==> Less(a, b)
    decreases |p|
  {
    if p == [] {
      assert p + a == a && p + b == b;
    } else {
      LessPrefixed(p[1..], a, b);
      LessFirst(p[0], p[1..] + a, p[0], p[1..] + b);
      assert p + a == [p[0]] + (p[1..] + a) && p + b == [p[0]] + (p[1..] + b);
    }
  }

  lemma {:induction false} UnitsAllConcat(a: seq<nat>, b: seq<nat>)
    ensures UnitsAll(a + b) == UnitsAll(a) + UnitsAll(b)
    decreases |a|
  {
    hide Units;
    if a == [] {
      assert a + b == b;
    } else {
      UnitsAllConcat(a[1..], b);
      assert (a + b)[1..] == a[1..] + b && (a + b)[0] == a[0];
      Associate(Units(a[0]), UnitsAll(a[1..]), UnitsAll(b));
    }
  }

  lemma {:induction false} Associate(a: seq<int>, b: seq<int>, c: seq<int>)
    ensures a + (b + c) == (a + b) + c
  {
  }

  /** Whether `c` goes before a different scalar value `d`: both inside the Basic Multilingual Plane or
      both above it, by value; a value above it goes with the surrogates, before U+E000 to U+FFFF. */
  predicate GoesBefore(c: nat, d: nat) {
    if (c > 0xFFFF) == (d > 0xFFFF) then c < d else if c > 0xFFFF then d >= 0xE000 else c < 0xE000
  }

  lemma {:induction false} UnitsOrder(c: nat, d: nat, x: seq<int>, y: seq<int>)
    requires Scalar(c) && Scalar(d) && c != d
    ensures Less(Units(c) + x, Units(d) + y) <==> GoesBefore(c, d)
  {
    hide Less;
    if c > 0xFFFF && d > 0xFFFF {
      var (q, r) := (c - 0x10000, d - 0x10000);
      LessFirst(0xDC00 + q % 1024, x, 0xDC00 + r % 1024, y);
      LessFirst(0xD800 + q / 1024, [0xDC00 + q % 1024] + x, 0xD800 + r / 1024, [0xDC00 + r % 1024] + y);
      SurrogateHalves(q);
      SurrogateHalves(r);
      UnitsHead(c, x);
      UnitsHead(d, y);
    } else {
      UnitsHead(c, x);
      UnitsHead(d, y);
      LessFirst((Units(c) + x)[0], (Units(c) + x)[1..], (Units(d) + y)[0], (Units(d) + y)[1..]);
    }
  }

  lemma {:induction false} UnitsHead(c: nat, x: seq<int>)
    requires Scalar(c)
    ensures var u := Units(c) + x;
      && u == [u[0]] + u[1..] && u[0] == (if c <= 0xFFFF then c else 0xD800 + (c - 0x10000) / 1024)
      && (c > 0xFFFF ==> u[1..] == [0xDC00 + (c - 0x10000) % 1024] + x)
  {
  }

  /** Two names that first differ in the scalar values `c` and `d` are ordered by these alone; so a
      character above U+FFFF goes before U+E000 to U+FFFF, unlike in the order of code points. */
  lemma {:induction false} NamesCompare(s: Bytes, t: Bytes, common: seq<nat>, c: nat, a: seq<nat>, d: nat, b: seq<nat>)
    requires Scalars(common + [c] + a) && Scalars(common + [d] + b) && c != d
    requires s == EncodeAll(common + [c] + a) && t == EncodeAll(common + [d] + b)
    ensures Utf16(s).Some? && Utf16(t).Some?
    ensures Less(Utf16(s).value, Utf16(t).value) <==> GoesBefore(c, d)
  {
    hide Less, Units, GoesBefore, EncodeAll, Utf16;
    Utf16Of(s, common + [c] + a);
    Utf16Of(t, common + [d] + b);
    SplitAtFirst(common, c, a);
    SplitAtFirst(common, d, b);
    assert (common + [c] + a)[|common|] == c && (common + [d] + b)[|common|] == d;
    LessPrefixed(UnitsAll(common), Units(c) + UnitsAll(a), Units(d) + UnitsAll(b));
    UnitsOrder(c, d, UnitsAll(a), UnitsAll(b));
  }

  lemma {:induction false} SplitAtFirst(common: seq<nat>, c: nat, a: seq<nat>)
    ensures UnitsAll(common + [c] + a) == UnitsAll(common) + (Units(c) + UnitsAll(a))
  {
    hide Units;
    UnitsAllConcat(common, [c] + a);
    assert common + [c] + a == common + ([c] + a) && ([c] + a)[1..] == a;
  }
}
