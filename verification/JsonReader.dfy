/** A reader of JSON texts (RFC 8259). */
module JsonReader {
  import opened Wrappers
  import opened Ordering
  import opened Utf
  import opened NumberText
  import opened Json

  // ----- Strings, section 7 -----

  function HexValue(c: int): Option<nat> {
    if '0' as int <= c <= '9' as int then Some(c - '0' as int)
    else if 'a' as int <= c <= 'f' as int then Some(10 + c - 'a' as int)
    else if 'A' as int <= c <= 'F' as int then Some(10 + c - 'A' as int)
    else None
  }

  /** Four hexadecimal digits. */
  function HexUnit(t: seq<int>): Option<nat> {
    if |t| < 4 then None else
    match (HexValue(t[0]), HexValue(t[1]), HexValue(t[2]), HexValue(t[3]))
    case (Some(a), Some(b), Some(c), Some(d)) => Some(a * 0x1000 + b * 0x100 + c * 0x10 + d)
    case _ => None
  }

  /** The character a two-character escape stands for. */
  function ShortEscape(c: int): Option<Byte> {
    if c == '"' as int then Some(0x22)
    else if c == '\\' as int then Some(0x5C)
    else if c == '/' as int then Some(0x2F)
    else if c == 'b' as int then Some(0x08)
    else if c == 'f' as int then Some(0x0C)
    else if c == 'n' as int then Some(0x0A)
    else if c == 'r' as int then Some(0x0D)
    else if c == 't' as int then Some(0x09)
    else None
  }

  function AsBytes(s: seq<int>): (r: Option<Bytes>)
    ensures r.Some? ==> r.value == s
  {
    if forall i :: 0 <= i < |s| ==> 0 <= s[i] < 256 then Some(s) else None
  }

  /** The character that a `\u` escape, or a pair of them, stands for, and the length of the escape. */
  function ReadUnicode(t: seq<int>): (r: Option<(Bytes, nat)>)
    ensures r.Some? ==> 1 <= r.value.1 <= |t|
  {
    match HexUnit(if |t| < 2 then [] else t[2..])
    case None => None
    case Some(u) =>
      if u < 0xD800 || u > 0xDFFF then
        match AsBytes(Encode(u)) case None => None case Some(bytes) => Some((bytes, 6))
      else if u <= 0xDBFF && |t| >= 8 && t[6] == '\\' as int && t[7] == 'u' as int then
        match HexUnit(t[8..])
        case None => None
        case Some(v) =>
          if v < 0xDC00 || v > 0xDFFF then None else
          match AsBytes(Encode(0x10000 + (u - 0xD800) * 0x400 + (v - 0xDC00)))
          case None => None
          case Some(bytes) => Some((bytes, 12))
      else None
  }

  /** One character of a string: its bytes, and how many bytes of text it takes. */
  function ReadChar(t: seq<int>): (r: Option<(Bytes, nat)>)
    requires t != []
    ensures r.Some? ==> 1 <= r.value.1 <= |t|
  {
    if t[0] == '\\' as int then
      if |t| < 2 then None
      else if t[1] == 'u' as int then ReadUnicode(t)
      else match ShortEscape(t[1]) case None => None case Some(b) => Some(([b], 2))
    else if 0x20 <= t[0] <= 0xFF && t[0] != '"' as int then Some(([t[0] as Byte], 1))
    else None
  }

  /** A string after its opening quotation mark, and what follows the closing one. */
  function ReadString(t: seq<int>): (r: Option<(Bytes, seq<int>)>)
    ensures r.Some? ==> |r.value.1| < |t|
    decreases |t|
  {
    if t == [] then None
    else if t[0] == '"' as int then Some(([], t[1..]))
    else
      match ReadChar(t)
      case None => None
      case Some((bytes, k)) =>
        match ReadString(t[k..])
        case None => None
        case Some((more, rest)) => Some((bytes + more, rest))
  }

  /** Every escape is read as the byte it was written for. */
  lemma {:induction false} EscapeReads(b: Byte, x: seq<int>)
    ensures var t := EscapeByte(b) + x;
      && t[0] != '"' as int && ReadChar(t) == Some(([b], |EscapeByte(b)|)) && t[|EscapeByte(b)|..] == x
  {
    var e := EscapeByte(b);
    var t := e + x;
    assert forall i :: 0 <= i < |e| ==> t[i] == e[i];
    if |e| == 6 {
      HexReads(b / 16);
      HexReads(b % 16);
      assert t[2..][0] == 0x30 && t[2..][1] == 0x30 && t[2..][2] == Hex(b / 16) && t[2..][3] == Hex(b % 16);
      assert HexUnit(t[2..]) == Some(b as nat);
      assert Encode(b) == [b as int];
    }
  }

  lemma {:induction false} HexReads(d: nat)
    requires d < 16
    ensures HexValue(Hex(d)) == Some(d) && HexValue(0x30) == Some(0)
    ensures 0x30 <= Hex(d) <= 0x39 || 0x61 <= Hex(d) <= 0x66
  {
  }

  /** The escaping is the canonical one: a byte is written as itself unless it is a quotation mark, a
      backslash or a control character; then by a two-character escape where there is one, and by four
      hexadecimal digits in lower case where there is none. */
  lemma {:induction false} EscapesCanonical(b: Byte)
    ensures var e := EscapeByte(b); var special := b < 0x20 || b == '"' as int || b == '\\' as int;
      && (!special ==> e == [b])
      && (special && (exists c :: 0 <= c < 128 && ShortEscape(c) == Some(b)) ==> |e| == 2 && e[0] == '\\' as int)
      && (special && !(exists c :: 0 <= c < 128 && ShortEscape(c) == Some(b)) ==>
            |e| == 6 && e[0] == '\\' as int && e[1] == 'u' as int
            && forall i :: 2 <= i < 6 ==> '0' as int <= e[i] <= '9' as int || 'a' as int <= e[i] <= 'f' as int)
  {
    if b < 0x20 { HexReads(b / 16); HexReads(b % 16); }
    forall c | 0 <= c < 128 && ShortEscape(c) == Some(b) && (b < 0x20 || b == 0x22 || b == 0x5C)
      ensures |EscapeByte(b)| == 2 {}
    ShortEscapes(b);
  }

  lemma {:induction false} ShortEscapes(b: Byte)
    ensures b == 0x08 || b == 0x09 || b == 0x0A || b == 0x0C || b == 0x0D || b == 0x22 || b == 0x5C ==>
      exists c :: 0 <= c < 128 && ShortEscape(c) == Some(b)
  {
    assert ShortEscape('b' as int) == Some(0x08) && ShortEscape('t' as int) == Some(0x09);
    assert ShortEscape('n' as int) == Some(0x0A) && ShortEscape('f' as int) == Some(0x0C);
    assert ShortEscape('r' as int) == Some(0x0D) && ShortEscape('"' as int) == Some(0x22);
    assert ShortEscape('\\' as int) == Some(0x5C);
  }

  lemma {:induction false} EscapedReads(s: Bytes, i: nat, x: seq<int>)
    requires i <= |s|
    ensures ReadString(EscapeFrom(s, i) + [QUOTE] + x) == Some((s[i..], x))
    decreases |s| - i
  {
    hide EscapeFrom, EscapeByte, ReadChar;
    EscapeRest(s, i, x);
    if i == |s| {
      assert ([QUOTE] + x)[1..] == x && s[i..] == [];
    } else {
      var rest := EscapeFrom(s, i + 1) + [QUOTE] + x;
      EscapeReads(s[i], rest);
      EscapedReads(s, i + 1, x);
      assert [s[i]] + s[i + 1..] == s[i..];
    }
  }

  /** A quotation is read back as its string, whatever follows it. */
  lemma {:induction false} QuotedReads(s: Bytes, x: seq<int>)
    ensures var t := Quoted(s) + x; t != [] && t[0] == '"' as int && ReadString(t[1..]) == Some((s, x))
  {
    hide EscapeFrom, ReadString;
    EscapedReads(s, 0, x);
    assert (Quoted(s) + x)[1..] == EscapeFrom(s, 0) + [QUOTE] + x && s[0..] == s;
  }

  // ----- Numbers, section 6 -----

  predicate IsDigit(c: int) { '0' as int <= c <= '9' as int }

  /** The length of the longest run of digits at the front. */
  function DigitRun(t: seq<int>): (n: nat)
    ensures n <= |t| && forall i :: 0 <= i < n ==> IsDigit(t[i])
    ensures n < |t| ==> !IsDigit(t[n])
  {
    if t == [] || !IsDigit(t[0]) then 0 else 1 + DigitRun(t[1..])
  }

  function DigitOf(c: int): nat
    requires IsDigit(c)
  {
    c - '0' as int
  }

  function DigitValues(t: seq<int>): (r: seq<nat>)
    requires forall i :: 0 <= i < |t| ==> IsDigit(t[i])
    ensures |r| == |t| && forall i :: 0 <= i < |t| ==> r[i] == DigitOf(t[i])
  {
    seq(|t|, i requires 0 <= i < |t| => DigitOf(t[i]))
  }

  /** A numeral in base ten. */
  function ValueOf(digits: seq<nat>): nat {
    if digits == [] then 0 else ValueOf(digits[..|digits| - 1]) * 10 + digits[|digits| - 1]
  }

  /** The number d.ddd times ten to the `e`, with its leading and trailing zero digits removed. */
  function Normal(negative: bool, digits: seq<nat>, e: int): Number
    decreases |digits|
  {
    if digits == [] then (if negative then NegativeZero else Zero)
    else if digits[0] == 0 then Normal(negative, digits[1..], e - 1)
    else if digits[|digits| - 1] == 0 then Normal(negative, digits[..|digits| - 1], e)
    else Decimal(negative, digits, e)
  }

  /** The optional fraction: its digits, and what follows. */
  function ReadFraction(t: seq<int>): (r: Option<(seq<nat>, seq<int>)>)
    ensures r.Some? ==> |r.value.1| <= |t|
  {
    if t == [] || t[0] != '.' as int then Some(([], t)) else
    var n := DigitRun(t[1..]);
    if n == 0 then None else Some((DigitValues(t[1..][..n]), t[1..][n..]))
  }

  /** The optional exponent: its value, and what follows. */
  function ReadExponent(t: seq<int>): (r: Option<(int, seq<int>)>)
    ensures r.Some? ==> |r.value.1| <= |t|
  {
    if t == [] || (t[0] != 'e' as int && t[0] != 'E' as int) then Some((0, t)) else
    var signed := |t| > 1 && (t[1] == '+' as int || t[1] == '-' as int);
    var u := if signed then t[2..] else t[1..];
    var n := DigitRun(u);
    if n == 0 then None else
    var e: int := ValueOf(DigitValues(u[..n]));
    Some((if signed && t[1] == '-' as int then -e else e, u[n..]))
  }

  function ReadUnsigned(negative: bool, u: seq<int>): (r: Option<(Number, seq<int>)>)
    ensures r.Some? ==> |r.value.1| < |u|
  {
    var n := DigitRun(u);
    if n == 0 || (n > 1 && u[0] == '0' as int) then None else
    match ReadFraction(u[n..])
    case None => None
    case Some((fraction, v)) =>
      match ReadExponent(v)
      case None => None
      case Some((e, rest)) => Some((Normal(negative, DigitValues(u[..n]) + fraction, n - 1 + e), rest))
  }

  function ReadNumber(t: seq<int>): (r: Option<(Number, seq<int>)>)
    ensures r.Some? ==> |r.value.1| < |t|
  {
    if t != [] && t[0] == '-' as int then ReadUnsigned(true, t[1..]) else ReadUnsigned(false, t)
  }

  /** What may follow a number in a text. */
  predicate Ends(x: seq<int>) { x == [] || (!IsDigit(x[0]) && x[0] != '.' as int && x[0] != 'e' as int && x[0] != 'E' as int) }

  lemma {:induction false} RunOf(a: seq<int>, x: seq<int>)
    requires forall i :: 0 <= i < |a| ==> IsDigit(a[i])
    requires x == [] || !IsDigit(x[0])
    ensures DigitRun(a + x) == |a| && (a + x)[..|a|] == a && (a + x)[|a|..] == x
    decreases |a|
  {
    if a != [] {
      RunOf(a[1..], x);
      assert (a + x)[1..] == a[1..] + x;
    } else {
      assert a + x == x;
    }
  }

  lemma {:induction false} DigitTextReads(digits: seq<nat>)
    requires forall i :: 0 <= i < |digits| ==> digits[i] <= 9
    ensures forall i :: 0 <= i < |digits| ==> IsDigit(DigitText(digits)[i])
    ensures DigitValues(DigitText(digits)) == digits
  {
  }

  lemma {:induction false} NaturalReads(n: nat)
    ensures forall i :: 0 <= i < |Natural(n)| ==> IsDigit(Natural(n)[i])
    ensures ValueOf(DigitValues(Natural(n))) == n
  {
    var t := Natural(n);
    if n >= 10 {
      NaturalReads(n / 10);
      assert DigitValues(t)[..|t| - 1] == DigitValues(Natural(n / 10));
    } else {
      assert DigitValues(t)[..0] == [];
    }
  }

  lemma {:induction false} NormalShortest(negative: bool, digits: seq<nat>, e: int)
    requires ShortestDigits(digits)
    ensures Normal(negative, digits, e) == Decimal(negative, digits, e)
  {
  }

  lemma {:induction false} NormalTrailing(negative: bool, digits: seq<nat>, zeros: nat, e: int)
    requires ShortestDigits(digits)
    ensures Normal(negative, digits + seq(zeros, _ => 0), e) == Decimal(negative, digits, e)
    decreases zeros
  {
    var s := digits + seq(zeros, _ => 0);
    assert s[0] == digits[0];
    if zeros == 0 {
      assert s == digits;
    } else {
      NormalTrailing(negative, digits, zeros - 1, e);
      assert s[..|s| - 1] == digits + seq(zeros - 1, _ => 0);
    }
  }

  lemma {:induction false} NormalLeading(negative: bool, digits: seq<nat>, zeros: nat, e: int)
    requires ShortestDigits(digits)
    ensures Normal(negative, seq(zeros, _ => 0) + digits, e) == Decimal(negative, digits, e - zeros)
    decreases zeros
  {
    var s := seq(zeros, _ => 0) + digits;
    if zeros == 0 {
      assert s == digits;
    } else {
      NormalLeading(negative, digits, zeros - 1, e - 1);
      assert s[1..] == seq(zeros - 1, _ => 0) + digits;
    }
  }

  lemma {:induction false} NoFraction(x: seq<int>)
    requires Ends(x)
    ensures ReadFraction(x) == Some(([], x)) && ReadExponent(x) == Some((0, x)) && (x == [] || !IsDigit(x[0]))
  {
  }

  lemma {:induction false} FractionReads(digits: seq<nat>, x: seq<int>)
    requires digits != [] && (forall i :: 0 <= i < |digits| ==> digits[i] <= 9) && (x == [] || !IsDigit(x[0]))
    ensures ReadFraction([POINT] + DigitText(digits) + x) == Some((digits, x))
  {
    hide DigitText, DigitRun;
    var t := [POINT] + DigitText(digits) + x;
    assert t[0] == POINT && t[1..] == DigitText(digits) + x;
    DigitTextReads(digits);
    RunOf(DigitText(digits), x);
  }

  lemma {:induction false} GlueHead(a: int, b: int, n: seq<int>, x: seq<int>)
    ensures var t := [a] + ([b] + n) + x; |t| > 1 && t[0] == a && t[1] == b && t[2..] == n + x
  {
  }

  lemma {:induction false} ExponentParts(e: int, x: seq<int>)
    ensures var t := [EXPONENT] + Signed(e) + x; var n: nat := if e < 0 then -e else e;
      |t| > 1 && t[0] == EXPONENT && t[1] == (if e < 0 then MINUS else PLUS) && t[2..] == Natural(n) + x
  {
    hide Natural;
    GlueHead(EXPONENT, if e < 0 then MINUS else PLUS, Natural(if e < 0 then -e else e), x);
  }

  lemma {:induction false} ExponentReads(e: int, x: seq<int>)
    requires Ends(x)
    ensures ReadExponent([EXPONENT] + Signed(e) + x) == Some((e, x))
  {
    hide DigitRun, Natural, ValueOf, Signed, DigitValues;
    ExponentParts(e, x);
    var n: nat := if e < 0 then -e else e;
    NaturalReads(n);
    RunOf(Natural(n), x);
  }

  /** A whole part, read up to whatever follows it. */
  lemma {:induction false} WholeReads(whole: seq<nat>, y: seq<int>)
    requires whole != [] && (forall i :: 0 <= i < |whole| ==> whole[i] <= 9) && (|whole| > 1 ==> whole[0] != 0)
    requires y == [] || !IsDigit(y[0])
    ensures var u := DigitText(whole) + y;
      && u[0] != MINUS && DigitRun(u) == |whole| && u[..|whole|] == DigitText(whole) && u[|whole|..] == y
      && DigitValues(DigitText(whole)) == whole && (u[0] == '0' as int ==> |whole| == 1)
  {
    hide DigitRun;
    DigitTextReads(whole);
    RunOf(DigitText(whole), y);
    assert (DigitText(whole) + y)[0] == DigitText(whole)[0];
  }

  /** A number after its sign, from its parts. */
  lemma {:induction false} PartsRead(negative: bool, u: seq<int>, whole: seq<nat>, fraction: seq<nat>, e: int,
                   y: seq<int>, v: seq<int>, x: seq<int>)
    requires whole != [] && (forall i :: 0 <= i < |whole| ==> whole[i] <= 9) && (|whole| > 1 ==> whole[0] != 0)
    requires (y == [] || !IsDigit(y[0])) && ReadFraction(y) == Some((fraction, v)) && ReadExponent(v) == Some((e, x))
    requires u == DigitText(whole) + y
    ensures ReadUnsigned(negative, u) == Some((Normal(negative, whole + fraction, |whole| - 1 + e), x)) && u[0] != MINUS
  {
    hide DigitRun, DigitText, ReadFraction, ReadExponent, Normal, DigitValues;
    WholeReads(whole, y);
  }

  lemma {:induction false} SignReads(negative: bool, u: seq<int>)
    requires u != [] && u[0] != MINUS
    ensures ReadNumber((if negative then [MINUS] else []) + u) == ReadUnsigned(negative, u)
  {
    hide ReadUnsigned;
    var t := (if negative then [MINUS] else []) + u;
    assert negative ==> t[0] == MINUS && t[1..] == u;
    assert !negative ==> t == u;
  }

  lemma {:induction false} Glue(a: seq<int>, b: seq<int>, c: seq<int>, x: seq<int>)
    ensures a + b + c + x == a + (b + c + x)
  {
  }

  lemma {:induction false} IntegerParts(digits: seq<nat>, e: int)
    requires ShortestDigits(digits) && FormOf(digits, e).Integer?
    ensures 0 <= e + 1 - |digits| && Layout(digits, e) == DigitText(digits + seq(e + 1 - |digits|, _ => 0))
  {
  }

  lemma {:induction false} SmallParts(digits: seq<nat>, e: int)
    requires ShortestDigits(digits) && FormOf(digits, e).Small?
    ensures e < 0 && Layout(digits, e) == DigitText([0]) + [POINT] + DigitText(seq(-e - 1, _ => 0) + digits)
    ensures [0] + (seq(-e - 1, _ => 0) + digits) == seq(-e, _ => 0) + digits
  {
  }

  lemma {:induction false} ScientificParts(digits: seq<nat>, e: int)
    requires ShortestDigits(digits) && FormOf(digits, e).Scientific?
    ensures Layout(digits, e) ==
      DigitText(digits[..1]) + (if |digits| > 1 then [POINT] + DigitText(digits[1..]) else []) + ([EXPONENT] + Signed(e))
    ensures digits[..1] + digits[1..] == digits
  {
    hide Signed;
  }

  lemma {:induction false} UnsignedReads(negative: bool, digits: seq<nat>, e: int, x: seq<int>)
    requires ShortestDigits(digits) && Ends(x)
    ensures var u := Layout(digits, e) + x;
      ReadUnsigned(negative, u) == Some((Decimal(negative, digits, e), x)) && u[0] != MINUS
  {
    hide ReadUnsigned, Layout;
    match FormOf(digits, e)
    case Integer => IntegerReads(negative, digits, e, x);
    case Fraction => FractionLayoutReads(negative, digits, e, x);
    case Small => SmallReads(negative, digits, e, x);
    case Scientific => ScientificReads(negative, digits, e, x);
  }

  lemma {:induction false} IntegerReads(negative: bool, digits: seq<nat>, e: int, x: seq<int>)
    requires ShortestDigits(digits) && Ends(x) && FormOf(digits, e).Integer?
    ensures var u := Layout(digits, e) + x;
      ReadUnsigned(negative, u) == Some((Decimal(negative, digits, e), x)) && u[0] != MINUS
  {
    hide ReadUnsigned, Normal, ReadFraction, ReadExponent, Layout, DigitText, FormOf;
    IntegerParts(digits, e);
    var whole := digits + seq(e + 1 - |digits|, _ => 0);
    NoFraction(x);
    NormalTrailing(negative, digits, e + 1 - |digits|, e);
    PartsRead(negative, Layout(digits, e) + x, whole, [], 0, x, x, x);
    assert whole + [] == whole;
  }

  lemma {:induction false} FractionLayoutReads(negative: bool, digits: seq<nat>, e: int, x: seq<int>)
    requires ShortestDigits(digits) && Ends(x) && FormOf(digits, e).Fraction?
    ensures var u := Layout(digits, e) + x;
      ReadUnsigned(negative, u) == Some((Decimal(negative, digits, e), x)) && u[0] != MINUS
  {
    hide ReadUnsigned, Normal, ReadFraction, ReadExponent, Layout, DigitText, FormOf;
    FractionParts(digits, e);
    var whole, fraction := digits[..e + 1], digits[e + 1..];
    var y := [POINT] + DigitText(fraction) + x;
    NoFraction(x);
    FractionReads(fraction, x);
    Glue(DigitText(whole), [POINT], DigitText(fraction), x);
    PartsRead(negative, Layout(digits, e) + x, whole, fraction, 0, y, x, x);
    NormalShortest(negative, digits, e);
  }

  lemma {:induction false} SmallReads(negative: bool, digits: seq<nat>, e: int, x: seq<int>)
    requires ShortestDigits(digits) && Ends(x) && FormOf(digits, e).Small?
    ensures var u := Layout(digits, e) + x;
      ReadUnsigned(negative, u) == Some((Decimal(negative, digits, e), x)) && u[0] != MINUS
  {
    hide ReadUnsigned, Normal, ReadFraction, ReadExponent, Layout, DigitText, FormOf;
    SmallParts(digits, e);
    var fraction := seq(-e - 1, _ => 0) + digits;
    var y := [POINT] + DigitText(fraction) + x;
    NoFraction(x);
    FractionReads(fraction, x);
    Glue(DigitText([0]), [POINT], DigitText(fraction), x);
    PartsRead(negative, Layout(digits, e) + x, [0], fraction, 0, y, x, x);
    NormalLeading(negative, digits, -e, 0);
  }

  lemma {:induction false} ScientificReads(negative: bool, digits: seq<nat>, e: int, x: seq<int>)
    requires ShortestDigits(digits) && Ends(x) && FormOf(digits, e).Scientific?
    ensures var u := Layout(digits, e) + x;
      ReadUnsigned(negative, u) == Some((Decimal(negative, digits, e), x)) && u[0] != MINUS
  {
    hide ReadUnsigned, Normal, ReadExponent, Layout, DigitText, FormOf, Signed, ReadFraction;
    ScientificParts(digits, e);
    var v := [EXPONENT] + Signed(e) + x;
    var whole, fraction := digits[..1], digits[1..];
    var middle := if |digits| > 1 then [POINT] + DigitText(fraction) else [];
    ExponentReads(e, x);
    MiddleReads(fraction, middle, v);
    Glue(DigitText(whole), middle, [EXPONENT] + Signed(e), x);
    Glue(middle, [EXPONENT], Signed(e), x);
    GlueTwo(middle, [EXPONENT] + Signed(e), x);
    PartsRead(negative, Layout(digits, e) + x, whole, fraction, e, middle + v, v, x);
    NormalShortest(negative, digits, e);
  }

  lemma {:induction false} GlueTwo(a: seq<int>, b: seq<int>, x: seq<int>)
    ensures a + b + x == a + (b + x)
  {
  }

  lemma {:induction false} MiddleReads(fraction: seq<nat>, middle: seq<int>, v: seq<int>)
    requires forall i :: 0 <= i < |fraction| ==> fraction[i] <= 9
    requires middle == if |fraction| > 0 then [POINT] + DigitText(fraction) else []
    requires v != [] && v[0] == EXPONENT
    ensures ReadFraction(middle + v) == Some((fraction, v)) && middle + v != [] && !IsDigit((middle + v)[0])
  {
    hide DigitText, DigitRun;
    if fraction != [] {
      hide ReadFraction;
      FractionReads(fraction, v);
    } else {
      assert middle + v == v;
    }
  }

  /** The text of a number is read back as that number. */
  lemma {:induction false} NumberReads(n: Number, x: seq<int>)
    requires n.Shortest() && Text(n).Some? && Ends(x)
    ensures ReadNumber(Text(n).value + x) == Some((n, x))
  {
    hide ReadNumber, ReadUnsigned, Layout, ReadFraction, ReadExponent;
    if n.Decimal? {
      var sign := if n.negative then [MINUS] else [];
      UnsignedReads(n.negative, n.digits, n.exponent, x);
      SignReads(n.negative, Layout(n.digits, n.exponent) + x);
      GlueTwo(sign, Layout(n.digits, n.exponent), x);
    } else {
      NoFraction(x);
      assert DigitText([0]) == [ZERO];
      PartsRead(false, [ZERO] + x, [0], [], 0, x, x, x);
      SignReads(false, [ZERO] + x);
      assert [] + ([ZERO] + x) == [ZERO] + x && [0] + [] == [0];
      assert Normal(false, [0], 0) == Normal(false, [0][1..], -1) == Zero;
    }
  }

  // ----- Values, sections 3 to 5 -----

  function Chars(s: string): (r: seq<int>)
    ensures |r| == |s| && forall i :: 0 <= i < |s| ==> r[i] == s[i] as int
  {
    seq(|s|, i requires 0 <= i < |s| => s[i] as int)
  }

  function Literal(t: seq<int>, name: string, v: Value): (r: Option<(Value, seq<int>)>)
    requires name != ""
    ensures r.Some? ==> |r.value.1| < |t|
  {
    if Chars(name) <= t then Some((v, t[|name|..])) else None
  }

  /** A value at the front of a text without white space, and what follows it. */
  function ReadValue(t: seq<int>): (r: Option<(Value, seq<int>)>)
    ensures r.Some? ==> |r.value.1| < |t|
    decreases |t|, 0
  {
    if t == [] then None
    else if t[0] == 'n' as int then Literal(t, "null", Null)
    else if t[0] == 't' as int then Literal(t, "true", Bool(true))
    else if t[0] == 'f' as int then Literal(t, "false", Bool(false))
    else if t[0] == '"' as int then
      match ReadString(t[1..])
      case None => None
      case Some((bytes, rest)) => Some((Str(bytes), rest))
    else if t[0] == '[' as int then
      if |t| > 1 && t[1] == ']' as int then Some((Arr([]), t[2..])) else
      match ReadElements(t[1..])
      case None => None
      case Some((es, rest)) => Some((Arr(es), rest))
    else if t[0] == '{' as int then
      if |t| > 1 && t[1] == '}' as int then Some((Obj([]), t[2..])) else
      match ReadMembers(t[1..])
      case None => None
      case Some((ms, rest)) => Some((Obj(ms), rest))
    else
      match ReadNumber(t)
      case None => None
      case Some((n, rest)) => Some((Num(n), rest))
  }

  /** Elements up to the closing bracket. */
  function ReadElements(t: seq<int>): (r: Option<(seq<Value>, seq<int>)>)
    ensures r.Some? ==> |r.value.1| < |t|
    decreases |t|, 1
  {
    match ReadValue(t)
    case None => None
    case Some((v, u)) =>
      if u == [] then None
      else if u[0] == ']' as int then Some(([v], u[1..]))
      else if u[0] == ',' as int then
        match ReadElements(u[1..])
        case None => None
        case Some((vs, rest)) => Some(([v] + vs, rest))
      else None
  }

  /** Members up to the closing brace. */
  function ReadMembers(t: seq<int>): (r: Option<(seq<Member>, seq<int>)>)
    ensures r.Some? ==> |r.value.1| < |t|
    decreases |t|, 1
  {
    if t == [] || t[0] != '"' as int then None else
    match ReadString(t[1..])
    case None => None
    case Some((name, s)) =>
      if s == [] || s[0] != ':' as int then None else
      match ReadValue(s[1..])
      case None => None
      case Some((v, u)) =>
        if u == [] then None
        else if u[0] == '}' as int then Some(([Member(name, v)], u[1..]))
        else if u[0] == ',' as int then
          match ReadMembers(u[1..])
          case None => None
          case Some((ms, rest)) => Some(([Member(name, v)] + ms, rest))
        else None
  }

  // ----- Canonical texts are read back -----

  /** At every depth, members are in strictly increasing order of the UTF-16 units of their names. */
  ghost predicate Ordered(v: Value) {
    match v
    case Arr(es) => forall i :: 0 <= i < |es| ==> Ordered(es[i])
    case Obj(ms) =>
      && (forall i :: 0 <= i < |ms| ==> Ordered(ms[i].value) && Utf16(ms[i].name).Some?)
      && (forall i, j :: 0 <= i < j < |ms| ==> Less(Utf16(ms[i].name).value, Utf16(ms[j].name).value))
    case _ => true
  }

  ghost predicate ReadAs(t: seq<int>, v: Value, w: Value, x: seq<int>) {
    ReadValue(t) == Some((w, x)) && Equivalent(w, v) && Ordered(w)
  }

  lemma {:induction false} LiteralReads(v: Value, x: seq<int>)
    requires v.Null? || v.Bool?
    ensures Write(v).Some? && ReadAs(Write(v).value + x, v, v, x)
  {
    var t := Write(v).value + x;
    var name := if v.Null? then "null" else if v.b then "true" else "false";
    assert Write(v).value == Chars(name);
    assert t[..|name|] == Chars(name) && t[|name|..] == x;
    assert t[0] == name[0] as int;
  }

  /** The first byte tells which kind of value follows. */
  lemma {:induction false} NumberOpens(n: Number, x: seq<int>)
    requires n.Shortest() && Text(n).Some? && Delimited(x)
    ensures ReadAs(Text(n).value + x, Num(n), Num(n), x)
  {
    hide ReadNumber, Text;
    TextShape(n);
    NumberReads(n, x);
    assert (Text(n).value + x)[0] == Text(n).value[0];
  }

  lemma {:induction false} StringOpens(s: Bytes, x: seq<int>)
    ensures ReadAs(Quoted(s) + x, Str(s), Str(s), x)
  {
    hide ReadString, Quoted;
    QuotedReads(s, x);
  }

  /** A canonical text is read back, whatever may follow it: as an equal value up to member order, with
      the members in canonical order. */
  lemma {:induction false} ReadsBack(v: Value, x: seq<int>) returns (w: Value)
    requires WellFormed(v) && Write(v).Some? && Delimited(x)
    ensures ReadAs(Write(v).value + x, v, w, x)
    decreases v, 2, 0
  {
    hide WellFormed, Write, ElementsFrom, MembersFrom, Print, Placed, ReadAs;
    if v.Arr? {
      w := ArrayReads(v, x);
    } else if v.Obj? {
      w := ObjectReads(v, x);
    } else {
      w := v;
      ScalarReads(v, x);
    }
  }

  lemma {:induction false} ScalarReads(v: Value, x: seq<int>)
    requires WellFormed(v) && Write(v).Some? && Delimited(x) && !v.Arr? && !v.Obj?
    ensures ReadAs(Write(v).value + x, v, v, x)
  {
    hide ReadAs, Quoted;
    if v.Num? {
      NumberOpens(v.n, x);
    } else if v.Str? {
      StringOpens(v.s, x);
    } else {
      LiteralReads(v, x);
    }
  }

  /** An opening bracket, then either the closing one or elements. */
  lemma {:induction false} BracketOpens(t: seq<int>, rest: seq<int>, es: seq<Value>, x: seq<int>)
    requires t == [0x5B] + rest && rest != []
    ensures rest == [0x5D] + x ==> ReadValue(t) == Some((Arr([]), x))
    ensures rest[0] != 0x5D && ReadElements(rest) == Some((es, x)) ==> ReadValue(t) == Some((Arr(es), x))
  {
    hide ReadElements;
    assert t[0] == 0x5B && t[1] == rest[0] && t[1..] == rest && t[2..] == rest[1..];
  }

  lemma {:induction false} ArrayReads(v: Value, x: seq<int>) returns (w: Value)
    requires WellFormed(v) && v.Arr? && Write(v).Some? && Delimited(x)
    ensures ReadAs(Write(v).value + x, v, w, x)
    decreases v, 1, 0
  {
    hide WellFormed, Write, ElementsFrom, ReadElements, ReadValue, Equivalent, Delimited;
    WriteArr(v);
    var body := ElementsFrom(v, 0).value;
    Shift(0x5B, body, 0x5D, x);
    ElementsStep(v, 0, x);
    var es: seq<Value> := [];
    if v.elements == [] {
      assert body + [0x5D] + x == [0x5D] + x;
    } else {
      es := ElementsRead(v, 0, x);
      ElementsOpen(v, 0, x);
      NoSeparator(Write(v.elements[0]).value + (ElementsFrom(v, 1).value + [0x5D] + x));
    }
    BracketOpens(Write(v).value + x, body + [0x5D] + x, es, x);
    w := Arr(es);
    EquivalentArr(w, v);
  }

  lemma {:induction false} NoSeparator(t: seq<int>)
    ensures Separator(0) + t == t
  {
  }

  /** The elements from the `i`th on. */
  lemma {:induction false} ElementsRead(v: Value, i: nat, x: seq<int>) returns (es: seq<Value>)
    requires WellFormed(v) && v.Arr? && i < |v.elements| && ElementsFrom(v, i).Some?
    ensures ElementsFrom(v, i + 1).Some? && Write(v.elements[i]).Some?
    ensures ReadElements(Write(v.elements[i]).value + (ElementsFrom(v, i + 1).value + [0x5D] + x)) == Some((es, x))
    ensures |es| == |v.elements| - i && forall k :: 0 <= k < |es| ==> Equivalent(es[k], v.elements[i + k]) && Ordered(es[k])
    decreases v, 0, |v.elements| - i
  {
    hide WellFormed, Write, ElementsFrom, Equivalent, Ordered, ReadValue;
    ElementsStep(v, i, x);
    ElementsStep(v, i + 1, x);
    Child(v);
    var after := ElementsFrom(v, i + 1).value + [0x5D] + x;
    var e := ReadsBack(v.elements[i], after);
    if i + 1 == |v.elements| {
      assert after == [0x5D] + x && after[1..] == x;
      es := [e];
    } else {
      var more := ElementsRead(v, i + 1, x);
      var next := Write(v.elements[i + 1]).value + (ElementsFrom(v, i + 2).value + [0x5D] + x);
      assert after == [COMMA] + next && after[1..] == next;
      es := [e] + more;
    }
  }

  lemma {:induction false} ObjectReads(v: Value, x: seq<int>) returns (w: Value)
    requires WellFormed(v) && v.Obj? && Write(v).Some? && Delimited(x)
    ensures ReadAs(Write(v).value + x, v, w, x)
    decreases v, 1, 0
  {
    hide WellFormed, Write, MembersFrom, ReadMembers, Equivalent, Placed, Quoted, Ordered, Print;
    WriteObj(v);
    var ps := Placed(v);
    var body := MembersFrom(ps, 0);
    Shift(0x7B, body, 0x7D, x);
    var t := Write(v).value + x;
    assert t[0] == 0x7B && t[1..] == body + [0x7D] + x;
    MembersStep(ps, 0, x);
    var ms := [];
    if v.members == [] {
      assert body + [0x7D] + x == [0x7D] + x && t[2..] == x;
    } else {
      ms := MembersRead(v, 0, x);
      MembersOpen(ps, 0, x);
      assert t[1] == (body + [0x7D] + x)[0];
      NoSeparator(Quoted(ps[0].name) + ([COLON] + (ps[0].text + (MembersFrom(ps, 1) + [0x7D] + x))));
    }
    w := Obj(ms);
    MembersMatch(v, ms);
  }

  /** The placed members from the `i`th on. */
  lemma {:induction false} MembersRead(v: Value, i: nat, x: seq<int>) returns (ms: seq<Member>)
    requires WellFormed(v) && v.Obj? && i < |v.members| && Print(v, |v.members|).Some?
    ensures var ps := Placed(v);
      ReadMembers(Quoted(ps[i].name) + ([COLON] + (ps[i].text + (MembersFrom(ps, i + 1) + [0x7D] + x)))) == Some((ms, x))
    ensures |ms| == |v.members| - i
    ensures forall k :: 0 <= k < |ms| ==> MemberOf(v, i + k, ms[k])
    decreases v, 0, |v.members| - i
  {
    hide WellFormed, Write, MembersFrom, Equivalent, Ordered, ReadValue, Quoted, Placed, Print, ReadString, MemberOf;
    var ps := Placed(v);
    MembersStep(ps, i, x);
    MembersStep(ps, i + 1, x);
    Child(v);
    var after := MembersFrom(ps, i + 1) + [0x7D] + x;
    var n := SourceOf(v, i);
    var e := ReadsBack(v.members[n].value, after);
    var colon := [COLON] + (ps[i].text + after);
    QuotedReads(ps[i].name, colon);
    assert colon[1..] == ps[i].text + after;
    MemberRead(v, i, n, e);
    if i + 1 == |ps| {
      assert after == [0x7D] + x && after[1..] == x;
      ms := [Member(ps[i].name, e)];
    } else {
      var more := MembersRead(v, i + 1, x);
      var next := Quoted(ps[i + 1].name) + ([COLON] + (ps[i + 1].text + (MembersFrom(ps, i + 2) + [0x7D] + x)));
      assert after == [COMMA] + next && after[1..] == next;
      ms := [Member(ps[i].name, e)] + more;
    }
  }

  /** `m` is what the `k`th placed member is read as. */
  ghost predicate MemberOf(v: Value, k: nat, m: Member)
    requires v.Obj? && Print(v, |v.members|).Some?
  {
    k < |v.members| && m.name == Placed(v)[k].name && Ordered(m.value)
    && exists n: nat :: n < |v.members| && From(v, Placed(v)[k], n) && Equivalent(m.value, v.members[n].value)
  }

  lemma {:induction false} MemberRead(v: Value, k: nat, n: nat, e: Value)
    requires v.Obj? && Print(v, |v.members|).Some? && k < |v.members| && n < |v.members|
    requires From(v, Placed(v)[k], n) && Equivalent(e, v.members[n].value) && Ordered(e)
    ensures MemberOf(v, k, Member(Placed(v)[k].name, e))
  {
    hide Placed, Print, From, Equivalent, Ordered;
  }

  /** The members read back are the members of the value, in canonical order. */
  lemma {:induction false} MembersMatch(v: Value, ms: seq<Member>)
    requires WellFormed(v) && v.Obj? && Print(v, |v.members|).Some? && |ms| == |v.members|
    requires forall k :: 0 <= k < |ms| ==> MemberOf(v, k, ms[k])
    ensures Equivalent(Obj(ms), v) && Ordered(Obj(ms))
  {
    hide Write, Placed, Print, WellFormed, Equivalent;
    var w := Obj(ms);
    forall i | 0 <= i < |ms| ensures HasRight(w, i, v) {
      assert MemberOf(v, i, ms[i]);
      var n: nat :| n < |v.members| && From(v, Placed(v)[i], n) && Equivalent(ms[i].value, v.members[n].value);
      assert Paired(w, i, v, n);
    }
    forall j | 0 <= j < |v.members| ensures HasLeft(w, v, j) {
      var k := PlaceOf(v, j);
      assert MemberOf(v, k, ms[k]);
      var n: nat :| n < |v.members| && From(v, Placed(v)[k], n) && Equivalent(ms[k].value, v.members[n].value);
      SameName(v, n, j);
      assert Paired(w, k, v, j);
    }
    EquivalentObj(w, v);
    MembersOrdered(v, ms);
  }

  lemma {:induction false} SameName(v: Value, n: nat, j: nat)
    requires WellFormed(v) && v.Obj? && n < |v.members| && j < |v.members| && v.members[n].name == v.members[j].name
    ensures n == j
  {
  }

  lemma {:induction false} MembersOrdered(v: Value, ms: seq<Member>)
    requires WellFormed(v) && v.Obj? && Print(v, |v.members|).Some? && |ms| == |v.members|
    requires forall k :: 0 <= k < |ms| ==> MemberOf(v, k, ms[k])
    ensures Ordered(Obj(ms))
  {
    hide Write, Placed, Print, WellFormed, Equivalent, Utf16, Less;
    PlacedInOrder(v);
    forall i | 0 <= i < |ms| ensures Ordered(ms[i].value) && Utf16(ms[i].name).Some? { assert MemberOf(v, i, ms[i]); }
    forall i, j | 0 <= i < j < |ms| ensures Less(Utf16(ms[i].name).value, Utf16(ms[j].name).value) {
      assert MemberOf(v, i, ms[i]) && MemberOf(v, j, ms[j]);
      assert Less(PrintedKey(Placed(v)[i]), PrintedKey(Placed(v)[j]));
    }
  }

  /** Canonical bytes are JSON for the value they were written from. */
  lemma {:induction false} CanonicalReads(v: Value)
    requires WellFormed(v) && Write(v).Some?
    ensures exists w :: ReadAs(Write(v).value, v, w, [])
  {
    hide Write, ReadAs;
    var w := ReadsBack(v, []);
    assert Write(v).value + [] == Write(v).value;
  }
}
