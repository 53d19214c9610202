/** The text of a JSON number, laid out from its shortest decimal digits as ECMAScript does. How the
    digits of a binary64 value are found is not part of this model: a number is its digits. */
module NumberText {
  import opened Wrappers

  /** Non-finite values and negative zero have no canonical text. A `Decimal` is
      d.ddd times ten to the `exponent`, without leading or trailing zero digits. */
  datatype Number = NonFinite | NegativeZero | Zero | Decimal(negative: bool, digits: seq<nat>, exponent: int) {
    ghost predicate Shortest() {
      Decimal? ==> ShortestDigits(digits)
    }
  }

  ghost predicate ShortestDigits(digits: seq<nat>) {
    && digits != [] && digits[0] != 0 && digits[|digits| - 1] != 0
    && forall i :: 0 <= i < |digits| ==> digits[i] <= 9
  }

  const ZERO := 0x30
  const MINUS := 0x2D
  const PLUS := 0x2B
  const POINT := 0x2E
  const EXPONENT := 0x65

  function DigitText(digits: seq<nat>): (r: seq<int>)
    ensures |r| == |digits| && forall i :: 0 <= i < |r| ==> r[i] == ZERO + digits[i]
  {
    seq(|digits|, i requires 0 <= i < |digits| => ZERO + digits[i])
  }

  function Zeros(n: nat): (r: seq<int>)
    ensures |r| == n && forall i :: 0 <= i < n ==> r[i] == ZERO
  {
    seq(n, _ => ZERO)
  }

  /** `std::to_string` of a non-negative integer. */
  function Natural(n: nat): (r: seq<int>)
    ensures r != [] && forall i :: 0 <= i < |r| ==> ZERO <= r[i] <= ZERO + 9
  {
    if n < 10 then [ZERO + n] else Natural(n / 10) + [ZERO + n % 10]
  }

  function Signed(e: int): seq<int> {
    if e < 0 then [MINUS] + Natural(-e) else [PLUS] + Natural(e)
  }

  /** The four layouts: integer, decimal fraction, small fraction, exponent. */
  datatype Form = Integer | Fraction | Small | Scientific

  function FormOf(digits: seq<nat>, e: int): Form {
    if 0 <= e < 21 then (if |digits| <= e + 1 then Integer else Fraction)
    else if -6 <= e < 0 then Small
    else Scientific
  }

  function Mantissa(digits: seq<nat>): seq<int>
    requires digits != []
  {
    DigitText(digits[..1]) + (if |digits| > 1 then [POINT] + DigitText(digits[1..]) else [])
  }

  function Layout(digits: seq<nat>, e: int): seq<int>
    requires digits != []
  {
    match FormOf(digits, e)
    case Integer => DigitText(digits) + Zeros(e + 1 - |digits|)
    case Fraction => DigitText(digits[..e + 1]) + [POINT] + DigitText(digits[e + 1..])
    case Small => [ZERO, POINT] + Zeros(-e - 1) + DigitText(digits)
    case Scientific => Mantissa(digits) + [EXPONENT] + Signed(e)
  }

  /** `ecmascriptNumber`, with the negative-zero check its callers repeat. */
  function Text(n: Number): Option<seq<int>> {
    match n
    case NonFinite => None
    case NegativeZero => None
    case Zero => Some([ZERO])
    case Decimal(negative, digits, e) =>
      if digits == [] then Some([ZERO])
      else Some((if negative then [MINUS] else []) + Layout(digits, e))
  }

  /** The characters of a number. */
  predicate NumberChar(b: int) {
    ZERO <= b <= ZERO + 9 || b == MINUS || b == PLUS || b == POINT || b == EXPONENT
  }

  // ----- Shape -----

  ghost predicate NumberChars(s: seq<int>) {
    forall i :: 0 <= i < |s| ==> NumberChar(s[i])
  }

  lemma {:induction false} ConcatChars(a: seq<int>, b: seq<int>)
    requires NumberChars(a) && NumberChars(b)
    ensures NumberChars(a + b)
  {
  }

  lemma {:induction false} MantissaShape(digits: seq<nat>)
    requires ShortestDigits(digits)
    ensures NumberChars(Mantissa(digits)) && Mantissa(digits)[0] == ZERO + digits[0]
  {
    if |digits| > 1 {
      ConcatChars([POINT], DigitText(digits[1..]));
      ConcatChars(DigitText(digits[..1]), [POINT] + DigitText(digits[1..]));
    }
    assert DigitText(digits[..1])[0] == ZERO + digits[0];
  }

  lemma {:induction false} LayoutShape(digits: seq<nat>, e: int)
    requires ShortestDigits(digits)
    ensures Layout(digits, e) != [] && NumberChars(Layout(digits, e))
    ensures ZERO <= Layout(digits, e)[0] <= ZERO + 9
    ensures FormOf(digits, e).Small? <==> Layout(digits, e)[0] == ZERO
  {
    match FormOf(digits, e)
    case Integer =>
      ConcatChars(DigitText(digits), Zeros(e + 1 - |digits|));
      assert DigitText(digits)[0] == ZERO + digits[0];
    case Fraction =>
      ConcatChars(DigitText(digits[..e + 1]), [POINT]);
      ConcatChars(DigitText(digits[..e + 1]) + [POINT], DigitText(digits[e + 1..]));
      assert DigitText(digits[..e + 1])[0] == ZERO + digits[0];
    case Small =>
      ConcatChars([ZERO, POINT], Zeros(-e - 1));
      ConcatChars([ZERO, POINT] + Zeros(-e - 1), DigitText(digits));
    case Scientific =>
      MantissaShape(digits);
      ConcatChars(Mantissa(digits), [EXPONENT]);
      ConcatChars(if e < 0 then [MINUS] else [PLUS], Natural(if e < 0 then -e else e));
      ConcatChars(Mantissa(digits) + [EXPONENT], Signed(e));
  }

  lemma {:induction false} TextShape(n: Number)
    requires n.Shortest() && Text(n).Some?
    ensures Text(n).value != [] && NumberChars(Text(n).value)
    ensures Text(n).value[0] == MINUS || ZERO <= Text(n).value[0] <= ZERO + 9
  {
    if n.Decimal? {
      LayoutShape(n.digits, n.exponent);
      ConcatChars(if n.negative then [MINUS] else [], Layout(n.digits, n.exponent));
    }
  }

  // ----- Injectivity -----

  lemma {:induction false} DigitTextInjective(a: seq<nat>, b: seq<nat>)
    requires DigitText(a) == DigitText(b)
    ensures a == b
  {
    forall i | 0 <= i < |a| ensures a[i] == b[i] { assert DigitText(a)[i] == DigitText(b)[i]; }
  }

  /** Of two splits of one text, the longer prefix contains the start of the other's rest. */
  lemma {:induction false} Overrun(a: seq<int>, b: seq<int>, x: seq<int>, y: seq<int>)
    requires a + x == b + y
    ensures |a| < |b| ==> x != [] && x[0] == b[|a|]
  {
    assert |a| < |b| ==> (a + x)[|a|] == (b + y)[|a|];
  }

  /** A separator that occurs in neither prefix splits both texts at the same place. */
  lemma {:induction false} SplitAt(a: seq<int>, b: seq<int>, x: seq<int>, y: seq<int>, c: int)
    requires c !in a && c !in b && a + [c] + x == b + [c] + y
    ensures a == b && x == y
  {
    var s, t := a + [c] + x, b + [c] + y;
    assert s == a + ([c] + x) && t == b + ([c] + y);
    Overrun(a, b, [c] + x, [c] + y);
    Overrun(b, a, [c] + y, [c] + x);
    assert a == s[..|a|] && b == t[..|b|];
    assert x == s[|a| + 1..] && y == t[|b| + 1..];
  }

  lemma {:induction false} NaturalInjective(m: nat, n: nat)
    requires Natural(m) == Natural(n)
    ensures m == n
    decreases m
  {
    if m >= 10 && n >= 10 {
      var a, b := Natural(m), Natural(n);
      assert a[..|a| - 1] == Natural(m / 10) && b[..|b| - 1] == Natural(n / 10);
      assert a[|a| - 1] == ZERO + m % 10 && b[|b| - 1] == ZERO + n % 10;
      NaturalInjective(m / 10, n / 10);
    } else {
      assert m >= 10 ==> |Natural(m)| > 1;
      assert n >= 10 ==> |Natural(n)| > 1;
    }
  }

  lemma {:induction false} SignedInjective(e: int, f: int)
    requires Signed(e) == Signed(f)
    ensures e == f
  {
    assert Signed(e)[0] == Signed(f)[0];
    assert Signed(e)[1..] == if e < 0 then Natural(-e) else Natural(e);
    assert Signed(f)[1..] == if f < 0 then Natural(-f) else Natural(f);
    NaturalInjective(if e < 0 then -e else e, if f < 0 then -f else f);
  }

  lemma {:induction false} MantissaParts(a: seq<nat>)
    requires a != []
    ensures Mantissa(a)[0] == ZERO + a[0]
    ensures DigitText(a[1..]) == if |Mantissa(a)| == 1 then [] else Mantissa(a)[2..]
  {
    if |a| > 1 {
      assert Mantissa(a)[2..] == DigitText(a[1..]);
    }
  }

  lemma {:induction false} MantissaInjective(a: seq<nat>, b: seq<nat>)
    requires a != [] && b != [] && Mantissa(a) == Mantissa(b)
    ensures a == b
  {
    hide Mantissa, DigitText;
    MantissaParts(a);
    MantissaParts(b);
    DigitTextInjective(a[1..], b[1..]);
    assert a == [a[0]] + a[1..] && b == [b[0]] + b[1..];
  }

  lemma {:induction false} FormsDiffer(digits: seq<nat>, e: int)
    requires ShortestDigits(digits)
    ensures FormOf(digits, e).Scientific? <==> EXPONENT in Layout(digits, e)
    ensures FormOf(digits, e).Integer? ==> POINT !in Layout(digits, e)
    ensures FormOf(digits, e).Fraction? ==> POINT in Layout(digits, e)
  {
    var t := Layout(digits, e);
    match FormOf(digits, e)
    case Integer =>
    case Fraction => assert t[e + 1] == POINT;
    case Small =>
    case Scientific => assert t[|Mantissa(digits)|] == EXPONENT;
  }

  lemma {:induction false} FractionParts(a: seq<nat>, e: int)
    requires ShortestDigits(a) && FormOf(a, e).Fraction?
    ensures 0 <= e && e + 1 < |a| && Layout(a, e) == DigitText(a[..e + 1]) + [POINT] + DigitText(a[e + 1..])
    ensures POINT !in DigitText(a[..e + 1]) && a == a[..e + 1] + a[e + 1..]
  {
  }

  lemma {:induction false} FractionInjective(a: seq<nat>, e: int, b: seq<nat>, f: int)
    requires ShortestDigits(a) && ShortestDigits(b) && FormOf(a, e).Fraction? && FormOf(b, f).Fraction?
    requires Layout(a, e) == Layout(b, f)
    ensures a == b && e == f
  {
    hide Layout, DigitText, FormOf, ShortestDigits;
    FractionParts(a, e);
    FractionParts(b, f);
    SplitAt(DigitText(a[..e + 1]), DigitText(b[..f + 1]), DigitText(a[e + 1..]), DigitText(b[f + 1..]), POINT);
    DigitTextInjective(a[..e + 1], b[..f + 1]);
    DigitTextInjective(a[e + 1..], b[f + 1..]);
    assert |a[..e + 1]| == e + 1 && |b[..f + 1]| == f + 1;
  }

  /** Equal texts of equal length cannot trade a last non-zero digit for padding. */
  lemma {:induction false} IntegerInjective(a: seq<nat>, e: int, b: seq<nat>, f: int)
    requires ShortestDigits(a) && ShortestDigits(b) && FormOf(a, e).Integer? && FormOf(b, f).Integer?
    requires Layout(a, e) == Layout(b, f)
    ensures a == b && e == f
  {
    var t := Layout(a, e);
    assert |t| == e + 1 == f + 1;
    assert t[|a| - 1] == ZERO + a[|a| - 1] && t[|b| - 1] == ZERO + b[|b| - 1];
    assert forall i :: |a| <= i < |t| ==> t[i] == ZERO;
    assert forall i :: |b| <= i < |t| ==> t[i] == ZERO;
    assert DigitText(a) == t[..|a|] && DigitText(b) == t[..|b|];
    DigitTextInjective(a, b);
  }

  lemma {:induction false} SmallInjective(a: seq<nat>, e: int, b: seq<nat>, f: int)
    requires ShortestDigits(a) && ShortestDigits(b) && FormOf(a, e).Small? && FormOf(b, f).Small?
    requires Layout(a, e) == Layout(b, f)
    ensures a == b && e == f
  {
    var t := Layout(a, e);
    assert t[1 - e] == ZERO + a[0] && t[1 - f] == ZERO + b[0];
    assert forall i :: 2 <= i < 1 - e ==> t[i] == ZERO;
    assert forall i :: 2 <= i < 1 - f ==> t[i] == ZERO;
    assert DigitText(a) == t[1 - e..] && DigitText(b) == t[1 - f..];
    DigitTextInjective(a, b);
  }

  lemma {:induction false} SameForm(a: seq<nat>, e: int, b: seq<nat>, f: int)
    requires ShortestDigits(a) && ShortestDigits(b) && Layout(a, e) == Layout(b, f)
    ensures FormOf(a, e) == FormOf(b, f)
  {
    hide FormOf, Layout, ShortestDigits;
    LayoutShape(a, e);
    LayoutShape(b, f);
    FormsDiffer(a, e);
    FormsDiffer(b, f);
  }

  lemma {:induction false} LayoutInjective(a: seq<nat>, e: int, b: seq<nat>, f: int)
    requires ShortestDigits(a) && ShortestDigits(b) && Layout(a, e) == Layout(b, f)
    ensures a == b && e == f
  {
    hide FormOf, Layout, ShortestDigits;
    SameForm(a, e, b, f);
    match FormOf(a, e)
    case Integer => IntegerInjective(a, e, b, f);
    case Fraction => FractionInjective(a, e, b, f);
    case Small => SmallInjective(a, e, b, f);
    case Scientific => ScientificInjective(a, e, b, f);
  }

  lemma {:induction false} ScientificInjective(a: seq<nat>, e: int, b: seq<nat>, f: int)
    requires ShortestDigits(a) && ShortestDigits(b) && FormOf(a, e).Scientific? && FormOf(b, f).Scientific?
    requires Layout(a, e) == Layout(b, f)
    ensures a == b && e == f
  {
    hide Signed;
    SplitAt(Mantissa(a), Mantissa(b), Signed(e), Signed(f), EXPONENT);
    MantissaInjective(a, b);
    SignedInjective(e, f);
  }

  /** Numbers with canonical text are told apart by it. */
  lemma {:induction false} TextInjective(m: Number, n: Number)
    requires m.Shortest() && n.Shortest() && Text(m).Some? && Text(m) == Text(n)
    ensures m == n
  {
    if m.Decimal? { LayoutShape(m.digits, m.exponent); }
    if n.Decimal? { LayoutShape(n.digits, n.exponent); }
    var s, t := Text(m).value, Text(n).value;
    if m.Decimal? && n.Decimal? {
      assert s[0] == t[0];
      assert m.negative == n.negative;
      assert Layout(m.digits, m.exponent) == if m.negative then s[1..] else s;
      assert Layout(n.digits, n.exponent) == if n.negative then t[1..] else t;
      LayoutInjective(m.digits, m.exponent, n.digits, n.exponent);
    } else if m.Decimal? {
      NotZero(m);
    } else if n.Decimal? {
      NotZero(n);
    }
  }

  lemma {:induction false} NotZero(n: Number)
    requires n.Decimal? && n.Shortest()
    ensures Text(n) != Some([ZERO])
  {
    LayoutShape(n.digits, n.exponent);
    var t, x := Layout(n.digits, n.exponent), Text(n).value;
    if n.negative {
      assert x[0] == MINUS;
    } else {
      assert x == t;
      if t[0] == ZERO {
        assert t[1] == POINT;
      }
    }
  }

  // ----- The rules of ECMAScript -----

  /** `t` shows the digits from the `i`th up to the `j`th, starting at position `at`. */
  ghost predicate Shows(t: seq<int>, at: int, digits: seq<nat>, i: int, j: int) {
    0 <= at && 0 <= i <= j <= |digits| && at + (j - i) <= |t| && forall k :: i <= k < j ==> t[at + (k - i)] == '0' as int + digits[k]
  }

  ghost predicate ShowsZeros(t: seq<int>, from: int, to: int) {
    0 <= from <= to <= |t| && forall i :: from <= i < to ==> t[i] == '0' as int
  }

  /** A numeral without leading zeros. */
  lemma {:induction false} NaturalPlain(n: nat)
    ensures |Natural(n)| > 1 ==> Natural(n)[0] != '0' as int
    ensures n > 0 ==> Natural(n)[0] != '0' as int
  {
    if n >= 10 { NaturalPlain(n / 10); }
  }

  /** The layout is that of `Number::toString` in ECMA-262, where `k` digits stand for a value with the
      decimal point after the `n`th: plain digits up to 21 of them, a fraction from 0.000001 on, and an
      exponent otherwise. */
  lemma {:induction false} LayoutRules(digits: seq<nat>, e: int)
    requires ShortestDigits(digits)
    ensures var t, n, k := Layout(digits, e), e + 1, |digits|;
      && (k <= n <= 21 ==> |t| == n && Shows(t, 0, digits, 0, k) && ShowsZeros(t, k, n))
      && (0 < n < k && n <= 21 ==>
            |t| == k + 1 && Shows(t, 0, digits, 0, n) && t[n] == '.' as int && Shows(t, n + 1, digits, n, k))
      && (-6 < n <= 0 ==>
            |t| == 2 - n + k && t[0] == '0' as int && t[1] == '.' as int && ShowsZeros(t, 2, 2 - n) && Shows(t, 2 - n, digits, 0, k))
      && (n > 21 || n <= -6 ==> var p := if k == 1 then 1 else k + 1;
            && |t| > p + 1 && Shows(t, 0, digits, 0, 1)
            && (k > 1 ==> t[1] == '.' as int && Shows(t, 2, digits, 1, k))
            && t[p] == 'e' as int && t[p + 1] == (if e < 0 then '-' as int else '+' as int)
            && t[p + 2..] == Natural(if e < 0 then -e else e))
  {
    hide Natural, Layout, Shows, ShowsZeros;
    if e < -6 || e >= 21 {
      ScientificRule(digits, e);
    } else if e < 0 {
      SmallRule(digits, e);
    } else if |digits| <= e + 1 {
      IntegerRule(digits, e);
    } else {
      FractionRule(digits, e);
    }
  }

  lemma {:induction false} IntegerRule(digits: seq<nat>, e: int)
    requires ShortestDigits(digits) && |digits| <= e + 1 <= 21
    ensures var t := Layout(digits, e);
      |t| == e + 1 && Shows(t, 0, digits, 0, |digits|) && ShowsZeros(t, |digits|, e + 1)
  {
  }

  lemma {:induction false} FractionRule(digits: seq<nat>, e: int)
    requires ShortestDigits(digits) && 0 < e + 1 < |digits| && e + 1 <= 21
    ensures var t, n, k := Layout(digits, e), e + 1, |digits|;
      |t| == k + 1 && Shows(t, 0, digits, 0, n) && t[n] == '.' as int && Shows(t, n + 1, digits, n, k)
  {
    FractionParts(digits, e);
  }

  lemma {:induction false} SmallRule(digits: seq<nat>, e: int)
    requires ShortestDigits(digits) && -6 < e + 1 <= 0
    ensures var t, n, k := Layout(digits, e), e + 1, |digits|;
      && |t| == 2 - n + k && t[0] == '0' as int && t[1] == '.' as int && ShowsZeros(t, 2, 2 - n)
      && Shows(t, 2 - n, digits, 0, k)
  {
  }

  lemma {:induction false} ScientificRule(digits: seq<nat>, e: int)
    requires ShortestDigits(digits) && (e < -6 || e >= 21)
    ensures var t, k := Layout(digits, e), |digits|; var p := if k == 1 then 1 else k + 1;
      && |t| > p + 1 && Shows(t, 0, digits, 0, 1)
      && (k > 1 ==> t[1] == '.' as int && Shows(t, 2, digits, 1, k))
      && t[p] == 'e' as int && t[p + 1] == (if e < 0 then '-' as int else '+' as int)
      && t[p + 2..] == Natural(if e < 0 then -e else e)
  {
    hide Natural, Mantissa, FormOf;
    var m, tail := Mantissa(digits), Natural(if e < 0 then -e else e);
    var sign := if e < 0 then MINUS else PLUS;
    ScientificForm(digits, e);
    MantissaShows(digits);
    Affix(m, EXPONENT, sign, tail);
    ShowsMore(m, [EXPONENT] + ([sign] + tail), digits);
  }

  lemma {:induction false} ScientificForm(digits: seq<nat>, e: int)
    requires ShortestDigits(digits) && (e < -6 || e >= 21)
    ensures Layout(digits, e) == Mantissa(digits) + [EXPONENT] + ([if e < 0 then MINUS else PLUS] + Natural(if e < 0 then -e else e))
  {
    hide Natural, Mantissa;
  }

  lemma {:induction false} Affix(m: seq<int>, a: int, b: int, tail: seq<int>)
    ensures var t := m + [a] + ([b] + tail);
      t == m + ([a] + ([b] + tail)) && |t| > |m| + 1 && t[|m|] == a && t[|m| + 1] == b && t[|m| + 2..] == tail
  {
  }

  lemma {:induction false} MantissaShows(digits: seq<nat>)
    requires ShortestDigits(digits)
    ensures var m, k := Mantissa(digits), |digits|;
      |m| == (if k == 1 then 1 else k + 1) && Shows(m, 0, digits, 0, 1) && (k > 1 ==> m[1] == '.' as int && Shows(m, 2, digits, 1, k))
  {
  }

  /** Appending to a text keeps what its front shows. */
  lemma {:induction false} ShowsMore(m: seq<int>, x: seq<int>, digits: seq<nat>)
    requires digits != []
    ensures Shows(m, 0, digits, 0, 1) ==> Shows(m + x, 0, digits, 0, 1)
    ensures |digits| > 1 && Shows(m, 2, digits, 1, |digits|) ==> Shows(m + x, 2, digits, 1, |digits|) && (m + x)[1] == m[1]
  {
  }
}
