/** The number/text conversions the keypad relies on, over exact reals:
    `parseNumber` (the host's `parseFloat` followed by the validity check),
    `String(number)` for the values the keypad displays, and the
    `roundTo(value, 10)` that `performCalculation` applies to every result.
    Only plain decimal notation is modelled: no exponents, no `Infinity`,
    no leading white space. */
module Decimal {
  import opened Wrappers
  import opened Arithmetic

  /** The number of decimal places `performCalculation` rounds to. */
  const Places: nat := 10

  /** Ten to the power `k`. */
  function Pow10(k: nat): (p: nat)
    ensures p >= 1
  {
    if k == 0 then 1 else 10 * Pow10(k - 1)
  }

  /** `10^Places`, the scale of a rounded result. */
  const Scale: nat := 10_000_000_000

  predicate IsDigit(ch: char) {
    '0' <= ch <= '9'
  }

  predicate AllDigits(s: string) {
    forall i :: 0 <= i < |s| ==> IsDigit(s[i])
  }

  function DigitValue(ch: char): nat
    requires IsDigit(ch)
  {
    (ch - '0') as nat
  }

  function DigitChar(d: nat): (ch: char)
    requires d < 10
    ensures IsDigit(ch) && DigitValue(ch) == d
  {
    ('0' as int + d) as char
  }

  /** The natural number a string of decimal digits denotes. */
  function DigitsValue(s: string): nat
    requires AllDigits(s)
    decreases |s|
  {
    if |s| == 0 then 0 else DigitsValue(s[..|s| - 1]) * 10 + DigitValue(s[|s| - 1])
  }

  /** The length of the longest prefix of `s` made of digits. */
  function LeadingDigits(s: string): (n: nat)
    ensures n <= |s|
    ensures forall i :: 0 <= i < n ==> IsDigit(s[i])
    ensures n < |s| ==> !IsDigit(s[n])
  {
    if |s| == 0 || !IsDigit(s[0]) then 0 else 1 + LeadingDigits(s[1..])
  }

  /** The value of digits read after a decimal point. */
  function Fraction(s: string): real
    requires AllDigits(s)
  {
    DigitsValue(s) as real / Pow10(|s|) as real
  }

  /** `parseFloat` without a sign: the longest prefix of the form
      digits [ '.' digits ], which must hold at least one digit. */
  function ParseUnsigned(s: string): Option<real> {
    var i := LeadingDigits(s);
    ParseAfterWhole(s[..i], s[i..])
  }

  /** The value of the whole digits `whole` followed by `rest`, which
      contributes a fraction when it starts with a point. */
  function ParseAfterWhole(whole: string, rest: string): Option<real>
    requires AllDigits(whole)
  {
    if |rest| > 0 && rest[0] == '.' then
      var f := LeadingDigits(rest[1..]);
      if |whole| == 0 && f == 0 then None
      else Some(DigitsValue(whole) as real + Fraction(rest[1..][..f]))
    else if |whole| == 0 then None
    else Some(DigitsValue(whole) as real)
  }

  /** `parseNumber(text)`: an optional sign, then `ParseUnsigned`. `None` is
      the source's `null` for text that does not start with a number. */
  function Parse(s: string): Option<real> {
    if |s| > 0 && s[0] == '-' then Negated(ParseUnsigned(s[1..]))
    else if |s| > 0 && s[0] == '+' then ParseUnsigned(s[1..])
    else ParseUnsigned(s)
  }

  function Negated(p: Option<real>): Option<real> {
    if p.Some? then Some(-p.value) else None
  }

  /** The decimal digits of `m`, without leading zeros. */
  function NatDigits(m: nat): (s: string)
    ensures |s| > 0 && AllDigits(s)
  {
    if m < 10 then [DigitChar(m)] else NatDigits(m / 10) + [DigitChar(m % 10)]
  }

  /** Exactly `k` digits of `m`, with leading zeros. */
  function FixedDigits(m: nat, k: nat): (s: string)
    ensures |s| == k && AllDigits(s)
  {
    if k == 0 then [] else FixedDigits(m / 10, k - 1) + [DigitChar(m % 10)]
  }

  /** `s` without its trailing zeros. */
  function StripZeros(s: string): (r: string)
    requires AllDigits(s)
    ensures AllDigits(r) && |r| <= |s| && r == s[..|r|]
    ensures |r| > 0 ==> r[|r| - 1] != '0'
  {
    if |s| > 0 && s[|s| - 1] == '0' then StripZeros(s[..|s| - 1]) else s
  }

  /** The text of `n / Scale` for a natural `n`: whole part, then the
      fraction without trailing zeros when it is not zero. */
  function FormatScaled(n: nat): string {
    NatDigits(n / Scale)
      + (if n % Scale == 0 then "" else "." + StripZeros(FixedDigits(n % Scale, Places)))
  }

  /** `String(x)` for the values the keypad displays. Digits past the tenth
      decimal place are dropped; results are rounded to ten places before
      they are shown, so for them nothing is lost. */
  function Format(x: real): string {
    FormatSigned(x < 0.0, Magnitude(x))
  }

  /** `|x|` in units of the tenth decimal place, rounded down. */
  function Magnitude(x: real): int {
    (Abs(x) * Scale as real).Floor
  }

  /** A sign and a magnitude in tenth-place units as text; zero is "0"
      whatever the sign, as `String(-0)` is. */
  function FormatSigned(negative: bool, n: int): string {
    if n <= 0 then "0"
    else if negative then "-" + FormatScaled(n)
    else FormatScaled(n)
  }

  /** Whether `x` has at most ten decimal places. */
  predicate IsScaled(x: real) {
    IsWhole(x * Scale as real)
  }

  /** `roundTo(x, 10)`: `Math.round` of `x * 10^10`, divided back by
      `10^10`. The result is the one value with ten places at most that lies
      within half a tenth-place unit of `x`, a tie going to the larger one
      (`Math.round` rounds halves up, also for negative numbers). */
  function RoundTo(x: real): (r: real)
    ensures IsScaled(r)
    ensures -0.5 < (r - x) * Scale as real <= 0.5
    ensures IsScaled(x) ==> r == x
  {
    var k := (x * Scale as real + 0.5).Floor;
    RoundFacts(x, Scale as real, k);
    RoundKeepsScaled(x, k);
    k as real / Scale as real
  }

  /** A value that already has at most ten decimal places rounds to itself. */
  lemma RoundKeepsScaled(x: real, k: int)
    requires k == (x * Scale as real + 0.5).Floor
    ensures IsScaled(x) ==> k as real / Scale as real == x
  {
    if IsScaled(x) {
      var y := x * Scale as real;
      FloorBounds(y);
      assert k as real == y;
      assert y / Scale as real == x;
    }
  }

  /** Halves round up on both sides of zero: half a tenth-place unit
      below zero rounds to 0, not away from zero to `-10^-10`. */
  lemma HalvesRoundUp()
    ensures RoundTo(0.00000000005) == 0.0000000001
    ensures RoundTo(-0.00000000005) == 0.0
  {
    var r := RoundTo(-0.00000000005);
    var k := (r * Scale as real).Floor;
    assert -1.0 < r * Scale as real <= 0.0;
    assert k == 0;
    var p := RoundTo(0.00000000005);
    assert 0.0 < p * Scale as real <= 1.0;
    assert (p * Scale as real).Floor == 1;
  }

  /** The facts behind `RoundTo`, for any positive scale `s`. */
  lemma RoundFacts(x: real, s: real, k: int)
    requires s > 0.0 && k == (x * s + 0.5).Floor
    ensures ((k as real / s) * s).Floor as real == (k as real / s) * s
    ensures -0.5 < (k as real / s - x) * s <= 0.5
    ensures (x * s).Floor as real == x * s ==> k as real / s == x
  {
    var y := x * s;
    var r := k as real / s;
    FloorBounds(y);
    DivideBack(k as real, s);
    FloorOfWhole(k);
    var d := r - x;
    Distribute(r, x, s);
    if y.Floor as real == y {
      ZeroProduct(d, s);
    }
  }

  lemma FloorBounds(y: real)
    ensures y - 0.5 < (y + 0.5).Floor as real <= y + 0.5
    ensures y.Floor as real == y ==> (y + 0.5).Floor as real == y
  {
    FloorIsBelow(y + 0.5);
    if y.Floor as real == y {
      assert (y + 0.5).Floor == y.Floor;
    }
  }

  lemma FloorIsBelow(y: real)
    ensures y.Floor as real <= y < y.Floor as real + 1.0
  {
  }

  lemma FloorOfWhole(k: int)
    ensures (k as real).Floor == k
  {
  }

  lemma DivideBack(k: real, s: real)
    requires s > 0.0
    ensures (k / s) * s == k
  {
  }

  lemma Distribute(r: real, x: real, s: real)
    ensures (r - x) * s == r * s - x * s
  {
  }

  lemma ZeroProduct(d: real, s: real)
    requires s > 0.0 && d * s == 0.0
    ensures d == 0.0
  {
  }

  // ---- Reading back what was displayed ----

  /** Appending a digit shifts the value one decimal place and adds it. */
  lemma DigitsValueAppend(s: string, ch: char)
    requires AllDigits(s) && IsDigit(ch)
    ensures AllDigits(s + [ch])
    ensures DigitsValue(s + [ch]) == DigitsValue(s) * 10 + DigitValue(ch)
  {
    assert (s + [ch])[..|s|] == s;
  }

  /** The digits of `m` denote `m`. */
  lemma {:induction false} NatDigitsValue(m: nat)
    ensures DigitsValue(NatDigits(m)) == m
  {
    if m >= 10 {
      NatDigitsValue(m / 10);
      DigitsValueAppend(NatDigits(m / 10), DigitChar(m % 10));
    }
  }

  /** `k` digits of a number below `10^k` denote that number. */
  lemma {:induction false} FixedDigitsValue(m: nat, k: nat)
    requires m < Pow10(k)
    ensures DigitsValue(FixedDigits(m, k)) == m
  {
    if k > 0 {
      FixedDigitsValue(m / 10, k - 1);
      DigitsValueAppend(FixedDigits(m / 10, k - 1), DigitChar(m % 10));
    }
  }

  /** Trailing zeros after a decimal point do not change its value. */
  lemma {:induction false} StripZerosFraction(s: string)
    requires AllDigits(s)
    ensures Fraction(StripZeros(s)) == Fraction(s)
    decreases |s|
  {
    if |s| > 0 && s[|s| - 1] == '0' {
      var t := s[..|s| - 1];
      StripZerosFraction(t);
      assert s == t + ['0'];
      DigitsValueAppend(t, '0');
      var dv, pw := DigitsValue(t), Pow10(|t|);
      assert DigitsValue(s) == dv * 10 && Pow10(|s|) == pw * 10;
      CancelTen(dv as real, pw as real);
    }
  }

  lemma CancelTen(v: real, p: real)
    requires p > 0.0
    ensures (v * 10.0) / (p * 10.0) == v / p
  {
  }

  /** Digits followed by a non-digit: the digit prefix is exactly the digits. */
  lemma {:induction false} LeadingDigitsOf(d: string, t: string)
    requires AllDigits(d)
    requires |t| == 0 || !IsDigit(t[0])
    ensures LeadingDigits(d + t) == |d|
    decreases |d|
  {
    if |d| > 0 {
      assert (d + t)[1..] == d[1..] + t;
      LeadingDigitsOf(d[1..], t);
    }
  }

  lemma ScaleIsPow10()
    ensures Scale == Pow10(Places)
  {
    assert Pow10(10) == 10 * Pow10(9) == 100 * Pow10(8) == 1000 * Pow10(7);
    assert Pow10(7) == 10 * Pow10(6) == 100 * Pow10(5) == 1000 * Pow10(4);
    assert Pow10(4) == 10 * Pow10(3) == 100 * Pow10(2) == 1000 * Pow10(1) == 10000;
  }

  /** A whole number in digits reads back as its value. */
  lemma ParseWhole(a: string)
    requires |a| > 0 && AllDigits(a)
    ensures ParseUnsigned(a) == Some(DigitsValue(a) as real)
  {
    LeadingDigitsAll(a);
    assert a[..|a|] == a;
  }

  /** Digits, a point and digits read back as whole part plus fraction. */
  lemma ParsePointed(a: string, f: string)
    requires |a| > 0 && AllDigits(a) && AllDigits(f)
    ensures ParseUnsigned(a + ("." + f)) == Some(DigitsValue(a) as real + Fraction(f))
  {
    var rest := "." + f;
    LeadingDigitsOf(a, rest);
    SplitAt(a, rest);
    assert ParseUnsigned(a + rest) == ParseAfterWhole(a, rest);
    AfterPoint(a, f);
  }

  lemma AfterPoint(a: string, f: string)
    requires |a| > 0 && AllDigits(a) && AllDigits(f)
    ensures ParseAfterWhole(a, "." + f) == Some(DigitsValue(a) as real + Fraction(f))
  {
    var rest := "." + f;
    assert rest[1..] == f;
    LeadingDigitsAll(f);
    assert f[..|f|] == f;
  }

  /** A string of digits is its own digit prefix. */
  lemma LeadingDigitsAll(d: string)
    requires AllDigits(d)
    ensures LeadingDigits(d) == |d|
  {
    LeadingDigitsOf(d, []);
    assert d + [] == d;
  }

  lemma SplitAt(a: string, b: string)
    ensures (a + b)[..|a|] == a && (a + b)[|a|..] == b
  {
  }

  /** Reading back the text of `n / Scale` gives `n / Scale`. */
  lemma ParseFormatScaled(n: nat)
    ensures ParseUnsigned(FormatScaled(n)) == Some(n as real / Scale as real)
  {
    SplitScaled(n, n / Scale, n % Scale);
    NatDigitsValue(n / Scale);
    if n % Scale == 0 {
      ParseScaledWhole(n);
    } else {
      ParseScaledPointed(n);
    }
  }

  /** A multiple of `Scale` is shown as its whole digits only. */
  lemma ParseScaledWhole(n: nat)
    requires n % Scale == 0
    ensures ParseUnsigned(FormatScaled(n)) == Some(DigitsValue(NatDigits(n / Scale)) as real)
  {
    var a := NatDigits(n / Scale);
    assert FormatScaled(n) == a;
    ParseWhole(a);
  }

  /** Any other value is shown as whole digits, a point and the fraction. */
  lemma ParseScaledPointed(n: nat)
    requires n % Scale != 0
    ensures ParseUnsigned(FormatScaled(n))
      == Some(DigitsValue(NatDigits(n / Scale)) as real + (n % Scale) as real / Scale as real)
  {
    var a := NatDigits(n / Scale);
    var f := StripZeros(FixedDigits(n % Scale, Places));
    assert FormatScaled(n) == a + ("." + f);
    ParsePointed(a, f);
    ScaledFraction(n % Scale);
  }

  /** The fraction digits shown for a remainder read back as that
      remainder over `Scale`. */
  lemma ScaledFraction(r: nat)
    requires r < Scale
    ensures Fraction(StripZeros(FixedDigits(r, Places))) == r as real / Scale as real
  {
    var fixed := FixedDigits(r, Places);
    ScaleIsPow10();
    FixedDigitsValue(r, Places);
    StripZerosFraction(fixed);
  }

  /** `n / Scale` is its whole part plus its remainder over `Scale`. */
  lemma SplitScaled(n: nat, q: nat, r: nat)
    requires q == n / Scale && r == n % Scale
    ensures n as real / Scale as real == q as real + r as real / Scale as real
  {
    var s := Scale as real;
    assert n as real == q as real * s + r as real;
    assert (q as real * s + r as real) / s == q as real + r as real / s;
  }

  /** `parseNumber(String(x))` gives back `x` for every `x` with at most ten
      decimal places, in particular for every rounded result. */
  lemma ParseFormat(x: real)
    requires IsScaled(x)
    ensures Parse(Format(x)) == Some(x)
  {
    ScaledMagnitude(x);
    if Magnitude(x) <= 0 {
      ZeroMagnitude(x);
      ParseWhole("0");
    } else {
      UnsignedMagnitude(x);
      var t := FormatScaled(Magnitude(x));
      ParseSigned(t, Abs(x));
      SignedMagnitude(x);
    }
  }

  /** The digits of a non-zero magnitude read back as the absolute value. */
  lemma UnsignedMagnitude(x: real)
    requires Magnitude(x) > 0 && Magnitude(x) as real == Abs(x) * Scale as real
    ensures var t := FormatScaled(Magnitude(x));
      |t| > 0 && IsDigit(t[0]) && ParseUnsigned(t) == Some(Abs(x))
  {
    ParseFormatScaled(Magnitude(x));
    MagnitudeBack(x);
  }

  /** A non-zero value is shown as its magnitude, after a '-' when negative. */
  lemma SignedMagnitude(x: real)
    requires Magnitude(x) > 0
    ensures x < 0.0 ==> Format(x) == "-" + FormatScaled(Magnitude(x)) && -Abs(x) == x
    ensures x >= 0.0 ==> Format(x) == FormatScaled(Magnitude(x)) && Abs(x) == x
  {
  }

  /** Dividing the magnitude of a value with at most ten decimal places by
      `Scale` gives back its absolute value. */
  lemma MagnitudeBack(x: real)
    requires Magnitude(x) > 0 && Magnitude(x) as real == Abs(x) * Scale as real
    ensures Magnitude(x) as nat as real / Scale as real == Abs(x)
  {
    DivideBack(Abs(x), Scale as real);
  }

  /** A value with no magnitude is zero, shown as "0". */
  lemma ZeroMagnitude(x: real)
    requires Magnitude(x) <= 0 && Magnitude(x) as real == Abs(x) * Scale as real
    ensures x == 0.0 && Format(x) == "0"
  {
    ZeroProduct(Abs(x), Scale as real);
  }

  /** Text starting with a digit reads the same with no sign, and negated
      with a leading '-'. */
  lemma ParseSigned(t: string, v: real)
    requires |t| > 0 && IsDigit(t[0]) && ParseUnsigned(t) == Some(v)
    ensures Parse(t) == Some(v) && Parse("-" + t) == Some(-v)
  {
    assert ("-" + t)[1..] == t;
  }

  /** The magnitude of a value with at most ten decimal places, scaled, is whole. */
  lemma ScaledMagnitude(x: real)
    requires IsScaled(x)
    ensures Magnitude(x) as real == Abs(x) * Scale as real
  {
    var s := Scale as real;
    if x < 0.0 {
      assert Abs(x) * s == -(x * s);
      FloorOfWhole(-((x * s).Floor));
    }
  }

  /** Negation keeps the number of decimal places. */
  lemma NegateScaled(v: real)
    requires IsScaled(v)
    ensures IsScaled(-v)
  {
    assert -v * Scale as real == -(v * Scale as real);
    FloorOfWhole(-((v * Scale as real).Floor));
  }

  /** Whole numbers have no decimal places. */
  lemma WholeIsScaled(n: int)
    ensures IsScaled(n as real)
  {
    FloorOfWhole(n * Scale);
  }

  /** A natural number is shown as its digits. */
  lemma FormatNat(n: nat)
    ensures Format(n as real) == NatDigits(n)
  {
    var x := n as real;
    FloorOfWhole(n * Scale);
    assert Magnitude(x) == n * Scale;
    if n > 0 {
      WholeScaledParts(n);
      assert FormatScaled(n * Scale) == NatDigits(n) + "";
    }
  }

  /** A whole number scaled up splits back into itself and no remainder. */
  lemma WholeScaledParts(n: nat)
    ensures (n * Scale) / Scale == n && (n * Scale) % Scale == 0
  {
    var m := n * Scale;
    assert m == n * Scale + 0;
  }

  /** The digits of a positive number do not start with '0'. */
  lemma {:induction false} LeadingDigitNonZero(m: nat)
    requires m >= 1
    ensures NatDigits(m)[0] != '0'
  {
    if m >= 10 {
      LeadingDigitNonZero(m / 10);
      assert NatDigits(m)[0] == NatDigits(m / 10)[0];
    }
  }

  /** The digits of a natural number read back as that number. */
  lemma ParseNatDigits(m: nat)
    ensures Parse(NatDigits(m)) == Some(m as real)
  {
    var s := NatDigits(m);
    assert IsDigit(s[0]);
    ParseWhole(s);
    NatDigitsValue(m);
  }

  /** The negation of a value with at most ten decimal places reads back. */
  lemma NegatedReadsBack(v: real)
    requires IsScaled(v)
    ensures Parse(Format(-v)) == Some(-v)
  {
    NegateScaled(v);
    ParseFormat(-v);
  }
}
