/** The stateless arithmetic primitives of the calculator backend
    (calculator_backend.ts and its JavaScript twin calculator_backend.js).
    Numbers are exact reals; the guards that throw become `Err` results. */
module Arithmetic {
  import opened Wrappers

  /** The errors the primitives throw, one per guard. */
  datatype MathError =
    | DivisionByZero
    | ModuloByZero
    | NegativeRadicand
    | PercentageOfZero
    | DiscountOutOfRange

  /** The message each thrown `Error` carries; the keypad shows it verbatim. */
  function Message(e: MathError): string {
    match e
    case DivisionByZero => "Cannot divide by zero"
    case ModuloByZero => "Cannot calculate modulo with zero"
    case NegativeRadicand => "Cannot calculate square root of negative number"
    case PercentageOfZero => "Cannot calculate percentage of zero"
    case DiscountOutOfRange => "Discount must be between 0 and 100"
  }

  function Add(a: real, b: real): real { a + b }

  function Subtract(a: real, b: real): real { a - b }

  function Multiply(a: real, b: real): real { a * b }

  /** `divide(a, b)`: refuses a zero divisor before dividing; otherwise the
      quotient, which multiplied back by `b` gives `a`. */
  function Divide(a: real, b: real): (r: Result<real, MathError>)
    ensures r.Err? <==> b == 0.0
    ensures r.Err? ==> r.error == DivisionByZero
    ensures r.Ok? ==> Multiply(r.value, b) == a
  {
    if b == 0.0 then Err(DivisionByZero) else Ok(a / b)
  }

  /** Whether a real is a whole number. */
  predicate IsWhole(x: real) {
    x == x.Floor as real
  }

  function Abs(x: real): real {
    if x < 0.0 then -x else x
  }

  /** JavaScript's truncating integer part: rounds toward zero. */
  function Trunc(x: real): (q: int)
    ensures Abs(x - q as real) < 1.0
    ensures x >= 0.0 ==> 0.0 <= q as real <= x
    ensures x <= 0.0 ==> x <= q as real <= 0.0
  {
    if x >= 0.0 then x.Floor else -((-x).Floor)
  }

  /** `modulo(a, b)`: JavaScript's `%`, the remainder of truncating division.
      It refuses a zero divisor; otherwise the remainder differs from `a` by a
      whole multiple of `b`, is smaller than `b` in size, and never has the
      opposite sign to `a`. These three facts determine it uniquely. */
  function Modulo(a: real, b: real): (r: Result<real, MathError>)
    ensures r.Err? <==> b == 0.0
    ensures r.Err? ==> r.error == ModuloByZero
    ensures r.Ok? ==> IsWhole((a - r.value) / b)
    ensures r.Ok? ==> Abs(r.value) < Abs(b)
    ensures r.Ok? && a >= 0.0 ==> r.value >= 0.0
    ensures r.Ok? && a <= 0.0 ==> r.value <= 0.0
  {
    if b == 0.0 then Err(ModuloByZero)
    else
      var q := Trunc(a / b);
      RemainderFacts(a, b, q);
      Ok(a - b * q as real)
  }

  /** The arithmetic behind `Modulo`'s contract, for a quotient truncated toward zero. */
  lemma RemainderFacts(a: real, b: real, q: int)
    requires b != 0.0
    requires q == Trunc(a / b)
    ensures IsWhole((a - (a - b * q as real)) / b)
    ensures Abs(a - b * q as real) < Abs(b)
    ensures a >= 0.0 ==> a - b * q as real >= 0.0
    ensures a <= 0.0 ==> a - b * q as real <= 0.0
  {
    WholeQuotient(a, b, q);
    RemainderBelowDivisor(a, b, q);
    RemainderSign(a, b, q);
  }

  /** The remainder is smaller than the divisor in size. */
  lemma RemainderBelowDivisor(a: real, b: real, q: int)
    requires b != 0.0
    requires q == Trunc(a / b)
    ensures Abs(a - b * q as real) < Abs(b)
  {
    var f := a / b - q as real;
    RemainderAsFraction(a, b, q as real, f);
    ScaledFraction(b, f);
  }

  /** The remainder never has the opposite sign to the dividend. */
  lemma RemainderSign(a: real, b: real, q: int)
    requires b != 0.0
    requires q == Trunc(a / b)
    ensures a >= 0.0 ==> a - b * q as real >= 0.0
    ensures a <= 0.0 ==> a - b * q as real <= 0.0
  {
    var x := a / b;
    var f := x - q as real;
    RemainderAsFraction(a, b, q as real, f);
    SameSign(a, b, x, f);
  }

  /** What `a - b*q` leaves of `a` is `q` lots of `b`. */
  lemma WholeQuotient(a: real, b: real, q: int)
    requires b != 0.0
    ensures IsWhole((a - (a - b * q as real)) / b)
  {
    var p := b * q as real;
    assert a - (a - p) == p;
    assert p / b == q as real;
  }

  /** `a - b*q` is `b` times the fractional part `f = a/b - q`. */
  lemma RemainderAsFraction(a: real, b: real, q: real, f: real)
    requires b != 0.0 && f == a / b - q
    ensures a - b * q == b * f
  {
    assert b * (a / b) == a;
  }

  /** A fraction of size below one, scaled by `b`, stays below `b` in size. */
  lemma ScaledFraction(b: real, f: real)
    requires b != 0.0 && Abs(f) < 1.0
    ensures Abs(b * f) < Abs(b)
  {
    var c, g := Abs(b), Abs(f);
    assert 0.0 <= g < 1.0 && c > 0.0;
    assert Abs(b * f) == c * g by {
      if b > 0.0 && f < 0.0 {
        assert b * f == -(c * g);
      } else if b < 0.0 && f >= 0.0 {
        assert b * f == -(c * g);
      } else if b < 0.0 && f < 0.0 {
        assert b * f == c * g;
      } else {
        assert b * f == c * g;
      }
    }
    assert c * (1.0 - g) > 0.0;
    assert c * (1.0 - g) == c - c * g;
  }

  /** The fractional part left by truncating `x = a / b` carries `x`'s sign,
      so `b` times it carries `a`'s sign. */
  lemma SameSign(a: real, b: real, x: real, f: real)
    requires b != 0.0 && x == a / b && f == x - Trunc(x) as real
    ensures a >= 0.0 ==> b * f >= 0.0
    ensures a <= 0.0 ==> b * f <= 0.0
  {
    assert x >= 0.0 ==> f >= 0.0;
    assert x <= 0.0 ==> f <= 0.0;
    if b > 0.0 {
      assert a >= 0.0 ==> x >= 0.0;
      assert a <= 0.0 ==> x <= 0.0;
    } else {
      assert a >= 0.0 ==> x <= 0.0;
      assert a <= 0.0 ==> x >= 0.0;
    }
  }

  /** `squareRoot(n)`: refuses a negative radicand. The root itself is the
      host's `Math.sqrt`, passed in as `sqrt`. */
  function SquareRoot(n: real, sqrt: real -> real): (r: Result<real, MathError>)
    ensures r.Err? <==> n < 0.0
    ensures r.Err? ==> r.error == NegativeRadicand
    ensures r.Ok? ==> r.value == sqrt(n)
  {
    if n < 0.0 then Err(NegativeRadicand) else Ok(sqrt(n))
  }

  /** `calculatePercentage(value, percentage)`: `percentage` hundredths of `value`. */
  function CalculatePercentage(value: real, percentage: real): real {
    (value * percentage) / 100.0
  }

  /** `getPercentageOf(part, total)`: refuses a zero total; otherwise the
      percentage that, taken of `total`, gives back `part`. */
  function GetPercentageOf(part: real, total: real): (r: Result<real, MathError>)
    ensures r.Err? <==> total == 0.0
    ensures r.Err? ==> r.error == PercentageOfZero
    ensures r.Ok? ==> CalculatePercentage(total, r.value) == part
  {
    if total == 0.0 then Err(PercentageOfZero) else Ok((part / total) * 100.0)
  }

  /** `applyDiscount(price, pct)`: refuses a percentage outside [0, 100];
      otherwise the price less `pct` percent of it, which for a non-negative
      price lies between 0 and the price. */
  function ApplyDiscount(price: real, pct: real): (r: Result<real, MathError>)
    ensures r.Err? <==> pct < 0.0 || pct > 100.0
    ensures r.Err? ==> r.error == DiscountOutOfRange
    ensures r.Ok? ==> r.value == price - price * pct / 100.0
    ensures r.Ok? && price >= 0.0 ==> 0.0 <= r.value <= price
  {
    if pct < 0.0 || pct > 100.0 then Err(DiscountOutOfRange)
    else
      var discount := CalculatePercentage(price, pct);
      assert price >= 0.0 ==> 0.0 <= discount <= price by {
        if price >= 0.0 {
          assert price * pct <= price * 100.0;
        }
      }
      Ok(price - discount)
  }
}
