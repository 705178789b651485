// Division of integers by way of floating-point numbers, as the Solar Hijri conversions do it.
module FloatingDivision {
  import opened Truncation

  // The exact quotient.
  function Ratio(a: int, b: int): real
    requires b > 0
  {
    a as real / b as real
  }

  // Division of a 32-bit integer as floating-point numbers: a quotient that is an integer is exact, and any other is
  // off by at most one part in 2^52.
  predicate DoubleQuotient(a: int, b: int, d: real)
    requires b > 0
  {
    var slack := if a < 0 then Ratio(-a, b) else Ratio(a, b);
    && (a % b == 0 ==> d == (a / b) as real)
    && -slack <= (d - Ratio(a, b)) * 0x10_0000_0000_0000 as real <= slack
  }

  // Conversion of a floating-point number to an integer drops its fraction.
  function TruncReal(d: real): int {
    if d >= 0.0 then d.Floor else -((-d).Floor)
  }

  function Product(x: real, y: real): real {
    x * y
  }

  lemma RatioTimes(a: int, b: int)
    requires b > 0
    ensures Product(Ratio(a, b), b as real) == a as real
  {
  }

  lemma Scaled(x: real, y: real, b: real)
    requires b > 0.0
    ensures x < y <==> Product(x, b) < Product(y, b)
    ensures x <= y <==> Product(x, b) <= Product(y, b)
  {
    assert x < y ==> (y - x) * b > 0.0;
    assert x > y ==> (x - y) * b > 0.0;
  }

  lemma Difference(x: real, y: real, b: real, k: real)
    ensures Product(x - y, b) == Product(x, b) - Product(y, b)
    ensures Product((x - y) * k, b) == Product(x - y, b) * k
    ensures Product(-x, b) == -Product(x, b)
  {
  }

  lemma BetweenIntegers(d: real, q: int)
    requires q as real <= d < (q + 1) as real
    ensures d.Floor == q
  {
  }

  // The error, b-fold, is less than one.
  lemma SmallError(a: int, b: int, d: real)
    requires 0 <= a <= 0x8000_0000 && b > 0 && DoubleQuotient(a, b, d)
    ensures -1.0 < Product(d - Ratio(a, b), b as real) < 1.0
  {
    hide Ratio, Product;
    var (x, k, c) := (Ratio(a, b), 0x10_0000_0000_0000 as real, b as real);
    RatioTimes(a, b);
    Scaled((d - x) * k, x, c);
    Scaled(-x, (d - x) * k, c);
    Difference(d, x, c, k);
    Difference(x, x, c, k);
  }

  lemma Successor(x: real, y: real)
    ensures Product(x, y + 1.0) == Product(x, y) + x && Product(x, 0.0) == 0.0
  {
  }

  lemma {:induction false} RealProduct(q: int, b: nat)
    ensures Product(q as real, b as real) == (q * b) as real
  {
    hide Product;
    if b > 0 {
      RealProduct(q, b - 1);
      assert q * b == q * (b - 1) + q;
      Successor(q as real, (b - 1) as real);
    } else {
      Successor(q as real, 0.0);
    }
  }

  lemma Remainder(a: int, b: int)
    requires b > 0 && a % b != 0
    ensures a / b * b + 1 <= a <= (a / b + 1) * b - 1
  {
  }

  lemma BetweenProducts(a: int, b: int, q: int)
    requires b > 0 && a % b != 0 && q == a / b
    ensures Product(q as real, b as real) + 1.0 <= a as real <= Product((q + 1) as real, b as real) - 1.0
  {
    hide Product;
    Remainder(a, b);
    RealProduct(q, b);
    RealProduct(q + 1, b);
  }

  lemma FractionalQuotient(a: int, b: int, q: int, d: real)
    requires 0 <= q && b > 0 && a % b != 0 && q == a / b
    requires -1.0 < Product(d - Ratio(a, b), b as real) < 1.0
    ensures TruncReal(d) == q
  {
    hide Ratio, Product;
    var c, low, high := b as real, q as real, (q + 1) as real;
    Difference(d, Ratio(a, b), c, 1.0);
    RatioTimes(a, b);
    BetweenProducts(a, b, q);
    Scaled(low, d, c);
    Scaled(d, high, c);
    BetweenIntegers(d, q);
  }

  lemma QuotientSign(a: int, b: int)
    requires a >= 0 && b > 0
    ensures a / b >= 0
  {
  }

  lemma ExactQuotient(a: int, b: int, d: real)
    requires b > 0 && a % b == 0 && DoubleQuotient(a, b, d)
    ensures d == (a / b) as real
  {
    hide Ratio;
  }

  lemma NonNegativeQuotient(a: int, b: int, d: real)
    requires 0 <= a <= 0x8000_0000 && b > 0 && DoubleQuotient(a, b, d)
    ensures TruncReal(d) == a / b
  {
    hide Ratio, Product, DoubleQuotient;
    var q := a / b;
    QuotientSign(a, b);
    if a % b == 0 {
      ExactQuotient(a, b, d);
      BetweenIntegers(d, q);
    } else {
      SmallError(a, b, d);
      FractionalQuotient(a, b, q, d);
    }
  }

  lemma NegatedRemainder(a: int, b: int)
    requires b > 0
    ensures -a % b == 0 <==> a % b == 0
    ensures a % b == 0 ==> -a / b == -(a / b)
  {
    if a % b == 0 {
      QuotientIs(-a, b, -(a / b), 0);
    } else {
      QuotientIs(-a, b, -(a / b) - 1, b - a % b);
    }
  }

  lemma NegatedRatio(a: int, b: int)
    requires b > 0
    ensures Ratio(-a, b) == -Ratio(a, b)
  {
  }

  lemma Negated(a: int, b: int, d: real)
    requires a < 0 && b > 0 && DoubleQuotient(a, b, d)
    ensures DoubleQuotient(-a, b, -d)
  {
    hide Ratio;
    NegatedRemainder(a, b);
    NegatedRatio(a, b);
  }

  /** So truncating the floating-point quotient is the integer division. */
  lemma DoubleDivision(a: int, b: int, d: real)
    requires -0x8000_0000 <= a < 0x8000_0000 && b > 0 && DoubleQuotient(a, b, d)
    ensures TruncReal(d) == TruncDiv(a, b)
  {
    hide DoubleQuotient;
    if a >= 0 {
      NonNegativeQuotient(a, b, d);
    } else {
      Negated(a, b, d);
      NonNegativeQuotient(-a, b, -d);
    }
  }
}
