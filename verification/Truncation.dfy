// Integer operations of the source language whose meaning differs from Dafny's.
module Truncation {
  /** C++ integer division: the quotient is rounded toward zero. */
  function TruncDiv(a: int, b: int): int
    requires b > 0
  {
    if a >= 0 then a / b else -(-a / b)
  }

  /** C++ remainder: it has the sign of the dividend. */
  function TruncMod(a: int, b: int): int
    requires b > 0
  {
    if a >= 0 then a % b else -(-a % b)
  }

  /** Conversion of an integer to a 16-bit signed integer, the type that stores a year. */
  function ToShort(n: int): int {
    (n + 0x8000) % 0x1_0000 - 0x8000
  }

  /** Conversion of a signed integer to a 32-bit unsigned one. */
  function ToUnsigned(n: int): int {
    n % 0x1_0000_0000
  }

  /** Conversion of an integer to an unsigned byte, the type that stores a week number. */
  function ToByte(n: int): int {
    n % 0x100
  }

  lemma Spread(b: int, d: int)
    requires b > 0
    ensures d >= 1 ==> b * d >= b
    ensures d <= -1 ==> b * d <= -b
  {
  }

  lemma QuotientIs(a: int, b: int, q: int, r: int)
    requires a == b * q + r && 0 <= r < b
    ensures a / b == q && a % b == r
  {
    var d := a / b - q;
    assert b * d == r - a % b;
    Spread(b, d);
  }

  // Every calendar computes its era as "y >= 0 ? y : y - (b - 1)" divided by b; that idiom is floor division.
  lemma FloorIdiom(a: int, b: int)
    requires b > 0
    ensures TruncDiv(if a >= 0 then a else a - (b - 1), b) == a / b
  {
    if a < 0 {
      var q, r := a / b, a % b;
      assert -(a - (b - 1)) == b * (-q) + (b - 1 - r);
      QuotientIs(-(a - (b - 1)), b, -q, b - 1 - r);
    }
  }

  lemma ShortFits(n: int)
    requires -0x8000 <= n < 0x8000
    ensures ToShort(n) == n
  {
  }
}
