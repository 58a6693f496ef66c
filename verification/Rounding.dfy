/** Rounding to the nearest integer or decimal, ties to the even one, on exact numbers. */
module Rounding {

  function Round(x: real): int {
    var f := x.Floor;
    var d := x - f as real;
    if d < 0.5 then f else if d > 0.5 then f + 1 else if f % 2 == 0 then f else f + 1
  }

  lemma RoundIsMonotone(x: real, y: real)
    requires x <= y
    ensures Round(x) <= Round(y)
  {
    assert x.Floor <= y.Floor;
  }

  lemma RoundFixesIntegers(n: int)
    ensures Round(n as real) == n
  {
  }

  /** Rounding moves a number by at most a half, and from halfway to the even neighbour. */
  lemma TiesGoToEven(x: real, n: int)
    ensures -0.5 <= Round(x) as real - x <= 0.5
    ensures x == n as real + 0.5 ==> Round(x) % 2 == 0
  {
    if x == n as real + 0.5 {
      assert x.Floor == n;
    }
  }

  function Scaled(x: real, unit: nat): real {
    x * unit as real
  }

  function Fraction(n: int, unit: nat): real
    requires unit > 0
  {
    n as real / unit as real
  }

  /** Rounding to multiples of 1 / unit: `unit` is 10 to the number of decimals. */
  function RoundTo(x: real, unit: nat): real
    requires unit > 0
  {
    Fraction(Round(Scaled(x, unit)), unit)
  }

  lemma Cancel(x: real, n: real)
    requires n > 0.0
    ensures x / n * n == x && x * n / n == x
  {
  }

  /** No other multiple of 1 / unit is nearer: the rounded value is at most half a unit away. */
  lemma RoundToIsNear(x: real, unit: nat)
    requires unit > 0
    ensures -0.5 <= Scaled(RoundTo(x, unit), unit) - Scaled(x, unit) <= 0.5
  {
    Cancel(Round(Scaled(x, unit)) as real, unit as real);
  }

  lemma QuotientIsMonotone(x: real, y: real, n: real)
    requires n > 0.0 && x <= y
    ensures x / n <= y / n
  {
    assert y / n - x / n == (y - x) / n >= 0.0;
  }

  lemma ScaledIsMonotone(x: real, y: real, unit: nat)
    requires x <= y
    ensures Scaled(x, unit) <= Scaled(y, unit)
  {
    assert Scaled(y, unit) - Scaled(x, unit) == (y - x) * unit as real;
  }

  lemma FractionIsMonotone(m: int, n: int, unit: nat)
    requires unit > 0 && m <= n
    ensures Fraction(m, unit) <= Fraction(n, unit)
  {
    QuotientIsMonotone(m as real, n as real, unit as real);
  }

  lemma RoundToIsMonotone(x: real, y: real, unit: nat)
    requires unit > 0 && x <= y
    ensures RoundTo(x, unit) <= RoundTo(y, unit)
  {
    hide Round, Scaled, Fraction;
    ScaledIsMonotone(x, y, unit);
    RoundIsMonotone(Scaled(x, unit), Scaled(y, unit));
    FractionIsMonotone(Round(Scaled(x, unit)), Round(Scaled(y, unit)), unit);
  }

  lemma RoundToFixesIntegers(n: int, unit: nat)
    requires unit > 0
    ensures RoundTo(n as real, unit) == n as real
  {
    RoundFixesIntegers(n * unit);
    CastProduct(n, unit);
    hide Round;
    assert Scaled(n as real, unit) == (n * unit) as real;
    Cancel(n as real, unit as real);
  }

  lemma CastProduct(a: int, b: int)
    ensures (a * b) as real == a as real * b as real
  {
  }
}
