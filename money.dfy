/**
 * The money type.  The source keeps amounts as arbitrary-precision decimals;
 * every amount that reaches the ledger has at most two fractional digits, so
 * the model keeps whole cents as integers.  An amount as the caller sends it
 * is kept as a decimal (coefficient, exponent), because the creation check
 * looks at the exponent, not at the value.
 */
module Money {

  /** 0.01, the smallest share, in cents. */
  const MinUnit: int := 1

  /** A decimal value coefficient * 10^exponent, as the decimal library stores it. */
  datatype Decimal = Decimal(coefficient: int, exponent: int)

  function Pow10(n: nat): (r: nat)
    ensures r >= 1
  {
    if n == 0 then 1 else 10 * Pow10(n - 1)
  }

  /** The value of a decimal with at most two fractional digits, in cents. */
  function ToCents(d: Decimal): (c: int)
    requires d.exponent >= -2
    ensures c > 0 <==> d.coefficient > 0
    ensures c == 0 <==> d.coefficient == 0
  {
    SignOfProduct(d.coefficient, Pow10(d.exponent + 2));
    d.coefficient * Pow10(d.exponent + 2)
  }

  lemma SignOfProduct(a: int, p: int)
    requires p >= 1
    ensures a * p > 0 <==> a > 0
    ensures a * p == 0 <==> a == 0
  {
    if a > 0 {
      assert a * p >= a;
    } else if a < 0 {
      assert a * p <= a;
    }
  }

  /** An amount written with exactly two fractional digits has that many cents. */
  lemma CentsRoundTrip(c: int)
    ensures ToCents(Decimal(c, -2)) == c
  {
  }

  /**
   * a / b rounded to a whole number, halves away from zero: the decimal
   * library's Round applied to an exact quotient.
   */
  function RoundDiv(a: int, b: int): (q: int)
    requires b > 0
    // rounding keeps the sign
    ensures a >= 0 ==> q >= 0
    ensures a <= 0 ==> q <= 0
    ensures a == 0 ==> q == 0
  {
    if a >= 0 then (2 * a + b) / (2 * b) else -((-2 * a + b) / (2 * b))
  }

  /**
   * RoundDiv(a, b) is the integer nearest to a / b; a half is rounded away
   * from zero.
   */
  lemma RoundDivNearest(a: int, b: int)
    requires b > 0
    ensures var q := RoundDiv(a, b);
      (a >= 0 ==> 2 * b * q - b <= 2 * a < 2 * b * q + b) &&
      (a < 0 ==> 2 * b * q - b < 2 * a <= 2 * b * q + b)
  {
    if a >= 0 {
      var q := (2 * a + b) / (2 * b);
      assert 2 * b * q <= 2 * a + b < 2 * b * q + 2 * b;
    } else {
      var q := (-2 * a + b) / (2 * b);
      assert 2 * b * q <= -2 * a + b < 2 * b * q + 2 * b;
      assert 2 * b * (-q) == -(2 * b * q);
    }
  }

  /** Rounding halves away from zero is symmetric about zero. */
  lemma RoundDivSymmetric(a: int, b: int)
    requires b > 0
    ensures RoundDiv(-a, b) == -RoundDiv(a, b)
  {
  }

  /** A rounded quotient of a non-negative amount lies between 0 and the amount. */
  lemma RoundDivBounds(a: int, b: int)
    requires a >= 0 && b >= 1
    ensures 0 <= RoundDiv(a, b) <= a
  {
    var q := RoundDiv(a, b);
    RoundDivNearest(a, b);
    MulMonotone(2 * a, 1, b);
    assert 2 * b * q < 2 * b * (a + 1);
    MulCancel(2 * b, q, a + 1);
  }

  /** An exact multiple rounds to itself. */
  lemma RoundDivExact(k: int, b: int)
    requires b > 0
    ensures RoundDiv(k * b, b) == k
  {
    var q := RoundDiv(k * b, b);
    RoundDivNearest(k * b, b);
    assert 2 * b * q - b <= 2 * (k * b) <= 2 * b * q + b;
    assert 2 * (k * b) == 2 * b * k;
    assert 2 * b * (k - 1) < 2 * b * q < 2 * b * (k + 1);
    MulCancel(2 * b, k - 1, q);
    MulCancel(2 * b, q, k + 1);
  }

  lemma MulMonotone(c: int, x: int, y: int)
    requires c >= 0 && x <= y
    ensures c * x <= c * y
  {
  }

  lemma MulCancel(c: int, x: int, y: int)
    requires c > 0 && c * x < c * y
    ensures x < y
  {
  }

  lemma LeqCancel(c: int, x: int, y: int)
    requires c > 0 && c * x <= c * y
    ensures x <= y
  {
  }

  function Min(a: int, b: int): (m: int)
    ensures m <= a && m <= b && (m == a || m == b)
  {
    if a <= b then a else b
  }
}
