/** The point rate calculator: the points earned for a spend amount,
    one percent of it, with Java's integer division (which truncates toward zero). */
module Rate {

  /** The configured rate, in percent. */
  const POINT_RATE: int := 1

  /** Java's `/` on int: the quotient rounded toward zero. Dafny's own `/`
      is Euclidean and differs for a negative dividend. */
  function TruncDiv(a: int, b: int): (q: int)
    requires b > 0
    ensures a >= 0 ==> 0 <= q && q * b <= a < (q + 1) * b
    ensures a < 0 ==> q <= 0 && (q - 1) * b < a <= q * b
  {
    if a >= 0 then
      DivBounds(a, b);
      a / b
    else
      DivBounds(-a, b);
      -((-a) / b)
  }

  /** Euclidean division of a non-negative number is its floor. */
  lemma DivBounds(n: int, b: int)
    requires n >= 0 && b > 0
    ensures 0 <= n / b && (n / b) * b <= n < (n / b + 1) * b
  {
    assert n == (n / b) * b + n % b;
  }

  /** Points earned for spending `price`: price * POINT_RATE / 100.
      For a non-negative price this is the floor of one percent and never
      more than the price; for a negative one it rounds toward zero. */
  function CalculateAmount(price: int): (r: int)
    ensures price >= 0 ==> 0 <= r <= price && r * 100 <= price < (r + 1) * 100
    ensures price < 0 ==> price <= r <= 0 && (r - 1) * 100 < price <= r * 100
  {
    TruncDiv(price * POINT_RATE, 100)
  }

  /** Truncation is symmetric: a refund of `price` earns the negation of
      what spending it earns. */
  lemma CalculateAmountOdd(price: int)
    ensures CalculateAmount(-price) == -CalculateAmount(price)
  {
  }

  /** Spending more never earns fewer points. */
  lemma CalculateAmountMonotonic(a: int, b: int)
    requires 0 <= a <= b
    ensures CalculateAmount(a) <= CalculateAmount(b)
  {
  }

  /** The three amounts the calculator's own tests check. */
  lemma CalculateAmountExamples()
    ensures CalculateAmount(10000) == 100
    ensures CalculateAmount(20000) == 200
    ensures CalculateAmount(30000) == 300
  {
  }
}
