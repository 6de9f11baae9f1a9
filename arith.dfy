/** Steps of non-linear integer arithmetic that the solver does not find alone. */
module Arith {

  lemma MulAssoc(a: int, b: int, c: int)
    ensures a * (b * c) == (a * b) * c
  {
  }

  lemma MulDistributes(a: int, x: int, y: int)
    ensures a * (x + y) == a * x + a * y
  {
  }

  lemma MulSwap(a: int, b: int, c: int)
    ensures a * (b * c) == b * (a * c)
  {
  }

  lemma MulMonotone(a: nat, x: nat, y: nat)
    requires x <= y
    ensures a * x <= a * y
  {
    MulDistributes(a, x, y - x);
  }

  lemma DivMod(n: int, b: int)
    requires b >= 1
    ensures n == b * (n / b) + n % b
  {
  }

  /** Euclidean division is unique: q and r are the quotient and remainder of b * q + r. */
  lemma DivModUnique(x: int, b: int, q: int, r: int)
    requires b > 0 && 0 <= r < b && x == b * q + r
    ensures x / b == q && x % b == r
  {
    var q0, r0 := x / b, x % b;
    assert x == b * q0 + r0;
    if q0 < q {
      MulDistributes(b, q0, q - q0);
      MulMonotone(b, 1, q - q0);
    } else if q < q0 {
      MulDistributes(b, q, q0 - q);
      MulMonotone(b, 1, q0 - q);
    }
  }

  /** Dividing a positive number by at least 2 makes it smaller. */
  lemma DivShrinks(n: nat, b: nat)
    requires n > 0 && b >= 2
    ensures 0 <= n / b < n
  {
  }

  /** A number whose quotient is zero is its own remainder. */
  lemma DivZeroMod(n: nat, b: nat)
    requires b >= 1
    ensures n / b == 0 ==> n % b == n && n < b
  {
  }
}
