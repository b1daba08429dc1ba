/** Division facts the solver should not have to rediscover. */
module Arith {
  lemma MulAtLeast(d: nat, k: int)
    requires d > 0
    ensures k >= 1 ==> d * k >= d
    ensures k <= -1 ==> d * k + d <= 0
  {
    if k >= 1 {
      assert d * k == d * (k - 1) + d;
    } else if k <= -1 {
      assert d * k == d * (k + 1) - d;
    }
  }

  /** Quotient and remainder are determined by their defining equation. */
  lemma DivIs(x: nat, d: nat, q: nat, m: nat)
    requires d > 0 && x == d * q + m && m < d
    ensures x / d == q && x % d == m
  {
    var k := q - x / d;
    assert x == d * (x / d) + x % d;
    assert d * k == d * q - d * (x / d);
    MulAtLeast(d, k);
  }

  lemma DivMonotone(a: nat, b: nat, d: nat)
    requires a <= b && d > 0
    ensures a / d <= b / d
  {
    var k := a / d - b / d;
    assert a == d * (a / d) + a % d && b == d * (b / d) + b % d;
    assert d * k == d * (a / d) - d * (b / d);
    MulAtLeast(d, k);
  }

  lemma DivNat(a: nat, d: nat)
    requires d > 0
    ensures a / d >= 0
  {
    assert a == d * (a / d) + a % d;
    MulAtLeast(d, a / d);
  }

  lemma Distribute(a: int, b: int, c: int)
    ensures a * (b + c) == a * b + a * c
  {}

  /** The smallest p * 2^k that is at least `n`. */
  function NextPowerOfTwo(n: nat, p: nat := 1): (r: nat)
    requires p > 0
    ensures n <= r && (r == p || r < 2 * n)
    decreases if n < p then 0 else n - p
  {
    if n <= p then p else NextPowerOfTwo(n, 2 * p)
  }
}
