/** Facts about natural-number division and remainder used by the index
    computations of animations and sprite sheets. */
module Arith {

  lemma DivModOfMultiple(q: nat, l: nat)
    requires l >= 1
    ensures (q * l) / l == q && (q * l) % l == 0
  {
    DivModOfSum(q, l, 0);
  }

  /** Division with remainder, as a fact to call on. */
  lemma DivMod(n: nat, d: nat)
    requires d > 0
    ensures n == (n / d) * d + n % d && 0 <= n % d < d
  {
  }

  /** Division with remainder is unique. */
  lemma DivModOfSum(q: nat, l: nat, m: nat)
    requires m < l
    ensures (q * l + m) / l == q && (q * l + m) % l == m
  {
    var n := q * l + m;
    var d, r := n / l, n % l;
    assert n == d * l + r && 0 <= r < l;
    assert (d - q) * l == m - r;
    SmallMultipleIsZero(d - q, l, m - r);
  }

  /** The only multiple of `l` strictly between `-l` and `l` is 0. */
  lemma SmallMultipleIsZero(a: int, l: nat, e: int)
    requires a * l == e && -(l as int) < e < l
    ensures a == 0
  {
    if a >= 1 {
      MulAtLeast(a, l);
    } else if a <= -1 {
      MulAtLeast(-a, l);
    }
  }

  lemma MulAtLeast(a: int, l: nat)
    requires a >= 1
    ensures a * l >= l
  {
  }

  lemma ModSucc(q: nat, f: nat)
    requires f >= 1
    ensures (q + 1) % f == (q % f + 1) % f
  {
    var d, r := q / f, q % f;
    assert q + 1 == d * f + (r + 1);
    if r + 1 < f {
      DivModOfSum(d, f, r + 1);
    } else {
      assert q + 1 == (d + 1) * f;
      DivModOfMultiple(d + 1, f);
    }
  }

  /** `a + b * A` enumerates `A * B` positions without gaps. */
  lemma IndexBound(a: nat, b: nat, bigA: nat, bigB: nat)
    requires a < bigA && b < bigB
    ensures a + b * bigA < bigA * bigB
  {
    MulMonotone(b, bigB - 1, bigA);
    assert (bigB - 1) * bigA == bigB * bigA - bigA;
  }

  lemma MulMonotone(a: nat, b: nat, c: nat)
    requires a <= b
    ensures a * c <= b * c
  {
  }

  /** `n < a * b` puts `n` in one of the first `b` rows of width `a`. */
  lemma DivLess(n: nat, a: nat, b: nat)
    requires n < a * b
    ensures a > 0 && 0 <= n / a < b && n % a < a
  {
    assert a != 0 by {
      if a == 0 {
        MulZero(b);
      }
    }
    if n / a >= b {
      MulMonotone(b, n / a, a);
    }
  }

  lemma DivNonNegative(n: nat, d: nat)
    requires d > 0
    ensures n / d >= 0 && n % d >= 0
  {
  }

  lemma MulNonNegative(a: nat, b: nat)
    ensures a * b >= 0
  {
  }

  lemma MulZero(b: int)
    ensures 0 * b == 0
  {
  }

  /** Stepping back from a non-multiple stays in the same quotient. */
  lemma PredDiv(n: nat, d: nat)
    requires d > 0 && n % d != 0
    ensures n >= 1 && (n - 1) / d == n / d
  {
    DivMod(n, d);
    assert n - 1 == (n / d) * d + (n % d - 1);
    DivModOfSum(n / d, d, n % d - 1);
  }

  /** Stepping back from a positive multiple lowers the quotient by one. */
  lemma PredDivExact(n: nat, d: nat)
    requires d > 0 && n % d == 0 && n > 0
    ensures n / d >= 1 && (n - 1) / d == n / d - 1
  {
    DivMod(n, d);
    var q := n / d;
    assert n == q * d;
    if q == 0 {
      MulZero(d);
    } else {
      assert n - 1 == (q - 1) * d + (d - 1);
      DivModOfSum(q - 1, d, d - 1);
    }
  }
}
