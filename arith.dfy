/**
 * Facts about integer division and remainder that the digit-string proofs
 * use; each is stated once here so that the proofs about text stay free of
 * non-linear arithmetic.
 */
module Arith {

  lemma DivMod(n: nat, d: nat)
    requires d > 0
    ensures n == n / d * d + n % d && 0 <= n % d < d
  {
  }

  lemma QuotientSmaller(n: nat, radix: nat)
    requires 2 <= radix
    ensures n > 0 ==> n / radix < n
  {
  }

  lemma QuotientPositive(n: nat, d: nat)
    requires 0 < d <= n
    ensures n / d > 0
  {
    DivMod(n, d);
  }

  lemma DivOfSmaller(n: nat, r: nat)
    requires n < r
    ensures n / r == 0 && n % r == n
  {
    ModUnique(n, r, 0, n);
    assert n == (n / r) * r + n % r;
  }

  lemma ModStep(n: nat, r: nat, p: nat)
    requires r > 0 && p > 0
    ensures (n / r % p) * r + n % r == n % (p * r)
  {
    var q, m := n / r, n % r;
    var a, b := q / p, q % p;
    DivMod(n, r);
    DivMod(q, p);
    MulAddDistrib(a, p, b, r);
    MulBelow(b, p, r);
    ModUnique(n, p * r, a, b * r + m);
  }

  lemma MulAddDistrib(a: int, p: int, b: int, r: int)
    ensures (a * p + b) * r == a * (p * r) + b * r
  {
  }

  /** A digit below `p` scaled by `r`, plus a remainder below `r`, stays
      below `p * r`. */
  lemma MulBelow(b: int, p: int, r: int)
    requires 0 <= b < p && r > 0
    ensures 0 <= b * r && b * r + r <= p * r
  {
    assert p * r == (p - b - 1) * r + b * r + r;
    assert (p - b - 1) * r >= 0;
  }

  lemma ModUnique(n: int, d: int, k: int, x: int)
    requires d > 0 && n == k * d + x && 0 <= x < d
    ensures n % d == x
  {
    var k' := n / d;
    if k > k' {
      MulGap(k, k', d);
      assert false;
    } else if k < k' {
      MulGap(k', k, d);
      assert false;
    }
  }

  /** Multiples of `d` at different factors are at least `d` apart. */
  lemma MulGap(a: int, b: int, d: int)
    requires a > b && d > 0
    ensures a * d >= b * d + d
  {
    assert a * d == (a - b - 1) * d + b * d + d;
    assert (a - b - 1) * d >= 0;
  }

  /** Dividing by `a` and then by `b` divides by `a * b`. */
  lemma DivDiv(x: nat, a: nat, b: nat)
    requires a > 0 && b > 0
    ensures x / a / b == x / (a * b)
  {
    var q, r := x / a, x % a;
    var q2, r2 := q / b, q % b;
    DivMod(x, a);
    DivMod(q, b);
    MulAddDistrib(q2, b, r2, a);
    MulBelow(r2, b, a);
    assert x == q2 * (b * a) + (r2 * a + r);
    DivUnique(x, b * a, q2, r2 * a + r);
    assert b * a == a * b;
  }

  lemma DivUnique(n: int, d: int, k: int, x: int)
    requires d > 0 && n == k * d + x && 0 <= x < d
    ensures n / d == k
  {
    var q := n / d;
    ModUnique(n, d, k, x);
    assert n == q * d + x;
    if q > k {
      MulGap(q, k, d);
      assert false;
    } else if q < k {
      MulGap(k, q, d);
      assert false;
    }
  }

  lemma MulSwap(a: int, b: int, c: int)
    ensures a * (b * c) == b * (a * c)
  {
  }
}
