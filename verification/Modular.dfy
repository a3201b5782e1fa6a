// Facts about quotients and remainders by a variable.

module Modular {

  lemma {:induction false} MulAtLeast(k: int, n: nat)
    requires k >= 1
    ensures k * n >= n
    decreases k
  {
    if k > 1 {
      MulAtLeast(k - 1, n);
      assert k * n == (k - 1) * n + n;
    }
  }

  /// Quotient and remainder are unique.
  lemma DivModUnique(x: nat, n: nat, q: int, t: nat)
    requires n > 0 && x == q * n + t && t < n
    ensures x / n == q && x % n == t
  {
    var p := x / n;
    assert x == p * n + x % n;
    if q > p {
      assert (q - p) * n == q * n - p * n;
      MulAtLeast(q - p, n);
    } else if q < p {
      assert (p - q) * n == p * n - q * n;
      MulAtLeast(p - q, n);
    }
  }

  lemma AddMultiple(base: nat, k: nat, n: nat)
    requires n > 0
    ensures (base + k * n) % n == base % n
  {
    var q := base / n;
    assert (q + k) * n == q * n + k * n;
    DivModUnique(base + k * n, n, q + k, base % n);
  }

  lemma RoundUp(x: nat, n: nat)
    requires x > 0 && n > 0
    ensures x <= (x + n - 1) / n * n < x + n
  {
    var y := x + n - 1;
    assert y == y / n * n + y % n;
  }

  /// Two numbers with the same remainder are equal or at least `n` apart.
  lemma ModApart(a: nat, b: nat, n: nat)
    requires n > 0 && a < b && a % n == b % n
    ensures b - a >= n
  {
    var p, q := a / n, b / n;
    assert a == p * n + a % n && b == q * n + b % n;
    assert b - a == (q - p) * n;
    if q > p {
      MulAtLeast(q - p, n);
    }
  }

  lemma NextMod(x: nat, n: nat)
    requires n > 0
    ensures (x + 1) % n == if x % n + 1 < n then x % n + 1 else 0
  {
    var q, t := x / n, x % n;
    assert x == q * n + t;
    if t + 1 < n {
      DivModUnique(x + 1, n, q, t + 1);
    } else {
      assert x + 1 == (q + 1) * n + 0;
      DivModUnique(x + 1, n, q + 1, 0);
    }
  }

  lemma SmallMod(x: nat, n: nat)
    requires n > 0 && x < 2 * n
    ensures x % n == if x < n then x else x - n
  {
    DivModUnique(x, n, if x < n then 0 else 1, if x < n then x else x - n);
  }
}
