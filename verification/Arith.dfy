/** Facts about products and quotients that the solver does not find by itself. */
module Arith {
  function Min(a: int, b: int): (m: int)
    ensures m == a || m == b
  {
    if a < b then a else b
  }

  function Max(a: int, b: int): (m: int)
    ensures m == a || m == b
  {
    if a < b then b else a
  }

  lemma MulStep(x: int, y: int, n: int)
    requires n >= 0
    ensures x < y ==> x * n + n <= y * n
  {
    if x < y {
      var k := y - x - 1;
      assert k * n >= 0;
      assert (x + 1 + k) * n == x * n + n + k * n;
    }
  }

  lemma MulMono(x: int, y: int, n: int)
    requires n >= 0
    ensures x <= y ==> x * n <= y * n
  {
    if x <= y {
      assert (y - x) * n >= 0;
    }
  }

  lemma DivFacts(a: int, n: int)
    requires n >= 1
    ensures a == (a / n) * n + a % n && 0 <= a % n < n
  {
  }

  lemma DivLower(a: int, n: int, q: int)
    requires n >= 1 && a >= q * n
    ensures a / n >= q
  {
    DivFacts(a, n);
    MulStep(a / n, q, n);
  }

  lemma DivUpper(a: int, n: int, q: int)
    requires n >= 1 && a < q * n + n
    ensures a / n <= q
  {
    DivFacts(a, n);
    MulStep(q, a / n, n);
  }

  /** Quotient and remainder are unique. */
  lemma DivIs(a: int, n: int, q: int, r: int)
    requires n >= 1 && a == q * n + r && 0 <= r < n
    ensures a / n == q && a % n == r
  {
    DivLower(a, n, q);
    DivUpper(a, n, q);
    DivFacts(a, n);
  }

  lemma DivAtMost(a: int, n: int)
    requires n >= 1 && a >= 0
    ensures 0 <= a / n <= a
  {
    DivLower(a, n, 0);
    MulMono(1, n, a);
    DivUpper(a, n, a);
  }

  lemma ModAddMultiple(k: int, m: nat, y: int)
    requires m >= 1
    ensures (k * m + y) % m == y % m
  {
    DivFacts(y, m);
    var q := y / m;
    assert (k + q) * m == k * m + q * m;
    DivIs(k * m + y, m, k + q, y % m);
  }

  lemma ModScale(x: int, p: int, m: nat)
    requires m >= 1
    ensures (x % m) * p % m == x * p % m
  {
    DivFacts(x, m);
    var k := x / m;
    assert (k * m + x % m) * p == (k * p) * m + (x % m) * p;
    ModAddMultiple(k * p, m, (x % m) * p);
  }

  lemma DivDiv(x: nat, m: nat, n: nat)
    requires m >= 1 && n >= 1
    ensures m * n >= 1 && x / m >= 0 && x / m / n == x / (m * n)
  {
    DivFacts(x, m);
    var a, r := x / m, x % m;
    DivLower(x, m, 0);
    DivFacts(a, n);
    var b, s := a / n, a % n;
    MulMono(1, n, m);
    MulStep(s, n, m);
    MulMono(0, s, m);
    assert x == b * (m * n) + (s * m + r) by {
      assert (b * n + s) * m == b * (m * n) + s * m;
    }
    DivIs(x, m * n, b, s * m + r);
  }
}
