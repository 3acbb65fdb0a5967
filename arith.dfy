/** Small facts of real and integer arithmetic that the solver does not find
    on its own in a larger context; each is stated over plain numbers so the
    model lemmas can call it with their own terms. */
module Arith {
  lemma DivAdd(a: real, b: real, m: real)
    requires m > 0.0
    ensures a / m + b / m == (a + b) / m
  {
  }

  lemma ScaleDiv(x: real, m: real)
    requires m > 0.0
    ensures (1.0 / m) * x == x / m
  {
  }

  lemma DivMono(a: real, b: real, m: real)
    requires m > 0.0 && a <= b
    ensures a / m <= b / m
  {
  }

  lemma DivLess(a: real, b: real, m: real)
    requires m > 0.0 && a < b
    ensures a / m < b / m
  {
  }

  lemma DivSub(a: real, b: real, m: real)
    requires m > 0.0
    ensures a / m - b / m == (a - b) / m
  {
  }

  lemma DivSelf(m: real)
    requires m > 0.0
    ensures m / m == 1.0
  {
  }

  /** Dividing by p then by m is dividing by m * p; the left side is written as
      (0 + r/p)/m to match one recurrence step with no direct faces. */
  lemma DivDiv(r: real, m: real, p: real)
    requires m > 0.0 && p > 0.0
    ensures (0.0 + r / p) / m == r / (m * p)
  {
  }

  lemma CancelDiv(m: real, p: real)
    requires m > 0.0 && p > 0.0
    ensures m / (m * p) == 1.0 / p
  {
  }

  lemma DivAntitone(c: real, a: real, b: real)
    requires c > 0.0 && 0.0 < a <= b
    ensures c / b <= c / a
    ensures a < b ==> c / b < c / a
  {
  }

  lemma ShareOfMisses(m: real, c: real)
    requires m > 0.0
    ensures (m - c) / m == 1.0 - c / m
  {
    DivSelf(m);
    DivSub(m, c, m);
  }

  lemma MulBounds(a: real, b: real)
    requires 0.0 <= a <= 1.0 && 0.0 <= b <= 1.0
    ensures 0.0 <= a * b <= a && a * b <= b
  {
    assert a - a * b == a * (1.0 - b);
    assert b - a * b == b * (1.0 - a);
  }

  lemma MulPred(k: int, n: int, s: int)
    ensures k * n + s - n == (k - 1) * n + s
  {
  }

  lemma MulSucc(k: int, n: int)
    ensures (k + 1) * n + 1 == k * n + n + 1
  {
  }

  lemma MulAtLeast(k: int, n: int)
    requires k >= 1 && n >= 1
    ensures k * n >= n
  {
    assert k * n == (k - 1) * n + n;
    assert (k - 1) * n >= 0;
  }

  lemma NonPositiveProduct(d: int, n: int)
    requires n >= 1
    ensures d <= 0 ==> d * n <= 0
  {
    assert (-d) * n == -(d * n);
  }

  lemma CastProducts(n: int)
    ensures (n * (n + 1)) as real == n as real * (n as real + 1.0)
    ensures (2 * (n - 1)) as real == 2.0 * (n as real - 1.0)
    ensures ((n - 1) * n) as real == (n as real - 1.0) * n as real
  {
  }
}
