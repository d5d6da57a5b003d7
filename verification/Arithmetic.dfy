/** Facts about products and quotients that the solver does not find by itself. */
module Arithmetic {
  function Min(a: int, b: int): int {
    if a < b then a else b
  }

  lemma MulMono(a: int, b: int, c: nat)
    ensures a <= b ==> a * c <= b * c
  {
  }

  /** `k` lies in the block of length `n` numbered `k / n`, and in no other. */
  lemma QuotientIs(k: nat, i: nat, n: nat)
    requires 0 < n
    ensures k / n * n <= k < (k / n + 1) * n
    ensures i * n <= k < (i + 1) * n <==> k / n == i
    ensures k % n == k - k / n * n
  {
    var q := k / n;
    assert k == q * n + k % n;
    MulMono(q + 1, i, n);
    MulMono(i + 1, q, n);
  }

  lemma EqualRemainders(i: nat, j: nat, n: nat)
    requires 0 < n && i <= j
    ensures i % n == j % n <==> (j - i) % n == 0
  {
    var a, b, c := i / n, j / n, (j - i) / n;
    QuotientIs(i, a, n);
    QuotientIs(j, b, n);
    QuotientIs(j - i, c, n);
    Distribute(a, c, n);
    QuotientIs(j, a + c, n);
    if i % n == j % n {
      BlockDifference(i, j, a, b, n);
    }
  }

  lemma BlockDifference(i: nat, j: nat, a: nat, b: nat, n: nat)
    requires 0 < n && i <= j && a == i / n && b == j / n && i % n == j % n
    ensures (j - i) % n == 0
  {
    QuotientIs(i, a, n);
    QuotientIs(j, b, n);
    MulMono(b + 1, a, n);
    Distribute(a, b - a, n);
    QuotientIs(j - i, b - a, n);
  }

  lemma Distribute(a: nat, b: nat, n: nat)
    ensures (a + b) * n == a * n + b * n && (a + b + 1) * n == a * n + (b + 1) * n
  {
  }
}
