/** Multiplication and division facts the solver is slow to find by itself. */
module Arith {

  function Min(a: int, b: int): int { if a <= b then a else b }

  function Max(a: int, b: int): int { if a >= b then a else b }

  lemma MulOrdered(a: int, b: int, n: nat)
    requires a <= b
    ensures a * n <= b * n
  {
  }

  /** Quotient and remainder are unique. */
  lemma DivModIs(x: int, q: int, n: nat, r: nat)
    requires r < n && x == q * n + r
    ensures x / n == q && x % n == r
  {
    SamePlace(x / n, x % n, q, r, n);
  }

  lemma SamePlace(a: int, x: nat, b: int, y: nat, n: nat)
    requires x < n && y < n && a * n + x == b * n + y
    ensures a == b && x == y
  {
    if a < b {
      MulOrdered(a + 1, b, n);
    } else if b < a {
      MulOrdered(b + 1, a, n);
    }
  }

  /** Two numbers less than n apart have different remainders, unless equal. */
  lemma RemaindersDiffer(i: int, j: int, n: nat)
    requires i < j < i + n
    ensures i % n != j % n
  {
    if i % n == j % n {
      DivModIs(j - i, j / n - i / n, n, 0);
      DivModIs(j - i, 0, n, j - i);
    }
  }

  lemma QuotientBetween(sum: int, n: nat, lo: int, hi: int)
    requires n > 0 && n * lo <= sum <= n * hi
    ensures lo <= sum / n <= hi
  {
    QuotientAtLeast(sum, n, lo);
    if sum / n > hi {
      MulOrdered(hi + 1, sum / n, n);
    }
  }

  lemma QuotientAtLeast(sum: int, n: nat, lo: int)
    requires n > 0 && n * lo <= sum
    ensures lo <= sum / n
  {
    if sum / n < lo {
      MulOrdered(sum / n + 1, lo, n);
    }
  }

  /** The slot k places after s on a ring of n. */
  lemma RingOffset(s: int, n: nat, k: nat)
    requires k < n
    ensures (s + k) % n == if s % n + k < n then s % n + k else s % n + k - n
  {
    if s % n + k < n {
      DivModIs(s + k, s / n, n, s % n + k);
    } else {
      DivModIs(s + k, s / n + 1, n, s % n + k - n);
    }
  }

  /** The multiple of n at or below x. */
  function RoundDown(x: nat, n: nat): (r: nat)
    requires n > 0
    ensures r == x - x % n == (x / n) * n
  {
    MulOrdered(0, x / n, n);
    x - x % n
  }
}
