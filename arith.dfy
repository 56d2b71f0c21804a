/** Facts about integer division that the chunking proofs rely on. */
module Arith {

  lemma {:induction false} MulAtLeast(k: int, n: int)
    requires k >= 1 && n > 0
    ensures k * n >= n
    decreases k
  {
    if k > 1 {
      MulAtLeast(k - 1, n);
      assert k * n == (k - 1) * n + n;
    }
  }

  /** Quotient and remainder are determined by `a == q * n + r` with `0 <= r < n`. */
  lemma DivModUnique(a: int, n: int, q: int, r: int)
    requires n > 0 && 0 <= r < n && a == q * n + r
    ensures a / n == q && a % n == r
  {
    var q', r' := a / n, a % n;
    assert a == q' * n + r';
    if q' < q {
      assert (q - q') * n == r' - r;
      MulAtLeast(q - q', n);
    } else if q < q' {
      assert (q' - q) * n == r - r';
      MulAtLeast(q' - q, n);
    }
  }

  /** Removing one whole `n` lowers the quotient by one and keeps the remainder. */
  lemma DivModStep(a: int, n: int)
    requires n > 0 && a >= n
    ensures a / n == (a - n) / n + 1 && a % n == (a - n) % n
  {
    assert a == ((a - n) / n + 1) * n + (a - n) % n;
    DivModUnique(a, n, (a - n) / n + 1, (a - n) % n);
  }

  /** A non-empty list of at most `n` items makes one chunk, padded with `n - a` fill values. */
  lemma CeilOfOneChunk(a: int, n: int)
    requires 0 < a <= n
    ensures (a + n - 1) / n == 1 && (n - a % n) % n == n - a
  {
    DivModUnique(a + n - 1, n, 1, a - 1);
    if a < n {
      DivModUnique(a, n, 0, a);
      DivModUnique(n - a, n, 0, n - a);
    } else {
      DivModUnique(n, n, 1, 0);
    }
  }

  /** Cutting one whole chunk off a list of more than `n` items. */
  lemma CeilStep(a: int, n: int)
    requires 0 < n < a
    ensures (a + n - 1) / n == (a - n + n - 1) / n + 1
    ensures (n - a % n) % n == (n - (a - n) % n) % n
  {
    DivModStep(a + n - 1, n);
    DivModStep(a, n);
  }
}
