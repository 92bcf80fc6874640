/** Quotients and remainders of integers, kept apart because they are costly to reason about. */
module Residues {

  lemma MultipleBounds(k: int, n: int)
    requires n > 0
    ensures k >= 1 ==> k * n >= n
    ensures k <= -1 ==> k * n <= -n
  {
  }

  lemma ModUnique(x: int, q: int, r: int, n: int)
    requires n > 0 && 0 <= r < n && x == q * n + r
    ensures x % n == r && x / n == q
  {
    assert x == x / n * n + x % n;
    assert (q - x / n) * n == x % n - r;
    MultipleBounds(q - x / n, n);
  }

  lemma ModNear(a: int, b: int, n: int)
    requires n > 0 && 0 < b - a < n
    ensures a % n != b % n
  {
    if a % n == b % n {
      ModUnique(b - a, b / n - a / n, 0, n);
      ModUnique(b - a, 0, b - a, n);
    }
  }

  /** The greatest number below e with remainder c. */
  lemma LastWithRemainder(e: nat, n: int, c: nat)
    requires c < n && c < e
    ensures var i := e - 1 - (e - 1 - c) % n;
            0 <= i < e && i % n == c && forall j :: i < j < e ==> j % n != c
  {
    var q := (e - 1 - c) / n;
    var i := e - 1 - (e - 1 - c) % n;
    assert i == q * n + c;
    MultipleBounds(q, n);
    ModUnique(i, q, c, n);
    forall j | i < j < e ensures j % n != c {
      ModNear(i, j, n);
    }
  }

  lemma ModOfAdd(a: int, b: int, n: int)
    requires n > 0
    ensures (a + b) % n == (a % n + b) % n
  {
    ModUnique(a % n + b, (a % n + b) / n, (a % n + b) % n, n);
    assert a + b == (a / n + (a % n + b) / n) * n + (a % n + b) % n by {
      assert a == a / n * n + a % n;
      assert a % n + b == (a % n + b) / n * n + (a % n + b) % n;
    }
    ModUnique(a + b, a / n + (a % n + b) / n, (a % n + b) % n, n);
  }

  /** One step and then k more, the step reduced first. */
  lemma ModOfStep(a: int, k: int, n: int)
    requires n > 0
    ensures ((a + 1) % n + k) % n == (a + 1 + k) % n
  {
    ModOfAdd(a + 1, k, n);
  }
}
