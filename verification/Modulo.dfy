/** Remainders, as the wrapping indices of the buffers and of the thread pool need them. */
module Modulo {

  lemma {:induction false} AtLeast(d: nat, n: nat)
    requires d > 0
    ensures d * n >= n
  {
    if d > 1 {
      AtLeast(d - 1, n);
    }
  }

  lemma Remainder(a: nat, q: nat, r: nat, n: nat)
    requires r < n && a == q * n + r
    ensures a % n == r
  {
    var p := a / n;
    assert (p - q) * n == p * n - q * n;
    if p > q {
      AtLeast(p - q, n);
    } else if p < q {
      AtLeast(q - p, n);
    }
  }

  /** A step of at most `n` moves the remainder along, around the end if need be. */
  lemma StepMod(a: nat, d: nat, n: nat)
    requires n > 0 && d <= n
    ensures (a + d) % n == if a % n + d < n then a % n + d else a % n + d - n
  {
    var q := a / n;
    if a % n + d < n {
      Remainder(a + d, q, a % n + d, n);
    } else {
      Remainder(a + d, q + 1, a % n + d - n, n);
    }
  }
}
