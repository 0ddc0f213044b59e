/** The few facts of nonlinear arithmetic the proofs need, each small. */
module Arith {

  lemma MulLe(a: int, b: int, d: nat)
    requires a <= b
    ensures a * d <= b * d
  {
  }

  /** A quotient is the one whole number of divisors that fits. */
  lemma DivIs(q: int, d: nat, k: int)
    requires d > 0 && k * d <= q < k * d + d
    ensures q / d == k && q % d == q - k * d
  {
    var r := q / d;
    assert q == r * d + q % d;
    if r < k {
      MulLe(r + 1, k, d);
      assert false;
    } else if r > k {
      MulLe(k + 1, r, d);
      assert false;
    }
  }

  function CeilDiv(n: nat, d: nat): nat
    requires d > 0
  {
    (n + d - 1) / d
  }

  lemma CeilIs(n: nat, d: nat, k: int)
    requires d > 0 && (k - 1) * d < n <= k * d
    ensures CeilDiv(n, d) == k
  {
    assert (k - 1) * d == k * d - d;
    DivIs(n + d - 1, d, k);
  }

  lemma CeilAtLeast(n: nat, d: nat, k: int)
    requires d > 0 && (k - 1) * d < n
    ensures CeilDiv(n, d) >= k
  {
    var c := CeilDiv(n, d);
    assert n + d - 1 == c * d + (n + d - 1) % d;
    assert (k - 1) * d == k * d - d;
    if c < k {
      MulLe(c + 1, k, d);
      assert false;
    }
  }
}
