/** Numbers: the 32-bit range, the smaller of two, and division for the places where the
    solver needs the quotient named. */
module Arithmetic {
  const U32_RANGE: nat := 0x1_0000_0000

  function Min(a: nat, b: nat): nat {
    if a <= b then a else b
  }

  lemma DivModIs(x: nat, n: nat, k: nat, r: nat)
    requires r < n && x == n * k + r
    ensures x / n == k && x % n == r
  {
    var q := x / n;
    assert q < k ==> n * (q + 1) <= n * k;
    assert q > k ==> n * (k + 1) <= n * q;
  }
}
