/** Division facts about variable divisors that the solver does not find alone. */
module Arith {

  // One more than the greatest 64-bit number.
  const UINT64_MOD: nat := 0x1_0000_0000_0000_0000

  lemma MulAtLeast(k: int, n: nat)
    requires 1 <= k
    ensures k * n >= n
  {
    assert k * n == (k - 1) * n + n;
    MulNonNegative(k - 1, n);
  }

  lemma MulNonNegative(k: int, n: nat)
    requires 0 <= k
    ensures k * n >= 0
  {
  }

  // Quotient and remainder are unique.
  lemma DivUnique(x: int, q: int, r: int, n: nat)
    requires 0 < n && x == q * n + r && 0 <= r < n
    ensures x / n == q && x % n == r
  {
    var d := x / n - q;
    assert x == (x / n) * n + x % n;
    assert d * n == (x / n) * n - q * n;
    assert d * n == r - x % n && (-d) * n == -(d * n);
    if d >= 1 {
      MulAtLeast(d, n);
    } else if d <= -1 {
      MulAtLeast(-d, n);
    }
  }

  lemma ModSub(x: nat, i: nat, n: nat)
    requires 0 < n && i <= x % n
    ensures i <= x && (x - i) % n == x % n - i
  {
    var q, r := x / n, x % n;
    assert x == q * n + r;
    MulNonNegative(q, n);
    DivUnique(x - i, q, r - i, n);
  }

  lemma ModAdd(x: nat, k: nat, n: nat)
    requires 0 < n
    ensures (x + k) % n == (x % n + k) % n
  {
    var y := x % n + k;
    assert x == (x / n) * n + x % n;
    assert y == (y / n) * n + y % n;
    assert (x / n + y / n) * n == (x / n) * n + (y / n) * n;
    DivUnique(x + k, x / n + y / n, y % n, n);
  }
}
