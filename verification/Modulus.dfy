/** Division and remainder facts that the solver needs spelled out. */
module Modulus {

  lemma MulAtLeast(d: int, x: int)
    requires 0 < d
    ensures 1 <= x ==> d <= d * x
    ensures x <= -1 ==> d * x <= -d
  {
    assert d * x == d + d * (x - 1);
    assert d * x == -d + d * (x + 1);
  }

  lemma DivModUnique(n: int, d: int, q: int, r: int)
    requires 0 <= r < d && n == d * q + r
    ensures n / d == q && n % d == r
  {
    assert d * (n / d - q) == r - n % d;
    MulAtLeast(d, n / d - q);
  }

  /** Reducing by a multiple of d first does not change the remainder modulo d. */
  lemma ModOfMod(n: int, m: int, d: int)
    requires 0 < d && 0 < m && m % d == 0
    ensures (n % m) % d == n % d
  {
    var k, r := n / m, n % m;
    var a := m / d;
    assert n == d * (a * k + r / d) + r % d by {
      assert m * k == d * (a * k) by { assert (d * a) * k == d * (a * k); }
      assert d * (a * k + r / d) == d * (a * k) + d * (r / d);
    }
    DivModUnique(n, d, a * k + r / d, r % d);
  }

  lemma ModShift(n: int, i: int, d: int)
    requires 0 <= i < d
    ensures (n + i) % d == if i < d - n % d then n % d + i else i - (d - n % d)
  {
    var q, r := n / d, n % d;
    if i < d - r {
      DivModUnique(n + i, d, q, r + i);
    } else {
      assert d * (q + 1) == d * q + d;
      DivModUnique(n + i, d, q + 1, r + i - d);
    }
  }

  lemma ModDistinct(j: int, k: int, d: int)
    requires j < k < j + d
    ensures j % d != k % d
  {
    ModShift(j, k - j, d);
  }
}
