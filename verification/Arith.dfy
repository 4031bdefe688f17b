/** Powers of two, and division and remainder by a variable, which the solver
    needs spelled out. */
module Arith {

  function Pow2(k: nat): (p: nat)
    ensures p > 0
  {
    if k == 0 then 1 else 2 * Pow2(k - 1)
  }

  lemma PowersOfTwo()
    ensures Pow2(31) == 0x8000_0000 && Pow2(32) == 0x1_0000_0000
    ensures Pow2(64) == 0x1_0000_0000_0000_0000
  {
    assert Pow2(8) == 0x100;
    assert Pow2(16) == 0x1_0000;
    assert Pow2(24) == 0x100_0000;
    assert Pow2(31) == 0x8000_0000;
    assert Pow2(39) == 0x80_0000_0000;
    assert Pow2(47) == 0x8000_0000_0000;
    assert Pow2(55) == 0x80_0000_0000_0000;
    assert Pow2(63) == 0x8000_0000_0000_0000;
  }

  lemma DivStep(n: nat, m: nat)
    requires m >= 2
    ensures n == n / m * m + n % m && n % m < m
    ensures n / m <= n / 2 && (n < m ==> n / m == 0 && n % m == n)
    ensures n >= m ==> 0 < n / m
  {
    var q := n / m;
    assert q * 2 <= q * m;
  }

  lemma SmallMultiple(m: int, d: int)
    requires -m < m * d < m
    ensures d == 0
  {
    assert d >= 1 ==> m * (d - 1) >= 0;
    assert d <= -1 ==> m * (d + 1) <= 0;
  }

  lemma DivUnique(x: int, m: int, a: int, r: int)
    requires 0 <= r < m && x == m * a + r
    ensures x / m == a && x % m == r
  {
    var a', r' := x / m, x % m;
    assert x == m * a' + r';
    assert m * (a - a') == r' - r;
    SmallMultiple(m, a - a');
  }

  lemma ModUnique(x: int, m: int, a: int, r: int)
    requires 0 <= r < m && x == m * a + r
    ensures x % m == r
  {
    DivUnique(x, m, a, r);
  }
}
