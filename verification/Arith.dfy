/** Facts about multiplication and division by a variable that Dafny does not
    find itself. */
module Arith {

  lemma MulAtLeast(d: int, m: int)
    requires m > 0
    ensures d >= 1 ==> d * m >= m
    ensures d <= -1 ==> d * m <= -m
    ensures d >= 0 ==> d * m >= d
  {
  }

  lemma MulAssociative(a: int, b: int, c: int)
    ensures a * (b * c) == a * b * c
  {
  }

  lemma DivUnique(a: int, m: int, q: int, r: int)
    requires m > 0 && 0 <= r < m && a == q * m + r
    ensures a / m == q && a % m == r
  {
    var d := a / m - q;
    assert a == a / m * m + a % m;
    assert d * m == a / m * m - q * m;
    MulAtLeast(d, m);
  }

  lemma DivAddMultiple(a: int, m: int, k: int)
    requires m > 0
    ensures (a + k * m) / m == a / m + k && (a + k * m) % m == a % m
  {
    assert a == a / m * m + a % m;
    assert a + k * m == (a / m + k) * m + a % m;
    DivUnique(a + k * m, m, a / m + k, a % m);
  }

  lemma DivAtMost(a: int, m: int)
    requires m > 0 && a >= 0
    ensures 0 <= a / m <= a
  {
    var q, r := a / m, a % m;
    assert a == q * m + r;
    MulAtLeast(q, m);
  }
}
