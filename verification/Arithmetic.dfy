/** Division facts the solver does not find by itself. */
module Arithmetic {

  /** Ceiling division as the launcher and the segmenter write it. */
  function CeilDiv(a: nat, b: nat): nat
    requires b > 0
  {
    (a + b - 1) / b
  }

  lemma MulBounds(d: int, m: int)
    requires m > 0
    ensures d >= 1 ==> d * m >= m
    ensures d <= -1 ==> d * m <= -m
    ensures d >= 0 ==> d * m >= d
    ensures d == 0 ==> d * m == 0
  {
  }

  lemma MulMonotone(a: int, b: int, m: int)
    requires m >= 0
    ensures a <= b ==> a * m <= b * m
  {
  }

  lemma MulAssociative(a: int, b: int, c: int)
    ensures a * b * c == a * (b * c)
  {
  }

  lemma DivModUnique(n: int, m: int, q: int, r: int)
    requires m > 0 && n == q * m + r && 0 <= r < m
    ensures n / m == q && n % m == r
  {
    var d := n / m - q;
    assert n == (n / m) * m + n % m;
    assert d * m == r - n % m;
    MulBounds(d, m);
  }

  lemma CeilDivIs(n: nat, m: nat)
    requires m > 0
    ensures CeilDiv(n, m) == n / m + if n % m > 0 then 1 else 0
    ensures n > 0 ==> 0 < CeilDiv(n, m) <= n
  {
    var q, r := n / m, n % m;
    assert n == q * m + r;
    if r > 0 {
      assert n + m - 1 == (q + 1) * m + (r - 1) by { assert (q + 1) * m == q * m + m; }
      DivModUnique(n + m - 1, m, q + 1, r - 1);
    } else {
      DivModUnique(n + m - 1, m, q, m - 1);
    }
    if n > 0 && n < m { DivModUnique(n, m, 0, n); }
    if n >= m {
      DivLower(n, m);
    }
  }

  lemma DivLower(n: nat, m: nat)
    requires 0 < m <= n
    ensures 1 <= n / m && n / m + (if n % m > 0 then 1 else 0) <= n
  {
    var q, r := n / m, n % m;
    assert n == q * m + r && 0 <= r < m;
    MulBounds(q, m);
  }

  lemma DivShift(a: nat, d: nat)
    requires d > 0
    ensures (a + d) / d == a / d + 1 && (a + d) % d == a % d
  {
    assert (a / d + 1) * d == a / d * d + d;
    DivModUnique(a + d, d, a / d + 1, a % d);
  }
}
