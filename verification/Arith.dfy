/** The few facts about products, quotients and remainders the layers above share. */
module Arith {
  lemma NonNegProduct(a: int, b: int)
    requires a >= 0 && b >= 0
    ensures a * b >= 0
  {
  }

  lemma DivMod(v: int, m: int)
    requires m > 0
    ensures v == m * (v / m) + v % m && 0 <= v % m < m
  {
  }

  lemma SmallMultiple(m: int, d: int, e: int)
    requires m > 0 && m * d == e && -m < e < m
    ensures d == 0
  {
    if d >= 1 {
      NonNegProduct(m, d - 1);
    } else if d <= -1 {
      NonNegProduct(m, -d - 1);
    }
  }

  /** Quotient and remainder are unique. */
  lemma DivModIs(v: int, m: int, k: int, x: int)
    requires m > 0 && v == m * k + x && 0 <= x < m
    ensures v % m == x && v / m == k
  {
    DivMod(v, m);
    SmallMultiple(m, v / m - k, x - v % m);
  }

  /** Splitting a remainder modulo `m * n` into a digit below `m` and one below `n`. */
  lemma SplitDigits(v: int, m: int, n: int)
    requires m > 0 && n > 0
    ensures m * n > 0 && v % m + v / m % n * m == v % (m * n) && v / m / n == v / (m * n)
  {
    var q := v / m;
    Regroup(m, n, q / n, q % n);
    assert v == m * q + v % m;
    assert q == n * (q / n) + q % n;
    DivModIs(v, m * n, q / n, q % n * m + v % m);
  }

  lemma Regroup(m: int, n: int, q: int, r: int)
    requires m > 0 && n > 0 && 0 <= r < n
    ensures m * (n * q + r) == (m * n) * q + r * m
    ensures r * m + m <= m * n && m * n > 0
  {
    assert m * (n * q) == (m * n) * q;
    NonNegProduct(m, n - r - 1);
    assert m * (n - r - 1) == m * n - m * r - m;
  }

  lemma MulMono(m: int, a: int, b: int)
    requires m >= 0 && a <= b
    ensures m * a <= m * b
  {
    NonNegProduct(m, b - a);
    assert m * (b - a) == m * b - m * a;
  }

  lemma SameDivMod(k: int, l: int, m: int)
    requires m > 0 && k / m == l / m && k % m == l % m
    ensures k == l
  {
    DivMod(k, m);
    DivMod(l, m);
  }
}
