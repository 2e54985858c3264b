/** Facts about Euclidean division that the pixel arithmetic leans on. */
module Arith {

  /** The only multiple of d strictly between -d and d is 0. */
  lemma SmallMultiple(k: int, d: int)
    requires 0 < d && -d < k * d < d
    ensures k == 0
  {
  }

  /** A positive factor can be cancelled from a strict inequality. */
  lemma MulCancelLess(x: int, y: int, a: int)
    requires 0 < a && x * a < y * a
    ensures x < y
  {
  }

  /** Multiplying by a non-negative factor keeps order. */
  lemma MulMono(x: int, y: int, a: int)
    requires 0 <= a && x <= y
    ensures x * a <= y * a
  {
  }

  /** The quotient and remainder are determined by any decomposition n == q*d + r with 0 <= r < d. */
  lemma DivModUnique(n: int, d: int, q: int, r: int)
    requires 0 < d && 0 <= r < d && n == q * d + r
    ensures n / d == q && n % d == r
  {
    var q', r' := n / d, n % d;
    assert (q - q') * d == r' - r;
    SmallMultiple(q - q', d);
  }

  /** A flat row-major index splits back into its column and row. */
  lemma Coords(x: int, y: int, w: int)
    requires 0 <= x < w && 0 <= y
    ensures (y * w + x) / w == y && (y * w + x) % w == x
  {
    DivModUnique(y * w + x, w, y, x);
  }

  /** Points of [m*d, m*d + d) all lie in block m. */
  lemma InBlock(p: int, m: int, d: int)
    requires 0 < d && m * d <= p < m * d + d
    ensures p / d == m && p % d == p - m * d
  {
    DivModUnique(p, d, m, p - m * d);
  }

  /** Scaling numerator and denominator by the same positive factor keeps the quotient:
      floor(floor(k*s / a) / k) == floor(s / a). */
  lemma NestedDiv(s: int, a: int, k: int)
    requires 0 <= s && 0 < a && 0 < k
    ensures (k * s / a) / k == s / a
  {
    var q, r := s / a, s % a;
    var kr := k * r;
    var t, e := kr / a, kr % a;
    assert 0 <= kr < k * a by {
      MulMono(r, a - 1, k);
    }
    assert kr == t * a + e;
    assert 0 <= t by {
      if t < 0 {
        MulMono(t, -1, a);
      }
    }
    assert t < k by {
      assert t * a <= kr;
      MulCancelLess(t, k, a);
    }
    assert k * s == (k * q) * a + kr by {
      assert s == q * a + r;
    }
    assert k * s == (k * q + t) * a + e;
    DivModUnique(k * s, a, k * q + t, e);
    DivModUnique(k * q + t, k, q, t);
  }

  /** Adding after reducing modulo m is the same as reducing after adding. */
  lemma ModAdd(a: int, v: int, m: int)
    requires 0 < m
    ensures (a % m + v) % m == (a + v) % m
  {
    var q := a / m;
    assert a == q * m + a % m;
    var n := a % m + v;
    DivModUnique(n + q * m, m, n / m + q, n % m);
  }

  /** Integer division by a positive divisor is monotone. */
  lemma DivMono(m: int, n: int, d: int)
    requires 0 < d && m <= n
    ensures m / d <= n / d
  {
    var qm, qn := m / d, n / d;
    assert qm * d + m % d <= qn * d + n % d;
    assert (qm - qn) * d < d;
    MulCancelLess(qm - qn, 1, d);
  }
}
