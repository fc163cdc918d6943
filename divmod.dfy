/** Facts about Euclidean division of non-negative integers that the
    tick and rate arithmetic relies on. */
module DivMod {

  lemma MulAtLeast(k: int, d: int)
    requires k >= 1 && d >= 0
    ensures k * d >= d
  {
    assert k * d == (k - 1) * d + d;
    assert (k - 1) * d >= 0;
  }

  /** Quotient and remainder are determined by `n == q * d + r` with `0 <= r < d`. */
  lemma DivModUnique(n: int, d: int, q: int, r: int)
    requires d > 0 && 0 <= r < d && n == q * d + r
    ensures n / d == q && n % d == r
  {
    var q', r' := n / d, n % d;
    assert n == q' * d + r';
    if q' > q {
      assert (q' - q) * d == r - r';
      MulAtLeast(q' - q, d);
    } else if q' < q {
      assert (q - q') * d == r' - r;
      MulAtLeast(q - q', d);
    }
  }

  lemma MulDivExact(m: int, d: int)
    requires d > 0
    ensures (m * d) / d == m && (m * d) % d == 0
  {
    DivModUnique(m * d, d, m, 0);
  }

  lemma DivMulBound(n: nat, d: nat)
    requires d > 0
    ensures (n / d) * d <= n < (n / d + 1) * d
  {
  }

  lemma DivAtMost(n: nat, d: nat)
    requires d > 0
    ensures 0 <= n / d <= n
  {
    var q := n / d;
    DivMulBound(n, d);
    MulMono(1, d, q);
  }

  lemma MulMono(x: int, y: int, d: int)
    requires x <= y && d >= 0
    ensures x * d <= y * d
  {
    assert y * d == x * d + (y - x) * d;
    assert (y - x) * d >= 0;
  }

  lemma CeilDivBounds(n: nat, d: nat, q: nat, m: nat)
    requires d > 0 && n == q * d + m && m < d
    ensures m == 0 ==> q * d >= n && (q == 0 || (q - 1) * d < n) && (q <= n || n == 0)
    ensures m > 0 ==> (q + 1) * d >= n && q * d < n && q + 1 <= n
  {
    if q > 0 {
      MulAtLeast(d, q);
      assert (q - 1) * d == q * d - d;
    }
    assert (q + 1) * d == q * d + d;
  }

  /** Ceiling division, `u64::div_ceil`. */
  function CeilDiv(n: nat, d: nat): (r: nat)
    requires d > 0
    ensures r * d >= n && (r == 0 || (r - 1) * d < n)
    ensures r <= n || n == 0
  {
    CeilDivBounds(n, d, n / d, n % d);
    if n % d == 0 then n / d else n / d + 1
  }

  /** `CeilDiv` is the least `r` with `r * d >= n`. */
  lemma CeilDivUnique(n: nat, d: nat, r: nat)
    requires d > 0 && r * d >= n && (r == 0 || (r - 1) * d < n)
    ensures CeilDiv(n, d) == r
  {
    var c := CeilDiv(n, d);
    if c > 0 && r < c {
      MulMono(r, c - 1, d);
    }
    if r > 0 && c < r {
      MulMono(c, r - 1, d);
    }
  }

  /** Moving a whole number of divisors in or out of a ceiling division. */
  lemma CeilDivShift(k: nat, n: nat, d: nat)
    requires d > 0
    ensures CeilDiv(k * d + n, d) == k + CeilDiv(n, d)
  {
    var c := CeilDiv(n, d);
    assert (k + c) * d == k * d + c * d;
    if c > 0 {
      assert (k + c - 1) * d == k * d + (c - 1) * d;
    } else {
      assert n == 0;
      if k > 0 {
        assert (k - 1) * d == k * d - d;
      }
    }
    CeilDivUnique(k * d + n, d, k + c);
  }

  /** A positive factor cancels from both sides of an equation. */
  lemma MulCancel(g: int, h: int, k: int)
    requires g >= 1 && g * h == g * k
    ensures h == k
  {
    assert h * g == k * g;
    MulDivExact(h, g);
    MulDivExact(k, g);
  }
}
