/** Euclid's algorithm, `gcd` of src/lib.rs, and the divisibility facts the
    frequency reduction and the rate composition depend on. */
module Euclid {
  import opened Ints
  import opened DivMod

  /** `d` divides `n`; zero divides only zero. */
  predicate Divides(d: nat, n: nat) {
    if d == 0 then n == 0 else n % d == 0
  }

  /** Euclid's recursion, the value the loop of `gcd` computes. */
  function Gcd(a: nat, b: nat): nat
    decreases b
  {
    if b == 0 then a else Gcd(b, a % b)
  }

  /** `gcd`: the loop of src/lib.rs, reassigning `a` and `b` until `b` is zero. */
  method ComputeGcd(a0: u64, b0: u64) returns (g: u64)
    ensures g == Gcd(a0, b0)
    ensures Divides(g, a0) && Divides(g, b0)
    ensures b0 > 0 ==> g >= 1
  {
    var a, b := a0, b0;
    while b != 0
      invariant Gcd(a, b) == Gcd(a0, b0)
      decreases b
    {
      var temp := b;
      b := a % b;
      a := temp;
    }
    g := a;
    GcdDividesBoth(a0, b0);
    if b0 > 0 {
      GcdPositive(a0, b0);
    }
  }

  lemma DividesMultiple(d: nat, k: nat)
    ensures Divides(d, k * d)
  {
    if d > 0 {
      MulDivExact(k, d);
    }
  }

  lemma DividesWitness(d: nat, n: nat)
    requires Divides(d, n)
    ensures n == (if d == 0 then 0 else n / d) * d
  {
  }

  /** A common divisor of `x` and `y` divides `q * x + y`. */
  lemma DividesLinear(d: nat, x: nat, y: nat, q: nat)
    requires Divides(d, x) && Divides(d, y)
    ensures Divides(d, q * x + y)
  {
    if d > 0 {
      var i, j := x / d, y / d;
      assert x == i * d && y == j * d;
      assert q * x + y == (q * i + j) * d;
      MulDivExact(q * i + j, d);
    }
  }

  /** A common divisor of `x` and `y == q * x + z` divides `z`. */
  lemma DividesRemainder(d: nat, x: nat, y: nat, q: nat, z: nat)
    requires Divides(d, x) && Divides(d, y) && y == q * x + z
    ensures Divides(d, z)
  {
    if d > 0 {
      var i, j := x / d, y / d;
      assert x == i * d && y == j * d;
      assert z == j * d - q * (i * d);
      assert z == (j - q * i) * d;
      DivModUnique(z, d, j - q * i, 0);
    }
  }

  /** `gcd(a, b)` divides both `a` and `b`. */
  lemma {:induction false} GcdDividesBoth(a: nat, b: nat)
    ensures Divides(Gcd(a, b), a) && Divides(Gcd(a, b), b)
    decreases b
  {
    if b == 0 {
      DividesMultiple(a, 1);
      DividesMultiple(a, 0);
    } else {
      GcdDividesBoth(b, a % b);
      assert a == (a / b) * b + a % b;
      DividesLinear(Gcd(a, b), b, a % b, a / b);
    }
  }

  /** Every common divisor of `a` and `b` divides `gcd(a, b)`. */
  lemma {:induction false} CommonDivisorDividesGcd(a: nat, b: nat, d: nat)
    requires Divides(d, a) && Divides(d, b)
    ensures Divides(d, Gcd(a, b))
    decreases b
  {
    if b != 0 {
      assert a == (a / b) * b + a % b;
      DividesRemainder(d, b, a, a / b, a % b);
      CommonDivisorDividesGcd(b, a % b, d);
    }
  }

  /** The cases of `gcd` with a zero argument. */
  lemma GcdZero(a: nat, b: nat)
    ensures Gcd(a, 0) == a && Gcd(0, b) == b
  {
  }

  /** `gcd(a, b) >= 1` when `b > 0`: the divisions of `Frequency::new` are defined. */
  lemma {:induction false} GcdPositive(a: nat, b: nat)
    requires b > 0
    ensures Gcd(a, b) >= 1
    decreases b
  {
    if a % b != 0 {
      GcdPositive(b, a % b);
    }
  }

  /** A positive divisor of a positive number is no larger than it. */
  lemma DivisorAtMost(d: nat, n: nat)
    requires n > 0 && Divides(d, n)
    ensures 1 <= d <= n
  {
    var k := n / d;
    assert n == k * d;
    assert k >= 1;
    MulAtLeast(k, d);
  }

  lemma DividesAntisymmetric(x: nat, y: nat)
    requires Divides(x, y) && Divides(y, x)
    ensures x == y
  {
    if x > 0 && y > 0 {
      DivisorAtMost(x, y);
      DivisorAtMost(y, x);
    }
  }

  lemma GcdCommutes(a: nat, b: nat)
    ensures Gcd(a, b) == Gcd(b, a)
  {
    GcdDividesBoth(a, b);
    GcdDividesBoth(b, a);
    CommonDivisorDividesGcd(b, a, Gcd(a, b));
    CommonDivisorDividesGcd(a, b, Gcd(b, a));
    DividesAntisymmetric(Gcd(a, b), Gcd(b, a));
  }

  /** `gcd(k * a, k * b) == k * gcd(a, b)`. */
  lemma {:induction false} GcdScale(k: nat, a: nat, b: nat)
    ensures Gcd(k * a, k * b) == k * Gcd(a, b)
    decreases b
  {
    if b == 0 {
      assert k * b == 0;
    } else if k == 0 {
      assert k * a == 0 && k * b == 0;
      assert Gcd(0, 0) == 0;
    } else {
      var q, r := a / b, a % b;
      assert a == q * b + r;
      assert k * a == q * (k * b) + k * r;
      assert k * r < k * b by { MulMono(r + 1, b, k); assert (r + 1) * k == r * k + k; }
      DivModUnique(k * a, k * b, q, k * r);
      assert Gcd(k * a, k * b) == Gcd(k * b, k * r);
      GcdScale(k, b, r);
    }
  }

  /** Euclid's lemma: if `x` divides `y * z` and is coprime to `y`, it divides `z`. */
  lemma CoprimeDividesProduct(x: nat, y: nat, z: nat)
    requires Gcd(x, y) == 1 && Divides(x, y * z)
    ensures Divides(x, z)
  {
    var zx, zy := z * x, z * y;
    assert zy == y * z;
    DividesMultiple(x, z);
    assert Divides(x, zx);
    assert Divides(x, zy);
    CommonDivisorDividesGcd(zx, zy, x);
    GcdScale(z, x, y);
    assert Gcd(zx, zy) == z * 1;
  }

  /** A number coprime to `b` and to `c` is coprime to `b * c`. */
  lemma CoprimeProduct(a: nat, b: nat, c: nat)
    requires Gcd(a, b) == 1 && Gcd(a, c) == 1
    ensures Gcd(a, b * c) == 1
  {
    var g := Gcd(a, b * c);
    GcdDividesBoth(a, b * c);
    DividesLinear(g, a, 0, c);
    assert c * a + 0 == a * c;
    assert b * c == c * b;
    CommonDivisorDividesGcd(c * a, c * b, g);
    GcdScale(c, a, b);
    CommonDivisorDividesGcd(a, c, g);
    assert Divides(g, 1);
    DivisorAtMost(g, 1);
  }

  /** Two reduced fractions with positive denominators that are equal as
      rationals have the same numerator and denominator. */
  lemma ReducedFractionUnique(a: nat, b: nat, c: nat, d: nat)
    requires b >= 1 && d >= 1 && Gcd(a, b) == 1 && Gcd(c, d) == 1
    requires a * d == c * b
    ensures a == c && b == d
  {
    ReducedDenominatorDivides(a, b, c, d);
    ReducedDenominatorDivides(c, d, a, b);
    DividesAntisymmetric(b, d);
    if a < c {
      MulMono(a + 1, c, b);
    } else if c < a {
      MulMono(c + 1, a, b);
    }
  }

  lemma ReducedDenominatorDivides(a: nat, b: nat, c: nat, d: nat)
    requires Gcd(a, b) == 1 && a * d == c * b
    ensures Divides(b, d)
  {
    GcdCommutes(a, b);
    DividesMultiple(b, c);
    var p := a * d;
    assert p == c * b;
    assert Divides(b, p);
    CoprimeDividesProduct(b, a, d);
  }

  /** Dividing both numbers by their gcd leaves a coprime pair: the
      reduction performed by `Frequency::new` and `ClockRate::ticker`. */
  lemma GcdQuotients(a: nat, b: nat)
    requires b > 0
    ensures Gcd(a, b) >= 1
    ensures a == (a / Gcd(a, b)) * Gcd(a, b) && b == (b / Gcd(a, b)) * Gcd(a, b)
    ensures Gcd(a / Gcd(a, b), b / Gcd(a, b)) == 1
  {
    var g := Gcd(a, b);
    GcdPositive(a, b);
    GcdDividesBoth(a, b);
    DividesWitness(g, a);
    DividesWitness(g, b);
    var x, y := a / g, b / g;
    QuotientsCoprime(a, b, g, x, y);
  }

  lemma QuotientsCoprime(a: nat, b: nat, g: nat, x: nat, y: nat)
    requires g == Gcd(a, b) && g >= 1 && a == x * g && b == y * g
    ensures Gcd(x, y) == 1
  {
    assert g * x == a && g * y == b;
    GcdScale(g, x, y);
    MulCancel(g, Gcd(x, y), 1);
  }

  lemma DividesTransitive(a: nat, b: nat, c: nat)
    requires Divides(a, b) && Divides(b, c)
    ensures Divides(a, c)
  {
    if a > 0 && b > 0 {
      var i, j := b / a, c / b;
      assert b == i * a && c == j * b;
      assert c == (j * i) * a;
      MulDivExact(j * i, a);
    }
  }

  /** A divisor of a number coprime to `y` is coprime to `y`. */
  lemma DivisorCoprime(x: nat, d: nat, y: nat)
    requires x > 0 && Divides(d, x) && Gcd(x, y) == 1
    ensures Gcd(d, y) == 1
  {
    DivisorAtMost(d, x);
    var g := Gcd(d, y);
    GcdDividesBoth(d, y);
    DividesTransitive(g, d, x);
    CommonDivisorDividesGcd(x, y, g);
    DivisorAtMost(g, d);
    DivisorAtMost(g, 1);
  }
}
