/** Natural-number facts the modular arithmetic needs: powers, and how `/` and `%`
    interact with multiplication. */
module Arith {

  /** `b^e` over the unbounded naturals, the reference the 64-bit routines are measured against. */
  function Pow(b: nat, e: nat): nat
    decreases e
  {
    if e == 0 then 1 else b * Pow(b, e - 1)
  }

  lemma {:induction false} PowAdd(b: nat, x: nat, y: nat)
    ensures Pow(b, x + y) == Pow(b, x) * Pow(b, y)
    decreases x
  {
    if x > 0 {
      PowAdd(b, x - 1, y);
      assert Pow(b, x + y) == b * Pow(b, x - 1 + y);
      assert b * (Pow(b, x - 1) * Pow(b, y)) == (b * Pow(b, x - 1)) * Pow(b, y);
    }
  }

  lemma {:induction false} PowPositive(b: nat, e: nat)
    requires b > 0
    ensures Pow(b, e) > 0
    decreases e
  {
    if e > 0 {
      PowPositive(b, e - 1);
      MulAtLeast(Pow(b, e - 1), b);
    }
  }

  lemma {:induction false} PowZeroBase(e: nat)
    requires e > 0
    ensures Pow(0, e) == 0
  {
  }

  lemma Pow2To16()
    ensures Pow(2, 16) == 0x1_0000
  {
    PowAdd(2, 8, 8);
    assert Pow(2, 8) == 0x100;
  }

  lemma Pow2To32()
    ensures Pow(2, 32) == 0x1_0000_0000
  {
    Pow2To16();
    PowAdd(2, 16, 16);
  }

  lemma Pow2To64()
    ensures Pow(2, 64) == 0x1_0000_0000_0000_0000
  {
    Pow2To32();
    PowAdd(2, 32, 32);
  }

  lemma Pow2To63()
    ensures Pow(2, 63) == 0x8000_0000_0000_0000
  {
    Pow2To64();
    assert Pow(2, 64) == 2 * Pow(2, 63);
  }

  /** Powers of two grow with the exponent. */
  lemma {:induction false} Pow2Monotone(i: nat, j: nat)
    requires i <= j
    ensures Pow(2, i) <= Pow(2, j)
    decreases j
  {
    if i < j {
      Pow2Monotone(i, j - 1);
      PowPositive(2, j - 1);
    }
  }

  /** Strictly larger exponents give strictly larger powers of two. */
  lemma Pow2StrictlyMonotone(i: nat, j: nat)
    requires i < j
    ensures Pow(2, i) < Pow(2, j)
  {
    PowPositive(2, i);
    Pow2Monotone(i + 1, j);
  }

  /** Distinct exponents give distinct powers of two. */
  lemma Pow2Injective(i: nat, j: nat)
    requires Pow(2, i) == Pow(2, j)
    ensures i == j
  {
    if i < j {
      Pow2StrictlyMonotone(i, j);
    } else if j < i {
      Pow2StrictlyMonotone(j, i);
    }
  }

  lemma MulAtLeast(m: int, k: int)
    requires m > 0 && k >= 1
    ensures m * k >= m
  {
    assert m * k == m * (k - 1) + m;
    assert m * (k - 1) >= 0;
  }

  lemma MulMonotone(m: nat, a: nat, b: nat)
    requires a <= b
    ensures m * a <= m * b
  {
    assert m * b == m * a + m * (b - a);
  }

  /** Quotient and remainder are determined by `e == m * q + r` with `0 <= r < m`. */
  lemma DivModUnique(e: int, m: int, q: int, r: int)
    requires m > 0 && 0 <= r < m && e == m * q + r
    ensures e / m == q && e % m == r
  {
    var q' := e / m;
    var r' := e % m;
    assert e == m * q' + r';
    assert m * q - m * q' == r' - r;
    if q' < q {
      assert m * (q - q') == m * q - m * q';
      MulAtLeast(m, q - q');
    } else if q' > q {
      assert m * (q' - q) == m * q' - m * q;
      MulAtLeast(m, q' - q);
    }
  }

  lemma ModAddMultiple(x: int, k: int, m: int)
    requires m > 0
    ensures (x + k * m) % m == x % m
  {
    DivModUnique(x + k * m, m, x / m + k, x % m);
  }

  lemma ModMulLeft(a: int, b: int, m: int)
    requires m > 0
    ensures ((a % m) * b) % m == (a * b) % m
  {
    var q := a / m;
    assert a * b == (a % m) * b + (q * b) * m;
    ModAddMultiple((a % m) * b, q * b, m);
  }

  lemma ModMulBoth(a: int, b: int, m: int)
    requires m > 0
    ensures ((a % m) * (b % m)) % m == (a * b) % m
  {
    ModMulLeft(a, b % m, m);
    ModMulLeft(b, a, m);
    assert a * (b % m) == (b % m) * a;
  }

  lemma ModOfSmall(x: int, m: int)
    requires 0 <= x < m
    ensures x % m == x
  {
    DivModUnique(x, m, 0, x);
  }

  /** Halving the quotient is dividing by twice the divisor: `e / p / 2 == e / (2 * p)`. */
  lemma DivHalf(e: nat, p: nat)
    requires p > 0
    ensures e / (2 * p) == (e / p) / 2
  {
    var q := e / p;
    var r := e % p;
    var h := q / 2;
    var b := q % 2;
    assert q == 2 * h + b;
    assert e == p * q + r;
    assert p * q == p * (2 * h) + p * b;
    assert p * (2 * h) == (2 * p) * h;
    var c := if b == 0 then 0 else p;
    assert p * b == c;
    DivModUnique(e, 2 * p, h, c + r);
  }

  /** A value below `2 * p` has quotient 0 or 1 by `p`. */
  lemma QuotientBelowTwo(e: nat, p: nat)
    requires p > 0 && e < 2 * p
    ensures e / p == (if e < p then 0 else 1)
  {
    if e < p {
      DivModUnique(e, p, 0, e);
    } else {
      DivModUnique(e, p, 1, e - p);
    }
  }
}
