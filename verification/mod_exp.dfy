/** 64-bit modular multiplication and left-to-right square-and-multiply exponentiation. */
module ModExp {
  import opened Words
  import opened Arith

  lemma ReductionCongruent(x: nat, m: nat)
    requires m > 0
    ensures (x - x % m) % m == 0
  {
    DivModUnique(x - x % m, m, x / m, 0);
  }

  /** `MulMod64(a, b, m)`: the external `_mul_mod64` routine, specified by what it must
      deliver. The result is below `m` and congruent to the full 128-bit product `a * b`,
      so no bit of the product is lost to 64-bit truncation. */
  function MulMod64(a: u64, b: u64, m: u64): (r: u64)
    requires m > 1
    ensures r < m
    ensures (a * b - r) % m == 0
  {
    ReductionCongruent(a * b, m);
    (a * b) % m
  }

  /** The reduced value congruent to the product is unique: any result meeting the contract
      of `MulMod64` is the remainder of the exact product. */
  lemma MulMod64Exact(a: u64, b: u64, m: u64, r: u64)
    requires m > 1 && r < m && (a * b - r) % m == 0
    ensures r == (a * b) % m
  {
    var q := (a * b - r) / m;
    DivModUnique(a * b - r, m, q, 0);
    DivModUnique(a * b, m, q, r);
  }

  /** What the accumulator `r` of `ExpMod64` holds once the exponent bits read so far form
      the number `q`: the base itself, unreduced, right after the leading one bit, and
      `b^q mod m` after any squaring. */
  function Accumulated(b: nat, q: nat, m: nat): nat
    requires m > 0
  {
    if q == 1 then b else Pow(b, q) % m
  }

  lemma AccumulatedCongruent(b: nat, q: nat, m: nat)
    requires m > 0 && q >= 1
    ensures Accumulated(b, q, m) % m == Pow(b, q) % m
  {
    if q == 1 {
      assert Pow(b, 1) == b;
    } else {
      ModOfSmall(Pow(b, q) % m, m);
    }
  }

  /** Squaring a value congruent to `b^q` yields `b^(2q)`. */
  lemma SquareStep(b: nat, q: nat, m: nat, r: nat)
    requires m > 0 && r % m == Pow(b, q) % m
    ensures (r * r) % m == Pow(b, 2 * q) % m
  {
    ModMulBoth(r, r, m);
    ModMulBoth(Pow(b, q), Pow(b, q), m);
    PowAdd(b, q, q);
  }

  /** Multiplying `b^q mod m` by `b` yields `b^(q+1)`. */
  lemma MultiplyStep(b: nat, q: nat, m: nat, r: nat)
    requires m > 0 && r == Pow(b, q) % m
    ensures (r * b) % m == Pow(b, q + 1) % m
  {
    ModMulLeft(Pow(b, q), b, m);
    PowAdd(b, q, 1);
    assert Pow(b, 1) == b;
  }

  /** The first loop of `ExpMod64`: starting from the top bit, shift a one-bit mask right
      until it meets a set bit of `e`. It stops at the highest set bit because `e != 0`. */
  method HighestBit(e: u64) returns (mask: u64, ghost j: nat)
    requires e != 0
    ensures mask == Pow(2, j)
    ensures mask <= e < 2 * mask
  {
    mask := 0x8000_0000_0000_0000;
    j := 63;
    Pow2To63();
    while (e / mask) % 2 == 0
      invariant mask == Pow(2, j)
      invariant e < 2 * mask
      decreases j
    {
      QuotientBelowTwo(e, mask);
      mask := mask / 2;
      j := j - 1;
    }
    QuotientBelowTwo(e, mask);
  }

  /** One iteration of the second loop of `ExpMod64`: square, then multiply by the base when
      the current exponent bit is set. The accumulator moves from the exponent prefix above
      `mask` to the prefix that includes it. */
  lemma SquareMultiplyStep(b: u64, e: u64, m: u64, mask: nat, r: u64)
    requires b != 0 && m > 1 && mask > 0
    requires e / (2 * mask) >= 1
    requires r == Accumulated(b, e / (2 * mask), m)
    ensures e / mask >= 1
    ensures var r1 := MulMod64(r, r, m);
            (if (e / mask) % 2 == 1 then MulMod64(r1, b, m) else r1) == Accumulated(b, e / mask, m)
  {
    var q := e / (2 * mask);
    DivHalf(e, mask);
    var q' := e / mask;
    assert q' == 2 * q + q' % 2;
    AccumulatedCongruent(b, q, m);
    SquareStep(b, q, m, r);
    MulMod64Exact(r, r, m, MulMod64(r, r, m));
    var r1 := MulMod64(r, r, m);
    if q' % 2 == 1 {
      MultiplyStep(b, 2 * q, m, r1);
      MulMod64Exact(r1, b, m, MulMod64(r1, b, m));
    }
  }

  /** `SquareMultiplyStep` restated for the loop of `ScanBits`, whose mask is `2^k / 2`. */
  lemma ScanStep(b: u64, e: u64, m: u64, mask: nat, k: nat, r: u64)
    requires b != 0 && m > 1 && mask != 0
    requires Pow(2, k) > 0 && mask == Pow(2, k) / 2
    requires e / Pow(2, k) >= 1 && r == Accumulated(b, e / Pow(2, k), m)
    ensures k >= 1 && Pow(2, k - 1) > 0 && mask / 2 == Pow(2, k - 1) / 2
    ensures e / Pow(2, k - 1) >= 1
    ensures var r1 := MulMod64(r, r, m);
            (if (e / mask) % 2 == 1 then MulMod64(r1, b, m) else r1) == Accumulated(b, e / Pow(2, k - 1), m)
  {
    assert k >= 1;
    assert mask == Pow(2, k - 1) && Pow(2, k) == 2 * mask;
    SquareMultiplyStep(b, e, m, mask, r);
  }

  lemma Pow2IsOne(k: nat)
    requires Pow(2, k) / 2 == 0
    ensures Pow(2, k) == 1 && k == 0
  {
    PowPositive(2, k);
    if k > 0 {
      Pow2StrictlyMonotone(0, k);
    }
  }

  /** The second loop of `ExpMod64`: `while (mask >>= 1)`, square the accumulator and multiply
      by the base when the exponent bit under the mask is set. Entered with `mask` on the
      highest set bit of `e` and the accumulator equal to the base. */
  method ScanBits(b: u64, e: u64, m: u64, mask0: u64, ghost j: nat) returns (r: u64)
    requires b != 0 && m > 1
    requires mask0 == Pow(2, j) && mask0 <= e < 2 * mask0
    ensures r == Accumulated(b, e, m)
  {
    QuotientBelowTwo(e, mask0);
    r := b;
    var mask := mask0 / 2;
    ghost var k: nat := j;
    while mask != 0
      invariant Pow(2, k) > 0
      invariant mask == Pow(2, k) / 2
      invariant e / Pow(2, k) >= 1
      invariant r == Accumulated(b, e / Pow(2, k), m)
      decreases mask
    {
      ScanStep(b, e, m, mask, k, r);
      r := MulMod64(r, r, m);
      if (e / mask) % 2 == 1 {
        r := MulMod64(r, b, m);
      }
      mask := mask / 2;
      k := k - 1;
    }
    Pow2IsOne(k);
  }

  /** What the accumulator left by `ScanBits` means for the caller of `ExpMod64`. */
  lemma AccumulatedResult(b: nat, e: nat, m: nat)
    requires b != 0 && m > 1 && e >= 1
    ensures e == 1 ==> Accumulated(b, e, m) == b
    ensures e != 1 ==> Accumulated(b, e, m) == Pow(b, e) % m
    ensures Accumulated(b, e, m) % m == Pow(b, e) % m
    ensures b < m ==> Accumulated(b, e, m) == Pow(b, e) % m
  {
    AccumulatedCongruent(b, e, m);
    if e == 1 && b < m {
      assert Pow(b, 1) == b;
      ModOfSmall(b, m);
    }
  }

  /** `ExpMod64(b, e, m)`: `b^e mod m` by scanning the bits of `e` from the highest set bit
      down. Degenerate inputs give fixed answers: 0 when `b == 0` or `m <= 1`, and 1 when
      `e == 0`. The accumulator starts as `b` without reduction, so `e == 1` returns `b`
      itself, which is the reduced power only when `b < m`. */
  method ExpMod64(b: u64, e: u64, m: u64) returns (r: u64)
    ensures b == 0 || m <= 1 ==> r == 0
    ensures b != 0 && m > 1 && e == 0 ==> r == 1
    ensures b != 0 && m > 1 && e == 1 ==> r == b
    ensures b != 0 && m > 1 && e != 1 ==> r == Pow(b, e) % m
  {
    if b == 0 || m <= 1 {
      return 0;
    }
    if e == 0 {
      ModOfSmall(1, m);
      return 1;
    }
    var mask, j := HighestBit(e);
    r := ScanBits(b, e, m, mask, j);
    AccumulatedResult(b, e, m);
  }
}
