/** Bitwise operations on naturals: exclusive or and logical shift right, defined one bit at
    a time from the least significant end, with the algebra the seed mixer relies on. */
module Bits {
  import opened Arith

  /** `a ^ b`. */
  function Xor(a: nat, b: nat): nat
    decreases a + b
  {
    if a == 0 && b == 0 then 0 else 2 * Xor(a / 2, b / 2) + (a % 2 + b % 2) % 2
  }

  /** `x >> k` (logical: zeros enter at the top). */
  function Shr(x: nat, k: nat): nat
    decreases k
  {
    if k == 0 then x else Shr(x / 2, k - 1)
  }

  /** The lowest bit of `a ^ b` is the xor of the lowest bits; the rest is the xor of the rest. */
  lemma XorSplit(a: nat, b: nat)
    ensures Xor(a, b) / 2 == Xor(a / 2, b / 2)
    ensures Xor(a, b) % 2 == (a % 2 + b % 2) % 2
  {
  }

  lemma {:induction false} XorZero(a: nat)
    ensures Xor(a, 0) == a
    decreases a
  {
    if a > 0 {
      XorZero(a / 2);
    }
  }

  lemma {:induction false} XorCommutes(a: nat, b: nat)
    ensures Xor(a, b) == Xor(b, a)
    decreases a + b
  {
    if a + b > 0 {
      XorCommutes(a / 2, b / 2);
    }
  }

  /** Adding the same bit twice cancels modulo 2. */
  lemma BitCancel(x: nat, y: nat)
    requires x < 2 && y < 2
    ensures ((x + y) % 2 + y) % 2 == x
  {
  }

  /** A natural number is determined by its halves and its low bit. */
  lemma SameHalves(x: nat, y: nat)
    requires x / 2 == y / 2 && x % 2 == y % 2
    ensures x == y
  {
  }

  /** Xor-ing the same value twice gives back the original. */
  lemma {:induction false} XorCancel(a: nat, c: nat)
    ensures Xor(Xor(a, c), c) == a
    decreases a + c
  {
    if a + c > 0 {
      var z := Xor(a, c);
      var y := Xor(z, c);
      XorSplit(a, c);
      XorSplit(z, c);
      XorCancel(a / 2, c / 2);
      BitCancel(a % 2, c % 2);
      SameHalves(y, a);
    }
  }

  /** The xor of two `n`-bit values is an `n`-bit value. */
  lemma {:induction false} XorBound(a: nat, b: nat, n: nat)
    requires a < Pow(2, n) && b < Pow(2, n)
    ensures Xor(a, b) < Pow(2, n)
    decreases n
  {
    PowPositive(2, n);
    if n > 0 && a + b > 0 {
      XorBound(a / 2, b / 2, n - 1);
    }
  }

  lemma {:induction false} ShrOfZero(k: nat)
    ensures Shr(0, k) == 0
    decreases k
  {
    if k > 0 {
      ShrOfZero(k - 1);
    }
  }

  /** Shifting right distributes over xor. */
  lemma {:induction false} ShrXor(a: nat, b: nat, k: nat)
    ensures Shr(Xor(a, b), k) == Xor(Shr(a, k), Shr(b, k))
    decreases k
  {
    if k > 0 {
      XorSplit(a, b);
      ShrXor(a / 2, b / 2, k - 1);
    }
  }

  /** Two shifts are one shift by the sum. */
  lemma {:induction false} ShrShr(x: nat, i: nat, j: nat)
    ensures Shr(Shr(x, i), j) == Shr(x, i + j)
    decreases i
  {
    if i > 0 {
      ShrShr(x / 2, i - 1, j);
    }
  }

  /** Shifting an `n`-bit value right by `k <= n` leaves an `(n - k)`-bit value. */
  lemma {:induction false} ShrBound(x: nat, n: nat, k: nat)
    requires x < Pow(2, n) && k <= n
    ensures Shr(x, k) < Pow(2, n - k)
    decreases k
  {
    if k > 0 {
      ShrBound(x / 2, n - 1, k - 1);
    }
  }

  /** Shifting an `n`-bit value right by `n` leaves nothing. */
  lemma ShrAll(x: nat, n: nat)
    requires x < Pow(2, n)
    ensures Shr(x, n) == 0
  {
    ShrBound(x, n, n);
  }
}
