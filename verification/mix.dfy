/** The 64-bit finalisation mix of MurmurHash3 (`fmix64`), as the generator's seeding uses it,
    together with its inverse: every step is a bijection on 64-bit values. */
module Mix {
  import opened Words
  import opened Arith
  import opened Bits

  const FMIX_K1: u64 := 0xff51afd7ed558ccd
  const FMIX_K2: u64 := 0xc4ceb9fe1a85ec53

  /** Multiplicative inverses of the two mixing constants modulo 2^64. */
  const FMIX_K1_INV: u64 := 0x4f74430c22a54005
  const FMIX_K2_INV: u64 := 0x9cb4b2f8129337db

  lemma InverseConstants()
    ensures (FMIX_K1 * FMIX_K1_INV) % TWO_64 == 1
    ensures (FMIX_K2 * FMIX_K2_INV) % TWO_64 == 1
  {
    assert 0xff51afd7ed558ccd * 0x4f74430c22a54005 % 0x1_0000_0000_0000_0000 == 1;
    assert 0xc4ceb9fe1a85ec53 * 0x9cb4b2f8129337db % 0x1_0000_0000_0000_0000 == 1;
  }

  lemma XorShift33Fits(x: u64)
    ensures Xor(x, Shr(x, 33)) < TWO_64
  {
    Pow2To64();
    ShrBound(x, 64, 33);
    Pow2Monotone(31, 64);
    XorBound(x, Shr(x, 33), 64);
  }

  /** `x ^= x >> 33`. */
  function XorShift33(x: u64): u64 {
    XorShift33Fits(x);
    Xor(x, Shr(x, 33))
  }

  /** `x *= k` on `u64`: the product wraps modulo 2^64. */
  function MulWrap(x: u64, k: u64): u64 {
    (x * k) % TWO_64
  }

  /** `fmix64`: three xor-shifts by 33 with the two multiplications between them. */
  function Fmix64(x: u64): u64 {
    XorShift33(MulWrap(XorShift33(MulWrap(XorShift33(x), FMIX_K1)), FMIX_K2))
  }

  /** The inverse of `Fmix64`: the same steps undone in reverse order. */
  function Unmix64(y: u64): u64 {
    XorShift33(MulWrap(XorShift33(MulWrap(XorShift33(y), FMIX_K2_INV)), FMIX_K1_INV))
  }

  /** The top 33 bits of `x ^ (x >> 33)` are those of `x`, so applying the step twice undoes it. */
  lemma XorShift33Involutive(x: u64)
    ensures XorShift33(XorShift33(x)) == x
  {
    var s := Shr(x, 33);
    var y := Xor(x, s);
    Pow2To64();
    ShrXor(x, s, 33);
    ShrShr(x, 33, 33);
    ShrShr(x, 64, 2);
    ShrAll(x, 64);
    ShrOfZero(2);
    XorZero(s);
    assert Shr(y, 33) == s;
    XorCancel(x, s);
  }

  /** Multiplying by `k` and then by an inverse of `k` modulo 2^64 restores the value. */
  lemma MulWrapInverse(x: u64, k: u64, kInv: u64)
    requires (k * kInv) % TWO_64 == 1
    ensures MulWrap(MulWrap(x, k), kInv) == x
  {
    ModMulLeft(x * k, kInv, TWO_64);
    var c := (k * kInv) / TWO_64;
    assert k * kInv == c * TWO_64 + 1;
    assert (x * k) * kInv == x * (k * kInv);
    assert x * (k * kInv) == x + (x * c) * TWO_64;
    ModAddMultiple(x, x * c, TWO_64);
    ModOfSmall(x, TWO_64);
  }

  /** `fmix64` is a bijection on 64-bit values: `Unmix64` undoes it. */
  lemma Fmix64RoundTrip(x: u64)
    ensures Unmix64(Fmix64(x)) == x
  {
    var a := XorShift33(x);
    var b := MulWrap(a, FMIX_K1);
    var c := XorShift33(b);
    var d := MulWrap(c, FMIX_K2);
    assert Fmix64(x) == XorShift33(d);
    InverseConstants();
    XorShift33Involutive(d);
    MulWrapInverse(c, FMIX_K2, FMIX_K2_INV);
    assert MulWrap(XorShift33(XorShift33(d)), FMIX_K2_INV) == c;
    XorShift33Involutive(b);
    MulWrapInverse(a, FMIX_K1, FMIX_K1_INV);
    assert MulWrap(XorShift33(c), FMIX_K1_INV) == a;
    XorShift33Involutive(x);
  }
}
