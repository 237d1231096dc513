/** The fixed-width unsigned integer types of `Generator.cpp`, as bounded naturals.
    Every wrap-around the source relies on is written out where it happens. */
module Words {

  const TWO_32: nat := 0x1_0000_0000
  const TWO_64: nat := 0x1_0000_0000_0000_0000

  type u16 = x: int | 0 <= x < 0x1_0000
  type u32 = x: int | 0 <= x < 0x1_0000_0000
  type u64 = x: int | 0 <= x < 0x1_0000_0000_0000_0000

  const MAX_U64: u64 := 0xffff_ffff_ffff_ffff

  /** `(u32)x`: the low word of a 64-bit value. */
  function Lo32(x: u64): u32 {
    x % TWO_32
  }

  /** `(u32)(x >> 32)`: the high word of a 64-bit value. */
  function Hi32(x: u64): u32 {
    x / TWO_32
  }

  /** `lo | ((u64)hi << 32)`: the two words occupy disjoint bit ranges, so the
      bitwise or is the sum `lo + hi * 2^32` and nothing is lost. */
  function Join64(lo: u32, hi: u32): (r: u64)
    ensures Lo32(r) == lo && Hi32(r) == hi
  {
    lo + hi * TWO_32
  }

  /** `n - 1` on `u64`, which wraps to the largest value for `n == 0`. */
  function Dec64(n: u64): (r: u64)
    ensures (r + 1) % TWO_64 == n
  {
    if n == 0 then MAX_U64 else n - 1
  }
}
