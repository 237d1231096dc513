# CatsChoice and the 64-bit Rabin-Miller test, in Dafny

`Generator.cpp` searches for multiply-with-carry parameters for the CatsChoice generator. Its
core is the generator itself and the arithmetic behind a probabilistic primality test:

- **CatsChoice**: a 32-bit generator with two 64-bit multiply-with-carry lanes. Each lane is
  seeded from a 32-bit seed: the seed is xor-ed with a fixed key and then passed through the
  MurmurHash3 `fmix64` finaliser.
- **MulMod64 / ExpMod64**: multiplication modulo a 64-bit modulus, and left-to-right
  square-and-multiply exponentiation built on it.
- **RabinMillerPrimeTest64**: `k` strong-probable-prime rounds. Each witness is built from two
  generator words, and the squaring loop is driven by a doubling counter `t`.
- **NoSmallPrimeFactors**: trial division by the zero-terminated table `PRIME_LIST`.

The model works on values, not objects.
- A generator is a `State` value. `Next` returns the new state together with the output word.
  The Rabin-Miller test takes a state and returns the advanced state.
- Fixed-width integers are bounded naturals (`u16`, `u32`, `u64` in `words.dfy`).
- Each bit operation of the source is written as arithmetic:
  - `x >> 1` is `x / 2`;
  - `x & 1` is `x % 2`;
  - `e & mask`, for a one-bit mask, is `(e / mask) % 2`;
  - `lo | hi << 32` is `lo + hi * 2^32`;
  - `^` is the bitwise `Xor` in `bits.dfy`.
- The wrap-around of `u64` multiplication is written out as `% 2^64` where the source relies
  on it, which is in `fmix64`. Where the proofs show that nothing can wrap, the model says so:
  the multiply-with-carry step, `t <<= 1`, and the word join.

Modules and files:

| file | module | contents |
|---|---|---|
| `words.dfy` | `Words` | the fixed-width types, `(u32)x`, `x >> 32`, the word join, `n - 1` with wrap-around |
| `arith.dfy` | `Arith` | `Pow`, and facts about powers, `/` and `%` |
| `bits.dfy` | `Bits` | `Xor` and `Shr` on naturals, with their algebra |
| `mix.dfy` | `Mix` | `fmix64` and its inverse |
| `cats_choice.dfy` | `CatsChoice` | seeding, `Next`, the output stream |
| `mod_exp.dfy` | `ModExp` | `MulMod64` and `ExpMod64` |
| `rabin_miller.dfy` | `RabinMiller` | the strip loop, one witness round, the full test |
| `trial_division.dfy` | `TrialDivision` | `PRIME_LIST` and `NoSmallPrimeFactors` |

How a round compares with the textbook strong probable-prime test (`StrongProbablePrime` in
`rabin_miller.dfy`), where `n - 1 == d * 2^s` with `d` odd:

- **Number of squarings.** The code's loop has the counter limit `t == n - 1`, which is reached
  after `s` squarings; the textbook test stops after `s - 1`. The loop also stops early once
  `a` is 1 or `n - 1`.
  - So a round also passes when `w^(n-1) == n - 1 (mod n)`.
  - `RoundPassesVersusTextbook` states exactly how the round relates to the textbook test.
  - For odd `n` that extra case cannot happen (`w^(n-1) == -1 (mod n)` would force
    `2^(s+1)` to divide `n - 1`). Nothing in the project depends on it, and it is not proved.
- **Even candidates.** For even `n`, `s == 0`, so the counter `t == d` is odd and the final
  check never rejects: every round passes (`EvenCandidatePasses`).
- **`k == 0`.** No round is played and the answer is true.

`ExpMod64` returns its base unreduced when `e == 1`: the accumulator starts as `b` and no
reduction happens. The source's only caller passes a base already reduced modulo `n`, so the
test is not affected. The contract states this case exactly.

## Model

| member | source | states |
|---|---|---|
| Words.Join64 | Generator.cpp:293 | or-ing the low word with the high word shifted up by 32 loses nothing: the low and high words of the result are the two inputs |
| Words.Dec64 | Generator.cpp:281 | `n - 1` on `u64` is the value whose successor modulo 2^64 is `n` (so `0 - 1` wraps to the largest value) |
| Mix.Fmix64 | Generator.cpp:109-113 | the MurmurHash3 finaliser as the seeding code writes it, with the wrap-around of each `u64` multiplication explicit; its contract is carried by `Mix.Fmix64RoundTrip` |
| Mix.XorShift33Involutive | Generator.cpp:109 | `x ^= x >> 33` applied twice gives back `x` on 64-bit values |
| Mix.MulWrapInverse | Generator.cpp:110 | a wrapping multiplication by an odd constant is undone by multiplying with its inverse modulo 2^64 |
| Mix.Fmix64RoundTrip | Generator.cpp:103-113 | the seed mixer is a bijection on 64-bit values: `Unmix64` recovers its input |
| CatsChoice.SeedLaneRoundTrip | Generator.cpp:107-114 | seeding a lane loses nothing: the 32-bit seed is recovered from the lane value |
| CatsChoice.Initialize | Generator.cpp:101-124 | each seed can be read back from its own lane: `_x` from `seed_x` alone, `_y` from `seed_y` alone |
| CatsChoice.InitializeOne | Generator.cpp:126-129 | the one-seed form puts the same seed into both lanes |
| CatsChoice.InitializeInjective | Generator.cpp:101-124 | distinct seed pairs give distinct initial states |
| CatsChoice.MwcStep | Generator.cpp:133-134 | one lane update `A * (u32)lane + (u32)(lane >> 32)` on `u64`; its contract is carried by `CatsChoice.MwcStepNoWrap` |
| CatsChoice.MwcStepNoWrap | Generator.cpp:133-134 | `A * (u32)lane + (u32)(lane >> 32)` never wraps in `u64` for a 32-bit `A`, and the new carry is at most `A` |
| CatsChoice.NextNoWrap | Generator.cpp:131-136 | both lanes of `Next()` hold the exact multiply-with-carry value, with carries bounded by the multipliers, and the output word is the sum of the two new lanes modulo 2^32 |
| CatsChoice.Next | Generator.cpp:131-136 | `Next()` steps both lanes and returns the 32-bit wrapping sum of their low words; its contract is carried by `CatsChoice.NextNoWrap` |
| CatsChoice.LanesIndependent | Generator.cpp:131-136 | after any number of `Next()` calls each lane depends on its own starting value only |
| CatsChoice.CarryBounded | Generator.cpp:133-134 | after at least one step the high word of each lane is at most that lane's multiplier |
| ModExp.MulMod64 | Generator.cpp:239-244 | the external multiply-mod returns a value below `m` congruent to the exact product |
| ModExp.MulMod64Exact | Generator.cpp:239-244 | that contract pins the result down: any value below `m` congruent to the exact 128-bit product is its remainder modulo `m` |
| ModExp.HighestBit | Generator.cpp:253-255 | the mask loop stops on the highest set bit of `e`: `mask <= e < 2 * mask` with `mask` a power of two |
| ModExp.ScanBits | Generator.cpp:257-271 | the square-and-multiply loop leaves `b` when `e == 1` and `b^e mod m` otherwise |
| ModExp.ExpMod64 | Generator.cpp:247-272 | 0 for `b == 0` or `m <= 1`, 1 for `e == 0`, `b` itself for `e == 1`, and `b^e mod m` otherwise |
| ModExp.AccumulatedResult | Generator.cpp:257-271 | the value the loop leaves is always congruent to `b^e` modulo `m`, and equals `b^e mod m` whenever `b < m` |
| RabinMiller.TwoAdicSplit | Generator.cpp:283-288 | the reference split `x == odd * 2^twos` with `odd` odd |
| RabinMiller.TwoAdicSplitUnique | Generator.cpp:283-288 | any odd `d` and `s` with `x == d * 2^s` are that split |
| RabinMiller.StripTwos | Generator.cpp:283-288 | the strip loop leaves the odd part of `n - 1` |
| RabinMiller.ChainStep | Generator.cpp:302-303 | each squaring moves `a` from `w^(d 2^j)` to `w^(d 2^(j+1))` modulo `n` |
| RabinMiller.ChainStaysOne | Generator.cpp:300-307 | once `a` is 1 further squarings keep it 1 |
| RabinMiller.ExitVerdict | Generator.cpp:309-310 | the verdict taken when the squaring loop stops is exactly `RoundPasses` |
| RabinMiller.WitnessRound | Generator.cpp:296-310 | one round lets `w` through exactly when `RoundPasses(w, n)` holds |
| RabinMiller.RoundWitness | Generator.cpp:293-294 | the witness of round `i`: generator words `2i` and `2i + 1` joined and reduced modulo `n`; its contract is carried by `RabinMiller.DrawRound` |
| RabinMiller.DrawRound | Generator.cpp:293-294 | round `i` draws generator words `2i` (low half) and `2i + 1` (high half), reduced modulo `n` |
| RabinMiller.PlayRound | Generator.cpp:293-310 | a round's verdict is that of its drawn witness, and the generator advances two words |
| RabinMiller.RoundsPassMeans | Generator.cpp:291-311 | "the first `r` rounds pass" means every round below `r` passes |
| RabinMiller.RoundsStopAtFailure | Generator.cpp:309-310 | after a failing round no longer run of rounds passes |
| RabinMiller.PlayRounds | Generator.cpp:291-313 | all `k` rounds pass, with the generator `2k` words on, or the first failure is reported with the generator just past it |
| RabinMiller.RabinMillerPrimeTest64 | Generator.cpp:275-314 | true iff each of the first `k` witnesses of the stream passes; on false, a failing round exists, every earlier round passed, and the generator is advanced two words per round played |
| RabinMiller.EvenCandidatePasses | Generator.cpp:283-310 | for even `n >= 2` every witness passes |
| RabinMiller.ZeroWitnessFails | Generator.cpp:296-310 | for odd `n >= 3` the witness 0 fails, even when `n` is prime |
| RabinMiller.PassImpliesFermat | Generator.cpp:296-310 | a passing witness has `w^(n-1)` equal to 1 or `n - 1` modulo `n` |
| RabinMiller.RoundPassesVersusTextbook | Generator.cpp:296-310 | for odd `n >= 3` a round passes iff `w` is a textbook strong probable-prime witness or `w^(n-1) == n - 1 (mod n)` |
| TrialDivision.UntilZero | Generator.cpp:167-170 | the entries read before the terminating 0: a zero-free prefix of the list, stopped by a 0 |
| TrialDivision.UntilZeroAt | Generator.cpp:167-170 | a zero-free run followed by a 0 is exactly what is read |
| TrialDivision.PrimeListEntries | Generator.cpp:141-159 | `PRIME_LIST` holds its terminator, and the entries read before it are exactly the 169 listed primes (the 168 primes below 1000, then 1009) |
| TrialDivision.TrialDivide | Generator.cpp:164-175 | the walk answers true iff no entry before the terminator divides `n` |
| TrialDivision.NoSmallPrimeFactors | Generator.cpp:161-176 | true iff no prime of the table divides `n` |

## Left out

- `main`: the search for multipliers, the factor counting and the console output are a driver
  around the core.
- The body of `_mul_mod64`: it is an external library routine (`_mul_mod64` from `big_x64`, declared `extern "C"`) that is not part of this model.
  `MulMod64` is specified by what it must return: a value below `m`, congruent to the exact
  product.
- `IsPrime32`: its bound comes from a floating-point square root.
- `IsPrime64`: trial division up to 2^32. Neither function is part of the core.
- `Platform.hpp` (`CAT_INLINE`, `CAT_EXPORT`, the integer typedefs) is not part of this model.
  The typedefs are the `u16`, `u32` and `u64` types in `words.dfy`.
- The statistical claims (period about 2^126, passing BigCrush) are not modelled.
- The number-theoretic claims are not modelled: that a prime passes every nonzero witness, and the error
  bound of the test.
- RabinMiller.RabinMillerPrimeTest64: requires `n != 1`, because the source's strip loop never
  ends when `n - 1 == 0`. It also requires `k == 0` when `n == 0`, because the source then
  divides by zero in its first round.
- RabinMiller.DrawRound: the source's two `prng.Next()` calls sit in one expression, and C++
  leaves their order unspecified. The model takes the low word from the first call.
- The generator's mutable object is a value threaded through the calls. The identity of the
  `CatsChoice &prng` reference is not modelled.
- TrialDivision.SMALL_PRIMES: the entries are not proved prime. The model states which 169
  numbers are divided by, exactly as the table lists them, not that they are primes.
