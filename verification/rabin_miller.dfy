/** The Rabin-Miller strong-probable-prime test as `Generator.cpp` codes it: factors of
    two stripped from `n - 1`, witnesses drawn from the CatsChoice stream, and a squaring loop
    driven by a doubling counter `t`. */
module RabinMiller {
  import opened Words
  import opened Arith
  import opened CatsChoice
  import opened ModExp

  /** `x == odd * 2^twos` with `odd` odd. */
  datatype Split = Split(odd: nat, twos: nat)

  /** The reference decomposition of a positive number into an odd part and a power of two. */
  function TwoAdicSplit(x: nat): (r: Split)
    requires x > 0
    ensures r.odd % 2 == 1
    ensures x == r.odd * Pow(2, r.twos)
    decreases x
  {
    if x % 2 == 1 then
      Split(x, 0)
    else
      var h := TwoAdicSplit(x / 2);
      assert x == 2 * (h.odd * Pow(2, h.twos));
      assert 2 * (h.odd * Pow(2, h.twos)) == h.odd * (2 * Pow(2, h.twos));
      Split(h.odd, h.twos + 1)
  }

  /** The decomposition is unique: any odd `d` and `s` with `x == d * 2^s` are the split. */
  lemma {:induction false} TwoAdicSplitUnique(x: nat, d: nat, s: nat)
    requires x > 0 && d % 2 == 1 && x == d * Pow(2, s)
    ensures TwoAdicSplit(x) == Split(d, s)
    decreases s
  {
    if s > 0 {
      var h := d * Pow(2, s - 1);
      assert x == 2 * h;
      assert x % 2 == 0 && x / 2 == h;
      TwoAdicSplitUnique(h, d, s - 1);
    }
  }

  /** The strip loop `while (!(d & 1)) d >>= 1;`. It needs `n1 > 0`: for `n1 == 0` the
      value never changes and the loop does not end. */
  method StripTwos(n1: u64) returns (d: u64)
    requires n1 > 0
    ensures d == TwoAdicSplit(n1).odd
  {
    d := n1;
    while d % 2 == 0
      invariant d > 0
      invariant TwoAdicSplit(d).odd == TwoAdicSplit(n1).odd
      decreases d
    {
      d := d / 2;
    }
  }

  /** `w^(d * 2^j) mod n`: the value `a` holds after `j` squarings in a round. */
  function Chain(w: nat, d: nat, n: nat, j: nat): nat
    requires n > 0
  {
    Pow(w, d * Pow(2, j)) % n
  }

  /** Each squaring moves one step along the chain. */
  lemma ChainStep(w: nat, d: nat, n: nat, j: nat)
    requires n > 0
    ensures Chain(w, d, n, j + 1) == (Chain(w, d, n, j) * Chain(w, d, n, j)) % n
  {
    var e := d * Pow(2, j);
    assert d * Pow(2, j + 1) == e + e;
    PowAdd(w, e, e);
    ModMulBoth(Pow(w, e), Pow(w, e), n);
  }

  /** Once the chain reaches 1 it stays there. */
  lemma {:induction false} ChainStaysOne(w: nat, d: nat, n: nat, i: nat, j: nat)
    requires n > 1 && i <= j && Chain(w, d, n, i) == 1
    ensures Chain(w, d, n, j) == 1
    decreases j - i
  {
    if i < j {
      ChainStaysOne(w, d, n, i, j - 1);
      ChainStep(w, d, n, j - 1);
      ModOfSmall(1, n);
    }
  }

  /** Whether a round of the source's test lets the witness `w` through for candidate `n`,
      with `n - 1 == d * 2^s`: always when `s == 0` (even `n`), when `w^d == 1`, or when
      `w^(d * 2^j) == n - 1` for some `j` with `0 <= j <= s` (all modulo `n`). */
  predicate RoundPasses(w: nat, n: nat)
    requires n >= 2
  {
    var sp := TwoAdicSplit(n - 1);
    || sp.twos == 0
    || Chain(w, sp.odd, n, 0) == 1
    || exists j :: 0 <= j <= sp.twos && Chain(w, sp.odd, n, j) == n - 1
  }

  /** The textbook strong-probable-prime condition: `w^d == 1`, or `w^(d * 2^j) == n - 1`
      for some `j < s`. */
  predicate StrongProbablePrime(w: nat, n: nat)
    requires n >= 2
  {
    var sp := TwoAdicSplit(n - 1);
    || Chain(w, sp.odd, n, 0) == 1
    || exists j :: 0 <= j < sp.twos && Chain(w, sp.odd, n, j) == n - 1
  }

  lemma ScaledPow2Injective(d: nat, i: nat, j: nat)
    requires d > 0 && d * Pow(2, i) == d * Pow(2, j)
    ensures i == j
  {
    DivModUnique(d * Pow(2, i), d, Pow(2, i), 0);
    DivModUnique(d * Pow(2, j), d, Pow(2, j), 0);
    Pow2Injective(i, j);
  }

  /** Doubling `t == d * 2^i` gives `d * 2^(i+1)`; it stays within `n - 1 == d * 2^s` while
      `i < s`. */
  lemma Doubling(d: nat, i: nat, s: nat)
    requires i < s
    ensures d * Pow(2, i + 1) == 2 * (d * Pow(2, i))
    ensures d * Pow(2, i + 1) <= d * Pow(2, s)
  {
    Pow2Monotone(i + 1, s);
    MulMonotone(d, Pow(2, i + 1), Pow(2, s));
  }

  /** `t == d * 2^i` with `d` odd is odd exactly when no squaring has happened. */
  lemma CounterParity(d: nat, i: nat)
    requires d % 2 == 1
    ensures (d * Pow(2, i)) % 2 == (if i == 0 then 1 else 0)
  {
    if i > 0 {
      assert d * Pow(2, i) == 2 * (d * Pow(2, i - 1));
    }
  }

  /** The verdict `!(a != n1 && (t & 1) == 0)` taken when the squaring loop has stopped after
      `i` squarings is exactly `RoundPasses`. */
  lemma ExitVerdict(w: nat, n: nat, d: nat, i: nat, a: nat, t: nat)
    requires n >= 2 && d == TwoAdicSplit(n - 1).odd
    requires i <= TwoAdicSplit(n - 1).twos
    requires t == d * Pow(2, i)
    requires a == Chain(w, d, n, i)
    requires forall j :: 0 <= j < i ==> Chain(w, d, n, j) != 1 && Chain(w, d, n, j) != n - 1
    requires t == n - 1 || a == 1 || a == n - 1
    ensures !(a != n - 1 && t % 2 == 0) <==> RoundPasses(w, n)
  {
    var s := TwoAdicSplit(n - 1).twos;
    CounterParity(d, i);
    if a != 1 && a != n - 1 {
      // The loop stopped on `t == n1`: all `s` squarings are done.
      ScaledPow2Injective(d, i, s);
    } else if a == 1 && a != n - 1 && i > 0 {
      forall j | i <= j <= s
        ensures Chain(w, d, n, j) == 1
      {
        ChainStaysOne(w, d, n, i, j);
      }
    }
  }

  /** One round after the witness is drawn: `a = ExpMod64(a, d, n)`, then square while
      `t != n1 && a != 1 && a != n1`, doubling `t` each time, and pass unless
      `a != n1 && (t & 1) == 0`. */
  method WitnessRound(w: u64, n: u64, n1: u64, d: u64) returns (pass: bool)
    requires n >= 2 && n1 == n - 1 && d == TwoAdicSplit(n1).odd && w < n
    ensures pass == RoundPasses(w, n)
  {
    ghost var s := TwoAdicSplit(n1).twos;
    var a := ExpMod64(w, d, n);
    if w == 0 {
      PowZeroBase(d);
    } else if d == 1 {
      // `ExpMod64` leaves an exponent of 1 unreduced, but the witness is already below `n`.
      ModOfSmall(w, n);
      assert Pow(w, 1) == w;
    }
    assert a == Chain(w, d, n, 0);
    var t := d;
    ghost var i: nat := 0;
    while t != n1 && a != 1 && a != n1
      invariant i <= s
      invariant t == d * Pow(2, i)
      invariant a == Chain(w, d, n, i)
      invariant forall j :: 0 <= j < i ==> Chain(w, d, n, j) != 1 && Chain(w, d, n, j) != n1
      decreases s - i
    {
      // `t <<= 1` does not overflow: 2 * t == d * 2^(i+1) <= d * 2^s == n1.
      Doubling(d, i, s);
      ChainStep(w, d, n, i);
      MulMod64Exact(a, a, n, MulMod64(a, a, n));
      a := MulMod64(a, a, n);
      t := t * 2;
      i := i + 1;
    }
    ExitVerdict(w, n, d, i, a, t);
    pass := !(a != n1 && t % 2 == 0);
  }

  /** The witness of round `i` (from 0): the `2i`-th generator word as the low half and the
      next word as the high half, reduced modulo `n`. */
  function RoundWitness(prng: State, n: u64, i: nat): u64
    requires n > 0
  {
    Join64(Output(prng, 2 * i), Output(prng, 2 * i + 1)) % n
  }

  /** Round `i` of a test of `n` started from generator state `prng` passes. */
  predicate RoundPassesAt(prng: State, n: u64, i: nat)
    requires n >= 2
  {
    RoundPasses(RoundWitness(prng, n, i), n)
  }

  /** Drawing a round's witness reads the next two generator words, low word first. */
  lemma DrawRound(prng: State, n: u64, round: nat, s: State)
    requires n > 0 && s == Advance(prng, 2 * round)
    ensures Join64(Next(s).output, Next(Next(s).state).output) % n == RoundWitness(prng, n, round)
    ensures Next(Next(s).state).state == Advance(prng, 2 * round + 2)
  {
    assert Advance(prng, 2 * round + 1) == Next(s).state;
  }

  /** The body of the round loop: draw the witness from the next two generator words, reduce
      it modulo `n` (`a %= n`) and play the round. */
  method PlayRound(ghost prng: State, n: u64, n1: u64, d: u64, ghost round: nat, s: State)
    returns (pass: bool, s': State)
    requires n >= 2 && n1 == n - 1 && d == TwoAdicSplit(n1).odd
    requires s == Advance(prng, 2 * round)
    ensures pass == RoundPassesAt(prng, n, round)
    ensures s' == Advance(prng, 2 * (round + 1))
  {
    DrawRound(prng, n, round, s);
    var lo := Next(s);
    var hi := Next(lo.state);
    s' := hi.state;
    var a := Join64(lo.output, hi.output) % n;
    pass := WitnessRound(a, n, n1, d);
  }

  /** The first `r` rounds of a test of `n` started from `prng` all pass. */
  predicate RoundsPass(prng: State, n: u64, r: nat)
    requires n >= 2
  {
    r == 0 || (RoundsPass(prng, n, r - 1) && RoundPassesAt(prng, n, r - 1))
  }

  /** `RoundsPass` says of every round below `r` that it passes. */
  lemma {:induction false} RoundsPassMeans(prng: State, n: u64, r: nat)
    requires n >= 2
    ensures RoundsPass(prng, n, r) <==> forall i :: 0 <= i < r ==> RoundPassesAt(prng, n, i)
  {
    if r > 0 {
      RoundsPassMeans(prng, n, r - 1);
    }
  }

  /** The round loop (`while (k--)`), counted upwards: play rounds until one fails or `k`
      rounds have passed. */
  method PlayRounds(prng: State, n: u64, n1: u64, d: u64, k: u32)
    returns (allPass: bool, prng': State, ghost failed: nat)
    requires n >= 2 && n1 == n - 1 && d == TwoAdicSplit(n1).odd
    ensures allPass <==> RoundsPass(prng, n, k)
    ensures allPass ==> prng' == Advance(prng, 2 * k)
    ensures !allPass ==> failed < k && RoundsPass(prng, n, failed) && !RoundPassesAt(prng, n, failed)
    ensures !allPass ==> prng' == Advance(prng, 2 * failed + 2)
  {
    var s := prng;
    var round: nat := 0;
    while round < k
      invariant round <= k
      invariant s == Advance(prng, 2 * round)
      invariant RoundsPass(prng, n, round)
    {
      var pass;
      pass, s := PlayRound(prng, n, n1, d, round, s);
      if !pass {
        RoundsStopAtFailure(prng, n, round, k);
        assert 2 * (round + 1) == 2 * round + 2;
        return false, s, round;
      }
      round := round + 1;
    }
    return true, s, 0;
  }

  /** Once round `i` fails, no longer run of rounds passes. */
  lemma {:induction false} RoundsStopAtFailure(prng: State, n: u64, i: nat, r: nat)
    requires n >= 2 && i < r && !RoundPassesAt(prng, n, i)
    ensures !RoundsPass(prng, n, r)
  {
    if i < r - 1 {
      RoundsStopAtFailure(prng, n, i, r - 1);
    }
  }

  /** `RabinMillerPrimeTest64(prng, n, k)`. The verdict is false exactly when one of the first
      `k` witnesses of the stream fails its round; the generator is returned advanced by two
      words per round played, and play stops at the first failing round. The source divides
      by `n` in every round and never leaves the strip loop for `n == 1`, so those inputs are
      excluded; `n == 0` with `k == 0` plays no round and answers true. */
  method RabinMillerPrimeTest64(prng: State, n: u64, k: u32) returns (probablyPrime: bool, prng': State)
    requires n != 1
    requires n == 0 ==> k == 0
    ensures probablyPrime <==> forall i :: 0 <= i < k ==> RoundPassesAt(prng, n, i)
    ensures probablyPrime ==> prng' == Advance(prng, 2 * k)
    ensures !probablyPrime ==>
              exists i :: 0 <= i < k && RoundsPass(prng, n, i) && !RoundPassesAt(prng, n, i)
                                     && prng' == Advance(prng, 2 * i + 2)
  {
    var n1 := Dec64(n);
    var d := StripTwos(n1);
    if k == 0 {
      return true, prng;
    }
    ghost var failed;
    probablyPrime, prng', failed := PlayRounds(prng, n, n1, d, k);
    RoundsPassMeans(prng, n, k);
  }

  /** For even `n` every witness passes, so the test answers true. */
  lemma EvenCandidatePasses(w: nat, n: nat)
    requires n >= 2 && n % 2 == 0
    ensures RoundPasses(w, n)
  {
    TwoAdicSplitUnique(n - 1, n - 1, 0);
  }

  /** For odd `n >= 3` the witness 0 never passes, even when `n` is prime. */
  lemma ZeroWitnessFails(n: nat)
    requires n >= 3 && n % 2 == 1
    ensures !RoundPasses(0, n)
  {
    var sp := TwoAdicSplit(n - 1);
    forall j | 0 <= j <= sp.twos
      ensures Chain(0, sp.odd, n, j) == 0
    {
      PowPositive(2, j);
      MulAtLeast(sp.odd, Pow(2, j));
      PowZeroBase(sp.odd * Pow(2, j));
    }
  }

  /** A passing witness satisfies Fermat's condition up to sign: `w^(n-1)` is 1 or `n - 1`
      modulo `n`. */
  lemma PassImpliesFermat(w: nat, n: nat)
    requires n >= 3 && n % 2 == 1
    requires RoundPasses(w, n)
    ensures Pow(w, n - 1) % n == 1 || Pow(w, n - 1) % n == n - 1
  {
    var sp := TwoAdicSplit(n - 1);
    var d, s := sp.odd, sp.twos;
    assert Chain(w, d, n, s) == Pow(w, n - 1) % n;
    if Chain(w, d, n, 0) == 1 {
      ChainStaysOne(w, d, n, 0, s);
    } else {
      var j :| 0 <= j <= s && Chain(w, d, n, j) == n - 1;
      if j < s {
        ChainStep(w, d, n, j);
        assert (n - 1) * (n - 1) == (n - 2) * n + 1;
        ModAddMultiple(1, n - 2, n);
        ModOfSmall(1, n);
        ChainStaysOne(w, d, n, j + 1, s);
      }
    }
  }

  /** For odd `n >= 3` the source's round accepts exactly the textbook strong probable primes
      and, in addition, the witnesses with `w^(n-1) == n - 1`: its loop may square `s` times
      where the textbook stops after `s - 1`. */
  lemma RoundPassesVersusTextbook(w: nat, n: nat)
    requires n >= 3 && n % 2 == 1
    ensures RoundPasses(w, n) <==> StrongProbablePrime(w, n) || Pow(w, n - 1) % n == n - 1
  {
    var sp := TwoAdicSplit(n - 1);
    var d, s := sp.odd, sp.twos;
    assert Chain(w, d, n, s) == Pow(w, n - 1) % n;
    if RoundPasses(w, n) && Chain(w, d, n, 0) != 1 {
      var j :| 0 <= j <= s && Chain(w, d, n, j) == n - 1;
    }
  }
}
