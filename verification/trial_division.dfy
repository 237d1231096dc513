/** Trial division by the small primes of `PRIME_LIST` in `Generator.cpp`. */
module TrialDivision {
  import opened Words

  /** A nonzero 16-bit value: every entry of the list before its terminator. */
  type Divisor = p: int | 0 < p < 0x1_0000 witness 1

  /** The 169 entries of `PRIME_LIST` before its terminator, in increasing order: the 168 primes
      below 1000, followed by 1009. */
  const SMALL_PRIMES: seq<Divisor> :=
    [
      2, 3, 5, 7, 11, 13, 17, 19, 23, 29, 31, 37,
      41, 43, 47, 53, 59, 61, 67, 71, 73, 79, 83, 89,
      97, 101, 103, 107, 109, 113, 127, 131, 137, 139, 149, 151,
      157, 163, 167, 173, 179, 181, 191, 193, 197, 199, 211, 223,
      227, 229, 233, 239, 241, 251, 257, 263, 269, 271, 277, 281,
      283, 293, 307, 311, 313, 317, 331, 337, 347, 349, 353, 359,
      367, 373, 379, 383, 389, 397, 401, 409, 419, 421, 431, 433,
      439, 443, 449, 457, 461, 463, 467, 479, 487, 491, 499, 503,
      509, 521, 523, 541, 547, 557, 563, 569, 571, 577, 587, 593,
      599, 601, 607, 613, 617, 619, 631, 641, 643, 647, 653, 659,
      661, 673, 677, 683, 691, 701, 709, 719, 727, 733, 739, 743,
      751, 757, 761, 769, 773, 787, 797, 809, 811, 821, 823, 827,
      829, 839, 853, 857, 859, 863, 877, 881, 883, 887, 907, 911,
      919, 929, 937, 941, 947, 953, 967, 971, 977, 983, 991, 997,
      1009
    ]

  /** `PRIME_LIST`: the small primes followed by a 0 that marks the end of the list. */
  const PRIME_LIST: seq<u16> := SMALL_PRIMES + [0 as u16]

  /** The entries of a zero-terminated list that come before its first 0 (the whole list when
      it holds no 0): the longest prefix free of zeros. */
  function UntilZero(list: seq<u16>): (r: seq<u16>)
    ensures r <= list
    ensures 0 !in r
    ensures |r| < |list| ==> list[|r|] == 0
  {
    if |list| == 0 || list[0] == 0 then [] else [list[0]] + UntilZero(list[1..])
  }

  /** A prefix free of zeros followed by a 0 is exactly what `UntilZero` keeps. */
  lemma {:induction false} UntilZeroAt(list: seq<u16>, i: nat)
    requires i < |list| && list[i] == 0
    requires forall j :: 0 <= j < i ==> list[j] != 0
    ensures UntilZero(list) == list[..i]
  {
    if i > 0 {
      UntilZeroAt(list[1..], i - 1);
      assert list[..i] == [list[0]] + list[1..][..i - 1];
    }
  }

  /** The entries `NoSmallPrimeFactors` divides by are exactly the small primes, and the
      list does hold its terminator. */
  lemma PrimeListEntries()
    ensures 0 in PRIME_LIST
    ensures UntilZero(PRIME_LIST) == SMALL_PRIMES
    ensures |SMALL_PRIMES| == 169
  {
    assert PRIME_LIST[|SMALL_PRIMES|] == 0;
    assert PRIME_LIST[..|SMALL_PRIMES|] == SMALL_PRIMES;
    UntilZeroAt(PRIME_LIST, |SMALL_PRIMES|);
  }

  /** The loop of `NoSmallPrimeFactors` over any zero-terminated list: `p = *lp++` until the
      entry read is 0, answering false at the first entry that divides `n`. The list must hold
      a 0, or the walk runs off its end. */
  method TrialDivide(n: u32, list: seq<u16>) returns (r: bool)
    requires 0 in list
    ensures r <==> forall p :: p in UntilZero(list) ==> n % p != 0
  {
    ghost var divisors := UntilZero(list);
    var i := 0;
    while list[i] != 0
      invariant i <= |divisors|
      invariant forall j :: 0 <= j < i ==> n % divisors[j] != 0
      decreases |divisors| - i
    {
      var p := list[i];
      assert p == divisors[i];
      i := i + 1;
      if n % p == 0 {
        assert p in divisors;
        assert p in UntilZero(list);
        return false;
      }
    }
    return true;
  }

  /** `NoSmallPrimeFactors(n)`: true exactly when no prime below 1010 divides `n`. */
  method NoSmallPrimeFactors(n: u32) returns (r: bool)
    ensures r <==> forall p :: p in SMALL_PRIMES ==> n % p != 0
  {
    PrimeListEntries();
    r := TrialDivide(n, PRIME_LIST);
  }
}
