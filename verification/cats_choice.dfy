/** The CatsChoice generator: two 64-bit multiply-with-carry lanes, seeded through the
    MurmurHash3 finaliser, whose 32-bit output is the sum of the lanes' low words. */
module CatsChoice {
  import opened Words
  import opened Arith
  import opened Bits
  import opened Mix

  /** The generator state `_x`, `_y`. In each lane the low word is the multiply-with-carry
      digit and the high word is the carry. */
  datatype State = State(x: u64, y: u64)

  /** The result of one `Next()` call: the advanced state and the returned word. */
  datatype Step = Step(state: State, output: u32)

  /** The 64-bit keys each 32-bit seed is xor-ed with before mixing. */
  const SEED_KEY_X: u64 := 0x9368e53c2f6af274
  const SEED_KEY_Y: u64 := 0x586dcd208f7cd3fd

  /** The multiply-with-carry multipliers of the two lanes. */
  const MWC_A_X: u64 := 0xffff0207
  const MWC_A_Y: u64 := 0xffff4b9f

  lemma SeedFits(key: u64, seed: u32)
    ensures Xor(key, seed) < TWO_64
  {
    Pow2To64();
    XorBound(key, seed, 64);
  }

  /** One lane of `Initialize`: the seed, zero-extended to 64 bits, xor-ed with the lane's
      key and passed through `fmix64`. */
  function SeedLane(key: u64, seed: u32): u64 {
    SeedFits(key, seed);
    Fmix64(Xor(key, seed))
  }

  /** The seed a lane value was produced from: `fmix64` undone and the key removed. */
  function LaneSeed(key: u64, lane: u64): nat {
    Xor(Unmix64(lane), key)
  }

  /** Seeding a lane loses nothing: the seed is recovered from the lane. */
  lemma SeedLaneRoundTrip(key: u64, seed: u32)
    ensures LaneSeed(key, SeedLane(key, seed)) == seed
  {
    SeedFits(key, seed);
    Fmix64RoundTrip(Xor(key, seed));
    XorCommutes(key, seed);
    XorCancel(seed, key);
  }

  /** `Initialize(seed_x, seed_y)`: each lane is determined by its own seed alone, and both
      seeds can be read back from the state. */
  function Initialize(seedX: u32, seedY: u32): (s: State)
    ensures LaneSeed(SEED_KEY_X, s.x) == seedX
    ensures LaneSeed(SEED_KEY_Y, s.y) == seedY
  {
    SeedLaneRoundTrip(SEED_KEY_X, seedX);
    SeedLaneRoundTrip(SEED_KEY_Y, seedY);
    State(SeedLane(SEED_KEY_X, seedX), SeedLane(SEED_KEY_Y, seedY))
  }

  /** `Initialize(seed)`: the single seed is used for both lanes. */
  function InitializeOne(seed: u32): (s: State)
    ensures LaneSeed(SEED_KEY_X, s.x) == seed
    ensures LaneSeed(SEED_KEY_Y, s.y) == seed
  {
    Initialize(seed, seed)
  }

  /** Distinct seed pairs give distinct initial states, so distinct streams start apart. */
  lemma InitializeInjective(seedX: u32, seedY: u32, seedX': u32, seedY': u32)
    requires Initialize(seedX, seedY) == Initialize(seedX', seedY')
    ensures seedX == seedX' && seedY == seedY'
  {
  }

  /** One multiply-with-carry step of a lane, `A * (u32)lane + (u32)(lane >> 32)` computed
      on `u64`. */
  function MwcStep(a: u64, lane: u64): u64 {
    (a * Lo32(lane) + Hi32(lane)) % TWO_64
  }

  /** For a 32-bit multiplier the 64-bit arithmetic of a step never wraps, and the new carry
      (high word) is at most the multiplier. */
  lemma MwcStepNoWrap(a: u64, lane: u64)
    requires a < TWO_32
    ensures MwcStep(a, lane) == a * Lo32(lane) + Hi32(lane)
    ensures Hi32(MwcStep(a, lane)) <= a
  {
    MulMonotone(a, Lo32(lane), TWO_32 - 1);
    assert a * Lo32(lane) + Hi32(lane) <= a * (TWO_32 - 1) + (TWO_32 - 1);
  }

  /** `Next()`: both lanes take one step; the output is the 32-bit wrapping sum of the new low
      words. */
  function Next(s: State): Step {
    var x := MwcStep(MWC_A_X, s.x);
    var y := MwcStep(MWC_A_Y, s.y);
    Step(State(x, y), (Lo32(x) + Lo32(y)) % TWO_32)
  }

  /** Neither lane's update wraps around 2^64, after a step each lane's carry is bounded by
      its multiplier, and the output word is the sum of the two new lanes modulo 2^32. */
  lemma NextNoWrap(s: State)
    ensures Next(s).state.x == MWC_A_X * Lo32(s.x) + Hi32(s.x)
    ensures Next(s).state.y == MWC_A_Y * Lo32(s.y) + Hi32(s.y)
    ensures Hi32(Next(s).state.x) <= MWC_A_X && Hi32(Next(s).state.y) <= MWC_A_Y
    ensures Next(s).output == (Next(s).state.x + Next(s).state.y) % TWO_32
  {
    MwcStepNoWrap(MWC_A_X, s.x);
    MwcStepNoWrap(MWC_A_Y, s.y);
    var x, y := Next(s).state.x, Next(s).state.y;
    assert x == Lo32(x) + Hi32(x) * TWO_32 && y == Lo32(y) + Hi32(y) * TWO_32;
    ModAddMultiple(Lo32(x) + Lo32(y), Hi32(x) + Hi32(y), TWO_32);
  }

  /** The state after `m` calls of `Next()`. */
  function Advance(s: State, m: nat): State
    decreases m
  {
    if m == 0 then s else Next(Advance(s, m - 1)).state
  }

  /** The word returned by the `(i + 1)`-th call of `Next()` from state `s`. */
  function Output(s: State, i: nat): u32 {
    Next(Advance(s, i)).output
  }

  /** The two lanes never interact: after any number of steps each lane depends only on its
      own starting value, and hence on its own seed only. */
  lemma {:induction false} LanesIndependent(s: State, t: State, m: nat)
    ensures s.x == t.x ==> Advance(s, m).x == Advance(t, m).x
    ensures s.y == t.y ==> Advance(s, m).y == Advance(t, m).y
    decreases m
  {
    if m > 0 {
      LanesIndependent(s, t, m - 1);
    }
  }

  /** After at least one step the carry of each lane is bounded by that lane's multiplier. */
  lemma CarryBounded(s: State, m: nat)
    requires m >= 1
    ensures Hi32(Advance(s, m).x) <= MWC_A_X
    ensures Hi32(Advance(s, m).y) <= MWC_A_Y
  {
    NextNoWrap(Advance(s, m - 1));
  }
}
