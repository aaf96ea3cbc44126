/** `RNG::SplitMix64` (RNG_SplitMix64.h): a 64-bit Weyl counter whose every step is
    finalised by a xor-shift-multiply mixer. The 1024-bit engine uses it to expand a 64-bit
    seed into sixteen words. */
module SplitMix {
  import opened Common

  const INCREMENT: u64 := 0x9e37_79b9_7f4a_7c15
  const MUL1: u64 := 0xbf58_476d_1ce4_e5b9
  const MUL2: u64 := 0x94d0_49bb_1331_11eb

  /** The finaliser that `operator()` applies to the advanced state. */
  function Mix(z: u64): u64
  {
    var z1 := Mul64(Xor64(z, Shr64(z, 30)), MUL1);
    var z2 := Mul64(Xor64(z1, Shr64(z1, 27)), MUL2);
    Xor64(z2, Shr64(z2, 31))
  }

  /** One call of `operator()` moves the state by one increment. */
  function Step(s: u64): u64
  {
    Add64(s, INCREMENT)
  }

  /** The state after `n` calls of `operator()`. */
  function Steps(s: u64, n: nat): u64
  {
    if n == 0 then s else Step(Steps(s, n - 1))
  }

  /** `discard(n)` as the source computes it: `state += INCREMENT * n`, both in uint64_t. */
  function Advance(s: u64, n: u64): u64
  {
    Add64(s, Mul64(n, INCREMENT))
  }

  /** The `k`-th output (counting from 1) of a generator seeded with `s`. */
  function Output(s: u64, k: nat): u64
  {
    Mix(Weyl(s, INCREMENT, k))
  }

  /** `n` calls of `operator()` leave the state `n` increments further on. */
  lemma {:induction false} StepsIsWeyl(s: u64, n: nat)
    ensures Steps(s, n) == Weyl(s, INCREMENT, n)
  {
    if n > 0 {
      StepsIsWeyl(s, n - 1);
      WeylStep(s, INCREMENT, n - 1);
    }
  }

  /** `discard(n)` yields the state that `n` calls of `operator()` yield. */
  lemma DiscardIsSteps(s: u64, n: u64)
    ensures Advance(s, n) == Steps(s, n)
  {
    WeylJump(s, INCREMENT, n);
    StepsIsWeyl(s, n);
  }

  /** The `k`-th call of `operator()` returns the mix of the seed plus `k` increments. */
  lemma KthOutput(s: u64, k: nat)
    ensures Mix(Steps(s, k)) == Output(s, k)
  {
    StepsIsWeyl(s, k);
  }

  lemma DiscardZero(s: u64)
    ensures Advance(s, 0) == s
  {
  }

  /** Two discards add their counts modulo 2^64. */
  lemma DiscardTwice(s: u64, a: u64, b: u64)
    ensures Advance(Advance(s, a), b) == Advance(s, (a + b) % TWO64)
  {
    WeylJump(s, INCREMENT, a);
    WeylJump(Advance(s, a), INCREMENT, b);
    WeylJump(s, INCREMENT, (a + b) % TWO64);
    WeylAdd(s, INCREMENT, a, b);
    WeylWrap(s, INCREMENT, a + b);
  }

  class SplitMix64 {
    var state: u64

    /** `SplitMix64(u64 seed)` */
    constructor (seed: u64)
      ensures state == seed
    {
      state := seed;
    }

    /** `SplitMix64(Deterministic, u64 seed)` */
    constructor Deterministic(seed: u64)
      ensures state == seed
    {
      state := seed;
    }

    /** `SplitMix64()` and `SplitMix64(NonDeterministic)`: the state is the eight bytes the
        platform entropy source wrote into it. */
    constructor FromEntropy(bytes: seq<u8>)
      requires |bytes| == 8
      ensures state == LeValue(bytes)
    {
      LeValueBound(bytes);
      state := LeValue(bytes);
    }

    /** `operator()`: advance the state, then return its mix. */
    method Next() returns (r: u64)
      modifies this
      ensures state == Step(old(state))
      ensures r == Mix(state)
    {
      state := Add64(state, INCREMENT);
      var z := state;
      z := Mul64(Xor64(z, Shr64(z, 30)), MUL1);
      z := Mul64(Xor64(z, Shr64(z, 27)), MUL2);
      r := Xor64(z, Shr64(z, 31));
    }

    /** `discard(n)` */
    method Discard(n: u64)
      modifies this
      ensures state == Advance(old(state), n)
    {
      state := Add64(state, Mul64(n, INCREMENT));
    }
  }
}
