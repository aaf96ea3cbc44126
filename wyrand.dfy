/** `RNG::wyrand` (RNG_wyrand.h): a Weyl counter whose every state is hashed by one wide
    multiply, `lo ^ hi ^ state` of `state * (state ^ MIX)`. The buffered `RNG::fast` engine
    renders the same hash of the same counter values. */
module Wyrand {
  import opened Common

  const INCREMENT: u64 := 0x2d35_8dcc_aa6c_78a5
  const MIX: u64 := 0x8bb8_4b93_962e_acc9
  const DEFAULT_SEED: u64 := 0x2d35_8dcc_aa6c_78a5

  /** The output hash of one counter value. */
  function Hash(s: u64): (r: u64)
    ensures s == 0 ==> r == 0
  {
    Xor64Zero(0, 0);
    var p := Umul128(s, Xor64(s, MIX));
    Xor64(Xor64(p.lo, p.hi), s)
  }

  /** The `k`-th future output (counting from 0) of a Weyl generator with state `s` and
      finaliser `h`: `h` of the state `k + 1` increments on. The stream lemmas are stated
      for an arbitrary finaliser, so that their proofs never look inside the hash. */
  function StreamOf(h: u64 -> u64, s: u64, k: nat): u64
  {
    h(Weyl(s, INCREMENT, k + 1))
  }

  /** The `k`-th future output of a wyrand whose state is `s`. */
  function Stream(s: u64, k: nat): u64
  {
    StreamOf(Hash, s, k)
  }

  /** After `n` wrapping additions of the increment the stream is the old stream `n`
      words on. */
  lemma StreamShift(h: u64 -> u64, s: u64, n: nat, k: nat)
    ensures StreamOf(h, Weyl(s, INCREMENT, n), k) == StreamOf(h, s, n + k)
  {
    WeylAdd(s, INCREMENT, n, k + 1);
  }

  class Wyrand {
    var state: u64

    /** `wyrand()`: the state is the eight bytes the platform entropy source wrote. */
    constructor FromEntropy(bytes: seq<u8>)
      requires |bytes| == 8
      ensures state == LeValue(bytes)
    {
      LeValueBound(bytes);
      state := LeValue(bytes);
    }

    /** `wyrand(std::uint64_t seed = 0x2d358dccaa6c78a5)` */
    constructor (seed: u64 := DEFAULT_SEED)
      ensures state == seed
    {
      state := seed;
    }

    /** `operator()`: advance the state by the increment, then hash the new state.
        What it returns is the head of the stream, and what is left is the rest. */
    method Next() returns (r: u64)
      modifies this
      ensures state == Add64(old(state), INCREMENT)
      ensures r == Stream(old(state), 0)
      ensures forall k: nat :: Stream(state, k) == Stream(old(state), k + 1)
    {
      ghost var s0 := state;
      state := Add64(state, INCREMENT);
      var p := Umul128(state, Xor64(state, MIX));
      r := Xor64(Xor64(p.lo, p.hi), state);
      WeylStep(s0, INCREMENT, 0);
      forall k: nat ensures Stream(state, k) == Stream(s0, k + 1) {
        StreamShift(Hash, s0, 1, k);
      }
    }
  }
}
