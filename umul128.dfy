/** `RNG_detail::umul128` and `RNG_detail::mul` (umul128.h): the portable 64 x 64 -> 128-bit
    multiply that the 1024-bit counter uses for its scalar advance and its big jump.
    The product is formed as the wide value `(unsigned __int128)a * b` and split by a shift
    and a truncating cast. */
module Umul128 {
  import opened Common

  /** `struct RNG_detail::u128 { uint64_t lo; uint64_t hi; }` */
  datatype Wide = Wide(lo: u64, hi: u64)

  /** `(uint64_t)(p >> 64)` for a 128-bit `p` */
  function High(p: nat): u64
    requires p < TWO64 * TWO64
  {
    DivBelow(p, TWO64);
    p / TWO64
  }

  /** `(uint64_t)p`, which keeps the low 64 bits */
  function Low(p: nat): u64
  {
    p % TWO64
  }

  /** `umul128(a, b, &hi)`: returns the low word and stores the high word. */
  function Umul128(a: u64, b: u64): (r: (u64, u64))
    ensures r.1 * TWO64 + r.0 == a * b
    ensures r.0 == (a * b) % TWO64 && r.1 == (a * b) / TWO64
  {
    ProductBound(a, b);
    var product := a * b;
    (Low(product), High(product))
  }

  /** `mul(a, b)`: the same two halves as `umul128`, in a `u128`. */
  function Mul(a: u64, b: u64): (r: Wide)
    ensures r.lo == Umul128(a, b).0 && r.hi == Umul128(a, b).1
    ensures r.hi * TWO64 + r.lo == a * b
  {
    var (lo, hi) := Umul128(a, b);
    Wide(lo, hi)
  }

  /** The two copies of the wide multiply in the library (`RNG_detail::umul128` here and
      `RNG::umul128` in common.h) agree on every input. */
  lemma AgreesWithCommon(a: u64, b: u64)
    ensures Umul128(a, b).0 == Common.Umul128(a, b).lo
    ensures Umul128(a, b).1 == Common.Umul128(a, b).hi
  {
    Common.Umul128Halves(a, b);
  }

  lemma Symmetric(a: u64, b: u64)
    ensures Umul128(a, b) == Umul128(b, a)
  {
    assert a * b == b * a;
  }

  lemma TimesOne(a: u64)
    ensures Umul128(a, 1) == (a, 0)
  {
  }
}
