/** Fixed-width unsigned integers, the 64x64 -> 128-bit multiply of common.h, and the
    little-endian byte layout that the whole library assumes (common.h refuses to build on
    a big-endian target). Widths are int subset types; wrap-around is written out as `% TWO64`. */
module Common {

  const TWO8: int := 0x100
  const TWO32: int := 0x1_0000_0000
  const TWO64: int := 0x1_0000_0000_0000_0000
  const MAX64: int := TWO64 - 1

  type u8 = x: int | 0 <= x < TWO8
  type u32 = x: int | 0 <= x < TWO32
  type u64 = x: int | 0 <= x < TWO64

  // ---------------------------------------------------------------------------
  // Wrapping arithmetic and bit operations on 64-bit words
  // ---------------------------------------------------------------------------

  /** `a + b` on uint64_t */
  function Add64(a: int, b: int): u64 { (a + b) % TWO64 }

  /** `a * b` on uint64_t */
  function Mul64(a: int, b: int): u64 { (a * b) % TWO64 }

  /** 2^n */
  function Pow2(n: nat): (p: nat)
    ensures p >= 1
  {
    if n == 0 then 1 else 2 * Pow2(n - 1)
  }

  lemma {:induction false} Pow2Add(a: nat, b: nat)
    ensures Pow2(a + b) == Pow2(a) * Pow2(b)
  {
    if a > 0 {
      Pow2Add(a - 1, b);
    }
  }

  lemma Pow2Words()
    ensures Pow2(8) == TWO8 && Pow2(32) == TWO32 && Pow2(64) == TWO64
  {
    assert Pow2(2) == 4;
    Pow2Add(2, 2);
    Pow2Add(4, 4);
    assert Pow2(8) == 16 * 16;
    Pow2Add(8, 8);
    assert Pow2(16) == 0x100 * 0x100;
    Pow2Add(16, 16);
    assert Pow2(32) == 0x1_0000 * 0x1_0000;
    Pow2Add(32, 32);
  }

  /** The exclusive or of the `n` low-order bits of `a` and `b`, bit by bit from the least
      significant one. */
  function XorBits(a: nat, b: nat, n: nat): nat
  {
    if n == 0 then 0
    else (if a % 2 == b % 2 then 0 else 1) + 2 * XorBits(a / 2, b / 2, n - 1)
  }

  lemma {:induction false} XorBitsBound(a: nat, b: nat, n: nat)
    ensures XorBits(a, b, n) < Pow2(n)
  {
    if n > 0 {
      XorBitsBound(a / 2, b / 2, n - 1);
    }
  }

  /** The width of a uint64_t in bits. A function rather than a literal, so that the
      verifier does not unroll `XorBits` sixty-four levels deep wherever a xor appears. */
  function WordBits(): nat { 64 }

  /** `a ^ b` on uint64_t */
  function Xor64(a: u64, b: u64): u64
  {
    XorBitsBound(a, b, WordBits());
    Pow2Words();
    XorBits(a, b, WordBits())
  }

  /** The inclusive or of the `n` low-order bits of `a` and `b`. */
  function OrBits(a: nat, b: nat, n: nat): nat
  {
    if n == 0 then 0
    else (if a % 2 == 1 || b % 2 == 1 then 1 else 0) + 2 * OrBits(a / 2, b / 2, n - 1)
  }

  lemma {:induction false} OrBitsBound(a: nat, b: nat, n: nat)
    ensures OrBits(a, b, n) < Pow2(n)
  {
    if n > 0 {
      OrBitsBound(a / 2, b / 2, n - 1);
    }
  }

  /** On `n`-bit operands, the xor is zero exactly when the operands are equal. */
  lemma {:induction false} XorBitsZero(a: nat, b: nat, n: nat)
    requires a < Pow2(n) && b < Pow2(n)
    ensures XorBits(a, b, n) == 0 <==> a == b
  {
    if n > 0 {
      XorBitsZero(a / 2, b / 2, n - 1);
    }
  }

  /** On `n`-bit operands, the or is zero exactly when both operands are. */
  lemma {:induction false} OrBitsZero(a: nat, b: nat, n: nat)
    requires a < Pow2(n) && b < Pow2(n)
    ensures OrBits(a, b, n) == 0 <==> a == 0 && b == 0
  {
    if n > 0 {
      OrBitsZero(a / 2, b / 2, n - 1);
    }
  }

  /** `a | b` on uint64_t */
  function Or64(a: u64, b: u64): (r: u64)
    ensures r == 0 <==> a == 0 && b == 0
  {
    OrBitsBound(a, b, WordBits());
    Pow2Words();
    OrBitsZero(a, b, WordBits());
    OrBits(a, b, WordBits())
  }

  /** The width of a uint32_t in bits (a function for the same reason as `WordBits`). */
  function HalfBits(): nat { 32 }

  /** `a ^ b` on uint32_t */
  function Xor32(a: u32, b: u32): (r: u32)
    ensures r == 0 <==> a == b
  {
    XorBitsBound(a, b, HalfBits());
    Pow2Words();
    XorBitsZero(a, b, HalfBits());
    XorBits(a, b, HalfBits())
  }

  /** `a | b` on uint32_t */
  function Or32(a: u32, b: u32): (r: u32)
    ensures r == 0 <==> a == 0 && b == 0
  {
    OrBitsBound(a, b, HalfBits());
    Pow2Words();
    OrBitsZero(a, b, HalfBits());
    OrBits(a, b, HalfBits())
  }

  /** A 64-bit xor is zero exactly when the words are equal. */
  lemma Xor64Zero(a: u64, b: u64)
    ensures Xor64(a, b) == 0 <==> a == b
  {
    Pow2Words();
    XorBitsZero(a, b, WordBits());
  }

  /** `v >> k` on uint64_t */
  function Shr64(a: u64, k: nat): u64
    requires k < 64
  {
    ShiftBound(a, k);
    a / Pow2(k)
  }

  /** `v >> k` stays a word (the lower bound is the costly half for the solver). */
  lemma ShiftBound(a: u64, k: nat)
    ensures 0 <= a / Pow2(k) < TWO64
  {
    DivAtMost(a, Pow2(k));
  }

  /** Dividing by a positive number never makes a natural number larger. */
  lemma DivAtMost(a: nat, p: nat)
    requires p >= 1
    ensures 0 <= a / p <= a
  {
    var d := a / p;
    assert d >= 0;
    MulMono(1, p, d);
  }

  /** `std::rotr(v, k)` on uint64_t for `0 < k < 64`: the low `k` bits move to the top. */
  function RotR64(a: u64, k: nat): u64
    requires 0 < k < 64
  {
    RotBound(a, k);
    a / Pow2(k) + (a % Pow2(k)) * Pow2(64 - k)
  }

  lemma RotBound(a: u64, k: nat)
    requires 0 < k < 64
    ensures 0 <= a / Pow2(k) + (a % Pow2(k)) * Pow2(64 - k) < TWO64
  {
    var p, q := Pow2(k), Pow2(64 - k);
    Pow2Add(k, 64 - k);
    Pow2Words();
    assert p * q == TWO64;
    SplitBound(a, p, q);
  }

  /** Swapping the quotient and remainder of `a` by `p` keeps it below `p * q`. */
  lemma SplitBound(a: nat, p: nat, q: nat)
    requires p > 0 && a < p * q
    ensures 0 <= a / p + (a % p) * q < p * q
  {
    MulMono(0, a % p, q);
    DivBelowProduct(a, p, q);
    MulMono(a % p, p - 1, q);
    assert (p - 1) * q == p * q - q;
  }

  /** `a < p * q` gives `a / p < q`. */
  lemma DivBelowProduct(a: nat, p: nat, q: nat)
    requires p > 0 && a < p * q
    ensures a / p < q
  {
    var d := a / p;
    assert d * p <= a;
    MulCancel(d, q, p);
  }

  /** A common factor on both sides of `<` can be dropped. */
  lemma MulCancel(a: nat, b: nat, c: nat)
    requires a * c < b * c
    ensures a < b
  {
    if b <= a {
      MulMono(b, a, c);
    }
  }

  /** The Weyl sequence behind every additive generator here: `k` wrapping additions of
      `inc` to `s`. */
  function Weyl(s: u64, inc: u64, k: nat): u64
  {
    (s + k * inc) % TWO64
  }

  /** One more wrapping addition is one more step of the sequence. */
  lemma WeylStep(s: u64, inc: u64, k: nat)
    ensures Add64(Weyl(s, inc, k), inc) == Weyl(s, inc, k + 1)
  {
    ModAdd(s + k * inc, inc, TWO64);
    assert s + k * inc + inc == s + (k + 1) * inc;
  }

  /** Adding the wrapped product `k * inc` jumps `k` steps at once. */
  lemma WeylJump(s: u64, inc: u64, k: nat)
    ensures Add64(s, Mul64(k, inc)) == Weyl(s, inc, k)
  {
    ModAdd(k * inc, s, TWO64);
  }

  /** Two runs of the sequence add their lengths. */
  lemma WeylAdd(s: u64, inc: u64, a: nat, b: nat)
    ensures Weyl(Weyl(s, inc, a), inc, b) == Weyl(s, inc, a + b)
  {
    ModAdd(s + a * inc, b * inc, TWO64);
    assert s + a * inc + b * inc == s + (a + b) * inc;
  }

  /** The sequence only depends on the step count modulo 2^64. */
  lemma WeylWrap(s: u64, inc: u64, k: nat)
    ensures Weyl(s, inc, k) == Weyl(s, inc, k % TWO64)
  {
    var q := k / TWO64;
    assert s + k * inc == s + (k % TWO64) * inc + (q * inc) * TWO64;
    ModMultiple(s + (k % TWO64) * inc, q * inc, TWO64);
  }

  // ---------------------------------------------------------------------------
  // RNG::umul128 and RNG::mul (common.h)
  // ---------------------------------------------------------------------------

  /** The two halves of a 128-bit product, `struct u128 { u64 lo; u64 hi; }`. */
  datatype U128 = U128(lo: u64, hi: u64)

  lemma ProductBound(a: u64, b: u64)
    ensures 0 <= a * b < TWO64 * TWO64
    ensures 0 <= (a * b) / TWO64 < TWO64
  {
    MulMono(a, TWO64 - 1, b);
    MulMono(b, TWO64 - 1, TWO64 - 1);
    DivBelow(a * b, TWO64);
  }

  lemma MulMono(a: nat, b: nat, c: nat)
    requires a <= b
    ensures a * c <= b * c
  {
  }

  lemma DivBelow(p: nat, t: nat)
    requires t > 1 && p < t * t
    ensures p / t < t
  {
  }

  /** `RNG::umul128(a, b, &hi)`: the returned low word and the stored high word
      together are the exact 128-bit product. */
  function Umul128(a: u64, b: u64): (p: U128)
    ensures p.hi * TWO64 + p.lo == a * b
  {
    ProductBound(a, b);
    var prod := a * b;
    U128(prod % TWO64, prod / TWO64)
  }

  /** `RNG::mul(a, b)`: both halves of the product packed in a `u128`. */
  function Mul(a: u64, b: u64): (r: U128)
    ensures r.hi * TWO64 + r.lo == a * b
  {
    var p := Umul128(a, b);
    U128(p.lo, p.hi)
  }

  /** The halves are exactly the remainder and quotient of the product by 2^64, so a
      `U128` is determined by the product alone. */
  lemma Umul128Halves(a: u64, b: u64)
    ensures Umul128(a, b).lo == (a * b) % TWO64
    ensures Umul128(a, b).hi == (a * b) / TWO64
  {
    var p := Umul128(a, b);
    HalvesUnique(p.lo, p.hi, a * b);
  }

  lemma HalvesUnique(lo: u64, hi: int, prod: int)
    requires hi * TWO64 + lo == prod
    ensures lo == prod % TWO64 && hi == prod / TWO64
  {
    DivModUnique(prod, TWO64, hi, lo);
  }

  /** `RNG::mul` returns the same halves as `RNG::umul128`. */
  lemma MulMatchesUmul128(a: u64, b: u64)
    ensures Mul(a, b) == Umul128(a, b)
  {
  }

  lemma Umul128Symmetric(a: u64, b: u64)
    ensures Umul128(a, b) == Umul128(b, a)
  {
    Umul128Halves(a, b);
    Umul128Halves(b, a);
    assert a * b == b * a;
  }

  lemma Umul128ByOne(a: u64)
    ensures Umul128(a, 1) == U128(a, 0)
  {
    Umul128Halves(a, 1);
  }

  // ---------------------------------------------------------------------------
  // Little-endian byte layout (memcpy of a word into bytes on a little-endian target)
  // ---------------------------------------------------------------------------

  function Pow256(n: nat): (p: nat)
    ensures p >= 1
  {
    if n == 0 then 1 else 256 * Pow256(n - 1)
  }

  /** The `n` low-order bytes of `x`, least significant first. */
  function LeBytes(x: nat, n: nat): (bs: seq<u8>)
    ensures |bs| == n
  {
    if n == 0 then [] else [x % 256] + LeBytes(x / 256, n - 1)
  }

  /** The number whose little-endian bytes are `bs`. */
  function LeValue(bs: seq<u8>): nat
  {
    if |bs| == 0 then 0 else bs[0] + 256 * LeValue(bs[1..])
  }

  lemma {:induction false} LeValueBound(bs: seq<u8>)
    ensures LeValue(bs) < Pow256(|bs|)
  {
    if |bs| > 0 {
      LeValueBound(bs[1..]);
    }
  }

  /** Reading back the bytes of a value that fits gives the value. */
  lemma {:induction false} LeValueOfBytes(x: nat, n: nat)
    requires x < Pow256(n)
    ensures LeValue(LeBytes(x, n)) == x
  {
    if n > 0 {
      LeValueOfBytes(x / 256, n - 1);
      assert LeBytes(x, n)[1..] == LeBytes(x / 256, n - 1);
    }
  }

  /** Writing out the value of some bytes gives the same bytes. */
  lemma {:induction false} LeBytesOfValue(bs: seq<u8>)
    ensures LeBytes(LeValue(bs), |bs|) == bs
  {
    if |bs| > 0 {
      LeBytesOfValue(bs[1..]);
      var v := LeValue(bs);
      assert v % 256 == bs[0] && v / 256 == LeValue(bs[1..]);
    }
  }

  /** The 8 bytes a `uint64_t` occupies in memory. */
  function WordBytes(w: u64): (bs: seq<u8>)
    ensures |bs| == 8
  {
    LeBytes(w, 8)
  }

  /** The 4 bytes a `uint32_t` occupies in memory. */
  function Word32Bytes(w: u32): (bs: seq<u8>)
    ensures |bs| == 4
  {
    LeBytes(w, 4)
  }

  /** The bytes of consecutive 64-bit words, as `memcpy` of a word array lays them out. */
  function WordsBytes(ws: seq<u64>): (bs: seq<u8>)
    ensures |bs| == 8 * |ws|
  {
    if |ws| == 0 then [] else WordBytes(ws[0]) + WordsBytes(ws[1..])
  }

  lemma {:induction false} WordsBytesAppend(ws: seq<u64>, vs: seq<u64>)
    ensures WordsBytes(ws + vs) == WordsBytes(ws) + WordsBytes(vs)
  {
    if |ws| > 0 {
      assert (ws + vs)[1..] == ws[1..] + vs;
      WordsBytesAppend(ws[1..], vs);
    } else {
      assert ws + vs == vs;
    }
  }

  /** The bytes of consecutive 32-bit words. */
  function Words32Bytes(ws: seq<u32>): (bs: seq<u8>)
    ensures |bs| == 4 * |ws|
  {
    if |ws| == 0 then [] else Word32Bytes(ws[0]) + Words32Bytes(ws[1..])
  }

  /** The 32-bit words whose bytes are `bs` (a `memcpy` from bytes into a `uint32_t` array). */
  function Words32Of(bs: seq<u8>): (ws: seq<u32>)
    requires |bs| % 4 == 0
    ensures |ws| == |bs| / 4
  {
    if |bs| == 0 then []
    else
      LeValueBound(bs[..4]);
      [LeValue(bs[..4])] + Words32Of(bs[4..])
  }

  lemma Word32RoundTrip(w: u32)
    ensures LeValue(Word32Bytes(w)) == w
  {
    LeValueOfBytes(w, 4);
  }

  lemma WordRoundTrip(w: u64)
    ensures LeValue(WordBytes(w)) == w
  {
    LeValueOfBytes(w, 8);
  }

  /** Reading 32-bit words back from their bytes gives the words. */
  lemma {:induction false} Words32RoundTrip(ws: seq<u32>)
    ensures Words32Of(Words32Bytes(ws)) == ws
  {
    if |ws| > 0 {
      var bs := Words32Bytes(ws);
      assert bs[..4] == Word32Bytes(ws[0]);
      assert bs[4..] == Words32Bytes(ws[1..]);
      Word32RoundTrip(ws[0]);
      Words32RoundTrip(ws[1..]);
    }
  }

  /** Writing out 32-bit words read from bytes gives the bytes back. */
  lemma {:induction false} Words32BytesOf(bs: seq<u8>)
    requires |bs| % 4 == 0
    ensures Words32Bytes(Words32Of(bs)) == bs
  {
    if |bs| > 0 {
      var ws := Words32Of(bs);
      LeValueBound(bs[..4]);
      assert ws[0] == LeValue(bs[..4]) && ws[1..] == Words32Of(bs[4..]);
      LeBytesOfValue(bs[..4]);
      Words32BytesOf(bs[4..]);
      assert bs == bs[..4] + bs[4..];
    }
  }

  /** The `uint64_t` whose little-endian bytes are `bs`. */
  function ReadWord(bs: seq<u8>): (w: u64)
    requires |bs| == 8
    ensures WordBytes(w) == bs
  {
    LeValueBound(bs);
    LeBytesOfValue(bs);
    LeValue(bs)
  }

  /** `(a + b) % m` only depends on `a % m` */
  lemma ModAdd(a: int, b: int, m: int)
    requires m > 0
    ensures (a % m + b) % m == (a + b) % m
  {
    var q := a / m;
    assert a == q * m + a % m;
    assert a + b == (a % m + b) + q * m;
    ModMultiple(a % m + b, q, m);
  }

  /** Adding a multiple of `m` does not change a remainder. */
  lemma ModMultiple(a: int, k: int, m: int)
    requires m > 0
    ensures (a + k * m) % m == a % m
  {
    var q, r := a / m, a % m;
    assert a + k * m == (q + k) * m + r;
    DivModUnique(a + k * m, m, q + k, r);
  }

  /** A wrapping addition whose sum fits is the plain sum. */
  lemma Add64NoWrap(a: int, b: int)
    requires 0 <= a + b < TWO64
    ensures Add64(a, b) == a + b
  {
    DivModUnique(a + b, TWO64, 0, a + b);
  }

  /** Euclidean division is unique: a quotient and an in-range remainder that rebuild `a`
      are the quotient and remainder. */
  lemma DivModUnique(a: int, m: int, q: int, r: int)
    requires m > 0 && a == q * m + r && 0 <= r < m
    ensures a / m == q && a % m == r
  {
    var q0, r0 := a / m, a % m;
    assert (q - q0) * m == r0 - r;
    if q - q0 > 0 {
      MulMono(1, q - q0, m);
    }
    if q - q0 < 0 {
      MulMono(1, q0 - q, m);
    }
  }

  // ---------------------------------------------------------------------------
  // memcpy into a byte array
  // ---------------------------------------------------------------------------

  /** `xs` with the bytes `bs` written over it from offset `p` on. */
  function Splice(xs: seq<u8>, p: nat, bs: seq<u8>): (ys: seq<u8>)
    requires p + |bs| <= |xs|
    ensures |ys| == |xs|
  {
    xs[..p] + bs + xs[p + |bs|..]
  }

  /** Writing `bs` at offset 0 leaves `bs` in front and the rest of `xs` behind it. */
  lemma SpliceFront(xs: seq<u8>, bs: seq<u8>)
    requires |bs| <= |xs|
    ensures Splice(xs, 0, bs)[..|bs|] == bs && Splice(xs, 0, bs)[|bs|..] == xs[|bs|..]
  {
  }

  /** Writing `f` at offset 0 and then the first `len` bytes of `g` right behind it writes
      the first `|f| + len` bytes of `f + g`. */
  lemma SpliceAppend(xs: seq<u8>, f: seq<u8>, g: seq<u8>, len: nat)
    requires len <= |g| && |f| + len <= |xs|
    ensures Splice(Splice(xs, 0, f), |f|, g[..len]) == Splice(xs, 0, (f + g)[..|f| + len])
  {
    assert (f + g)[..|f| + len] == f + g[..len];
  }

  /** `memcpy(x + p, bs, |bs|)`: the bytes `bs` land at offset `p` of `x`; nothing else in
      `x` changes. */
  method CopyBytes(x: array<u8>, p: nat, bs: seq<u8>)
    requires p + |bs| <= x.Length
    modifies x
    ensures x[..] == Splice(old(x[..]), p, bs)
  {
    forall k | 0 <= k < |bs| {
      x[p + k] := bs[k];
    }
    assert x[..] == Splice(old(x[..]), p, bs);
  }
}
