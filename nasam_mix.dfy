/** `RNG::nasam` (Nasam1024.h): the 64-bit unary mixer of the 1024-bit engine, a chain of
    odd multiplications and xor-rotate / xor-shift steps on one word. The engine applies it
    to the upper eight limbs of its counter, and the counter applies it fifteen times to
    build its increment. */
module NasamMix {
  import opened Common

  const M1: u64 := 0x9e6f_1d9b_b2d6_c165
  const M2: u64 := 0x9fb2_1c65_1e98_df25

  /** `nasam(v)`: multiply; xor in a rotation by 26; multiply; xor in rotations by 47 and
      21; multiply by the rrmxmx constant; xor in the shift by 28. */
  function Nasam(v: u64): u64
  {
    var v1 := Mul64(v, M1);
    var v2 := Xor64(v1, RotR64(v1, 26));
    var v3 := Mul64(v2, M1);
    var v4 := Xor64(v3, Xor64(RotR64(v3, 47), RotR64(v3, 21)));
    var v5 := Mul64(v4, M2);
    Xor64(v5, Shr64(v5, 28))
  }
}
