/** `RNG::Counter_1024` (Nasam1024.h): a 1024-bit number held as sixteen 64-bit limbs,
    limb 0 least significant, that moves by a fixed 1024-bit increment. Every operation
    is, read as arithmetic on the value of the limbs, an addition modulo 2^1024. */
module Counter {
  import opened Common
  import Umul128
  import NasamMix

  const LIMBS: nat := 16
  /** `increment[0]`: the golden-ratio constant, odd. */
  const GOLDEN: u64 := 0x9e37_79b9_7f4a_7c15

  // ---------------------------------------------------------------------------
  // Limb sequences as numbers
  // ---------------------------------------------------------------------------

  /** `2^(64 i)`, the weight of limb `i` */
  function B(i: nat): (r: nat)
    ensures r >= 1
  {
    if i == 0 then 1 else TWO64 * B(i - 1)
  }

  /** 2^1024, the modulus of the counter, as a numeral */
  const MODULUS: nat := 0x1_0000_0000_0000_0000_0000_0000_0000_0000_0000_0000_0000_0000_0000_0000_0000_0000_0000_0000_0000_0000_0000_0000_0000_0000_0000_0000_0000_0000_0000_0000_0000_0000_0000_0000_0000_0000_0000_0000_0000_0000_0000_0000_0000_0000_0000_0000_0000_0000_0000_0000_0000_0000_0000_0000_0000_0000_0000_0000_0000_0000_0000_0000_0000_0000

  /** The value reached from `c` after `j` additions of `inc`, modulo `MODULUS`. */
  function At(c: nat, inc: nat, j: nat): nat
  {
    (c + j * inc) % MODULUS
  }

  /** The modulus is the weight one limb past the top. */
  lemma ModulusIsTopWeight(i: nat)
    requires i == LIMBS
    ensures B(i) == MODULUS
  {
    assert B(1) == 0x1_0000_0000_0000_0000;
    assert B(2) == 0x1_0000_0000_0000_0000_0000_0000_0000_0000;
    assert B(3) == 0x1_0000_0000_0000_0000_0000_0000_0000_0000_0000_0000_0000_0000;
    assert B(4) == 0x1_0000_0000_0000_0000_0000_0000_0000_0000_0000_0000_0000_0000_0000_0000_0000_0000;
    assert B(5) == 0x1_0000_0000_0000_0000_0000_0000_0000_0000_0000_0000_0000_0000_0000_0000_0000_0000_0000_0000_0000_0000;
    assert B(6) == 0x1_0000_0000_0000_0000_0000_0000_0000_0000_0000_0000_0000_0000_0000_0000_0000_0000_0000_0000_0000_0000_0000_0000_0000_0000;
    assert B(7) == 0x1_0000_0000_0000_0000_0000_0000_0000_0000_0000_0000_0000_0000_0000_0000_0000_0000_0000_0000_0000_0000_0000_0000_0000_0000_0000_0000_0000_0000;
    assert B(8) == 0x1_0000_0000_0000_0000_0000_0000_0000_0000_0000_0000_0000_0000_0000_0000_0000_0000_0000_0000_0000_0000_0000_0000_0000_0000_0000_0000_0000_0000_0000_0000_0000_0000;
    assert B(9) == 0x1_0000_0000_0000_0000_0000_0000_0000_0000_0000_0000_0000_0000_0000_0000_0000_0000_0000_0000_0000_0000_0000_0000_0000_0000_0000_0000_0000_0000_0000_0000_0000_0000_0000_0000_0000_0000;
    assert B(10) == 0x1_0000_0000_0000_0000_0000_0000_0000_0000_0000_0000_0000_0000_0000_0000_0000_0000_0000_0000_0000_0000_0000_0000_0000_0000_0000_0000_0000_0000_0000_0000_0000_0000_0000_0000_0000_0000_0000_0000_0000_0000;
    assert B(11) == 0x1_0000_0000_0000_0000_0000_0000_0000_0000_0000_0000_0000_0000_0000_0000_0000_0000_0000_0000_0000_0000_0000_0000_0000_0000_0000_0000_0000_0000_0000_0000_0000_0000_0000_0000_0000_0000_0000_0000_0000_0000_0000_0000_0000_0000;
    assert B(12) == 0x1_0000_0000_0000_0000_0000_0000_0000_0000_0000_0000_0000_0000_0000_0000_0000_0000_0000_0000_0000_0000_0000_0000_0000_0000_0000_0000_0000_0000_0000_0000_0000_0000_0000_0000_0000_0000_0000_0000_0000_0000_0000_0000_0000_0000_0000_0000_0000_0000;
    assert B(13) == 0x1_0000_0000_0000_0000_0000_0000_0000_0000_0000_0000_0000_0000_0000_0000_0000_0000_0000_0000_0000_0000_0000_0000_0000_0000_0000_0000_0000_0000_0000_0000_0000_0000_0000_0000_0000_0000_0000_0000_0000_0000_0000_0000_0000_0000_0000_0000_0000_0000_0000_0000_0000_0000;
    assert B(14) == 0x1_0000_0000_0000_0000_0000_0000_0000_0000_0000_0000_0000_0000_0000_0000_0000_0000_0000_0000_0000_0000_0000_0000_0000_0000_0000_0000_0000_0000_0000_0000_0000_0000_0000_0000_0000_0000_0000_0000_0000_0000_0000_0000_0000_0000_0000_0000_0000_0000_0000_0000_0000_0000_0000_0000_0000_0000;
    assert B(15) == 0x1_0000_0000_0000_0000_0000_0000_0000_0000_0000_0000_0000_0000_0000_0000_0000_0000_0000_0000_0000_0000_0000_0000_0000_0000_0000_0000_0000_0000_0000_0000_0000_0000_0000_0000_0000_0000_0000_0000_0000_0000_0000_0000_0000_0000_0000_0000_0000_0000_0000_0000_0000_0000_0000_0000_0000_0000_0000_0000_0000_0000;
    assert B(16) == 0x1_0000_0000_0000_0000_0000_0000_0000_0000_0000_0000_0000_0000_0000_0000_0000_0000_0000_0000_0000_0000_0000_0000_0000_0000_0000_0000_0000_0000_0000_0000_0000_0000_0000_0000_0000_0000_0000_0000_0000_0000_0000_0000_0000_0000_0000_0000_0000_0000_0000_0000_0000_0000_0000_0000_0000_0000_0000_0000_0000_0000_0000_0000_0000_0000;
  }

  /** The number a little-endian limb sequence stands for (Horner form, so that unfolding
      it multiplies only by the constant 2^64). */
  function Value(s: seq<u64>): nat
  {
    if |s| == 0 then 0 else s[0] + TWO64 * Value(s[1..])
  }

  /** Limb `i` (digit `i` in base 2^64) of the number `v` */
  function Limb(v: nat, i: nat): u64
  {
    if i == 0 then v % TWO64 else Limb(v / TWO64, i - 1)
  }

  lemma {:induction false} BAdd(i: nat, j: nat)
    ensures B(i + j) == B(i) * B(j)
  {
    if i > 0 {
      BAdd(i - 1, j);
      assert B(i + j) == TWO64 * (B(i - 1) * B(j));
    }
  }

  lemma {:induction false} ValueBound(s: seq<u64>)
    ensures Value(s) < B(|s|)
  {
    if |s| > 0 {
      ValueBound(s[1..]);
    }
  }

  /** Concatenating limb sequences puts the upper one at the weight of the lower one's
      length. */
  lemma {:induction false} ValueAppend(s: seq<u64>, t: seq<u64>)
    ensures Value(s + t) == Value(s) + Value(t) * B(|s|)
  {
    if |s| == 0 {
      assert s + t == t;
    } else {
      assert (s + t)[1..] == s[1..] + t;
      ValueAppend(s[1..], t);
      var w := B(|s| - 1);
      assert TWO64 * (Value(t) * w) == Value(t) * (TWO64 * w);
    }
  }

  lemma ValuePrefix(s: seq<u64>, i: nat)
    requires i < |s|
    ensures Value(s[..i + 1]) == Value(s[..i]) + s[i] * B(i)
  {
    assert s[..i + 1] == s[..i] + [s[i]];
    ValueAppend(s[..i], [s[i]]);
    assert [s[i]][1..] == [];
  }

  /** Writing `v` over limb `i` moves the value by `(v - s[i]) * 2^(64 i)`. */
  lemma {:induction false} ValueUpdate(s: seq<u64>, i: nat, v: u64)
    requires i < |s|
    ensures Value(s[i := v]) + s[i] * B(i) == Value(s) + v * B(i)
  {
    var t := s[i := v];
    if i > 0 {
      assert t[1..] == s[1..][i - 1 := v];
      ValueUpdate(s[1..], i - 1, v);
      var w := B(i - 1);
      assert TWO64 * (s[i] * w) == s[i] * (TWO64 * w);
      assert TWO64 * (v * w) == v * (TWO64 * w);
    } else {
      assert t[1..] == s[1..];
    }
  }

  /** Limb `i` of a limb sequence is digit `i` of its value. */
  lemma {:induction false} LimbOfValue(s: seq<u64>, i: nat)
    requires i < |s|
    ensures Limb(Value(s), i) == s[i]
  {
    var rest := Value(s[1..]);
    DivModUnique(Value(s), TWO64, rest, s[0]);
    if i > 0 {
      LimbOfValue(s[1..], i - 1);
    }
  }

  /** Two limb sequences of the same length with the same value are equal. */
  lemma ValueInjective(s: seq<u64>, t: seq<u64>)
    requires |s| == |t| && Value(s) == Value(t)
    ensures s == t
  {
    forall i | 0 <= i < |s| ensures s[i] == t[i] {
      LimbOfValue(s, i);
      LimbOfValue(t, i);
    }
  }

  /** Limb sequences of one length are equal exactly when their values are. */
  lemma SameValue(s: seq<u64>, t: seq<u64>)
    requires |s| == |t|
    ensures s == t <==> Value(s) == Value(t)
  {
    if Value(s) == Value(t) {
      ValueInjective(s, t);
    }
  }

  lemma {:induction false} ValueZero(s: seq<u64>)
    requires forall i :: 0 <= i < |s| ==> s[i] == 0
    ensures Value(s) == 0
  {
    if |s| > 0 {
      ValueZero(s[1..]);
    }
  }

  // ---------------------------------------------------------------------------
  // The increment
  // ---------------------------------------------------------------------------

  /** The limbs `initialize_increment()` leaves in `increment`: the golden-ratio constant,
      then each limb the `nasam` of the one below. */
  predicate IsIncrement(s: seq<u64>)
  {
    |s| == LIMBS && s[0] == GOLDEN
    && forall i {:trigger NasamMix.Nasam(s[i])} :: 0 <= i < |s| - 1 ==> s[i + 1] == NasamMix.Nasam(s[i])
  }

  /** The rule fixes every limb: there is one increment. */
  lemma IncrementUnique(s: seq<u64>, t: seq<u64>)
    requires IsIncrement(s) && IsIncrement(t)
    ensures s == t
  {
    forall i | 0 <= i < LIMBS
      ensures s[i] == t[i]
    {
      IncrementAgree(s, t, i);
    }
  }

  lemma {:induction false} IncrementAgree(s: seq<u64>, t: seq<u64>, i: nat)
    requires IsIncrement(s) && IsIncrement(t) && i < LIMBS
    ensures s[i] == t[i]
  {
    if i > 0 {
      IncrementAgree(s, t, i - 1);
      assert s[i] == NasamMix.Nasam(s[i - 1]) && t[i] == NasamMix.Nasam(t[i - 1]);
    }
  }

  /** The increment is odd. */
  lemma IncOdd(s: seq<u64>)
    requires IsIncrement(s)
    ensures Value(s) % 2 == 1
  {
    ValueParity(s);
  }

  /** The parity of a limb sequence is the parity of its lowest limb. */
  lemma ValueParity(s: seq<u64>)
    requires |s| > 0
    ensures Value(s) % 2 == s[0] % 2
  {
    var rest := Value(s[1..]);
    assert Value(s) == s[0] + (0x8000_0000_0000_0000 * rest) * 2;
    ModMultiple(s[0], 0x8000_0000_0000_0000 * rest, 2);
  }

  // ---------------------------------------------------------------------------
  // add_carry
  // ---------------------------------------------------------------------------

  /** A wrapping 64-bit addition loses `2^64` exactly when the sum comes out below an
      addend: the test `x[index] < incr` detects the carry. */
  lemma AddWord(a: u64, b: u64)
    ensures Add64(a, b) == a + b - (if a + b >= TWO64 then TWO64 else 0)
    ensures Add64(a, b) < b <==> a + b >= TWO64
  {
    if a + b >= TWO64 {
      DivModUnique(a + b, TWO64, 1, a + b - TWO64);
    } else {
      DivModUnique(a + b, TWO64, 0, a + b);
    }
  }

  /** Adding `d` to limb `i` adds `d * 2^(64 i)` to the value. */
  lemma LimbAdd(s: seq<u64>, i: nat, v: u64, d: int)
    requires i < |s| && v == s[i] + d
    ensures Value(s[i := v]) == Value(s) + d * B(i)
  {
    ValueUpdate(s, i, v);
    assert v * B(i) == s[i] * B(i) + d * B(i);
  }

  lemma WrapAlgebra(after: int, before: int, prev: int, sum: int, incr: int, b: int, b1: int)
    requires after + prev * b == before + sum * b && sum == prev + incr - TWO64 && b1 == TWO64 * b
    ensures after + b1 == before + incr * b
  {
    calc {
      sum * b;
    ==
      (prev + incr - TWO64) * b;
    ==
      prev * b + incr * b - TWO64 * b;
    }
  }

  /** `v` reduced modulo 2^1024, the value a full limb sequence can hold. */
  function Wrapped(v: int): nat
  {
    v % MODULUS
  }

  /** Equal numbers have equal residues. */
  lemma SameResidue(a: int, b: int)
    requires a == b
    ensures a % MODULUS == b % MODULUS
  {
  }

  /** A value that wraps to `a` wraps to `b` when `a == b`. */
  lemma CarryWrap(a: int, b: nat, v: nat)
    requires a == b && v == Wrapped(a)
    ensures v == b % MODULUS
  {
  }

  /** The sum `add_carry` aims at: `incr` placed at limb `index`, nothing past the top. */
  function Carried(v: nat, incr: u64, index: nat): nat
  {
    v + (if index < LIMBS then incr * B(index) else 0)
  }

  /** A limb sequence that holds the sum, or the sum less a carry out of the top limb, holds
      the sum modulo 2^1024. */
  lemma Reduced(y: seq<u64>, target: int, carry: bool)
    requires |y| == LIMBS
    requires Value(y) + (if carry then MODULUS else 0) == target
    ensures Value(y) == Wrapped(target)
  {
    ValueBound(y);
    ModulusIsTopWeight(LIMBS);
    DivModUnique(target, MODULUS, if carry then 1 else 0, Value(y));
  }

  /** `add_carry(x, incr, index)`: add `incr` at limb `index` and ripple the carry upward;
      a carry out of the top limb is lost. An index past the top limb does nothing. */
  method AddCarry(x: seq<u64>, incr: u64, index: nat) returns (y: seq<u64>)
    requires |x| == LIMBS
    ensures |y| == LIMBS
    ensures Value(y) == Carried(Value(x), incr, index) % MODULUS
    ensures forall i :: 0 <= i < index && i < LIMBS ==> y[i] == x[i]
  {
    if index >= LIMBS {
      y := x;
      Reduced(y, Carried(Value(x), incr, index), false);
      return;
    }
    var sum := Add64(x[index], incr);
    y := x[index := sum];
    LimbSum(x, incr, index, sum);
    if sum < incr {
      // carry out of limb `index`
      ghost var y1 := y;
      y := Ripple(y, index + 1);
      CarryWrap(Value(y1) + B(index + 1), Carried(Value(x), incr, index), Value(y));
    }
  }

  /** The first step of `add_carry`: the wrapped sum in limb `index` holds the whole sum,
      or the sum less one unit of limb `index + 1` when it wraps. */
  lemma LimbSum(x: seq<u64>, incr: u64, index: nat, sum: u64)
    requires |x| == LIMBS && index < LIMBS && sum == Add64(x[index], incr)
    ensures sum < incr ==> Value(x[index := sum]) + B(index + 1) == Carried(Value(x), incr, index)
    ensures sum >= incr ==> Value(x[index := sum]) == Carried(Value(x), incr, index) % MODULUS
  {
    AddWord(x[index], incr);
    assert Carried(Value(x), incr, index) == Value(x) + incr * B(index);
    if sum < incr {
      LimbWrap(x, incr, index, sum);
    } else {
      LimbAdd(x, index, sum, incr);
      Reduced(x[index := sum], Carried(Value(x), incr, index), false);
    }
  }

  /** The wrapping case of `LimbSum`. */
  lemma LimbWrap(x: seq<u64>, incr: u64, index: nat, sum: u64)
    requires |x| == LIMBS && index < LIMBS && sum == x[index] + incr - TWO64
    ensures Value(x[index := sum]) + B(index + 1) == Value(x) + incr * B(index)
  {
    ValueUpdate(x, index, sum);
    assert B(index + 1) == TWO64 * B(index);
    WrapAlgebra(Value(x[index := sum]), Value(x), x[index], sum, incr, B(index), B(index + 1));
  }

  /** The carry loop of `add_carry`: add one at limb `k`, and keep going while the limb
      wraps to 0. A carry out of the top limb is lost. */
  method Ripple(x: seq<u64>, k: nat) returns (y: seq<u64>)
    requires |x| == LIMBS && k <= LIMBS
    ensures |y| == LIMBS
    ensures Value(y) == Wrapped(Value(x) + B(k))
    ensures forall i :: 0 <= i < k ==> y[i] == x[i]
  {
    y := x;
    var i := k;
    while i < LIMBS
      invariant k <= i <= LIMBS && |y| == LIMBS
      invariant Cleared(x, y, k, i)
    {
      var z := Add64(y[i], 1);
      IncWraps(y[i]);
      y := y[i := z];
      if z != 0 {
        Absorbed(x, y, k, i);
        return;
      }
      i := i + 1;
    }
    ClearedValue(x, y, k, i);
    ModulusIsTopWeight(i);
    Reduced(y, Value(x) + B(k), true);
  }

  /** `++a` on a word wraps to 0 exactly when `a` is all ones. */
  lemma IncWraps(a: u64)
    ensures Add64(a, 1) == 0 <==> a == MAX64
    ensures Add64(a, 1) != 0 ==> Add64(a, 1) == a + 1
  {
    AddWord(a, 1);
  }

  /** What the carry loop leaves after limbs `k .. i - 1` have wrapped: those limbs were
      all ones in `x` and are 0 in `y`; the other limbs are those of `x`. */
  ghost predicate Cleared(x: seq<u64>, y: seq<u64>, k: nat, i: nat)
  {
    |x| == |y| && k <= i <= |x|
    && (forall j :: 0 <= j < |y| ==> y[j] == if k <= j < i then 0 else x[j])
    && (forall j :: k <= j < i ==> x[j] == MAX64)
  }

  /** Clearing limbs `k .. i - 1` of all ones takes `2^(64 i) - 2^(64 k)` off the value. */
  lemma {:induction false} ClearedValue(x: seq<u64>, y: seq<u64>, k: nat, i: nat)
    requires Cleared(x, y, k, i)
    ensures Value(y) + B(i) == Value(x) + B(k)
    decreases i
  {
    if i > k {
      var y1 := y[i - 1 := x[i - 1]];
      assert Cleared(x, y1, k, i - 1);
      ClearedValue(x, y1, k, i - 1);
      assert y1[i - 1 := 0] == y;
      LimbAdd(y1, i - 1, 0, -MAX64);
      ClearStep(Value(y), Value(y1), B(i), B(i - 1), Value(x) + B(k));
    } else {
      assert y == x;
    }
  }

  /** Clearing one more all-ones limb of weight `w1` and carrying into weight `w = 2^64 w1`
      keeps the sum. */
  lemma ClearStep(v: int, v1: int, w: int, w1: int, t: int)
    requires v1 + w1 == t && v == v1 + -MAX64 * w1 && w == TWO64 * w1
    ensures v + w == t
  {
  }

  /** The carry loop stops at limb `i`, which did not wrap: the sum is complete. */
  lemma Absorbed(x: seq<u64>, y: seq<u64>, k: nat, i: nat)
    requires |x| == LIMBS && k <= i < LIMBS && i < |y|
    requires Cleared(x, y[i := x[i]], k, i) && y[i] as int == x[i] as int + 1
    ensures Value(y) == Wrapped(Value(x) + B(k))
    ensures forall j :: 0 <= j < k ==> y[j] == x[j]
  {
    AbsorbedSum(x, y, k, i);
    var y0 := y[i := x[i]];
    forall j | 0 <= j < k
      ensures y[j] == x[j]
    {
      assert y[j] == y0[j];
    }
  }

  /** The value half of `Absorbed`. */
  lemma AbsorbedSum(x: seq<u64>, y: seq<u64>, k: nat, i: nat)
    requires |x| == LIMBS && k <= i < LIMBS && i < |y|
    requires Cleared(x, y[i := x[i]], k, i) && y[i] as int == x[i] as int + 1
    ensures Value(y) == Wrapped(Value(x) + B(k))
  {
    var y0 := y[i := x[i]];
    ClearedValue(x, y0, k, i);
    assert y0[i := y[i]] == y;
    CarryLands(y0, y, i, Value(x) + B(k));
  }

  /** The carry lands on limb `i`, which takes it without wrapping. */
  lemma CarryLands(y0: seq<u64>, y: seq<u64>, i: nat, t: int)
    requires |y0| == LIMBS && |y| == LIMBS && i < LIMBS && y == y0[i := y[i]]
    requires y[i] as int == y0[i] as int + 1 && Value(y0) + B(i) == t
    ensures Value(y) == Wrapped(t)
  {
    LimbAdd(y0, i, y[i], 1);
    AbsorbedValue(y, t);
  }

  /** A full limb sequence holding exactly `target` holds it modulo 2^1024. */
  lemma AbsorbedValue(y: seq<u64>, target: int)
    requires |y| == LIMBS && Value(y) == target
    ensures Value(y) == Wrapped(target)
  {
    Reduced(y, target, false);
  }

  // ---------------------------------------------------------------------------
  // The arithmetic behind ++, += and big_jump
  // ---------------------------------------------------------------------------

  /** No additions at all leave a full limb sequence's value as it is. */
  lemma AtStart(s: seq<u64>, inc: nat)
    requires |s| == LIMBS
    ensures At(Value(s), inc, 0) == Value(s)
  {
    Residue(s);
  }

  /** A limb sequence of full length is its own residue. */
  lemma Residue(s: seq<u64>)
    requires |s| == LIMBS
    ensures Value(s) % MODULUS == Value(s)
  {
    Reduced(s, Value(s), false);
  }

  /** One `add_carry(state, increment[i], i)` of `++` takes the prefix sum one limb further. */
  lemma IncrementStep(v0: nat, v: nat, inc: seq<u64>, i: nat)
    requires |inc| == LIMBS && i < LIMBS && v == (v0 + Value(inc[..i])) % MODULUS
    ensures Carried(v, inc[i], i) % MODULUS == (v0 + Value(inc[..i + 1])) % MODULUS
  {
    ValuePrefix(inc, i);
    ShiftResidue(Carried(v, inc[i], i), v0 + Value(inc[..i]), inc[i] * B(i), v0 + Value(inc[..i + 1]), MODULUS);
  }

  /** Adding `w` to a residue of `before` gives a residue of `before + w`. */
  lemma ShiftResidue(x: int, before: int, w: int, after: int, m: int)
    requires m > 0 && x == before % m + w && before + w == after
    ensures x % m == after % m
  {
    ModAdd(before, w, m);
  }

  /** Two reductions in a row are one. */
  lemma ModAddTwice(v: int, a: int, c: int, t: int, m: int)
    requires m > 0 && t == v + a + c
    ensures ((v % m + a) % m + c) % m == t % m
  {
    ModAdd(v, a, m);
    ModAdd(v + a, c, m);
    SameResidueMod(v + a + c, t, m);
  }

  /** The two words `lo` and `hi` of a product, added at limbs `u` and `u + 1` (where `hi`
      falls off above the top limb), add `a + c` to the value modulo 2^1024, `a` and `c`
      being the words at their weights. */
  lemma AddWords(before: int, after: int, lo: u64, hi: u64, u: nat, a: int, c: int)
    requires u < LIMBS && a == lo * B(u) && c == hi * B(u + 1) && after == before + a + c
    ensures Carried(Carried(before % MODULUS, lo, u) % MODULUS, hi, u + 1) % MODULUS == after % MODULUS
    ensures u + 1 == LIMBS ==> Carried(before % MODULUS, lo, u) % MODULUS == after % MODULUS
  {
    if u + 1 < LIMBS {
      AddWordsBelowTop(before, after, lo, hi, u, a, c);
    } else {
      AddWordsAtTop(before, after, lo, hi, u, a, c);
      var y := Carried(before % MODULUS, lo, u) % MODULUS;
      ResidueIdem(y, MODULUS);
      CarriedResidue(y, hi, u + 1, 0);
    }
  }

  /** `AddWords` below the top limb: both words land. Each step is stated between
      residues, so that the chain closes by transitivity. */
  lemma AddWordsBelowTop(before: int, after: int, lo: u64, hi: u64, u: nat, a: int, c: int)
    requires u + 1 < LIMBS && a == lo * B(u) && c == hi * B(u + 1) && after == before + a + c
    ensures Carried(Carried(before % MODULUS, lo, u) % MODULUS, hi, u + 1) % MODULUS == after % MODULUS
  {
    ModAddTwice(before, a, c, after, MODULUS);
    TwoWordResidue(before % MODULUS, lo, hi, u, a, c, after % MODULUS);
  }

  /** Two carried additions below the top limb reach the residue of the plain sum. */
  lemma TwoWordResidue(x: nat, lo: u64, hi: u64, u: nat, a: int, c: int, t: int)
    requires u + 1 < LIMBS && a == lo * B(u) && c == hi * B(u + 1) && t == ((x + a) % MODULUS + c) % MODULUS
    ensures Carried(Carried(x, lo, u) % MODULUS, hi, u + 1) % MODULUS == t
  {
    var y := Carried(x, lo, u) % MODULUS;
    CarriedResidue(x, lo, u, a);
    CarriedResidue(y, hi, u + 1, c);
    SumResidue(y, (x + a) % MODULUS, c, MODULUS);
  }

  /** `AddWords` at the top limb: the high word falls off. */
  lemma AddWordsAtTop(before: int, after: int, lo: u64, hi: u64, u: nat, a: int, c: int)
    requires u + 1 == LIMBS && a == lo * B(u) && c == hi * B(u + 1) && after == before + a + c
    ensures Carried(before % MODULUS, lo, u) % MODULUS == after % MODULUS
  {
    AddTop(before, a, hi, after, u);
    LowWordResidue(before, after, lo, u, a);
  }

  /** The low word alone, added at limb `u`, reaches the residue of `after` when
      `before + a` does. */
  lemma LowWordResidue(before: int, after: int, lo: u64, u: nat, a: int)
    requires u < LIMBS && a == lo * B(u) && after % MODULUS == (before % MODULUS + a) % MODULUS
    ensures Carried(before % MODULUS, lo, u) % MODULUS == after % MODULUS
  {
    CarriedResidue(before % MODULUS, lo, u, a);
  }

  /** `Carried` adds `w`, the word at its weight, as a residue. */
  lemma CarriedResidue(v: nat, incr: u64, index: nat, w: int)
    requires w == if index < LIMBS then incr * B(index) else 0
    ensures Carried(v, incr, index) % MODULUS == (v + w) % MODULUS
  {
  }

  /** Equal residues stay equal when the same amount is added. */
  lemma SumResidue(p: int, q: int, c: int, m: int)
    requires m > 0 && p == q
    ensures (p + c) % m == (q + c) % m
  {
  }

  /** Adding the high word of a 128-bit product at the top limb: it falls off. */
  lemma AddTop(v: int, a: int, hi: u64, t: int, u: nat)
    requires u + 1 == LIMBS && t == v + a + hi * B(u + 1)
    ensures var r := (v % MODULUS + a) % MODULUS;
      r == t % MODULUS && r % MODULUS == r
  {
    ModulusIsTopWeight(u + 1);
    DropMultiple(v, a, hi, t, MODULUS);
    ResidueIdem((v % MODULUS + a) % MODULUS, MODULUS);
  }

  lemma DropMultiple(v: int, a: int, k: int, t: int, m: int)
    requires m > 0 && t == v + a + k * m
    ensures (v % m + a) % m == t % m
  {
    ModAdd(v, a, m);
    ModMultiple(v + a, k, m);
    SameResidueMod(v + a + k * m, t, m);
  }

  lemma SameResidueMod(a: int, b: int, m: int)
    requires m > 0 && a == b
    ensures a % m == b % m
  {
  }

  /** A residue is its own residue. */
  lemma ResidueIdem(t: int, m: int)
    requires m > 0 && 0 <= t < m
    ensures t % m == t
  {
    DivModUnique(t, m, 0, t);
  }

  /** One limb of `+=`: the product `increment[i] * n`, added as two words, advances the
      prefix sum `n * Value(increment[..i])` one limb. */
  lemma ScalarStep(v0: nat, before: int, after: int, inc: seq<u64>, n: u64, i: nat, lo: u64, hi: u64)
    requires |inc| == LIMBS && i < LIMBS
    requires before == v0 + n * Value(inc[..i]) && after == v0 + n * Value(inc[..i + 1])
    requires lo + TWO64 * hi == (inc[i] as int) * n
    ensures Carried(Carried(before % MODULUS, lo, i) % MODULUS, hi, i + 1) % MODULUS == after % MODULUS
    ensures i + 1 == LIMBS ==> Carried(before % MODULUS, lo, i) % MODULUS == after % MODULUS
  {
    ScalarSum(v0, before, after, inc, n, i, lo, hi);
    AddWords(before, after, lo, hi, i, lo * B(i), hi * B(i + 1));
  }

  /** The arithmetic of `ScalarStep`, before any wrapping. */
  lemma ScalarSum(v0: nat, before: int, after: int, inc: seq<u64>, n: u64, i: nat, lo: u64, hi: u64)
    requires |inc| == LIMBS && i < LIMBS
    requires before == v0 + n * Value(inc[..i]) && after == v0 + n * Value(inc[..i + 1])
    requires lo + TWO64 * hi == (inc[i] as int) * n
    ensures before + lo * B(i) + hi * B(i + 1) == after
  {
    ValuePrefix(inc, i);
    assert B(i + 1) == TWO64 * B(i);
    ScaleAlgebra(v0, before, after, n, inc[i], Value(inc[..i]), Value(inc[..i + 1]), B(i), B(i + 1), lo, hi);
  }

  lemma ScaleAlgebra(v0: int, before: int, after: int, n: int, w: int, vi: int, vi1: int,
                     b: int, b1: int, lo: int, hi: int)
    requires before == v0 + n * vi && after == v0 + n * vi1
    requires lo + TWO64 * hi == w * n && vi1 == vi + w * b && b1 == TWO64 * b
    ensures before + lo * b + hi * b1 == after
  {
    calc {
      before + lo * b + hi * b1;
    ==
      v0 + n * vi + (lo + TWO64 * hi) * b;
    ==
      v0 + n * vi + (w * n) * b;
    ==
      v0 + n * (vi + w * b);
    ==
      after;
    }
  }

  /** The part of `step[i] * increment` that lands at or above limb 16 is a multiple of the
      modulus, so `big_jump` may skip the products with `i + j >= 16`. */
  lemma JumpRow(base: int, step: seq<u64>, inc: seq<u64>, i: nat)
    requires |step| == LIMBS && |inc| == LIMBS && i < LIMBS
    ensures (base + step[i] * Value(inc[..LIMBS - i]) * B(i)) % MODULUS
      == (base + step[i] * Value(inc) * B(i)) % MODULUS
  {
    var low := step[i] * Value(inc[..LIMBS - i]) * B(i);
    var high := step[i] * Value(inc[LIMBS - i..]);
    RowSplit(step[i], inc, i);
    ModMultiple(base + low, high, MODULUS);
    SameResidue(base + low + high * MODULUS, base + step[i] * Value(inc) * B(i));
  }

  lemma RowSplit(x: u64, inc: seq<u64>, i: nat)
    requires |inc| == LIMBS && i < LIMBS
    ensures x * Value(inc) * B(i)
      == x * Value(inc[..LIMBS - i]) * B(i) + x * Value(inc[LIMBS - i..]) * MODULUS
  {
    var m := LIMBS - i;
    assert inc == inc[..m] + inc[m..];
    ValueAppend(inc[..m], inc[m..]);
    BAdd(m, i);
    ModulusIsTopWeight(m + i);
    RowAlgebra(x, Value(inc), Value(inc[..m]), Value(inc[m..]), B(m), B(i), MODULUS);
  }

  lemma RowAlgebra(x: int, v: int, lo: int, hi: int, bm: int, bi: int, m: int)
    requires v == lo + hi * bm && bm * bi == m
    ensures x * v * bi == x * lo * bi + x * hi * m
  {
    calc {
      x * v * bi;
    ==
      x * (lo + hi * bm) * bi;
    ==
      x * lo * bi + x * hi * (bm * bi);
    }
  }

  /** One product of `big_jump`: `increment[j] * step[i]`, added at limbs `i + j` and
      `i + j + 1`, takes the row sum `step[i] * Value(increment[..j]) * 2^(64 i)` one limb
      further. */
  lemma JumpStep(base: int, before: int, after: int, step: seq<u64>, inc: seq<u64>, i: nat, j: nat, lo: u64, hi: u64)
    requires |step| == LIMBS && |inc| == LIMBS && i + j < LIMBS
    requires before == base + step[i] * Value(inc[..j]) * B(i)
    requires after == base + step[i] * Value(inc[..j + 1]) * B(i)
    requires lo + TWO64 * hi == (inc[j] as int) * step[i]
    ensures Carried(Carried(before % MODULUS, lo, i + j) % MODULUS, hi, i + j + 1) % MODULUS == after % MODULUS
  {
    JumpSum(base, before, after, step, inc, i, j, lo, hi);
    AddWords(before, after, lo, hi, i + j, lo * B(i + j), hi * B(i + j + 1));
  }

  /** The arithmetic of `JumpStep`, before any wrapping: the two words at their weights
      are the difference of the two row sums. */
  lemma JumpSum(base: int, before: int, after: int, step: seq<u64>, inc: seq<u64>, i: nat, j: nat, lo: u64, hi: u64)
    requires |step| == LIMBS && |inc| == LIMBS && i + j < LIMBS
    requires before == base + step[i] * Value(inc[..j]) * B(i)
    requires after == base + step[i] * Value(inc[..j + 1]) * B(i)
    requires lo + TWO64 * hi == (inc[j] as int) * step[i]
    ensures before + lo * B(i + j) + hi * B(i + j + 1) == after
  {
    ValuePrefix(inc, j);
    BAdd(i, j);
    assert B(i + j + 1) == TWO64 * B(i + j);
    JumpAlgebra(base, before, after, step[i], inc[j], Value(inc[..j]), Value(inc[..j + 1]),
                B(i), B(j), B(i + j), B(i + j + 1), lo, hi);
  }

  lemma JumpAlgebra(base: int, before: int, after: int, x: int, w: int, vj: int, vj1: int,
                    bi: int, bj: int, bij: int, bij1: int, lo: int, hi: int)
    requires before == base + x * vj * bi && after == base + x * vj1 * bi
    requires lo + TWO64 * hi == w * x && vj1 == vj + w * bj && bij == bi * bj && bij1 == TWO64 * bij
    ensures before + lo * bij + hi * bij1 == after
  {
    calc {
      before + lo * bij + hi * bij1;
    ==
      base + x * vj * bi + (lo + TWO64 * hi) * bij;
    ==
      base + x * vj * bi + (w * x) * (bi * bj);
    ==
      base + x * (vj + w * bj) * bi;
    ==
      after;
    }
  }

  /** Finishing a row of `big_jump` moves the step prefix one limb on. */
  lemma JumpNextRow(v0: nat, step: seq<u64>, inc: seq<u64>, i: nat)
    requires |step| == LIMBS && |inc| == LIMBS && i < LIMBS
    ensures v0 + Value(step[..i]) * Value(inc) + step[i] * Value(inc) * B(i)
      == v0 + Value(step[..i + 1]) * Value(inc)
  {
    ValuePrefix(step, i);
    RowAdd(v0, Value(step[..i]), Value(step[..i + 1]), step[i], B(i), Value(inc));
  }

  lemma RowAdd(v0: int, pre: int, next: int, w: int, b: int, x: int)
    requires next == pre + w * b
    ensures v0 + pre * x + w * x * b == v0 + next * x
  {
    calc {
      v0 + next * x;
    ==
      v0 + (pre + w * b) * x;
    ==
      v0 + pre * x + w * x * b;
    }
  }

  /** Skipping a row: a zero limb of the step adds nothing. */
  lemma JumpSkipRow(v0: nat, step: seq<u64>, inc: seq<u64>, i: nat)
    requires |step| == LIMBS && |inc| == LIMBS && i < LIMBS && step[i] == 0
    ensures v0 + Value(step[..i]) * Value(inc) == v0 + Value(step[..i + 1]) * Value(inc)
  {
    ValuePrefix(step, i);
  }

  // ---------------------------------------------------------------------------
  // What the operations add up to
  // ---------------------------------------------------------------------------

  /** The weight of limb `i` is 2^(64 i). */
  lemma {:induction false} BIsPow2(i: nat)
    ensures B(i) == Pow2(64 * i)
  {
    if i > 0 {
      BIsPow2(i - 1);
      Pow2Words();
      Pow2Add(64, 64 * (i - 1));
    }
  }

  /** The counter value after `n` applications of `++` from value `v`. */
  function Increments(v: nat, inc: nat, n: nat): nat
  {
    if n == 0 then v else Wrapped(Increments(v, inc, n - 1) + inc)
  }

  /** `n` applications of `++` add `n` increments: this is what `+=(n)` computes, so
      `+=(n)` is `n` calls of `++`, and `+=(0)` leaves the value alone. */
  lemma {:induction false} IncrementsAreScalar(v: nat, inc: nat, n: nat)
    requires v < MODULUS
    ensures Increments(v, inc, n) == At(v, inc, n)
  {
    if n == 0 {
      ResidueIdem(v, MODULUS);
    } else {
      IncrementsAreScalar(v, inc, n - 1);
      var prev := Increments(v, inc, n - 1);
      assert Increments(v, inc, n) == Wrapped(prev + inc);
      MulSucc(n, inc);
      ShiftResidue(prev + inc, v + (n - 1) * inc, inc, v + n * inc, MODULUS);
    }
  }

  lemma MulSucc(n: int, x: int)
    ensures (n - 1) * x + x == n * x
  {
  }

  /** Two jumps by `a` and `b` increments are one jump by `c == (a + b) mod m`. With `m`
      the modulus 2^1024 and `a`, `b`, `c` the values of three steps, `big_jump(s1)` then
      `big_jump(s2)` is `big_jump(s3)`. */
  lemma JumpCompose(v: int, a: int, b: int, c: int, inc: int, m: int)
    requires m > 0 && c == (a + b) % m
    ensures ((v + a * inc) % m + b * inc) % m == (v + c * inc) % m
  {
    var q := (a + b) / m;
    ModAdd(v + a * inc, b * inc, m);
    calc {
      v + a * inc + b * inc;
    ==
      v + (q * m + c) * inc;
    ==
      v + c * inc + (q * inc) * m;
    }
    ModMultiple(v + c * inc, q * inc, m);
    SameResidueMod(v + a * inc + b * inc, v + c * inc + (q * inc) * m, m);
  }

  /** A jump by the all-zero step changes no counter value. */
  lemma JumpZero(v: nat, inc: seq<u64>)
    requires v < MODULUS
    ensures (v + Value(Zero()) * Value(inc)) % MODULUS == v
  {
    assert v + Value(Zero()) * Value(inc) == v;
    ResidueIdem(v, MODULUS);
  }

  /** The step with the single word `w` at limb `k`, as `jump64` .. `jump256` spell out
      with `w == 1`. */
  function Single(w: u64, k: nat): (s: seq<u64>)
    requires k < LIMBS
    ensures |s| == LIMBS
  {
    Zero()[k := w]
  }

  /** Its value is `w * 2^(64 k)`; so `big_jump(Single(n, 0))` is `+=(n)` and
      `big_jump(Single(1, k))` adds 2^(64 k) increments. */
  lemma SingleValue(w: u64, k: nat)
    requires k < LIMBS
    ensures Value(Single(w, k)) == w * B(k)
  {
    var z := Zero();
    assert z[k] == 0;
    ValueUpdate(z, k, w);
    assert z[k] * B(k) == 0;
  }

  // ---------------------------------------------------------------------------
  // The counter object
  // ---------------------------------------------------------------------------

  /** Sixteen zero limbs: the state of a newly built counter. */
  function Zero(): (z: seq<u64>)
    ensures |z| == LIMBS && Value(z) == 0
  {
    var z := seq(LIMBS, i => 0);
    ValueZero(z);
    z
  }

  /** `initialize_increment()`: the golden-ratio constant, then fifteen `nasam` steps. */
  method InitializeIncrement() returns (inc: seq<u64>)
    ensures IsIncrement(inc)
  {
    inc := [GOLDEN];
    var i := 1;
    while i < LIMBS
      invariant 1 <= i <= LIMBS && |inc| == i && inc[0] == GOLDEN
      invariant forall k {:trigger NasamMix.Nasam(inc[k])} :: 0 <= k < i - 1 ==> inc[k + 1] == NasamMix.Nasam(inc[k])
    {
      inc := inc + [NasamMix.Nasam(inc[i - 1])];
      i := i + 1;
    }
  }

  /** One row of `big_jump`: the products `increment[j] * step[i]` for `i + j < 16`, each
      added at limbs `i + j` and `i + j + 1`, add `step[i]` times the low `16 - i` limbs of
      the increment at weight `2^(64 i)`. */
  method AddRow(temp: seq<u64>, step: seq<u64>, inc: seq<u64>, i: nat, ghost base: int) returns (t: seq<u64>)
    requires |temp| == LIMBS && |step| == LIMBS && |inc| == LIMBS && i < LIMBS
    requires Value(temp) == base % MODULUS
    ensures |t| == LIMBS && Value(t) == (base + step[i] * Value(inc[..LIMBS - i]) * B(i)) % MODULUS
  {
    t := temp;
    assert Value(inc[..0]) == 0;
    SameResidue(base, base + step[i] * Value(inc[..0]) * B(i));
    var j := 0;
    while j < LIMBS
      invariant 0 <= j <= LIMBS && |t| == LIMBS
      invariant Value(t) == (base + step[i] * Value(inc[..if j <= LIMBS - i then j else LIMBS - i]) * B(i)) % MODULUS
    {
      if i + j < LIMBS {
        var p := Umul128.Umul128(inc[j], step[i]);
        JumpStep(base, base + step[i] * Value(inc[..j]) * B(i), base + step[i] * Value(inc[..j + 1]) * B(i), step, inc, i, j, p.0, p.1);
        t := AddCarry(t, p.0, i + j);
        t := AddCarry(t, p.1, i + j + 1);
      }
      j := j + 1;
    }
  }

  /** The loop of `big_jump`: row `i` of the schoolbook product for each limb `step[i]`
      that is not zero, so the value moves on by `step * inc`. */
  method Jump(x: seq<u64>, step: seq<u64>, inc: seq<u64>) returns (t: seq<u64>)
    requires |x| == LIMBS && |step| == LIMBS && |inc| == LIMBS
    ensures |t| == LIMBS && Value(t) == At(Value(x), Value(inc), Value(step))
  {
    ghost var v0 := Value(x);
    t := x;
    assert Value(step[..0]) == 0;
    Residue(t);
    SameResidue(v0, v0 + Value(step[..0]) * Value(inc));
    var i := 0;
    while i < LIMBS
      invariant 0 <= i <= LIMBS && |t| == LIMBS
      invariant Value(t) == (v0 + Value(step[..i]) * Value(inc)) % MODULUS
    {
      t := JumpRowStep(t, step, inc, i, v0, v0 + Value(step[..i]) * Value(inc));
      i := i + 1;
    }
    assert step[..LIMBS] == step;
  }

  /** One pass of the outer loop of `big_jump`: a zero limb of `step` is skipped. */
  method JumpRowStep(t: seq<u64>, step: seq<u64>, inc: seq<u64>, i: nat, ghost v0: nat, ghost base: int) returns (u: seq<u64>)
    requires |t| == LIMBS && |step| == LIMBS && |inc| == LIMBS && i < LIMBS
    requires base == v0 + Value(step[..i]) * Value(inc) && Value(t) == base % MODULUS
    ensures |u| == LIMBS && Value(u) == (v0 + Value(step[..i + 1]) * Value(inc)) % MODULUS
  {
    if step[i] != 0 {
      u := AddRow(t, step, inc, i, base);
      JumpRow(base, step, inc, i);
      JumpNextRow(v0, step, inc, i);
      SameResidue(base + step[i] * Value(inc) * B(i), v0 + Value(step[..i + 1]) * Value(inc));
    } else {
      u := t;
      JumpSkipRow(v0, step, inc, i);
      SameResidue(base, v0 + Value(step[..i + 1]) * Value(inc));
    }
  }

  /** `RNG::Counter_1024`. The two limb arrays are held as sequences of 16 words that the
      methods replace. */
  class Counter1024 {
    var state: seq<u64>
    const increment: seq<u64>

    ghost predicate Valid()
      reads this
    {
      |state| == LIMBS && IsIncrement(increment)
    }

    /** `Counter_1024()`: state zero, increment initialised. */
    constructor()
      ensures Valid() && state == Zero()
    {
      var inc := InitializeIncrement();
      increment := inc;
      state := Zero();
    }

    /** Prefix `++`: `add_carry(state, increment[i], i)` for each limb, which adds the
        increment to the 1024-bit state. */
    method Increment()
      requires Valid()
      modifies this
      ensures Valid()
      ensures Value(state) == At(old(Value(state)), Value(increment), 1)
    {
      ghost var v0 := Value(state);
      assert Value(increment[..0]) == 0;
      Residue(state);
      SameResidue(v0, v0 + Value(increment[..0]));
      var i := 0;
      while i < LIMBS
        invariant 0 <= i <= LIMBS && |state| == LIMBS
        invariant Value(state) == (v0 + Value(increment[..i])) % MODULUS
      {
        var next := AddCarry(state, increment[i], i);
        IncrementStep(v0, Value(state), increment, i);
        state := next;
        i := i + 1;
      }
      assert increment[..LIMBS] == increment;
    }

    /** Postfix `++`: the same step, returning the state from before it. */
    method PostIncrement() returns (before: seq<u64>)
      requires Valid()
      modifies this
      ensures Valid() && before == old(state)
      ensures Value(state) == At(old(Value(state)), Value(increment), 1)
    {
      before := state;
      Increment();
    }

    /** `+=(n)`: zero does nothing, one is `++`, otherwise each limb of the increment is
        multiplied by `n` into two words that are added at limbs `i` and `i + 1` (the high
        word of the top limb is dropped). */
    method AddScalar(n: u64)
      requires Valid()
      modifies this
      ensures Valid()
      ensures Value(state) == At(old(Value(state)), Value(increment), n)
    {
      if n == 0 {
        Residue(state);
        SameResidue(Value(state), Value(state) + n * Value(increment));
        return;
      }
      if n == 1 {
        Increment();
        return;
      }
      ghost var v0 := Value(state);
      assert Value(increment[..0]) == 0;
      Residue(state);
      SameResidue(v0, v0 + n * Value(increment[..0]));
      var i := 0;
      while i < LIMBS
        invariant 0 <= i <= LIMBS && |state| == LIMBS
        invariant Value(state) == (v0 + n * Value(increment[..i])) % MODULUS
      {
        var p := Umul128.Umul128(increment[i], n);
        ScalarStep(v0, v0 + n * Value(increment[..i]), v0 + n * Value(increment[..i + 1]), increment, n, i, p.0, p.1);
        state := AddCarry(state, p.0, i);
        if i <= 14 {
          state := AddCarry(state, p.1, i + 1);
        }
        i := i + 1;
      }
      assert increment[..LIMBS] == increment;
    }

    /** `big_jump(step)`: the schoolbook product of the 1024-bit `step` and the increment,
        keeping only the products that land below limb 16, added to a copy of the state. */
    method BigJump(step: seq<u64>)
      requires Valid() && |step| == LIMBS
      modifies this
      ensures Valid()
      ensures Value(state) == At(old(Value(state)), Value(increment), Value(step))
    {
      state := Jump(state, step, increment);
    }

    /** `operator==`: the states are compared; the increments are the same in every
        counter. Equal states are exactly equal 1024-bit values. */
    function Equals(other: Counter1024): (r: bool)
      requires Valid() && other.Valid()
      reads this, other
      ensures r <==> Value(state) == Value(other.state)
    {
      SameValue(state, other.state);
      state == other.state
    }
  }
}

