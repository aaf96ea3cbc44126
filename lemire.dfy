/** Lemire's multiply-and-reject sampler for an integer in `[lo, hi]`, as `unbiased` reads it
    in `RNG::random_device` and `RNG::csprng`. The engine's `draw64()` calls are a sequence of
    words: the sampler consumes a prefix of it and says how many words it used. A sequence
    that runs out before a draw is accepted gives `OutOfDraws`. */
module Lemire {
  import opened Common

  datatype Draw = Sampled(value: u64, used: nat) | OutOfDraws

  /** The bounds after `if (lo > hi) std::swap(lo, hi)` */
  function Lower(lo: u64, hi: u64): u64 { if lo > hi then hi else lo }
  function Upper(lo: u64, hi: u64): u64 { if lo > hi then lo else hi }

  /** `range = hi - lo + 1` in uint64_t: 0 exactly for the full range [0, 2^64 - 1] */
  function Range(a: u64, b: u64): u64
    requires a <= b
  {
    (b - a + 1) % TWO64
  }

  /** `t = (UINT64_MAX - range + 1) % range` */
  function Threshold(range: u64): u64
    requires range > 0
  {
    ((MAX64 - range + 1) % TWO64) % range
  }

  /** A draw `x` is kept when the low half of `x * range` reaches the threshold. */
  predicate Accepts(x: u64, range: u64)
    requires range > 0
  {
    Umul128(x, range).lo >= Threshold(range)
  }

  /** `lower_bound + h` for the high half `h` of `x * range` */
  function Scale(a: u64, x: u64, range: u64): u64
  {
    Add64(a, Umul128(x, range).hi)
  }

  /** The redraw loop: draws `i, i + 1, ...` until one is accepted. */
  function Redraw(a: u64, range: u64, draws: seq<u64>, i: nat): (d: Draw)
    requires range > 0
    ensures d.Sampled? ==> i < d.used <= |draws| && Accepts(draws[d.used - 1], range)
    decreases |draws| - i
  {
    if i >= |draws| then OutOfDraws
    else if !Accepts(draws[i], range) then Redraw(a, range, draws, i + 1)
    else Sampled(Scale(a, draws[i], range), i + 1)
  }

  /** `unbiased(lower_bound, upper_bound)`, with the fast path that skips the threshold
      when the first low half is at least `range`. */
  function Sample(lo: u64, hi: u64, draws: seq<u64>): (d: Draw)
    ensures d.Sampled? ==> d.used <= |draws| && (d.used == 0 <==> Lower(lo, hi) == Upper(lo, hi))
  {
    var a, b := Lower(lo, hi), Upper(lo, hi);
    if a == b then Sampled(a, 0)
    else
      var range := Range(a, b);
      if range == 0 then
        if |draws| == 0 then OutOfDraws else Sampled(draws[0], 1)
      else if |draws| == 0 then OutOfDraws
      else if Umul128(draws[0], range).lo < range then
        if Umul128(draws[0], range).lo < Threshold(range) then Redraw(a, range, draws, 1)
        else Sampled(Scale(a, draws[0], range), 1)
      else Sampled(Scale(a, draws[0], range), 1)
  }

  // ---------------------------------------------------------------------------
  // Properties
  // ---------------------------------------------------------------------------

  /** The threshold is below the range, so a low half of at least `range` is always kept:
      the fast path agrees with the rejection rule. The threshold is 2^64 mod range. */
  lemma ThresholdFacts(range: u64)
    requires range > 0
    ensures Threshold(range) < range
    ensures Threshold(range) == TWO64 % range
    ensures forall x: u64 :: Umul128(x, range).lo >= range ==> Accepts(x, range)
  {
    assert (MAX64 - range + 1) % TWO64 == TWO64 - range;
    ModMultiple(TWO64 - range, 1, range);
    assert TWO64 - range + 1 * range == TWO64;
  }

  /** The high half of `x * range` is below `range`. */
  lemma HighBelowRange(x: u64, range: u64)
    requires range > 0
    ensures Umul128(x, range).hi < range
  {
    var p := Umul128(x, range);
    MulMono(x, TWO64 - 1, range);
    MulCancel(p.hi, range, TWO64);
  }

  lemma {:induction false} RedrawFacts(a: u64, range: u64, draws: seq<u64>, i: nat)
    requires range > 0
    ensures Redraw(a, range, draws, i).Sampled? <==> exists j :: i <= j < |draws| && Accepts(draws[j], range)
    ensures Redraw(a, range, draws, i).Sampled? ==>
      var u := Redraw(a, range, draws, i).used;
      i < u <= |draws| && Accepts(draws[u - 1], range)
      && Redraw(a, range, draws, i).value == Scale(a, draws[u - 1], range)
      && forall j :: i <= j < u - 1 ==> !Accepts(draws[j], range)
    decreases |draws| - i
  {
    if i < |draws| && !Accepts(draws[i], range) {
      RedrawFacts(a, range, draws, i + 1);
    }
  }

  /** The result always lies in the requested closed interval, whichever order the bounds
      came in, and never uses more draws than there are. */
  lemma SampleInRange(lo: u64, hi: u64, draws: seq<u64>)
    ensures Sample(lo, hi, draws).Sampled? ==>
      Lower(lo, hi) <= Sample(lo, hi, draws).value <= Upper(lo, hi)
      && Sample(lo, hi, draws).used <= |draws|
  {
    var a, b := Lower(lo, hi), Upper(lo, hi);
    if a != b && Range(a, b) != 0 && |draws| > 0 {
      var range := Range(a, b);
      assert range == b - a + 1;
      var d := Sample(lo, hi, draws);
      if d.Sampled? {
        var x: u64;
        if Umul128(draws[0], range).lo < range && Umul128(draws[0], range).lo < Threshold(range) {
          RedrawFacts(a, range, draws, 1);
          x := draws[d.used - 1];
        } else {
          x := draws[0];
        }
        assert d.value == Scale(a, x, range);
        ScaleInRange(a, b, x);
      }
    }
  }

  /** `a + hi` of `x * (b - a + 1)` does not wrap and stays in `[a, b]`. */
  lemma ScaleInRange(a: u64, b: u64, x: u64)
    requires a < b && Range(a, b) != 0
    ensures a <= Scale(a, x, Range(a, b)) <= b
  {
    var range := Range(a, b);
    assert range == b - a + 1;
    var h := Umul128(x, range).hi;
    HighBelowRange(x, range);
    assert a + h < TWO64;
    assert Scale(a, x, range) == a + h;
  }

  /** The degenerate cases: equal bounds give the bound with no draw; the full range gives
      one raw draw; the order of the bounds does not matter. */
  lemma SampleDegenerate(lo: u64, hi: u64, draws: seq<u64>)
    ensures lo == hi ==> Sample(lo, hi, draws) == Sampled(lo, 0)
    ensures (lo, hi) == (0, MAX64) && |draws| > 0 ==> Sample(lo, hi, draws) == Sampled(draws[0], 1)
    ensures Sample(lo, hi, draws) == Sample(hi, lo, draws)
  {
  }

  /** Otherwise the result is `lo + ((x * range) >> 64)` for the FIRST draw `x` whose low
      half reaches `(2^64 - range) mod range`, and there is a result exactly when some draw
      is accepted. */
  lemma SampleIsFirstAccepted(lo: u64, hi: u64, draws: seq<u64>)
    requires Lower(lo, hi) < Upper(lo, hi) && Range(Lower(lo, hi), Upper(lo, hi)) != 0
    ensures var range := Range(Lower(lo, hi), Upper(lo, hi));
      (Sample(lo, hi, draws).Sampled? <==> exists j :: 0 <= j < |draws| && Accepts(draws[j], range))
      && (Sample(lo, hi, draws).Sampled? ==>
        var u := Sample(lo, hi, draws).used;
        1 <= u <= |draws| && Accepts(draws[u - 1], range)
        && Sample(lo, hi, draws).value == Lower(lo, hi) + Umul128(draws[u - 1], range).hi
        && forall j :: 0 <= j < u - 1 ==> !Accepts(draws[j], range))
  {
    var a, b := Lower(lo, hi), Upper(lo, hi);
    var range := Range(a, b);
    var d := Sample(lo, hi, draws);
    ThresholdFacts(range);
    if |draws| > 0 && !Accepts(draws[0], range) {
      assert d == Redraw(a, range, draws, 1);
      RedrawFacts(a, range, draws, 1);
    } else if |draws| > 0 {
      assert d == Sampled(Scale(a, draws[0], range), 1);
    }
    if d.Sampled? {
      ScaleInRange(a, b, draws[d.used - 1]);
    }
  }

  /** Extra draws after the accepted one change nothing: the sampler reads only what it uses. */
  lemma {:induction false} RedrawPrefix(a: u64, range: u64, draws: seq<u64>, more: seq<u64>, i: nat)
    requires range > 0 && Redraw(a, range, draws, i).Sampled?
    ensures Redraw(a, range, draws + more, i) == Redraw(a, range, draws, i)
    decreases |draws| - i
  {
    assert (draws + more)[i] == draws[i];
    if !Accepts(draws[i], range) {
      RedrawPrefix(a, range, draws, more, i + 1);
    }
  }

  lemma SamplePrefix(lo: u64, hi: u64, draws: seq<u64>, more: seq<u64>)
    requires Sample(lo, hi, draws).Sampled?
    ensures Sample(lo, hi, draws + more) == Sample(lo, hi, draws)
  {
    var a, b := Lower(lo, hi), Upper(lo, hi);
    if a != b {
      assert (draws + more)[0] == draws[0];
      if Range(a, b) != 0 && Umul128(draws[0], Range(a, b)).lo < Threshold(Range(a, b)) {
        RedrawPrefix(a, Range(a, b), draws, more, 1);
      }
    }
  }
}
