/** `RNG::random_device` (RNG_random_device.h): every draw comes straight from the operating
    system's entropy source, which the model takes as an oracle. An oracle that is asked
    for words one after another is a function from the draw number to the word; a sampler
    that may ask any number of times is given a finite sequence of words instead. */
module RandomDevice {
  import opened Common
  import Lemire

  /** `random_device()` and `random_device(const std::string&)`: the token is ignored. */
  datatype Device = Default | Token(name: string)

  /** `operator==`: every device reads the same source, so any two compare equal. */
  function Equal(a: Device, b: Device): (r: bool)
    ensures r
  {
    true
  }

  /** The first `n` words the oracle hands out. */
  function Draws(draw: nat -> u64, n: nat): (ws: seq<u64>)
    ensures |ws| == n
    ensures forall i :: 0 <= i < n ==> ws[i] == draw(i)
  {
    seq(n, (i: int) requires 0 <= i < n => draw(i))
  }

  /** `unbiased(lower_bound, upper_bound)` on the words `source` supplies, in order. The
      result is the Lemire sample of those words, and so (by `Lemire.SampleInRange`) lies
      in `[lo, hi]` and is `lo + hi-half` of the first accepted draw. */
  method Unbiased(lo: u64, hi: u64, source: seq<u64>) returns (r: Lemire.Draw)
    ensures r == Lemire.Sample(lo, hi, source)
    ensures r.Sampled? ==> Lemire.Lower(lo, hi) <= r.value <= Lemire.Upper(lo, hi)
  {
    Lemire.SampleInRange(lo, hi, source);
    var a, b := lo, hi;
    if a > b {
      a, b := b, a;
    }
    assert a == Lemire.Lower(lo, hi) && b == Lemire.Upper(lo, hi);
    if a == b {
      return Lemire.Sampled(a, 0);
    }
    var range := Lemire.Range(a, b);
    if range == 0 {
      if |source| == 0 {
        return Lemire.OutOfDraws;
      }
      return Lemire.Sampled(source[0], 1);
    }
    if |source| == 0 {
      return Lemire.OutOfDraws;
    }
    var i := 1;
    var p := Umul128(source[0], range);
    if p.lo < range {
      var t := Lemire.Threshold(range);
      while p.lo < t
        invariant 1 <= i <= |source|
        invariant p == Umul128(source[i - 1], range)
        invariant p.lo < t ==> Lemire.Sample(lo, hi, source) == Lemire.Redraw(a, range, source, i)
        invariant p.lo >= t ==> Lemire.Sample(lo, hi, source) == Lemire.Sampled(Lemire.Scale(a, source[i - 1], range), i)
        decreases |source| - i
      {
        if i == |source| {
          return Lemire.OutOfDraws;
        }
        p := Umul128(source[i], range);
        i := i + 1;
      }
    }
    r := Lemire.Sampled(Add64(a, p.hi), i);
  }

  /** `fill(std::span<std::byte>)`: whole 8-byte chunks take one `draw64()` each; a final
      partial chunk takes one more draw and keeps its low bytes. The bytes are the
      little-endian words of the first `ceil(n / 8)` draws, cut to `n`. */
  method Fill(data: array<u8>, draw: nat -> u64) returns (used: nat)
    modifies data
    ensures used == (data.Length + 7) / 8
    ensures data[..] == WordsBytes(Draws(draw, used))[..data.Length]
  {
    ghost var d0 := data[..];
    var ptr, size := 0, data.Length;
    used := 0;
    assert WordsBytes(Draws(draw, 0)) == [];
    assert Splice(d0, 0, []) == d0;
    while size >= 8
      invariant 0 <= size && ptr + size == data.Length && ptr == 8 * used
      invariant data[..] == Splice(d0, 0, WordsBytes(Draws(draw, used)))
    {
      FillChunk(data, ptr, 8, draw, d0, used);
      FillStep(draw, used, d0, 8);
      used, ptr, size := used + 1, ptr + 8, size - 8;
    }
    ChunkCount(data.Length, used, size);
    if size > 0 {
      FillChunk(data, ptr, size, draw, d0, used);
      SpliceFront(d0, WordsBytes(Draws(draw, used + 1))[..ptr + size]);
      used := used + 1;
    } else {
      SpliceFront(d0, WordsBytes(Draws(draw, used)));
    }
  }

  /** One chunk of `fill`: draw `used` goes to `data[ptr..ptr + len]`, low bytes first. */
  method FillChunk(data: array<u8>, ptr: nat, len: nat, draw: nat -> u64, ghost d0: seq<u8>, used: nat)
    requires 0 < len <= 8 && ptr == 8 * used && ptr + len <= data.Length && |d0| == data.Length
    requires data[..] == Splice(d0, 0, WordsBytes(Draws(draw, used)))
    modifies data
    ensures data[..] == Splice(d0, 0, WordsBytes(Draws(draw, used + 1))[..ptr + len])
  {
    var z := draw(used);
    CopyBytes(data, ptr, WordBytes(z)[..len]);
    FillStep(draw, used, d0, len);
  }

  /** One more chunk of `fill`: the bytes of `n` draws, then the low `len` bytes of the next
      draw, are the first `8 * n + len` bytes of `n + 1` draws. */
  lemma FillStep(draw: nat -> u64, n: nat, xs: seq<u8>, len: nat)
    requires len <= 8 && 8 * n + len <= |xs|
    ensures Splice(Splice(xs, 0, WordsBytes(Draws(draw, n))), 8 * n, WordBytes(draw(n))[..len])
      == Splice(xs, 0, WordsBytes(Draws(draw, n + 1))[..8 * n + len])
    ensures len == 8 ==>
      WordsBytes(Draws(draw, n + 1))[..8 * n + len] == WordsBytes(Draws(draw, n + 1))
  {
    assert Draws(draw, n + 1) == Draws(draw, n) + [draw(n)];
    WordsBytesAppend(Draws(draw, n), [draw(n)]);
    var front := WordsBytes(Draws(draw, n));
    var next := WordBytes(draw(n));
    assert WordsBytes([draw(n)]) == next + WordsBytes([]);
    assert (front + next)[..8 * n + len] == front + next[..len];
  }

  /** `n == 8 * c + r` with `r < 8` bytes take `c` draws, and one more when `r > 0`. */
  lemma ChunkCount(n: nat, c: nat, r: nat)
    requires n == 8 * c + r && r < 8
    ensures (n + 7) / 8 == if r > 0 then c + 1 else c
  {
    if r > 0 {
      DivModUnique(n + 7, 8, c + 1, r - 1);
    } else {
      DivModUnique(n + 7, 8, c, 7);
    }
  }
}
