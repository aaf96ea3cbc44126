/** `RNG::Nasam1024` (Nasam1024.h): a 1024-bit counter whose upper eight limbs are mixed by
    `nasam` into a buffer of eight output words. `position` is the next word to hand out;
    `position == 8` means the buffer is spent. */
module Nasam {
  import opened Common
  import Counter
  import NasamMix
  import SplitMix

  const BUFFER_SIZE: nat := 8

  // ---------------------------------------------------------------------------
  // The output stream
  // ---------------------------------------------------------------------------


  /** The eight words a refill renders from the counter value `c`: the mixer `h` applied to
      the upper eight limbs. */
  function RenderOf(h: u64 -> u64, c: nat): (ws: seq<u64>)
    ensures |ws| == BUFFER_SIZE
  {
    seq(BUFFER_SIZE, (i: int) requires 0 <= i < BUFFER_SIZE => MixedLimb(h, c, i))
  }

  /** The mixer applied to limb `8 + i` of the counter value `c`. */
  function MixedLimb(h: u64 -> u64, c: nat, i: nat): u64
  {
    h(Counter.Limb(c, i + BUFFER_SIZE))
  }

  /** The `m`-th word (from 0) that refills from counter value `c` hand out: word `m % 8`
      of the block rendered after `m / 8 + 1` increments. */
  function CounterStreamOf(h: u64 -> u64, c: nat, inc: nat, m: nat): u64
  {
    RenderOf(h, Counter.At(c, inc, m / BUFFER_SIZE + 1))[m % BUFFER_SIZE]
  }

  /** The `k`-th future output (from 0) of an engine in the given state: what is left in
      the buffer, then the blocks of the counter. */
  function StreamOf(h: u64 -> u64, c: nat, inc: nat, buf: seq<u64>, pos: nat, k: nat): u64
    requires |buf| == BUFFER_SIZE && pos <= BUFFER_SIZE
  {
    if k < BUFFER_SIZE - pos then buf[pos + k] else CounterStreamOf(h, c, inc, k - (BUFFER_SIZE - pos))
  }

  /** The first `m` words of the counter's stream. */
  function PrefixOf(h: u64 -> u64, c: nat, inc: nat, m: nat): (ws: seq<u64>)
    ensures |ws| == m
  {
    seq(m, (k: int) requires 0 <= k < m => CounterStreamOf(h, c, inc, k))
  }

  /** `bulk` renders whole blocks; this many for `n` bytes. */
  function Blocks(n: nat): nat { (n + 63) / 64 }

  // ---------------------------------------------------------------------------
  // Properties of the stream
  // ---------------------------------------------------------------------------

  lemma ModCompose(v: int, a: int, b: int, inc: int, m: int)
    requires m > 0
    ensures ((v + a * inc) % m + b * inc) % m == (v + (a + b) * inc) % m
  {
    ModAdd(v + a * inc, b * inc, m);
    assert v + a * inc + b * inc == v + (a + b) * inc;
    Counter.SameResidueMod(v + a * inc + b * inc, v + (a + b) * inc, m);
  }

  /** `a` increments, then `b` more, are `a + b` increments. */
  lemma AtAdd(c: nat, inc: nat, a: nat, b: nat)
    ensures Counter.At(Counter.At(c, inc, a), inc, b) == Counter.At(c, inc, a + b)
  {
    ModCompose(c, a, b, inc, Counter.MODULUS);
  }

  /** Word `k` of the block after `b` blocks is word `8 b + k` of the stream. */
  lemma BlockWord(h: u64 -> u64, c: nat, inc: nat, b: nat, k: nat)
    requires k < BUFFER_SIZE
    ensures CounterStreamOf(h, c, inc, BUFFER_SIZE * b + k) == RenderOf(h, Counter.At(c, inc, b + 1))[k]
  {
    DivModUnique(BUFFER_SIZE * b + k, BUFFER_SIZE, b, k);
  }

  /** A refill from counter value `c` leaves an engine whose future is the stream of `c`. */
  lemma RefilledStream(h: u64 -> u64, c: nat, inc: nat, k: nat)
    ensures StreamOf(h, Counter.At(c, inc, 1), inc, RenderOf(h, Counter.At(c, inc, 1)), 0, k) == CounterStreamOf(h, c, inc, k)
  {
    if k < BUFFER_SIZE {
      BlockWord(h, c, inc, 0, k);
    } else {
      var m := k - BUFFER_SIZE;
      DivModUnique(m + BUFFER_SIZE * (1), BUFFER_SIZE, m / BUFFER_SIZE + (1), m % BUFFER_SIZE);
      AtAdd(c, inc, 1, m / BUFFER_SIZE + 1);
    }
  }

  /** `operator()` on an engine in the given state: refill if spent, then take the word at
      the cursor. What comes out is the head of the future and what is left is its tail. */
  lemma NextStream(h: u64 -> u64, c: nat, inc: nat, buf: seq<u64>, pos: nat, k: nat)
    requires |buf| == BUFFER_SIZE && pos <= BUFFER_SIZE
    ensures var c1, bf, ps :=
        if pos == BUFFER_SIZE then Counter.At(c, inc, 1) else c,
        if pos == BUFFER_SIZE then RenderOf(h, Counter.At(c, inc, 1)) else buf,
        if pos == BUFFER_SIZE then 0 else pos;
      bf[ps] == StreamOf(h, c, inc, buf, pos, 0)
      && StreamOf(h, c1, inc, bf, ps + 1, k) == StreamOf(h, c, inc, buf, pos, k + 1)
  {
    if pos == BUFFER_SIZE {
      RefilledStream(h, c, inc, 0);
      RefilledStream(h, c, inc, k + 1);
    }
  }

  /** `discard(n)` past the end of the buffer: `n - (8 - pos) = 8 full + fin` more words,
      so the counter moves on `full` increments and one refill, and the cursor lands on
      word `fin` of the new block. */
  lemma DiscardStream(h: u64 -> u64, c: nat, inc: nat, buf: seq<u64>, pos: nat, n: nat, full: nat, fin: nat, k: nat)
    requires |buf| == BUFFER_SIZE && pos <= BUFFER_SIZE
    requires n - (BUFFER_SIZE - pos) == BUFFER_SIZE * full + fin && fin < BUFFER_SIZE
    ensures StreamOf(h, Counter.At(c, inc, full + 1), inc, RenderOf(h, Counter.At(c, inc, full + 1)), fin, k)
      == StreamOf(h, c, inc, buf, pos, k + n)
  {
    var q := BUFFER_SIZE * full + fin + k;
    assert StreamOf(h, c, inc, buf, pos, k + n) == CounterStreamOf(h, c, inc, q);
    if fin + k < BUFFER_SIZE {
      BlockWord(h, c, inc, full, fin + k);
    } else {
      var m := k - (BUFFER_SIZE - fin);
      assert q == m + BUFFER_SIZE * (full + 1);
      DivModUnique(q, BUFFER_SIZE, m / BUFFER_SIZE + (full + 1), m % BUFFER_SIZE);
      AtAdd(c, inc, full + 1, m / BUFFER_SIZE + 1);
    }
  }

  /** Moving the counter on by `j` increments moves the part of the future after the
      buffer on by `8 j` words. */
  lemma JumpStream(h: u64 -> u64, c: nat, inc: nat, buf: seq<u64>, pos: nat, j: nat, k: nat)
    requires |buf| == BUFFER_SIZE && pos <= BUFFER_SIZE && k >= BUFFER_SIZE - pos
    ensures StreamOf(h, Counter.At(c, inc, j), inc, buf, pos, k) == StreamOf(h, c, inc, buf, pos, k + BUFFER_SIZE * j)
  {
    var m := k - (BUFFER_SIZE - pos);
    DivModUnique(m + BUFFER_SIZE * (j), BUFFER_SIZE, m / BUFFER_SIZE + (j), m % BUFFER_SIZE);
    AtAdd(c, inc, j, m / BUFFER_SIZE + 1);
  }

  /** Eight more words of the stream, starting `8 b` words on, are the block rendered
      after `b + 1` increments. */
  lemma PrefixBlock(h: u64 -> u64, c: nat, inc: nat, b: nat)
    ensures PrefixOf(h, c, inc, BUFFER_SIZE * (b + 1))
      == PrefixOf(h, c, inc, BUFFER_SIZE * b) + RenderOf(h, Counter.At(c, inc, b + 1))
  {
    var whole, front, next := PrefixOf(h, c, inc, BUFFER_SIZE * (b + 1)),
      PrefixOf(h, c, inc, BUFFER_SIZE * b), RenderOf(h, Counter.At(c, inc, b + 1));
    forall i | 0 <= i < BUFFER_SIZE * b + BUFFER_SIZE
      ensures whole[i] == (front + next)[i]
    {
      if i >= BUFFER_SIZE * b {
        BlockWord(h, c, inc, b, i - BUFFER_SIZE * b);
      }
    }
  }

  /** `bulk` of `64 b + m` bytes with `m < 64` renders `b` blocks, and one more when
      `m > 0`. */
  lemma BlocksCount(n: nat, b: nat, m: nat)
    requires n == 64 * b + m && m < 64
    ensures Blocks(n) == if m > 0 then b + 1 else b
  {
    if m > 0 {
      DivModUnique(n + 63, 64, b + 1, m - 1);
    } else {
      DivModUnique(n + 63, 64, b, 63);
    }
  }

  /** The bytes of `bulk` after one more block: the bytes of the earlier words, then the
      first `len` bytes of the next block, are the first `8 |front| + len` bytes of all
      of them. */
  lemma SpliceStep(xs: seq<u8>, front: seq<u64>, next: seq<u64>, len: nat)
    requires |next| == BUFFER_SIZE && len <= 8 * BUFFER_SIZE && 8 * |front| + len <= |xs|
    ensures Splice(Splice(xs, 0, WordsBytes(front)), 8 * |front|, WordsBytes(next)[..len])
      == Splice(xs, 0, WordsBytes(front + next)[..8 * |front| + len])
    ensures len == 8 * BUFFER_SIZE ==> WordsBytes(front + next)[..8 * |front| + len] == WordsBytes(front + next)
  {
    var f, g := WordsBytes(front), WordsBytes(next);
    assert |f| == 8 * |front| && |g| == 8 * BUFFER_SIZE;
    WordsBytesAppend(front, next);
    SpliceAppend(xs, f, g, len);
    if len == 8 * BUFFER_SIZE {
      assert (f + g)[..|f| + len] == f + g;
    }
  }

  /** The bytes of `bulk` after one more block: those of `b` blocks, then the first `len`
      bytes of block `b + 1`, are the first `64 b + len` bytes of `b + 1` blocks. */
  lemma BulkStep(h: u64 -> u64, c: nat, inc: nat, b: nat, xs: seq<u8>, len: nat)
    requires len <= 8 * BUFFER_SIZE && 64 * b + len <= |xs|
    ensures Splice(Splice(xs, 0, WordsBytes(PrefixOf(h, c, inc, BUFFER_SIZE * b))), 64 * b,
                   WordsBytes(RenderOf(h, Counter.At(c, inc, b + 1)))[..len])
      == Splice(xs, 0, WordsBytes(PrefixOf(h, c, inc, BUFFER_SIZE * (b + 1)))[..64 * b + len])
    ensures len == 8 * BUFFER_SIZE ==>
      WordsBytes(PrefixOf(h, c, inc, BUFFER_SIZE * (b + 1)))[..64 * b + len]
        == WordsBytes(PrefixOf(h, c, inc, BUFFER_SIZE * (b + 1)))
  {
    var front, next := PrefixOf(h, c, inc, BUFFER_SIZE * b), RenderOf(h, Counter.At(c, inc, b + 1));
    assert 8 * |front| == 64 * b;
    PrefixBlock(h, c, inc, b);
    SpliceStep(xs, front, next, len);
  }

  /** The sixteen SplitMix64 outputs that `reseed(seed)` uses as the jump distance. */
  function SeedStep(seed: u64): (step: seq<u64>)
    ensures |step| == Counter.LIMBS
  {
    seq(Counter.LIMBS, (j: int) requires 0 <= j < Counter.LIMBS => SplitMix.Output(seed, j + 1))
  }

  /** Word `i` of the block rendered from limbs `s` is the mixer of `s[i + 8]`. */
  lemma RenderedLimb(h: u64 -> u64, s: seq<u64>, i: nat)
    requires |s| == Counter.LIMBS && i < BUFFER_SIZE
    ensures RenderOf(h, Counter.Value(s))[i] == h(s[i + BUFFER_SIZE])
  {
    Counter.LimbOfValue(s, i + BUFFER_SIZE);
  }

  /** The loop of `reseed`: `step[i] = gen()` for a SplitMix64 `gen` seeded with `seed`. */
  method SeedSteps(seed: u64) returns (step: seq<u64>)
    ensures step == SeedStep(seed)
  {
    var gen := new SplitMix.SplitMix64(seed);
    step := [];
    for i := 0 to Counter.LIMBS
      invariant gen.state == Weyl(seed, SplitMix.INCREMENT, i)
      invariant step == SeedStep(seed)[..i]
    {
      var w := gen.Next();
      WeylStep(seed, SplitMix.INCREMENT, i);
      assert gen.state == Weyl(seed, SplitMix.INCREMENT, i + 1);
      assert w == SeedStep(seed)[i];
      assert SeedStep(seed)[..i + 1] == SeedStep(seed)[..i] + [w];
      step := step + [w];
    }
    assert SeedStep(seed)[..Counter.LIMBS] == SeedStep(seed);
  }

  // ---------------------------------------------------------------------------
  // The engine
  // ---------------------------------------------------------------------------

  class Nasam1024 {
    const counter: Counter.Counter1024
    const buffer: array<u64>
    var position: nat
    /** `nasam`, under a name of its own: the stream is stated in terms of `mix`, and
        `Valid()` says that `mix` is `nasam` at every word it is applied to. */
    ghost const mix: u64 -> u64

    ghost predicate Valid()
      reads this, counter
    {
      counter.Valid() && buffer.Length == BUFFER_SIZE && position <= BUFFER_SIZE
      && forall x {:trigger NasamMix.Nasam(x)} :: mix(x) == NasamMix.Nasam(x)
    }

    /** The block a refill renders from the counter value `c`. */
    ghost function Render(c: nat): (ws: seq<u64>)
      ensures |ws| == BUFFER_SIZE
    {
      RenderOf(mix, c)
    }

    /** The counter as one 1024-bit number. */
    function CounterValue(): nat
      reads this, counter
    {
      Counter.Value(counter.state)
    }

    /** The increment as one 1024-bit number; the same in every counter. */
    function Inc(): nat
    {
      Counter.Value(counter.increment)
    }

    /** The `k`-th future output of this engine. */
    ghost function Output(k: nat): u64
      requires Valid()
      reads this, counter, buffer
    {
      StreamOf(mix, CounterValue(), Inc(), buffer[..], position, k)
    }

    /** `Nasam1024()`: the sixteen limbs of the counter are sixteen `draw64()` calls of the
        platform entropy source, given here as `words`; the buffer is spent. */
    constructor FromEntropy(words: seq<u64>)
      requires |words| == Counter.LIMBS
      ensures Valid() && fresh(counter) && fresh(buffer)
      ensures counter.state == words && position == BUFFER_SIZE
      ensures forall k: nat :: Output(k) == CounterStreamOf(mix, Counter.Value(words), Inc(), k)
    {
      mix := NasamMix.Nasam;
      var c := new Counter.Counter1024();
      c.state := words;
      counter := c;
      buffer := new u64[BUFFER_SIZE](_ => 0);
      position := BUFFER_SIZE;
    }

    /** `Nasam1024(seed)`: `reseed(seed)`. */
    constructor (seed: u64)
      ensures Valid() && fresh(counter) && fresh(buffer) && position == BUFFER_SIZE
      ensures CounterValue() == Counter.At(0, Inc(), Counter.Value(SeedStep(seed)))
    {
      mix := NasamMix.Nasam;
      counter := new Counter.Counter1024();
      buffer := new u64[BUFFER_SIZE](_ => 0);
      position := BUFFER_SIZE;
      new;
      Reseed(seed);
    }

    /** `Nasam1024(initial_state)`: a zero counter jumped by `initial_state` increments;
        the buffer is spent. */
    constructor FromState(initial: seq<u64>)
      requires |initial| == Counter.LIMBS
      ensures Valid() && fresh(counter) && fresh(buffer) && position == BUFFER_SIZE
      ensures CounterValue() == Counter.At(0, Inc(), Counter.Value(initial))
    {
      mix := NasamMix.Nasam;
      counter := new Counter.Counter1024();
      buffer := new u64[BUFFER_SIZE](_ => 0);
      position := BUFFER_SIZE;
      new;
      counter.BigJump(initial);
    }

    /** `refill_buffer()`: `++counter`, then the mixer of limbs 8 .. 15 into the buffer,
        which is then full. */
    method RefillBuffer()
      requires Valid()
      modifies this, counter, buffer
      ensures Valid() && position == 0
      ensures CounterValue() == Counter.At(old(CounterValue()), Inc(), 1)
      ensures buffer[..] == Render(CounterValue())
    {
      ghost var c0 := CounterValue();
      counter.Increment();
      Counter.SameResidue(c0 + Inc(), c0 + 1 * Inc());
      ghost var st := counter.state;
      ghost var block := Render(Counter.Value(st));
      for i := 0 to BUFFER_SIZE
        invariant counter.state == st
        invariant buffer[..i] == block[..i]
      {
        var w := NasamMix.Nasam(counter.state[i + BUFFER_SIZE]);
        RenderedLimb(mix, st, i);
        assert w == block[i];
        buffer[i] := w;
        assert buffer[..i + 1] == buffer[..i] + [w];
      }
      position := 0;
    }

    /** `operator()`: refill only when the buffer is spent, then hand out the next word.
        The result is the head of the future and what is left is its tail. */
    method Next() returns (r: u64)
      requires Valid()
      modifies this, counter, buffer
      ensures Valid()
      ensures r == old(Output(0))
      ensures forall k: nat :: Output(k) == old(Output(k + 1))
      ensures old(position) < BUFFER_SIZE ==>
        counter.state == old(counter.state) && buffer[..] == old(buffer[..]) && position == old(position) + 1
      ensures old(position) == BUFFER_SIZE ==>
        CounterValue() == Counter.At(old(CounterValue()), Inc(), 1) && buffer[..] == Render(CounterValue()) && position == 1
    {
      ghost var c, buf, pos := CounterValue(), buffer[..], position;
      if position == BUFFER_SIZE {
        RefillBuffer();
      }
      r := buffer[position];
      position := position + 1;
      NextStream(mix, c, Inc(), buf, pos, 0);
      forall k: nat ensures Output(k) == old(Output(k + 1)) {
        NextStream(mix, c, Inc(), buf, pos, k);
      }
    }

    /** `draw32()`: the low 32 bits of the next word. */
    method Draw32() returns (r: u32)
      requires Valid()
      modifies this, counter, buffer
      ensures Valid()
      ensures r == old(Output(0)) % TWO32
      ensures forall k: nat :: Output(k) == old(Output(k + 1))
    {
      var w := Next();
      r := w % TWO32;
    }

    /** One step of `bulk`: `refill_buffer()`, then `memcpy` of the first `len` bytes of
        the new block to offset `p` of `x`. */
    method RefillInto(x: array<u8>, p: nat, len: nat)
      requires Valid() && len <= 8 * BUFFER_SIZE && p + len <= x.Length
      modifies this, counter, buffer, x
      ensures Valid() && position == 0
      ensures CounterValue() == Counter.At(old(CounterValue()), Inc(), 1)
      ensures x[..] == Splice(old(x[..]), p, WordsBytes(Render(CounterValue()))[..len])
      ensures buffer[..] == Render(CounterValue())
    {
      RefillBuffer();
      Common.CopyBytes(x, p, WordsBytes(buffer[..])[..len]);
    }

    /** One round of `bulk`: the next block of the counter's stream written behind the
        `b` blocks already written, in full or its first `len` bytes. */
    method BulkRound(x: array<u8>, p: nat, len: nat, ghost c0: nat, ghost x0: seq<u8>, ghost b: nat)
      requires Valid() && len <= 8 * BUFFER_SIZE && p == 64 * b && p + len <= x.Length == |x0|
      requires CounterValue() == Counter.At(c0, Inc(), b)
      requires x[..] == Splice(x0, 0, WordsBytes(PrefixOf(mix, c0, Inc(), BUFFER_SIZE * b)))
      modifies this, counter, buffer, x
      ensures Valid() && CounterValue() == Counter.At(c0, Inc(), b + 1)
      ensures x[..] == Splice(x0, 0, WordsBytes(PrefixOf(mix, c0, Inc(), BUFFER_SIZE * (b + 1)))[..p + len])
      ensures len == 8 * BUFFER_SIZE ==> x[..] == Splice(x0, 0, WordsBytes(PrefixOf(mix, c0, Inc(), BUFFER_SIZE * (b + 1))))
      ensures buffer[..] == Render(CounterValue())
    {
      RefillInto(x, p, len);
      AtAdd(c0, Inc(), b, 1);
      BulkStep(mix, c0, Inc(), b, x0, len);
    }

    /** `bulk(x, n)`: one fresh block per 64 bytes (and one for a partial tail) whatever
        the buffer held; the bytes are the first `n` bytes of the counter's stream and the
        buffer is left spent. */
    method Bulk(x: array<u8>, n: nat)
      requires Valid() && n <= x.Length
      modifies this, counter, buffer, x
      ensures Valid() && position == BUFFER_SIZE
      ensures CounterValue() == Counter.At(old(CounterValue()), Inc(), Blocks(n))
      ensures x[..n] == WordsBytes(PrefixOf(mix, old(CounterValue()), Inc(), BUFFER_SIZE * Blocks(n)))[..n]
      ensures x[n..] == old(x[n..])
      ensures n > 0 ==> buffer[..] == Render(CounterValue())
      ensures n == 0 ==> buffer[..] == old(buffer[..])
    {
      ghost var c0, x0 := CounterValue(), x[..];
      var p, m;
      ghost var blocks;
      p, m, blocks := BulkWhole(x, n);
      BulkTail(x, n, p, m, c0, x0, blocks);
      position := BUFFER_SIZE;
    }

    /** The loop of `bulk`: one fresh block per whole 64 bytes, leaving `m < 64` bytes. */
    method BulkWhole(x: array<u8>, n: nat) returns (p: nat, m: nat, ghost blocks: nat)
      requires Valid() && n <= x.Length
      modifies this, counter, buffer, x
      ensures Valid() && p + m == n && p == 64 * blocks && m < 64
      ensures CounterValue() == Counter.At(old(CounterValue()), Inc(), blocks)
      ensures x[..] == Splice(old(x[..]), 0, WordsBytes(PrefixOf(mix, old(CounterValue()), Inc(), BUFFER_SIZE * blocks)))
      ensures blocks > 0 ==> buffer[..] == Render(CounterValue())
      ensures blocks == 0 ==> buffer[..] == old(buffer[..])
    {
      ghost var c0, x0 := CounterValue(), x[..];
      blocks := 0;
      Counter.AtStart(counter.state, Inc());
      assert WordsBytes(PrefixOf(mix, c0, Inc(), 0)) == [];
      assert Splice(x0, 0, []) == x0;
      p, m := 0, n;
      while m >= 64
        invariant Valid()
        invariant 0 <= m && p + m == n && p == 64 * blocks
        invariant CounterValue() == Counter.At(c0, Inc(), blocks)
        invariant x[..] == Splice(x0, 0, WordsBytes(PrefixOf(mix, c0, Inc(), BUFFER_SIZE * blocks)))
        invariant buffer[..] == if blocks == 0 then old(buffer[..]) else Render(Counter.At(c0, Inc(), blocks))
      {
        BulkRound(x, p, 64, c0, x0, blocks);
        blocks := blocks + 1;
        m, p := m - 64, p + 64;
      }
    }

    /** The end of `bulk`: a partial block for the last `m < 64` bytes, when there are
        any, after the `b` whole blocks. */
    method BulkTail(x: array<u8>, n: nat, p: nat, m: nat, ghost c0: nat, ghost x0: seq<u8>, ghost b: nat)
      requires Valid() && p + m == n && n <= x.Length == |x0| && p == 64 * b && m < 64
      requires CounterValue() == Counter.At(c0, Inc(), b)
      requires x[..] == Splice(x0, 0, WordsBytes(PrefixOf(mix, c0, Inc(), BUFFER_SIZE * b)))
      modifies this, counter, buffer, x
      ensures Valid() && CounterValue() == Counter.At(c0, Inc(), Blocks(n))
      ensures x[..n] == WordsBytes(PrefixOf(mix, c0, Inc(), BUFFER_SIZE * Blocks(n)))[..n]
      ensures x[n..] == x0[n..]
      ensures m > 0 ==> buffer[..] == Render(CounterValue())
      ensures m == 0 ==> buffer[..] == old(buffer[..]) && CounterValue() == old(CounterValue())
    {
      BlocksCount(n, b, m);
      ghost var bs;
      if m > 0 {
        BulkRound(x, p, m, c0, x0, b);
        bs := WordsBytes(PrefixOf(mix, c0, Inc(), BUFFER_SIZE * (b + 1)))[..n];
      } else {
        bs := WordsBytes(PrefixOf(mix, c0, Inc(), BUFFER_SIZE * b));
      }
      SpliceFront(x0, bs);
    }

    /** `discard(n)`: the words left in the buffer first; past them, `counter += full`
        for the whole blocks skipped, then one refill and the cursor on the word after
        the last one skipped. The future is then that of `n` calls of `operator()`; when
        the remainder is 0 the next block has already been rendered, which changes the
        state but not the future. */
    method Discard(n: u64)
      requires Valid()
      modifies this, counter, buffer
      ensures Valid()
      ensures forall k: nat :: Output(k) == old(Output(k + n))
      ensures n <= BUFFER_SIZE - old(position) ==>
        counter.state == old(counter.state) && buffer[..] == old(buffer[..]) && position == old(position) + n
      ensures n > BUFFER_SIZE - old(position) ==>
        var rest := n - (BUFFER_SIZE - old(position));
        CounterValue() == Counter.At(old(CounterValue()), Inc(), rest / BUFFER_SIZE + 1)
        && buffer[..] == Render(CounterValue()) && position == rest % BUFFER_SIZE
    {
      var remaining := BUFFER_SIZE - position;
      if n <= remaining {
        position := position + n;
        return;
      }
      ghost var c, buf, pos := CounterValue(), buffer[..], position;
      var rest := n - remaining;
      var full, fin := rest / BUFFER_SIZE, rest % BUFFER_SIZE;
      if full > 0 {
        counter.AddScalar(full);
      } else {
        Counter.Residue(counter.state);
        Counter.SameResidue(c, c + full * Inc());
      }
      RefillBuffer();
      AtAdd(c, Inc(), full, 1);
      position := fin;
      ghost var c1 := Counter.At(c, Inc(), full + 1);
      assert CounterValue() == c1 && buffer[..] == RenderOf(mix, c1);
      forall k: nat ensures Output(k) == old(Output(k + n)) {
        DiscardStream(mix, c, Inc(), buf, pos, n, full, fin, k);
        assert Output(k) == StreamOf(mix, c1, Inc(), RenderOf(mix, c1), fin, k);
      }
    }

    /** `big_jump(step)`: the counter jumps `step` increments; the buffered words stay. */
    method BigJump(step: seq<u64>)
      requires Valid() && |step| == Counter.LIMBS
      modifies this, counter
      ensures Valid() && position == old(position)
      ensures CounterValue() == Counter.At(old(CounterValue()), Inc(), Counter.Value(step))
      ensures forall k: nat :: k < BUFFER_SIZE - position ==> Output(k) == old(Output(k))
      ensures forall k: nat :: k >= BUFFER_SIZE - position ==>
        Output(k) == old(Output(k + BUFFER_SIZE * Counter.Value(step)))
    {
      ghost var c := CounterValue();
      counter.BigJump(step);
      forall k: nat | k >= BUFFER_SIZE - position
        ensures Output(k) == old(Output(k + BUFFER_SIZE * Counter.Value(step)))
      {
        JumpStream(mix, c, Inc(), buffer[..], position, Counter.Value(step), k);
      }
    }

    /** `jump64()` .. `jump256()`: `big_jump` by the single limb 1 at limb `k`, which is
        2^(64 k) increments. */
    method JumpLimb(k: nat)
      requires Valid() && k < Counter.LIMBS
      modifies this, counter
      ensures Valid() && position == old(position)
      ensures CounterValue() == Counter.At(old(CounterValue()), Inc(), Counter.B(k))
    {
      var step := Counter.Single(1, k);
      Counter.SingleValue(1, k);
      assert Counter.Value(step) == Counter.B(k);
      BigJump(step);
    }

    method Jump64()
      requires Valid()
      modifies this, counter
      ensures Valid() && position == old(position)
      ensures CounterValue() == Counter.At(old(CounterValue()), Inc(), Counter.B(1))
    {
      JumpLimb(1);
    }

    method Jump128()
      requires Valid()
      modifies this, counter
      ensures Valid() && position == old(position)
      ensures CounterValue() == Counter.At(old(CounterValue()), Inc(), Counter.B(2))
    {
      JumpLimb(2);
    }

    method Jump192()
      requires Valid()
      modifies this, counter
      ensures Valid() && position == old(position)
      ensures CounterValue() == Counter.At(old(CounterValue()), Inc(), Counter.B(3))
    {
      JumpLimb(3);
    }

    method Jump256()
      requires Valid()
      modifies this, counter
      ensures Valid() && position == old(position)
      ensures CounterValue() == Counter.At(old(CounterValue()), Inc(), Counter.B(4))
    {
      JumpLimb(4);
    }

    /** `jump()` is `jump128()`. */
    method Jump()
      requires Valid()
      modifies this, counter
      ensures Valid() && position == old(position)
      ensures CounterValue() == Counter.At(old(CounterValue()), Inc(), Counter.B(2))
    {
      Jump128();
    }

    /** `long_jump()` is `jump256()`. */
    method LongJump()
      requires Valid()
      modifies this, counter
      ensures Valid() && position == old(position)
      ensures CounterValue() == Counter.At(old(CounterValue()), Inc(), Counter.B(4))
    {
      Jump256();
    }

    /** `reseed(seed)`: sixteen outputs of a SplitMix64 seeded with `seed` are the jump
        distance from a zero counter; the buffer is spent. */
    method Reseed(seed: u64)
      requires Valid()
      modifies this, counter
      ensures Valid() && position == BUFFER_SIZE
      ensures CounterValue() == Counter.At(0, Inc(), Counter.Value(SeedStep(seed)))
    {
      var step := SeedSteps(seed);
      // `counter = Counter_1024()`: the increment of a new counter is the same
      counter.state := Counter.Zero();
      counter.BigJump(step);
      position := BUFFER_SIZE;
    }

    /** `set_counter(c)`: the limbs of `c` are copied in. */
    method SetCounter(c: Counter.Counter1024)
      requires Valid() && c.Valid()
      modifies counter
      ensures Valid() && counter.state == old(c.state)
    {
      counter.state := c.state;
    }

    /** `get_counter()`: a copy of the counter. */
    method GetCounter() returns (c: Counter.Counter1024)
      requires Valid()
      ensures fresh(c) && c.Valid() && c.state == counter.state
    {
      c := new Counter.Counter1024();
      c.state := counter.state;
    }

    /** `operator==`: same position, same counter limbs and the same eight buffer words
        (all of them, spent or not); equal limbs are equal 1024-bit counter values. */
    function Equals(other: Nasam1024): (r: bool)
      requires Valid() && other.Valid()
      reads this, counter, buffer, other, other.counter, other.buffer
      ensures r <==> (position == other.position && CounterValue() == other.CounterValue()
        && buffer[..] == other.buffer[..])
    {
      Counter.SameValue(counter.state, other.counter.state);
      position == other.position && counter.state == other.counter.state && buffer[..] == other.buffer[..]
    }
  }
}
