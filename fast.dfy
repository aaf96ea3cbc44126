/** `RNG::fast` (RNG_fast.h): the wyrand hash rendered eight counter values at a time into
    a buffer. `state` is the counter, `buffer` holds eight rendered words and `index` is
    the next word to hand out; `index == 8` means the buffer is spent. */
module Fast {
  import opened Common
  import Wyrand
  import Lemire

  const INCREMENT: u64 := Wyrand.INCREMENT
  const MIX: u64 := Wyrand.MIX
  /** The constant the integer constructor xors into its seed. */
  const GOLDEN: u64 := 0x9e37_79b9_7f4a_7c15
  const DEFAULT_SEED: u64 := 0x2d35_8dcc_aa6c_78a5
  const BUFFER_SIZE: nat := 8

  /** The first `m` outputs of a Weyl generator with state `s` and finaliser `h`; a
      refill from state `s` renders `PrefixOf(Wyrand.Hash, s, 8)`. */
  function PrefixOf(h: u64 -> u64, s: u64, m: nat): (ws: seq<u64>)
    ensures |ws| == m
  {
    seq(m, (k: int) requires 0 <= k < m => Wyrand.StreamOf(h, s, k))
  }

  /** The first `m` outputs of a wyrand whose state is `s`. */
  function Prefix(s: u64, m: nat): (ws: seq<u64>)
    ensures |ws| == m
  {
    PrefixOf(Wyrand.Hash, s, m)
  }

  /** The `k`-th future output (counting from 0) of an engine in the given state: what is
      left in the buffer, then the stream of the counter. */
  function StreamOf(h: u64 -> u64, state: u64, buf: seq<u64>, index: nat, k: nat): u64
    requires |buf| == BUFFER_SIZE && index <= BUFFER_SIZE
  {
    if k < BUFFER_SIZE - index then buf[index + k]
    else Wyrand.StreamOf(h, state, k - (BUFFER_SIZE - index))
  }

  function Stream(state: u64, buf: seq<u64>, index: nat, k: nat): u64
    requires |buf| == BUFFER_SIZE && index <= BUFFER_SIZE
  {
    StreamOf(Wyrand.Hash, state, buf, index, k)
  }

  /** `bulk` renders whole blocks; this many for `n` bytes. */
  function Blocks(n: nat): nat { (n + 63) / 64 }

  /** Eight more words of the stream, starting `8 * b` words on, are one refill of the
      counter reached after `b` refills. */
  lemma PrefixBlock(h: u64 -> u64, s: u64, b: nat)
    ensures PrefixOf(h, s, 8 * b + 8) == PrefixOf(h, s, 8 * b) + PrefixOf(h, Weyl(s, INCREMENT, 8 * b), 8)
  {
    forall k | 0 <= k < 8
      ensures PrefixOf(h, Weyl(s, INCREMENT, 8 * b), 8)[k] == PrefixOf(h, s, 8 * b + 8)[8 * b + k]
    {
      Wyrand.StreamShift(h, s, 8 * b, k);
    }
  }

  /** `bulk` of `64 * b + m` bytes with `m < 64` renders `b` blocks, and one more when
      `m > 0`. */
  lemma BlocksCount(n: nat, b: nat, m: nat)
    requires n == 64 * b + m && m < 64
    ensures Blocks(n) == if m > 0 then b + 1 else b
  {
    if m > 0 {
      DivModUnique(n + 63, 64, b + 1, m - 1);
    } else {
      DivModUnique(n + 63, 64, b, 63);
    }
  }

  /** One more refill in `bulk`: its bytes follow the bytes of the earlier blocks, and the
      counter has moved on by eight more increments. */
  lemma BulkBlock(h: u64 -> u64, s: u64, b: nat)
    ensures WordsBytes(PrefixOf(h, s, 8 * (b + 1)))
      == WordsBytes(PrefixOf(h, s, 8 * b)) + WordsBytes(PrefixOf(h, Weyl(s, INCREMENT, 8 * b), 8))
    ensures Weyl(s, INCREMENT, 8 * (b + 1)) == Weyl(Weyl(s, INCREMENT, 8 * b), INCREMENT, 8)
  {
    PrefixBlock(h, s, b);
    WordsBytesAppend(PrefixOf(h, s, 8 * b), PrefixOf(h, Weyl(s, INCREMENT, 8 * b), 8));
    WeylAdd(s, INCREMENT, 8 * b, 8);
  }

  /** The bytes of `bulk` after one more block: the bytes of `b` blocks, then the first
      `len` bytes of the next block, are the first `64 * b + len` bytes of `b + 1` blocks. */
  lemma BulkStep(h: u64 -> u64, s: u64, b: nat, xs: seq<u8>, len: nat)
    requires len <= 64 && 64 * b + len <= |xs|
    ensures Splice(Splice(xs, 0, WordsBytes(PrefixOf(h, s, 8 * b))), 64 * b,
                   WordsBytes(PrefixOf(h, Weyl(s, INCREMENT, 8 * b), 8))[..len])
      == Splice(xs, 0, WordsBytes(PrefixOf(h, s, 8 * (b + 1)))[..64 * b + len])
    ensures len == 64 ==>
      WordsBytes(PrefixOf(h, s, 8 * (b + 1)))[..64 * b + len] == WordsBytes(PrefixOf(h, s, 8 * (b + 1)))
    ensures Weyl(s, INCREMENT, 8 * (b + 1)) == Weyl(Weyl(s, INCREMENT, 8 * b), INCREMENT, 8)
  {
    BulkBlock(h, s, b);
    var front := WordsBytes(PrefixOf(h, s, 8 * b));
    var next := WordsBytes(PrefixOf(h, Weyl(s, INCREMENT, 8 * b), 8));
    assert (front + next)[..64 * b + len] == front + next[..len];
    assert WordsBytes(PrefixOf(h, s, 8 * (b + 1)))[..64 * b] == front;
  }

  lemma PrefixSnoc(h: u64 -> u64, s: u64, m: nat)
    ensures PrefixOf(h, s, m + 1) == PrefixOf(h, s, m) + [h(Weyl(s, INCREMENT, m + 1))]
  {
  }

  /** A refill from counter `s` leaves an engine whose future is the stream of `s`. */
  lemma RefilledStream(h: u64 -> u64, s: u64, k: nat)
    ensures StreamOf(h, Weyl(s, INCREMENT, 8), PrefixOf(h, s, 8), 0, k) == Wyrand.StreamOf(h, s, k)
  {
    if k >= BUFFER_SIZE {
      Wyrand.StreamShift(h, s, 8, k - 8);
    }
  }

  /** `operator()` on an engine in the given state: refill if spent, then take the word at
      the cursor. What comes out is the head of the future and what is left is its tail. */
  lemma NextStream(h: u64 -> u64, state: u64, buf: seq<u64>, index: nat, k: nat)
    requires |buf| == BUFFER_SIZE && index <= BUFFER_SIZE
    ensures var st, bf, ix :=
        if index == BUFFER_SIZE then Weyl(state, INCREMENT, 8) else state,
        if index == BUFFER_SIZE then PrefixOf(h, state, 8) else buf,
        if index == BUFFER_SIZE then 0 else index;
      bf[ix] == StreamOf(h, state, buf, index, 0)
      && StreamOf(h, st, bf, ix + 1, k) == StreamOf(h, state, buf, index, k + 1)
  {
    if index == BUFFER_SIZE {
      RefilledStream(h, state, 0);
      RefilledStream(h, state, k + 1);
    }
  }

  /** Handing out a buffered word moves the whole future on by one. */
  lemma TakeBuffered(h: u64 -> u64, state: u64, buf: seq<u64>, index: nat, k: nat)
    requires |buf| == BUFFER_SIZE && index < BUFFER_SIZE
    ensures StreamOf(h, state, buf, index + 1, k) == StreamOf(h, state, buf, index, k + 1)
  {
  }

  /** Moving the counter by `n` moves the part of the future after the buffer by `n`. */
  lemma CounterShift(h: u64 -> u64, state: u64, buf: seq<u64>, index: nat, n: nat, k: nat)
    requires |buf| == BUFFER_SIZE && index <= BUFFER_SIZE && k >= BUFFER_SIZE - index
    ensures StreamOf(h, Weyl(state, INCREMENT, n), buf, index, k) == StreamOf(h, state, buf, index, n + k)
  {
    Wyrand.StreamShift(h, state, n, k - (BUFFER_SIZE - index));
  }

  /** Stepping `n` words past the buffered ones: an emptied buffer and a counter moved by
      what is left of `n` give the old future `n` words on. */
  lemma SkipPastBuffer(h: u64 -> u64, state: u64, buf: seq<u64>, index: nat, n: nat, k: nat)
    requires |buf| == BUFFER_SIZE && index <= BUFFER_SIZE && n > BUFFER_SIZE - index
    ensures StreamOf(h, Weyl(state, INCREMENT, n - (BUFFER_SIZE - index)), buf, BUFFER_SIZE, k)
      == StreamOf(h, state, buf, index, n + k)
  {
    Wyrand.StreamShift(h, state, n - (BUFFER_SIZE - index), k);
  }

  /** An engine with a spent buffer emits the plain wyrand stream of its counter, so a
      `fast` and a `wyrand` with the same state agree word for word. */
  lemma EmptyBufferIsWyrand(state: u64, buf: seq<u64>, k: nat)
    requires |buf| == BUFFER_SIZE
    ensures Stream(state, buf, BUFFER_SIZE, k) == Wyrand.Stream(state, k)
  {
  }

  // ---------------------------------------------------------------------------
  // unbiased, as written
  // ---------------------------------------------------------------------------

  /** The redraw loop of `fast::unbiased`: keep drawing while the low half is below `t`. */
  function RedrawAsWritten(range: u64, t: u64, draws: seq<u64>, i: nat, p: U128): (d: Lemire.Draw)
    requires range > 0
    ensures d.Sampled? ==> d.used == i || i < d.used <= |draws|
    decreases |draws| - i
  {
    if p.lo >= t then Lemire.Sampled(Add64(p.lo, p.hi), i)
    else if i >= |draws| then Lemire.OutOfDraws
    else RedrawAsWritten(range, t, draws, i + 1, Umul128(draws[i], range))
  }

  /** `fast::unbiased(lo, hi)` on the engine's next words `draws`, as written: the threshold
      is `(UINT64_MAX - range + p_lo) % range` and the result is `p_lo + p_hi`. */
  function UnbiasedAsWritten(lo: u64, hi: u64, draws: seq<u64>): (d: Lemire.Draw)
    ensures d.Sampled? ==> d.used <= |draws| && (d.used == 0 <==> Lemire.Lower(lo, hi) == Lemire.Upper(lo, hi))
  {
    var a, b := Lemire.Lower(lo, hi), Lemire.Upper(lo, hi);
    if a == b then Lemire.Sampled(a, 0)
    else
      var range := Lemire.Range(a, b);
      if range == 0 then
        if |draws| == 0 then Lemire.OutOfDraws else Lemire.Sampled(draws[0], 1)
      else if |draws| == 0 then Lemire.OutOfDraws
      else
        var p := Umul128(draws[0], range);
        if p.lo < range then
          var t := ((MAX64 - range + p.lo) % TWO64) % range;
          RedrawAsWritten(range, t, draws, 1, p)
        else Lemire.Sampled(Add64(p.lo, p.hi), 1)
  }

  /** For `[10, 11]` and the draw `2^63 + 1` the product is `2^64 + 2`, so the code returns
      `2 + 1 = 3`, outside the interval; the Lemire sampler returns `10 + 1 = 11`. */
  lemma UnbiasedAsWrittenOutOfRange()
    ensures UnbiasedAsWritten(10, 11, [0x8000_0000_0000_0001]) == Lemire.Sampled(3, 1)
    ensures Lemire.Sample(10, 11, [0x8000_0000_0000_0001]) == Lemire.Sampled(11, 1)
  {
    Umul128Halves(0x8000_0000_0000_0001, 2);
  }

  /** `discard` as written, seven calls after a refill from counter `s`: `discard(1)` moves
      only the counter, so the next word is still word 7 of the stream, where one call of
      `operator()` would have left word 8 next. */
  lemma DiscardAsWrittenKeepsBuffered(s: u64)
    ensures Stream(Weyl(Weyl(s, INCREMENT, 8), INCREMENT, 1), Prefix(s, 8), 7, 0) == Wyrand.Stream(s, 7)
    ensures Stream(Weyl(s, INCREMENT, 8), Prefix(s, 8), 7, 1) == Wyrand.Stream(s, 8)
  {
    WeylAdd(s, INCREMENT, 8, 1);
  }

  class Fast {
    var state: u64
    const buffer: array<u64>
    var index: nat

    ghost predicate Valid()
      reads this
    {
      buffer.Length == BUFFER_SIZE && index <= BUFFER_SIZE
    }

    /** The `k`-th future output of this engine. */
    function Output(k: nat): u64
      requires Valid()
      reads this, buffer
    {
      Stream(state, buffer[..], index, k)
    }

    /** `fast()`: the counter is one `draw64()` of the platform entropy source (its eight
        bytes), the buffer is spent. */
    constructor FromEntropy(bytes: seq<u8>)
      requires |bytes| == 8
      ensures Valid() && fresh(buffer)
      ensures state == LeValue(bytes) && index == BUFFER_SIZE
      ensures forall k: nat :: Output(k) == Wyrand.Stream(LeValue(bytes), k)
    {
      LeValueBound(bytes);
      state := LeValue(bytes);
      buffer := new u64[BUFFER_SIZE](_ => 0);
      index := BUFFER_SIZE;
    }

    /** `fast(std::uint64_t seed = 0x2d358dccaa6c78a5)`: the counter is `seed ^ GOLDEN` and
        one block is rendered at once, so the engine emits the wyrand stream of
        `seed ^ GOLDEN`. */
    constructor (seed: u64 := DEFAULT_SEED)
      ensures Valid() && fresh(buffer) && index == 0
      ensures state == Weyl(Xor64(seed, GOLDEN), INCREMENT, 8)
      ensures forall k: nat :: Output(k) == Wyrand.Stream(Xor64(seed, GOLDEN), k)
    {
      state := Xor64(seed, GOLDEN);
      buffer := new u64[BUFFER_SIZE](_ => 0);
      index := BUFFER_SIZE;
      new;
      ghost var s0 := state;
      Refill();
      forall k: nat ensures Output(k) == Wyrand.Stream(s0, k) {
        RefilledStream(Wyrand.Hash, s0, k);
      }
    }

    /** `refill()`: render the eight counter values after `state`, move the counter past
        them and make the whole buffer available. */
    method Refill()
      requires Valid()
      modifies this, buffer
      ensures Valid() && index == 0
      ensures state == Weyl(old(state), INCREMENT, 8)
      ensures buffer[..] == Prefix(old(state), 8)
    {
      for i := 0 to BUFFER_SIZE
        invariant state == old(state) && index == old(index)
        invariant buffer[..i] == Prefix(state, i)
      {
        // S = state + (i + 1) * INCREMENT, then lo ^ hi ^ S of S * (S ^ MIX)
        var s := Add64(state, Mul64(i + 1, INCREMENT));
        WeylJump(state, INCREMENT, i + 1);
        buffer[i] := Wyrand.Hash(s);
        PrefixSnoc(Wyrand.Hash, state, i);
        assert buffer[..i + 1] == buffer[..i] + [buffer[i]];
      }
      assert buffer[..] == buffer[..BUFFER_SIZE];
      ghost var s0 := state;
      state := Add64(state, Mul64(8, INCREMENT));
      index := 0;
      WeylJump(s0, INCREMENT, 8);
    }

    /** `operator()`: refill only when the buffer is spent, then hand out the next word.
        The result is the head of the stream and what is left is its tail. */
    method Next() returns (r: u64)
      requires Valid()
      modifies this, buffer
      ensures Valid()
      ensures r == old(Output(0))
      ensures forall k: nat :: Output(k) == old(Output(k + 1))
      ensures old(index) < BUFFER_SIZE ==>
        state == old(state) && buffer[..] == old(buffer[..]) && index == old(index) + 1
      ensures old(index) == BUFFER_SIZE ==>
        state == Weyl(old(state), INCREMENT, 8) && buffer[..] == Prefix(old(state), 8) && index == 1
    {
      ghost var st, buf, ix := state, buffer[..], index;
      if index == BUFFER_SIZE {
        Refill();
      }
      r := buffer[index];
      index := index + 1;
      NextStream(Wyrand.Hash, st, buf, ix, 0);
      forall k: nat ensures Output(k) == old(Output(k + 1)) {
        NextStream(Wyrand.Hash, st, buf, ix, k);
      }
    }

    /** `draw32()`: the high 32 bits of the next word (`>> 32`). */
    method Draw32() returns (r: u32)
      requires Valid()
      modifies this, buffer
      ensures Valid()
      ensures r == old(Output(0)) / TWO32
      ensures forall k: nat :: Output(k) == old(Output(k + 1))
    {
      var w := Next();
      r := w / TWO32;
    }

    /** `seed(s)`: only the counter is replaced; buffer and index stay. */
    method SeedWith(s: u64)
      requires Valid()
      modifies this
      ensures Valid() && state == s && index == old(index)
      ensures forall k: nat :: Output(k) == Stream(s, old(buffer[..]), old(index), k)
    {
      state := s;
    }

    /** `bulk(x, n)`: one fresh block per 64 bytes (and one for a partial tail) whatever
        the buffer held; the bytes are the first `n` bytes of the wyrand stream of the
        counter and the buffer is left spent. */
    method Bulk(x: array<u8>, n: nat)
      requires Valid() && n <= x.Length
      modifies this, buffer, x
      ensures Valid() && index == BUFFER_SIZE
      ensures state == Weyl(old(state), INCREMENT, 8 * Blocks(n))
      ensures x[..n] == WordsBytes(Prefix(old(state), 8 * Blocks(n)))[..n]
      ensures x[n..] == old(x[n..])
    {
      ghost var s0, x0 := state, x[..];
      var p, m;
      ghost var blocks;
      p, m, blocks := BulkWhole(x, n);
      BulkTail(x, n, p, m, s0, x0, blocks);
      index := BUFFER_SIZE;
    }

    /** The loop of `bulk`: one fresh block per whole 64 bytes, leaving `m < 64` bytes. */
    method BulkWhole(x: array<u8>, n: nat) returns (p: nat, m: nat, ghost blocks: nat)
      requires Valid() && n <= x.Length
      modifies this, buffer, x
      ensures Valid() && p + m == n && p == 64 * blocks && m < 64
      ensures state == Weyl(old(state), INCREMENT, 8 * blocks)
      ensures x[..] == Splice(old(x[..]), 0, WordsBytes(Prefix(old(state), 8 * blocks)))
    {
      ghost var s0, x0 := state, x[..];
      blocks := 0;
      assert WordsBytes(Prefix(s0, 0)) == [];
      assert Splice(x0, 0, []) == x0;
      p, m := 0, n;
      while m >= 64
        invariant Valid()
        invariant 0 <= m && p + m == n && p == 64 * blocks
        invariant state == Weyl(s0, INCREMENT, 8 * blocks)
        invariant x[..] == Splice(x0, 0, WordsBytes(Prefix(s0, 8 * blocks)))
      {
        BulkRound(x, p, 64, s0, x0, blocks);
        blocks := blocks + 1;
        m, p := m - 64, p + 64;
      }
    }

    /** One round of `bulk`: the next block of the stream written behind the `b` blocks
        already written, in full or its first `len` bytes. */
    method BulkRound(x: array<u8>, p: nat, len: nat, ghost s0: u64, ghost x0: seq<u8>, ghost b: nat)
      requires Valid() && len <= 64 && p == 64 * b && p + len <= x.Length == |x0|
      requires state == Weyl(s0, INCREMENT, 8 * b)
      requires x[..] == Splice(x0, 0, WordsBytes(Prefix(s0, 8 * b)))
      modifies this, buffer, x
      ensures Valid() && state == Weyl(s0, INCREMENT, 8 * (b + 1))
      ensures x[..] == Splice(x0, 0, WordsBytes(Prefix(s0, 8 * (b + 1)))[..p + len])
      ensures len == 64 ==> x[..] == Splice(x0, 0, WordsBytes(Prefix(s0, 8 * (b + 1))))
    {
      RefillInto(x, p, len);
      BulkStep(Wyrand.Hash, s0, b, x0, len);
    }

    /** The end of `bulk`: a partial block for the last `m < 64` bytes, when there are
        any, after the `b` whole blocks. */
    method BulkTail(x: array<u8>, n: nat, p: nat, m: nat, ghost s0: u64, ghost x0: seq<u8>, ghost b: nat)
      requires Valid() && p + m == n && n <= x.Length == |x0| && p == 64 * b && m < 64
      requires state == Weyl(s0, INCREMENT, 8 * b)
      requires x[..] == Splice(x0, 0, WordsBytes(Prefix(s0, 8 * b)))
      modifies this, buffer, x
      ensures Valid() && state == Weyl(s0, INCREMENT, 8 * Blocks(n))
      ensures x[..n] == WordsBytes(Prefix(s0, 8 * Blocks(n)))[..n]
      ensures x[n..] == x0[n..]
    {
      BlocksCount(n, b, m);
      if m > 0 {
        BulkRound(x, p, m, s0, x0, b);
        SpliceFront(x0, WordsBytes(Prefix(s0, 8 * (b + 1)))[..n]);
      } else {
        SpliceFront(x0, WordsBytes(Prefix(s0, 8 * b)));
      }
    }

    /** One step of `bulk`: `refill()`, then `memcpy` of the first `len` bytes of the new
        block to offset `p` of `x`. */
    method RefillInto(x: array<u8>, p: nat, len: nat)
      requires Valid() && len <= 8 * BUFFER_SIZE && p + len <= x.Length
      modifies this, buffer, x
      ensures Valid() && index == 0
      ensures state == Weyl(old(state), INCREMENT, 8)
      ensures x[..] == Splice(old(x[..]), p, WordsBytes(Prefix(old(state), 8))[..len])
    {
      Refill();
      Common.CopyBytes(x, p, WordsBytes(buffer[..])[..len]);
    }

    /** `discard(nsteps)`: `state += nsteps * INCREMENT`. Buffer and index are untouched,
        so the words still in the buffer are not skipped; only the words after them move
        on by `n`. With a spent buffer this is exactly `n` calls of `operator()`. */
    method Discard(n: u64)
      requires Valid()
      modifies this
      ensures Valid()
      ensures state == Weyl(old(state), INCREMENT, n) && index == old(index)
      ensures forall k: nat :: k < BUFFER_SIZE - index ==> Output(k) == old(Output(k))
      ensures forall k: nat :: k >= BUFFER_SIZE - index ==> Output(k) == old(Output(n + k))
    {
      WeylJump(state, INCREMENT, n);
      ghost var s0 := state;
      state := Add64(state, Mul64(n, INCREMENT));
      forall k: nat | k >= BUFFER_SIZE - index ensures Output(k) == old(Output(n + k)) {
        CounterShift(Wyrand.Hash, s0, buffer[..], index, n, k);
      }
    }

    /** `discard(nsteps)` as the random-engine requirements define it, `nsteps` calls of
        `operator()`: the words left in the buffer are used up first and only the rest
        move the counter. */
    method DiscardAsCalls(n: u64)
      requires Valid()
      modifies this
      ensures Valid()
      ensures n <= BUFFER_SIZE - old(index) ==> state == old(state) && index == old(index) + n
      ensures n > BUFFER_SIZE - old(index) ==>
        state == Weyl(old(state), INCREMENT, n - (BUFFER_SIZE - old(index))) && index == BUFFER_SIZE
      ensures forall k: nat :: Output(k) == old(Output(n + k))
    {
      if n <= BUFFER_SIZE - index {
        index := index + n;
      } else {
        ghost var s0, i0 := state, index;
        var rest := n - (BUFFER_SIZE - index);
        WeylJump(state, INCREMENT, rest);
        state := Add64(state, Mul64(rest, INCREMENT));
        index := BUFFER_SIZE;
        forall k: nat ensures Output(k) == old(Output(n + k)) {
          SkipPastBuffer(Wyrand.Hash, s0, buffer[..], i0, n as nat, k);
        }
      }
    }

    /** `jump()`: `discard(2^32)` */
    method Jump()
      requires Valid()
      modifies this
      ensures Valid()
      ensures state == Weyl(old(state), INCREMENT, 0x1_0000_0000) && index == old(index)
      ensures forall k: nat :: k < BUFFER_SIZE - index ==> Output(k) == old(Output(k))
      ensures forall k: nat :: k >= BUFFER_SIZE - index ==> Output(k) == old(Output(0x1_0000_0000 + k))
    {
      Discard(0x1_0000_0000);
    }

    /** `long_jump()`: `discard(2^48)` */
    method LongJump()
      requires Valid()
      modifies this
      ensures Valid()
      ensures state == Weyl(old(state), INCREMENT, 0x1_0000_0000_0000) && index == old(index)
      ensures forall k: nat :: k < BUFFER_SIZE - index ==> Output(k) == old(Output(k))
      ensures forall k: nat :: k >= BUFFER_SIZE - index ==> Output(k) == old(Output(0x1_0000_0000_0000 + k))
    {
      Discard(0x1_0000_0000_0000);
    }

    /** `operator==` compares the counters only. */
    function Equals(other: Fast): (r: bool)
      reads this, other
      ensures r <==> state == other.state
    {
      state == other.state
    }
  }

  /** Equal counters mean equal futures only once both buffers are spent: equality looks at
      the counter and ignores the words still buffered. */
  lemma EqualSpentEnginesAgree(a: Fast, b: Fast, k: nat)
    requires a.Valid() && b.Valid() && a.index == BUFFER_SIZE && b.index == BUFFER_SIZE
    requires a.Equals(b)
    ensures a.Output(k) == b.Output(k)
  {
  }
}
