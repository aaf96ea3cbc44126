/** `RNG::csprng` (RNG_csprng.h): ChaCha20 in Bernstein's original layout (256-bit key,
    64-bit nonce, 64-bit block counter) as a buffered generator of 64-bit words. The block
    for counter `c` is rendered into an eight-word buffer, `block_counter` then names the
    next block, and `word_index` is the next buffered word; 8 means the buffer is spent.

    The ChaCha20 core (`build_state` followed by `permute_block`) is not part of this model:
    the block function is the parameter `render` of each generator, and the permutation that
    the seed-block constructors use is a parameter on 64 bytes. */
module Csprng {
  import opened Common
  import Lemire
  import RandomDevice

  const BUFFER_SIZE: nat := 8

  /** Keystream words that can be handed out: those of blocks 0 .. 2^64 - 2. Rendering
      block 2^64 - 1 wraps the counter to 0, and the refill reports exhaustion. */
  const LIMIT: nat := 8 * MAX64

  /** `ChaChaCore::KEY`: eight 32-bit words */
  type Key = s: seq<u32> | |s| == 8 witness [0, 0, 0, 0, 0, 0, 0, 0]
  /** `ChaChaCore::NONCE`: two 32-bit words */
  type Nonce = s: seq<u32> | |s| == 2 witness [0, 0]
  /** One ChaCha20 block as eight `uint64_t` words */
  type Block = s: seq<u64> | |s| == BUFFER_SIZE witness [0, 0, 0, 0, 0, 0, 0, 0]
  /** `Block64`: 64 bytes */
  type Bytes64 = s: seq<u8> | |s| == 64 witness seq(64, _ => 0)

  /** The `std::runtime_error`s the generator throws. */
  datatype Error =
    | Exhausted          // "key/nonce pair exhausted": the block counter wrapped to 0
    | CounterOverflow    // "block_counter overflow during discard"
    | BadMagic           // "invalid or corrupted stream (bad magic)"
    | BadVersion         // "unsupported version"
    | BadIndex           // "corrupted word_index" (also a stream that ends before the index)
    | ReadError          // "stream read error during deserialization"
    | MidBlockAtZero     // "cannot restore mid-block state at block_counter == 0"

  datatype Result<T> = Ok(value: T) | Err(error: Error)

  /** Word `p` of the keystream: word `p % 8` of block `p / 8`. */
  function Keystream(render: (Key, Nonce, u64) -> Block, key: Key, nonce: Nonce, p: nat): u64
    requires p < LIMIT
  {
    render(key, nonce, p / BUFFER_SIZE)[p % BUFFER_SIZE]
  }

  /** The keystream from word `p` to its end. */
  function AheadOf(render: (Key, Nonce, u64) -> Block, key: Key, nonce: Nonce, p: nat): (ws: seq<u64>)
    requires p <= LIMIT
    ensures |ws| == LIMIT - p
    ensures forall i :: 0 <= i < |ws| ==> ws[i] == Keystream(render, key, nonce, p + i)
  {
    seq(LIMIT - p, (i: int) requires 0 <= i < LIMIT - p => KeystreamAfter(render, key, nonce, p, i))
  }

  function KeystreamAfter(render: (Key, Nonce, u64) -> Block, key: Key, nonce: Nonce, p: nat, i: nat): u64
    requires p + i < LIMIT
  {
    Keystream(render, key, nonce, p + i)
  }

  /** The keystream position of the next word handed out: the buffered word `index` of
      block `counter - 1`, or the first word of block `counter` when the buffer is spent. */
  function PosOf(counter: u64, index: nat): (p: nat)
    requires index <= BUFFER_SIZE && (index < BUFFER_SIZE ==> counter >= 1)
    ensures p <= LIMIT
  {
    if index < BUFFER_SIZE then BUFFER_SIZE * (counter - 1) + index else BUFFER_SIZE * counter
  }

  /** The block and the word within it that a position names. */
  lemma PosBlock(counter: u64, index: nat)
    requires index <= BUFFER_SIZE && (index < BUFFER_SIZE ==> counter >= 1)
    ensures PosOf(counter, index) / BUFFER_SIZE == (if index < BUFFER_SIZE then counter - 1 else counter)
    ensures PosOf(counter, index) % BUFFER_SIZE == index % BUFFER_SIZE
  {
    if index < BUFFER_SIZE {
      BlockOf(counter - 1, index);
    } else {
      BlockOf(counter, 0);
    }
  }

  lemma BlockOf(c: nat, w: nat)
    requires w < BUFFER_SIZE
    ensures (BUFFER_SIZE * c + w) / BUFFER_SIZE == c && (BUFFER_SIZE * c + w) % BUFFER_SIZE == w
  {
    DivModUnique(BUFFER_SIZE * c + w, BUFFER_SIZE, c, w);
  }

  /** `fill` has to ask for one more word while bytes are left. */
  lemma ChunksLeft(n: nat, used: nat, size: nat)
    requires n == 8 * used + size && size > 0
    ensures (n + 7) / 8 > used
  {
    var q := (n + 7) / 8;
    assert n + 7 == 8 * q + (n + 7) % 8;
  }

  /** One more chunk of `fill`: the bytes of the first `n` words, then the low `len` bytes
      of word `n`, are the first `8 * n + len` bytes of the first `n + 1` words. */
  lemma FillStep(ws: seq<u64>, n: nat, xs: seq<u8>, len: nat)
    requires n < |ws| && len <= 8 && 8 * n + len <= |xs|
    ensures Splice(Splice(xs, 0, WordsBytes(ws[..n])), 8 * n, WordBytes(ws[n])[..len])
      == Splice(xs, 0, WordsBytes(ws[..n + 1])[..8 * n + len])
    ensures len == 8 ==> WordsBytes(ws[..n + 1])[..8 * n + len] == WordsBytes(ws[..n + 1])
  {
    assert ws[..n + 1] == ws[..n] + [ws[n]];
    WordsBytesAppend(ws[..n], [ws[n]]);
    assert WordsBytes([ws[n]]) == WordBytes(ws[n]) + WordsBytes([]);
    SpliceAppend(xs, WordsBytes(ws[..n]), WordBytes(ws[n]), len);
  }

  /** The copy of one chunk in `fill`: the low `len` bytes of word `n` of `ws` land right
      behind the bytes of the first `n` words. */
  method PutWord(data: array<u8>, ptr: nat, len: nat, w: u64, ghost xs: seq<u8>, ghost ws: seq<u64>, ghost n: nat)
    requires 0 < len <= 8 && ptr == 8 * n && ptr + len <= data.Length && |xs| == data.Length
    requires n < |ws| && w == ws[n] && data[..] == Splice(xs, 0, WordsBytes(ws[..n]))
    modifies data
    ensures data[..] == Splice(xs, 0, WordsBytes(ws[..n + 1])[..ptr + len])
  {
    CopyBytes(data, ptr, WordBytes(w)[..len]);
    FillStep(ws, n, xs, len);
  }

  // ---------------------------------------------------------------------------
  // Serialization: `operator<<` and `operator>>` over a byte sequence
  // ---------------------------------------------------------------------------

  /** "csprng" padded with zero bytes to 8, as the encoder writes it */
  const MAGIC: seq<u8> := [0x63, 0x73, 0x70, 0x72, 0x6e, 0x67, 0, 0]
  const VERSION: u8 := 1
  const ENCODED_SIZE: nat := 65

  /** What the 65 bytes carry: key, nonce, block counter and word index. */
  datatype Snapshot = Snapshot(key: Key, nonce: Nonce, counter: u64, index: nat)

  /** A snapshot the decoder accepts: an index of at most 8, and a rendered block to come
      back to when the index is below 8. */
  predicate Restorable(s: Snapshot)
  {
    s.index <= BUFFER_SIZE && (s.index < BUFFER_SIZE ==> s.counter >= 1)
  }

  /** `operator<<`: magic (8), version (1), key (32), nonce (8), counter (8, little-endian),
      word index (1) and seven zero bytes of padding. */
  function Encode(s: Snapshot): (bs: seq<u8>)
    requires s.index <= BUFFER_SIZE
    ensures |bs| == ENCODED_SIZE
  {
    MAGIC + [VERSION] + Words32Bytes(s.key) + Words32Bytes(s.nonce) + WordBytes(s.counter)
      + [s.index] + seq(7, _ => 0)
  }

  /** The checks of `operator>>` in the order it makes them. A read that runs past the end
      of the bytes fails the stream; the next check that looks at the stream reports it. */
  function Decode(bs: seq<u8>): (r: Result<Snapshot>)
    ensures r.Ok? ==> |bs| >= ENCODED_SIZE && Restorable(r.value)
  {
    if |bs| < 8 || bs[..8] != MAGIC then Err(BadMagic)
    else if |bs| < 9 || bs[8] != VERSION then Err(BadVersion)
    else if |bs| < 58 || bs[57] > BUFFER_SIZE then Err(BadIndex)
    else if |bs| < ENCODED_SIZE then Err(ReadError)
    else if bs[57] < BUFFER_SIZE && ReadWord(bs[49..57]) == 0 then Err(MidBlockAtZero)
    else Ok(Snapshot(Words32Of(bs[9..41]), Words32Of(bs[41..49]), ReadWord(bs[49..57]), bs[57]))
  }

  /** Decoding an encoding gives the snapshot back, unless it is a mid-block state at
      counter 0, which the decoder refuses. */
  lemma DecodeEncode(s: Snapshot)
    requires s.index <= BUFFER_SIZE
    ensures Decode(Encode(s)) == if Restorable(s) then Ok(s) else Err(MidBlockAtZero)
  {
    var bs := Encode(s);
    assert bs[..8] == MAGIC;
    assert bs[8] == VERSION;
    assert bs[9..41] == Words32Bytes(s.key);
    assert bs[41..49] == Words32Bytes(s.nonce);
    assert bs[49..57] == WordBytes(s.counter);
    assert bs[57] == s.index;
    Words32RoundTrip(s.key);
    Words32RoundTrip(s.nonce);
    var c := ReadWord(bs[49..57]);
    LeValueOfBytes(s.counter, 8);
    assert c == s.counter;
  }

  /** Whatever the decoder accepts is an encoding, up to the padding it skips. */
  lemma EncodeDecode(bs: seq<u8>)
    requires Decode(bs).Ok?
    ensures Encode(Decode(bs).value) == bs[..58] + seq(7, _ => 0)
  {
    var s := Decode(bs).value;
    Words32BytesOf(bs[9..41]);
    Words32BytesOf(bs[41..49]);
    assert bs[..58] == bs[..8] + [bs[8]] + bs[9..41] + bs[41..49] + bs[49..57] + [bs[57]];
  }

  /** The magic as the decoder compares it: `memcmp(magic, "csprng", 8)` reads 8 bytes of
      a 7-byte literal, so its last byte is whatever follows the literal in memory,
      `past` here. */
  predicate MagicMatchesAsWritten(bs: seq<u8>, past: u8)
  {
    |bs| >= 8 && bs[..8] == [0x63, 0x73, 0x70, 0x72, 0x6e, 0x67, 0, past]
  }

  /** When that byte is not zero, the decoder as written rejects every encoding the
      encoder writes. */
  lemma OwnEncodingRejectedAsWritten(s: Snapshot, past: u8)
    requires s.index <= BUFFER_SIZE && past != 0
    ensures !MagicMatchesAsWritten(Encode(s), past)
  {
    assert Encode(s)[..8][7] == 0;
  }

  /** `Take(bs, at, n)`: the bytes a read of `n` bytes at offset `at` gets, fewer at the end. */
  function Take(bs: seq<u8>, at: nat, n: nat): (got: seq<u8>)
    ensures |got| <= n
    ensures at + n <= |bs| ==> got == bs[at..at + n]
  {
    var i := if at <= |bs| then at else |bs|;
    var j := if at + n <= |bs| then at + n else |bs|;
    bs[i..j]
  }

  /** The bytes of an object after a read into it: what was read, then the old rest. */
  function Overwrite(before: seq<u8>, got: seq<u8>): (after: seq<u8>)
    requires |got| <= |before|
    ensures |after| == |before|
    ensures |got| == |before| ==> after == got
  {
    got + before[|got|..]
  }

  // ---------------------------------------------------------------------------
  // The generator
  // ---------------------------------------------------------------------------

  class Csprng {
    var key: Key
    var nonce: Nonce
    var blockCounter: u64
    const buffer: array<u64>
    var wordIndex: nat
    /** The ChaCha20 block function: the eight words of block `c` under key and nonce. */
    const render: (Key, Nonce, u64) -> Block

    ghost predicate Valid()
      reads this
    {
      buffer.Length == BUFFER_SIZE && wordIndex <= BUFFER_SIZE
    }

    /** The invariant of the generator: an unspent buffer holds the block before
        `block_counter`. */
    ghost predicate Consistent()
      reads this, buffer
    {
      Valid()
      && (wordIndex < BUFFER_SIZE ==> blockCounter >= 1 && buffer[..] == render(key, nonce, blockCounter - 1))
    }

    /** The keystream position of the next word. */
    function Pos(): (p: nat)
      requires Consistent()
      reads this, buffer
      ensures p <= LIMIT
    {
      PosOf(blockCounter, wordIndex)
    }

    /** Everything the generator has left to hand out. */
    ghost function Ahead(): (ws: seq<u64>)
      requires Consistent()
      reads this, buffer
      ensures |ws| == LIMIT - Pos()
    {
      AheadOf(render, key, nonce, Pos())
    }

    function Snap(): Snapshot
      reads this
    {
      Snapshot(key, nonce, blockCounter, wordIndex)
    }

    /** `csprng(k, n, initial_counter)`: one block primed, so the stream starts at block
        `initial_counter`. With `initial_counter == 2^64 - 1` the priming refill wraps the
        counter and throws; the state it leaves is stated. */
    constructor (k: Key, n: Nonce, initialCounter: u64, render: (Key, Nonce, u64) -> Block)
      ensures Valid() && this.render == render && key == k && nonce == n && wordIndex == 0
      ensures blockCounter == Add64(initialCounter, 1)
      ensures buffer[..] == render(k, n, initialCounter)
      ensures initialCounter < MAX64 ==> Consistent() && Pos() == BUFFER_SIZE * initialCounter
    {
      key, nonce, blockCounter := k, n, initialCounter;
      buffer := new u64[BUFFER_SIZE](_ => 0);
      wordIndex := BUFFER_SIZE;
      this.render := render;
      new;
      var status := Refill();
      BlockOf(initialCounter, 0);
    }

    /** `csprng(const Block64&)`: key and nonce are bytes 0 .. 31 and 32 .. 39 of the
        permuted seed block; the counter starts at 0 and one block is primed. */
    constructor FromSeedBlock(block: Bytes64, permute: Bytes64 -> Bytes64, render: (Key, Nonce, u64) -> Block)
      ensures Consistent() && this.render == render
      ensures key == Words32Of(permute(block)[..32]) && nonce == Words32Of(permute(block)[32..40])
      ensures blockCounter == 1 && wordIndex == 0 && Pos() == 0
    {
      var temp := permute(block);
      key := Words32Of(temp[..32]);
      nonce := Words32Of(temp[32..40]);
      blockCounter := 0;
      buffer := new u64[BUFFER_SIZE](_ => 0);
      wordIndex := BUFFER_SIZE;
      this.render := render;
      new;
      var status := Refill();
    }

    /** `csprng()`: key and nonce are the 32 and 8 bytes the platform entropy source wrote
        into them; the counter starts at 0 and one block is primed. */
    constructor FromEntropy(keyBytes: seq<u8>, nonceBytes: seq<u8>, render: (Key, Nonce, u64) -> Block)
      requires |keyBytes| == 32 && |nonceBytes| == 8
      ensures Consistent() && this.render == render
      ensures key == Words32Of(keyBytes) && nonce == Words32Of(nonceBytes)
      ensures blockCounter == 1 && wordIndex == 0 && Pos() == 0
    {
      key := Words32Of(keyBytes);
      nonce := Words32Of(nonceBytes);
      blockCounter := 0;
      buffer := new u64[BUFFER_SIZE](_ => 0);
      wordIndex := BUFFER_SIZE;
      this.render := render;
      new;
      var status := Refill();
    }

    /** `csprng(const Block32&)`: the 32 seed bytes padded with 32 zero bytes, then as for
        a 64-byte seed block. */
    constructor FromShortSeed(block: seq<u8>, permute: Bytes64 -> Bytes64, render: (Key, Nonce, u64) -> Block)
      requires |block| == 32
      ensures Consistent() && this.render == render
      ensures key == Words32Of(permute(block + seq(32, _ => 0))[..32])
      ensures nonce == Words32Of(permute(block + seq(32, _ => 0))[32..40])
      ensures blockCounter == 1 && wordIndex == 0 && Pos() == 0
    {
      var temp := permute(block + seq(32, _ => 0));
      key := Words32Of(temp[..32]);
      nonce := Words32Of(temp[32..40]);
      blockCounter := 0;
      buffer := new u64[BUFFER_SIZE](_ => 0);
      wordIndex := BUFFER_SIZE;
      this.render := render;
      new;
      var status := Refill();
    }

    /** `refill_buffer()`: render block `block_counter`, reset the cursor, `++block_counter`;
        a counter that wraps to 0 throws after the block is rendered. */
    method Refill() returns (r: Result<()>)
      requires Valid()
      modifies this, buffer
      ensures Valid() && key == old(key) && nonce == old(nonce) && wordIndex == 0
      ensures buffer[..] == render(key, nonce, old(blockCounter))
      ensures blockCounter == Add64(old(blockCounter), 1)
      ensures r.Ok? <==> old(blockCounter) < MAX64
      ensures r.Err? ==> r.error == Exhausted
      ensures r.Ok? ==> Consistent()
    {
      var block := render(key, nonce, blockCounter);
      forall i | 0 <= i < BUFFER_SIZE {
        buffer[i] := block[i];
      }
      assert buffer[..] == block;
      wordIndex := 0;
      blockCounter := Add64(blockCounter, 1);
      if blockCounter == 0 {
        return Err(Exhausted);
      }
      return Ok(());
    }

    /** `operator()`: the next keystream word, refilling a spent buffer first. It fails
        exactly when the keystream is used up. */
    method Next() returns (r: Result<u64>)
      requires Consistent()
      modifies this, buffer
      ensures Valid() && key == old(key) && nonce == old(nonce)
      ensures r.Ok? <==> old(Pos()) < LIMIT
      ensures r.Ok? ==> (Consistent() && Pos() == old(Pos()) + 1
        && r.value == Keystream(render, key, nonce, old(Pos())))
      ensures r.Err? ==> (r == Err(Exhausted) && blockCounter == 0 && wordIndex == 0
        && buffer[..] == render(key, nonce, MAX64))
    {
      if wordIndex >= BUFFER_SIZE {
        var status := Refill();
        if status.Err? {
          return Err(status.error);
        }
      }
      BlockOf(blockCounter - 1, wordIndex);
      r := Ok(buffer[wordIndex]);
      wordIndex := wordIndex + 1;
      BlockOf(blockCounter - 1, wordIndex % BUFFER_SIZE);
    }

    /** `draw32()`: the low 32 bits of the next word. */
    method Draw32() returns (r: Result<u32>)
      requires Consistent()
      modifies this, buffer
      ensures Valid() && key == old(key) && nonce == old(nonce)
      ensures r.Ok? <==> old(Pos()) < LIMIT
      ensures r.Ok? ==> (Consistent() && Pos() == old(Pos()) + 1
        && r.value == Keystream(render, key, nonce, old(Pos())) % TWO32)
      ensures r.Err? ==> r.error == Exhausted
    {
      var w := Next();
      if w.Err? {
        return Err(w.error);
      }
      return Ok(w.value % TWO32);
    }

    /** `discard(n)`: the buffered words first; past them `block_counter += full` for the
        whole blocks skipped (refused when the counter would pass 2^64 - 1, after the
        buffer has already been marked spent), then a refill and the cursor on the
        remainder when there is one. A zero remainder leaves the buffer spent. The
        position moves on by `n` exactly when `n` calls of `operator()` would succeed. */
    method Discard(n: u64) returns (r: Result<()>)
      requires Consistent()
      modifies this, buffer
      ensures Valid() && key == old(key) && nonce == old(nonce)
      ensures r.Ok? <==> old(Pos()) + n <= LIMIT
      ensures r.Ok? ==> Consistent() && Pos() == old(Pos()) + n
      ensures n < BUFFER_SIZE - old(wordIndex) ==>
        wordIndex == old(wordIndex) + n && blockCounter == old(blockCounter) && buffer[..] == old(buffer[..])
      ensures n >= BUFFER_SIZE - old(wordIndex) && (n - (BUFFER_SIZE - old(wordIndex))) % BUFFER_SIZE == 0 ==>
        wordIndex == BUFFER_SIZE && buffer[..] == old(buffer[..])
      ensures r == Err(CounterOverflow) <==> (n >= BUFFER_SIZE - old(wordIndex)
        && old(blockCounter) + (n - (BUFFER_SIZE - old(wordIndex))) / BUFFER_SIZE > MAX64)
      ensures r == Err(CounterOverflow) ==> wordIndex == BUFFER_SIZE && blockCounter == old(blockCounter)
      ensures r == Err(Exhausted) ==> blockCounter == 0 && wordIndex == 0
    {
      if n == 0 {
        return Ok(());
      }
      var remaining := BUFFER_SIZE - wordIndex;
      if n < remaining {
        wordIndex := wordIndex + n;
        return Ok(());
      }
      wordIndex := BUFFER_SIZE;
      r := SkipBlocks(n - remaining);
    }

    /** The part of `discard` past the buffered words, from a spent buffer: skip whole
        blocks by the counter, then render the block of the remainder, if any. */
    method SkipBlocks(m: u64) returns (r: Result<()>)
      requires Consistent() && wordIndex == BUFFER_SIZE
      modifies this, buffer
      ensures Valid() && key == old(key) && nonce == old(nonce)
      ensures r.Ok? <==> old(Pos()) + m <= LIMIT
      ensures r.Ok? ==> Consistent() && Pos() == old(Pos()) + m
      ensures m % BUFFER_SIZE == 0 ==> wordIndex == BUFFER_SIZE && buffer[..] == old(buffer[..])
      ensures r == Err(CounterOverflow) <==> old(blockCounter) + m / BUFFER_SIZE > MAX64
      ensures r == Err(CounterOverflow) ==> wordIndex == BUFFER_SIZE && blockCounter == old(blockCounter)
      ensures r == Err(Exhausted) ==> blockCounter == 0 && wordIndex == 0
    {
      ghost var c0 := blockCounter;
      var full, rest := m / BUFFER_SIZE, m % BUFFER_SIZE;
      assert Pos() + m == BUFFER_SIZE * (c0 + full) + rest;
      if full > 0 {
        if blockCounter > MAX64 - full {
          return Err(CounterOverflow);
        }
        blockCounter := blockCounter + full;
      }
      if rest != 0 {
        var status := Refill();
        if status.Err? {
          return Err(status.error);
        }
        wordIndex := rest;
        Add64NoWrap(c0 + full, 1);
        BlockOf(c0 + full, rest);
        assert Pos() == BUFFER_SIZE * (c0 + full) + rest;
      }
      r := Ok(());
    }

    /** `jump()`: `discard(2^32)` */
    method Jump() returns (r: Result<()>)
      requires Consistent()
      modifies this, buffer
      ensures Valid() && key == old(key) && nonce == old(nonce)
      ensures r.Ok? <==> old(Pos()) + TWO32 <= LIMIT
      ensures r.Ok? ==> Consistent() && Pos() == old(Pos()) + TWO32
    {
      r := Discard(TWO32);
    }

    /** `long_jump()`: `discard(2^48)` */
    method LongJump() returns (r: Result<()>)
      requires Consistent()
      modifies this, buffer
      ensures Valid() && key == old(key) && nonce == old(nonce)
      ensures r.Ok? <==> old(Pos()) + 0x1_0000_0000_0000 <= LIMIT
      ensures r.Ok? ==> Consistent() && Pos() == old(Pos()) + 0x1_0000_0000_0000
    {
      r := Discard(0x1_0000_0000_0000);
    }

    /** `reseed(k, n)`: the new key and nonce from block 0, one block primed. */
    method Reseed(k: Key, n: Nonce)
      requires Valid()
      modifies this, buffer
      ensures Consistent() && key == k && nonce == n
      ensures blockCounter == 1 && wordIndex == 0 && Pos() == 0
    {
      key, nonce := k, n;
      blockCounter := 0;
      var status := Refill();
    }

    /** `unbiased(lo, hi)`: Lemire's sampler on the words `operator()` hands out: the
        result, and the number of words used, are those of `Lemire.Sample` on the rest of
        the keystream. The result lies in `[lo, hi]` whichever order the bounds came in. */
    method Unbiased(lo: u64, hi: u64) returns (r: Result<u64>)
      requires Consistent()
      modifies this, buffer
      ensures key == old(key) && nonce == old(nonce)
      ensures r.Ok? <==> Lemire.Sample(lo, hi, old(Ahead())).Sampled?
      ensures r.Ok? ==> (Consistent() && r.value == Lemire.Sample(lo, hi, old(Ahead())).value
        && Pos() == old(Pos()) + Lemire.Sample(lo, hi, old(Ahead())).used)
      ensures r.Ok? ==> Lemire.Lower(lo, hi) <= r.value <= Lemire.Upper(lo, hi)
      ensures r.Err? ==> r.error == Exhausted
    {
      ghost var draws, p0 := Ahead(), Pos();
      Lemire.SampleInRange(lo, hi, draws);
      var a, b := lo, hi;
      if a > b {
        a, b := b, a;
      }
      assert a == Lemire.Lower(lo, hi) && b == Lemire.Upper(lo, hi);
      if a == b {
        return Ok(a);
      }
      var range := Lemire.Range(a, b);
      if range == 0 {
        r := Next();
        return;
      }
      var x := Next();
      if x.Err? {
        return Err(x.error);
      }
      var p := Umul128(x.value, range);
      if p.lo < range {
        r := Redraws(a, range, p, draws, p0);
      } else {
        r := Ok(Add64(a, p.hi));
      }
    }

    /** The slow path of `unbiased`, once the low half of the first draw is below `range`:
        draw again while the low half is below the threshold. */
    method Redraws(a: u64, range: u64, first: U128, ghost draws: seq<u64>, ghost p0: nat) returns (r: Result<u64>)
      requires Consistent() && range > 0 && 1 <= |draws| && p0 + |draws| == LIMIT && Pos() == p0 + 1
      requires forall j :: 0 <= j < |draws| ==> draws[j] == Keystream(render, key, nonce, p0 + j)
      requires first == Umul128(draws[0], range)
      modifies this, buffer
      ensures key == old(key) && nonce == old(nonce)
      ensures first.lo < Lemire.Threshold(range) ==>
        (r.Ok? <==> Lemire.Redraw(a, range, draws, 1).Sampled?)
        && (r.Ok? ==> Consistent() && r.value == Lemire.Redraw(a, range, draws, 1).value
                      && Pos() == p0 + Lemire.Redraw(a, range, draws, 1).used)
      ensures first.lo >= Lemire.Threshold(range) ==>
        r == Ok(Lemire.Scale(a, draws[0], range)) && Consistent() && Pos() == p0 + 1
      ensures r.Err? ==> r.error == Exhausted
    {
      var t := Lemire.Threshold(range);
      if first.lo < t {
        r := RedrawLoop(a, range, t, first, draws, p0);
      } else {
        // the loop below the threshold test is not entered
        r := Ok(Add64(a, first.hi));
      }
    }

    /** The loop of `unbiased` once it is entered: draw again until the low half reaches
        the threshold `t`. */
    method RedrawLoop(a: u64, range: u64, t: u64, first: U128, ghost draws: seq<u64>, ghost p0: nat)
      returns (r: Result<u64>)
      requires Consistent() && range > 0 && t == Lemire.Threshold(range)
      requires 1 <= |draws| && p0 + |draws| == LIMIT && Pos() == p0 + 1
      requires forall j :: 0 <= j < |draws| ==> draws[j] == Keystream(render, key, nonce, p0 + j)
      requires first == Umul128(draws[0], range) && first.lo < t
      modifies this, buffer
      ensures key == old(key) && nonce == old(nonce)
      ensures r.Ok? <==> Lemire.Redraw(a, range, draws, 1).Sampled?
      ensures r.Ok? ==> (Consistent() && r.value == Lemire.Redraw(a, range, draws, 1).value
        && Pos() == p0 + Lemire.Redraw(a, range, draws, 1).used)
      ensures r.Err? ==> r.error == Exhausted
    {
      var p := first;
      ghost var i := 1;
      while p.lo < t
        invariant Consistent() && key == old(key) && nonce == old(nonce)
        invariant 1 <= i <= |draws|
        invariant Pos() == p0 + i
        invariant p == Umul128(draws[i - 1], range)
        invariant p.lo < t ==> Lemire.Redraw(a, range, draws, 1) == Lemire.Redraw(a, range, draws, i)
        invariant p.lo >= t ==>
          Lemire.Redraw(a, range, draws, 1) == Lemire.Sampled(Lemire.Scale(a, draws[i - 1], range), i)
        decreases |draws| - i
      {
        ghost var q := Pos();
        var y := Next();
        if y.Err? {
          return Err(y.error);
        }
        assert y.value == Keystream(render, key, nonce, q);
        assert q == p0 + i;
        assert y.value == draws[i];
        p := Umul128(y.value, range);
        i := i + 1;
      }
      r := Ok(Add64(a, p.hi));
    }

    /** `fill(data)`: whole 8-byte chunks take one `operator()` each, a final partial chunk
        one more, of which the low bytes are kept. The bytes are the little-endian words of
        the next `ceil(n / 8)` keystream words, cut to `n`; the buffer is used as is. */
    method Fill(data: array<u8>) returns (r: Result<()>)
      requires Consistent()
      modifies this, buffer, data
      ensures key == old(key) && nonce == old(nonce)
      ensures r.Ok? <==> old(Pos()) + (data.Length + 7) / 8 <= LIMIT
      ensures r.Ok? ==> (Consistent() && Pos() == old(Pos()) + (data.Length + 7) / 8
        && data[..] == WordsBytes(old(Ahead())[..(data.Length + 7) / 8])[..data.Length])
      ensures r.Err? ==> r.error == Exhausted
    {
      ghost var d0, draws, p0 := data[..], Ahead(), Pos();
      var ptr, size := 0, data.Length;
      ghost var used := 0;
      while size >= 8
        invariant Consistent() && key == old(key) && nonce == old(nonce)
        invariant draws == AheadOf(render, key, nonce, p0)
        invariant 0 <= size && ptr + size == data.Length && ptr == 8 * used
        invariant used <= |draws| && Pos() == p0 + used
        invariant data[..] == Splice(d0, 0, WordsBytes(draws[..used]))
      {
        ChunksLeft(data.Length, used, size);
        r := FillChunk(data, ptr, 8, d0, draws, p0, used);
        if r.Err? {
          return;
        }
        FillStep(draws, used, d0, 8);
        used, ptr, size := used + 1, ptr + 8, size - 8;
      }
      r := FillTail(data, ptr, size, d0, draws, p0, used);
    }

    /** The end of `fill`: the final partial chunk, if any. */
    method FillTail(data: array<u8>, ptr: nat, size: nat, ghost d0: seq<u8>, ghost draws: seq<u64>,
                    ghost p0: nat, ghost used: nat) returns (r: Result<()>)
      requires Consistent() && size < 8 && ptr == 8 * used && ptr + size == data.Length
      requires |d0| == data.Length && p0 <= LIMIT && draws == AheadOf(render, key, nonce, p0)
      requires used <= |draws| && Pos() == p0 + used && data[..] == Splice(d0, 0, WordsBytes(draws[..used]))
      modifies this, buffer, data
      ensures key == old(key) && nonce == old(nonce)
      ensures r.Ok? <==> p0 + (data.Length + 7) / 8 <= LIMIT
      ensures r.Ok? ==> (Consistent() && Pos() == p0 + (data.Length + 7) / 8
        && data[..] == WordsBytes(draws[..(data.Length + 7) / 8])[..data.Length])
      ensures r.Err? ==> r.error == Exhausted
    {
      RandomDevice.ChunkCount(data.Length, used, size);
      if size > 0 {
        r := FillChunk(data, ptr, size, d0, draws, p0, used);
        if r.Err? {
          return;
        }
        SpliceFront(d0, WordsBytes(draws[..used + 1])[..ptr + size]);
      } else {
        SpliceFront(d0, WordsBytes(draws[..used]));
      }
      return Ok(());
    }

    /** One chunk of `fill`: the next word, of which the low `len` bytes go to
        `data[ptr..ptr + len]`. */
    method FillChunk(data: array<u8>, ptr: nat, len: nat, ghost d0: seq<u8>, ghost draws: seq<u64>,
                     ghost p0: nat, ghost used: nat) returns (r: Result<()>)
      requires Consistent() && 0 < len <= 8 && ptr == 8 * used && ptr + len <= data.Length
      requires |d0| == data.Length && p0 <= LIMIT && draws == AheadOf(render, key, nonce, p0)
      requires Pos() == p0 + used && data[..] == Splice(d0, 0, WordsBytes(draws[..used]))
      modifies this, buffer, data
      ensures key == old(key) && nonce == old(nonce)
      ensures r.Ok? <==> used < |draws|
      ensures r.Ok? ==> (Consistent() && Pos() == p0 + used + 1
        && data[..] == Splice(d0, 0, WordsBytes(draws[..used + 1])[..ptr + len]))
      ensures r.Err? ==> r.error == Exhausted
    {
      var z := Next();
      if z.Err? {
        return Err(z.error);
      }
      PutWord(data, ptr, len, z.value, d0, draws, used);
      return Ok(());
    }

    /** `operator==`: the key words are compared without an early exit (their xors are
        or-ed together), then nonce, counter and index; the buffers only when the index
        says the buffer is live. */
    method Equals(other: Csprng) returns (r: bool)
      requires Valid() && other.Valid()
      ensures r <==> (key == other.key && nonce == other.nonce && blockCounter == other.blockCounter
        && wordIndex == other.wordIndex && (wordIndex < BUFFER_SIZE ==> buffer[..] == other.buffer[..]))
    {
      var keyDiff: u32 := 0;
      for i := 0 to 8
        invariant keyDiff == 0 <==> key[..i] == other.key[..i]
      {
        assert key[..i + 1] == key[..i] + [key[i]] && other.key[..i + 1] == other.key[..i] + [other.key[i]];
        keyDiff := Or32(keyDiff, Xor32(key[i], other.key[i]));
      }
      assert key[..8] == key && other.key[..8] == other.key;
      var stateMatch := nonce == other.nonce && blockCounter == other.blockCounter && wordIndex == other.wordIndex;
      if keyDiff != 0 || !stateMatch {
        return false;
      }
      if wordIndex < BUFFER_SIZE {
        var bufferDiff: u64 := 0;
        for i := 0 to BUFFER_SIZE
          invariant bufferDiff == 0 <==> buffer[..i] == other.buffer[..i]
        {
          assert buffer[..i + 1] == buffer[..i] + [buffer[i]];
          assert other.buffer[..i + 1] == other.buffer[..i] + [other.buffer[i]];
          Xor64Zero(buffer[i], other.buffer[i]);
          bufferDiff := Or64(bufferDiff, Xor64(buffer[i], other.buffer[i]));
        }
        assert buffer[..BUFFER_SIZE] == buffer[..] && other.buffer[..BUFFER_SIZE] == other.buffer[..];
        return bufferDiff == 0;
      }
      return true;
    }

    /** `operator<<` */
    function Serialize(): (bs: seq<u8>)
      requires Valid()
      reads this
      ensures |bs| == ENCODED_SIZE
      ensures Decode(bs) == if Restorable(Snap()) then Ok(Snap()) else Err(MidBlockAtZero)
    {
      DecodeEncode(Snap());
      Encode(Snap())
    }

    /** `operator>>`: the fields are read one after another into the generator, each
        check made where the source makes it; a live buffer is regenerated by rendering
        block `counter - 1`. Errors in the header leave the generator as it was; later
        errors leave what had been read so far. */
    method Restore(bs: seq<u8>) returns (r: Result<()>)
      requires Valid()
      modifies this, buffer
      ensures Valid()
      ensures r.Ok? <==> Decode(bs).Ok?
      ensures r.Err? ==> r.error == Decode(bs).error
      ensures r.Ok? ==> Consistent() && Snap() == Decode(bs).value
      ensures r.Err? && r.error in {BadMagic, BadVersion} ==>
        Snap() == old(Snap()) && buffer[..] == old(buffer[..])
      ensures r.Err? && |bs| >= 57 && r.error !in {BadMagic, BadVersion} ==>
        key == Words32Of(bs[9..41]) && nonce == Words32Of(bs[41..49]) && blockCounter == ReadWord(bs[49..57])
      ensures r.Err? && r.error == BadIndex ==> wordIndex == old(wordIndex) && buffer[..] == old(buffer[..])
      ensures r.Err? && r.error in {ReadError, MidBlockAtZero} ==>
        wordIndex == bs[57] && buffer[..] == old(buffer[..])
    {
      if |bs| < 8 || bs[..8] != MAGIC {
        assert Decode(bs) == Err(BadMagic);
        return Err(BadMagic);
      }
      if |bs| < 9 || bs[8] != VERSION {
        assert Decode(bs) == Err(BadVersion);
        return Err(BadVersion);
      }
      var keyBytes := Take(bs, 9, 32);
      key := Words32Of(Overwrite(Words32Bytes(key), keyBytes));
      var nonceBytes := Take(bs, 41, 8);
      nonce := Words32Of(Overwrite(Words32Bytes(nonce), nonceBytes));
      var counterBytes := Take(bs, 49, 8);
      blockCounter := ReadWord(Overwrite(WordBytes(blockCounter), counterBytes));
      assert |bs| >= 57 ==>
        key == Words32Of(bs[9..41]) && nonce == Words32Of(bs[41..49]) && blockCounter == ReadWord(bs[49..57]);
      if |bs| < 58 || bs[57] > BUFFER_SIZE {
        assert Decode(bs) == Err(BadIndex);
        return Err(BadIndex);
      }
      var idx := bs[57];
      wordIndex := idx;
      if |bs| < ENCODED_SIZE {
        assert Decode(bs) == Err(ReadError);
        return Err(ReadError);
      }
      ghost var s := Snapshot(key, nonce, blockCounter, idx);
      if wordIndex < BUFFER_SIZE {
        var saved := blockCounter;
        if saved == 0 {
          assert Decode(bs) == Err(MidBlockAtZero);
          return Err(MidBlockAtZero);
        }
        LoadBlock(saved, idx);
      }
      assert Decode(bs) == Ok(s);
      return Ok(());
    }

    /** The end of `operator>>` for a live buffer: block `counter - 1` is rendered into the
        buffer (by a refill from the counter less one), then counter and index are set. */
    method LoadBlock(saved: u64, idx: nat)
      requires Valid() && saved >= 1 && idx < BUFFER_SIZE
      modifies this, buffer
      ensures Consistent() && key == old(key) && nonce == old(nonce)
      ensures blockCounter == saved && wordIndex == idx
    {
      blockCounter := saved - 1;
      var status := Refill();
      blockCounter := saved;
      wordIndex := idx;
    }
  }

  // ---------------------------------------------------------------------------
  // Properties
  // ---------------------------------------------------------------------------

  /** Under the invariant the buffer comparison of `operator==` decides nothing: equal key,
      nonce, counter and index already fix the live buffer. */
  lemma BufferFollowsState(a: Csprng, b: Csprng)
    requires a.Consistent() && b.Consistent() && a.render == b.render
    requires a.key == b.key && a.nonce == b.nonce && a.blockCounter == b.blockCounter && a.wordIndex == b.wordIndex
    ensures a.wordIndex < BUFFER_SIZE ==> a.buffer[..] == b.buffer[..]
  {
  }

  /** Generators that compare equal, and share the block function, have the same future. */
  lemma EqualGeneratorsAgree(a: Csprng, b: Csprng)
    requires a.Consistent() && b.Consistent() && a.render == b.render
    requires a.key == b.key && a.nonce == b.nonce && a.blockCounter == b.blockCounter && a.wordIndex == b.wordIndex
    ensures a.Pos() == b.Pos() && a.Ahead() == b.Ahead()
  {
  }

  /** A consistent generator always serializes to bytes the decoder accepts. */
  lemma ConsistentIsRestorable(g: Csprng)
    requires g.Consistent()
    ensures Restorable(g.Snap())
  {
  }
}
