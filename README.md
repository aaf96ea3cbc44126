# A verified model of the RNG engines

This project models the core of the `RNG` C++ header library in Dafny. The library is a family of
buffered random engines: a 1024-bit counter engine (`Nasam1024`), a ChaCha20 keystream generator
(`csprng`), a buffered wyrand (`fast`), `wyrand`, `SplitMix64`, a front end to the platform entropy
source (`random_device`) and the 64 x 64 -> 128-bit multiply that they share. The model keeps the
library's fixed-width integer arithmetic and its buffer state machines. It proves what each operation
does to the state and to the stream of words the engine will hand out.

Modules, one per header:

- `Common` (common.h) holds the shared machinery.
  - Words are `u8`/`u32`/`u64` subset types of `int`. Wrapping addition and multiplication are written out modulo 2^64.
  - Shifts, rotations, xor and or are defined arithmetically, bit by bit.
  - `RNG::umul128` and `RNG::mul` are modelled as functions.
  - Little-endian byte layout is modelled explicitly. The library requires little-endian order, and `fill` and serialization rely on it.
  - `Splice` models `memcpy` into a byte array.
- `Umul128` (umul128.h) models `RNG_detail::umul128` and `mul`.
- `SplitMix`, `Wyrand`, `Fast`, `RandomDevice` and `Csprng` model one generator each.
  - Every generator whose fields change in place is a `class`.
  - Its methods are proved against a pure stream function: `Output(k)` is the word the k-th later call of `operator()` returns.
- `Lemire` is the reference definition of the unbiased range sampler used by `random_device::unbiased` and `csprng::unbiased`.
- `Counter` models `Counter_1024`.
  - It holds 16 limbs, least significant first.
  - `Value` reads the limbs as a number below 2^1024.
  - Every operation is stated as a change of `Value` modulo 2^1024.
- `NasamMix` is the `nasam` mixer.
- `Nasam` is the `Nasam1024` engine.

External inputs become parameters:

- **Platform entropy.** It is the sequence of bytes or words the constructor would have read.
- **`random_device::draw64()`.** An oracle `nat -> u64`, or a finite sequence of draws for `unbiased`.
- **The ChaCha20 block function.** It is not part of this model. It becomes the function-valued parameter `render(key, nonce, counter)` of eight words, stored in each `csprng`.
- **The seed-block permutation.** A parameter `permute` on 64 bytes.

## Model

| member | source | states |
|---|---|---|
| Common.Umul128 | common.h:51-60 | the returned low word and the stored high word rebuild the exact 128-bit product: `hi * 2^64 + lo == a * b` |
| Common.Mul | common.h:62-72 | the packed `u128` halves rebuild the exact product |
| Common.Umul128Halves | common.h:51-60 | the low half is `a * b mod 2^64` and the high half is `a * b div 2^64` |
| Common.MulMatchesUmul128 | common.h:62-72 | `RNG::mul(a, b)` and `RNG::umul128(a, b)` give the same halves on every input |
| Common.Umul128Symmetric | common.h:51-60 | the product halves do not depend on the order of the operands |
| Common.Umul128ByOne | common.h:51-60 | multiplying by one gives low word `a` and high word 0 |
| Common.LeValueOfBytes | common.h:26-28 | reading back the `n` little-endian bytes of a value below `256^n` gives the value |
| Common.LeBytesOfValue | common.h:26-28 | writing out the little-endian value of some bytes gives the same bytes |
| Common.Words32RoundTrip | common.h:26-28 | reading 32-bit words back from their in-memory bytes gives the words |
| Common.Words32BytesOf | common.h:26-28 | writing out the 32-bit words read from bytes gives the bytes back |
| Common.ReadWord | common.h:26-28 | the word read from eight bytes is the one whose little-endian bytes they are |
| Common.WordsBytesAppend | common.h:26-28 | the memory image of two word arrays laid end to end is the concatenation of their images |
| Common.CopyBytes | RNG_csprng.h:324-330 | `memcpy(x + p, bs, n)` leaves `bs` at offset `p` and every other byte of `x` as it was |
| Common.Xor64Zero | RNG_csprng.h:438-441 | a 64-bit xor is zero exactly when the two words are equal |
| Common.Xor32 | RNG_csprng.h:426-428 | a 32-bit xor is zero exactly when the two words are equal |
| Common.Or32 | RNG_csprng.h:426-434 | a 32-bit or is zero exactly when both operands are zero |
| Common.Or64 | RNG_csprng.h:438-441 | a 64-bit or is zero exactly when both operands are zero |
| Common.WeylJump | RNG_SplitMix64.h:49-52 | adding the wrapped product `k * inc` to the state is `k` steps of the wrapping sequence at once |
| Common.WeylAdd | RNG_SplitMix64.h:49-52 | `a` steps and then `b` more are `a + b` steps |
| Common.WeylWrap | RNG_SplitMix64.h:49-52 | the step count only matters modulo 2^64 |
| Umul128.Umul128 | umul128.h:30-42 | `hi * 2^64 + lo == a * b` exactly, with `lo == a * b mod 2^64` and `hi == a * b div 2^64` |
| Umul128.Mul | umul128.h:45-56 | the `u128` has the halves of `umul128(a, b)` and rebuilds the product |
| Umul128.AgreesWithCommon | umul128.h:30-42 | `RNG_detail::umul128` and `RNG::umul128` (common.h:51-60) agree on every input |
| Umul128.Symmetric | umul128.h:30-42 | `umul128(a, b) == umul128(b, a)` |
| Umul128.TimesOne | umul128.h:30-42 | `umul128(a, 1)` is low word `a` and high word 0 |
| SplitMix.SplitMix64.constructor | RNG_SplitMix64.h:38 | `SplitMix64(seed)` sets the state to the seed |
| SplitMix.Mix | RNG_SplitMix64.h:44-46 | the finaliser of `operator()`: xor-shift by 30, multiply by `MUL1`, xor-shift by 27, multiply by `MUL2`, xor-shift by 31, all modulo 2^64; it is what `KthOutput` applies to each state |
| SplitMix.SplitMix64.Deterministic | RNG_SplitMix64.h:41 | `SplitMix64(Deterministic, seed)` sets the state to the seed, so equal seeds give the same sequence |
| SplitMix.SplitMix64.FromEntropy | RNG_SplitMix64.h:27-35 | the state is the little-endian value of the eight entropy bytes |
| SplitMix.SplitMix64.Next | RNG_SplitMix64.h:42-47 | the state moves on by the increment `0x9e3779b97f4a7c15` modulo 2^64 and the result is the mix of the new state |
| SplitMix.SplitMix64.Discard | RNG_SplitMix64.h:49-52 | `discard(n)` adds `n` increments modulo 2^64 |
| SplitMix.StepsIsWeyl | RNG_SplitMix64.h:42-47 | `n` calls of `operator()` leave the seed plus `n` increments modulo 2^64 |
| SplitMix.DiscardIsSteps | RNG_SplitMix64.h:49-52 | `discard(n)` leaves the same state as `n` calls of `operator()` |
| SplitMix.KthOutput | RNG_SplitMix64.h:38-47 | the k-th output from seed `s` is the mix of `s + k * INCREMENT mod 2^64` |
| SplitMix.DiscardZero | RNG_SplitMix64.h:49-52 | `discard(0)` changes nothing |
| SplitMix.DiscardTwice | RNG_SplitMix64.h:49-52 | `discard(a)` then `discard(b)` is `discard((a + b) mod 2^64)` |
| Wyrand.Wyrand.constructor | RNG_wyrand.h:22-24 | the state is the seed, `0x2d358dccaa6c78a5` by default |
| Wyrand.Hash | RNG_wyrand.h:30-43 | the output of one advanced state `s`, `lo ^ hi ^ s` for the 128-bit product `s * (s ^ 0x8bb84b93962eacc9)`, maps the state 0 to 0; `Next` and `StreamShift` are stated through it |
| Wyrand.Wyrand.FromEntropy | RNG_wyrand.h:19-21 | the state is the little-endian value of the eight entropy bytes |
| Wyrand.Wyrand.Next | RNG_wyrand.h:26-44 | the state moves on by `0x2d358dccaa6c78a5` modulo 2^64. The result is the head of the stream (`lo ^ hi ^ s` for the product `s * (s ^ 0x8bb84b93962eacc9)` of the new state) and the stream left is its tail |
| Wyrand.StreamShift | RNG_wyrand.h:26-44 | `n` state increments move the stream `n` words on |
| Lemire.ThresholdFacts | RNG_random_device.h:177-189 | the threshold `(2^64 - range) mod range` equals `2^64 mod range` and is below `range`, so skipping the loop when the low half is at least `range` never keeps a rejected draw |
| Lemire.Sample | RNG_random_device.h:169-190 | the reference sampler on a draw sequence (bounds swapped into order, fast path, redraw loop, `lower_bound + h`) never uses more draws than there are, and uses none exactly when the bounds are equal; its other properties are the lemmas below |
| Lemire.Redraw | RNG_random_device.h:181-187 | the redraw loop, drawing from index `i` on, stops only at an accepted draw (low half not below the threshold), which lies after `i` and within the draws |
| Lemire.HighBelowRange | RNG_random_device.h:177-189 | the high half of `x * range` is below `range` |
| Lemire.RedrawFacts | RNG_random_device.h:177-189 | the redraw loop succeeds exactly when some later draw is accepted. It then returns the scaled FIRST accepted draw, and no draw before it is accepted |
| Lemire.SampleInRange | RNG_random_device.h:169-190 | the result always lies in the closed interval of the two bounds, in either order, and never uses more draws than there are |
| Lemire.ScaleInRange | RNG_random_device.h:189 | `lo + hi-half` neither wraps nor leaves `[lo, hi]` |
| Lemire.SampleDegenerate | RNG_random_device.h:171-175 | equal bounds give the bound with no draw. The full 64-bit range gives one raw draw. Swapped bounds give the same result |
| Lemire.SampleIsFirstAccepted | RNG_random_device.h:177-189 | otherwise the result is `lo + hi-half` of the first draw whose low half reaches the threshold, and there is a result exactly when such a draw exists |
| Lemire.RedrawPrefix | RNG_random_device.h:177-189 | extra words after the accepted draw change nothing |
| Lemire.SamplePrefix | RNG_random_device.h:169-190 | the sampler reads only the words it uses |
| RandomDevice.Equal | RNG_random_device.h:214 | any two devices compare equal |
| RandomDevice.Draws | RNG_random_device.h:161-165 | the first `n` words of the source, in order |
| RandomDevice.Unbiased | RNG_random_device.h:169-190 | the loop returns the Lemire sample of the words the source supplies, and so a value in `[lo, hi]` |
| RandomDevice.Fill | RNG_random_device.h:192-205 | filling `n` bytes makes `ceil(n / 8)` draws. The bytes are the little-endian draws, and the last partial chunk keeps its low bytes |
| RandomDevice.FillChunk | RNG_random_device.h:195-204 | one chunk: the low `len` bytes of the next draw land right behind the earlier chunks |
| RandomDevice.FillStep | RNG_random_device.h:195-204 | the earlier draws' bytes followed by the low `len` bytes of the next draw are the first `8 n + len` bytes of `n + 1` draws |
| RandomDevice.ChunkCount | RNG_random_device.h:192-205 | `8 c + r` bytes with `r < 8` take `c` draws, and one more when `r > 0` |
| Fast.Fast.FromEntropy | RNG_fast.h:100-103 | the counter is the entropy word and the buffer is spent, so the engine emits the wyrand stream of that word |
| Fast.Fast.constructor | RNG_fast.h:106-110 | the counter starts at `seed ^ 0x9e3779b97f4a7c15`; the priming refill leaves it eight increments further on, with the buffer full (index 0), and the engine emits the wyrand stream of `seed ^ 0x9e3779b97f4a7c15` |
| Fast.Fast.Refill | RNG_fast.h:272-283 | the buffer holds the outputs of the eight counter values after `state`. The counter moves on by eight increments and the index is 0 |
| Fast.Fast.Next | RNG_fast.h:140-146 | it refills only when the index is 8. The result is the head of the engine's future and what is left is its tail |
| Fast.Fast.Draw32 | RNG_fast.h:201-203 | the high 32 bits of the next word, which is then consumed |
| Fast.Fast.SeedWith | RNG_fast.h:127-129 | `seed(s)` replaces only the counter: the buffered words are still handed out first, then the stream of `s` |
| Fast.Fast.Bulk | RNG_fast.h:149-166 | whatever the buffer held, the bytes are the first `n` bytes of the wyrand stream of the counter. The counter moves `8 ceil(n / 64)` increments and the buffer is left spent |
| Fast.Fast.BulkWhole | RNG_fast.h:153-158 | the loop over whole 64-byte blocks writes the stream's bytes for those blocks |
| Fast.Fast.BulkRound | RNG_fast.h:153-163 | one block of `bulk`: the next eight stream words written behind the earlier blocks |
| Fast.Fast.BulkTail | RNG_fast.h:160-163 | the last partial block of `bulk` |
| Fast.Fast.RefillInto | RNG_fast.h:154-162 | `refill()` then `memcpy` of the first `len` bytes of the new block |
| Fast.Fast.Discard | RNG_fast.h:169-171 | `state += n * INC`, with buffer and index untouched. The buffered words still come out, then the stream continues `n` words further on (see Findings) |
| Fast.Fast.Jump | RNG_fast.h:263-265 | `discard(2^32)` |
| Fast.Fast.LongJump | RNG_fast.h:267-269 | `discard(2^48)` |
| Fast.Fast.Equals | RNG_fast.h:178-180 | equal exactly when the counters are |
| Fast.EqualSpentEnginesAgree | RNG_fast.h:178-180 | engines with equal counters and spent buffers have the same future |
| Fast.EmptyBufferIsWyrand | RNG_fast.h:272-283 | a `fast` with a spent buffer emits exactly the stream of a `wyrand` in the same state (RNG_wyrand.h:26-44) |
| Fast.RefilledStream | RNG_fast.h:272-283 | a refill leaves an engine whose future is the counter's stream |
| Fast.NextStream | RNG_fast.h:140-146 | what `operator()` returns is the head of the future and what it leaves is the tail |
| Fast.CounterShift | RNG_fast.h:169-171 | moving the counter `n` moves the part of the future after the buffer `n` words on |
| Fast.SkipPastBuffer | RNG_fast.h:168-171 | stepping `n` words past the buffered ones, with the buffer emptied and the counter moved by what is left of `n`, gives the old future `n` words on |
| Fast.BlocksCount | RNG_fast.h:149-166 | `64 b + m` bytes with `m < 64` take `b` blocks, and one more when `m > 0` |
| Fast.PrefixBlock | RNG_fast.h:272-283 | eight more words of the stream are one refill from the counter reached so far |
| Fast.UnbiasedAsWritten | RNG_fast.h:211-232 | `fast::unbiased` as written on the next words (threshold `(UINT64_MAX - range + p_lo) % range`, result `p_lo + p_hi` with no lower bound added) never uses more words than there are, and none exactly when the bounds are equal; `UnbiasedAsWrittenOutOfRange` exhibits a result outside the interval |
| Fast.RedrawAsWritten | RNG_fast.h:223-229 | the redraw loop as written, drawing while `p_lo < t` and returning `p_lo + p_hi` of the last product, either stops at once or after drawing past `i` within the words there are |
| Fast.Fast.DiscardAsCalls | RNG_fast.h:168-171 | `discard` as the comment's standard requirement defines it: every later output is the one after `n` calls of `operator()`; the buffered words are used up first and only the rest move the counter |
| Fast.DiscardAsWrittenKeepsBuffered | RNG_fast.h:168-171 | after a refill and seven calls, `discard(1)` as written still hands out word 7 of the stream next, where one call of `operator()` leaves word 8 next |
| Fast.UnbiasedAsWrittenOutOfRange | RNG_fast.h:211-232 | for the interval `[10, 11]` and the draw `2^63 + 1`, the code as written returns 3, while the Lemire sampler returns 11 |
| Counter.AddCarry | Nasam1024.h:195-205 | `add_carry(x, incr, index)` raises the value by `incr * 2^(64 index)` modulo 2^1024 and leaves the limbs below `index` alone. An index of 16 or more changes nothing |
| Counter.LimbSum | Nasam1024.h:198 | the wrapped limb sum holds the whole sum, or the sum less one unit of the next limb when it wraps (the test `x[index] < incr`) |
| Counter.Ripple | Nasam1024.h:199-203 | the carry loop adds `2^(64 k)` modulo 2^1024 and leaves the limbs below `k` alone |
| Counter.IncWraps | Nasam1024.h:200 | `++x[index]` is zero exactly when the limb was all ones |
| Counter.ClearedValue | Nasam1024.h:199-203 | clearing limbs `k .. i - 1` of all ones takes `2^(64 i) - 2^(64 k)` off the value |
| Counter.Absorbed | Nasam1024.h:200-201 | once a limb does not wrap, the carry is complete |
| Counter.AddWord | Nasam1024.h:198 | a wrapping add comes out below an addend exactly when it carried |
| Counter.IncrementStep | Nasam1024.h:118-121 | one `add_carry(state, increment[i], i)` takes the prefix sum of the increment one limb further |
| Counter.InitializeIncrement | Nasam1024.h:186-192 | the increment is the golden-ratio constant, then fifteen `nasam` steps |
| NasamMix.Nasam | Nasam1024.h:57-63 | the `nasam` mixer: multiply by `0x9E6F1D9BB2D6C165`, xor in the rotation by 26, multiply again, xor in the rotations by 47 and 21, multiply by `0x9FB21C651E98DF25`, xor in the shift by 28, all modulo 2^64; the increment and the engine's blocks are stated through it |
| Counter.IncrementUnique | Nasam1024.h:186-192 | that rule fixes every limb, so every counter has the same increment |
| Counter.IncOdd | Nasam1024.h:186-192 | the increment is odd |
| Counter.Counter1024.constructor | Nasam1024.h:94-96 | state zero, increment initialised |
| Counter.Counter1024.Increment | Nasam1024.h:118-123 | `++` adds the increment to the state modulo 2^1024 |
| Counter.Counter1024.PostIncrement | Nasam1024.h:127-131 | postfix `++` returns the old state and adds the increment |
| Counter.Counter1024.AddScalar | Nasam1024.h:135-152 | `+=(n)` adds `n` increments modulo 2^1024, including the 0 and 1 cases |
| Counter.ScalarStep | Nasam1024.h:146-150 | one limb of `+=`: the two words of `increment[i] * n`, added at limbs `i` and `i + 1`, take the prefix sum one limb on. At the top limb the high word may be dropped |
| Counter.IncrementsAreScalar | Nasam1024.h:135-152 | `n` applications of `++` are `+=(n)` |
| Counter.Counter1024.BigJump | Nasam1024.h:155-173 | `big_jump(step)` adds `step * increment` modulo 2^1024 |
| Counter.Jump | Nasam1024.h:159-171 | the outer loop of `big_jump` adds `step * increment`, row by row |
| Counter.JumpRowStep | Nasam1024.h:159-171 | one outer pass, where a zero limb of the step is skipped |
| Counter.AddRow | Nasam1024.h:162-170 | one row: the products that land below limb 16 add `step[i] * increment * 2^(64 i)` modulo 2^1024 |
| Counter.JumpRow | Nasam1024.h:164-165 | the products with `i + j >= 16` contribute a multiple of 2^1024, so skipping them changes nothing |
| Counter.JumpStep | Nasam1024.h:166-168 | one product `increment[j] * step[i]` added at limbs `i + j` and `i + j + 1` takes the row sum one limb on |
| Counter.JumpNextRow | Nasam1024.h:159-171 | finishing a row moves the step prefix one limb on |
| Counter.JumpSkipRow | Nasam1024.h:160 | a zero step limb adds nothing |
| Counter.JumpZero | Nasam1024.h:155-173 | the all-zero step changes nothing |
| Counter.JumpCompose | Nasam1024.h:155-173 | two jumps by `a` and `b` are one jump by `(a + b) mod 2^1024` |
| Counter.Single | Nasam1024.h:612-627 | the step with the single word `w` at limb `k` |
| Counter.SingleValue | Nasam1024.h:612-627 | that step is the number `w * 2^(64 k)` |
| Counter.Counter1024.Equals | Nasam1024.h:175-178 | equal exactly when the 1024-bit state values are |
| Counter.SameValue | Nasam1024.h:175-178 | two limb arrays are equal exactly when their values are |
| Counter.LimbOfValue | Nasam1024.h:90 | limb `i` is digit `i` of the value in base 2^64 |
| Nasam.Nasam1024.RefillBuffer | Nasam1024.h:417-429 | `++counter`, then the buffer is the mixer of limbs 8 .. 15 and the position is 0 |
| Nasam.Nasam1024.Next | Nasam1024.h:491-495 | it refills only when the position is 8. The result is the head of the future and what is left is its tail |
| Nasam.Nasam1024.Draw32 | Nasam1024.h:496-499 | the low 32 bits of the next word, which is then consumed |
| Nasam.Nasam1024.FromEntropy | Nasam1024.h:441-447 | the counter limbs are the entropy words and the buffer is spent, so the outputs are the stream of that counter |
| Nasam.Nasam1024.constructor | Nasam1024.h:450-452 | `Nasam1024(seed)` is `reseed(seed)` |
| Nasam.Nasam1024.FromState | Nasam1024.h:456-463 | a zero counter jumped by `initial_state` increments, with the buffer spent |
| Nasam.Nasam1024.Bulk | Nasam1024.h:506-527 | whatever the buffer held, the bytes are the first `n` bytes of the counter's stream. The counter moves `ceil(n / 64)` increments and the position is 8. The buffer holds the last block rendered when `n > 0` and is untouched when `n == 0` |
| Nasam.Nasam1024.BulkWhole | Nasam1024.h:514-519 | the loop over whole 64-byte blocks writes the stream's bytes for those blocks and leaves the last block in the buffer (the buffer is untouched when no block is rendered) |
| Nasam.Nasam1024.BulkRound | Nasam1024.h:514-524 | one block of `bulk` written behind the earlier ones, that block left in the buffer |
| Nasam.Nasam1024.BulkTail | Nasam1024.h:521-524 | the last partial block of `bulk`, left in the buffer; with no bytes left, buffer and counter are unchanged |
| Nasam.Nasam1024.RefillInto | Nasam1024.h:515-523 | `refill_buffer()` then `memcpy` of the first `len` bytes of the block, which stays in the buffer |
| Nasam.Nasam1024.Discard | Nasam1024.h:566-607 | every later output equals the one after `n` calls of `operator()`. Within the buffer only the cursor moves. Past it the counter moves `rest / 8 + 1` increments, one block is rendered, and the cursor is `rest mod 8`, a fresh block being rendered even when that remainder is 0 |
| Nasam.Nasam1024.BigJump | Nasam1024.h:609-611 | the counter jumps `step` increments. The buffered words still come out, then the stream continues `8 * step` words further on |
| Nasam.Nasam1024.JumpLimb | Nasam1024.h:612-627 | a jump by `2^(64 k)` increments |
| Nasam.Nasam1024.Jump64 | Nasam1024.h:612-615 | a jump by 2^64 increments |
| Nasam.Nasam1024.Jump128 | Nasam1024.h:616-619 | a jump by 2^128 increments |
| Nasam.Nasam1024.Jump192 | Nasam1024.h:620-623 | a jump by 2^192 increments |
| Nasam.Nasam1024.Jump256 | Nasam1024.h:624-627 | a jump by 2^256 increments |
| Nasam.Nasam1024.Jump | Nasam1024.h:628 | `jump()` is `jump128()` |
| Nasam.Nasam1024.LongJump | Nasam1024.h:629 | `long_jump()` is `jump256()` |
| Nasam.Nasam1024.Reseed | Nasam1024.h:687-695 | the counter is a zero counter jumped by the sixteen SplitMix64 outputs of the seed, times the increment, and the buffer is spent |
| Nasam.SeedSteps | Nasam1024.h:688-691 | the sixteen step limbs are the first sixteen SplitMix64 outputs of the seed |
| Nasam.Nasam1024.SetCounter | Nasam1024.h:556-559 | the counter limbs are copied in |
| Nasam.Nasam1024.GetCounter | Nasam1024.h:561-563 | a fresh copy of the counter |
| Nasam.Nasam1024.Equals | Nasam1024.h:676-681 | equal exactly when position, counter value and all eight buffer words agree |
| Nasam.NextStream | Nasam1024.h:491-495 | `operator()` hands out the head of the future and leaves its tail |
| Nasam.RefilledStream | Nasam1024.h:417-429 | a refill leaves an engine whose future is the counter's stream |
| Nasam.DiscardStream | Nasam1024.h:581-603 | `full` counter steps, one refill and the cursor at `fin` skip exactly `n` words of the future |
| Nasam.JumpStream | Nasam1024.h:609-611 | moving the counter `j` increments moves the future after the buffer `8 j` words on |
| Nasam.BlockWord | Nasam1024.h:417-429 | word `k` of block `b` is word `8 b + k` of the stream |
| Nasam.PrefixBlock | Nasam1024.h:506-527 | eight more stream words are the block rendered after one more increment |
| Nasam.BlocksCount | Nasam1024.h:506-527 | `64 b + m` bytes with `m < 64` take `b` blocks, and one more when `m > 0` |
| Nasam.RenderedLimb | Nasam1024.h:424-426 | buffer word `i` is the mixer of limb `i + 8` |
| Nasam.AtAdd | Nasam1024.h:135-152 | `a` increments then `b` more are `a + b` increments |
| Csprng.Csprng.constructor | RNG_csprng.h:166-173 | key and nonce stored, one block primed: the buffer is block `initial_counter`, the counter is one past it and the index is 0. The stream starts at word `8 * initial_counter`, unless the priming refill already wraps |
| Csprng.Csprng.FromSeedBlock | RNG_csprng.h:180-198 | key and nonce are bytes 0 .. 31 and 32 .. 39 of the permuted seed block, and the stream starts at block 0 |
| Csprng.Csprng.FromEntropy | RNG_csprng.h:253-259 | key and nonce are the entropy bytes, the counter starts at 0 and one block is primed, so the stream starts at block 0 |
| Csprng.Csprng.FromShortSeed | RNG_csprng.h:206-234 | the 32 seed bytes padded with 32 zero bytes, then as for a 64-byte seed block |
| Csprng.Csprng.Refill | RNG_csprng.h:566-587 | renders block `block_counter` and resets the index. The counter moves on by one and the call fails with exhaustion exactly when it wraps to 0 |
| Csprng.Csprng.Next | RNG_csprng.h:278-283 | the next keystream word, refilling a spent buffer first. It fails exactly when the keystream is used up |
| Csprng.Csprng.Draw32 | RNG_csprng.h:285-289 | the low 32 bits of the next word |
| Csprng.Csprng.Discard | RNG_csprng.h:365-395 | `discard(n)` moves the position `n` words on exactly when that stays in the keystream. Within the buffer only the cursor moves, and a zero remainder leaves the buffer spent without rendering. It throws an overflow, with the buffer already marked spent, exactly when the counter would pass 2^64 - 1 |
| Csprng.Csprng.SkipBlocks | RNG_csprng.h:377-394 | whole blocks are skipped by the counter (with the overflow check), then the block of the remainder, if any, is rendered |
| Csprng.Csprng.Jump | RNG_csprng.h:403-405 | `discard(2^32)` |
| Csprng.Csprng.LongJump | RNG_csprng.h:413-415 | `discard(2^48)` |
| Csprng.Csprng.Reseed | RNG_csprng.h:350-355 | the new key and nonce from block 0, one block primed: counter 1, index 0 |
| Csprng.Csprng.Unbiased | RNG_csprng.h:296-317 | the result and the words used are those of the Lemire sampler on the rest of the keystream. The result lies in `[lo, hi]` and the call fails only on exhaustion |
| Csprng.Csprng.Redraws | RNG_csprng.h:304-316 | the slow path: once the first low half is below `range`, redraw while it is below the threshold |
| Csprng.Csprng.RedrawLoop | RNG_csprng.h:309-313 | the redraw loop returns the scaled first accepted word |
| Csprng.Csprng.Fill | RNG_csprng.h:319-332 | `n` bytes take `ceil(n / 8)` words through `operator()`. The bytes are those words little-endian, the last partial chunk keeping its low bytes, and the call fails exactly when the keystream runs out |
| Csprng.Csprng.FillChunk | RNG_csprng.h:322-331 | one chunk: the low `len` bytes of the next word land behind the earlier chunks |
| Csprng.Csprng.FillTail | RNG_csprng.h:328-331 | the final partial chunk: when bytes are left, one more word, whose low bytes end the output; it fails exactly when the keystream is used up |
| Csprng.PutWord | RNG_csprng.h:324-330 | the `memcpy` of one chunk |
| Csprng.FillStep | RNG_csprng.h:322-331 | the bytes of `n` words and then the low `len` bytes of word `n` are the first `8 n + len` bytes of `n + 1` words |
| Csprng.ChunksLeft | RNG_csprng.h:322-331 | while bytes are left, `fill` needs another word |
| Csprng.Csprng.Equals | RNG_csprng.h:424-444 | equal exactly when key, nonce, counter and index agree and, while the buffer is live, the buffers too. The key words are compared by or-ing their xors, with no early exit |
| Csprng.BufferFollowsState | RNG_csprng.h:424-444 | under the invariant, equal key, nonce, counter and index already fix the live buffer |
| Csprng.EqualGeneratorsAgree | RNG_csprng.h:424-444 | generators that compare equal have the same future |
| Csprng.Csprng.Pos | RNG_csprng.h:141-142 | the keystream position of the next word is within the keystream |
| Csprng.Csprng.Ahead | RNG_csprng.h:141-142 | what is left of the keystream from that position on |
| Csprng.AheadOf | RNG_csprng.h:141-142 | the keystream from a position to its end, word for word |
| Csprng.PosBlock | RNG_csprng.h:141-142 | the position names block `counter - 1` at word `index` of a live buffer, or block `counter` when the buffer is spent |
| Csprng.Encode | RNG_csprng.h:489-509 | the snapshot is 65 bytes: magic, version, key, nonce, little-endian counter, index and seven zero bytes |
| Csprng.Decode | RNG_csprng.h:517-562 | whatever it accepts is at least 65 bytes and a restorable snapshot (index at most 8, counter at least 1 below index 8) |
| Csprng.DecodeEncode | RNG_csprng.h:489-562 | decoding an encoding gives the snapshot back, except a mid-block state at counter 0, which is refused |
| Csprng.EncodeDecode | RNG_csprng.h:489-562 | whatever the decoder accepts is an encoding, up to the padding it skips |
| Csprng.Csprng.Serialize | RNG_csprng.h:489-509 | `operator<<` writes 65 bytes that decode to the generator's snapshot |
| Csprng.ConsistentIsRestorable | RNG_csprng.h:489-562 | every consistent generator serializes to bytes the decoder accepts |
| Csprng.Csprng.Restore | RNG_csprng.h:517-562 | succeeds exactly when `Decode` does, and leaves the decoded snapshot with a regenerated buffer. Errors are the decoder's. A bad magic or version changes nothing. A bad index leaves `word_index` and the buffer as they were; a read error or a mid-block state at counter 0 leaves `word_index` at the byte read and the buffer untouched; after the header, key, nonce and counter are the bytes read |
| Csprng.Csprng.LoadBlock | RNG_csprng.h:550-557 | a live buffer is regenerated from block `counter - 1` |
| Csprng.Take | RNG_csprng.h:517-562 | a read of `n` bytes gets those bytes when the stream has them, and fewer at its end |
| Csprng.Overwrite | RNG_csprng.h:517-562 | a read into an object overwrites its front with what was read |
| Csprng.MagicMatchesAsWritten | RNG_csprng.h:523 | the magic test as written: the eight bytes must be `"csprng"`, its terminator and the byte `past` that follows the literal in memory |
| Csprng.OwnEncodingRejectedAsWritten | RNG_csprng.h:523 | with the byte after the literal not zero, the decoder as written rejects every encoding the encoder writes |

## Left out

- Platform entropy (platform_entropy.cpp) and `random_device`'s `operator()`, `draw32` and `draw64` are I/O. They become parameters: entropy bytes or words, or an oracle of draws.
- `random_device::entropy()` returns a `double`. Floating point is not modelled.
- The ChaCha20 core (`build_state`, `permute_block`) and `Block.h` are not part of this model. The block function and the seed permutation are parameters.
- The entropy constructors are modelled with the entropy they read as a parameter; the reads themselves are not modelled.
- The `SeedSeq` constructors and `seed(...)` overloads of `fast` and `Nasam1024`, and `fast::seed()`, are library glue over `std::seed_seq` or the entropy source.
- The template `fill` overloads over spans, arrays and vectors forward to the byte `fill`. The `Nasam1024` `fill` overloads forward to `bulk`. `fast::fill` uses the same loop as `random_device::fill` through `operator()`.
- The `!=` operators are the negation of `==`.
- `fast` `operator<<` and `operator>>` only stream the counter. Stream objects are not modelled. `csprng` serialization is modelled as pure functions over bytes.
- `Nasam1024::get_state` and `set_state` are not modelled.
- `Counter_1024::data()` and `operator[]` are read-only accessors. Its copy and move constructors are not modelled either.
- The `csprng` destructor and `clear()` wipe memory with volatile stores. Its copy and move rules are ownership concerns with no functional result.
- Fixed-size arrays are sequences. The `Nasam1024` buffer is taken as zero-initialised where the C++ leaves it indeterminate.
- `Nasam1024::draw64` and `csprng::draw64` are `operator()` and are not separate members.
- `RNG_fast.h` `unbiased` is modelled only as written, by `Fast.UnbiasedAsWritten` (see Findings); no range bound is claimed for it.
- Statistical quality, period and security strength cannot be stated or proved here.
- `NasamMix.Nasam`, `Wyrand.Hash` and the SplitMix64 mixer are modelled as plain functions. Beyond `Wyrand.Hash` mapping 0 to 0, no property of their own is proved (for example that they are bijections); the proofs are generic in the mixer.
- Csprng.Csprng.Restore: when an error comes after the header, key, nonce and counter are stated only for inputs of at least 57 bytes. For shorter inputs the partly overwritten key, nonce and counter are left unstated.
- Csprng.Decode: the magic is compared with the eight bytes the encoder writes (`"csprng"` and two zero bytes). The code as written reads one byte past its literal; that case is modelled separately by `Csprng.MagicMatchesAsWritten` (see Findings).
- Csprng.Csprng.Next: after an exhaustion error the generator is left as the code leaves it (counter 0, index 0, the last block rendered). The invariant `Consistent()` is not claimed for that state.

## Findings

| source | as written | input that shows it | evidently intended | confidence | as-written member | corrected member |
|---|---|---|---|---|---|---|
| RNG_fast.h:211-232 | the threshold is `(max - range + p_lo) % range` and the result is `p_lo + p_hi`, the sum of the low and high halves of the product. The lower bound `lo` is never added, so the result can leave the interval | `unbiased(10, 11)` with the draw `2^63 + 1`: the product with range 2 is `2^64 + 2`, and the code returns 3 | the Lemire sampler of `random_device` and `csprng`: `lo` plus the high half of the first accepted draw, which lies in `[10, 11]` (11 here) | not executed | Fast.UnbiasedAsWrittenOutOfRange | Lemire.SampleInRange |
| RNG_csprng.h:523 | `memcmp(magic, "csprng", 8)` compares eight bytes against a seven-byte literal (six letters and the terminator), so the last byte compared is whatever follows the literal in memory | any stream `operator<<` wrote, whose eighth magic byte is 0, when the byte after the literal is not 0 | compare the eight bytes the encoder writes, `"csprng"` and two zero bytes | not executed | Csprng.OwnEncodingRejectedAsWritten | Csprng.DecodeEncode |
| RNG_fast.h:168-171 | `discard(nsteps)` is `state += nsteps * INCREMENT` only, while its comment calls it the standard requirement, `nsteps` calls of `operator()`. The words still in the buffer are not skipped | any engine with words left in its buffer: after a refill and seven calls (index 7), `discard(1)` leaves word 7 of the stream next, where one call leaves word 8 | use up the buffered words first and move the counter only by the rest | not executed | Fast.DiscardAsWrittenKeepsBuffered | Fast.Fast.DiscardAsCalls |
