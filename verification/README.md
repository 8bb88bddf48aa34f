# A Dafny model of the `ripemd-rs` digest engine

This project models `src/main.rs` of `ripemd-rs`, a streaming RIPEMD-160-style
digest engine written in Rust. The model covers:

- the context `RMDContext`: five `u32` state words, a `u64` bit count and a
  64-byte buffer;
- `RMDContext::new`, `rmd160_update` and `rmd160_final`, and the one-shot
  `ripemd160`;
- the primitives `rol` and `f0`..`f4`;
- the step `r` and the compression `rmd160_transform` with its constants and
  tables.

It then proves properties of that model.

The model follows the code as written. The code differs from standard
RIPEMD-160 (ISO/IEC 10118-3, dedicated hash-function 1) in these ways:

- Standard RIPEMD-160 runs the right line with the boolean functions in
  the mirrored order `f4..f0`. The code uses `functions[i]`, that is
  `f0..f4`, on both lines.
- In standard RIPEMD-160 each step rotates the five registers
  (`a = e; e = d; d = rol(10, c); c = b; b = T`). The code adds the
  assignment `(a, c) = (a1, c1)`, which overwrites that rotation. After
  every step `a == b` and `c == d`.
- Standard RIPEMD-160 starts both lines from the incoming state. The code
  starts the right line from the left line's final registers.
- Standard RIPEMD-160 combines registers of both lines with the incoming
  state. The code adds the final registers to the saved copies `aa..ee` of
  the incoming state.
- The code therefore does not compute the published RIPEMD-160 digests.
  For `""` the published digest is `9c1185a5c5e9fc54612808977ee8f548b2258d31`.
  For `"abc"` it is `8eb208f7e05d987a9b044a8e98c6b087f15a0bfc`.

Two facts about the code's streaming logic shape the model:

- The transform's length assertion is reachable: any update that reaches
  the stride loop with more than 64 bytes left panics (see Findings).
- Every cutting of a message into updates in which no update panics gives
  the same digest. A cutting with a chunk that is too long panics instead.
  `Engine.ChunkingInvariance` states this with that condition. `Corrected.ChunkingInvarianceCorrected` states it
  for every cutting, using the fixed update.

## Structure

- `encoding.dfy` (`Encoding`): bytes (`bv8`), words (`bv32`), and
  little-endian conversions with their round trips.
- `primitives.dfy` (`Primitives`): `rol`, wrapping addition and `f0..f4`.
  Each boolean function is characterised bitwise by mask equations.
- `tables.dfy` (`Tables`): the round constants, the word-selection and
  rotation tables, and their range and permutation properties.
- `compress.dfy` (`Compress`): the step `r`, the register assignments, the
  two 80-step lines, the combination and `CompressBlock`. `CompressBlock` is
  the body of `rmd160_transform` after its length assertion.
- `reference.dfy` (`Reference`): the reference digest of a whole message.
  It is the message followed by the MD4-style padding of sections 3.1 and
  3.2 of RFC 1320, compressed block by block from the initial state.
- `engine.dfy` (`Engine`): the context and its operations.
- `corrected.dfy` (`Corrected`): the update with the stride loop fixed (see
  Findings).

### The compression function is a parameter

`Reference` and `Engine` take the compression function as a parameter
`compress: Compression`, a total function from a state and a 64-byte block
to a state. Their theorems therefore hold for every compression function.
`Engine.Ripemd160` and `Corrected.Ripemd160Corrected` instantiate it with
`Compress.CompressBlock`. `Engine.Transform` adds the transform's
`assert_eq!(block.len(), 64)` around it.

### Errors, the stream invariant and the partner definitions

A failed assertion (a Rust panic) is modelled as the error value
`Err(BlockLengthMismatch(len))` of `Results.Result`. An `Err` names the
length of the slice that reached the transform.

The stream invariant `Engine.Represents(compress, ctx, consumed)` says that
`ctx` is the context after feeding it the byte string `consumed`:

- the count is `8 * |consumed|`;
- the state has compressed every complete block of `consumed`;
- the buffer starts with the incomplete tail.

The reference definitions `Reference.ProcessBlocks`, `Reference.MdPadding`
and `Reference.Digest` are the partners of the update and final steps. The
lemmas connect the streaming operations to them.

## Model

| member | source | states |
|---|---|---|
| Primitives.Rol | src/main.rs:83-85 | for a shift `0 < n < 32` the result is the 32-bit left rotation of `x` by `n` |
| Primitives.WrappingAdd | src/main.rs:121-124 | `u32::wrapping_add` is addition on 32-bit words, which wraps modulo 2^32 by the type; it has no contract of its own |
| Primitives.F0 | src/main.rs:87-89 | where `y` and `z` agree each bit is `x`'s bit, where they differ it is the complement |
| Primitives.F1 | src/main.rs:91-93 | bitwise multiplexer: `y`'s bit where `x` is set, `z`'s bit where it is clear |
| Primitives.F2 | src/main.rs:95-97 | `x \| !y` where `z` is clear, `!x & y` where `z` is set |
| Primitives.F3 | src/main.rs:99-101 | bitwise multiplexer: `x`'s bit where `z` is set, `y`'s bit where it is clear |
| Primitives.F4 | src/main.rs:103-105 | `y \| !z` where `x` is clear, `!y & z` where `x` is set |
| Primitives.F | src/main.rs:184 | `functions[round]` selects `f0..f4` by round alone, so both lines use the same order; its contract lives in the five functions |
| Tables.WordTablesInRange | src/main.rs:137-152 | `lhs` and `rhs` have 5 rows of 16 entries, all below 16, so `x[rj]` is in bounds |
| Tables.LeftRotatesInRange | src/main.rs:155-161 | every left rotation amount lies in 5..15 |
| Tables.RightRotatesInRange | src/main.rs:164-170 | every right rotation amount lies in 5..15 |
| Tables.TablesInRange | src/main.rs:137-170 | all four tables are in range, and there are 5 round constants per line, so no step indexes out of bounds or rotates by 32 |
| Tables.LeftWordsCoverSchedule | src/main.rs:137-143 | every round of the left line reads each of the 16 words |
| Tables.RightWordsCoverSchedule | src/main.rs:146-152 | every round of the right line reads each of the 16 words |
| Tables.LeftWordsDistinct | src/main.rs:137-143 | no round of the left line reads a word twice |
| Tables.RightWordsDistinct | src/main.rs:146-152 | no round of the right line reads a word twice |
| Tables.RowsArePermutations | src/main.rs:137-152 | each of the 10 rows is a permutation of 0..15, and row R1 of `lhs` is the identity |
| Encoding.ToLE | src/main.rs:69 | the `k`-byte little-endian encoding has length `k` and reads back as `n` |
| Encoding.ToLEFromLE | src/main.rs:69 | re-encoding the value of a byte string at its width gives back the bytes, so the two conversions are inverse |
| Encoding.WordFromLE | src/main.rs:133 | the word read from four bytes encodes back to those bytes |
| Encoding.WordRoundTrip | src/main.rs:78 | a word encoded little-endian decodes back to itself |
| Encoding.WordToLE | src/main.rs:78 | `w.to_le_bytes()` has four bytes; Encoding.WordRoundTrip and Encoding.WordFromLE show it is inverse to `u32::from_le_bytes` |
| Encoding.EncodeWords | src/main.rs:76-79 | word `i` sits little-endian at bytes `4i..4i+4`, word 0 first, so the five state words make the 20-byte digest |
| Encoding.DecodeWords | src/main.rs:131-134 | one word per 4 bytes, and word `i` is the little-endian value of bytes `4i..4i+4`, as `block.chunks(4)` with `u32::from_le_bytes` computes |
| Encoding.EncodeDecodeWords | src/main.rs:132-134 | re-encoding the decoded words of a block gives back the block |
| Encoding.DecodeEncodeWords | src/main.rs:76-79 | decoding the serialised state recovers the five state words |
| Compress.Step | src/main.rs:191-208 | the six assignments after the call to `r`, taken in source order, leave `a == b == a1`, `c == d == c1` (the rotated old `c`) and `e ==` the old `d`: the old `b` and `e` enter only through `a1` |
| Compress.R | src/main.rs:107-127 | `r` returns the new `a` and the old `c` rotated left by 10 bits |
| Compress.RunLine | src/main.rs:189-234 | after any positive number of steps of either line, `a == b` and `c == d` |
| Compress.BothLines | src/main.rs:188-234 | the right line starts from the left line's final registers, and the registers both lines leave satisfy `a == b` and `c == d` |
| Compress.Combine | src/main.rs:236-241 | the combination as coded, with the temporary `t`; its meaning, one cyclic rule over the saved copies, is stated by Compress.CombinationIsCyclic |
| Compress.CombinationIsCyclic | src/main.rs:236-241 | new word `k` is old word `k+1` plus register `k+2` plus old word `k+3`, indices mod 5, all additions wrapping |
| Compress.CompressBlock | src/main.rs:172-241 | the new state combines the incoming state with registers satisfying `a == b` and `c == d` |
| Engine.New | src/main.rs:25-31 | a fresh context has count 0 and the initial state `67452301 EFCDAB89 98BADCFE 10325476 C3D2E1F0` |
| Engine.NewRepresentsEmpty | src/main.rs:25-31 | a fresh context has consumed the empty stream |
| Engine.Represents | src/main.rs:18-22 | the stream invariant of `RMDContext`: the count is 8 times the bytes consumed, the state has compressed every whole block, the buffer starts with the tail |
| Engine.Have | src/main.rs:41 | the number of buffered bytes is below 64 |
| Engine.Need | src/main.rs:43 | `need` lies in 1..64 and `have + need == 64` |
| Engine.Overwrite | src/main.rs:49-51 | the copy loops keep the buffer's length; the bytes they write are stated by Engine.OverwriteBytes and Engine.OverwritePrefix |
| Engine.OverwriteBytes | src/main.rs:49-51 | byte `i` of the buffer after a copy loop comes from the chunk inside the written range and is unchanged elsewhere |
| Engine.OverwritePrefix | src/main.rs:62-64 | up to the end of the copied range, the buffer is the untouched front followed by the copied bytes |
| Engine.Transform | src/main.rs:129-130 | succeeds exactly on 64-byte blocks; any other length aborts naming that length |
| Engine.UpdateFits | src/main.rs:47-59 | the condition under which `rmd160_update` does not panic: `len <= 64` on an empty buffer, otherwise `len <= 128 - have`; Engine.Update proves it is exact |
| Engine.Strides | src/main.rs:56-59 | the stride loop gets through exactly when at most 64 bytes remain; otherwise it aborts naming the tail length; it stops at the end of the input after a 64-byte tail and otherwise where it started |
| Engine.StridesProcessBlocks | src/main.rs:56-59 | a stride loop that gets through has compressed exactly the whole blocks it stepped over, in order |
| Engine.Flush | src/main.rs:48-55 | the stride loop starts at `need` when bytes were buffered and at 0 otherwise |
| Engine.FlushRepresents | src/main.rs:48-55 | completing and compressing the buffer continues the stream to the next block boundary |
| Engine.Update | src/main.rs:40-66 | gets through exactly when `len <= 64` (empty buffer) or `len <= 128 - have`; the count grows by `8 * len` |
| Engine.UpdateFailure | src/main.rs:47-59 | an aborted update names the length of the tail that reached the transform |
| Engine.Absorb | src/main.rs:47-65 | the chunk-filling branch gets through under the same condition as the update and adds `8 * len` to the count |
| Engine.UpdateShortChunk | src/main.rs:61-65 | a chunk shorter than `64 - have` leaves the state alone and is copied to `buffer[have..have+len]` |
| Engine.AppendRepresents | src/main.rs:61-65 | appending a short chunk to the buffer keeps the stream invariant |
| Engine.UpdateAppends | src/main.rs:40-66 | a short chunk always gets through and keeps the stream invariant |
| Engine.AbsorbStrides | src/main.rs:56-59 | strides started at a block boundary of the stream, from the state that compressed the stream up to it, stop at a block boundary with the state that compressed the stream up to there |
| Engine.StridesContinue | src/main.rs:56-59 | compressing whole blocks of the chunk after a block boundary continues the stream to the next boundary |
| Engine.BoundaryAfterStrides | src/main.rs:56-58 | whole blocks past a block boundary end on a block boundary |
| Engine.AbsorbBoundary | src/main.rs:47-65 | after a chunk-filling update the stream before the last block boundary is compressed and the rest is buffered |
| Engine.AbsorbRepresents | src/main.rs:47-65 | a chunk-filling update that gets through keeps the stream invariant |
| Engine.UpdateExtendsStream | src/main.rs:40-66 | an update that gets through extends the consumed stream by the chunk: blocks are compressed in stream order and the buffer holds the unprocessed tail |
| Engine.PadLen | src/main.rs:70-73 | `padlen` lies in 9..72 and brings the buffered bytes to 64 or 128 |
| Engine.PadFits | src/main.rs:74 | the first padding update never reaches the transform's assertion |
| Engine.PadChunk | src/main.rs:74 | the slice `PADDING[..padlen-8]` is in bounds and has `padlen - 8` bytes |
| Engine.SizeBytes | src/main.rs:69 | the 8 size bytes are the little-endian encoding of the count before padding |
| Engine.PadFirst | src/main.rs:74 | after the first padding update 56 bytes are buffered and the count grew by `8 * (padlen - 8)` |
| Engine.SizeFits | src/main.rs:75 | the 8 size bytes fit behind 56 buffered bytes |
| Engine.Padded | src/main.rs:74-75 | after both padding updates the buffer is empty and the count grew by `8 * padlen` |
| Engine.PadFirstIsUpdate | src/main.rs:74 | the first padding update gets through |
| Engine.PaddedIsUpdate | src/main.rs:75 | the second padding update gets through |
| Engine.ZeroCount | src/main.rs:70-74 | the zeros taken from `PADDING` are exactly the `(55 - n) mod 64` zeros the MD4-style padding needs |
| Engine.PaddingPrefix | src/main.rs:1-5 | the first `k` bytes of `PADDING` are 0x80 followed by `k - 1` zeros |
| Engine.FinalPaddingIsMdPadding | src/main.rs:69-75 | the two padding updates feed exactly the padding of section 3.1-3.2 of RFC 1320 |
| Engine.PaddedStream | src/main.rs:74-75 | the padded stream is the consumed stream followed by its padding |
| Engine.WholeBlocks | src/main.rs:40-66 | with an empty buffer the state has compressed the whole consumed stream |
| Engine.PaddedRepresents | src/main.rs:68-75 | after both padding updates the context has consumed the padded stream |
| Engine.Final | src/main.rs:76-80 | the digest has 20 bytes and decodes to the padded state, word 0 first |
| Engine.FinalComputesDigest | src/main.rs:68-80 | `rmd160_final` on a context that has consumed `m` returns the reference digest of `m` |
| Engine.OneShot | src/main.rs:34-38 | a fresh update with the whole input gets through exactly for inputs of at most 64 bytes, and then the final step gives the reference digest |
| Engine.Ripemd160 | src/main.rs:34-38 | succeeds exactly for inputs of at most 64 bytes, then returns the reference digest; longer inputs abort naming their length |
| Engine.UpdateAll | src/main.rs:40-66 | a run of updates that gets through grows the count by 8 times the total length |
| Engine.UpdateAllFirst | src/main.rs:40-66 | a run of updates that gets through starts with an update that gets through |
| Engine.UpdateAllExtendsStream | src/main.rs:40-66 | successful updates extend the stream by the concatenation of the chunks |
| Engine.ChunkingInvariance | src/main.rs:40-80 | any two cuttings of a message whose updates all get through give the same digest, the reference digest of the message |
| Engine.FlattenFirst | src/main.rs:40-66 | the concatenation of the chunks starts with the first chunk |
| Reference.ProcessNoBlocks | src/main.rs:56 | less than a block is not compressed |
| Reference.ProcessOneBlock | src/main.rs:56-57 | a single block is one compression |
| Reference.ProcessBlocks | src/main.rs:56-59 | the whole 64-byte blocks of the data compressed one by one, in order; Reference.ProcessBlocksAppend and Reference.ProcessOneBlock state its laws |
| Reference.ProcessBlocksAppend | src/main.rs:56-59 | processing a concatenation is processing its whole-block first part and then the rest |
| Reference.CompressAfter | src/main.rs:52 | one more block after a whole-block prefix is one more compression |
| Reference.PaddedLength | src/main.rs:70-73 | at most 63 zeros bring the padded length to a multiple of 64 |
| Reference.MdPadding | src/main.rs:68-75 | the padding has 9..72 bytes, starts with 0x80, makes the length a multiple of 64 and ends with the bit length little-endian |
| Reference.Digest | src/main.rs:76-80 | the reference digest has 20 bytes |
| Corrected.StridesCorrected | src/main.rs:56-59 | the fixed stride loop stops fewer than 64 bytes before the end, a whole number of blocks after it started |
| Corrected.StridesCorrectedProcessBlocks | src/main.rs:56-59 | the fixed stride loop compresses exactly the complete blocks, in order |
| Corrected.StridesAgree | src/main.rs:56-59 | where the loop as written gets through, it does what the fixed loop does |
| Corrected.UpdateCorrected | src/main.rs:40-66 | the fixed update never aborts and grows the count by `8 * len` |
| Corrected.UpdateAgrees | src/main.rs:40-66 | whenever the update as written gets through, it leaves the same context as the fixed one |
| Corrected.CorrectedBoundary | src/main.rs:47-65 | after a chunk-filling fixed update the stream before the last block boundary is compressed and the rest is buffered |
| Corrected.CorrectedStrides | src/main.rs:56-59 | fixed strides started at a block boundary of the stream stop at a block boundary, having compressed the stream up to there |
| Corrected.UpdateCorrectedExtendsStream | src/main.rs:40-66 | the fixed update extends the stream by a chunk of any length |
| Corrected.UpdateAllCorrected | src/main.rs:40-66 | fixed updates over a list of chunks grow the count by 8 times the total length |
| Corrected.FlattenLength | src/main.rs:40-66 | the total length is the first chunk's length plus the rest |
| Corrected.UpdateAllCorrectedExtendsStream | src/main.rs:40-66 | fixed updates extend the stream by the concatenation of the chunks |
| Corrected.ChunkingInvarianceCorrected | src/main.rs:40-80 | with the fixed update every cutting of a message gives the reference digest of the message |
| Corrected.OneShotCorrected | src/main.rs:34-38 | the one-shot digest with the fixed update is the reference digest, for any compression function |
| Corrected.Ripemd160Corrected | src/main.rs:34-38 | the fixed one-shot digest is defined for every input and equals the reference digest |
| Corrected.SixtyFiveBytesAbort | src/main.rs:34-38 | 65 zero bytes make `ripemd160` as written abort on a 65-byte slice, while the fixed version returns the reference digest |
| Corrected.OneShotAsWritten | src/main.rs:34-38 | `ripemd160` as written aborts exactly for inputs longer than 64 bytes and otherwise agrees with the fixed version |

## Left out

- `main`, the `crypto` and `ripemd` imports and the comparison with
  rust-crypto (src/main.rs:244-259): console output and a foreign library.
- The published RIPEMD-160 test vectors. The code computes a different
  function and nothing in the repository checks those values. The 160 steps
  are never evaluated on concrete inputs.
- Overflow of the `u64` bit count. Every update requires
  `count + 8 * len < 2^64`, and `rmd160_final` requires room for the padding.
  Overflow behaviour differs between Rust debug builds (panic) and release
  builds (wrap-around).
- Engine.Ripemd160: requires `8 * (len + 72) < 2^64`. This is slightly
  stronger than the code needs, because the padding adds at most 72 bytes.
- The partially updated context left behind by a panic. An aborted update is
  the error value, with no context.
- Reuse of a context after `rmd160_final`. The code does not guard against it,
  and `Final` returns only the digest.
- Mutation in place. `rmd160_transform` writes only to `state`; the model
  returns the new state.
- Compress.R: its contract states only the rotated `c`. The new `a`, a
  rotation by a variable amount, is given by the definition, because
  proving it equal to `RotateLeft` is beyond the solver's budget.
- Engine.Overwrite: its own contract gives only the length. The byte-by-byte
  meaning is stated by Engine.OverwriteBytes and Engine.OverwritePrefix.
- Avalanche and randomness claims: they cannot be stated as contracts.

## Findings

| source | as written | input that shows it | evidently intended | confidence | as-written member | corrected member |
|---|---|---|---|---|---|---|
| src/main.rs:57 | the stride loop passes the whole remaining tail `&input[off..]` to `rmd160_transform`, which asserts a length of exactly 64 (line 130); any update that still has more than 64 bytes left at the loop fails the assertion | `ripemd160` on 65 zero bytes: the fresh context's update hands the transform a 65-byte slice | pass the next block, `&input[off..off + 64]`, so that updates of any length and any chunking give the digest of the whole stream | high (proved on the model, not executed) | Corrected.SixtyFiveBytesAbort | Corrected.UpdateCorrected |
