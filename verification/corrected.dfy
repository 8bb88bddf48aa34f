/** `rmd160_update` as evidently intended: the stride loop hands the
    transform the next 64 bytes, `&input[off..off + 64]`, instead of the
    whole remaining tail. With that one change an update never aborts, the
    stream invariant holds for chunks of any length, and the one-shot
    digest is the reference digest for every input. */
module Corrected {
  import opened Encoding
  import opened Results
  import opened Tables
  import opened Compress
  import opened Reference
  import opened Engine

  /** The stride loop compressing `input[off..off + 64]` while 64 bytes
      remain; returns the state and the offset it stopped at. */
  function StridesCorrected(compress: Compression, state: State, input: seq<Byte>, off: nat): (r: (State, nat))
    requires off <= |input|
    ensures off <= r.1 <= |input| && |input| - r.1 < 64
    ensures (r.1 - off) % 64 == 0
    decreases |input| - off
  {
    if off + 64 <= |input| then StridesCorrected(compress, compress(state, input[off..off + 64]), input, off + 64)
    else (state, off)
  }

  /** The corrected loop compresses exactly the complete blocks from `off`
      on, in order. */
  lemma {:induction false} StridesCorrectedProcessBlocks(compress: Compression, state: State, input: seq<Byte>, off: nat)
    requires off <= |input|
    ensures StridesCorrected(compress, state, input, off).0
         == ProcessBlocks(compress, state, input[off..StridesCorrected(compress, state, input, off).1])
    decreases |input| - off
  {
    var end := StridesCorrected(compress, state, input, off).1;
    if off + 64 <= |input| {
      var block := input[off..off + 64];
      StridesCorrectedProcessBlocks(compress, compress(state, block), input, off + 64);
      assert input[off..end] == block + input[off + 64..end];
      ProcessBlocksAppend(compress, state, block, input[off + 64..end]);
      ProcessOneBlock(compress, state, block);
    } else {
      ProcessNoBlocks(compress, state, input[off..off]);
    }
  }

  /** Where the as-written loop gets through, it does what the corrected
      one does: it then makes at most one stride, on a tail of exactly 64
      bytes. */
  lemma StridesAgree(compress: Compression, state: State, input: seq<Byte>, off: nat)
    requires off <= |input|
    requires Strides(compress, state, input, off).Ok?
    ensures Strides(compress, state, input, off).value == StridesCorrected(compress, state, input, off)
  {
    if off + 64 <= |input| {
      assert input[off..] == input[off..off + 64];
    }
  }

  /** `rmd160_update` with the corrected stride loop. It cannot abort. */
  function UpdateCorrected(compress: Compression, ctx: Context, input: seq<Byte>): (r: Context)
    requires ctx.count + 8 * |input| < MaxCount
    ensures r.count == ctx.count + 8 * |input|
  {
    if |input| >= Need(ctx) then
      var flushed := Flush(compress, ctx, input);
      var strided := StridesCorrected(compress, flushed.1, input, flushed.2);
      Context(strided.0, ctx.count + 8 * |input|, Overwrite(flushed.0, 0, input[strided.1..]))
    else
      Context(ctx.state, ctx.count + 8 * |input|, Overwrite(ctx.buffer, Have(ctx), input))
  }

  /** Whenever the update as written gets through, it leaves the same
      context as the corrected one. */
  lemma UpdateAgrees(compress: Compression, ctx: Context, input: seq<Byte>)
    requires ctx.count + 8 * |input| < MaxCount
    requires Update(compress, ctx, input).Ok?
    ensures Update(compress, ctx, input).value == UpdateCorrected(compress, ctx, input)
  {
    if |input| >= Need(ctx) {
      AbsorbValue(compress, ctx, input);
      StridesAgree(compress, Flush(compress, ctx, input).1, input, Flush(compress, ctx, input).2);
    }
  }

  /** What the corrected update of a chunk that fills the buffer returns,
      spelled out. */
  lemma CorrectedValue(compress: Compression, ctx: Context, input: seq<Byte>)
    requires ctx.count + 8 * |input| < MaxCount
    requires Need(ctx) <= |input|
    ensures UpdateCorrected(compress, ctx, input).state == StridesCorrected(compress, Flush(compress, ctx, input).1, input, Flush(compress, ctx, input).2).0
    ensures UpdateCorrected(compress, ctx, input).buffer
         == Overwrite(Flush(compress, ctx, input).0, 0, input[StridesCorrected(compress, Flush(compress, ctx, input).1, input, Flush(compress, ctx, input).2).1..])
  {
  }

  /** The block boundary the corrected strides stop at: the stream before
      it is compressed and the rest of it is buffered. */
  lemma CorrectedBoundary(compress: Compression, ctx: Context, consumed: seq<Byte>, input: seq<Byte>) returns (p: nat)
    requires Represents(compress, ctx, consumed)
    requires ctx.count + 8 * |input| < MaxCount
    requires Need(ctx) <= |input|
    ensures p <= |consumed + input| && p % 64 == 0 && |consumed + input| - p < 64
    ensures UpdateCorrected(compress, ctx, input).state == ProcessBlocks(compress, InitialState, (consumed + input)[..p])
    ensures UpdateCorrected(compress, ctx, input).buffer[..|consumed + input| - p] == (consumed + input)[p..]
  {
    CorrectedValue(compress, ctx, input);
    var f := Flush(compress, ctx, input);
    var strided := StridesCorrected(compress, f.1, input, f.2);
    p := |consumed| + strided.1;
    assert p % 64 == 0 && UpdateCorrected(compress, ctx, input).state == ProcessBlocks(compress, InitialState, (consumed + input)[..p]) by {
      FlushRepresents(compress, ctx, consumed, input);
      StepBoundary(Blocked(|consumed|), |consumed| + f.2);
      CorrectedStrides(compress, consumed, input, f.1, f.2);
    }
    assert UpdateCorrected(compress, ctx, input).buffer[..|consumed + input| - p] == (consumed + input)[p..] by {
      OverwritePrefix(f.0, 0, input[strided.1..]);
      assert f.0[..0] + input[strided.1..] == input[strided.1..];
      CutInsideSecond(consumed, input, strided.1, strided.1);
    }
  }

  /** Corrected strides started from a block boundary of the stream, with
      the state that has compressed the stream up to it, stop at another
      block boundary with the state that has compressed the stream up to
      there. */
  lemma CorrectedStrides(compress: Compression, consumed: seq<Byte>, input: seq<Byte>, state: State, from: nat)
    requires from <= |input| && (|consumed| + from) % 64 == 0
    requires state == ProcessBlocks(compress, InitialState, (consumed + input)[..|consumed| + from])
    ensures (|consumed| + StridesCorrected(compress, state, input, from).1) % 64 == 0
    ensures StridesCorrected(compress, state, input, from).0
         == ProcessBlocks(compress, InitialState, (consumed + input)[..|consumed| + StridesCorrected(compress, state, input, from).1])
  {
    var strided := StridesCorrected(compress, state, input, from);
    StridesCorrectedProcessBlocks(compress, state, input, from);
    StridesContinue(compress, consumed, input, from, strided.1, state, strided.0);
  }

  /** The corrected update extends the stream by the chunk, whatever its
      length. */
  lemma UpdateCorrectedExtendsStream(compress: Compression, ctx: Context, consumed: seq<Byte>, input: seq<Byte>)
    requires Represents(compress, ctx, consumed)
    requires ctx.count + 8 * |input| < MaxCount
    ensures Represents(compress, UpdateCorrected(compress, ctx, input), consumed + input)
  {
    if |input| < Need(ctx) {
      AppendRepresents(compress, ctx, consumed, input);
    } else {
      var p := CorrectedBoundary(compress, ctx, consumed, input);
      RepresentsAt(compress, UpdateCorrected(compress, ctx, input), consumed + input, p);
    }
  }

  /** Corrected updates, one per chunk, in order. */
  function UpdateAllCorrected(compress: Compression, ctx: Context, chunks: seq<seq<Byte>>): (r: Context)
    requires ctx.count + 8 * |Flatten(chunks)| < MaxCount
    ensures r.count == ctx.count + 8 * |Flatten(chunks)|
    decreases |chunks|
  {
    if |chunks| == 0 then ctx
    else
      FlattenLength(chunks);
      UpdateAllCorrected(compress, UpdateCorrected(compress, ctx, chunks[0]), chunks[1..])
  }

  /** The length of the concatenation, first chunk split off. */
  lemma FlattenLength(chunks: seq<seq<Byte>>)
    requires |chunks| > 0
    ensures |Flatten(chunks)| == |chunks[0]| + |Flatten(chunks[1..])|
  {
  }

  /** Corrected updates extend the stream by the concatenation of the
      chunks. */
  lemma {:induction false} UpdateAllCorrectedExtendsStream(compress: Compression, ctx: Context, consumed: seq<Byte>, chunks: seq<seq<Byte>>)
    requires Represents(compress, ctx, consumed)
    requires ctx.count + 8 * |Flatten(chunks)| < MaxCount
    ensures Represents(compress, UpdateAllCorrected(compress, ctx, chunks), consumed + Flatten(chunks))
    decreases |chunks|
  {
    if |chunks| > 0 {
      FlattenLength(chunks);
      var next := UpdateCorrected(compress, ctx, chunks[0]);
      UpdateCorrectedExtendsStream(compress, ctx, consumed, chunks[0]);
      UpdateAllCorrectedExtendsStream(compress, next, consumed + chunks[0], chunks[1..]);
      FlattenFirst(consumed, chunks);
    } else {
      assert consumed + Flatten(chunks) == consumed;
    }
  }

  /** With the corrected update, every way of cutting a message into
      update calls yields the reference digest of the whole message. */
  lemma ChunkingInvarianceCorrected(compress: Compression, chunks: seq<seq<Byte>>)
    requires 8 * (|Flatten(chunks)| + 72) < MaxCount
    ensures Final(compress, UpdateAllCorrected(compress, New(), chunks)) == Digest(compress, Flatten(chunks))
  {
    NewRepresentsEmpty(compress);
    UpdateAllCorrectedExtendsStream(compress, New(), [], chunks);
    assert [] + Flatten(chunks) == Flatten(chunks);
    FinalComputesDigest(compress, UpdateAllCorrected(compress, New(), chunks), Flatten(chunks));
  }

  /** The one-shot digest with the corrected update, for any compression
      function, is the reference digest. */
  lemma OneShotCorrected(compress: Compression, input: seq<Byte>)
    requires 8 * (|input| + 72) < MaxCount
    ensures Final(compress, UpdateCorrected(compress, New(), input)) == Digest(compress, input)
  {
    NewRepresentsEmpty(compress);
    UpdateCorrectedExtendsStream(compress, New(), [], input);
    assert [] + input == input;
    FinalComputesDigest(compress, UpdateCorrected(compress, New(), input), input);
  }

  /** `ripemd160(input)` with the corrected update: defined for every
      input whose bit count, padding included, fits in `u64`, and equal to
      the reference digest. */
  function Ripemd160Corrected(input: seq<Byte>): (digest: seq<Byte>)
    requires 8 * (|input| + 72) < MaxCount
    ensures digest == Digest(CompressBlock, input)
  {
    OneShotCorrected(CompressBlock, input);
    Final(CompressBlock, UpdateCorrected(CompressBlock, New(), input))
  }

  /** The discrepancy on a concrete input: 65 zero bytes make the one-shot
      digest as written abort, naming the 65-byte slice the transform
      received, while the corrected one-shot digest is defined. */
  lemma SixtyFiveBytesAbort()
    ensures Ripemd160(Zeros(65)) == Err(BlockLengthMismatch(65))
    ensures Ripemd160Corrected(Zeros(65)) == Digest(CompressBlock, Zeros(65))
  {
  }

  /** As written, every input longer than one block makes the one-shot
      digest abort; where it does not abort it agrees with the corrected
      one. */
  lemma OneShotAsWritten(input: seq<Byte>)
    requires 8 * (|input| + 72) < MaxCount
    ensures Ripemd160(input).Err? <==> 64 < |input|
    ensures Ripemd160(input).Ok? ==> Ripemd160(input).value == Ripemd160Corrected(input)
  {
  }
}
