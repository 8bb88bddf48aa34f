/** The streaming digest context `RMDContext` and the operations on it:
    `RMDContext::new`, `rmd160_update`, `rmd160_final` and the one-shot
    `ripemd160`. The context is an immutable value; each operation returns
    the context the Rust code would leave behind. */
module Engine {
  import opened Encoding
  import opened Results
  import opened Tables
  import opened Compress
  import opened Reference

  /** A `u64` value. */
  type U64 = n: nat | n < MaxCount

  /** The 64-byte `buffer` array. */
  type Buffer = b: seq<Byte> | |b| == 64 witness Zeros(64)

  /** `RMDContext`: the running state, the number of bits consumed so far
      and the buffer whose first `(count / 8) % 64` bytes are the input not
      yet compressed. */
  datatype Context = Context(state: State, count: U64, buffer: Buffer)

  /** `PADDING`: 0x80 followed by 63 zero bytes. */
  const Padding: seq<Byte> := [0x80] + Zeros(63)

  /** `RMDContext::new()`. */
  function New(): (ctx: Context)
    ensures ctx.count == 0 && ctx.state == InitialState
  {
    Context(InitialState, 0, Zeros(64))
  }

  /** The number of buffered bytes, `(count / 8) % 64`. */
  function Have(ctx: Context): (have: nat)
    ensures have < 64
  {
    (ctx.count / 8) % 64
  }

  /** `buf` with `data` written at positions `at..at + |data|`, one byte at
      a time as the copy loops of `rmd160_update` do; every index written
      must lie inside `buf`. */
  function Overwrite(buf: seq<Byte>, at: nat, data: seq<Byte>): (r: seq<Byte>)
    requires at + |data| <= |buf|
    ensures |r| == |buf|
  {
    buf[..at] + data + buf[at + |data|..]
  }

  /** Byte `i` of the overwritten buffer comes from `data` inside the
      written range and from `buf` everywhere else. */
  lemma OverwriteBytes(buf: seq<Byte>, at: nat, data: seq<Byte>, i: nat)
    requires at + |data| <= |buf| && i < |buf|
    ensures Overwrite(buf, at, data)[i] == if at <= i < at + |data| then data[i - at] else buf[i]
  {
  }

  /** Up to the end of the written range, the overwritten buffer is the
      untouched front followed by `data`. */
  lemma OverwritePrefix(buf: seq<Byte>, at: nat, data: seq<Byte>)
    requires at + |data| <= |buf|
    ensures Overwrite(buf, at, data)[..at + |data|] == buf[..at] + data
  {
    var r := Overwrite(buf, at, data);
    assert r == (buf[..at] + data) + buf[at + |data|..];
  }

  /** `rmd160_transform(state, block)` with `compress` as the work done
      after its `assert_eq!(block.len(), 64)`: any other length aborts,
      naming that length. */
  function Transform(compress: Compression, state: State, block: seq<Byte>): (r: Result<State>)
    ensures r.Ok? <==> |block| == 64
    ensures r.Err? ==> r.failure == BlockLengthMismatch(|block|)
    ensures r.Ok? ==> r.value == compress(state, block)
  {
    if |block| != 64 then Err(BlockLengthMismatch(|block|)) else Ok(compress(state, block))
  }

  /** The loop `while off + 64 <= inplen { rmd160_transform(&mut state,
      &input[off..]); off += 64; }`, returning the state and the final
      offset. Each call hands the transform the whole remaining tail, so
      the loop survives only if at most 64 bytes remain when it starts;
      otherwise the transform's length assertion fails on that tail. */
  function Strides(compress: Compression, state: State, input: seq<Byte>, off: nat): (r: Result<(State, nat)>)
    requires off <= |input|
    ensures r.Ok? <==> |input| - off <= 64
    ensures r.Err? ==> r.failure == BlockLengthMismatch(|input| - off)
    ensures r.Ok? ==> r.value.1 == if |input| - off == 64 then |input| else off
    decreases |input| - off
  {
    if off + 64 <= |input| then
      var next :- Transform(compress, state, input[off..]);
      Strides(compress, next, input, off + 64)
    else
      Ok((state, off))
  }

  /** A successful stride loop compresses exactly the bytes it stepped
      over, in order. */
  lemma {:induction false} StridesProcessBlocks(compress: Compression, state: State, input: seq<Byte>, off: nat)
    requires off <= |input|
    requires Strides(compress, state, input, off).Ok?
    ensures |input[off..Strides(compress, state, input, off).value.1]| % 64 == 0
    ensures Strides(compress, state, input, off).value.0 == ProcessBlocks(compress, state, input[off..Strides(compress, state, input, off).value.1])
    decreases |input| - off
  {
    if off + 64 <= |input| {
      var next := compress(state, input[off..]);
      assert Strides(compress, state, input, off) == Strides(compress, next, input, off + 64);
      StridesProcessBlocks(compress, next, input, off + 64);
      assert input[off..] == input[off..off + 64];
      ProcessOneBlock(compress, state, input[off..off + 64]);
      ProcessNoBlocks(compress, next, input[off + 64..off + 64]);
    } else {
      ProcessNoBlocks(compress, state, input[off..off]);
    }
  }

  /** Whether `rmd160_update` gets through a chunk of `len` bytes when
      `have` bytes are buffered: with an empty buffer the chunk may be at
      most 64 bytes long, otherwise at most `128 - have`. */
  predicate UpdateFits(have: nat, len: nat)
  {
    if have == 0 then len <= 64 else len <= 128 - have
  }

  /** `rmd160_update(ctx, input)`. The count grows by `8 * len` first (the
      caller must keep it within `u64`). A chunk that does not fill the
      buffer is appended to it and nothing is compressed; any other chunk
      goes through `Absorb`. */
  function Update(compress: Compression, ctx: Context, input: seq<Byte>): (r: Result<Context>)
    requires ctx.count + 8 * |input| < MaxCount
    ensures r.Ok? <==> UpdateFits(Have(ctx), |input|)
    ensures r.Ok? ==> r.value.count == ctx.count + 8 * |input|
  {
    if |input| >= Need(ctx) then Absorb(compress, ctx, input)
    else Ok(Context(ctx.state, ctx.count + 8 * |input|, Overwrite(ctx.buffer, Have(ctx), input)))
  }

  /** The branch of `rmd160_update` for a chunk that fills the buffer: the
      buffer, if it held anything, is completed from the chunk and
      compressed, the following 64-byte strides are compressed straight from
      the chunk, and the tail is copied to the start of the buffer. It
      aborts exactly when the stride loop hands the transform a tail longer
      than 64 bytes. */
  function Absorb(compress: Compression, ctx: Context, input: seq<Byte>): (r: Result<Context>)
    requires ctx.count + 8 * |input| < MaxCount
    requires |input| >= Need(ctx)
    ensures r.Ok? <==> UpdateFits(Have(ctx), |input|)
    ensures r.Ok? ==> r.value.count == ctx.count + 8 * |input|
  {
    var flushed := Flush(compress, ctx, input);
    var strided := Strides(compress, flushed.1, input, flushed.2);
    if strided.Err? then Err(strided.failure)
    else Ok(Context(strided.value.0, ctx.count + 8 * |input|, Overwrite(flushed.0, 0, input[strided.value.1..])))
  }

  /** The free part of the buffer, `need = 64 - have`. */
  function Need(ctx: Context): (need: nat)
    ensures 0 < need <= 64 && Have(ctx) + need == 64
  {
    64 - Have(ctx)
  }

  /** Lines 48-55 of `rmd160_update`: a buffer holding `have > 0` bytes is
      completed with the first `need` bytes of the chunk and compressed,
      and the stride loop starts at `need`; an empty buffer is left alone
      and the stride loop starts at 0. Returns the buffer, the state and
      the starting offset. */
  function Flush(compress: Compression, ctx: Context, input: seq<Byte>): (r: (Buffer, State, nat))
    requires Need(ctx) <= |input|
    ensures r.2 <= |input|
    ensures r.2 == if Have(ctx) > 0 then Need(ctx) else 0
  {
    if Have(ctx) > 0 then
      var buffer := Overwrite(ctx.buffer, Have(ctx), input[..Need(ctx)]);
      (buffer, compress(ctx.state, buffer), Need(ctx))
    else
      (ctx.buffer, ctx.state, 0)
  }

  /** An aborted update names the length of the tail the stride loop
      handed to the transform: the whole chunk when the buffer was empty,
      otherwise what is left after completing the buffer. */
  lemma UpdateFailure(compress: Compression, ctx: Context, input: seq<Byte>)
    requires ctx.count + 8 * |input| < MaxCount
    requires Update(compress, ctx, input).Err?
    ensures Update(compress, ctx, input).failure == BlockLengthMismatch(if Have(ctx) == 0 then |input| else |input| - (64 - Have(ctx)))
  {
  }

  /** The stream invariant: `ctx` is the context left after feeding it
      `consumed`. The count is the bit length of `consumed`, the state has
      compressed every complete 64-byte block of it, and the buffer starts
      with the incomplete tail. */
  ghost predicate Represents(compress: Compression, ctx: Context, consumed: seq<Byte>)
  {
    var done := Blocked(|consumed|);
    && ctx.count == 8 * |consumed|
    && ctx.state == ProcessBlocks(compress, InitialState, consumed[..done])
    && ctx.buffer[..|consumed| - done] == consumed[done..]
  }

  /** The length of the longest prefix of `n` bytes made of whole 64-byte
      blocks. */
  function Blocked(n: nat): (done: nat)
    ensures done <= n && done % 64 == 0 && n - done < 64
    ensures n - done == n % 64
  {
    n - n % 64
  }

  /** A fresh context has consumed nothing. */
  lemma NewRepresentsEmpty(compress: Compression)
    ensures Represents(compress, New(), [])
  {
    ProcessNoBlocks(compress, InitialState, []);
  }

  /** Past a block boundary `p` by fewer than 64 bytes, the remainder of
      `n` modulo 64 is the distance from `p`. */
  lemma BlockBoundary(n: nat, p: nat)
    requires p % 64 == 0 && p <= n < p + 64
    ensures n % 64 == n - p && Blocked(n) == p
  {
  }

  /** A count of `8 * n` bits is `n` bytes. */
  lemma BitsToBytes(n: nat)
    ensures (8 * n) / 8 == n
  {
  }

  /** Bytes that stay within the current block extend the remainder and
      leave the last block boundary where it was. */
  lemma WithinBlock(n: nat, k: nat)
    requires n % 64 + k < 64
    ensures (n + k) % 64 == n % 64 + k
    ensures Blocked(n + k) == Blocked(n)
  {
  }

  /** The invariant from a block boundary `p`: everything before `p` is
      compressed and the fewer than 64 bytes after it are buffered. */
  lemma RepresentsAt(compress: Compression, ctx: Context, total: seq<Byte>, p: nat)
    requires p <= |total| && p % 64 == 0 && |total| - p < 64
    requires ctx.count == 8 * |total|
    requires ctx.state == ProcessBlocks(compress, InitialState, total[..p])
    requires ctx.buffer[..|total| - p] == total[p..]
    ensures Represents(compress, ctx, total)
  {
    BlockBoundary(|total|, p);
  }

  /** Cutting `a + b` inside `a`. */
  lemma CutInsideFirst(a: seq<Byte>, b: seq<Byte>, d: nat)
    requires d <= |a|
    ensures (a + b)[..d] == a[..d]
    ensures (a + b)[d..] == a[d..] + b
  {
  }

  /** A chunk shorter than the free part of the buffer is copied behind
      the buffered bytes; the state and the rest of the buffer are left
      alone. */
  lemma UpdateShortChunk(compress: Compression, ctx: Context, input: seq<Byte>)
    requires ctx.count + 8 * |input| < MaxCount
    requires |input| < 64 - Have(ctx)
    ensures Update(compress, ctx, input) == Ok(Context(ctx.state, ctx.count + 8 * |input|, Overwrite(ctx.buffer, Have(ctx), input)))
  {
  }

  /** Appending to the buffer keeps the invariant. */
  lemma AppendRepresents(compress: Compression, ctx: Context, consumed: seq<Byte>, input: seq<Byte>)
    requires Represents(compress, ctx, consumed)
    requires ctx.count + 8 * |input| < MaxCount
    requires |input| < 64 - Have(ctx)
    ensures Represents(compress, Context(ctx.state, ctx.count + 8 * |input|, Overwrite(ctx.buffer, Have(ctx), input)), consumed + input)
  {
    var n := |consumed|;
    BitsToBytes(n);
    WithinBlock(n, |input|);
    var d := Blocked(n);
    CutInsideFirst(consumed, input, d);
    OverwritePrefix(ctx.buffer, n % 64, input);
    RepresentsAt(compress, Context(ctx.state, ctx.count + 8 * |input|, Overwrite(ctx.buffer, n % 64, input)), consumed + input, d);
  }

  /** An update that fits in the buffer only appends to it. */
  lemma UpdateAppends(compress: Compression, ctx: Context, consumed: seq<Byte>, input: seq<Byte>)
    requires Represents(compress, ctx, consumed)
    requires ctx.count + 8 * |input| < MaxCount
    requires |input| < 64 - Have(ctx)
    ensures Update(compress, ctx, input).Ok?
    ensures Represents(compress, Update(compress, ctx, input).value, consumed + input)
  {
    UpdateShortChunk(compress, ctx, input);
    AppendRepresents(compress, ctx, consumed, input);
  }

  /** The same boundary, or one block past it, is a block boundary. */
  lemma StepBoundary(q: nat, p: nat)
    requires q % 64 == 0 && (p == q || p == q + 64)
    ensures p % 64 == 0
  {
  }

  /** Cutting `a + b` inside `b`. */
  lemma CutInsideSecond(a: seq<Byte>, b: seq<Byte>, i: nat, j: nat)
    requires i <= j <= |b|
    ensures (a + b)[..|a| + i] == a + b[..i]
    ensures (a + b)[..|a| + i] + b[i..j] == (a + b)[..|a| + j]
    ensures (a + b)[|a| + j..] == b[j..]
  {
    assert b[..i] + b[i..j] == b[..j];
    assert (a + b[..i]) + b[i..j] == a + (b[..i] + b[i..j]);
  }

  /** A buffer of `h` bytes completed by `64 - h` more. */
  lemma FullBuffer(buf: seq<Byte>, h: nat, data: seq<Byte>)
    requires |buf| == 64 && h + |data| == 64
    ensures Overwrite(buf, h, data) == buf[..h] + data
  {
    var r := Overwrite(buf, h, data);
    OverwritePrefix(buf, h, data);
    assert r == r[..64];
  }

  /** Regrouping `a + b` at a cut `d` inside `a`. */
  lemma Regroup(a: seq<Byte>, b: seq<Byte>, d: nat)
    requires d <= |a|
    ensures a + b == a[..d] + (a[d..] + b)
  {
    assert a == a[..d] + a[d..];
  }

  /** After `Flush` the state has compressed the stream up to the block
      boundary the stride loop starts from. */
  lemma FlushRepresents(compress: Compression, ctx: Context, consumed: seq<Byte>, input: seq<Byte>)
    requires Represents(compress, ctx, consumed)
    requires Need(ctx) <= |input|
    ensures |consumed| + Flush(compress, ctx, input).2 == Blocked(|consumed|) + (if Have(ctx) > 0 then 64 else 0)
    ensures Flush(compress, ctx, input).1 == ProcessBlocks(compress, InitialState, (consumed + input)[..|consumed| + Flush(compress, ctx, input).2])
  {
    var n := |consumed|;
    BitsToBytes(n);
    var d := Blocked(n);
    if Have(ctx) > 0 {
      var need := Need(ctx);
      var buffer := Overwrite(ctx.buffer, Have(ctx), input[..need]);
      FullBuffer(ctx.buffer, Have(ctx), input[..need]);
      assert buffer == consumed[d..] + input[..need];
      CutInsideSecond(consumed, input, need, need);
      Regroup(consumed, input[..need], d);
      CompressAfter(compress, InitialState, consumed[..d], buffer);
    } else {
      CutInsideSecond(consumed, input, 0, 0);
      assert consumed + input[..0] == consumed[..d];
    }
  }

  /** A chunk that fills the buffer keeps the invariant when the update
      gets through: the strides compressed straight from the chunk continue
      the stream where the flushed buffer ended, and the tail left in the
      buffer is what follows the last stride. */
  lemma AbsorbRepresents(compress: Compression, ctx: Context, consumed: seq<Byte>, input: seq<Byte>)
    requires Represents(compress, ctx, consumed)
    requires ctx.count + 8 * |input| < MaxCount
    requires Need(ctx) <= |input|
    requires Absorb(compress, ctx, input).Ok?
    ensures Represents(compress, Absorb(compress, ctx, input).value, consumed + input)
  {
    var p := AbsorbBoundary(compress, ctx, consumed, input);
    RepresentsAt(compress, Absorb(compress, ctx, input).value, consumed + input, p);
  }

  /** The block boundary `p` the strides stop at: the stream before it is
      compressed and the rest of it is buffered. */
  lemma AbsorbBoundary(compress: Compression, ctx: Context, consumed: seq<Byte>, input: seq<Byte>) returns (p: nat)
    requires Represents(compress, ctx, consumed)
    requires ctx.count + 8 * |input| < MaxCount
    requires Need(ctx) <= |input|
    requires Absorb(compress, ctx, input).Ok?
    ensures p <= |consumed + input| && p % 64 == 0 && |consumed + input| - p < 64
    ensures Absorb(compress, ctx, input).value.state == ProcessBlocks(compress, InitialState, (consumed + input)[..p])
    ensures Absorb(compress, ctx, input).value.buffer[..|consumed + input| - p] == (consumed + input)[p..]
  {
    AbsorbValue(compress, ctx, input);
    var f := Flush(compress, ctx, input);
    var end := Strides(compress, f.1, input, f.2).value.1;
    p := |consumed| + end;
    assert p % 64 == 0 && Absorb(compress, ctx, input).value.state == ProcessBlocks(compress, InitialState, (consumed + input)[..p]) by {
      FlushRepresents(compress, ctx, consumed, input);
      StepBoundary(Blocked(|consumed|), |consumed| + f.2);
      AbsorbStrides(compress, consumed, input, f.1, f.2);
    }
    assert Absorb(compress, ctx, input).value.buffer[..|consumed + input| - p] == (consumed + input)[p..] by {
      OverwritePrefix(f.0, 0, input[end..]);
      assert f.0[..0] + input[end..] == input[end..];
      CutInsideSecond(consumed, input, end, end);
    }
  }

  /** What `Absorb` returns when it gets through, spelled out. */
  lemma AbsorbValue(compress: Compression, ctx: Context, input: seq<Byte>)
    requires ctx.count + 8 * |input| < MaxCount
    requires Need(ctx) <= |input|
    requires Absorb(compress, ctx, input).Ok?
    ensures Strides(compress, Flush(compress, ctx, input).1, input, Flush(compress, ctx, input).2).Ok?
    ensures Absorb(compress, ctx, input).value.state == Strides(compress, Flush(compress, ctx, input).1, input, Flush(compress, ctx, input).2).value.0
    ensures Absorb(compress, ctx, input).value.buffer == Overwrite(Flush(compress, ctx, input).0, 0, input[Strides(compress, Flush(compress, ctx, input).1, input, Flush(compress, ctx, input).2).value.1..])
  {
  }

  /** Strides started from a block boundary of the stream, with the state
      that has compressed the stream up to it, stop at another block
      boundary with the state that has compressed the stream up to there. */
  lemma AbsorbStrides(compress: Compression, consumed: seq<Byte>, input: seq<Byte>, state: State, from: nat)
    requires from <= |input| && (|consumed| + from) % 64 == 0
    requires state == ProcessBlocks(compress, InitialState, (consumed + input)[..|consumed| + from])
    requires Strides(compress, state, input, from).Ok?
    ensures (|consumed| + Strides(compress, state, input, from).value.1) % 64 == 0
    ensures Strides(compress, state, input, from).value.0
         == ProcessBlocks(compress, InitialState, (consumed + input)[..|consumed| + Strides(compress, state, input, from).value.1])
  {
    var strided := Strides(compress, state, input, from).value;
    StridesProcessBlocks(compress, state, input, from);
    StridesContinue(compress, consumed, input, from, strided.1, state, strided.0);
  }

  /** Whole blocks of the chunk compressed after a block boundary of the
      stream continue the stream to the next boundary. */
  lemma StridesContinue(compress: Compression, consumed: seq<Byte>, input: seq<Byte>, from: nat, to: nat, mid: State, last: State)
    requires from <= to <= |input|
    requires (|consumed| + from) % 64 == 0 && |input[from..to]| % 64 == 0
    requires mid == ProcessBlocks(compress, InitialState, (consumed + input)[..|consumed| + from])
    requires last == ProcessBlocks(compress, mid, input[from..to])
    ensures (|consumed| + to) % 64 == 0
    ensures last == ProcessBlocks(compress, InitialState, (consumed + input)[..|consumed| + to])
  {
    BoundaryAfterStrides(|consumed| + from, |consumed| + to);
    ProcessBlocksAppend(compress, InitialState, (consumed + input)[..|consumed| + from], input[from..to]);
    CutInsideSecond(consumed, input, from, to);
  }

  /** Whole blocks past a block boundary end on a block boundary. */
  lemma BoundaryAfterStrides(q: nat, p: nat)
    requires q % 64 == 0 && q <= p && (p - q) % 64 == 0
    ensures p % 64 == 0
  {
    SplitBy64(q, q / 64, 0);
    SplitBy64(p - q, (p - q) / 64, 0);
    SplitBy64(p, q / 64 + (p - q) / 64, 0);
  }

  /** `rmd160_update` extends the stream: whenever it gets through, the
      context it leaves has consumed exactly the old stream followed by the
      chunk. */
  lemma UpdateExtendsStream(compress: Compression, ctx: Context, consumed: seq<Byte>, input: seq<Byte>)
    requires Represents(compress, ctx, consumed)
    requires ctx.count + 8 * |input| < MaxCount
    requires Update(compress, ctx, input).Ok?
    ensures Represents(compress, Update(compress, ctx, input).value, consumed + input)
  {
    if |input| < Need(ctx) {
      UpdateAppends(compress, ctx, consumed, input);
    } else {
      AbsorbRepresents(compress, ctx, consumed, input);
    }
  }

  /** `padlen` of `rmd160_final`: the room left in the current block, plus
      a whole block when that room cannot hold the 0x80 byte and the 8
      length bytes. It ends the stream on a block boundary. */
  function PadLen(ctx: Context): (padlen: nat)
    ensures 9 <= padlen <= 72
    ensures Have(ctx) + padlen == 64 || Have(ctx) + padlen == 128
  {
    var padlen := 64 - Have(ctx);
    if padlen < 1 + 8 then padlen + 64 else padlen
  }

  /** Advancing a bit count by `8 * k` advances the buffered-byte count by
      `k` modulo 64. */
  lemma HaveAdvance(c: nat, k: nat)
    ensures ((c + 8 * k) / 8) % 64 == ((c / 8) % 64 + k) % 64
  {
    var q := c / 8;
    SplitByEight(c + 8 * k, q + k, c % 8);
    var b := q % 64;
    SplitBy64(q + k, q / 64 + (b + k) / 64, (b + k) % 64);
    SplitBy64(b + k, (b + k) / 64, (b + k) % 64);
  }

  /** Division by 8 with an explicit quotient and remainder. */
  lemma SplitByEight(n: int, q: int, r: int)
    requires 0 <= r < 8 && n == 8 * q + r
    ensures n / 8 == q && n % 8 == r
  {
  }

  /** Division by 64 with an explicit quotient and remainder. */
  lemma SplitBy64(n: int, q: int, r: int)
    requires 0 <= r < 64 && n == 64 * q + r
    ensures n / 64 == q && n % 64 == r
  {
  }

  /** Feeding `k` more bytes moves the buffered-byte count on by `k`
      modulo 64. */
  lemma HaveAfter(before: Context, after: Context, k: nat)
    requires after.count == before.count + 8 * k
    ensures Have(after) == (Have(before) + k) % 64
  {
    HaveAdvance(before.count, k);
  }

  /** After the first padding update the buffer holds 56 bytes. */
  lemma PadRemainder(h: nat, padlen: nat, k: nat)
    requires 9 <= padlen && (h + padlen == 64 || h + padlen == 128) && k == padlen - 8
    ensures (h + k) % 64 == 56
  {
  }

  /** Eight more bytes after 56 complete the block. */
  lemma LastEight(h: nat, h2: nat)
    requires h == 56 && h2 == (h + 8) % 64
    ensures h2 == 0
  {
  }

  /** The padding chunk of `rmd160_final` always fits the update. */
  lemma PadFits(ctx: Context)
    ensures UpdateFits(Have(ctx), PadLen(ctx) - 8)
  {
  }

  /** `PADDING[..padlen - 8]`: the marker byte and the zeros of the first
      padding update of `rmd160_final`. */
  function PadChunk(ctx: Context): (pad: seq<Byte>)
    ensures |pad| == PadLen(ctx) - 8
    ensures UpdateFits(Have(ctx), |pad|)
  {
    PadFits(ctx);
    Padding[..PadLen(ctx) - 8]
  }

  /** `count.to_le_bytes()`: the bit count taken before padding, as the 8
      bytes of the second padding update. */
  function SizeBytes(ctx: Context): (size: seq<Byte>)
    requires ctx.count < MaxCount
    ensures |size| == 8 && FromLE(size) == ctx.count
  {
    Pow256Of8();
    ToLE(ctx.count, 8)
  }

  /** The context after the first padding update of `rmd160_final`. It
      cannot abort, and it leaves 56 bytes in the buffer. */
  function PadFirst(compress: Compression, ctx: Context): (r: Context)
    requires ctx.count + 8 * PadLen(ctx) < MaxCount
    ensures r.count == ctx.count + 8 * (PadLen(ctx) - 8)
    ensures Have(r) == 56
  {
    var first := Update(compress, ctx, PadChunk(ctx)).value;
    HaveAfter(ctx, first, PadLen(ctx) - 8);
    PadRemainder(Have(ctx), PadLen(ctx), PadLen(ctx) - 8);
    first
  }

  /** The context after both padding updates of `rmd160_final`. Neither
      update can abort, the count must stay within `u64`, and the padded
      stream ends on a block boundary. */
  function Padded(compress: Compression, ctx: Context): (r: Context)
    requires ctx.count + 8 * PadLen(ctx) < MaxCount
    ensures r.count == ctx.count + 8 * PadLen(ctx)
    ensures Have(r) == 0
  {
    var first := PadFirst(compress, ctx);
    SizeFits(first);
    var second := Update(compress, first, SizeBytes(ctx)).value;
    HaveAfter(first, second, 8);
    LastEight(Have(first), Have(second));
    second
  }

  /** Eight bytes fit behind 56 buffered ones. */
  lemma SizeFits(ctx: Context)
    requires Have(ctx) == 56
    ensures UpdateFits(Have(ctx), 8)
  {
  }

  /** `rmd160_final`: pad, then write the five state words little-endian. */
  function Final(compress: Compression, ctx: Context): (digest: seq<Byte>)
    requires ctx.count + 8 * PadLen(ctx) < MaxCount
    ensures |digest| == 20
    ensures DecodeWords(digest) == Padded(compress, ctx).state
  {
    var digest := EncodeWords(Padded(compress, ctx).state);
    DecodeEncodeWords(Padded(compress, ctx).state);
    digest
  }

  /** The zeros `rmd160_final` takes from `PADDING` are exactly those the
      MD4-style padding needs. */
  lemma ZeroCount(n: nat, padlen: nat)
    requires 9 <= padlen <= 72 && (n % 64 + padlen == 64 || n % 64 + padlen == 128)
    ensures padlen - 9 == (55 - n) % 64
  {
    var q := n / 64;
    assert 55 - n == (padlen - 9) + 64 * (-q - (if n % 64 + padlen == 64 then 0 else 1));
  }

  /** The first `k` bytes of `PADDING`. */
  lemma PaddingPrefix(k: nat)
    requires 1 <= k <= 64
    ensures Padding[..k] == [0x80] + Zeros(k - 1)
  {
  }

  /** The two padding updates of `rmd160_final` append the padding of the
      reference digest to the stream. */
  lemma FinalPaddingIsMdPadding(ctx: Context, n: nat)
    requires ctx.count == 8 * n && ctx.count + 8 * PadLen(ctx) < MaxCount
    ensures PadChunk(ctx) + SizeBytes(ctx) == MdPadding(n)
  {
    BitsToBytes(n);
    ZeroCount(n, PadLen(ctx));
    PaddingPrefix(PadLen(ctx) - 8);
  }

  /** `PadFirst` is the first padding update, which gets through. */
  lemma PadFirstIsUpdate(compress: Compression, ctx: Context)
    requires ctx.count + 8 * PadLen(ctx) < MaxCount
    ensures Update(compress, ctx, PadChunk(ctx)).Ok?
    ensures PadFirst(compress, ctx) == Update(compress, ctx, PadChunk(ctx)).value
  {
  }

  /** `Padded` is the second padding update, which gets through. */
  lemma PaddedIsUpdate(compress: Compression, ctx: Context)
    requires ctx.count + 8 * PadLen(ctx) < MaxCount
    ensures Update(compress, PadFirst(compress, ctx), SizeBytes(ctx)).Ok?
    ensures Padded(compress, ctx) == Update(compress, PadFirst(compress, ctx), SizeBytes(ctx)).value
  {
    SizeFits(PadFirst(compress, ctx));
  }

  /** A stream whose length is a whole number of blocks is entirely
      compressed. */
  lemma WholeBlocks(compress: Compression, ctx: Context, consumed: seq<Byte>)
    requires Represents(compress, ctx, consumed) && Have(ctx) == 0
    ensures ctx.state == ProcessBlocks(compress, InitialState, consumed)
  {
    BitsToBytes(|consumed|);
    assert consumed[..Blocked(|consumed|)] == consumed;
  }

  /** The stream after the two padding updates is the consumed stream
      followed by its MD4-style padding. */
  lemma PaddedStream(ctx: Context, consumed: seq<Byte>)
    requires ctx.count == 8 * |consumed| && ctx.count + 8 * PadLen(ctx) < MaxCount
    ensures consumed + PadChunk(ctx) + SizeBytes(ctx) == consumed + MdPadding(|consumed|)
  {
    FinalPaddingIsMdPadding(ctx, |consumed|);
  }

  /** The context `Padded` leaves has consumed the padded stream. */
  lemma PaddedRepresents(compress: Compression, ctx: Context, consumed: seq<Byte>)
    requires Represents(compress, ctx, consumed)
    requires ctx.count + 8 * PadLen(ctx) < MaxCount
    ensures Represents(compress, Padded(compress, ctx), consumed + MdPadding(|consumed|))
  {
    PadFirstIsUpdate(compress, ctx);
    UpdateExtendsStream(compress, ctx, consumed, PadChunk(ctx));
    PaddedIsUpdate(compress, ctx);
    UpdateExtendsStream(compress, PadFirst(compress, ctx), consumed + PadChunk(ctx), SizeBytes(ctx));
    PaddedStream(ctx, consumed);
  }

  /** `rmd160_final` on a context that has consumed `consumed` returns the
      reference digest of `consumed`: padding the stream and compressing
      its last blocks gives the same state as compressing the padded
      message from the start. */
  lemma FinalComputesDigest(compress: Compression, ctx: Context, consumed: seq<Byte>)
    requires Represents(compress, ctx, consumed)
    requires ctx.count + 8 * PadLen(ctx) < MaxCount
    ensures Final(compress, ctx) == Digest(compress, consumed)
  {
    PaddedRepresents(compress, ctx, consumed);
    WholeBlocks(compress, Padded(compress, ctx), consumed + MdPadding(|consumed|));
  }

  /** One update of a fresh context with the whole input, then the final
      step, for any compression function: the update aborts exactly for
      inputs longer than 64 bytes, naming their length, and otherwise the
      result is the reference digest. */
  lemma OneShot(compress: Compression, input: seq<Byte>)
    requires 8 * (|input| + 72) < MaxCount
    ensures Update(compress, New(), input).Ok? <==> |input| <= 64
    ensures Update(compress, New(), input).Err? ==> Update(compress, New(), input).failure == BlockLengthMismatch(|input|)
    ensures Update(compress, New(), input).Ok? ==> Final(compress, Update(compress, New(), input).value) == Digest(compress, input)
  {
    if Update(compress, New(), input).Err? {
      UpdateFailure(compress, New(), input);
    } else {
      NewRepresentsEmpty(compress);
      UpdateExtendsStream(compress, New(), [], input);
      assert [] + input == input;
      FinalComputesDigest(compress, Update(compress, New(), input).value, input);
    }
  }

  /** `ripemd160(input)`: a fresh context, one update with the whole
      input, then `rmd160_final`, with `rmd160_transform` as the
      compression function. The single update aborts for inputs longer
      than 64 bytes; otherwise the result is the reference digest. The bit
      count, padding included, must stay within `u64`. */
  function Ripemd160(input: seq<Byte>): (r: Result<seq<Byte>>)
    requires 8 * (|input| + 72) < MaxCount
    ensures r.Ok? <==> |input| <= 64
    ensures r.Err? ==> r.failure == BlockLengthMismatch(|input|)
    ensures r.Ok? ==> r.value == Digest(CompressBlock, input)
  {
    OneShot(CompressBlock, input);
    var updated := Update(CompressBlock, New(), input);
    if updated.Err? then Err(updated.failure) else Ok(Final(CompressBlock, updated.value))
  }

  /** The chunks written one after the other. */
  function Flatten(chunks: seq<seq<Byte>>): (all: seq<Byte>)
  {
    if |chunks| == 0 then [] else chunks[0] + Flatten(chunks[1..])
  }

  /** `rmd160_update` called once per chunk, in order, stopping at the
      first update that aborts. */
  function UpdateAll(compress: Compression, ctx: Context, chunks: seq<seq<Byte>>): (r: Result<Context>)
    requires ctx.count + 8 * |Flatten(chunks)| < MaxCount
    ensures r.Ok? ==> r.value.count == ctx.count + 8 * |Flatten(chunks)|
    decreases |chunks|
  {
    if |chunks| == 0 then Ok(ctx)
    else
      var next := Update(compress, ctx, chunks[0]);
      if next.Err? then Err(next.failure) else UpdateAll(compress, next.value, chunks[1..])
  }

  /** Feeding chunks one update at a time extends the stream by their
      concatenation whenever every update gets through. */
  lemma {:induction false} UpdateAllExtendsStream(compress: Compression, ctx: Context, consumed: seq<Byte>, chunks: seq<seq<Byte>>)
    requires Represents(compress, ctx, consumed)
    requires ctx.count + 8 * |Flatten(chunks)| < MaxCount
    requires UpdateAll(compress, ctx, chunks).Ok?
    ensures Represents(compress, UpdateAll(compress, ctx, chunks).value, consumed + Flatten(chunks))
    decreases |chunks|
  {
    if |chunks| > 0 {
      UpdateAllFirst(compress, ctx, chunks);
      var next := Update(compress, ctx, chunks[0]).value;
      UpdateExtendsStream(compress, ctx, consumed, chunks[0]);
      UpdateAllExtendsStream(compress, next, consumed + chunks[0], chunks[1..]);
      FlattenFirst(consumed, chunks);
    } else {
      assert consumed + Flatten(chunks) == consumed;
    }
  }

  /** The first chunk comes first in the concatenation. */
  lemma FlattenFirst(consumed: seq<Byte>, chunks: seq<seq<Byte>>)
    requires |chunks| > 0
    ensures consumed + chunks[0] + Flatten(chunks[1..]) == consumed + Flatten(chunks)
  {
  }

  /** A run of updates that gets through starts with an update that gets
      through, and continues from its context with the rest. */
  lemma UpdateAllFirst(compress: Compression, ctx: Context, chunks: seq<seq<Byte>>)
    requires |chunks| > 0
    requires ctx.count + 8 * |Flatten(chunks)| < MaxCount
    requires UpdateAll(compress, ctx, chunks).Ok?
    ensures ctx.count + 8 * |chunks[0]| < MaxCount
    ensures Update(compress, ctx, chunks[0]).Ok?
    ensures Update(compress, ctx, chunks[0]).value.count + 8 * |Flatten(chunks[1..])| < MaxCount
    ensures UpdateAll(compress, Update(compress, ctx, chunks[0]).value, chunks[1..]) == UpdateAll(compress, ctx, chunks)
  {
  }

  /** How a message is cut into update calls does not change the digest,
      as long as every update gets through: both cuttings give the
      reference digest of the whole message. */
  lemma ChunkingInvariance(compress: Compression, chunks1: seq<seq<Byte>>, chunks2: seq<seq<Byte>>)
    requires Flatten(chunks1) == Flatten(chunks2)
    requires 8 * (|Flatten(chunks1)| + 72) < MaxCount
    requires UpdateAll(compress, New(), chunks1).Ok? && UpdateAll(compress, New(), chunks2).Ok?
    ensures Final(compress, UpdateAll(compress, New(), chunks1).value) == Digest(compress, Flatten(chunks1))
    ensures Final(compress, UpdateAll(compress, New(), chunks2).value) == Digest(compress, Flatten(chunks1))
  {
    NewRepresentsEmpty(compress);
    UpdateAllExtendsStream(compress, New(), [], chunks1);
    UpdateAllExtendsStream(compress, New(), [], chunks2);
    assert [] + Flatten(chunks1) == Flatten(chunks1);
    FinalComputesDigest(compress, UpdateAll(compress, New(), chunks1).value, Flatten(chunks1));
    FinalComputesDigest(compress, UpdateAll(compress, New(), chunks2).value, Flatten(chunks1));
  }
}
