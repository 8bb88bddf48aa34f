/** The digest as a function of the whole message, independent of how the
    message reaches the engine: the message followed by the MD4-style
    padding of sections 3.1 and 3.2 of RFC 1320 (one 0x80 byte, zeros up to
    56 mod 64, then the bit length as 8 little-endian bytes), compressed
    block by block in order from the initial state, and the final state
    written out little-endian. */
module Reference {
  import opened Encoding
  import opened Tables
  import opened Compress

  /** One more than the largest `u64`, 2^64. */
  const MaxCount: nat := 0x1_0000_0000_0000_0000

  function Zeros(n: nat): (z: seq<Byte>)
    ensures |z| == n && forall i :: 0 <= i < n ==> z[i] == 0
  {
    seq(n, _ => 0)
  }

  /** The state after compressing the complete 64-byte blocks of `data`
      one by one, first block first; fewer than 64 trailing bytes are left
      for later. */
  function ProcessBlocks(compress: Compression, state: State, data: seq<Byte>): State
    decreases |data|
  {
    if |data| < 64 then state else ProcessBlocks(compress, compress(state, data[..64]), data[64..])
  }

  /** Less than a block leaves the state unchanged. */
  lemma ProcessNoBlocks(compress: Compression, state: State, data: seq<Byte>)
    requires |data| < 64
    ensures ProcessBlocks(compress, state, data) == state
  {
  }

  /** A single block is processed by one compression. */
  lemma ProcessOneBlock(compress: Compression, state: State, block: seq<Byte>)
    requires |block| == 64
    ensures ProcessBlocks(compress, state, block) == compress(state, block)
  {
    assert block[..64] == block;
  }

  /** Processing a concatenation is processing the first part and then the
      second: blocks are consumed strictly in stream order. */
  lemma {:induction false} ProcessBlocksAppend(compress: Compression, state: State, a: seq<Byte>, b: seq<Byte>)
    requires |a| % 64 == 0
    ensures ProcessBlocks(compress, state, a + b) == ProcessBlocks(compress, ProcessBlocks(compress, state, a), b)
    decreases |a|
  {
    if |a| == 0 {
      assert a + b == b;
    } else {
      assert (a + b)[..64] == a[..64];
      assert (a + b)[64..] == a[64..] + b;
      ProcessBlocksAppend(compress, compress(state, a[..64]), a[64..], b);
    }
  }

  /** The zeros of the padding bring `len + 1 + zeros` to 56 mod 64, so
      the padded length is a multiple of 64; at most 63 zeros are needed. */
  lemma PaddedLength(len: nat)
    ensures 0 <= (55 - len) % 64 < 64
    ensures (len + 9 + (55 - len) % 64) % 64 == 0
  {
  }

  /** Processing a whole-block prefix followed by one more block is one
      more compression. */
  lemma CompressAfter(compress: Compression, state: State, prefix: seq<Byte>, block: seq<Byte>)
    requires |prefix| % 64 == 0 && |block| == 64
    ensures ProcessBlocks(compress, state, prefix + block) == compress(ProcessBlocks(compress, state, prefix), block)
  {
    ProcessBlocksAppend(compress, state, prefix, block);
    ProcessOneBlock(compress, ProcessBlocks(compress, state, prefix), block);
  }

  /** The padding of a message of `len` bytes: a single 0x80 byte, the
      fewest zero bytes that bring the length to 56 mod 64, and the bit
      length `8 * len` as 8 little-endian bytes. */
  function MdPadding(len: nat): (pad: seq<Byte>)
    requires 8 * len < MaxCount
    ensures 9 <= |pad| <= 72 && (len + |pad|) % 64 == 0
    ensures pad[0] == 0x80 && FromLE(pad[|pad| - 8..]) == 8 * len
  {
    Pow256Of8();
    PaddedLength(len);
    [0x80] + Zeros((55 - len) % 64) + ToLE(8 * len, 8)
  }

  /** The reference digest of a whole message. */
  function Digest(compress: Compression, msg: seq<Byte>): (digest: seq<Byte>)
    requires 8 * |msg| < MaxCount
    ensures |digest| == 20
  {
    EncodeWords(ProcessBlocks(compress, InitialState, msg + MdPadding(|msg|)))
  }
}
