/** Bytes, 32-bit words and the little-endian conversions between them
    (`u32::from_le_bytes`, `u32::to_le_bytes`, `u64::to_le_bytes`). */
module Encoding {

  /** An unsigned 8-bit value (`u8`). */
  type Byte = bv8

  /** An unsigned 32-bit value (`u32`); `+` on it wraps modulo 2^32. */
  type Word = bv32

  function Pow256(k: nat): (p: nat)
    ensures p > 0
  {
    if k == 0 then 1 else 256 * Pow256(k - 1)
  }

  /** Eight bytes hold the numbers below 2^64. */
  lemma Pow256Of8()
    ensures Pow256(8) == 0x1_0000_0000_0000_0000
  {
  }

  /** The number whose little-endian base-256 digits are `bytes`. */
  function FromLE(bytes: seq<Byte>): (n: nat)
    ensures n < Pow256(|bytes|)
  {
    if |bytes| == 0 then 0 else bytes[0] as int + 256 * FromLE(bytes[1..])
  }

  /** The byte holding a number below 16, assembled from its four bits.
      This stands in for `(m % 256) as Byte` because proofs about an
      integer-to-bit-vector conversion are costly for the solver. */
  function NibbleOf(m: int): (b: Byte)
    requires 0 <= m < 16
  {
    (if m >= 8 then 8 else 0) + (if m % 8 >= 4 then 4 else 0) + (if m % 4 >= 2 then 2 else 0) + (if m % 2 == 1 then 1 else 0)
  }

  lemma NibbleOfValue(m: int)
    requires 0 <= m < 16
    ensures NibbleOf(m) as int == m && NibbleOf(m) < 16
  {
  }

  lemma CombineNibbles(h: Byte, l: Byte)
    requires h < 16 && l < 16
    ensures (h * 16 + l) as int == h as int * 16 + l as int
  {
  }

  /** The byte holding a number below 256 (a `u8` cast of a value that fits). */
  function ByteOf(m: int): (b: Byte)
    requires 0 <= m < 256
  {
    NibbleOf(m / 16) * 16 + NibbleOf(m % 16)
  }

  /** `ByteOf` is the inverse of reading a byte as a number, in both directions. */
  lemma ByteOfValue(m: int)
    requires 0 <= m < 256
    ensures ByteOf(m) as int == m
  {
    NibbleOfValue(m / 16);
    NibbleOfValue(m % 16);
    CombineNibbles(NibbleOf(m / 16), NibbleOf(m % 16));
  }

  lemma ValueByteOf(b: Byte)
    ensures ByteOf(b as int) == b
  {
    ByteOfValue(b as int);
  }

  /** The `k`-byte little-endian encoding of `n`, least significant byte
      first; `n.to_le_bytes()` for `k == 8` and a `u64` value `n`. */
  function ToLE(n: nat, k: nat): (bytes: seq<Byte>)
    requires n < Pow256(k)
    ensures |bytes| == k
    ensures FromLE(bytes) == n
  {
    if k == 0 then []
    else
      ByteOfValue(n % 256);
      [ByteOf(n % 256)] + ToLE(n / 256, k - 1)
  }

  /** The lowest base-256 digit of `n == d + 256 * r` is `d`, the rest is `r`. */
  lemma SplitDigit(n: int, d: int, r: int)
    requires 0 <= d < 256 && n == d + 256 * r
    ensures n % 256 == d && n / 256 == r
  {
  }

  /** Reading bytes as a number and re-encoding it at the same width gives
      back the bytes, so `ToLE` and `FromLE` are inverse bijections. */
  lemma {:induction false} ToLEFromLE(bytes: seq<Byte>)
    ensures ToLE(FromLE(bytes), |bytes|) == bytes
  {
    if |bytes| > 0 {
      var rest := bytes[1..];
      ToLEFromLE(rest);
      LowestDigit(bytes);
      var n := FromLE(bytes);
      assert ToLE(n, |bytes|) == [ByteOf(n % 256)] + ToLE(n / 256, |rest|);
      assert bytes == [bytes[0]] + rest;
    }
  }

  /** The first byte is the lowest base-256 digit of the number. */
  lemma LowestDigit(bytes: seq<Byte>)
    requires |bytes| > 0
    ensures ByteOf(FromLE(bytes) % 256) == bytes[0]
    ensures FromLE(bytes) / 256 == FromLE(bytes[1..])
  {
    var d := bytes[0] as int;
    var r := FromLE(bytes[1..]);
    SplitDigit(FromLE(bytes), d, r);
    ValueByteOf(bytes[0]);
  }

  /** `w.to_le_bytes()`: byte `k` holds bits `8k..8k+8` of `w`. */
  function WordToLE(w: Word): (bytes: seq<Byte>)
    ensures |bytes| == 4
  {
    [(w & 0xFF) as bv8, ((w >> 8) & 0xFF) as bv8, ((w >> 16) & 0xFF) as bv8, (w >> 24) as bv8]
  }

  /** `u32::from_le_bytes`: the first byte is the least significant. */
  function WordFromLE(bytes: seq<Byte>): (w: Word)
    requires |bytes| == 4
    ensures WordToLE(w) == bytes
  {
    (bytes[0] as bv32) | ((bytes[1] as bv32) << 8) | ((bytes[2] as bv32) << 16) | ((bytes[3] as bv32) << 24)
  }

  /** Encoding a word and decoding the bytes gives back the word. */
  lemma WordRoundTrip(w: Word)
    ensures WordFromLE(WordToLE(w)) == w
  {
  }

  /** The words of `ws` written one after the other, each little-endian. */
  function EncodeWords(ws: seq<Word>): (bytes: seq<Byte>)
    ensures |bytes| == 4 * |ws|
    ensures forall i :: 0 <= i < |ws| ==> bytes[4 * i..4 * i + 4] == WordToLE(ws[i])
  {
    if |ws| == 0 then []
    else
      var rest := EncodeWords(ws[1..]);
      assert forall i :: 1 <= i < |ws| ==> (WordToLE(ws[0]) + rest)[4 * i..4 * i + 4] == rest[4 * (i - 1)..4 * (i - 1) + 4];
      WordToLE(ws[0]) + rest
  }

  /** The words of a byte string cut into 4-byte groups, each read
      little-endian, as the transform's `block.chunks(4)` loop does. */
  function DecodeWords(bytes: seq<Byte>): (ws: seq<Word>)
    requires |bytes| % 4 == 0
    ensures |ws| == |bytes| / 4
    ensures forall i :: 0 <= i < |ws| ==> WordToLE(ws[i]) == bytes[4 * i..4 * i + 4]
  {
    if |bytes| == 0 then []
    else
      var rest := DecodeWords(bytes[4..]);
      assert forall i :: 1 <= i <= |rest| ==> bytes[4 * i..4 * i + 4] == bytes[4..][4 * (i - 1)..4 * (i - 1) + 4];
      [WordFromLE(bytes[..4])] + rest
  }

  /** Encoding the decoded words gives back the bytes. */
  lemma {:induction false} EncodeDecodeWords(bytes: seq<Byte>)
    requires |bytes| % 4 == 0
    ensures EncodeWords(DecodeWords(bytes)) == bytes
  {
    if |bytes| > 0 {
      var ws := DecodeWords(bytes);
      EncodeDecodeWords(bytes[4..]);
      assert ws[1..] == DecodeWords(bytes[4..]);
      assert bytes == bytes[..4] + bytes[4..];
    }
  }

  /** Decoding what `EncodeWords` wrote recovers the words. */
  lemma {:induction false} DecodeEncodeWords(ws: seq<Word>)
    ensures DecodeWords(EncodeWords(ws)) == ws
  {
    if |ws| > 0 {
      DecodeEncodeWords(ws[1..]);
      var bytes := EncodeWords(ws);
      assert bytes[..4] == WordToLE(ws[0]);
      assert bytes[4..] == EncodeWords(ws[1..]);
      WordRoundTrip(ws[0]);
    }
  }
}
