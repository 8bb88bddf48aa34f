/** The fixed constants of the transform: round constants, message-word
    selection tables and rotation tables, one row per round. */
module Tables {
  import opened Encoding

  /** The state `RMDContext::new` starts from. */
  const InitialState: seq<Word> := [0x67452301, 0xEFCDAB89, 0x98BADCFE, 0x10325476, 0xC3D2E1F0]

  /** `k = [K0, K1, K2, K3, K4]`, the left line's round constants. */
  const LeftConstants: seq<Word> := [0x00000000, 0x5A827999, 0x6ED9EBA1, 0x8F1BBCDC, 0xA953FD4E]

  /** `kk = [KK0, KK1, KK2, KK3, KK4]`, the right line's round constants. */
  const RightConstants: seq<Word> := [0x50A28BE6, 0x5C4DD124, 0x6D703EF3, 0x7A6D76E9, 0x00000000]

  /** `lhs`: which message word the left line reads at each step. */
  const LeftWords: seq<seq<nat>> := [
    [0, 1, 2, 3, 4, 5, 6, 7, 8, 9, 10, 11, 12, 13, 14, 15],
    [7, 4, 13, 1, 10, 6, 15, 3, 12, 0, 9, 5, 2, 14, 11, 8],
    [3, 10, 14, 4, 9, 15, 8, 1, 2, 7, 0, 6, 13, 11, 5, 12],
    [1, 9, 11, 10, 0, 8, 12, 4, 13, 3, 7, 15, 14, 5, 6, 2],
    [4, 0, 5, 9, 7, 12, 2, 10, 14, 1, 3, 8, 11, 6, 15, 13]
  ]

  /** `rhs`: which message word the right line reads at each step. */
  const RightWords: seq<seq<nat>> := [
    [5, 14, 7, 0, 9, 2, 11, 4, 13, 6, 15, 8, 1, 10, 3, 12],
    [6, 11, 3, 7, 0, 13, 5, 10, 14, 15, 8, 12, 4, 9, 1, 2],
    [15, 5, 1, 3, 7, 14, 6, 9, 11, 8, 12, 2, 10, 0, 4, 13],
    [8, 6, 4, 1, 3, 11, 15, 0, 5, 12, 2, 13, 9, 7, 10, 14],
    [12, 15, 10, 4, 1, 5, 8, 7, 6, 2, 13, 14, 0, 3, 9, 11]
  ]

  /** `lhs_rotates`: the left line's rotation amount at each step. */
  const LeftRotates: seq<seq<nat>> := [
    [11, 14, 15, 12, 5, 8, 7, 9, 11, 13, 14, 15, 6, 7, 9, 8],
    [7, 6, 8, 13, 11, 9, 7, 15, 7, 12, 15, 9, 11, 7, 13, 12],
    [11, 13, 6, 7, 14, 9, 13, 15, 14, 8, 13, 6, 5, 12, 7, 5],
    [11, 12, 14, 15, 14, 15, 9, 8, 9, 14, 5, 6, 8, 6, 5, 12],
    [9, 15, 5, 11, 6, 8, 13, 12, 5, 12, 13, 14, 11, 8, 5, 6]
  ]

  /** `rhs_rotates`: the right line's rotation amount at each step. */
  const RightRotates: seq<seq<nat>> := [
    [8, 9, 9, 11, 13, 15, 15, 5, 7, 7, 8, 11, 14, 14, 12, 6],
    [9, 13, 15, 7, 12, 8, 9, 11, 7, 7, 12, 7, 6, 15, 13, 11],
    [9, 7, 15, 11, 8, 6, 6, 14, 12, 13, 5, 14, 13, 13, 7, 5],
    [15, 5, 8, 11, 14, 14, 6, 14, 6, 9, 12, 9, 12, 5, 15, 8],
    [8, 5, 12, 9, 12, 5, 14, 6, 8, 13, 6, 5, 15, 13, 11, 11]
  ]

  /** Five rows of sixteen entries each. */
  ghost predicate Shaped<T>(t: seq<seq<T>>)
  {
    |t| == 5 && forall i :: 0 <= i < 5 ==> |t[i]| == 16
  }

  /** Every entry indexes the 16-word message schedule. */
  ghost predicate IndexesSchedule(t: seq<seq<nat>>)
  {
    Shaped(t) && forall i, j :: 0 <= i < 5 && 0 <= j < 16 ==> t[i][j] < 16
  }

  /** Every entry is a rotation amount between 5 and 15. */
  ghost predicate RotatesWithin5To15(t: seq<seq<nat>>)
  {
    Shaped(t) && forall i, j :: 0 <= i < 5 && 0 <= j < 16 ==> 5 <= t[i][j] <= 15
  }

  /** `row` lists each of the indices 0..15 exactly once. */
  ghost predicate IsPermutation16(row: seq<nat>)
  {
    && |row| == 16
    && (forall j :: 0 <= j < 16 ==> row[j] < 16)
    && (forall w :: 0 <= w < 16 ==> w in row)
    && (forall j1, j2 :: 0 <= j1 < j2 < 16 ==> row[j1] != row[j2])
  }

  /** Every word index is below 16, so `x[rj]` stays inside the schedule. */
  lemma WordTablesInRange()
    ensures IndexesSchedule(LeftWords) && IndexesSchedule(RightWords)
  {
  }

  /** Every rotation amount of the left line lies in 5..15. */
  lemma LeftRotatesInRange()
    ensures RotatesWithin5To15(LeftRotates)
  {
  }

  /** Every rotation amount of the right line lies in 5..15. */
  lemma RightRotatesInRange()
    ensures RotatesWithin5To15(RightRotates)
  {
  }

  /** Every table has the shape the transform's loops index, every word
      index is below 16 and every rotation amount lies in 5..15, so that
      neither `x[rj]` nor `rol` can fail. */
  lemma TablesInRange()
    ensures IndexesSchedule(LeftWords) && IndexesSchedule(RightWords)
    ensures RotatesWithin5To15(LeftRotates) && RotatesWithin5To15(RightRotates)
    ensures |LeftConstants| == 5 && |RightConstants| == 5
  {
    WordTablesInRange();
    LeftRotatesInRange();
    RightRotatesInRange();
  }

  /** Every round of the left line reads each of the 16 message words. */
  lemma LeftWordsCoverSchedule()
    ensures forall i, w :: 0 <= i < 5 && 0 <= w < 16 ==> w in LeftWords[i]
  {
  }

  /** Every round of the right line reads each of the 16 message words. */
  lemma RightWordsCoverSchedule()
    ensures forall i, w :: 0 <= i < 5 && 0 <= w < 16 ==> w in RightWords[i]
  {
  }

  /** No round of the left line reads a message word twice. */
  lemma LeftWordsDistinct()
    ensures forall i, j1, j2 :: 0 <= i < 5 && 0 <= j1 < j2 < 16 ==> LeftWords[i][j1] != LeftWords[i][j2]
  {
  }

  /** No round of the right line reads a message word twice. */
  lemma RightWordsDistinct()
    ensures forall i, j1, j2 :: 0 <= i < 5 && 0 <= j1 < j2 < 16 ==> RightWords[i][j1] != RightWords[i][j2]
  {
  }

  /** Each round reads every message word exactly once, in both lines, and
      the left line's first round reads them in order. */
  lemma RowsArePermutations()
    ensures forall i :: 0 <= i < 5 ==> IsPermutation16(LeftWords[i]) && IsPermutation16(RightWords[i])
    ensures forall j :: 0 <= j < 16 ==> LeftWords[0][j] == j
  {
    WordTablesInRange();
    LeftWordsCoverSchedule();
    RightWordsCoverSchedule();
    LeftWordsDistinct();
    RightWordsDistinct();
  }
}
