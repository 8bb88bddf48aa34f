/** The compression transform `rmd160_transform` and its step function `r`,
    modelled as the code is written: both lines use `f0..f4` in the same
    order, each step collapses the five registers into two values, the right
    line starts from where the left line stopped, and the final combination
    adds the saved copies of the incoming state. */
module Compress {
  import opened Encoding
  import opened Primitives
  import opened Tables

  /** The five running hash words, `[u32; 5]`. */
  type State = s: seq<Word> | |s| == 5 witness [0, 0, 0, 0, 0]

  /** A 64-byte block, the only length the transform accepts. */
  type Block = b: seq<Byte> | |b| == 64 witness seq(64, _ => 0)

  /** A compression function: a state and a block give the next state. */
  type Compression = (State, Block) -> State

  /** The working registers `a, b, c, d, e`. */
  datatype Registers = Registers(a: Word, b: Word, c: Word, d: Word, e: Word)

  /** Which of the two 80-step sequences a step belongs to. */
  datatype Side = Left | Right

  /** The register with the given position, `a` being 0. */
  function Register(regs: Registers, k: nat): Word
    requires k < 5
  {
    match k
    case 0 => regs.a
    case 1 => regs.b
    case 2 => regs.c
    case 3 => regs.d
    case 4 => regs.e
  }

  /** `r(a, b, c, d, e, functions[round], k, s, rj, x)`: the new `a` and the
      rotated `c` of one step. The index `rj` must lie inside `x`. */
  function R(a: Word, b: Word, c: Word, d: Word, e: Word, round: nat, k: Word, s: nat, rj: nat, x: seq<Word>): (res: (Word, Word))
    requires round < 5 && 0 < s < 32 && rj < |x|
    ensures res.1 == c.RotateLeft(10)
  {
    (WrappingAdd(Rol(s, WrappingAdd(WrappingAdd(WrappingAdd(a, F(round, b, c, d)), x[rj]), k)), e), Rol(10, c))
  }

  /** One pass of the inner loop body of either line: the call to `r`
      followed by the register assignments
      `a = e; e = d; d = rol(10, c); c = b; b = a1; (a, c) = (a1, c1)`.
      The second assignment to `a` and `c` overwrites the first, so the
      step leaves `a` and `b` equal to the new value, `c` and `d` equal to
      the rotated old `c`, and `e` equal to the old `d`; the old `b` and `e`
      survive only through the new value. */
  function Step(regs: Registers, round: nat, k: Word, s: nat, rj: nat, x: seq<Word>): (next: Registers)
    requires round < 5 && 0 < s < 32 && rj < |x|
    ensures var (a1, c1) := R(regs.a, regs.b, regs.c, regs.d, regs.e, round, k, s, rj, x);
      next == Registers(a1, a1, c1, c1, regs.d)
  {
    var (a1, c1) := R(regs.a, regs.b, regs.c, regs.d, regs.e, round, k, s, rj, x);
    var a := regs.e;
    var e := regs.d;
    var d := Rol(10, regs.c);
    var c := regs.b;
    var b := a1;
    var (a', c') := (a1, c1);
    Registers(a', b, c', d, e)
  }

  /** The registers after the first `n` steps (step `t` being round `t / 16`,
      position `t % 16`) of one line, started from `regs`. The word index
      and rotation amount come from that line's tables, the boolean function
      is `functions[t / 16]` on both sides. */
  function RunLine(regs: Registers, x: seq<Word>, side: Side, n: nat): (r: Registers)
    requires |x| == 16 && n <= 80
    ensures n > 0 ==> r.a == r.b && r.c == r.d
  {
    if n == 0 then regs
    else
      TablesInRange();
      var i, j := (n - 1) / 16, (n - 1) % 16;
      var prev := RunLine(regs, x, side, n - 1);
      match side
      case Left => Step(prev, i, LeftConstants[i], LeftRotates[i][j], LeftWords[i][j], x)
      case Right => Step(prev, i, RightConstants[i], RightRotates[i][j], RightWords[i][j], x)
  }

  /** The registers both lines have run through: the left line starts from
      the incoming state and the right line continues from the left line's
      final registers. */
  function BothLines(state: State, x: seq<Word>): (fin: Registers)
    requires |x| == 16
    ensures fin.a == fin.b && fin.c == fin.d
  {
    var left := RunLine(Registers(state[0], state[1], state[2], state[3], state[4]), x, Left, 80);
    RunLine(left, x, Right, 80)
  }

  /** Lines 236-241: the new state from the saved copies `aa..ee` of the
      incoming state and the registers `fin` left by both lines. Every word
      is computed from the incoming values; the temporary `t` keeps word 0
      from being overwritten before word 4 reads it. */
  function Combine(state: State, fin: Registers): State
  {
    var t := WrappingAdd(WrappingAdd(state[1], fin.c), state[3]);
    var s1 := WrappingAdd(WrappingAdd(state[2], fin.d), state[4]);
    var s2 := WrappingAdd(WrappingAdd(state[3], fin.e), state[0]);
    var s3 := WrappingAdd(WrappingAdd(state[4], fin.a), state[1]);
    var s4 := WrappingAdd(WrappingAdd(state[0], fin.b), state[2]);
    [t, s1, s2, s3, s4]
  }

  /** The final combination is one cyclic rule: word `k` of the new state is
      old word `k + 1` plus register `k + 2` plus old word `k + 3` (positions
      mod 5, `a` being register 0), every addition wrapping modulo 2^32. */
  lemma CombinationIsCyclic(state: State, fin: Registers, k: nat)
    requires k < 5
    ensures Combine(state, fin)[k]
         == WrappingAdd(WrappingAdd(state[(k + 1) % 5], Register(fin, (k + 2) % 5)), state[(k + 3) % 5])
  {
    if k == 0 {
      assert (k + 1) % 5 == 1 && (k + 2) % 5 == 2 && (k + 3) % 5 == 3;
      assert Register(fin, 2) == fin.c;
    } else if k == 1 {
      assert (k + 1) % 5 == 2 && (k + 2) % 5 == 3 && (k + 3) % 5 == 4;
      assert Register(fin, 3) == fin.d;
    } else if k == 2 {
      assert (k + 1) % 5 == 3 && (k + 2) % 5 == 4 && (k + 3) % 5 == 0;
      assert Register(fin, 4) == fin.e;
    } else if k == 3 {
      assert (k + 1) % 5 == 4 && (k + 2) % 5 == 0 && (k + 3) % 5 == 1;
      assert Register(fin, 0) == fin.a;
    } else {
      assert (k + 1) % 5 == 0 && (k + 2) % 5 == 1 && (k + 3) % 5 == 2;
      assert Register(fin, 1) == fin.b;
    }
  }

  /** `rmd160_transform` on a block of exactly 64 bytes: decode the block,
      run the left line from the incoming state, continue with the right
      line from where the left one stopped, and combine. The registers
      combined satisfy `a == b` and `c == d`, so the new words 0 and 1
      receive the same register value, and so do words 3 and 4. */
  function CompressBlock(state: State, block: Block): (next: State)
    ensures exists fin: Registers :: fin.a == fin.b && fin.c == fin.d && next == Combine(state, fin)
  {
    var fin := BothLines(state, DecodeWords(block));
    Combine(state, fin)
  }
}
