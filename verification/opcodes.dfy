/**
 * The dense opcode enum of bfvm.c and the word-level instruction format:
 * the four run-length families take one word for runs 1..8 and an extended
 * `_X` opcode plus one operand word otherwise; the two jumps carry one
 * offset word.
 */
module Opcodes {
  import opened Wrappers

  // The enum numbers its members consecutively from START = 0; each of the
  // four families holds the eight inline forms followed by the `_X` form.
  const START: int := 0
  const INCR_1: int := START + 1
  const INCR_X: int := INCR_1 + 8
  const DECR_1: int := INCR_X + 1
  const DECR_X: int := DECR_1 + 8
  const LEFT_1: int := DECR_X + 1
  const LEFT_X: int := LEFT_1 + 8
  const RIGHT_1: int := LEFT_X + 1
  const RIGHT_X: int := RIGHT_1 + 8
  const INPUT: int := RIGHT_X + 1
  const OUTPUT: int := INPUT + 1
  const JMPZ: int := OUTPUT + 1
  const JMPNZ: int := JMPZ + 1
  const RESET_CELL: int := JMPNZ + 1
  const END: int := RESET_CELL + 1

  /** An instruction with its operand: the run length of a family member, or a jump's offset. */
  datatype Instr =
    | Start
    | Incr(n: int)
    | Decr(n: int)
    | Left(n: int)
    | Right(n: int)
    | Input
    | Output
    | Jmpz(offset: int)
    | Jmpnz(offset: int)
    | ResetCell
    | End

  predicate IsOpcode(w: int)
  {
    START <= w <= END
  }

  predicate IsExtended(op: int)
  {
    op == INCR_X || op == DECR_X || op == LEFT_X || op == RIGHT_X
  }

  /** Words taken by the instruction whose opcode is `op` (disassemble_single). */
  function Width(op: int): (w: nat)
    ensures 1 <= w <= 2
  {
    if IsExtended(op) || op == JMPZ || op == JMPNZ then 2 else 1
  }

  /** The run length of an inline family member `base + k` is k + 1; the `_X` form reads it from the operand. */
  function RunOf(op: int, base: int, operand: int): int
  {
    if op == base + 8 then operand else op - base + 1
  }

  function InstrOf(op: int, operand: int): Instr
    requires IsOpcode(op)
  {
    if op == START then Start
    else if op <= INCR_X then Incr(RunOf(op, INCR_1, operand))
    else if op <= DECR_X then Decr(RunOf(op, DECR_1, operand))
    else if op <= LEFT_X then Left(RunOf(op, LEFT_1, operand))
    else if op <= RIGHT_X then Right(RunOf(op, RIGHT_1, operand))
    else if op == INPUT then Input
    else if op == OUTPUT then Output
    else if op == JMPZ then Jmpz(operand)
    else if op == JMPNZ then Jmpnz(operand)
    else if op == RESET_CELL then ResetCell
    else End
  }

  /**
   * The instruction at word `ip` and its width; None when `ip` is outside
   * the program, the word is not an opcode, or the operand word is missing.
   */
  function Decode(prog: seq<int>, ip: int): (r: Option<(Instr, nat)>)
    ensures r.Some? ==> 0 <= ip < |prog| && IsOpcode(prog[ip])
    ensures r.Some? ==> r.value.1 == Width(prog[ip]) && ip + r.value.1 <= |prog|
    ensures r.None? && 0 <= ip < |prog| && IsOpcode(prog[ip]) ==> Width(prog[ip]) == 2 && ip + 1 == |prog|
  {
    if ip < 0 || ip >= |prog| || !IsOpcode(prog[ip]) then None
    else if Width(prog[ip]) == 2 then
      (if ip + 1 < |prog| then Some((InstrOf(prog[ip], prog[ip + 1]), 2)) else None)
    else Some((InstrOf(prog[ip], 0), 1))
  }

  /** A run of n copies of a family whose first opcode is `base`. */
  function RunWords(base: int, n: int): seq<int>
  {
    if 1 <= n <= 8 then [base + n - 1] else [base + 8, n]
  }

  function Encode(ins: Instr): (r: seq<int>)
    ensures |r| >= 1 && IsOpcode(r[0]) && |r| == Width(r[0])
  {
    match ins
    case Start => [START]
    case Incr(n) => RunWords(INCR_1, n)
    case Decr(n) => RunWords(DECR_1, n)
    case Left(n) => RunWords(LEFT_1, n)
    case Right(n) => RunWords(RIGHT_1, n)
    case Input => [INPUT]
    case Output => [OUTPUT]
    case Jmpz(o) => [JMPZ, o]
    case Jmpnz(o) => [JMPNZ, o]
    case ResetCell => [RESET_CELL]
    case End => [END]
  }

  lemma {:induction false} RunWordsDecode(base: int, n: int, rest: seq<int>)
    requires base in {INCR_1, DECR_1, LEFT_1, RIGHT_1}
    ensures |RunWords(base, n)| == Width(RunWords(base, n)[0])
    ensures Decode(RunWords(base, n) + rest, 0).Some?
    ensures var (ins, w) := Decode(RunWords(base, n) + rest, 0).value;
      w == |RunWords(base, n)| &&
      ins == (if base == INCR_1 then Incr(n) else if base == DECR_1 then Decr(n)
              else if base == LEFT_1 then Left(n) else Right(n))
  {
    var s := RunWords(base, n) + rest;
    assert s[0] == RunWords(base, n)[0];
    if 1 <= n <= 8 {
      assert RunOf(s[0], base, 0) == n;
    } else {
      assert s[1] == n;
    }
  }

  /** Every instruction decodes back from its encoding, whatever follows it. */
  lemma {:induction false} DecodeEncode(ins: Instr, rest: seq<int>)
    ensures |Encode(ins)| == Width(Encode(ins)[0])
    ensures Decode(Encode(ins) + rest, 0) == Some((ins, |Encode(ins)|))
  {
    match ins
    case Incr(n) => RunWordsDecode(INCR_1, n, rest);
    case Decr(n) => RunWordsDecode(DECR_1, n, rest);
    case Left(n) => RunWordsDecode(LEFT_1, n, rest);
    case Right(n) => RunWordsDecode(RIGHT_1, n, rest);
    case _ =>
  }
}
