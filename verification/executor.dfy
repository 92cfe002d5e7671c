/**
 * The `execute` dispatch loop of bfvm.c: an instruction cursor over the
 * program words and a cell pointer into a 65536-cell tape of one-byte
 * cells. The small-step function Step is the meaning of one dispatch; the
 * method Execute is the loop over a tape held in an array.
 */
module Executor {
  import opened Wrappers
  import opened Opcodes

  const MAX_CELLS: int := 65536

  type byte = x: int | 0 <= x < 256

  /** fgetc's EOF (-1) stored into a one-byte cell. */
  const EOF_CELL: byte := 255

  /** Storing an int into a one-byte cell keeps it modulo 256. */
  function Wrap(x: int): (r: byte)
    ensures (x - r) % 256 == 0
  {
    x % 256
  }

  datatype Status = Running | Halted | Fault

  /** The cursor, the cell pointer, the tape, the unread input and the output so far. */
  datatype State = State(ip: int, ptr: int, tape: seq<byte>, input: seq<byte>, output: seq<byte>, status: Status)

  predicate Valid(s: State)
  {
    |s.tape| == MAX_CELLS && 0 <= s.ptr < MAX_CELLS
  }

  function Initial(input: seq<byte>): (s: State)
    ensures Valid(s)
  {
    State(0, 0, seq(MAX_CELLS, _ => 0), input, [], Running)
  }

  /** A pointer move; leaving the tape (unchecked memory access in C) faults. */
  function Move(s: State, next: int, target: int): (t: State)
    requires Valid(s)
    ensures Valid(t)
    ensures t.tape == s.tape && t.input == s.input && t.output == s.output
    ensures 0 <= target < MAX_CELLS ==> t.ip == next && t.ptr == target && t.status == s.status
    ensures !(0 <= target < MAX_CELLS) ==> t.ip == s.ip && t.ptr == s.ptr && t.status == Fault
  {
    if 0 <= target < MAX_CELLS then s.(ip := next, ptr := target) else s.(status := Fault)
  }

  /** One dispatch of the loop; a cursor on no instruction faults. */
  function Step(prog: seq<int>, s: State): (t: State)
    requires Valid(s)
    ensures Valid(t)
  {
    if s.status != Running then s
    else match Decode(prog, s.ip)
      case None => s.(status := Fault)
      case Some((ins, w)) =>
        var next := s.ip + w;
        var v := s.tape[s.ptr];
        match ins
        case Start => s.(ip := next)
        case Incr(n) => s.(ip := next, tape := s.tape[s.ptr := Wrap(v + n)])
        case Decr(n) => s.(ip := next, tape := s.tape[s.ptr := Wrap(v - n)])
        case Left(n) => Move(s, next, s.ptr - n)
        case Right(n) => Move(s, next, s.ptr + n)
        case Input =>
          if s.input == [] then s.(ip := next, tape := s.tape[s.ptr := EOF_CELL])
          else s.(ip := next, tape := s.tape[s.ptr := s.input[0]], input := s.input[1..])
        case Output => s.(ip := next, output := s.output + [v])
        case Jmpz(o) => s.(ip := if v == 0 then next + o else next)
        case Jmpnz(o) => s.(ip := if v != 0 then next + o else next)
        case ResetCell => s.(ip := next, tape := s.tape[s.ptr := 0])
        case End => s.(status := Halted)
  }

  /** At most `fuel` dispatches. */
  function Run(prog: seq<int>, s: State, fuel: nat): (t: State)
    requires Valid(s)
    ensures Valid(t)
    decreases fuel
  {
    if fuel == 0 || s.status != Running then s else Run(prog, Step(prog, s), fuel - 1)
  }

  lemma {:induction false} RunAdditive(prog: seq<int>, s: State, a: nat, b: nat)
    requires Valid(s)
    ensures Run(prog, s, a + b) == Run(prog, Run(prog, s, a), b)
    decreases a
  {
    if a > 0 && s.status == Running {
      var t := Step(prog, s);
      RunOnce(prog, s, a);
      RunOnce(prog, s, a + b);
      RunAdditive(prog, t, a - 1, b);
      assert a - 1 + b == a + b - 1;
    } else if a == 0 {
      assert Run(prog, s, a) == s;
    } else {
      RunStopped(prog, s, a + b);
      RunStopped(prog, s, a);
    }
  }

  /** Once stopped, a state stays as it is. */
  lemma {:induction false} RunStopped(prog: seq<int>, s: State, fuel: nat)
    requires Valid(s) && s.status != Running
    ensures Run(prog, s, fuel) == s
  {
  }

  /**
   * The effect of each opcode word on the state, stated on the raw numbering:
   * the inline family members add, subtract or move by their run length, the
   * `_X` forms by the next word, and only the current cell ever changes.
   */
  lemma {:induction false} StepOnOpcode(prog: seq<int>, s: State)
    requires Valid(s) && s.status == Running && 0 <= s.ip < |prog|
    ensures var op, t, v := prog[s.ip], Step(prog, s), s.tape[s.ptr];
      (INCR_1 <= op < INCR_X ==> t == s.(ip := s.ip + 1, tape := s.tape[s.ptr := (v + op - INCR_1 + 1) % 256])) &&
      (DECR_1 <= op < DECR_X ==> t == s.(ip := s.ip + 1, tape := s.tape[s.ptr := (v - (op - DECR_1 + 1)) % 256])) &&
      (LEFT_1 <= op < LEFT_X && op - LEFT_1 + 1 <= s.ptr ==> t == s.(ip := s.ip + 1, ptr := s.ptr - (op - LEFT_1 + 1))) &&
      (RIGHT_1 <= op < RIGHT_X && s.ptr + (op - RIGHT_1 + 1) < MAX_CELLS ==> t == s.(ip := s.ip + 1, ptr := s.ptr + (op - RIGHT_1 + 1))) &&
      (s.ip + 1 < |prog| ==>
        (op == INCR_X ==> t == s.(ip := s.ip + 2, tape := s.tape[s.ptr := (v + prog[s.ip + 1]) % 256])) &&
        (op == DECR_X ==> t == s.(ip := s.ip + 2, tape := s.tape[s.ptr := (v - prog[s.ip + 1]) % 256])) &&
        (op == LEFT_X && 0 <= s.ptr - prog[s.ip + 1] < MAX_CELLS ==> t == s.(ip := s.ip + 2, ptr := s.ptr - prog[s.ip + 1])) &&
        (op == RIGHT_X && 0 <= s.ptr + prog[s.ip + 1] < MAX_CELLS ==> t == s.(ip := s.ip + 2, ptr := s.ptr + prog[s.ip + 1]))) &&
      (op == RESET_CELL ==> t == s.(ip := s.ip + 1, tape := s.tape[s.ptr := 0])) &&
      (op == OUTPUT ==> t == s.(ip := s.ip + 1, output := s.output + [v])) &&
      (op == INPUT ==>
         (t.ip == s.ip + 1 && t.ptr == s.ptr && t.output == s.output &&
          t.tape == s.tape[s.ptr := if s.input == [] then EOF_CELL else s.input[0]] &&
          t.input == (if s.input == [] then [] else s.input[1..]))) &&
      (op == END ==> t == s.(status := Halted)) &&
      (op == START ==> t == s.(ip := s.ip + 1)) &&
      (!IsOpcode(op) ==> t == s.(status := Fault))
  {
  }

  /** A JMPZ at j whose offset word z points at a JMPNZ carrying -z. */
  predicate JumpPair(prog: seq<int>, j: int)
  {
    0 <= j && j + 1 < |prog| && prog[j] == JMPZ && 2 <= prog[j + 1] &&
    j + prog[j + 1] + 1 < |prog| && prog[j + prog[j + 1]] == JMPNZ &&
    prog[j + prog[j + 1] + 1] == -prog[j + 1]
  }

  /**
   * Jump landing: on a zero cell JMPZ lands just past its JMPNZ's offset
   * word; on a non-zero cell JMPNZ lands just past JMPZ's offset word; in the
   * other two cases both fall through to the next instruction.
   */
  lemma {:induction false} JumpLanding(prog: seq<int>, j: int, s: State)
    requires JumpPair(prog, j) && Valid(s) && s.status == Running
    ensures var z := prog[j + 1];
      (s.ip == j ==> Step(prog, s).ip == (if s.tape[s.ptr] == 0 then j + z + 2 else j + 2)) &&
      (s.ip == j + z ==> Step(prog, s).ip == (if s.tape[s.ptr] != 0 then j + 2 else j + z + 2))
  {
  }

  /** The loop over a tape held in an array: at most `fuel` dispatches, as Run says. */
  method Execute(prog: seq<int>, memory: array<byte>, input: seq<byte>, fuel: nat)
    returns (status: Status, output: seq<byte>)
    requires memory.Length == MAX_CELLS
    modifies memory
    ensures var t := Run(prog, State(0, 0, old(memory[..]), input, [], Running), fuel);
      status == t.status && output == t.output && memory[..] == t.tape
  {
    ghost var s0 := State(0, 0, memory[..], input, [], Running);
    var code, cell, stream, steps := 0, 0, input, 0;
    output, status := [], Running;
    while steps < fuel && status == Running
      invariant 0 <= steps <= fuel && 0 <= cell < MAX_CELLS
      invariant Run(prog, State(code, cell, memory[..], stream, output, status), fuel - steps) == Run(prog, s0, fuel)
      decreases fuel - steps
    {
      ghost var s := State(code, cell, memory[..], stream, output, Running);
      RunOnce(prog, s, fuel - steps);
      code, cell, stream, output, status := Dispatch(prog, memory, code, cell, stream, output);
      assert State(code, cell, memory[..], stream, output, status) == Step(prog, s);
      steps := steps + 1;
    }
    if status != Running {
      RunStopped(prog, State(code, cell, memory[..], stream, output, status), fuel - steps);
    }
  }

  lemma {:induction false} RunOnce(prog: seq<int>, s: State, fuel: nat)
    requires Valid(s) && s.status == Running && fuel > 0
    ensures Run(prog, s, fuel) == Run(prog, Step(prog, s), fuel - 1)
  {
  }

  /** One dispatch of the loop on the array tape: the new state is Step of the old one. */
  method Dispatch(prog: seq<int>, memory: array<byte>, code: int, cell: int, stream: seq<byte>, output: seq<byte>)
    returns (code': int, cell': int, stream': seq<byte>, output': seq<byte>, status: Status)
    requires memory.Length == MAX_CELLS && 0 <= cell < MAX_CELLS
    modifies memory
    ensures State(code', cell', memory[..], stream', output', status) ==
      Step(prog, State(code, cell, old(memory[..]), stream, output, Running))
  {
    code', cell', stream', output', status := code, cell, stream, output, Running;
    var d := Decode(prog, code);
    if d.None? {
      status := Fault;
      return;
    }
    var (ins, w) := d.value;
    var next := code + w;
    match ins
    case Start =>
      code' := next;
    case Incr(n) =>
      memory[cell] := Wrap(memory[cell] + n);
      code' := next;
    case Decr(n) =>
      memory[cell] := Wrap(memory[cell] - n);
      code' := next;
    case Left(n) =>
      if 0 <= cell - n < MAX_CELLS {
        cell', code' := cell - n, next;
      } else {
        status := Fault;
      }
    case Right(n) =>
      if 0 <= cell + n < MAX_CELLS {
        cell', code' := cell + n, next;
      } else {
        status := Fault;
      }
    case Input =>
      if stream == [] {
        memory[cell] := EOF_CELL;
      } else {
        memory[cell] := stream[0];
        stream' := stream[1..];
      }
      code' := next;
    case Output =>
      output' := output + [memory[cell]];
      code' := next;
    case Jmpz(o) =>
      code' := if memory[cell] == 0 then next + o else next;
    case Jmpnz(o) =>
      code' := if memory[cell] != 0 then next + o else next;
    case ResetCell =>
      memory[cell] := 0;
      code' := next;
    case End =>
      status := Halted;
  }
}
