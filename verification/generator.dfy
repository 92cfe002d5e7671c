/**
 * The C code generator of bfvm.c (transpile_rec): a recursive walk over the
 * compiled program that accumulates the cell changes of each straight-line
 * region in a change record and flushes it, as additions or as the closed
 * form of a multiply loop, before every instruction that observes the tape.
 */
module Generator {
  import opened Opcodes
  import opened Growable
  import opened Changes

  /** transpile_rec's locals: the region being accumulated. */
  datatype Region = Region(startPointer: int, currentPointer: int, changes: seq<Change>,
                           isPure: bool, headerPrinted: bool, lastOpcode: int, fromJump: bool)

  /** The locals on entry to transpile_rec. */
  function Enter(startPointer: int, fromJump: bool): Region
  {
    Region(startPointer, startPointer, [], true, !fromJump, END, fromJump)
  }

  /**
   * What one call of transpile_rec yields: whether it stayed within the
   * program, whether it stopped at a JMPNZ (and then the cursor it hands back
   * to its caller), the cell pointer it returns, and the statements written.
   */
  datatype Outcome = Outcome(ok: bool, closed: bool, pc: nat, pointer: int, out: seq<Stmt>)

  function Prepend(s: seq<Stmt>, r: Outcome): Outcome
  {
    r.(out := s + r.out)
  }

  /** Opcodes that flush the record, and the subset that makes the region impure. */
  predicate IsFlushPoint(op: int)
  {
    op == OUTPUT || op == RESET_CELL || op == START || op == JMPZ || op == END || op == JMPNZ
  }

  predicate MakesImpure(op: int)
  {
    op == OUTPUT || op == RESET_CELL || op == START || op == JMPZ
  }

  /**
   * The first switch of transpile_rec's loop: what is written before
   * instruction `op`, and the new locals. OUTPUT, RESET_CELL, START and JMPZ
   * make the region impure and flush the record; END and JMPNZ flush it; INPUT
   * only writes the loop header if it is still due; any other opcode leaves
   * everything as it is. A flush empties the record and rebases the region at
   * the current pointer.
   */
  function FlushBefore(op: int, g: Region): (f: (seq<Stmt>, Region))
    ensures f.1.currentPointer == g.currentPointer && f.1.lastOpcode == g.lastOpcode && f.1.fromJump == g.fromJump
    ensures f.1.isPure == (g.isPure && !MakesImpure(op))
    ensures IsFlushPoint(op) ==> f.1.changes == [] && f.1.startPointer == g.currentPointer
    ensures !IsFlushPoint(op) ==> f.1.changes == g.changes && f.1.startPointer == g.startPointer
    ensures IsFlushPoint(op) ==>
      (f.0, f.1.headerPrinted) == Dump(g.changes, g.currentPointer - g.startPointer, f.1.isPure, g.headerPrinted, g.fromJump)
    ensures op == INPUT ==> f.0 == (if g.fromJump && !g.headerPrinted then [LoopHeader] else [])
    ensures op == INPUT ==> f.1.headerPrinted == (g.headerPrinted || g.fromJump)
    ensures !IsFlushPoint(op) && op != INPUT ==> f == ([], g)
  {
    if op == INPUT then
      var header := Header(g.headerPrinted, g.fromJump);
      (header.0, g.(headerPrinted := header.1))
    else if IsFlushPoint(op) then
      var pure := g.isPure && !MakesImpure(op);
      var dumped := Dump(g.changes, g.currentPointer - g.startPointer, pure, g.headerPrinted, g.fromJump);
      (dumped.0, g.(changes := [], isPure := pure, headerPrinted := dumped.1, startPointer := g.currentPointer))
    else ([], g)
  }

  /** The output of transpile_rec from cursor pc with locals g. */
  function Gen(prog: seq<int>, pc: nat, g: Region): (r: Outcome)
    requires pc <= |prog|
    ensures r.ok && r.closed ==> pc < r.pc <= |prog|
    decreases |prog| - pc, 1
  {
    if pc == |prog| then Outcome(false, false, pc, g.currentPointer, [])
    else
      var flushed := FlushBefore(prog[pc], g);
      Prepend(flushed.0, Exec(prog, pc, flushed.1))
  }

  /** Instructions that do not leave the region. */
  predicate StaysInRegion(ins: Instr)
  {
    !(ins.Jmpz? || ins.Jmpnz? || ins.End? || ins.Start?)
  }

  /**
   * The cases of the second switch that stay in the region: an addition goes
   * into the record, a move shifts the pointer, input, output and reset are
   * written (a reset only when the previous opcode was not JMPNZ).
   */
  function Within(ins: Instr, op: int, g: Region): (w: (seq<Stmt>, Region))
    requires StaysInRegion(ins)
    ensures w.1.startPointer == g.startPointer && w.1.isPure == g.isPure && w.1.headerPrinted == g.headerPrinted
    ensures w.1.fromJump == g.fromJump && w.1.lastOpcode == op && |w.0| <= 1
    ensures !(ins.Left? || ins.Right?) ==> w.1.currentPointer == g.currentPointer
    ensures !(ins.Incr? || ins.Decr?) ==> w.1.changes == g.changes
  {
    var rel := g.currentPointer - g.startPointer;
    var g2 := g.(lastOpcode := op);
    match ins
    case Incr(n) => ([], g2.(changes := Merge(g.changes, rel, n)))
    case Decr(n) => ([], g2.(changes := Merge(g.changes, rel, -n)))
    case Left(n) => ([], g2.(currentPointer := g.currentPointer - n))
    case Right(n) => ([], g2.(currentPointer := g.currentPointer + n))
    case Input => ([ReadCell(rel)], g2)
    case Output => ([WriteCell], g2)
    case ResetCell => (if g.lastOpcode != JMPNZ then [ZeroCell] else [], g2)
  }

  /** The second switch of transpile_rec's loop: execute the instruction at pc, then go on. */
  function Exec(prog: seq<int>, pc: nat, g: Region): (r: Outcome)
    requires pc < |prog|
    ensures r.ok && r.closed ==> pc < r.pc <= |prog|
    decreases |prog| - pc, 0
  {
    var op := prog[pc];
    if !IsOpcode(op) then Gen(prog, pc + 1, g.(lastOpcode := op))
    else if Decode(prog, pc).None? then Outcome(false, false, pc, g.currentPointer, [])
    else
      var ins := Decode(prog, pc).value.0;
      var w := Decode(prog, pc).value.1;
      if StaysInRegion(ins) then
        var step := Within(ins, op, g);
        Prepend(step.0, Gen(prog, pc + w, step.1))
      else if ins.Jmpz? then
        var inner := Gen(prog, pc + 2, Enter(g.currentPointer, true));
        if !inner.ok then Outcome(false, false, inner.pc, inner.pointer, inner.out)
        else
          var resume := if inner.closed then inner.pc else pc + 2;
          Prepend(inner.out, Gen(prog, resume, g.(lastOpcode := op, isPure := false, startPointer := inner.pointer,
                                                  currentPointer := inner.pointer, changes := [])))
      else if ins.Jmpnz? then
        Outcome(true, true, pc + 2, g.currentPointer, if g.headerPrinted then [LoopClose] else [])
      else
        // END and START
        Outcome(true, false, pc, g.currentPointer, [])
  }

  lemma {:induction false} PrependAssoc(a: seq<Stmt>, b: seq<Stmt>, r: Outcome)
    ensures Prepend(a, Prepend(b, r)) == Prepend(a + b, r)
  {
    assert a + (b + r.out) == (a + b) + r.out;
  }

  lemma {:induction false} GenUnfold(prog: seq<int>, pc: nat, g: Region)
    requires pc < |prog|
    ensures Gen(prog, pc, g) == Prepend(FlushBefore(prog[pc], g).0, Exec(prog, pc, FlushBefore(prog[pc], g).1))
  {
  }

  lemma {:induction false} ExecUnfold(prog: seq<int>, pc: nat, g: Region)
    requires pc < |prog| && IsOpcode(prog[pc]) && Decode(prog, pc).Some?
    ensures var ins := Decode(prog, pc).value.0;
      (StaysInRegion(ins) ==>
         Exec(prog, pc, g) == Prepend(Within(ins, prog[pc], g).0, Gen(prog, pc + Decode(prog, pc).value.1,
                                                                     Within(ins, prog[pc], g).1))) &&
      (ins.Jmpnz? ==>
         Exec(prog, pc, g) == Outcome(true, true, pc + 2, g.currentPointer, if g.headerPrinted then [LoopClose] else [])) &&
      (ins.End? || ins.Start? ==> Exec(prog, pc, g) == Outcome(true, false, pc, g.currentPointer, []))
  {
  }

  /** A word that is no opcode is skipped; an operand missing at the end of the program ends the call. */
  lemma {:induction false} ExecOther(prog: seq<int>, pc: nat, g: Region)
    requires pc < |prog|
    ensures !IsOpcode(prog[pc]) ==> Exec(prog, pc, g) == Gen(prog, pc + 1, g.(lastOpcode := prog[pc]))
    ensures IsOpcode(prog[pc]) && Decode(prog, pc).None? ==> Exec(prog, pc, g) == Outcome(false, false, pc, g.currentPointer, [])
  {
  }

  lemma {:induction false} ExecJmpz(prog: seq<int>, pc: nat, g: Region)
    requires pc < |prog| && IsOpcode(prog[pc]) && Decode(prog, pc).Some? && Decode(prog, pc).value.0.Jmpz?
    ensures pc + 2 <= |prog|
    ensures var inner := Gen(prog, pc + 2, Enter(g.currentPointer, true));
      Exec(prog, pc, g) ==
        if !inner.ok then Outcome(false, false, inner.pc, inner.pointer, inner.out)
        else Prepend(inner.out, Gen(prog, if inner.closed then inner.pc else pc + 2,
                                    g.(lastOpcode := prog[pc], isPure := false, startPointer := inner.pointer,
                                       currentPointer := inner.pointer, changes := [])))
  {
  }

  /** The statements transpile writes between its fixed prologue and epilogue. */
  function Transpiled(prog: seq<int>): (r: Outcome)
    ensures r.ok && r.closed ==> 0 < r.pc <= |prog|
  {
    Gen(prog, 0, Enter(0, false))
  }

  /** The first switch of transpile_rec's loop, on the locals it changes. */
  method Flush(op: int, totalChange: GrowArray<Change>, startPointer: int, currentPointer: int,
               isPureLoop: bool, headerPrinted: bool, ghost lastOpcode: int, fromJump: bool)
    returns (out: seq<Stmt>, start: int, isPure: bool, printed: bool)
    requires totalChange.Valid()
    modifies totalChange
    ensures totalChange.Valid() && (totalChange.values == old(totalChange.values) || fresh(totalChange.values))
    ensures (out, Region(start, currentPointer, totalChange.Contents(), isPure, printed, lastOpcode, fromJump)) ==
      FlushBefore(op, old(Region(startPointer, currentPointer, totalChange.Contents(), isPureLoop,
                                 headerPrinted, lastOpcode, fromJump)))
  {
    out, start, isPure, printed := [], startPointer, isPureLoop, headerPrinted;
    if op == INPUT {
      var header := Header(headerPrinted, fromJump);
      out, printed := header.0, header.1;
    } else if IsFlushPoint(op) {
      if MakesImpure(op) {
        isPure := false;
      }
      out, printed := DumpChanges(totalChange, currentPointer - startPointer, isPure, headerPrinted, fromJump);
      start := currentPointer;
    }
  }

  /** The cases of the second switch that stay in the region, on the locals they change. */
  method Simple(ins: Instr, op: int, totalChange: GrowArray<Change>,
                startPointer: int, currentPointer: int, ghost isPureLoop: bool, ghost headerPrinted: bool,
                lastOpcode: int, ghost fromJump: bool)
    returns (out: seq<Stmt>, pointer: int)
    requires StaysInRegion(ins) && totalChange.Valid()
    modifies totalChange, totalChange.values
    ensures totalChange.Valid() && (totalChange.values == old(totalChange.values) || fresh(totalChange.values))
    ensures (out, Region(startPointer, pointer, totalChange.Contents(), isPureLoop, headerPrinted, op, fromJump)) ==
      Within(ins, op, old(Region(startPointer, currentPointer, totalChange.Contents(), isPureLoop,
                                 headerPrinted, lastOpcode, fromJump)))
  {
    var rel := currentPointer - startPointer;
    out, pointer := [], currentPointer;
    if ins.Incr? {
      ApplyTotalChange(totalChange, rel, ins.n);
    } else if ins.Decr? {
      ApplyTotalChange(totalChange, rel, -ins.n);
    } else if ins.Left? {
      pointer := currentPointer - ins.n;
    } else if ins.Right? {
      pointer := currentPointer + ins.n;
    } else if ins.Input? {
      out := [ReadCell(rel)];
    } else if ins.Output? {
      out := [WriteCell];
    } else {
      // RESET_CELL: after a loop the cell is already zero
      if lastOpcode != JMPNZ {
        out := [ZeroCell];
      }
    }
  }

  /**
   * The JMPZ case of transpile_rec's second switch: transpile the loop body in
   * a nested call, then go on after its JMPNZ from the pointer it returns, with
   * the region impure and the record empty.
   */
  method EnterLoop(prog: seq<int>, pc: nat, currentPointer: int, ghost g: Region)
    returns (done: bool, result: Outcome, out: seq<Stmt>, next: nat, newStart: int)
    requires pc < |prog| && IsOpcode(prog[pc]) && Decode(prog, pc).Some? && Decode(prog, pc).value.0.Jmpz?
    requires g.currentPointer == currentPointer
    ensures !done ==> pc < next <= |prog|
    ensures Exec(prog, pc, g) ==
      if done then result
      else Prepend(out, Gen(prog, next, Region(newStart, newStart, [], false, g.headerPrinted, prog[pc], g.fromJump)))
    decreases |prog| - pc, 0
  {
    ExecJmpz(prog, pc, g);
    var inner := TranspileRec(prog, pc + 2, currentPointer, true);
    out, newStart := inner.out, inner.pointer;
    done := !inner.ok;
    result := Outcome(false, false, inner.pc, inner.pointer, inner.out);
    next := if inner.closed then inner.pc else pc + 2;
    assert g.(lastOpcode := prog[pc], isPure := false, startPointer := newStart, currentPointer := newStart, changes := []) ==
      Region(newStart, newStart, [], false, g.headerPrinted, prog[pc], g.fromJump);
  }

  /**
   * The second switch of transpile_rec's loop, on the locals it changes: either
   * the call is done with `result`, or it writes `out` and goes on at `next`.
   * A nested loop hands back a fresh change record.
   */
  method DispatchSwitch(prog: seq<int>, program: nat, totalChange: GrowArray<Change>, start: int, currentPointer: int,
                        isPureLoop: bool, headerPrinted: bool, lastOpcode: int, ghost fromJump: bool)
    returns (done: bool, result: Outcome, out: seq<Stmt>, next: nat, record: GrowArray<Change>,
             newStart: int, pointer: int, isPure: bool)
    requires program < |prog| && totalChange.Valid()
    modifies totalChange, totalChange.values
    ensures record.Valid()
    ensures (record == totalChange && (record.values == old(totalChange.values) || fresh(record.values))) ||
            (fresh(record) && fresh(record.values))
    ensures !done ==> program < next <= |prog|
    ensures old(Exec(prog, program, Region(start, currentPointer, totalChange.Contents(), isPureLoop,
                                           headerPrinted, lastOpcode, fromJump))) ==
      if done then result
      else Prepend(out, Gen(prog, next, Region(newStart, pointer, record.Contents(), isPure,
                                               headerPrinted, prog[program], fromJump)))
    decreases |prog| - program, 2
  {
    ghost var g := Region(start, currentPointer, totalChange.Contents(), isPureLoop, headerPrinted, lastOpcode, fromJump);
    var op := prog[program];
    done, result, out, next, record, newStart, pointer, isPure :=
      false, Outcome(false, false, program, currentPointer, []), [], program + 1, totalChange,
      start, currentPointer, isPureLoop;
    ExecOther(prog, program, g);
    if !IsOpcode(op) {
      assert g.(lastOpcode := op) == Region(start, currentPointer, totalChange.Contents(), isPureLoop, headerPrinted, op, fromJump);
      return;
    }
    var decoded := Decode(prog, program);
    if decoded.None? {
      done := true;
      return;
    }
    done, result, out, next, record, newStart, pointer, isPure :=
      Decoded(prog, program, totalChange, start, currentPointer, isPureLoop, headerPrinted, lastOpcode, fromJump);
  }

  /** The second switch on an instruction that decodes. */
  method Decoded(prog: seq<int>, program: nat, totalChange: GrowArray<Change>, start: int, currentPointer: int,
                 isPureLoop: bool, headerPrinted: bool, lastOpcode: int, ghost fromJump: bool)
    returns (done: bool, result: Outcome, out: seq<Stmt>, next: nat, record: GrowArray<Change>,
             newStart: int, pointer: int, isPure: bool)
    requires program < |prog| && IsOpcode(prog[program]) && Decode(prog, program).Some? && totalChange.Valid()
    modifies totalChange, totalChange.values
    ensures record.Valid()
    ensures (record == totalChange && (record.values == old(totalChange.values) || fresh(record.values))) ||
            (fresh(record) && fresh(record.values))
    ensures !done ==> program < next <= |prog|
    ensures old(Exec(prog, program, Region(start, currentPointer, totalChange.Contents(), isPureLoop,
                                           headerPrinted, lastOpcode, fromJump))) ==
      if done then result
      else Prepend(out, Gen(prog, next, Region(newStart, pointer, record.Contents(), isPure,
                                               headerPrinted, prog[program], fromJump)))
    decreases |prog| - program, 1
  {
    ghost var g := Region(start, currentPointer, totalChange.Contents(), isPureLoop, headerPrinted, lastOpcode, fromJump);
    var decoded := Decode(prog, program);
    var ins := decoded.value.0;
    done, result, out, next, record, newStart, pointer, isPure :=
      false, Outcome(false, false, program, currentPointer, []), [], program + decoded.value.1, totalChange,
      start, currentPointer, isPureLoop;
    if ins.Jmpz? {
      isPure := false;
      done, result, out, next, newStart := EnterLoop(prog, program, currentPointer, g);
      if done {
        return;
      }
      pointer := newStart;
      // reinitialise the record
      record := new GrowArray<Change>.Init();
    } else {
      done, result, out, pointer :=
        Stay(prog, program, ins, totalChange, start, currentPointer, isPureLoop, headerPrinted, lastOpcode, fromJump);
    }
  }

  /** The cases of the second switch other than JMPZ: a closing JMPNZ, END and START end the call. */
  method Stay(prog: seq<int>, program: nat, ins: Instr, totalChange: GrowArray<Change>, start: int,
              currentPointer: int, isPureLoop: bool, headerPrinted: bool, lastOpcode: int, ghost fromJump: bool)
    returns (done: bool, result: Outcome, out: seq<Stmt>, pointer: int)
    requires program < |prog| && IsOpcode(prog[program]) && Decode(prog, program).Some?
    requires ins == Decode(prog, program).value.0 && !ins.Jmpz? && totalChange.Valid()
    modifies totalChange, totalChange.values
    ensures totalChange.Valid() && (totalChange.values == old(totalChange.values) || fresh(totalChange.values))
    ensures old(Exec(prog, program, Region(start, currentPointer, totalChange.Contents(), isPureLoop,
                                           headerPrinted, lastOpcode, fromJump))) ==
      if done then result
      else Prepend(out, Gen(prog, program + Decode(prog, program).value.1,
                            Region(start, pointer, totalChange.Contents(), isPureLoop,
                                   headerPrinted, prog[program], fromJump)))
  {
    ExecUnfold(prog, program, Region(start, currentPointer, totalChange.Contents(), isPureLoop,
                                     headerPrinted, lastOpcode, fromJump));
    done, result, out, pointer := false, Outcome(false, false, program, currentPointer, []), [], currentPointer;
    if ins.Jmpnz? {
      done, result := true, Outcome(true, true, program + 2, currentPointer, if headerPrinted then [LoopClose] else []);
    } else if ins.End? || ins.Start? {
      done, result := true, Outcome(true, false, program, currentPointer, []);
    } else {
      out, pointer :=
        Simple(ins, prog[program], totalChange, start, currentPointer, isPureLoop, headerPrinted, lastOpcode, fromJump);
    }
  }

  /**
   * transpile_rec: returns the pointer, hands the cursor after a closing JMPNZ
   * back through the outcome, and writes the statements into out.
   */
  method TranspileRec(prog: seq<int>, pc: nat, startPointer: int, fromJump: bool) returns (r: Outcome)
    requires pc <= |prog|
    ensures r == Gen(prog, pc, Enter(startPointer, fromJump))
    decreases |prog| - pc, 3
  {
    var headerPrinted := !fromJump;
    var program := pc;
    var start := startPointer;
    var currentPointer := startPointer;
    var totalChange := new GrowArray<Change>.Init();
    var isPureLoop := true;
    var lastOpcode := END;
    var out: seq<Stmt> := [];
    ghost var target := Gen(prog, pc, Enter(startPointer, fromJump));
    while true
      invariant pc <= program <= |prog|
      invariant fresh(totalChange) && fresh(totalChange.values) && totalChange.Valid()
      invariant target ==
        Prepend(out, Gen(prog, program, Region(start, currentPointer, totalChange.Contents(),
                                               isPureLoop, headerPrinted, lastOpcode, fromJump)))
      decreases |prog| - program
    {
      if program == |prog| {
        return Outcome(false, false, program, currentPointer, out);
      }
      var bakOpcode := prog[program];
      ghost var g := Region(start, currentPointer, totalChange.Contents(), isPureLoop, headerPrinted, lastOpcode, fromJump);
      ghost var outBefore := out;
      // flush the changes as the instruction requires
      var flushed;
      flushed, start, isPureLoop, headerPrinted :=
        Flush(bakOpcode, totalChange, start, currentPointer, isPureLoop, headerPrinted, lastOpcode, fromJump);
      out := out + flushed;
      GenUnfold(prog, program, g);
      PrependAssoc(outBefore, flushed, Exec(prog, program, Region(start, currentPointer, totalChange.Contents(),
                                                                   isPureLoop, headerPrinted, lastOpcode, fromJump)));
      // execute the instruction
      var done, result, emitted, next;
      done, result, emitted, next, totalChange, start, currentPointer, isPureLoop :=
        DispatchSwitch(prog, program, totalChange, start, currentPointer, isPureLoop, headerPrinted, lastOpcode, fromJump);
      if done {
        return Prepend(out, result);
      }
      PrependAssoc(out, emitted, Gen(prog, next, Region(start, currentPointer, totalChange.Contents(), isPureLoop,
                                                        headerPrinted, bakOpcode, fromJump)));
      out := out + emitted;
      program := next;
      lastOpcode := bakOpcode;
    }
  }
}
