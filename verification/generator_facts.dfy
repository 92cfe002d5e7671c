/**
 * What the code generator promises about the programs it rewrites: a loop
 * whose body only adds and moves is emitted as straight-line code, and as a
 * closed-form multiply loop when its net pointer shift is zero.
 */
module GeneratorFacts {
  import opened Wrappers
  import opened Opcodes
  import opened Changes
  import opened Generator

  /** Instructions a pure loop body may hold. */
  predicate IsArith(ins: Instr)
  {
    ins.Incr? || ins.Decr? || ins.Left? || ins.Right?
  }

  predicate AllArith(body: seq<Instr>)
  {
    forall i :: 0 <= i < |body| ==> IsArith(body[i])
  }

  /** The program words of a sequence of instructions. */
  function Flatten(body: seq<Instr>): seq<int>
  {
    if body == [] then [] else Encode(body[0]) + Flatten(body[1..])
  }

  /** Net pointer movement of a body. */
  function Shift(body: seq<Instr>): int
  {
    if body == [] then 0
    else
      var move := match body[0] case Left(n) => -n case Right(n) => n case _ => 0;
      move + Shift(body[1..])
  }

  /** Reference semantics: the net change a body makes to the cell at offset k, entered at offset p. */
  function NetDelta(body: seq<Instr>, p: int, k: int): int
  {
    if body == [] then 0
    else match body[0]
      case Incr(n) => (if p == k then n else 0) + NetDelta(body[1..], p, k)
      case Decr(n) => (if p == k then -n else 0) + NetDelta(body[1..], p, k)
      case Left(n) => NetDelta(body[1..], p - n, k)
      case Right(n) => NetDelta(body[1..], p + n, k)
      case _ => NetDelta(body[1..], p, k)
  }

  /** The offsets a body adds to or subtracts from, entered at offset p. */
  function Touched(body: seq<Instr>, p: int): set<int>
  {
    if body == [] then {}
    else match body[0]
      case Incr(_) => {p} + Touched(body[1..], p)
      case Decr(_) => {p} + Touched(body[1..], p)
      case Left(n) => Touched(body[1..], p - n)
      case Right(n) => Touched(body[1..], p + n)
      case _ => Touched(body[1..], p)
  }

  /** The change record the generator builds for a body entered at offset p. */
  function Accum(body: seq<Instr>, p: int, r: seq<Change>): seq<Change>
  {
    if body == [] then r
    else match body[0]
      case Incr(n) => Accum(body[1..], p, Merge(r, p, n))
      case Decr(n) => Accum(body[1..], p, Merge(r, p, -n))
      case Left(n) => Accum(body[1..], p - n, r)
      case Right(n) => Accum(body[1..], p + n, r)
      case _ => Accum(body[1..], p, r)
  }

  function LastOpcode(body: seq<Instr>, op: int): int
  {
    if body == [] then op else LastOpcode(body[1..], Encode(body[0])[0])
  }

  /** The offset after one instruction of a body entered at offset p. */
  function OffsetAfter(ins: Instr, p: int): int
  {
    match ins
    case Left(n) => p - n
    case Right(n) => p + n
    case _ => p
  }

  /** The change one instruction makes to the cell it is at. */
  function DeltaOf(ins: Instr): int
  {
    match ins
    case Incr(n) => n
    case Decr(n) => -n
    case _ => 0
  }

  /** The first instruction of a body, and the rest, in the terms of the three body functions. */
  lemma {:induction false} BodyCons(body: seq<Instr>, p: int, r: seq<Change>)
    requires body != []
    ensures var ins, q := body[0], OffsetAfter(body[0], p);
      var adds := ins.Incr? || ins.Decr?;
      Accum(body, p, r) == Accum(body[1..], q, if adds then Merge(r, p, DeltaOf(ins)) else r) &&
      Touched(body, p) == (if adds then {p} else {}) + Touched(body[1..], q) &&
      forall k :: NetDelta(body, p, k) == (if adds && k == p then DeltaOf(ins) else 0) + NetDelta(body[1..], q, k)
  {
  }

  /** The record agrees with the reference semantics at every offset, and its offsets are distinct. */
  lemma {:induction false} AccumMeaning(body: seq<Instr>, p: int, r: seq<Change>)
    requires Distinct(r)
    ensures Distinct(Accum(body, p, r))
    ensures Offsets(Accum(body, p, r)) == Offsets(r) + Touched(body, p)
    ensures forall k :: DeltaAt(Accum(body, p, r), k) == DeltaAt(r, k) + NetDelta(body, p, k)
  {
    if body != [] {
      var ins, q := body[0], OffsetAfter(body[0], p);
      BodyCons(body, p, r);
      if ins.Incr? || ins.Decr? {
        MergeMeaning(r, p, DeltaOf(ins));
        AccumMeaning(body[1..], q, Merge(r, p, DeltaOf(ins)));
      } else {
        AccumMeaning(body[1..], q, r);
      }
    }
  }

  /** One merge: distinct offsets kept, the offset added, the delta added at that offset only. */
  lemma {:induction false} MergeMeaning(r: seq<Change>, p: int, d: int)
    requires Distinct(r)
    ensures Distinct(Merge(r, p, d)) && Offsets(Merge(r, p, d)) == Offsets(r) + {p}
    ensures forall k :: DeltaAt(Merge(r, p, d), k) == DeltaAt(r, k) + (if k == p then d else 0)
  {
    MergeDistinct(r, p, d);
    forall k ensures DeltaAt(Merge(r, p, d), k) == DeltaAt(r, k) + (if k == p then d else 0) {
      MergeDelta(r, p, d, k);
    }
  }

  lemma {:induction false} DecodeIn(prog: seq<int>, pc: nat, ins: Instr)
    requires pc + |Encode(ins)| <= |prog| && prog[pc..pc + |Encode(ins)|] == Encode(ins)
    ensures Decode(prog, pc) == Some((ins, |Encode(ins)|)) && prog[pc] == Encode(ins)[0]
  {
    var e := Encode(ins);
    DecodeEncode(ins, prog[pc + |e|..]);
    assert prog[pc..] == e + prog[pc + |e|..];
    assert prog[pc..][0] == prog[pc];
    assert |prog[pc..]| > 1 ==> prog[pc..][1] == prog[pc + 1];
  }

  /** The locals after one addition or move. */
  function ArithNext(ins: Instr, g: Region): Region
    requires IsArith(ins)
  {
    var rel := g.currentPointer - g.startPointer;
    var g2 := g.(lastOpcode := Encode(ins)[0]);
    match ins
    case Incr(n) => g2.(changes := Merge(g.changes, rel, n))
    case Decr(n) => g2.(changes := Merge(g.changes, rel, -n))
    case Left(n) => g2.(currentPointer := g.currentPointer - n)
    case Right(n) => g2.(currentPointer := g.currentPointer + n)
  }

  lemma {:induction false} ArithStep(prog: seq<int>, pc: nat, ins: Instr, g: Region)
    requires IsArith(ins) && pc < |prog|
    requires prog[pc] == Encode(ins)[0] && Decode(prog, pc) == Some((ins, |Encode(ins)|))
    ensures Gen(prog, pc, g) == Gen(prog, pc + |Encode(ins)|, ArithNext(ins, g))
  {
    ArithOpcode(ins, g);
    GenUnfold(prog, pc, g);
    ExecUnfold(prog, pc, g);
  }

  /** An addition or move flushes nothing, stays in the region and updates the locals as ArithNext says. */
  lemma {:induction false} ArithOpcode(ins: Instr, g: Region)
    requires IsArith(ins)
    ensures var op := Encode(ins)[0];
      IsOpcode(op) && FlushBefore(op, g) == ([], g) && StaysInRegion(ins) && Within(ins, op, g) == ([], ArithNext(ins, g))
  {
  }

  /** The locals after a run of additions and moves. */
  function AfterRun(body: seq<Instr>, g: Region): Region
  {
    g.(currentPointer := g.currentPointer + Shift(body),
       changes := Accum(body, g.currentPointer - g.startPointer, g.changes),
       lastOpcode := LastOpcode(body, g.lastOpcode))
  }

  lemma {:induction false} AfterRunCons(body: seq<Instr>, g: Region)
    requires body != [] && IsArith(body[0])
    ensures AfterRun(body[1..], ArithNext(body[0], g)) == AfterRun(body, g)
  {
  }

  /** The instructions of a body lie in the program one after the other from pc, each decoding to itself. */
  predicate Laid(prog: seq<int>, pc: nat, body: seq<Instr>)
    decreases |body|
  {
    body == [] ||
    (var w: nat := |Encode(body[0])|;
     pc < |prog| && prog[pc] == Encode(body[0])[0] && Decode(prog, pc) == Some((body[0], w)) &&
     Laid(prog, pc + w, body[1..]))
  }

  /** The words of a body placed at pc are laid out instruction by instruction. */
  lemma {:induction false} LaidOut(prog: seq<int>, pc: nat, body: seq<Instr>)
    requires pc + |Flatten(body)| <= |prog| && prog[pc..pc + |Flatten(body)|] == Flatten(body)
    ensures Laid(prog, pc, body)
    decreases |body|
  {
    if body != [] {
      var e := Encode(body[0]);
      var rest := Flatten(body[1..]);
      assert Flatten(body) == e + rest;
      SliceSplit(prog, pc, e, rest);
      DecodeIn(prog, pc, body[0]);
      LaidOut(prog, pc + |e|, body[1..]);
      LaidCons(prog, pc, body, |e|);
    }
  }

  lemma {:induction false} LaidCons(prog: seq<int>, pc: nat, body: seq<Instr>, w: nat)
    requires body != [] && w == |Encode(body[0])| && pc < |prog| && prog[pc] == Encode(body[0])[0]
    requires Decode(prog, pc) == Some((body[0], w)) && Laid(prog, pc + w, body[1..])
    ensures Laid(prog, pc, body)
  {
  }

  lemma {:induction false} SliceSplit(prog: seq<int>, pc: nat, e: seq<int>, rest: seq<int>)
    requires pc + |e| + |rest| <= |prog| && prog[pc..pc + |e| + |rest|] == e + rest
    ensures prog[pc..pc + |e|] == e && prog[pc + |e|..pc + |e| + |rest|] == rest
  {
    assert prog[pc..pc + |e|] == prog[pc..pc + |e| + |rest|][..|e|];
    assert prog[pc + |e|..pc + |e| + |rest|] == prog[pc..pc + |e| + |rest|][|e|..];
  }

  lemma {:induction false} AllArithTail(body: seq<Instr>)
    requires body != [] && AllArith(body)
    ensures AllArith(body[1..])
  {
    forall i | 0 <= i < |body[1..]| ensures IsArith(body[1..][i]) {
      assert body[1..][i] == body[i + 1];
    }
  }

  /** A straight run of additions and moves, ending at `end`, only builds up the record: it writes nothing. */
  lemma {:induction false} ArithRun(prog: seq<int>, pc: nat, end: nat, body: seq<Instr>, g: Region)
    requires AllArith(body) && Laid(prog, pc, body) && end == pc + |Flatten(body)| <= |prog|
    ensures Gen(prog, pc, g) == Gen(prog, end, AfterRun(body, g))
    decreases |body|
  {
    if body != [] {
      var ins := body[0];
      var q := pc + |Encode(ins)|;
      assert Flatten(body) == Encode(ins) + Flatten(body[1..]);
      AllArithTail(body);
      AfterRunCons(body, g);
      ArithStep(prog, pc, ins, g);
      ArithRun(prog, q, end, body[1..], ArithNext(ins, g));
    } else {
      assert AfterRun(body, g) == g;
    }
  }

  /**
   * transpile_rec entered through a JMPZ whose body only adds and moves:
   * with a zero net shift the loop becomes its closed form (no header, no
   * closing brace); otherwise the header, one addition per touched cell, the
   * pointer move and the closing brace. The nested call consumes the JMPNZ
   * and its operand and returns the shifted pointer.
   */
  lemma {:induction false} PureLoop(prog: seq<int>, pc: nat, body: seq<Instr>, p: int)
    requires AllArith(body)
    requires pc + |Flatten(body)| + 2 <= |prog| && prog[pc..pc + |Flatten(body)|] == Flatten(body)
    requires prog[pc + |Flatten(body)|] == JMPNZ
    ensures var r := Gen(prog, pc, Enter(p, true));
      var rec := Accum(body, 0, []);
      var shift := Shift(body);
      r.ok && r.closed && r.pc == pc + |Flatten(body)| + 2 && r.pointer == p + shift &&
      r.out == (if shift == 0 then ClosedForm(rec) else [LoopHeader] + AddCells(rec) + [MovePointer(shift), LoopClose])
  {
    LaidOut(prog, pc, body);
    LaidLoop(prog, pc, body, p);
  }

  lemma {:induction false} LaidLoop(prog: seq<int>, pc: nat, body: seq<Instr>, p: int)
    requires AllArith(body) && Laid(prog, pc, body)
    requires pc + |Flatten(body)| + 2 <= |prog| && prog[pc + |Flatten(body)|] == JMPNZ
    ensures var r := Gen(prog, pc, Enter(p, true));
      var rec := Accum(body, 0, []);
      var shift := Shift(body);
      r.ok && r.closed && r.pc == pc + |Flatten(body)| + 2 && r.pointer == p + shift &&
      r.out == (if shift == 0 then ClosedForm(rec) else [LoopHeader] + AddCells(rec) + [MovePointer(shift), LoopClose])
  {
    var g := Enter(p, true);
    var q := pc + |Flatten(body)|;
    ArithRun(prog, pc, q, body, g);
    CloseAt(prog, q, AfterRun(body, g));
    PureDump(body, p);
  }

  /** What the JMPNZ of a loop of additions and moves writes, entered at p. */
  lemma {:induction false} PureDump(body: seq<Instr>, p: int)
    ensures var h := AfterRun(body, Enter(p, true));
      var d := Dump(h.changes, h.currentPointer - h.startPointer, h.isPure, h.headerPrinted, h.fromJump);
      var rec := Accum(body, 0, []);
      var shift := Shift(body);
      h.currentPointer == p + shift &&
      d.0 + (if d.1 then [LoopClose] else []) ==
        (if shift == 0 then ClosedForm(rec) else [LoopHeader] + AddCells(rec) + [MovePointer(shift), LoopClose])
  {
    var shift := Shift(body);
    if shift != 0 {
      var rec := Accum(body, 0, []);
      assert [LoopHeader] + AddCells(rec) + [MovePointer(shift)] + [LoopClose] ==
        [LoopHeader] + AddCells(rec) + [MovePointer(shift), LoopClose];
    }
  }

  /** At a JMPNZ the record is dumped, the brace closed if the header was written, and the call returns. */
  lemma {:induction false} CloseAt(prog: seq<int>, q: nat, h: Region)
    requires q + 2 <= |prog| && prog[q] == JMPNZ
    ensures var d := Dump(h.changes, h.currentPointer - h.startPointer, h.isPure, h.headerPrinted, h.fromJump);
      Gen(prog, q, h) == Outcome(true, true, q + 2, h.currentPointer, d.0 + (if d.1 then [LoopClose] else []))
  {
    GenUnfold(prog, q, h);
    var f := FlushBefore(JMPNZ, h);
    ExecUnfold(prog, q, f.1);
  }

  /**
   * At a flush point of a region that is still pure and has not moved, the
   * record is written as the closed form: the count from the loop cell's
   * delta d, a scaled addition for every entry off offset 0, and the loop
   * cell cleared last. The header is not written.
   */
  lemma {:induction false} FlushClosedForm(op: int, g: Region)
    requires IsFlushPoint(op) && g.isPure && !MakesImpure(op) && g.currentPointer == g.startPointer
    ensures var f := FlushBefore(op, g); var d := DeltaAt(g.changes, 0);
      |f.0| >= 2 && f.0[0] == (if d < 0 then CountDown(-d) else CountUp(d)) && f.0[|f.0| - 1] == ClearLoopVar &&
      f.1.headerPrinted == g.headerPrinted &&
      forall i :: 0 <= i < |g.changes| && g.changes[i].idx != 0 ==> AddScaled(g.changes[i].idx, g.changes[i].value) in f.0
  {
    var r := g.changes;
    forall i | 0 <= i < |r| && r[i].idx != 0 ensures AddScaled(r[i].idx, r[i].value) in ClosedForm(r) {
      ScaledAddsCover(r, i);
    }
  }

  /**
   * At any other flush (the region made impure here or before, or the pointer
   * moved), the header is written if it is due, then one addition per entry
   * of the record in record order, then the pointer move if there is one.
   */
  lemma {:induction false} FlushPlain(op: int, g: Region)
    requires IsFlushPoint(op) && !(g.isPure && !MakesImpure(op) && g.currentPointer == g.startPointer)
    ensures var f := FlushBefore(op, g); var r := g.changes; var shift := g.currentPointer - g.startPointer;
      var h := if g.fromJump && !g.headerPrinted then 1 else 0;
      |f.0| == h + |r| + (if shift != 0 then 1 else 0) && (h == 1 ==> f.0[0] == LoopHeader) &&
      f.1.headerPrinted == (g.headerPrinted || g.fromJump) &&
      (forall j :: 0 <= j < |r| ==> f.0[h + j] == AddCell(r[j].idx, r[j].value)) &&
      (shift != 0 ==> f.0[|f.0| - 1] == MovePointer(shift))
  {
    var r := g.changes;
    var shift := g.currentPointer - g.startPointer;
    var f := FlushBefore(op, g);
    var hdr := Header(g.headerPrinted, g.fromJump).0;
    var mv := if shift != 0 then [MovePointer(shift)] else [];
    assert f.0 == hdr + AddCells(r) + mv;
    AddCellsAt(r);
  }

  /**
   * A multiply loop: the count is derived from the loop cell's net change d
   * per pass, every other touched cell k gets count times its net change, the
   * loop cell is cleared, and no loop is written.
   */
  lemma {:induction false} MultiplyLoop(prog: seq<int>, pc: nat, body: seq<Instr>, p: int)
    requires AllArith(body) && Shift(body) == 0
    requires pc + |Flatten(body)| + 2 <= |prog| && prog[pc..pc + |Flatten(body)|] == Flatten(body)
    requires prog[pc + |Flatten(body)|] == JMPNZ
    ensures var r := Gen(prog, pc, Enter(p, true));
      var out := r.out;
      var d := NetDelta(body, 0, 0);
      r.ok && r.closed && r.pointer == p &&
      |out| >= 2 && out[0] == (if d < 0 then CountDown(-d) else CountUp(d)) && out[|out| - 1] == ClearLoopVar &&
      (forall k :: k in Touched(body, 0) && k != 0 ==> AddScaled(k, NetDelta(body, 0, k)) in out) &&
      (forall s :: s in out[1..|out| - 1] ==>
         s.AddScaled? && s.offset != 0 && s.offset in Touched(body, 0) && s.factor == NetDelta(body, 0, s.offset)) &&
      LoopHeader !in out && LoopClose !in out
  {
    PureLoop(prog, pc, body, p);
    MultiplyShape(body, Gen(prog, pc, Enter(p, true)).out);
  }

  /** The closed form of a body's record, in the terms of the reference semantics. */
  lemma {:induction false} MultiplyShape(body: seq<Instr>, out: seq<Stmt>)
    requires out == ClosedForm(Accum(body, 0, []))
    ensures var d := NetDelta(body, 0, 0);
      |out| >= 2 && out[0] == (if d < 0 then CountDown(-d) else CountUp(d)) && out[|out| - 1] == ClearLoopVar &&
      (forall k :: k in Touched(body, 0) && k != 0 ==> AddScaled(k, NetDelta(body, 0, k)) in out) &&
      (forall s :: s in out[1..|out| - 1] ==>
         s.AddScaled? && s.offset != 0 && s.offset in Touched(body, 0) && s.factor == NetDelta(body, 0, s.offset)) &&
      LoopHeader !in out && LoopClose !in out
  {
    AccumMeaning(body, 0, []);
    assert Offsets([]) == {};
    ClosedFormShape(Accum(body, 0, []));
  }

  /**
   * A loop of additions and moves with a non-zero net shift: the loop is kept,
   * and each touched cell gets exactly its net change once.
   */
  lemma {:induction false} MovingLoop(prog: seq<int>, pc: nat, body: seq<Instr>, p: int)
    requires AllArith(body) && Shift(body) != 0
    requires pc + |Flatten(body)| + 2 <= |prog| && prog[pc..pc + |Flatten(body)|] == Flatten(body)
    requires prog[pc + |Flatten(body)|] == JMPNZ
    ensures var r := Gen(prog, pc, Enter(p, true));
      var out := r.out;
      r.ok && r.closed && r.pointer == p + Shift(body) &&
      |out| == |Touched(body, 0)| + 3 && out[0] == LoopHeader &&
      out[|out| - 2] == MovePointer(Shift(body)) && out[|out| - 1] == LoopClose &&
      (forall k :: k in Touched(body, 0) ==> AddCell(k, NetDelta(body, 0, k)) in out) &&
      (forall s :: s in out[1..|out| - 2] ==>
         s.AddCell? && s.offset in Touched(body, 0) && s.delta == NetDelta(body, 0, s.offset))
  {
    PureLoop(prog, pc, body, p);
    var rec := Accum(body, 0, []);
    AccumMeaning(body, 0, []);
    assert Offsets([]) == {};
    AddCellsShape(rec);
    DistinctCard(rec);
    var out := Gen(prog, pc, Enter(p, true)).out;
    assert out[1..|out| - 2] == AddCells(rec);
    forall k | k in Touched(body, 0) ensures AddCell(k, NetDelta(body, 0, k)) in out {
      assert AddCell(k, DeltaAt(rec, k)) in AddCells(rec);
    }
  }

  /** A record with distinct offsets has one entry per offset. */
  lemma {:induction false} DistinctCard(r: seq<Change>)
    requires Distinct(r)
    ensures |Offsets(r)| == |r|
  {
    if r != [] {
      OffsetsCons(r);
      assert Distinct(r[1..]) by {
        forall i, j | 0 <= i < j < |r[1..]| ensures r[1..][i].idx != r[1..][j].idx {
          assert r[1..][i] == r[i + 1] && r[1..][j] == r[j + 1];
        }
      }
      DistinctCard(r[1..]);
      assert r[0].idx !in Offsets(r[1..]) by {
        forall i | 0 <= i < |r[1..]| ensures r[1..][i].idx != r[0].idx {
          assert r[1..][i] == r[i + 1];
        }
      }
    } else {
      assert Offsets(r) == {};
    }
  }

  /**
   * The loop `[]` compiles to JMPZ 2, JMPNZ -2: its body is pure with no
   * change at all, so the closed form divides by the loop cell's delta 0.
   */
  lemma {:induction false} EmptyLoopDividesByZero()
    ensures Transpiled([JMPZ, 2, JMPNZ, -2, END]).out == [CountUp(0), ClearLoopVar]
  {
    var prog := [JMPZ, 2, JMPNZ, -2, END];
    var g0 := Enter(0, false);
    GenUnfold(prog, 0, g0);
    var g1 := FlushBefore(JMPZ, g0).1;
    assert FlushBefore(JMPZ, g0).0 == [];
    ExecJmpz(prog, 0, g1);
    var e := Enter(0, true);
    GenUnfold(prog, 2, e);
    ExecUnfold(prog, 2, FlushBefore(JMPNZ, e).1);
    assert Gen(prog, 2, e) == Outcome(true, true, 4, 0, [CountUp(0), ClearLoopVar]);
    var g2 := g1.(lastOpcode := JMPZ, isPure := false, startPointer := 0, currentPointer := 0, changes := []);
    GenUnfold(prog, 4, g2);
    ExecUnfold(prog, 4, FlushBefore(END, g2).1);
  }

  /**
   * A multiply-loop rewrite outside any loop: in `+++` the top-level region is
   * pure and its pointer never moves, so the flush at END writes the closed
   * form instead of the addition, and no loop guards it.
   */
  lemma {:induction false} TopLevelClosedForm()
    ensures Transpiled([INCR_1 + 2, END]).out == [CountUp(3), ClearLoopVar]
  {
    var prog := [INCR_1 + 2, END];
    var g0 := Enter(0, false);
    TopLevelAdd(prog, g0);
    TopLevelFlush(prog, g0.(lastOpcode := INCR_1 + 2, changes := [Change(0, 3)]));
  }

  lemma {:induction false} TopLevelAdd(prog: seq<int>, g: Region)
    requires prog == [INCR_1 + 2, END] && g == Enter(0, false)
    ensures Gen(prog, 0, g) == Gen(prog, 1, g.(lastOpcode := INCR_1 + 2, changes := [Change(0, 3)]))
  {
    assert FlushBefore(INCR_1 + 2, g) == ([], g);
    assert Decode(prog, 0) == Some((Incr(3), 1));
    assert Within(Incr(3), INCR_1 + 2, g).1 == g.(lastOpcode := INCR_1 + 2, changes := [Change(0, 3)]);
    GenUnfold(prog, 0, g);
    ExecUnfold(prog, 0, g);
  }

  lemma {:induction false} TopLevelFlush(prog: seq<int>, g: Region)
    requires prog == [INCR_1 + 2, END] && g == Region(0, 0, [Change(0, 3)], true, true, INCR_1 + 2, false)
    ensures Gen(prog, 1, g).out == [CountUp(3), ClearLoopVar]
  {
    GenUnfold(prog, 1, g);
    assert ScaledAdds([Change(0, 3)]) == [];
    assert FlushBefore(END, g).0 == [CountUp(3), ClearLoopVar];
    ExecUnfold(prog, 1, FlushBefore(END, g).1);
  }

  /**
   * INPUT is not a flush point: in `+,.` the pending increment is written
   * after the read, so the generated code prints the input plus one.
   */
  lemma {:induction false} ReadOvertakesPendingAdd()
    ensures Transpiled([INCR_1, INPUT, OUTPUT, END]).out == [ReadCell(0), AddCell(0, 1), WriteCell]
  {
    var prog := [INCR_1, INPUT, OUTPUT, END];
    var g0 := Enter(0, false);
    GenUnfold(prog, 0, g0);
    ExecUnfold(prog, 0, g0);
    var ga := g0.(lastOpcode := INCR_1, changes := [Change(0, 1)]);
    assert Gen(prog, 0, g0) == Gen(prog, 1, ga);
    ReadWhilePending(ga);
    FlushAfterRead(ga.(lastOpcode := INPUT));
  }

  lemma {:induction false} ReadWhilePending(g: Region)
    requires g == Region(0, 0, [Change(0, 1)], true, true, INCR_1, false)
    ensures Gen([INCR_1, INPUT, OUTPUT, END], 1, g) ==
      Prepend([ReadCell(0)], Gen([INCR_1, INPUT, OUTPUT, END], 2, g.(lastOpcode := INPUT)))
  {
    var prog := [INCR_1, INPUT, OUTPUT, END];
    GenUnfold(prog, 1, g);
    ExecUnfold(prog, 1, g);
  }

  lemma {:induction false} FlushAfterRead(g: Region)
    requires g == Region(0, 0, [Change(0, 1)], true, true, INPUT, false)
    ensures Gen([INCR_1, INPUT, OUTPUT, END], 2, g).out == [AddCell(0, 1), WriteCell]
  {
    var prog := [INCR_1, INPUT, OUTPUT, END];
    GenUnfold(prog, 2, g);
    assert AddCells([Change(0, 1)]) == [AddCell(0, 1)];
    var gc := FlushBefore(OUTPUT, g).1;
    assert FlushBefore(OUTPUT, g).0 == [AddCell(0, 1)];
    ExecUnfold(prog, 2, gc);
    EndAfterWrite(prog, gc.(lastOpcode := OUTPUT));
  }

  lemma {:induction false} EndAfterWrite(prog: seq<int>, g: Region)
    requires prog == [INCR_1, INPUT, OUTPUT, END] && g.changes == [] && !g.isPure && !g.fromJump
    requires g.currentPointer == g.startPointer
    ensures Gen(prog, 3, g).out == []
  {
    GenUnfold(prog, 3, g);
    ExecUnfold(prog, 3, FlushBefore(END, g).1);
  }

  /**
   * The reset after a loop is still written: the caller's lastOpcode is JMPZ
   * (the JMPNZ is consumed by the nested call), never JMPNZ.
   */
  lemma {:induction false} ResetAfterLoopKept()
    ensures Transpiled([JMPZ, 3, RIGHT_1, JMPNZ, -3, RESET_CELL, END]).out ==
      [LoopHeader, MovePointer(1), LoopClose, ZeroCell]
  {
    var prog := [JMPZ, 3, RIGHT_1, JMPNZ, -3, RESET_CELL, END];
    var g0 := Enter(0, false);
    GenUnfold(prog, 0, g0);
    var g1 := FlushBefore(JMPZ, g0).1;
    assert FlushBefore(JMPZ, g0).0 == [];
    ExecJmpz(prog, 0, g1);
    ResetLoopBody(prog, Enter(0, true));
    var g2 := g1.(lastOpcode := JMPZ, isPure := false, startPointer := 1, currentPointer := 1, changes := []);
    ResetAfterClose(prog, g2);
  }

  /** The loop `[>]` inside the program: header, pointer move, closing brace, pointer 1. */
  lemma {:induction false} ResetLoopBody(prog: seq<int>, e: Region)
    requires prog == [JMPZ, 3, RIGHT_1, JMPNZ, -3, RESET_CELL, END] && e == Enter(0, true)
    ensures Gen(prog, 2, e) == Outcome(true, true, 5, 1, [LoopHeader, MovePointer(1), LoopClose])
  {
    var ea := e.(lastOpcode := RIGHT_1, currentPointer := 1);
    ResetLoopMove(prog, e);
    CloseAt(prog, 3, ea);
    assert AddCells([]) == [];
  }

  lemma {:induction false} ResetLoopMove(prog: seq<int>, e: Region)
    requires prog == [JMPZ, 3, RIGHT_1, JMPNZ, -3, RESET_CELL, END] && e == Enter(0, true)
    ensures Gen(prog, 2, e) == Gen(prog, 3, e.(lastOpcode := RIGHT_1, currentPointer := 1))
  {
    GenUnfold(prog, 2, e);
    ExecUnfold(prog, 2, e);
  }

  /** After the loop the caller's last opcode is JMPZ, so RESET_CELL writes the zeroing statement. */
  lemma {:induction false} ResetAfterClose(prog: seq<int>, g: Region)
    requires prog == [JMPZ, 3, RIGHT_1, JMPNZ, -3, RESET_CELL, END]
    requires g == Region(1, 1, [], false, true, JMPZ, false)
    ensures Gen(prog, 5, g).out == [ZeroCell]
  {
    GenUnfold(prog, 5, g);
    var g3 := FlushBefore(RESET_CELL, g).1;
    assert FlushBefore(RESET_CELL, g).0 == [];
    ExecUnfold(prog, 5, g3);
    var g4 := g3.(lastOpcode := RESET_CELL);
    assert Gen(prog, 5, g) == Prepend([ZeroCell], Gen(prog, 6, g4));
    GenUnfold(prog, 6, g4);
    ExecUnfold(prog, 6, FlushBefore(END, g4).1);
  }
}
