/**
 * Compiling and then executing: the folded instructions the compiler emits
 * have the effect of the source characters they replace.
 */
module Pipeline {
  import opened Wrappers
  import opened Opcodes
  import opened Compiler
  import opened Executor

  /** Every character of src is c. */
  predicate Uniform(src: string, c: char)
  {
    forall j :: 0 <= j < |src| ==> src[j] == c
  }

  /** In a string of one operator, the run from i reaches the end and counts every character. */
  lemma {:induction false} UniformRepeat(src: string, c: char, i: nat)
    requires IsOp(c) && Uniform(src, c) && i <= |src|
    ensures RepeatCount(src, c, i) == |src| - i && RepeatEnd(src, c, i) == |src|
    decreases |src| - i
  {
    if i < |src| {
      assert NextOp(src, i) == i;
      UniformRepeat(src, c, i + 1);
    } else {
      assert NextOp(src, i) == i;
    }
  }

  /** A run of k '+' compiles to a single folded increment by k followed by END. */
  lemma {:induction false} CompileIncrementRun(src: string)
    requires |src| >= 1 && Uniform(src, '+')
    ensures Compiled(src) == Some(RepeatWords(INCR_1, |src| - 1) + [END])
  {
    var k := |src|;
    UniformRepeat(src, '+', 1);
    var prog := RepeatWords(INCR_1, k - 1);
    assert src[0] == '+' && IsRunChar('+') && Family('+') == INCR_1;
    assert [] + prog == prog;
    assert CompileStep(src, 0, [], []) == Some((k as nat, prog, []));
    assert CompileFrom(src, k, prog, []) == Some(prog + [END]);
  }

  /**
   * The folded increment by k followed by END halts after two dispatches with
   * cell 0 holding k modulo 256, no output, the pointer unmoved and every
   * other cell untouched.
   */
  lemma {:induction false} ExecuteIncrementRun(k: nat, input: seq<byte>)
    requires k >= 1
    ensures var t := Run(RepeatWords(INCR_1, k - 1) + [END], Initial(input), 2);
      t.status == Halted && t.ptr == 0 && t.tape[0] == k % 256 && t.output == [] &&
      forall c :: 0 < c < MAX_CELLS ==> t.tape[c] == 0
  {
    var prog := RepeatWords(INCR_1, k - 1);
    RepeatWordsFold(INCR_1, k - 1, [END]);
    var s0 := Initial(input);
    var s1 := Step(prog + [END], s0);
    assert s1 == s0.(ip := |prog|, tape := s0.tape[0 := Wrap(k)]);
    assert (prog + [END])[|prog|..] == [END] + [];
    DecodeEncode(End, []);
    assert Decode(prog + [END], |prog|) == Some((End, 1));
    var s2 := Step(prog + [END], s1);
    assert s2 == s1.(status := Halted);
    assert Run(prog + [END], s0, 2) == s2;
  }

  /** Source to behaviour: a run of k '+' leaves k modulo 256 in cell 0. */
  lemma {:induction false} IncrementRun(src: string, input: seq<byte>)
    requires |src| >= 1 && Uniform(src, '+')
    ensures Compiled(src).Some?
    ensures var t := Run(Compiled(src).value, Initial(input), 2);
      t.status == Halted && t.ptr == 0 && t.tape[0] == |src| % 256 && t.output == []
  {
    CompileIncrementRun(src);
    ExecuteIncrementRun(|src|, input);
  }

  /** `+++[-]` compiles to INCR_3, RESET_CELL, END: the clear loop becomes one instruction. */
  lemma {:induction false} CompileClearIdiom()
    ensures Compiled("+++[-]") == Some([INCR_1 + 2, RESET_CELL, END])
  {
    var src := "+++[-]";
    ClearIdiomRun();
    ClearIdiomLoop();
    assert |src| == 6;
    assert [INCR_1 + 2, RESET_CELL] + [END] == [INCR_1 + 2, RESET_CELL, END];
    assert CompileFrom(src, 6, [INCR_1 + 2, RESET_CELL], []) == Some([INCR_1 + 2, RESET_CELL, END]);
  }

  lemma {:induction false} ClearIdiomRun()
    ensures CompileStep("+++[-]", 0, [], []) == Some((3, [INCR_1 + 2], []))
  {
    var src := "+++[-]";
    assert NextOp(src, 1) == 1 && NextOp(src, 2) == 2 && NextOp(src, 3) == 3;
    assert RepeatCount(src, '+', 3) == 0 && RepeatEnd(src, '+', 3) == 3;
    assert RepeatCount(src, '+', 1) == 2 && RepeatEnd(src, '+', 1) == 3;
    assert src[0] == '+' && IsRunChar('+') && Family('+') == INCR_1;
    assert [] + RepeatWords(INCR_1, 2) == [INCR_1 + 2];
  }

  lemma {:induction false} ClearIdiomLoop()
    ensures CompileStep("+++[-]", 3, [INCR_1 + 2], []) == Some((6, [INCR_1 + 2, RESET_CELL], []))
  {
    var src := "+++[-]";
    assert NextOp(src, 4) == 4 && NextOp(src, 5) == 5;
    assert src[3] == '[' && src[4] == '-' && src[5] == ']' && |src| == 6;
    assert !IsRunChar('[') && IsResetIdiom(src, 3) && ResetEnd(src, 3) == 6;
    assert [INCR_1 + 2] + [RESET_CELL] == [INCR_1 + 2, RESET_CELL];
  }

  /** Executing INCR_3, RESET_CELL, END halts after three dispatches with cell 0 cleared. */
  lemma {:induction false} ExecuteClearIdiom(input: seq<byte>)
    ensures var t := Run([INCR_1 + 2, RESET_CELL, END], Initial(input), 3);
      t.status == Halted && t.ptr == 0 && t.tape[0] == 0 && t.output == []
  {
    var prog := [INCR_1 + 2, RESET_CELL, END];
    var s0 := Initial(input);
    var s1 := Step(prog, s0);
    assert s1 == s0.(ip := 1, tape := s0.tape[0 := 3]);
    var s2 := Step(prog, s1);
    assert s2 == s1.(ip := 2, tape := s1.tape[0 := 0]);
    var s3 := Step(prog, s2);
    assert s3 == s2.(status := Halted);
  }

  /** Source to behaviour: `+++[-]` halts with cell 0 cleared. */
  lemma {:induction false} ClearIdiom(input: seq<byte>)
    ensures Compiled("+++[-]").Some?
    ensures var t := Run(Compiled("+++[-]").value, Initial(input), 3);
      t.status == Halted && t.ptr == 0 && t.tape[0] == 0 && t.output == []
  {
    CompileClearIdiom();
    ExecuteClearIdiom(input);
  }

  // ----- Every compiled JMPZ is half of a jump pair -----

  /** The block s occurs in prog from position p on. */
  predicate LaidAt(prog: seq<int>, p: int, s: seq<int>)
  {
    0 <= p && p + |s| <= |prog| && forall k :: 0 <= k < |s| ==> prog[p + k] == s[k]
  }

  /** A slice of a block laid out in prog is laid out in prog too, further along. */
  lemma LaidSlice(prog: seq<int>, p: int, s: seq<int>, a: int, b: int)
    requires LaidAt(prog, p, s) && 0 <= a <= b <= |s|
    ensures LaidAt(prog, p + a, s[a..b])
  {
    forall k | 0 <= k < b - a
      ensures prog[p + a + k] == s[a..b][k]
    {
      assert prog[p + (a + k)] == s[a + k];
    }
  }

  /** The same for a suffix of the block. */
  lemma LaidTail(prog: seq<int>, p: int, s: seq<int>, a: int)
    requires LaidAt(prog, p, s) && 0 <= a <= |s|
    ensures LaidAt(prog, p + a, s[a..])
  {
    forall k | 0 <= k < |s| - a
      ensures prog[p + a + k] == s[a..][k]
    {
      assert prog[p + (a + k)] == s[a + k];
    }
  }

  /** Every JMPZ at an instruction start of a block laid out in prog from p is a JumpPair of prog at i. */
  lemma {:induction false} BlockJumpPair(prog: seq<int>, p: int, s: seq<int>, i: int)
    requires LaidAt(prog, p, s) && IsBlock(s) && Starts(s, i - p) && s[i - p] == JMPZ
    ensures JumpPair(prog, i)
    decreases |s|, 1
  {
    var r := i - p;
    if r == 0 {
      OpenJumpPair(prog, p, s);
    } else if s[0] == JMPZ {
      if r < s[1] {
        BodyJumpPair(prog, p, s, i);
      } else if s[1] + 2 <= r {
        TailJumpPair(prog, p, s, i, s[1] + 2);
      }
    } else {
      TailJumpPair(prog, p, s, i, Width(s[0]));
    }
  }

  /** BlockJumpPair for the JMPZ that opens s. */
  lemma OpenJumpPair(prog: seq<int>, p: int, s: seq<int>)
    requires LaidAt(prog, p, s) && IsBlock(s) && |s| >= 1 && s[0] == JMPZ
    ensures JumpPair(prog, p)
  {
    var z := s[1];
    assert prog[p + 0] == JMPZ && prog[p + 1] == z;
    assert prog[p + z] == JMPNZ && prog[p + (z + 1)] == -z;
  }

  /** BlockJumpPair for a JMPZ inside the body of the loop that s opens. */
  lemma {:induction false} BodyJumpPair(prog: seq<int>, p: int, s: seq<int>, i: int)
    requires LaidAt(prog, p, s) && IsBlock(s) && |s| >= 2 && s[0] == JMPZ && 2 <= i - p < s[1]
    requires Starts(s[2..s[1]], i - p - 2) && s[i - p] == JMPZ
    ensures JumpPair(prog, i)
    decreases |s|, 0
  {
    var body := s[2..s[1]];
    LaidSlice(prog, p, s, 2, s[1]);
    assert body[i - (p + 2)] == s[i - p];
    BlockJumpPair(prog, p + 2, body, i);
  }

  /** BlockJumpPair for a JMPZ after the first a words of s. */
  lemma {:induction false} TailJumpPair(prog: seq<int>, p: int, s: seq<int>, i: int, a: int)
    requires LaidAt(prog, p, s) && 1 <= a <= i - p < |s| && IsBlock(s[a..])
    requires Starts(s[a..], i - p - a) && s[i - p] == JMPZ
    ensures JumpPair(prog, i)
    decreases |s|, 0
  {
    var rest := s[a..];
    LaidTail(prog, p, s, a);
    assert rest[i - (p + a)] == s[i - p];
    BlockJumpPair(prog, p + a, rest, i);
  }

  /**
   * In a compiled program every JMPZ at an instruction start has its
   * matching JMPNZ at the offset it carries, and that JMPNZ carries the
   * negated offset: the shape the interpreter's jumps rely on.
   */
  lemma CompiledJumpPairs(src: string, w: seq<int>, j: int)
    requires Compiled(src) == Some(w) && Starts(w[..|w| - 1], j) && w[j] == JMPZ
    ensures JumpPair(w, j)
  {
    CompiledCorrect(src);
    BlockJumpPair(w, 0, w[..|w| - 1], j);
  }

  /** Hence the landing rule holds at every JMPZ of a compiled program and at its JMPNZ. */
  lemma CompiledJumpLanding(src: string, w: seq<int>, j: int, s: State)
    requires Compiled(src) == Some(w) && Starts(w[..|w| - 1], j) && w[j] == JMPZ
    requires Valid(s) && s.status == Running
    ensures var z := w[j + 1];
      (s.ip == j ==> Step(w, s).ip == (if s.tape[s.ptr] == 0 then j + z + 2 else j + 2)) &&
      (s.ip == j + z ==> Step(w, s).ip == (if s.tape[s.ptr] != 0 then j + 2 else j + z + 2))
  {
    CompiledJumpPairs(src, w, j);
    JumpLanding(w, j, s);
  }
}
