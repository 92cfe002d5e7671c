/**
 * The compiler of bfvm.c (skipAll, check_repeat, compile): one pass over the
 * source text that folds runs of + - < >, recognises the [-] / [+] idiom,
 * resolves brackets with a jump stack and backpatches each JMPZ offset.
 *
 * The source text is the sequence of characters before the C string's
 * terminating NUL; the end of the sequence plays the terminator's part.
 */
module Compiler {
  import opened Wrappers
  import opened Opcodes
  import opened Growable

  /** The eight instruction characters; every other character is a comment. */
  predicate IsOp(ch: char)
  {
    ch == '>' || ch == '<' || ch == '+' || ch == '-' || ch == '.' || ch == ',' || ch == '[' || ch == ']'
  }

  predicate IsRunChar(ch: char)
  {
    ch == '>' || ch == '<' || ch == '+' || ch == '-'
  }

  /** The first instruction character at or after i, or the end of the text. */
  function NextOp(src: string, i: nat): (j: nat)
    requires i <= |src|
    ensures i <= j <= |src|
    ensures j < |src| ==> IsOp(src[j])
    ensures forall k :: i <= k < j ==> !IsOp(src[k])
    decreases |src| - i
  {
    if i == |src| || IsOp(src[i]) then i else NextOp(src, i + 1)
  }

  /** How many further copies of c follow position i, comments between them skipped. */
  function RepeatCount(src: string, c: char, i: nat): (n: nat)
    requires i <= |src|
    decreases |src| - i
  {
    var k := NextOp(src, i);
    if k < |src| && src[k] == c then 1 + RepeatCount(src, c, k + 1) else 0
  }

  /** Where check_repeat leaves the source pointer. */
  function RepeatEnd(src: string, c: char, i: nat): (j: nat)
    requires i <= |src|
    ensures i <= j <= |src|
    decreases |src| - i
  {
    var k := NextOp(src, i);
    if k < |src| && src[k] == c then RepeatEnd(src, c, k + 1) else k
  }

  /** Scanning from i or from the next instruction character after i is the same. */
  lemma {:induction false} RepeatFromNextOp(src: string, c: char, i: nat)
    requires i <= |src|
    ensures NextOp(src, NextOp(src, i)) == NextOp(src, i)
    ensures RepeatCount(src, c, NextOp(src, i)) == RepeatCount(src, c, i)
    ensures RepeatEnd(src, c, NextOp(src, i)) == RepeatEnd(src, c, i)
  {
  }

  /** The number of copies of c in s. */
  function Occurrences(s: string, c: char): nat
  {
    if s == [] then 0 else Occurrences(s[1..], c) + (if s[0] == c then 1 else 0)
  }

  /** Between i and the end of the repeat scan there are only copies of c and comments. */
  lemma {:induction false} RepeatSpan(src: string, c: char, i: nat)
    requires i <= |src|
    ensures forall k :: i <= k < RepeatEnd(src, c, i) ==> src[k] == c || !IsOp(src[k])
    decreases |src| - i
  {
    var k := NextOp(src, i);
    if k < |src| && src[k] == c {
      RepeatSpan(src, c, k + 1);
    }
  }

  /** The scan stops at the end of the text or at an instruction character other than c. */
  lemma {:induction false} RepeatMaximal(src: string, c: char, i: nat)
    requires i <= |src|
    ensures var j := RepeatEnd(src, c, i); j == |src| || (IsOp(src[j]) && src[j] != c)
    decreases |src| - i
  {
    var k := NextOp(src, i);
    if k < |src| && src[k] == c {
      RepeatMaximal(src, c, k + 1);
    }
  }

  /** The count is the number of copies of c that the scan passes over. */
  lemma {:induction false} RepeatCounts(src: string, c: char, i: nat)
    requires i <= |src| && IsOp(c)
    ensures RepeatCount(src, c, i) == Occurrences(src[i..RepeatEnd(src, c, i)], c)
    decreases |src| - i
  {
    var k := NextOp(src, i);
    var j := RepeatEnd(src, c, i);
    OccurrencesComments(src[i..k], c);
    if k < |src| && src[k] == c {
      RepeatCounts(src, c, k + 1);
      OccurrencesSplit(src, c, i, k, j);
    }
  }

  /** A copy of c at k after comments from i: it adds one to the count of what follows it. */
  lemma {:induction false} OccurrencesSplit(src: string, c: char, i: nat, k: nat, j: nat)
    requires i <= k < j <= |src| && src[k] == c && Occurrences(src[i..k], c) == 0
    ensures Occurrences(src[i..j], c) == Occurrences(src[k + 1..j], c) + 1
  {
    var tail := [c] + src[k + 1..j];
    assert src[i..j] == src[i..k] + tail;
    OccurrencesConcat(src[i..k], tail, c);
    assert tail[0] == c && tail[1..] == src[k + 1..j];
  }

  /**
   * The repeat scan is a maximal run: between i and its end there are only
   * copies of c and comments, the copies counted are exactly those, and what
   * follows is the end of the text or another instruction character.
   */
  lemma {:induction false} RepeatShape(src: string, c: char, i: nat)
    requires i <= |src| && IsOp(c)
    ensures var j := RepeatEnd(src, c, i);
      (forall k :: i <= k < j ==> src[k] == c || !IsOp(src[k])) &&
      RepeatCount(src, c, i) == Occurrences(src[i..j], c) &&
      (j == |src| || (IsOp(src[j]) && src[j] != c))
  {
    RepeatSpan(src, c, i);
    RepeatMaximal(src, c, i);
    RepeatCounts(src, c, i);
  }

  lemma {:induction false} OccurrencesConcat(a: string, b: string, c: char)
    ensures Occurrences(a + b, c) == Occurrences(a, c) + Occurrences(b, c)
  {
    if a != [] {
      assert (a + b)[0] == a[0];
      assert (a + b)[1..] == a[1..] + b;
      OccurrencesConcat(a[1..], b, c);
    } else {
      assert a + b == b;
    }
  }

  lemma {:induction false} OccurrencesComments(s: string, c: char)
    requires IsOp(c) && forall k :: 0 <= k < |s| ==> !IsOp(s[k])
    ensures Occurrences(s, c) == 0
  {
    if s != [] {
      OccurrencesComments(s[1..], c);
    }
  }

  /** check_repeat's emission for a run of count + 1 characters (count is 0-based). */
  function RepeatWords(codeStart: int, count: nat): (r: seq<int>)
    ensures 1 <= |r| <= 2 && (|r| == 2 <==> count >= 8)
    ensures RunOf(r[0], codeStart, if |r| == 2 then r[1] else 0) == count + 1
  {
    if count <= 7 then [codeStart + count] else [codeStart + 8, count + 1]
  }

  /**
   * Run-length folding: a run of n copies becomes the single word base + (n - 1)
   * when n <= 8, otherwise base + 8 followed by the word n, and decodes to the
   * instruction that adds (subtracts, moves by) n.
   */
  lemma {:induction false} RepeatWordsFold(codeStart: int, count: nat, rest: seq<int>)
    requires codeStart in {INCR_1, DECR_1, LEFT_1, RIGHT_1}
    ensures RepeatWords(codeStart, count) == RunWords(codeStart, count + 1)
    ensures count + 1 <= 8 ==> RepeatWords(codeStart, count) == [codeStart + count]
    ensures count + 1 > 8 ==> RepeatWords(codeStart, count) == [codeStart + 8, count + 1]
    ensures Decode(RepeatWords(codeStart, count) + rest, 0).Some?
    ensures Decode(RepeatWords(codeStart, count) + rest, 0).value.0 ==
      (if codeStart == INCR_1 then Incr(count + 1) else if codeStart == DECR_1 then Decr(count + 1)
       else if codeStart == LEFT_1 then Left(count + 1) else Right(count + 1))
  {
    RunWordsDecode(codeStart, count + 1, rest);
  }

  /** The first opcode of the family a run character folds into. */
  function Family(ch: char): int
  {
    if ch == '>' then RIGHT_1 else if ch == '<' then LEFT_1 else if ch == '+' then INCR_1 else DECR_1
  }

  /** `[`, then (ignoring comments) one `-` or `+`, then `]`. */
  predicate IsResetIdiom(src: string, i: nat)
    requires i < |src|
  {
    var a := NextOp(src, i + 1);
    a < |src| && (src[a] == '-' || src[a] == '+') &&
    NextOp(src, a + 1) < |src| && src[NextOp(src, a + 1)] == ']'
  }

  /** The position just past the idiom's `]`. */
  function ResetEnd(src: string, i: nat): (j: nat)
    requires i < |src| && IsResetIdiom(src, i)
    ensures i < j <= |src|
  {
    NextOp(src, NextOp(src, i + 1) + 1) + 1
  }

  /** Every open position on the jump stack lies just past a JMPZ and its offset word. */
  predicate StackInRange(prog: seq<int>, stack: seq<int>)
  {
    forall k :: 0 <= k < |stack| ==> 2 <= stack[k] <= |prog|
  }

  /**
   * The `]` case: append JMPNZ and the backward offset, then backpatch the
   * offset word of the JMPZ whose successor position is `last`.
   */
  function CloseLoop(prog: seq<int>, last: int): (r: seq<int>)
    requires 2 <= last <= |prog|
    ensures |r| == |prog| + 2 && r[|prog|] == JMPNZ
    ensures r[last - 1] == |prog| - (last - 2) && r[|prog| + 1] == -r[last - 1]
    ensures forall k :: 0 <= k < |prog| && k != last - 1 ==> r[k] == prog[k]
  {
    var p := prog + [JMPNZ, last - (|prog| + 1) - 1];
    p[last - 1 := |p| - last]
  }

  /**
   * One pass of compile's loop at source position i: the next position, words
   * and jump stack, or None where compile returns NULL (a `]` with an empty
   * jump stack).
   */
  function CompileStep(src: string, i: nat, prog: seq<int>, stack: seq<int>): (r: Option<(nat, seq<int>, seq<int>)>)
    requires i < |src| && StackInRange(prog, stack)
    ensures r.Some? ==> i < r.value.0 <= |src| && StackInRange(r.value.1, r.value.2) && |r.value.1| >= |prog|
  {
    var ch := src[i];
    if IsRunChar(ch) then
      Some((RepeatEnd(src, ch, i + 1), prog + RepeatWords(Family(ch), RepeatCount(src, ch, i + 1)), stack))
    else if ch == '.' then
      Some((i + 1, prog + [OUTPUT], stack))
    else if ch == ',' then
      Some((i + 1, prog + [INPUT], stack))
    else if ch == '[' then
      if IsResetIdiom(src, i) then Some((ResetEnd(src, i), prog + [RESET_CELL], stack))
      else Some((i + 1, prog + [JMPZ, 0], stack + [|prog| + 2]))
    else if ch == ']' then
      if |stack| == 0 then None
      else Some((i + 1, CloseLoop(prog, stack[|stack| - 1]), stack[..|stack| - 1]))
    else
      Some((NextOp(src, i + 1), prog, stack))
  }

  /** The compile loop from source position i; at the end, NULL if a `[` is still open, else the words and END. */
  function CompileFrom(src: string, i: nat, prog: seq<int>, stack: seq<int>): (r: Option<seq<int>>)
    requires i <= |src| && StackInRange(prog, stack)
    ensures r.Some? ==> |r.value| > |prog| && r.value[|r.value| - 1] == END
    decreases |src| - i
  {
    if i == |src| then
      if |stack| > 0 then None else Some(prog + [END])
    else
      match CompileStep(src, i, prog, stack)
      case None => None
      case Some((j, p, st)) => CompileFrom(src, j, p, st)
  }

  /** What compile returns for the source text; None stands for NULL. */
  function Compiled(src: string): (r: Option<seq<int>>)
    ensures r.Some? ==> |r.value| >= 1 && r.value[|r.value| - 1] == END
  {
    CompileFrom(src, 0, [], [])
  }

  /**
   * Reset idiom: a `[` followed by one `+` or `-` and `]` (comments skipped)
   * consumes all three and emits the one word RESET_CELL, no jump pair.
   */
  lemma {:induction false} ResetIdiomEmitsReset(src: string, i: nat, prog: seq<int>, stack: seq<int>)
    requires i < |src| && src[i] == '[' && StackInRange(prog, stack)
    requires IsResetIdiom(src, i)
    ensures CompileStep(src, i, prog, stack) == Some((ResetEnd(src, i), prog + [RESET_CELL], stack))
    ensures CompileFrom(src, i, prog, stack) == CompileFrom(src, ResetEnd(src, i), prog + [RESET_CELL], stack)
    ensures src[NextOp(src, i + 1)] in "+-" && src[ResetEnd(src, i) - 1] == ']'
  {
  }

  // ----- Bracket structure of the emitted words -----

  /**
   * A sequence of complete instructions as the compiler emits them between
   * brackets: each JMPZ's offset word z points at the JMPNZ that closes it,
   * that JMPNZ carries -z, and the words between form a block again.
   */
  predicate IsBlock(s: seq<int>)
    decreases |s|
  {
    if s == [] then true
    else if s[0] == JMPZ then
      |s| >= 2 && 2 <= s[1] && s[1] + 2 <= |s| && s[s[1]] == JMPNZ && s[s[1] + 1] == -s[1] &&
      IsBlock(s[2..s[1]]) && IsBlock(s[s[1] + 2..])
    else
      (INCR_1 <= s[0] <= OUTPUT || s[0] == RESET_CELL) && Width(s[0]) <= |s| && IsBlock(s[Width(s[0])..])
  }

  /** A compiled program: a block followed by exactly one END. */
  predicate WellFormed(w: seq<int>)
  {
    |w| >= 1 && w[|w| - 1] == END && IsBlock(w[..|w| - 1])
  }

  /**
   * j is the position of an opcode word of s (not an operand word), reading
   * s instruction by instruction as IsBlock lays it out: a JMPZ pair is its
   * two words, the loop body, the JMPNZ pair, then the rest.
   */
  predicate Starts(s: seq<int>, j: int)
    decreases |s|
  {
    0 <= j < |s| &&
    (j == 0 ||
     if s[0] == JMPZ then
       2 <= s[1] && s[1] + 2 <= |s| &&
       ((2 <= j < s[1] && Starts(s[2..s[1]], j - 2)) || j == s[1] ||
        (s[1] + 2 <= j && Starts(s[s[1] + 2..], j - s[1] - 2)))
     else
       Width(s[0]) <= |s| && Starts(s[Width(s[0])..], j - Width(s[0])))
  }

  lemma {:induction false} BlockConcat(a: seq<int>, b: seq<int>)
    requires IsBlock(a) && IsBlock(b)
    ensures IsBlock(a + b)
    decreases |a|
  {
    if a == [] {
      assert a + b == b;
    } else if a[0] == JMPZ {
      BlockConcat(a[a[1] + 2..], b);
      BlockConsLoop(a, b);
    } else {
      BlockConcat(a[Width(a[0])..], b);
      BlockConsSimple(a, b);
    }
  }

  lemma {:induction false} BlockConsLoop(a: seq<int>, b: seq<int>)
    requires a != [] && a[0] == JMPZ && IsBlock(a) && IsBlock(a[a[1] + 2..] + b)
    ensures IsBlock(a + b)
  {
    var z := a[1];
    assert 2 <= z && z + 2 <= |a|;
    ConcatSlices(a, b, z);
  }

  lemma {:induction false} ConcatSlices(a: seq<int>, b: seq<int>, z: int)
    requires 2 <= z && z + 2 <= |a|
    ensures (a + b)[0] == a[0] && (a + b)[1] == a[1] && (a + b)[z] == a[z] && (a + b)[z + 1] == a[z + 1]
    ensures (a + b)[2..z] == a[2..z] && (a + b)[z + 2..] == a[z + 2..] + b
  {
  }

  lemma {:induction false} BlockConsSimple(a: seq<int>, b: seq<int>)
    requires a != [] && a[0] != JMPZ && IsBlock(a) && IsBlock(a[Width(a[0])..] + b)
    ensures IsBlock(a + b)
  {
    var s, w := a + b, Width(a[0]);
    assert s[0] == a[0];
    assert s[w..] == a[w..] + b;
  }

  /**
   * The words emitted so far: for each open `[` on the jump stack, a block,
   * a JMPZ with its placeholder offset 0, and after the last one a block.
   */
  predicate OpenLoops(prog: seq<int>, stack: seq<int>)
    decreases |stack|
  {
    if stack == [] then IsBlock(prog)
    else
      var last := stack[|stack| - 1];
      2 <= last <= |prog| && prog[last - 2] == JMPZ && prog[last - 1] == 0 &&
      IsBlock(prog[last..]) && OpenLoops(prog[..last - 2], stack[..|stack| - 1])
  }

  lemma {:induction false} OpenAppend(prog: seq<int>, stack: seq<int>, enc: seq<int>)
    requires OpenLoops(prog, stack) && IsBlock(enc)
    ensures OpenLoops(prog + enc, stack)
  {
    if stack == [] {
      BlockConcat(prog, enc);
    } else {
      var last := stack[|stack| - 1];
      InnermostAppend(prog, last, enc);
    }
  }

  /** Words appended after the innermost open JMPZ extend the block that follows it. */
  lemma {:induction false} InnermostAppend(prog: seq<int>, last: int, enc: seq<int>)
    requires 2 <= last <= |prog| && IsBlock(prog[last..]) && IsBlock(enc)
    ensures (prog + enc)[..last - 2] == prog[..last - 2]
    ensures (prog + enc)[last - 2] == prog[last - 2] && (prog + enc)[last - 1] == prog[last - 1]
    ensures IsBlock((prog + enc)[last..])
  {
    assert (prog + enc)[last..] == prog[last..] + enc;
    BlockConcat(prog[last..], enc);
  }

  lemma {:induction false} OpenPush(prog: seq<int>, stack: seq<int>)
    requires OpenLoops(prog, stack)
    ensures OpenLoops(prog + [JMPZ, 0], stack + [|prog| + 2])
  {
    var p := prog + [JMPZ, 0];
    var st := stack + [|prog| + 2];
    assert p[|prog| + 2..] == [];
    assert p[..|prog|] == prog;
    assert st[..|st| - 1] == stack;
  }

  lemma {:induction false} OpenClose(prog: seq<int>, stack: seq<int>)
    requires OpenLoops(prog, stack) && stack != []
    ensures 2 <= stack[|stack| - 1] <= |prog|
    ensures OpenLoops(CloseLoop(prog, stack[|stack| - 1]), stack[..|stack| - 1])
  {
    var last := stack[|stack| - 1];
    var body := prog[last..];
    var z := |body| + 2;
    var item := [JMPZ, z] + body + [JMPNZ, -z];
    LoopBlock(body);
    CloseLoopShape(prog, last);
    assert CloseLoop(prog, last) == prog[..last - 2] + item;
    OpenAppend(prog[..last - 2], stack[..|stack| - 1], item);
  }

  /** Backpatching the JMPZ at last - 2 wraps the words after it in a jump pair. */
  lemma {:induction false} CloseLoopShape(prog: seq<int>, last: int)
    requires 2 <= last <= |prog| && prog[last - 2] == JMPZ && prog[last - 1] == 0
    ensures var z := |prog[last..]| + 2;
      CloseLoop(prog, last) == prog[..last - 2] + ([JMPZ, z] + prog[last..] + [JMPNZ, -z])
  {
    assert prog == prog[..last - 2] + [JMPZ, 0] + prog[last..];
  }

  /** A block wrapped in a jump pair is a block. */
  lemma {:induction false} LoopBlock(body: seq<int>)
    requires IsBlock(body)
    ensures var z := |body| + 2; IsBlock([JMPZ, z] + body + [JMPNZ, -z])
  {
    var z := |body| + 2;
    var item := [JMPZ, z] + body + [JMPNZ, -z];
    assert item[2..z] == body;
    assert item[z + 2..] == [];
  }

  lemma {:induction false} RepeatWordsBlock(codeStart: int, count: nat)
    requires codeStart in {INCR_1, DECR_1, LEFT_1, RIGHT_1}
    ensures IsBlock(RepeatWords(codeStart, count))
  {
    var s := RepeatWords(codeStart, count);
    assert s[Width(s[0])..] == [];
  }

  // ----- Bracket balance of the source text -----

  /** Open brackets minus close brackets in s. */
  function Depth(s: string): int
    decreases |s|
  {
    if s == [] then 0
    else Depth(s[..|s| - 1]) + (if s[|s| - 1] == '[' then 1 else if s[|s| - 1] == ']' then -1 else 0)
  }

  /** No prefix closes more brackets than it opened, and all are closed at the end. */
  predicate Balanced(src: string)
  {
    (forall k :: 0 <= k <= |src| ==> Depth(src[..k]) >= 0) && Depth(src) == 0
  }

  lemma {:induction false} DepthStep(src: string, k: nat)
    requires k < |src|
    ensures Depth(src[..k + 1]) ==
      Depth(src[..k]) + (if src[k] == '[' then 1 else if src[k] == ']' then -1 else 0)
  {
    assert src[..k + 1][..k] == src[..k];
  }

  /** Across characters that are not brackets the depth stays the same. */
  lemma {:induction false} FlatDepth(src: string, i: nat, j: nat)
    requires i <= j <= |src|
    requires forall k :: i <= k < j ==> src[k] != '[' && src[k] != ']'
    ensures forall k :: i <= k <= j ==> Depth(src[..k]) == Depth(src[..i])
    decreases j - i
  {
    if i < j {
      FlatDepth(src, i, j - 1);
      DepthStep(src, j - 1);
    }
  }

  /** The invariant of the compile loop at source position i. */
  predicate Inv(src: string, i: nat, prog: seq<int>, stack: seq<int>)
  {
    i <= |src| && StackInRange(prog, stack) && OpenLoops(prog, stack) &&
    |stack| == Depth(src[..i]) && forall k :: 0 <= k <= i ==> Depth(src[..k]) >= 0
  }

  /** Continuing across the non-bracket characters src[i..j] keeps the invariant. */
  lemma {:induction false} InvFlat(src: string, i: nat, j: nat, prog: seq<int>, stack: seq<int>, enc: seq<int>)
    requires Inv(src, i, prog, stack) && i <= j <= |src| && IsBlock(enc)
    requires forall k :: i <= k < j ==> src[k] != '[' && src[k] != ']'
    ensures Inv(src, j, prog + enc, stack)
  {
    FlatDepth(src, i, j);
    OpenAppend(prog, stack, enc);
  }

  lemma {:induction false} StepRunInv(src: string, i: nat, prog: seq<int>, stack: seq<int>)
    requires Inv(src, i, prog, stack) && i < |src| && IsRunChar(src[i])
    ensures CompileStep(src, i, prog, stack).Some?
    ensures var (j, p, st) := CompileStep(src, i, prog, stack).value; Inv(src, j, p, st)
  {
    var ch := src[i];
    RepeatShape(src, ch, i + 1);
    RepeatWordsBlock(Family(ch), RepeatCount(src, ch, i + 1));
    InvFlat(src, i, RepeatEnd(src, ch, i + 1), prog, stack, RepeatWords(Family(ch), RepeatCount(src, ch, i + 1)));
  }

  lemma {:induction false} StepIoInv(src: string, i: nat, prog: seq<int>, stack: seq<int>)
    requires Inv(src, i, prog, stack) && i < |src| && (src[i] == '.' || src[i] == ',')
    ensures CompileStep(src, i, prog, stack).Some?
    ensures var (j, p, st) := CompileStep(src, i, prog, stack).value; Inv(src, j, p, st)
  {
    var w := if src[i] == '.' then OUTPUT else INPUT;
    assert [w][Width(w)..] == [];
    InvFlat(src, i, i + 1, prog, stack, [w]);
  }

  lemma {:induction false} StepCommentInv(src: string, i: nat, prog: seq<int>, stack: seq<int>)
    requires Inv(src, i, prog, stack) && i < |src| && !IsOp(src[i])
    ensures CompileStep(src, i, prog, stack).Some?
    ensures var (j, p, st) := CompileStep(src, i, prog, stack).value; Inv(src, j, p, st)
  {
    InvFlat(src, i, NextOp(src, i + 1), prog, stack, []);
    assert prog + [] == prog;
  }

  lemma {:induction false} StepResetInv(src: string, i: nat, prog: seq<int>, stack: seq<int>)
    requires Inv(src, i, prog, stack) && i < |src| && src[i] == '[' && IsResetIdiom(src, i)
    ensures Inv(src, ResetEnd(src, i), prog + [RESET_CELL], stack)
  {
    ResetDepth(src, i);
    assert IsBlock([RESET_CELL]) by {
      assert [RESET_CELL][Width(RESET_CELL)..] == [];
    }
    OpenAppend(prog, stack, [RESET_CELL]);
  }

  /** The idiom `[-]` opens and closes a bracket: the depth returns to where it was and never drops below. */
  lemma {:induction false} ResetDepth(src: string, i: nat)
    requires i < |src| && src[i] == '[' && IsResetIdiom(src, i)
    ensures Depth(src[..ResetEnd(src, i)]) == Depth(src[..i])
    ensures forall k :: i <= k <= ResetEnd(src, i) ==> Depth(src[..k]) >= Depth(src[..i])
  {
    var a := NextOp(src, i + 1);
    var b := NextOp(src, a + 1);
    DepthStep(src, i);
    FlatDepth(src, i + 1, b);
    DepthStep(src, b);
  }

  lemma {:induction false} StepPushInv(src: string, i: nat, prog: seq<int>, stack: seq<int>)
    requires Inv(src, i, prog, stack) && i < |src| && src[i] == '['
    ensures Inv(src, i + 1, prog + [JMPZ, 0], stack + [|prog| + 2])
  {
    DepthStep(src, i);
    OpenPush(prog, stack);
  }

  lemma {:induction false} StepOpenInv(src: string, i: nat, prog: seq<int>, stack: seq<int>)
    requires Inv(src, i, prog, stack) && i < |src| && src[i] == '['
    ensures CompileStep(src, i, prog, stack).Some?
    ensures var (j, p, st) := CompileStep(src, i, prog, stack).value; Inv(src, j, p, st)
  {
    if IsResetIdiom(src, i) {
      StepResetInv(src, i, prog, stack);
    } else {
      StepPushInv(src, i, prog, stack);
    }
  }

  lemma {:induction false} StepCloseInv(src: string, i: nat, prog: seq<int>, stack: seq<int>)
    requires Inv(src, i, prog, stack) && i < |src| && src[i] == ']'
    ensures CompileStep(src, i, prog, stack).None? ==> !Balanced(src)
    ensures CompileStep(src, i, prog, stack).Some? ==>
      var (j, p, st) := CompileStep(src, i, prog, stack).value; Inv(src, j, p, st)
  {
    DepthStep(src, i);
    CloseStep(src, i, prog, stack);
    if |stack| > 0 {
      OpenClose(prog, stack);
      var p := CloseLoop(prog, stack[|stack| - 1]);
      assert |p| == |prog| + 2;
      assert forall k :: 0 <= k <= i + 1 ==> Depth(src[..k]) >= 0;
      assert Inv(src, i + 1, p, stack[..|stack| - 1]);
    } else {
      assert Depth(src[..i + 1]) < 0;
    }
  }

  /** The `[` pass: the reset idiom's one word, or a JMPZ with a placeholder offset and a push. */
  lemma {:induction false} OpenStep(src: string, i: nat, prog: seq<int>, stack: seq<int>)
    requires i < |src| && src[i] == '[' && StackInRange(prog, stack)
    ensures CompileStep(src, i, prog, stack) ==
      if IsResetIdiom(src, i) then Some((ResetEnd(src, i), prog + [RESET_CELL], stack))
      else Some((i + 1, prog + [JMPZ, 0], stack + [|prog| + 2]))
  {
  }

  /** The `]` pass: NULL on an empty jump stack, else a backpatched jump pair and a pop. */
  lemma {:induction false} CloseStep(src: string, i: nat, prog: seq<int>, stack: seq<int>)
    requires i < |src| && src[i] == ']' && StackInRange(prog, stack)
    ensures |stack| == 0 ==> CompileStep(src, i, prog, stack).None?
    ensures |stack| > 0 ==>
      CompileStep(src, i, prog, stack) == Some((i + 1, CloseLoop(prog, stack[|stack| - 1]), stack[..|stack| - 1]))
  {
  }

  /** One pass of the loop keeps the invariant, and fails only on unbalanced brackets. */
  lemma {:induction false} StepInv(src: string, i: nat, prog: seq<int>, stack: seq<int>)
    requires Inv(src, i, prog, stack) && i < |src|
    ensures CompileStep(src, i, prog, stack).None? ==> !Balanced(src)
    ensures CompileStep(src, i, prog, stack).Some? ==>
      var (j, p, st) := CompileStep(src, i, prog, stack).value; Inv(src, j, p, st)
  {
    var ch := src[i];
    if IsRunChar(ch) {
      StepRunInv(src, i, prog, stack);
    } else if ch == '.' || ch == ',' {
      StepIoInv(src, i, prog, stack);
    } else if ch == '[' {
      StepOpenInv(src, i, prog, stack);
    } else if ch == ']' {
      StepCloseInv(src, i, prog, stack);
    } else {
      StepCommentInv(src, i, prog, stack);
    }
  }

  /**
   * The compile loop fails exactly when the source's brackets are unbalanced,
   * and otherwise returns a well-formed program.
   */
  lemma {:induction false} CompileFromCorrect(src: string, i: nat, prog: seq<int>, stack: seq<int>)
    requires Inv(src, i, prog, stack)
    ensures CompileFrom(src, i, prog, stack).None? <==> !Balanced(src)
    ensures CompileFrom(src, i, prog, stack).Some? ==> WellFormed(CompileFrom(src, i, prog, stack).value)
    decreases |src| - i
  {
    if i == |src| {
      assert src[..i] == src;
      if |stack| == 0 {
        assert (prog + [END])[..|prog|] == prog;
      }
    } else {
      StepInv(src, i, prog, stack);
      match CompileStep(src, i, prog, stack)
      case None =>
      case Some((j, p, st)) => CompileFromCorrect(src, j, p, st);
    }
  }

  /**
   * Error conditions: compile returns NULL exactly for unbalanced brackets (a
   * `]` with an empty jump stack, or `[`s left open at the end); otherwise the
   * words form a well-formed program ending in exactly one END.
   */
  lemma {:induction false} CompiledCorrect(src: string)
    ensures Compiled(src).None? <==> !Balanced(src)
    ensures Compiled(src).Some? ==> WellFormed(Compiled(src).value)
  {
    assert src[..0] == [];
    CompileFromCorrect(src, 0, [], []);
  }

  // ----- The imperative compiler -----

  /** skipAll: advance past comments; report whether anything was skipped. */
  method SkipAll(src: string, i: nat) returns (j: nat, skipped: bool)
    requires i <= |src|
    ensures j == NextOp(src, i)
    ensures skipped == (j > i)
  {
    j, skipped := i, false;
    while j < |src|
      invariant i <= j <= |src|
      invariant NextOp(src, j) == NextOp(src, i)
      invariant skipped == (j > i)
      decreases |src| - j
    {
      if IsOp(src[j]) {
        return;
      }
      j, skipped := j + 1, true;
    }
  }

  /** The loop condition of check_repeat, `*s == c || (skipAll(&s) && *s == c)`, with its effect on s. */
  method RepeatContinues(c: char, src: string, s: nat) returns (more: bool, s': nat)
    requires s <= |src| && IsOp(c)
    ensures s' == NextOp(src, s)
    ensures more == (s' < |src| && src[s'] == c)
  {
    if s < |src| && src[s] == c {
      return true, s;
    }
    var skipped;
    s', skipped := SkipAll(src, s);
    more := skipped && s' < |src| && src[s'] == c;
  }

  /** The scanning loop of check_repeat: the 0-based count of further copies and where the scan stops. */
  method ScanRepeat(c: char, src: string, i: nat) returns (count: nat, s: nat)
    requires i <= |src| && IsOp(c)
    ensures count == RepeatCount(src, c, i)
    ensures s == RepeatEnd(src, c, i)
  {
    count := 0;
    var more;
    more, s := RepeatContinues(c, src, i);
    RepeatFromNextOp(src, c, i);
    while more
      invariant s <= |src| && more == (s < |src| && src[s] == c)
      invariant NextOp(src, s) == s
      invariant count + RepeatCount(src, c, s) == RepeatCount(src, c, i)
      invariant RepeatEnd(src, c, s) == RepeatEnd(src, c, i)
      decreases |src| - s
    {
      RepeatStep(src, c, s);
      RepeatFromNextOp(src, c, s + 1);
      s := s + 1;
      count := count + 1;
      more, s := RepeatContinues(c, src, s);
    }
    RepeatStop(src, c, s);
  }

  /** At a copy of c the scan counts it and goes on after it. */
  lemma {:induction false} RepeatStep(src: string, c: char, s: nat)
    requires s < |src| && NextOp(src, s) == s && src[s] == c
    ensures RepeatCount(src, c, s) == 1 + RepeatCount(src, c, s + 1)
    ensures RepeatEnd(src, c, s) == RepeatEnd(src, c, s + 1)
  {
  }

  /** At the end of the text or at another instruction character the scan stops. */
  lemma {:induction false} RepeatStop(src: string, c: char, s: nat)
    requires s <= |src| && NextOp(src, s) == s && !(s < |src| && src[s] == c)
    ensures RepeatCount(src, c, s) == 0 && RepeatEnd(src, c, s) == s
  {
  }

  /** check_repeat: fold the run that began just before i into one instruction. */
  method CheckRepeat(c: char, src: string, i: nat, program: GrowArray<int>, codeStart: int) returns (j: nat)
    requires i <= |src| && IsOp(c) && program.Valid()
    modifies program, program.values
    ensures program.Valid()
    ensures j == RepeatEnd(src, c, i)
    ensures program.Contents() == old(program.Contents()) + RepeatWords(codeStart, RepeatCount(src, c, i))
    ensures program.values == old(program.values) || fresh(program.values)
  {
    var count;
    count, j := ScanRepeat(c, src, i);
    if count <= 7 {
      program.Insert(codeStart + count);
    } else {
      program.Insert(codeStart + 8);
      program.Insert(count + 1);
    }
  }

  /** The look-ahead of the `[` case: whether `[-]` / `[+]` follows, and if so where it ends. */
  method PeekReset(src: string, i: nat) returns (isReset: bool, j: nat)
    requires 0 < i <= |src| && src[i - 1] == '['
    ensures isReset == IsResetIdiom(src, i - 1)
    ensures j == if isReset then ResetEnd(src, i - 1) else i
  {
    var bak, skipped := SkipAll(src, i);
    if bak < |src| && (src[bak] == '-' || src[bak] == '+') {
      bak := bak + 1;
      bak, skipped := SkipAll(src, bak);
      if bak < |src| && src[bak] == ']' {
        bak := bak + 1;
        return true, bak;
      }
    }
    return false, i;
  }

  /** The `[` case: the reset idiom, or a JMPZ with a placeholder offset and a jump-stack push. */
  method OpenBracket(src: string, i: nat, program: GrowArray<int>, jumpstack: GrowArray<int>) returns (j: nat)
    requires 0 < i <= |src| && src[i - 1] == '['
    requires program.Valid() && jumpstack.Valid() && program != jumpstack && program.values != jumpstack.values
    requires StackInRange(program.Contents(), jumpstack.Contents())
    modifies program, program.values, jumpstack, jumpstack.values
    ensures program.Valid() && jumpstack.Valid() && program.values != jumpstack.values
    ensures program.values == old(program.values) || fresh(program.values)
    ensures jumpstack.values == old(jumpstack.values) || fresh(jumpstack.values)
    ensures CompileStep(src, i - 1, old(program.Contents()), old(jumpstack.Contents())) ==
      Some((j, program.Contents(), jumpstack.Contents()))
  {
    OpenStep(src, i - 1, program.Contents(), jumpstack.Contents());
    var isReset;
    isReset, j := PeekReset(src, i);
    if isReset {
      program.Insert(RESET_CELL);
      return;
    }
    PushLoop(program, jumpstack);
  }

  /** A JMPZ with a placeholder offset, and the position after it pushed on the jump stack. */
  method PushLoop(program: GrowArray<int>, jumpstack: GrowArray<int>)
    requires program.Valid() && jumpstack.Valid() && program != jumpstack && program.values != jumpstack.values
    modifies program, program.values, jumpstack, jumpstack.values
    ensures program.Valid() && jumpstack.Valid() && program.values != jumpstack.values
    ensures program.values == old(program.values) || fresh(program.values)
    ensures jumpstack.values == old(jumpstack.values) || fresh(jumpstack.values)
    ensures program.Contents() == old(program.Contents()) + [JMPZ, 0]
    ensures jumpstack.Contents() == old(jumpstack.Contents()) + [|old(program.Contents())| + 2]
  {
    ghost var prog := program.Contents();
    program.Insert(JMPZ);
    program.Insert(0);
    assert program.Contents() == prog + [JMPZ, 0] by {
      assert prog + [JMPZ] + [0] == prog + [JMPZ, 0];
    }
    jumpstack.Insert(program.size);
  }

  /** The `]` case: pop the jump stack, append JMPNZ and its offset, backpatch the JMPZ offset; false for NULL. */
  method CloseBracket(program: GrowArray<int>, jumpstack: GrowArray<int>) returns (ok: bool)
    requires program.Valid() && jumpstack.Valid() && program != jumpstack && program.values != jumpstack.values
    requires StackInRange(program.Contents(), jumpstack.Contents())
    modifies program, program.values, jumpstack
    ensures program.Valid() && jumpstack.Valid() && program.values != jumpstack.values
    ensures program.values == old(program.values) || fresh(program.values)
    ensures jumpstack.values == old(jumpstack.values)
    ensures ok == (|old(jumpstack.Contents())| > 0)
    ensures ok ==> var stack := old(jumpstack.Contents());
      program.Contents() == CloseLoop(old(program.Contents()), stack[|stack| - 1]) &&
      jumpstack.Contents() == stack[..|stack| - 1]
  {
    if jumpstack.size == 0 {
      return false;
    }
    ghost var prog, stack := program.Contents(), jumpstack.Contents();
    jumpstack.size := jumpstack.size - 1;
    var lastJump := jumpstack.values[jumpstack.size];
    assert jumpstack.Contents() == stack[..|stack| - 1] && lastJump == stack[|stack| - 1];
    program.Insert(JMPNZ);
    program.Insert(lastJump - program.size - 1);
    assert program.Contents() == prog + [JMPNZ, lastJump - (|prog| + 1) - 1];
    program.Set(lastJump - 1, program.size - lastJump);
    ok := true;
  }

  /** One pass of compile's loop: dispatch on the character at i; false where compile returns NULL. */
  method CompileChar(src: string, i: nat, program: GrowArray<int>, jumpstack: GrowArray<int>) returns (j: nat, ok: bool)
    requires i < |src|
    requires program.Valid() && jumpstack.Valid() && program != jumpstack && program.values != jumpstack.values
    requires StackInRange(program.Contents(), jumpstack.Contents())
    modifies program, program.values, jumpstack, jumpstack.values
    ensures program.Valid() && jumpstack.Valid() && program.values != jumpstack.values
    ensures program.values == old(program.values) || fresh(program.values)
    ensures jumpstack.values == old(jumpstack.values) || fresh(jumpstack.values)
    ensures ok == CompileStep(src, i, old(program.Contents()), old(jumpstack.Contents())).Some?
    ensures ok ==>
      CompileStep(src, i, old(program.Contents()), old(jumpstack.Contents())) ==
      Some((j, program.Contents(), jumpstack.Contents()))
  {
    var ch := src[i];
    j, ok := i + 1, true;
    if IsRunChar(ch) {
      j := CheckRepeat(ch, src, j, program, Family(ch));
    } else if ch == '.' {
      program.Insert(OUTPUT);
    } else if ch == ',' {
      program.Insert(INPUT);
    } else if ch == '[' {
      j := OpenBracket(src, j, program, jumpstack);
    } else if ch == ']' {
      ok := CloseBracket(program, jumpstack);
    } else {
      var skipped;
      j, skipped := SkipAll(src, j);
    }
  }

  /** compile: the folded, bracket-resolved words followed by END, or None for NULL. */
  method Compile(src: string) returns (r: Option<seq<int>>)
    ensures r == Compiled(src)
    ensures r.None? <==> !Balanced(src)
    ensures r.Some? ==> WellFormed(r.value)
  {
    CompiledCorrect(src);
    var program := new GrowArray<int>.Init();
    var jumpstack := new GrowArray<int>.Init();
    var i := 0;
    while i < |src|
      invariant program.Valid() && jumpstack.Valid()
      invariant fresh(program) && fresh(jumpstack) && fresh(program.values) && fresh(jumpstack.values)
      invariant program != jumpstack && program.values != jumpstack.values
      invariant i <= |src| && StackInRange(program.Contents(), jumpstack.Contents())
      invariant Compiled(src) == CompileFrom(src, i, program.Contents(), jumpstack.Contents())
      decreases |src| - i
    {
      var ok;
      i, ok := CompileChar(src, i, program, jumpstack);
      if !ok {
        program.Free();
        jumpstack.Free();
        return None;
      }
    }
    if jumpstack.size > 0 {
      program.Free();
      jumpstack.Free();
      return None;
    }
    jumpstack.Free();
    program.Insert(END);
    r := Some(program.values[..program.size]);
  }
}
