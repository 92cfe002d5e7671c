/**
 * Comments in the source text: every character other than the eight
 * instruction characters is skipped by compile, wherever it stands, so a
 * text compiles exactly as its instruction characters alone.
 */
module CompilerFacts {
  import opened Wrappers
  import opened Compiler

  /** The instruction characters of src from position i on, in order. */
  function StripFrom(src: string, i: nat): (r: string)
    requires i <= |src|
    ensures |r| <= |src| - i
    decreases |src| - i
  {
    if i == |src| then [] else (if IsOp(src[i]) then [src[i]] else []) + StripFrom(src, i + 1)
  }

  /** The text with every comment character removed: what the compile loop actually reads. */
  function Strip(src: string): (r: string)
    ensures |r| <= |src|
  {
    StripFrom(src, 0)
  }

  /** Only instruction characters survive stripping. */
  lemma {:induction false} StripAreOps(src: string, i: nat)
    requires i <= |src|
    ensures forall k :: 0 <= k < |StripFrom(src, i)| ==> IsOp(StripFrom(src, i)[k])
    decreases |src| - i
  {
    if i < |src| {
      StripAreOps(src, i + 1);
    }
  }

  /** A text of instruction characters only is its own stripped form. */
  lemma {:induction false} StripOps(t: string, i: nat)
    requires i <= |t|
    requires forall k :: 0 <= k < |t| ==> IsOp(t[k])
    ensures StripFrom(t, i) == t[i..]
    decreases |t| - i
  {
    if i < |t| {
      StripOps(t, i + 1);
      assert t[i..] == [t[i]] + t[i + 1..];
    }
  }

  /** How many copies of c the sequence starts with. */
  function LeadingCopies(s: string, c: char): (n: nat)
    ensures n <= |s|
    ensures forall k :: 0 <= k < n ==> s[k] == c
    ensures n < |s| ==> s[n] != c
  {
    if s != [] && s[0] == c then 1 + LeadingCopies(s[1..], c) else 0
  }

  /** The characters NextOp skips are all stripped. */
  lemma {:induction false} NextOpSame(src: string, i: nat)
    requires i <= |src|
    ensures StripFrom(src, i) == StripFrom(src, NextOp(src, i))
    decreases |src| - i
  {
    if i < |src| && !IsOp(src[i]) {
      NextOpSame(src, i + 1);
    }
  }

  /** Skipping comments from i reaches the first character of the stripped rest, or the end when nothing is left. */
  lemma NextOpStrip(src: string, i: nat)
    requires i <= |src|
    ensures var j := NextOp(src, i);
      StripFrom(src, i) == StripFrom(src, j) &&
      (j < |src| ==> StripFrom(src, i) == [src[j]] + StripFrom(src, j + 1)) &&
      (j == |src| ==> StripFrom(src, i) == [])
  {
    NextOpSame(src, i);
  }

  /** A one-character cons reads back as its head and its tail. */
  lemma ConsParts(s: string, x: char, rest: string)
    requires s == [x] + rest
    ensures |s| >= 1 && s[0] == x && s[1..] == rest
  {
  }

  /** Dropping m and then n characters drops m + n. */
  lemma DropDrop(s: string, m: nat, n: nat)
    requires m + n <= |s|
    ensures s[m..][n..] == s[m + n..]
  {
  }

  /** NextOpStrip when only comments are left. */
  lemma NextOpEnd(src: string, i: nat)
    requires i <= |src| && NextOp(src, i) == |src|
    ensures StripFrom(src, i) == []
  {
    NextOpStrip(src, i);
  }

  /** NextOpStrip at a position known to hold an instruction character, as head and tail. */
  lemma NextOpHead(src: string, i: nat, j: nat)
    requires i <= |src| && j == NextOp(src, i) && j < |src|
    ensures |StripFrom(src, i)| >= 1 && StripFrom(src, i)[0] == src[j] && StripFrom(src, i)[1..] == StripFrom(src, j + 1)
  {
    NextOpStrip(src, i);
    ConsParts(StripFrom(src, i), src[j], StripFrom(src, j + 1));
  }

  /** check_repeat's count is the number of copies of c leading the stripped text. */
  lemma {:induction false} RepeatCountStrip(src: string, c: char, i: nat)
    requires i <= |src|
    ensures RepeatCount(src, c, i) == LeadingCopies(StripFrom(src, i), c)
    decreases |src| - i
  {
    var j := NextOp(src, i);
    NextOpStrip(src, i);
    if j < |src| && src[j] == c {
      RepeatCountStrip(src, c, j + 1);
      ConsParts(StripFrom(src, i), src[j], StripFrom(src, j + 1));
    }
  }

  /** check_repeat resumes at the stripped text just past those copies. */
  lemma {:induction false} RepeatEndStrip(src: string, c: char, i: nat)
    requires i <= |src|
    ensures var n := RepeatCount(src, c, i);
      n <= |StripFrom(src, i)| && StripFrom(src, RepeatEnd(src, c, i)) == StripFrom(src, i)[n..]
    decreases |src| - i
  {
    var j := NextOp(src, i);
    NextOpStrip(src, i);
    var s := StripFrom(src, i);
    if j < |src| && src[j] == c {
      RepeatEndStrip(src, c, j + 1);
      var n := RepeatCount(src, c, j + 1);
      ConsParts(s, src[j], StripFrom(src, j + 1));
      DropDrop(s, 1, n);
    } else {
      assert s[0..] == s;
    }
  }

  /** The reset idiom is recognised on the stripped text alone: a `-` or `+`, then `]`. */
  lemma ResetStrip(src: string, i: nat)
    requires i < |src|
    ensures var s := StripFrom(src, i + 1);
      IsResetIdiom(src, i) <==> (|s| >= 2 && (s[0] == '-' || s[0] == '+') && s[1] == ']')
  {
    var s := StripFrom(src, i + 1);
    var a := NextOp(src, i + 1);
    if a < |src| {
      NextOpHead(src, i + 1, a);
      var b := NextOp(src, a + 1);
      if b < |src| {
        NextOpHead(src, a + 1, b);
      } else {
        NextOpEnd(src, a + 1);
      }
    } else {
      NextOpEnd(src, i + 1);
    }
  }

  /** After the idiom, compile resumes at the stripped text past its two characters. */
  lemma ResetEndStrip(src: string, i: nat)
    requires i < |src| && IsResetIdiom(src, i)
    ensures |StripFrom(src, i + 1)| >= 2 && StripFrom(src, ResetEnd(src, i)) == StripFrom(src, i + 1)[2..]
  {
    var s := StripFrom(src, i + 1);
    var a := NextOp(src, i + 1);
    var b := NextOp(src, a + 1);
    NextOpHead(src, i + 1, a);
    NextOpHead(src, a + 1, b);
    DropDrop(s, 1, 1);
    assert ResetEnd(src, i) == b + 1;
  }

  /** Skipping the comments before position i changes nothing. */
  lemma {:induction false} SkipComments(src: string, i: nat, prog: seq<int>, stack: seq<int>)
    requires i <= |src| && StackInRange(prog, stack)
    ensures CompileFrom(src, i, prog, stack) == CompileFrom(src, NextOp(src, i), prog, stack)
  {
    if NextOp(src, i) != i {
      assert CompileStep(src, i, prog, stack) == Some((NextOp(src, i + 1), prog, stack));
    }
  }

  /** At the same instruction character with the same stripped rest, one step emits the same words on both texts. */
  lemma {:induction false} StepStrip(src: string, a: nat, t: string, b: nat, prog: seq<int>, stack: seq<int>)
    requires a < |src| && b < |t| && IsOp(src[a]) && src[a] == t[b]
    requires StripFrom(src, a + 1) == StripFrom(t, b + 1) && StackInRange(prog, stack)
    ensures var r, q := CompileStep(src, a, prog, stack), CompileStep(t, b, prog, stack);
      r.None? == q.None? &&
      (r.Some? ==> r.value.1 == q.value.1 && r.value.2 == q.value.2 && StripFrom(src, r.value.0) == StripFrom(t, q.value.0))
  {
    var ch := src[a];
    if IsRunChar(ch) {
      RepeatCountStrip(src, ch, a + 1);
      RepeatCountStrip(t, ch, b + 1);
      RepeatEndStrip(src, ch, a + 1);
      RepeatEndStrip(t, ch, b + 1);
    } else if ch == '[' {
      ResetStrip(src, a);
      ResetStrip(t, b);
      if IsResetIdiom(src, a) {
        ResetEndStrip(src, a);
        ResetEndStrip(t, b);
      }
    }
  }

  /** Two texts whose rests have the same instruction characters compile to the same result. */
  lemma {:induction false} CompileFromStrip(src: string, i: nat, t: string, k: nat, prog: seq<int>, stack: seq<int>)
    requires i <= |src| && k <= |t| && StackInRange(prog, stack)
    requires StripFrom(src, i) == StripFrom(t, k)
    ensures CompileFrom(src, i, prog, stack) == CompileFrom(t, k, prog, stack)
    decreases |src| - i + |t| - k
  {
    var a, b := NextOp(src, i), NextOp(t, k);
    SkipComments(src, i, prog, stack);
    SkipComments(t, k, prog, stack);
    NextOpStrip(src, i);
    NextOpStrip(t, k);
    if a < |src| && b < |t| {
      NextOpHead(src, i, a);
      NextOpHead(t, k, b);
      StepStrip(src, a, t, b, prog, stack);
      var r := CompileStep(src, a, prog, stack);
      if r.Some? {
        var q := CompileStep(t, b, prog, stack);
        CompileFromStrip(src, r.value.0, t, q.value.0, r.value.1, r.value.2);
      }
    }
  }

  /**
   * Comments anywhere, including inside a run and inside the reset idiom, do
   * not change what compile returns: the text compiles as its instruction
   * characters alone.
   */
  lemma {:induction false} CommentsIgnored(src: string)
    ensures Compiled(src) == Compiled(Strip(src))
  {
    StripAreOps(src, 0);
    assert Strip(src) == StripFrom(src, 0);
    StripOps(Strip(src), 0);
    assert Strip(src)[0..] == Strip(src);
    CompileFromStrip(src, 0, Strip(src), 0, [], []);
  }
}
