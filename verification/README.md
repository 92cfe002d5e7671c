# BFVM in Dafny

BFVM is a three-stage tool for the eight-command tape language `> < + - . , [ ]`:

- a **compiler** turns source text into a word program. It folds runs of `> < + -` into counted instructions, rewrites the `[-]`/`[+]` idiom into one `RESET_CELL`, and resolves every bracket to a relative jump.
- an **executor** runs the word program over a 65536-cell byte tape.
- a **transpiler** (`transpile_rec`) turns the same word program into C:
  - it batches pointer moves and cell arithmetic into a change record (a list of `(offset, delta)` pairs) and flushes them at flush points;
  - it replaces a pure, pointer-neutral loop by its closed form (an iteration count, then scaled additions).

The Dafny model follows the C file module by module:

| Module | File | What it holds |
|---|---|---|
| `Opcodes` | `opcodes.dfy` | The opcode numbering; the decoded instruction `Instr`; `Decode`/`Encode`; the instruction widths. |
| `Growable` | `growable.dfy` | The `ARRAY` growable buffer, as a class `GrowArray` over an `array`. It doubles its capacity when full. |
| `Compiler` | `compiler.dfy` | The methods `SkipAll`, `CheckRepeat` and `Compile`. They work on `GrowArray`s as the C code does. Each is proved equal to a pure reference: `NextOp`, `RepeatCount`/`RepeatEnd`, and `CompileStep`/`CompileFrom`/`Compiled`. The reference is proved correct against bracket balance (`Depth`, `Balanced`) and a structural grammar of well-formed programs (`IsBlock`, `WellFormed`). |
| `CompilerFacts` | `compiler_facts.dfy` | `Strip`, the commands of a text in order, and the proof that comments never change what `compile` returns. |
| `Executor` | `executor.dfy` | The machine semantics as a small-step function `Step` and a fuelled `Run`. `Execute` is an imperative loop over a mutable tape `array`, proved equal to `Run`. |
| `Changes` | `changes.dfy` | The change record: `Merge` (the meaning of `apply_total_change`) and the statements `dump_changes` emits (`Dump`, `ClosedForm`, `AddCells`). There are imperative versions over a `GrowArray<Change>`. |
| `Generator` | `generator.dfy` | `transpile_rec`: a reference function `Gen`/`Exec` over the region state `Region`, and the imperative `TranspileRec`, proved equal to it. |
| `GeneratorFacts` | `generator_facts.dfy` | What the transpiler produces for straight-line arithmetic, multiply loops and moving loops, plus concrete programs that show the flushing rules. |
| `Pipeline` | `pipeline.dfy` | End-to-end facts that chain the compiler and the executor, including that every compiled `JMPZ` has the matching `JMPNZ` the executor's jumps rely on. |

The generated C is modelled as a sequence of abstract statements (`Changes.Stmt`, such as `AddCell(offset, delta)`, `CountDown(d)`, `AddScaled(offset, factor)`, `LoopHeader`, `LoopClose`) rather than text.

Conventions of the model:

- **Source text.** The source is the characters before the C string's terminating NUL, so the end of the sequence plays the role of the NUL.
- **Comments.** Every character other than the eight commands is a comment, skipped by `skipAll` wherever it stands, even inside a run or the `[-]` idiom. A text compiles exactly as its commands alone (`CompilerFacts.CommentsIgnored`).
- **Cells.** Cells hold `0..255`. Arithmetic is taken modulo 256, which matches the C `char` cell bit for bit. End of input stores 255, which is `EOF` truncated to a `char`.
- **Status.** A run ends in a `Status`:
  - `Halted` at `END`;
  - `Fault` when the pointer would leave the tape, or the instruction pointer leaves the program or lands on a word that is not an opcode;
  - `Running` when the fuel is used up.
- **Extended operand.** The `_X` forms carry the run length itself as their operand word. `check_repeat` counts the copies after the first from 0 and writes `count + 1` (`bfvm.c:92-114`), and `execute` adds the word unchanged.
- **INPUT is not a flush point.** In `transpile_rec` (`bfvm.c:548-551`), `INPUT` only opens the loop header and does not flush the record. Pending additions stay in the record, so a read can be emitted before an earlier addition to the same cell (`GeneratorFacts.ReadOvertakesPendingAdd`).
- **Zero deltas are emitted.** `dump_changes` emits every record entry, including one whose merged delta is zero (`bfvm.c:394-399`).
- **Closed form is unguarded.** The closed form is chosen whenever the region is pure and pointer-neutral (`bfvm.c:352`). That includes the top level, where `+++` alone becomes `change = (256 - cell[0]) / 3; cell[0] = 0;` (`GeneratorFacts.TopLevelClosedForm`), and an empty loop body, whose iteration count divides by zero (`GeneratorFacts.EmptyLoopDividesByZero`).
- **RESET_CELL after a loop.** The `RESET_CELL` skip after a loop tests `lastOpcode != JMPNZ` (`bfvm.c:606`). After a nested loop returns, `lastOpcode` is `JMPZ`, so `*cell = 0;` is still emitted (`GeneratorFacts.ResetAfterLoopKept`). The model keeps that behaviour.

## Model

| member | source | states |
|---|---|---|
| Opcodes.Decode | bfvm.c:193-209 | A word program decodes at `ip` only when `ip` is in range on an opcode. The decoded width is 2 for the `_X` forms and the jumps and 1 otherwise, and the instruction fits in the program. The only opcode that fails to decode is a two-word one cut off by the end of the program. |
| Opcodes.DecodeEncode | bfvm.c:14-26 | Every instruction's encoding decodes back to that instruction, with the width that `disassemble_single` advances by, whatever follows it. |
| Opcodes.RunWordsDecode | bfvm.c:238-247 | A run of length `n` encodes as `X_n` for `n` in 1..8 and as `X_X n` otherwise. In both cases it decodes to the run of the same family and length `n`. |
| Opcodes.Width | bfvm.c:193-209 | An instruction takes one word, or two for the `_X` forms and the jumps. |
| Opcodes.Encode | bfvm.c:14-26 | An encoded instruction starts with an opcode and takes exactly that opcode's width. |
| Growable.CapacityAfterInserts | bfvm.c:49-58 | After `n >= 1` inserts into a fresh buffer, the capacity is a power of two between `n` and `2n - 1`. |
| Growable.GrowArray.Init | bfvm.c:39-42 | A fresh buffer is empty, with size 0 and capacity 0. |
| Growable.GrowArray.Resize | bfvm.c:44-47 | Reallocation sets the capacity and keeps the size and the first `size` values. |
| Growable.GrowArray.Insert | bfvm.c:49-58 | Insertion appends the value and grows the size by one. Capacity becomes 1 when it was 0 and doubles when the buffer was full, and the buffer stays valid. |
| Growable.GrowArray.Set | bfvm.c:157 | A direct write changes exactly the one entry it targets. |
| Growable.GrowArray.Free | bfvm.c:60-64 | Freeing leaves an empty buffer with capacity 0. |
| Compiler.NextOp | bfvm.c:69-90 | The next position at or after `i` holding one of the eight commands, or the end. Everything skipped is a comment. |
| Compiler.SkipAll | bfvm.c:69-90 | Returns the next command position. It reports `skipped` exactly when it moved. |
| Compiler.RepeatEnd | bfvm.c:95-98 | The end of the run scan never moves backwards and stays inside the text. |
| Compiler.RepeatShape | bfvm.c:95-98 | The run scan covers only copies of `c` and comments. The count is the number of copies of `c` it covers. It stops at the end or at a different command, so runs are maximal across comments. |
| Compiler.RepeatSpan | bfvm.c:95-98 | Everything the run scan passes over is `c` or a comment. |
| Compiler.RepeatMaximal | bfvm.c:95-98 | The run scan stops only at the end of the text or at a command other than `c`. |
| Compiler.RepeatCounts | bfvm.c:95-98 | The run count equals the number of occurrences of `c` in the scanned span. |
| Compiler.RepeatFromNextOp | bfvm.c:95 | Skipping comments before the scan changes neither the count nor the end. |
| Compiler.RepeatContinues | bfvm.c:95 | The loop test skips comments and says whether the next command is another `c`. |
| Compiler.ScanRepeat | bfvm.c:93-98 | The imperative scan loop returns exactly the reference count and end position. |
| Compiler.RepeatStep | bfvm.c:96-97 | Proof step: Consuming one more `c` adds one to the count and keeps the end. |
| Compiler.RepeatStop | bfvm.c:95 | Proof step: The scan stops with count 0 when the next command is not `c`. |
| Compiler.RepeatWordsFold | bfvm.c:100-113 | With a 0-based count, `check_repeat` emits the canonical run encoding of length `count + 1`. It is one word for up to 8 and `X_X` plus the length beyond. It decodes to that run. |
| Compiler.CheckRepeat | bfvm.c:92-114 | Appends exactly the run's encoding to the program and returns the position after the run. |
| Compiler.RepeatWords | bfvm.c:100-113 | A 0-based count up to 7 gives one word and a count of 8 or more gives two. Either way the words decode to a run of length `count + 1`. |
| Compiler.ResetEnd | bfvm.c:130-141 | The reset idiom consumes at least one character and stays inside the text. |
| Compiler.ResetIdiomEmitsReset | bfvm.c:129-141 | When `[`, a comment-separated `+` or `-`, and `]` follow each other, compilation emits one `RESET_CELL` and continues after the `]`. |
| Compiler.PeekReset | bfvm.c:130-141 | The look-ahead recognises exactly the reset idiom and returns where compilation resumes. |
| Compiler.PushLoop | bfvm.c:142-144 | Opening a loop appends `JMPZ 0` and pushes the position after the placeholder. |
| Compiler.OpenBracket | bfvm.c:129-146 | Handling `[` performs exactly the reference step: a reset or a pushed loop. |
| Compiler.CloseBracket | bfvm.c:147-158 | Fails exactly when no loop is open. Otherwise it pops the innermost loop, appends `JMPNZ` with the backward offset and backpatches the forward offset. |
| Compiler.CompileChar | bfvm.c:122-160 | One iteration of the compile loop performs exactly the reference step, and fails only where the reference fails. |
| Compiler.CompileStep | bfvm.c:122-160 | A successful step consumes at least one character and never shrinks the words emitted so far. Every open-loop position stays inside the program. |
| Compiler.CloseStep | bfvm.c:147-158 | Proof step: A `]` with an empty stack fails. Otherwise it closes the innermost open loop. |
| Compiler.OpenStep | bfvm.c:129-146 | Proof step: A `[` either becomes `RESET_CELL` (the idiom) or pushes a new loop. |
| Compiler.CloseLoopShape | bfvm.c:154-157 | Closing a loop produces `JMPZ z; body; JMPNZ -z`, where `z` is the body length plus 2. |
| Compiler.CloseLoop | bfvm.c:152-157 | Closing appends `JMPNZ` and the backward offset. The placeholder before the body gets the distance from `JMPZ` to `JMPNZ`, the backward offset is its negation, and no other word changes. |
| Compiler.LoopBlock | bfvm.c:154-157 | A closed loop around a well-formed body is well-formed. |
| Compiler.RepeatWordsBlock | bfvm.c:100-113 | The run encoding is a well-formed block. |
| Compiler.OpenPush | bfvm.c:142-144 | Pushing a loop keeps every open loop's placeholder intact, with a well-formed body after it. |
| Compiler.OpenClose | bfvm.c:152-157 | Closing the innermost loop leaves the remaining open loops intact. |
| Compiler.OpenAppend | bfvm.c:123-128 | Appending a well-formed block keeps every open loop's body well-formed. |
| Compiler.ResetDepth | bfvm.c:130-141 | The reset idiom leaves the bracket depth unchanged and never dips below it. |
| Compiler.StepRunInv | bfvm.c:123-126 | A run character always compiles and keeps the compile invariant (open loops mirror unmatched `[`). |
| Compiler.StepIoInv | bfvm.c:127-128 | `.` and `,` always compile and keep the invariant. |
| Compiler.StepCommentInv | bfvm.c:160 | Comments always compile and keep the invariant. |
| Compiler.StepResetInv | bfvm.c:130-141 | The reset idiom keeps the invariant. |
| Compiler.StepPushInv | bfvm.c:142-144 | A pushed loop keeps the invariant. |
| Compiler.StepOpenInv | bfvm.c:129-146 | `[` always compiles and keeps the invariant. |
| Compiler.StepCloseInv | bfvm.c:147-158 | A `]` fails only in unbalanced text, and on success keeps the invariant. |
| Compiler.StepInv | bfvm.c:121-161 | Every step keeps the invariant, and a failing step implies unbalanced brackets. |
| Compiler.CompileFromCorrect | bfvm.c:121-171 | From any state satisfying the invariant, compilation fails exactly when the brackets are unbalanced, and otherwise yields a well-formed program. |
| Compiler.CompiledCorrect | bfvm.c:116-172 | `compile` returns no program exactly when the text is unbalanced. Otherwise the program is well-formed: matched jump pairs with offsets to just past each other, ending in `END`. |
| Compiler.CompileFrom | bfvm.c:121-171 | A successful compile loop returns more words than it started with, and the last is `END`. |
| Compiler.Compiled | bfvm.c:116-172 | A program that `compile` returns ends in `END`. |
| Compiler.Compile | bfvm.c:116-172 | The imperative compiler over two growable buffers returns the reference result. So it fails exactly on unbalanced brackets and otherwise returns a well-formed program. |
| CompilerFacts.NextOpSame | bfvm.c:69-90 | Everything `skipAll` passes over is a comment, so the commands from there on are unchanged. |
| CompilerFacts.NextOpStrip | bfvm.c:69-90 | After `skipAll`, the next character is the first remaining command, or the text has ended and no command is left. |
| CompilerFacts.RepeatCountStrip | bfvm.c:95-98 | The run count of `check_repeat` is the number of copies of `c` that start the remaining commands. |
| CompilerFacts.RepeatEndStrip | bfvm.c:95-98 | `check_repeat` resumes at the remaining commands just past those copies. |
| CompilerFacts.ResetStrip | bfvm.c:130-141 | The look-ahead after `[` recognises the reset idiom exactly when the remaining commands start with `-` or `+` and then `]`. |
| CompilerFacts.ResetEndStrip | bfvm.c:130-141 | After the idiom, compilation resumes at the remaining commands past those two. |
| CompilerFacts.SkipComments | bfvm.c:160 | Proof step: a comment character only skips to the next command. |
| CompilerFacts.StepStrip | bfvm.c:122-160 | The same command followed by the same remaining commands compiles to the same words and jump stack in one step, on any two texts. |
| CompilerFacts.CompileFromStrip | bfvm.c:121-171 | Two texts whose remaining commands agree compile to the same result from the same state. |
| CompilerFacts.CommentsIgnored | bfvm.c:116-172 | Every text compiles exactly as its commands alone, including failure on unbalanced brackets. |
| Executor.Initial | bfvm.c:259-261 | Execution starts at word 0 on cell 0 of a zeroed 65536-cell tape, in a valid state. |
| Executor.Wrap | bfvm.c:238-247 | A cell update stores the `char` value: in 0..255 and congruent to the exact result modulo 256. |
| Executor.Move | bfvm.c:290-291 | A move to a cell on the tape sets the pointer there and advances the cursor. A move off the tape faults and leaves the cursor and pointer where they were. Neither touches the tape, input or output. |
| Executor.Step | bfvm.c:282-323 | One dispatch keeps the state valid: the pointer on the tape, cells in 0..255. |
| Executor.Run | bfvm.c:282-323 | A fuelled run keeps the state valid. |
| Executor.StepOnOpcode | bfvm.c:238-257 | Gives the effect of every opcode: `X_n` adds or moves by `n`, `X_X` by its operand word (all mod 256 on cells), `INPUT` reads a byte or 255 at end of input, `OUTPUT` appends the cell, `RESET_CELL` zeroes, `END` halts, `START` does nothing, and any other word faults. |
| Executor.JumpLanding | bfvm.c:300-313 | On a jump pair (`JumpPair`: `JMPZ z` whose `JMPNZ` sits `z` words on and carries `-z`), `JMPZ` on zero lands just past the matching `JMPNZ`, and `JMPNZ` on non-zero lands just past the matching `JMPZ`. Otherwise both fall through. |
| Executor.RunAdditive | bfvm.c:282 | Running `a + b` steps equals running `a` steps and then `b` more. |
| Executor.RunStopped | bfvm.c:318 | Proof step: A halted or faulted machine stays as it is. |
| Executor.RunOnce | bfvm.c:282-287 | Proof step: A running machine with fuel takes exactly one step and continues. |
| Executor.Dispatch | bfvm.c:287-322 | One pass of the dispatch switch over the mutable tape computes exactly `Step`. |
| Executor.Execute | bfvm.c:259-324 | The imperative interpreter over the tape array ends with the status, output and tape of the reference run. |
| Changes.MergeDelta | bfvm.c:431-439 | After adding `delta` at `offset`, the record's total delta at `offset` grows by `delta` and no other offset changes. |
| Changes.MergeDistinct | bfvm.c:431-439 | Adding keeps the offsets distinct and adds `offset` to the set of recorded offsets. |
| Changes.MergeFirst | bfvm.c:432-436 | An existing entry for the offset is updated in place. |
| Changes.MergeAbsent | bfvm.c:438 | A new offset is appended at the end. |
| Changes.Merge | bfvm.c:431-439 | The record grows by at most one entry, and a new entry `(offset, delta)` goes at the end. |
| Changes.AddToEntry | bfvm.c:434 | The in-place update changes exactly that entry's delta. |
| Changes.ApplyTotalChange | bfvm.c:431-439 | The imperative update leaves the record equal to `Merge` of the old record. |
| Changes.DeltaAtEntry | bfvm.c:357-363 | With distinct offsets, the first entry for an offset holds the total delta there. This is how `loopVarChange` is found. |
| Changes.DeltaAtSkip | bfvm.c:358-363 | Entries for other offsets do not affect the delta looked up. |
| Changes.ScaledAddsAt | bfvm.c:378-385 | Every scaled addition comes from a record entry off the loop cell. |
| Changes.ScaledAddsCover | bfvm.c:378-385 | Every record entry off the loop cell yields a scaled addition. |
| Changes.ScaledAddsCovered | bfvm.c:378-385 | Every recorded offset other than 0 gets `cell[k] += change * delta(k)`. |
| Changes.ScaledAddsFactors | bfvm.c:378-385 | Each scaled addition uses its offset's total delta. |
| Changes.ClosedFormShape | bfvm.c:352-393 | The closed form starts with the iteration count from the loop cell's delta (divide for a negative delta, `256 -` otherwise). Then come one scaled addition per other offset, then a final zeroing of the loop cell, and no loop braces. |
| Changes.AddCellsAt | bfvm.c:396-399 | The plain dump emits one addition per record entry, in record order. |
| Changes.AddCellsShape | bfvm.c:394-399 | The plain dump emits exactly the total delta of every recorded offset. |
| Changes.EmitClosedForm | bfvm.c:352-393 | The imperative loops emit exactly the closed form of the record. |
| Changes.EmitAdditions | bfvm.c:394-415 | The imperative loop emits the record's additions, then the pointer move when it is non-zero. |
| Changes.DumpChanges | bfvm.c:346-429 | Emits exactly the `Dump` of the old record, with the header where one is due, and frees the record. |
| Changes.Header | bfvm.c:338-344 | Afterwards the header counts as printed when it was before or the region was entered from a jump. `while(*cell) {` is emitted exactly when that flag changes. |
| Changes.AddCells | bfvm.c:396-399 | The plain dump emits one statement per record entry. |
| Changes.ScaledAdds | bfvm.c:378-385 | The closed form emits at most one scaled addition per record entry. |
| Changes.ClosedForm | bfvm.c:352-393 | The closed form opens with an iteration count and ends by zeroing the loop cell, with at most one statement per entry between. |
| Changes.Dump | bfvm.c:346-429 | A pure region that has not moved is written as `ClosedForm(r)`, and the header flag is left alone. Any other region is written as the header when it is due, then `AddCells(r)`, then the pointer move when the shift is non-zero. |
| Generator.Gen | bfvm.c:528-614 | A region that closes at `JMPNZ` returns a resume position strictly after where it started and inside the program. |
| Generator.Exec | bfvm.c:569-612 | The same bound for one dispatched instruction. |
| Generator.FlushBefore | bfvm.c:547-565 | `OUTPUT`, `RESET_CELL`, `START` and `JMPZ` make the region impure and flush the record. `END` and `JMPNZ` flush it. A flush empties the record and restarts the region at the current pointer. `INPUT` only writes the header when it is due, and every other opcode changes nothing. At every flush point, what is written and the new header flag are `dump_changes` of the record with the region's pointer shift and purity after this opcode. The pointer, `lastOpcode` and `fromJump` never change here. |
| Generator.Within | bfvm.c:570-608 | An in-region instruction sets `lastOpcode` and emits at most one statement. Only `+`/`-` change the record and only `<`/`>` move the pointer. Purity, the header flag and the region start are untouched. |
| Generator.Transpiled | bfvm.c:636 | The top-level call starts a region at pointer 0 that is not entered from a jump. If it stops at a `JMPNZ`, the cursor it hands back lies inside the program. |
| Generator.GenUnfold | bfvm.c:544-569 | Proof step: Each iteration first applies the flush switch and then the dispatch switch. |
| Generator.ExecUnfold | bfvm.c:569-611 | Proof step: Arithmetic, moves, I/O and `RESET_CELL` continue in the region after their width. `JMPNZ` closes the region with `}` when the header was printed. `END`/`START` stop. |
| Generator.ExecOther | bfvm.c:569-612 | Proof step: A non-opcode word is skipped but still becomes `lastOpcode`. A truncated two-word instruction stops the transpiler with a failure. |
| Generator.ExecJmpz | bfvm.c:586-593 | Proof step: `JMPZ` transpiles the body as a nested region entered from a jump, then resumes after it. The new region is impure, has an empty record, and starts where the body left the pointer. |
| Generator.Flush | bfvm.c:547-565 | The flush switch emits and updates the region exactly as the reference flush. |
| Generator.Simple | bfvm.c:570-585 | Arithmetic folds into the record, moves update the pointer, and `INPUT`/`OUTPUT`/`RESET_CELL` emit their statement, exactly as the reference. |
| Generator.EnterLoop | bfvm.c:586-593 | The recursive call for a loop body and the re-initialisation of the record match the reference. |
| Generator.Stay | bfvm.c:594-610 | `JMPNZ`, `END`, `START` and in-region instructions match the reference. |
| Generator.Decoded | bfvm.c:569-611 | The dispatch switch on a decodable opcode matches the reference. |
| Generator.DispatchSwitch | bfvm.c:569-612 | The dispatch switch, including skipped non-opcode words, matches the reference. |
| Generator.TranspileRec | bfvm.c:528-614 | The imperative transpiler returns the reference outcome: statements, resume position and pointer. |
| GeneratorFacts.AccumMeaning | bfvm.c:441-449 | Folding arithmetic into the record keeps offsets distinct, records exactly the touched offsets, and stores each offset's net delta. |
| GeneratorFacts.MergeMeaning | bfvm.c:431-439 | Adding keeps offsets distinct and adds exactly `delta` at `offset`. |
| GeneratorFacts.DecodeIn | bfvm.c:193-209 | An encoded instruction laid out in the program decodes in place. |
| GeneratorFacts.ArithOpcode | bfvm.c:547-573 | Proof step: Arithmetic and moves are not flush points and stay in the region. |
| GeneratorFacts.ArithStep | bfvm.c:570-573 | Proof step: One arithmetic instruction advances the region by folding its delta or moving the pointer. |
| GeneratorFacts.ArithRun | bfvm.c:544-573 | A straight run of arithmetic emits nothing and only accumulates into the region. |
| GeneratorFacts.FlushClosedForm | bfvm.c:352-393 | At any flush point, a region that is still pure and has not moved writes its record as the closed form. The count comes from the loop cell's delta, every entry off offset 0 gets its scaled addition, and the loop cell is cleared last. The header is not written. |
| GeneratorFacts.FlushPlain | bfvm.c:394-415 | At any other flush, including `OUTPUT`, `RESET_CELL`, `START` and `JMPZ`, the header is written when it is due. Then comes one addition per record entry in record order, then the pointer move if the region moved. |
| GeneratorFacts.CloseAt | bfvm.c:556-565 | Proof step: At `JMPNZ` the region dumps its record, adds `}` when the header was printed, and returns. |
| GeneratorFacts.PureDump | bfvm.c:352-415 | Dumping a pure loop body gives the closed form when the body is pointer-neutral. Otherwise it gives `while` with the additions, the pointer move and `}`. |
| GeneratorFacts.LaidLoop | bfvm.c:586-599 | The same result, for a loop body given instruction by instruction. |
| GeneratorFacts.PureLoop | bfvm.c:586-599 | A loop whose body is only arithmetic and moves transpiles to the closed form when pointer-neutral, and otherwise to a plain loop with batched additions. |
| GeneratorFacts.MultiplyShape | bfvm.c:352-393 | The closed form of a body's record counts iterations from the loop cell's net delta, scales every other touched cell by its net delta, zeroes the loop cell, and has no loop. |
| GeneratorFacts.MultiplyLoop | bfvm.c:352-393 | A pointer-neutral arithmetic loop becomes a multiply loop in closed form: the iteration count, `cell[k] += change * net(k)` for every other touched `k`, and the zeroing. |
| GeneratorFacts.MovingLoop | bfvm.c:394-415 | A pointer-moving arithmetic loop stays a loop. It holds one addition per touched cell with its net delta, then the pointer move. |
| GeneratorFacts.DistinctCard | bfvm.c:431-439 | A record with distinct offsets has one entry per offset. |
| GeneratorFacts.EmptyLoopDividesByZero | bfvm.c:370-375 | `[]` transpiles to `change = (256 - cell[0]) / 0; cell[0] = 0;`. |
| GeneratorFacts.TopLevelClosedForm | bfvm.c:352-375 | `+++` alone transpiles to `change = (256 - cell[0]) / 3; cell[0] = 0;`: the closed form at the top level, outside any loop. |
| GeneratorFacts.TopLevelAdd | bfvm.c:570-573 | Example step: `INCR_3` folds `+3` at offset 0 into the record. |
| GeneratorFacts.TopLevelFlush | bfvm.c:556-565 | Example step: at `END` the pure, pointer-neutral top-level region dumps its record as the closed form. |
| GeneratorFacts.ReadOvertakesPendingAdd | bfvm.c:548-551 | `+,.` emits the read before the pending `+1`. |
| GeneratorFacts.ReadWhilePending | bfvm.c:574-577 | Example step: The read is emitted while the addition stays pending. |
| GeneratorFacts.FlushAfterRead | bfvm.c:552-565 | The pending addition is flushed only at the following `OUTPUT`. |
| GeneratorFacts.EndAfterWrite | bfvm.c:556-565 | Example step: At `END`, an impure top-level region with nothing pending emits nothing. |
| GeneratorFacts.ResetAfterLoopKept | bfvm.c:600-612 | A `RESET_CELL` right after a loop still emits `*cell = 0;`. |
| GeneratorFacts.ResetLoopBody | bfvm.c:586-599 | Example step: The body `>` of `[>]` is a moving loop. |
| GeneratorFacts.ResetLoopMove | bfvm.c:572-573 | Example step: The move inside `[>]` shifts the region's pointer. |
| GeneratorFacts.ResetAfterClose | bfvm.c:600-608 | Example step: After the loop, `RESET_CELL` emits its zeroing statement. |
| Pipeline.UniformRepeat | bfvm.c:95-98 | A text of only `c` is one run covering the whole text. |
| Pipeline.CompileIncrementRun | bfvm.c:116-172 | `+` repeated `n` times compiles to the single run encoding of `n`, then `END`. |
| Pipeline.ExecuteIncrementRun | bfvm.c:238-257 | That program halts with `n mod 256` in cell 0, every other cell 0 and no output. |
| Pipeline.IncrementRun | bfvm.c:116-324 | Compiling and running `+` repeated `n` times leaves `n mod 256` in cell 0 and halts. |
| Pipeline.ClearIdiomRun | bfvm.c:123-126 | Example step: `+++` in `+++[-]` folds into one `INCR_3`. |
| Pipeline.ClearIdiomLoop | bfvm.c:129-141 | Example step: `[-]` in `+++[-]` becomes `RESET_CELL`. |
| Pipeline.CompileClearIdiom | bfvm.c:116-172 | `+++[-]` compiles to `INCR_3 RESET_CELL END`. |
| Pipeline.ExecuteClearIdiom | bfvm.c:314-318 | Example step: That program halts with cell 0 cleared. |
| Pipeline.ClearIdiom | bfvm.c:116-324 | Compiling and running `+++[-]` halts with cell 0 zero and no output. |
| Pipeline.OpenJumpPair | bfvm.c:152-157 | Proof step: the `JMPZ` that opens a block forms a jump pair where the block is laid out. |
| Pipeline.BodyJumpPair | bfvm.c:152-157 | Proof step: a `JMPZ` inside a loop body forms a jump pair. |
| Pipeline.TailJumpPair | bfvm.c:152-157 | Proof step: a `JMPZ` after the first instruction or loop forms a jump pair. |
| Pipeline.BlockJumpPair | bfvm.c:152-157 | Wherever a well-formed block is laid out in a program, each of its instruction-start `JMPZ` words forms a jump pair: its offset `z` points at a `JMPNZ` carrying `-z`. |
| Pipeline.CompiledJumpPairs | bfvm.c:116-172 | In every program `compile` returns, each `JMPZ` at an instruction start forms a jump pair. |
| Pipeline.CompiledJumpLanding | bfvm.c:300-313 | So in every compiled program `JMPZ` on zero lands just past its `JMPNZ`, and that `JMPNZ` on non-zero lands just past the `JMPZ`. |

## Left out

- `compile` prints `Unmatched ']'!` (`bfvm.c:149`) and `Unmatched '['!` (`bfvm.c:164`) before returning `NULL`. Both are modelled as `None` without the message.
- The model does not check that the source text holds no NUL character. A C string cannot hold one before its end, so `skipAll` and `compile` (`bfvm.c:72`, `bfvm.c:121`) never meet one inside the text. The model would read one as a comment.
- `main`, argument handling, file reading, timing with `clock` and the `DEBUG` builds are not modelled. That includes `disassemble_all`, `fdisassemble` and the trace prints.
- `disassemble_single`'s printing is not modelled. Only the width it advances by is (`Opcodes.Width`).
- `transpile` is not modelled: the file-name rewriting, the C prologue and epilogue, and the file handle. Its one call into `transpile_rec` is `Generator.Transpiled`.
- The C text is not modelled: indentation (`print_indent`), `print_signaware` and `fprintf` formatting. Statements are abstract `Stmt` values.
- Whether the generated C behaves like the executor is not modelled. That includes its `char change` overflow and its division by zero.
- The computed-goto dispatch table is not modelled. It selects the same cases as the `switch`.
- `realloc` and `free` are modelled by their effect on `values`, `size` and `capacity` only. Allocation failure is not modelled.
- Executor.Execute: models `execute` up to a fuel bound. Whether a program terminates is not stated.
- Executor.Move: a move off the 65536-cell tape faults, where the C code has undefined behaviour.
- Executor.Step: a jump target or instruction pointer outside the program, or a word that is not an opcode, faults, where the C code reads out of bounds.
- Opcodes.Decode: operands and offsets are unbounded integers. The 32-bit `int` overflow of very long runs or very large programs is not modelled.
- Generator.TranspileRec: `currentPointer`, offsets and deltas are unbounded integers. The C `int` overflow on extreme inputs is not modelled.
- The output stream is a sequence of bytes and the input stream a sequence of bytes with an end. I/O errors are not modelled.
