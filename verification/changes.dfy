/**
 * The change record of the code generator (apply_total_change and the
 * arithmetic of dump_changes in bfvm.c): per relative cell offset, the net
 * delta accumulated over a straight-line region, and the statements emitted
 * when the record is flushed, including the closed form of a multiply loop.
 */
module Changes {
  import opened Growable

  /** One entry of the change record: the net delta of the cell at offset idx. */
  datatype Change = Change(idx: int, value: int)

  /** The generated statements, abstracted from their C text. */
  datatype Stmt =
    | LoopHeader                          // while(*cell) {
    | LoopClose                           // }
    | AddCell(offset: int, delta: int)    // cell[offset] += delta;
    | MovePointer(shift: int)             // cell += shift;
    | ReadCell(offset: int)               // cell[offset] = getchar();
    | WriteCell                           // putchar(*cell);
    | ZeroCell                            // *cell = 0;
    | CountDown(divisor: int)             // change = cell[0] / divisor;
    | CountUp(divisor: int)               // change = (256 - cell[0]) / divisor;
    | AddScaled(offset: int, factor: int) // cell[offset] += (change * factor);
    | ClearLoopVar                        // cell[0] = 0;

  /** The record after adding `delta` at `offset`: found entry updated in place, or a new entry at the end. */
  function Merge(r: seq<Change>, offset: int, delta: int): (m: seq<Change>)
    ensures |r| <= |m| <= |r| + 1
    ensures |m| == |r| + 1 ==> m[|r|] == Change(offset, delta)
  {
    if r == [] then [Change(offset, delta)]
    else if r[0].idx == offset then [r[0].(value := r[0].value + delta)] + r[1..]
    else [r[0]] + Merge(r[1..], offset, delta)
  }

  /** The delta the record holds for offset k: the first entry's for k, or 0 when it has none. */
  function DeltaAt(r: seq<Change>, k: int): int
  {
    if r == [] then 0 else if r[0].idx == k then r[0].value else DeltaAt(r[1..], k)
  }

  function Offsets(r: seq<Change>): set<int>
  {
    set i | 0 <= i < |r| :: r[i].idx
  }

  predicate Distinct(r: seq<Change>)
  {
    forall i, j :: 0 <= i < j < |r| ==> r[i].idx != r[j].idx
  }

  /** Merging adds the delta at its offset and changes the net delta of no other offset. */
  lemma {:induction false} MergeDelta(r: seq<Change>, offset: int, delta: int, k: int)
    ensures DeltaAt(Merge(r, offset, delta), k) == DeltaAt(r, k) + (if k == offset then delta else 0)
  {
    if r != [] && r[0].idx != offset {
      MergeDelta(r[1..], offset, delta, k);
    }
  }

  /** Offsets in the record stay distinct under merging. */
  lemma {:induction false} MergeDistinct(r: seq<Change>, offset: int, delta: int)
    requires Distinct(r)
    ensures Distinct(Merge(r, offset, delta))
    ensures Offsets(Merge(r, offset, delta)) == Offsets(r) + {offset}
  {
    if r == [] {
      assert Offsets([Change(offset, delta)]) == {offset} by {
        assert [Change(offset, delta)][0].idx == offset;
      }
    } else {
      var m := Merge(r, offset, delta);
      MergeDistinct(r[1..], offset, delta);
      OffsetsCons(r);
      OffsetsCons(m);
      if r[0].idx == offset {
        assert m[1..] == r[1..];
      } else {
        assert m[1..] == Merge(r[1..], offset, delta);
      }
      forall i, j | 0 <= i < j < |m| ensures m[i].idx != m[j].idx {
        if i == 0 {
          assert m[j].idx == m[1..][j - 1].idx;
          assert m[1..][j - 1].idx in Offsets(m[1..]);
        } else {
          assert m[i] == m[1..][i - 1] && m[j] == m[1..][j - 1];
        }
      }
    }
  }

  lemma {:induction false} OffsetsCons(r: seq<Change>)
    requires r != []
    ensures Offsets(r) == {r[0].idx} + Offsets(r[1..])
  {
    forall x | x in Offsets(r) ensures x in {r[0].idx} + Offsets(r[1..]) {
      var i :| 0 <= i < |r| && r[i].idx == x;
      if i > 0 { assert r[1..][i - 1].idx == x; }
    }
    forall x | x in Offsets(r[1..]) ensures x in Offsets(r) {
      var i :| 0 <= i < |r[1..]| && r[1..][i].idx == x;
      assert r[i + 1].idx == x;
    }
  }

  /** The first entry with the offset is the one merging updates. */
  lemma {:induction false} MergeFirst(r: seq<Change>, i: nat, offset: int, delta: int)
    requires i < |r| && r[i].idx == offset
    requires forall j :: 0 <= j < i ==> r[j].idx != offset
    ensures Merge(r, offset, delta) == r[i := r[i].(value := r[i].value + delta)]
    decreases i
  {
    if i > 0 {
      MergeFirst(r[1..], i - 1, offset, delta);
      assert r[i := r[i].(value := r[i].value + delta)] ==
        [r[0]] + r[1..][i - 1 := r[i].(value := r[i].value + delta)];
    }
  }

  /** Without an entry for the offset, merging appends one. */
  lemma {:induction false} MergeAbsent(r: seq<Change>, offset: int, delta: int)
    requires forall j :: 0 <= j < |r| ==> r[j].idx != offset
    ensures Merge(r, offset, delta) == r + [Change(offset, delta)]
    decreases |r|
  {
    if r != [] {
      MergeAbsent(r[1..], offset, delta);
      assert r + [Change(offset, delta)] == [r[0]] + (r[1..] + [Change(offset, delta)]);
    }
  }

  /** The in-place update of apply_total_change: entry i's value grows by delta. */
  method AddToEntry(ca: GrowArray<Change>, i: int, delta: int)
    requires ca.Valid() && 0 <= i < ca.size
    modifies ca.values
    ensures ca.Valid()
    ensures ca.Contents() == old(ca.Contents())[i := old(ca.Contents())[i].(value := old(ca.Contents())[i].value + delta)]
  {
    ca.values[i] := ca.values[i].(value := ca.values[i].value + delta);
  }

  /**
   * apply_total_change: search the record for the offset and add the delta to
   * that entry in place, or insert a new entry.
   */
  method ApplyTotalChange(ca: GrowArray<Change>, currentPointer: int, totalChange: int)
    requires ca.Valid()
    modifies ca, ca.values
    ensures ca.Valid()
    ensures ca.Contents() == Merge(old(ca.Contents()), currentPointer, totalChange)
    ensures ca.values == old(ca.values) || fresh(ca.values)
  {
    ghost var c := ca.Contents();
    var i := 0;
    while i < ca.size
      invariant 0 <= i <= ca.size == |c| && ca.Valid()
      invariant ca.values == old(ca.values) && ca.values[..ca.size] == c
      invariant forall j :: 0 <= j < i ==> c[j].idx != currentPointer
      decreases ca.size - i
    {
      if ca.values[i].idx == currentPointer {
        MergeFirst(c, i, currentPointer, totalChange);
        AddToEntry(ca, i, totalChange);
        return;
      }
      i := i + 1;
    }
    MergeAbsent(c, currentPointer, totalChange);
    ca.Insert(Change(currentPointer, totalChange));
  }

  // ----- Flushing the record (dump_changes) -----

  /** print_header: the loop header, once, for a region entered through a jump. */
  function Header(headerPrinted: bool, fromJump: bool): (h: (seq<Stmt>, bool))
    ensures h.1 == (headerPrinted || fromJump)
    ensures h.0 == (if h.1 != headerPrinted then [LoopHeader] else [])
  {
    if fromJump && !headerPrinted then ([LoopHeader], true) else ([], headerPrinted)
  }

  /** One `cell[idx] += value` per entry, in record order. */
  function AddCells(r: seq<Change>): (s: seq<Stmt>)
    ensures |s| == |r|
  {
    if r == [] then [] else AddCells(r[..|r| - 1]) + [AddCell(r[|r| - 1].idx, r[|r| - 1].value)]
  }

  /** One `cell[idx] += change * value` per entry whose offset is not 0, in record order. */
  function ScaledAdds(r: seq<Change>): (s: seq<Stmt>)
    ensures |s| <= |r|
  {
    if r == [] then []
    else
      var last := r[|r| - 1];
      ScaledAdds(r[..|r| - 1]) + (if last.idx != 0 then [AddScaled(last.idx, last.value)] else [])
  }

  /** The iteration count of a multiply loop whose loop cell changes by d per pass. */
  function IterationCount(d: int): Stmt
  {
    if d < 0 then CountDown(-d) else CountUp(d)
  }

  /** The multiply-loop rewrite: count, scaled additions, loop cell cleared. */
  function ClosedForm(r: seq<Change>): (s: seq<Stmt>)
    ensures 2 <= |s| <= |r| + 2 && (s[0].CountDown? || s[0].CountUp?) && s[|s| - 1] == ClearLoopVar
  {
    [IterationCount(DeltaAt(r, 0))] + ScaledAdds(r) + [ClearLoopVar]
  }

  /** What dump_changes emits for a record, and whether the header has been printed afterwards. */
  function Dump(r: seq<Change>, pointerShift: int, isPureLoop: bool, headerPrinted: bool, fromJump: bool): (d: (seq<Stmt>, bool))
    ensures d.1 == (headerPrinted || (fromJump && !(isPureLoop && pointerShift == 0)))
    ensures !(isPureLoop && pointerShift == 0) ==> |d.0| >= |r|
    ensures pointerShift != 0 ==> |d.0| >= 1 && d.0[|d.0| - 1] == MovePointer(pointerShift)
    ensures isPureLoop && pointerShift == 0 ==> d.0 == ClosedForm(r)
    ensures !(isPureLoop && pointerShift == 0) ==>
      d.0 == Header(headerPrinted, fromJump).0 + AddCells(r) + (if pointerShift != 0 then [MovePointer(pointerShift)] else [])
  {
    if isPureLoop && pointerShift == 0 then (ClosedForm(r), headerPrinted)
    else
      var header := Header(headerPrinted, fromJump);
      (header.0 + AddCells(r) + (if pointerShift != 0 then [MovePointer(pointerShift)] else []), header.1)
  }

  /** Every scaled addition is an entry of the record with an offset other than 0. */
  lemma {:induction false} ScaledAddsAt(r: seq<Change>)
    ensures forall j :: 0 <= j < |ScaledAdds(r)| ==>
      ScaledAdds(r)[j].AddScaled? && ScaledAdds(r)[j].offset != 0 &&
      Change(ScaledAdds(r)[j].offset, ScaledAdds(r)[j].factor) in r
    decreases |r|
  {
    if r != [] {
      var init := r[..|r| - 1];
      ScaledAddsAt(init);
      assert forall x :: x in init ==> x in r;
    }
  }

  lemma {:induction false} ScaledAddsCover(r: seq<Change>, i: nat)
    requires i < |r| && r[i].idx != 0
    ensures AddScaled(r[i].idx, r[i].value) in ScaledAdds(r)
    decreases |r|
  {
    if i < |r| - 1 {
      ScaledAddsCover(r[..|r| - 1], i);
    }
  }

  /** The plain flush writes one addition per entry, in record order. */
  lemma {:induction false} AddCellsAt(r: seq<Change>)
    ensures |AddCells(r)| == |r|
    ensures forall j :: 0 <= j < |r| ==> AddCells(r)[j] == AddCell(r[j].idx, r[j].value)
    decreases |r|
  {
    if r != [] {
      AddCellsAt(r[..|r| - 1]);
    }
  }

  /** With distinct offsets, an entry's value is the record's delta for its offset. */
  lemma {:induction false} DeltaAtEntry(r: seq<Change>, i: nat)
    requires Distinct(r) && i < |r|
    ensures DeltaAt(r, r[i].idx) == r[i].value
  {
    if i > 0 {
      assert r[0].idx != r[i].idx;
      assert r[1..][i - 1] == r[i];
      DeltaAtEntry(r[1..], i - 1);
    }
  }

  /**
   * The closed form of a record with distinct offsets: the count computed from
   * the loop cell's delta d (cell[0] / -d when d < 0, (256 - cell[0]) / d
   * otherwise), then cell[k] += change * v for exactly the entries (k, v) with
   * k != 0, then cell[0] = 0, and no loop header.
   */
  lemma {:induction false} ClosedFormShape(r: seq<Change>)
    requires Distinct(r)
    ensures var c := ClosedForm(r); var d := DeltaAt(r, 0);
      |c| >= 2 && c[0] == (if d < 0 then CountDown(-d) else CountUp(d)) && c[|c| - 1] == ClearLoopVar
    ensures var c := ClosedForm(r);
      forall k :: k in Offsets(r) && k != 0 ==> AddScaled(k, DeltaAt(r, k)) in c
    ensures var c := ClosedForm(r);
      forall s :: s in c[1..|c| - 1] ==>
        s.AddScaled? && s.offset != 0 && s.offset in Offsets(r) && s.factor == DeltaAt(r, s.offset)
    ensures LoopHeader !in ClosedForm(r) && LoopClose !in ClosedForm(r)
  {
    var c := ClosedForm(r);
    assert c[1..|c| - 1] == ScaledAdds(r);
    ScaledAddsCovered(r);
    ScaledAddsFactors(r);
    assert LoopHeader !in ScaledAdds(r) && LoopClose !in ScaledAdds(r);
  }

  /** Each entry with an offset other than 0 has its scaled addition, with the record's delta. */
  lemma {:induction false} ScaledAddsCovered(r: seq<Change>)
    requires Distinct(r)
    ensures forall k :: k in Offsets(r) && k != 0 ==> AddScaled(k, DeltaAt(r, k)) in ScaledAdds(r)
  {
    forall k | k in Offsets(r) && k != 0 ensures AddScaled(k, DeltaAt(r, k)) in ScaledAdds(r) {
      var i :| 0 <= i < |r| && r[i].idx == k;
      ScaledAddsCover(r, i);
      DeltaAtEntry(r, i);
    }
  }

  /** Each scaled addition carries the record's delta for its offset. */
  lemma {:induction false} ScaledAddsFactors(r: seq<Change>)
    requires Distinct(r)
    ensures forall s :: s in ScaledAdds(r) ==>
      s.AddScaled? && s.offset != 0 && s.offset in Offsets(r) && s.factor == DeltaAt(r, s.offset)
  {
    ScaledAddsAt(r);
    forall s | s in ScaledAdds(r)
      ensures s.AddScaled? && s.offset != 0 && s.offset in Offsets(r) && s.factor == DeltaAt(r, s.offset)
    {
      var j :| 0 <= j < |ScaledAdds(r)| && ScaledAdds(r)[j] == s;
      var i :| 0 <= i < |r| && r[i] == Change(s.offset, s.factor);
      DeltaAtEntry(r, i);
    }
  }

  /**
   * The plain flush of a record with distinct offsets: cell[k] += v for
   * exactly the entries (k, v), each with the record's delta for k.
   */
  lemma {:induction false} AddCellsShape(r: seq<Change>)
    requires Distinct(r)
    ensures |AddCells(r)| == |r|
    ensures forall k :: k in Offsets(r) ==> AddCell(k, DeltaAt(r, k)) in AddCells(r)
    ensures forall s :: s in AddCells(r) ==> s.AddCell? && s.offset in Offsets(r) && s.delta == DeltaAt(r, s.offset)
  {
    AddCellsAt(r);
    forall k | k in Offsets(r) ensures AddCell(k, DeltaAt(r, k)) in AddCells(r) {
      var i :| 0 <= i < |r| && r[i].idx == k;
      DeltaAtEntry(r, i);
      assert AddCells(r)[i] == AddCell(k, DeltaAt(r, k));
    }
    forall s | s in AddCells(r) ensures s.AddCell? && s.offset in Offsets(r) && s.delta == DeltaAt(r, s.offset) {
      var i :| 0 <= i < |AddCells(r)| && AddCells(r)[i] == s;
      DeltaAtEntry(r, i);
    }
  }

  /** The records' first entry for offset 0 is found by skipping entries with other offsets. */
  lemma {:induction false} DeltaAtSkip(r: seq<Change>, i: nat, k: int)
    requires i < |r| && r[i].idx != k
    ensures DeltaAt(r[i..], k) == DeltaAt(r[i + 1..], k)
  {
    assert r[i..][1..] == r[i + 1..];
  }

  /** The closed-form branch of dump_changes: find the loop cell's delta, then scale every other entry. */
  method EmitClosedForm(totalChange: GrowArray<Change>) returns (out: seq<Stmt>)
    requires totalChange.Valid()
    ensures out == ClosedForm(totalChange.Contents())
  {
    ghost var c := totalChange.Contents();
    var loopVarChange := 0;
    var i := 0;
    while i < totalChange.size
      invariant 0 <= i <= totalChange.size
      invariant DeltaAt(c, 0) == DeltaAt(c[i..], 0)
      decreases totalChange.size - i
    {
      if totalChange.values[i].idx == 0 {
        loopVarChange := totalChange.values[i].value;
        break;
      }
      DeltaAtSkip(c, i, 0);
      i := i + 1;
    }
    assert i == totalChange.size ==> c[i..] == [];
    out := [if loopVarChange < 0 then CountDown(-loopVarChange) else CountUp(loopVarChange)];
    i := 0;
    while i < totalChange.size
      invariant 0 <= i <= totalChange.size
      invariant out == [IterationCount(DeltaAt(c, 0))] + ScaledAdds(c[..i])
      decreases totalChange.size - i
    {
      assert c[..i + 1][..i] == c[..i];
      if totalChange.values[i].idx != 0 {
        out := out + [AddScaled(totalChange.values[i].idx, totalChange.values[i].value)];
      }
      i := i + 1;
    }
    assert c[..i] == c;
    out := out + [ClearLoopVar];
  }

  /** The plain branch of dump_changes: one addition per entry, then the pointer move if any. */
  method EmitAdditions(totalChange: GrowArray<Change>, pointerShift: int) returns (out: seq<Stmt>)
    requires totalChange.Valid()
    ensures out == AddCells(totalChange.Contents()) + (if pointerShift != 0 then [MovePointer(pointerShift)] else [])
  {
    ghost var c := totalChange.Contents();
    out := [];
    var i := 0;
    while i < totalChange.size
      invariant 0 <= i <= totalChange.size
      invariant out == AddCells(c[..i])
      decreases totalChange.size - i
    {
      assert c[..i + 1][..i] == c[..i];
      out := out + [AddCell(totalChange.values[i].idx, totalChange.values[i].value)];
      i := i + 1;
    }
    assert c[..i] == c;
    if pointerShift != 0 {
      out := out + [MovePointer(pointerShift)];
    }
  }

  /** dump_changes: emit the record (closed form, or header, additions and pointer move) and release it. */
  method DumpChanges(totalChange: GrowArray<Change>, pointerShift: int, isPureLoop: bool,
                     headerPrinted: bool, fromJump: bool)
    returns (out: seq<Stmt>, printed: bool)
    requires totalChange.Valid()
    modifies totalChange
    ensures totalChange.Valid() && totalChange.Contents() == [] && fresh(totalChange.values)
    ensures (out, printed) == Dump(old(totalChange.Contents()), pointerShift, isPureLoop, headerPrinted, fromJump)
  {
    ghost var c := totalChange.Contents();
    if isPureLoop && pointerShift == 0 {
      out := EmitClosedForm(totalChange);
      printed := headerPrinted;
      assert (out, printed) == Dump(c, pointerShift, isPureLoop, headerPrinted, fromJump);
    } else {
      var header := Header(headerPrinted, fromJump);
      var additions := EmitAdditions(totalChange, pointerShift);
      out, printed := header.0 + additions, header.1;
      assert out == header.0 + AddCells(c) + (if pointerShift != 0 then [MovePointer(pointerShift)] else []);
      assert (out, printed) == Dump(c, pointerShift, isPureLoop, headerPrinted, fromJump);
    }
    totalChange.Free();
  }
}
