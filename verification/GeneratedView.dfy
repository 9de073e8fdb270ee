/** From two versions of a file to its whole-file view: generation, parsing and the view fit together. */
module GeneratedView {
  import opened DiffModels
  import opened Text
  import opened HunkHeaders
  import opened Paths
  import opened DiffParser
  import opened ParserLaws
  import opened Patches
  import opened Generate
  import opened Contexts
  import opened ContextLaws

  /** difflib closes its last group with `n` equal lines, unless that group reaches the end of both versions. */
  ghost predicate ClosesWithContext(a: seq<string>, b: seq<string>, groups: seq<Group>, n: nat) {
    groups != [] ==>
      var last := Last(groups[|groups| - 1]);
      (last.tag.Equal? && last.i1 + n <= last.i2) || (last.i2 == |a| && last.j2 == |b|)
  }

  /** A run of ended lines has no marker and keeps its type. */
  lemma {:induction false} PlainRun(t: LineType, texts: seq<string>, oldNo: int, newNo: int)
    requires AllEnded(texts)
    ensures |Run(t, texts, oldNo, newNo)| == |texts|
    ensures forall k :: 0 <= k < |texts| ==> Run(t, texts, oldNo, newNo)[k].lineType == t
  {
    if texts != [] {
      PlainRun(t, texts[1..], oldNo + Step(OldStep(t)), newNo + Step(NewStep(t)));
    }
  }

  lemma {:induction false} ContextCloses(x: seq<DiffLine>, y: seq<DiffLine>)
    requires forall k :: 0 <= k < |y| ==> y[k].lineType.Context?
    ensures |y| <= TrailingContext(x + y)
    decreases |y|
  {
    if y != [] {
      ContextCloses(x, y[..|y| - 1]);
      assert (x + y)[..|x + y| - 1] == x + y[..|y| - 1];
    }
  }

  /** The lines of a group end with those of its last opcode. */
  lemma {:induction false} LinesOfLastOp(a: seq<string>, b: seq<string>, ops: seq<Opcode>, i: nat, j: nat, i2: nat,
          j2: nat)
    returns (front: seq<DiffLine>)
    requires Contiguous(a, b, ops, i, j, i2, j2) && ops != []
    ensures var last := ops[|ops| - 1];
            ValidOp(a, b, last) && OpsLines(a, b, ops, i, j, i2, j2) == front + OpLines(a, b, last)
  {
    hide OpLines;
    var op := ops[0];
    if |ops| == 1 {
      front := [];
      assert OpLines(a, b, op) + [] == [] + OpLines(a, b, op);
    } else {
      var rest := LinesOfLastOp(a, b, ops[1..], op.i2, op.j2, i2, j2);
      front := OpLines(a, b, op) + rest;
      Reassociate(OpLines(a, b, op), rest, OpLines(a, b, ops[|ops| - 1]));
    }
  }

  lemma OpWithoutMarkers(a: seq<string>, b: seq<string>, op: Opcode)
    requires ValidOp(a, b, op) && AllEnded(a[op.i1..op.i2]) && AllEnded(b[op.j1..op.j2])
    ensures !HasMarker(OpLines(a, b, op))
  {
    PlainRun(Context, a[op.i1..op.i2], op.i1 + 1, op.j1 + 1);
    PlainRun(Deletion, a[op.i1..op.i2], op.i1 + 1, op.j1 + 1);
    PlainRun(Addition, b[op.j1..op.j2], op.i2 + 1, op.j1 + 1);
  }

  lemma {:induction false} OpsWithoutMarkers(a: seq<string>, b: seq<string>, ops: seq<Opcode>, i: nat, j: nat,
          i2: nat, j2: nat)
    requires Contiguous(a, b, ops, i, j, i2, j2)
    requires i2 <= |a| && j2 <= |b| && AllEnded(a[..i2]) && AllEnded(b[..j2])
    ensures !HasMarker(OpsLines(a, b, ops, i, j, i2, j2))
  {
    hide OpLines;
    if ops != [] {
      var op := ops[0];
      OpsNumbered(a, b, ops[1..], op.i2, op.j2, i2, j2);
      assert forall k :: op.i1 <= k < op.i2 ==> a[k] == a[..i2][k];
      assert forall k :: op.j1 <= k < op.j2 ==> b[k] == b[..j2][k];
      OpWithoutMarkers(a, b, op);
      OpsWithoutMarkers(a, b, ops[1..], op.i2, op.j2, i2, j2);
    }
  }

  /** Lines before the last one are ended. */
  lemma EndedBefore(file: FileText, n: nat)
    requires NewlineFree(file.lines) && n < |file.lines|
    ensures AllEnded(WithEndings(file)[..n])
  {
    forall k | 0 <= k < n ensures Ended(WithEndings(file)[..n][k]) {
      LastNewline(file, k);
    }
  }

  /** A group that stops short of the end and closes with enough context leaves an After gap. */
  lemma GroupLeavesGap(before: FileText, after: FileText, g: Group)
    requires NewlineFree(before.lines) && NewlineFree(after.lines)
    requires ValidGroup(WithEndings(before), WithEndings(after), g)
    requires Last(g).i2 < |before.lines| && Last(g).j2 < |after.lines|
    requires Last(g).tag.Equal? && Last(g).i1 + TRAILING_CONTEXT <= Last(g).i2
    ensures HasAfterGap(GroupHunk(WithEndings(before), WithEndings(after), g))
  {
    hide OpsLines, WithEndings, GroupHeader;
    var a, b := WithEndings(before), WithEndings(after);
    var last := Last(g);
    EndedBefore(before, last.i2);
    EndedBefore(after, last.j2);
    OpsWithoutMarkers(a, b, g, g[0].i1, g[0].j1, last.i2, last.j2);
    var front := LinesOfLastOp(a, b, g, g[0].i1, g[0].j1, last.i2, last.j2);
    assert forall k :: last.i1 <= k < last.i2 ==> a[k] == a[..last.i2][k];
    PlainRun(Context, a[last.i1..last.i2], last.i1 + 1, last.j1 + 1);
    ContextCloses(front, OpLines(a, b, last));
  }

  lemma GroupReachesEnd(a: seq<string>, b: seq<string>, g: Group)
    requires ValidGroup(a, b, g) && Last(g).j2 == |b|
    ensures var h := GroupHunk(a, b, g); NextLine(h.newStart, h.newCount) == |b| + 1
  {
    hide OpsLines, GroupHeader;
  }

  lemma {:induction false} ScriptReachesEnd(before: FileText, after: FileText, groups: seq<Group>, i: nat, j: nat)
    requires NewlineFree(before.lines) && NewlineFree(after.lines) && groups != []
    requires ValidGroups(WithEndings(before), WithEndings(after), groups, i, j)
    requires ClosesWithContext(WithEndings(before), WithEndings(after), groups, TRAILING_CONTEXT)
    ensures ReachesEnd(GroupHunks(WithEndings(before), WithEndings(after), groups, i, j), |after.lines|)
  {
    hide GroupHunk, WithEndings, HasAfterGap, ValidGroup;
    var a, b := WithEndings(before), WithEndings(after);
    var g := groups[0];
    if |groups| > 1 {
      ScriptReachesEnd(before, after, groups[1..], Last(g).i2, Last(g).j2);
    } else {
      var last := Last(g);
      assert groups[1..] == [];
      assert a[last.i2..] == b[last.j2..];
      assert |a| - last.i2 == |b| - last.j2;
      if last.i2 == |a| {
        GroupReachesEnd(a, b, g);
      } else {
        GroupLeavesGap(before, after, g);
      }
    }
  }

  /** What makes a file worth a whole-file view, apart from its hunks. */
  predicate Showable(file: DiffFile) {
    && (file.status.Modified? || file.status.Renamed?)
    && !file.isBinary && !file.isTruncated && !file.IsMetadataOnly()
    && !UnexpandableMode(file.oldMode) && !UnexpandableMode(file.newMode)
  }

  /**
   End to end: the hunks generated from two versions pass the new-side check, and the whole-file view
   built from them and the new version alone reads as the new file on one side and the old file on the
   other, in as many rows as announced.
   */
  lemma GeneratedFileRebuilds(file: DiffFile, before: FileText, after: FileText, groups: seq<Group>)
    requires NewlineFree(before.lines) && NewlineFree(after.lines) && groups != []
    requires EditScript(WithEndings(before), WithEndings(after), groups)
    requires ClosesWithContext(WithEndings(before), WithEndings(after), groups, TRAILING_CONTEXT)
    requires Showable(file) && file.hunks == ScriptHunks(WithEndings(before), WithEndings(after), groups)
    ensures IsExpandable(file) && Agrees(file.hunks, after)
    ensures Reading(ShownLines(FullView(file, after)), NewSide) == WholeFile(after.lines)
    ensures Reading(ShownLines(FullView(file, after)), OldSide) == WholeFile(before.lines)
    ensures CodeRows(ShownLines(FullView(file, after))) == FullViewRows(MakeModel(file, after))
    ensures forall gap :: gap in MakeModel(file, after).gaps && !gap.position.After? ==>
              Abuts(file.hunks, gap, BuildGap(after, gap))
  {
    hide GroupHunk, WithEndings, WellFormed, Agrees, StructuralGaps, Apply, Reading, ShownLines, CodeRows, FullViewRows,
      ReachesEnd, FullView, SwapAll, Tally, Abuts, BuildGap, ShownEnd, MakeModel, ReachesFileEnd;
    var a, b := WithEndings(before), WithEndings(after);
    EndingsAreFileLines(before);
    EndingsAreFileLines(after);
    ScriptWellFormed(a, b, groups, 0, 0);
    CompleteHunks(file.hunks);
    ScriptSingleLines(a, b, groups, 0, 0);
    ScriptIsPatch(a, b, groups);
    ScriptReachesEnd(before, after, groups, 0, 0);
    PatchIsConsistent(a, file.hunks);
    PatchVerifies(a, after, file.hunks);
    PatchShownEnd(file.hunks, a, after);
    FullViewShowsNewFile(file, after);
    PatchViewShowsOldFile(file, a, after);
    ChompsOfFile(before);
    FullViewRowCount(file, after);
    ExpandedGapsMeetHunks(file, after);
    CoversFile(file.hunks, |after.lines|);
  }

  /**
   A generated file is worth a whole-file view exactly when it was there before and after, its versions
   differ, and neither is a symbolic link or a submodule.
   */
  lemma GeneratedIsExpandable(source: DiffFile, file: DiffFile, before: FileText, after: FileText, groups: seq<Group>)
    requires NewlineFree(before.lines) && NewlineFree(after.lines)
    requires EditScript(WithEndings(before), WithEndings(after), groups)
    requires FlagsAgree(source, file) && file.status == source.status
    requires file.hunks == ScriptHunks(WithEndings(before), WithEndings(after), groups)
    ensures IsExpandable(file)
       <==> && groups != [] && (file.status == Modified || file.status == Renamed)
            && file.oldMode.GetOr("") !in {"120000", "160000"} && file.newMode.GetOr("") !in {"120000", "160000"}
  {
    hide GroupHunk, WithEndings, StructuralGaps, Apply, SwapAll, EditScript;
    var a, b := WithEndings(before), WithEndings(after);
    if groups != [] {
      ScriptIsPatch(a, b, groups);
      PatchIsConsistent(a, file.hunks);
    }
  }

  lemma CoversFile(hunks: seq<DiffHunk>, total: nat)
    requires ReachesEnd(hunks, total)
    ensures ShownEnd(hunks, total) >= total
  {
    hide HasAfterGap;
  }

  lemma CompleteHunks(hunks: seq<DiffHunk>)
    requires AllWellFormed(hunks)
    ensures AllComplete(hunks)
  {
    hide Complete;
    forall k | 0 <= k < |hunks| ensures Complete(hunks[k]) {
      assert WellFormed(hunks[k]);
    }
  }
}
