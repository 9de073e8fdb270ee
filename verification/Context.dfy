/**
 The unchanged lines around a file's hunks: the gaps between them, the check that a file read is the
 one the hunks were made for, and the view that interleaves hunks and gaps.
 */
module Contexts {
  import opened Options
  import opened DiffModels
  import opened Generate

  const TRAILING_CONTEXT := 3

  datatype GapPosition = Before | Between | After | Inside

  /** Unchanged lines between, before or behind the hunks; how many is open while the new file is not known. */
  datatype DiffGap = DiffGap(index: int, position: GapPosition, hunkIndex: int, oldStart: int, newStart: int,
                             length: Option<int>)

  // ---------------------------------------------------------------- Gaps

  /** First line a range covers on its side. */
  function FirstLine(start: int, count: int): int { if count > 0 then start else start + 1 }

  /** First line behind a range. */
  function NextLine(start: int, count: int): int { if count > 0 then start + count else start + 1 }

  /** Context lines that close a hunk, markers left aside. */
  function TrailingContext(lines: seq<DiffLine>): nat {
    if lines == [] then 0
    else
      var last := lines[|lines| - 1];
      if last.lineType.NoNewline? then TrailingContext(lines[..|lines| - 1])
      else if last.lineType.Context? then 1 + TrailingContext(lines[..|lines| - 1])
      else 0
  }

  method CountTrailingContext(lines: seq<DiffLine>) returns (count: nat)
    ensures count == TrailingContext(lines)
  {
    count := 0;
    var k := |lines|;
    assert lines[..k] == lines;
    while k > 0
      invariant 0 <= k <= |lines|
      invariant count + TrailingContext(lines[..k]) == TrailingContext(lines)
    {
      var line := lines[k - 1];
      assert lines[..k][..k - 1] == lines[..k - 1];
      if !line.lineType.NoNewline? {
        if !line.lineType.Context? {
          return;
        }
        count := count + 1;
      }
      k := k - 1;
    }
  }

  predicate HasMarker(lines: seq<DiffLine>) {
    exists k :: 0 <= k < |lines| && lines[k].lineType.NoNewline?
  }

  lemma {:induction false} MarkersCounted(lines: seq<DiffLine>)
    ensures HasMarker(lines) <==> CountType(lines, NoNewline) > 0
  {
    if lines != [] {
      MarkersCounted(lines[1..]);
      assert forall k :: 1 <= k < |lines| ==> lines[k] == lines[1..][k - 1];
      assert HasMarker(lines[1..]) ==> HasMarker(lines) by {
        assert forall k :: 0 <= k < |lines[1..]| ==> lines[1..][k] == lines[k + 1];
      }
    }
  }

  predicate HasAfterGap(h: DiffHunk) {
    !HasMarker(h.lines) && TrailingContext(h.lines) >= TRAILING_CONTEXT
  }

  /** The gap before one hunk, if any; None when the sides disagree or run backwards. */
  function GapBefore(h: DiffHunk, k: nat, oldNext: int, newNext: int, count: nat): Option<seq<DiffGap>> {
    var oldLength := FirstLine(h.oldStart, h.oldCount) - oldNext;
    var newLength := FirstLine(h.newStart, h.newCount) - newNext;
    if h.oldStart < 0 || h.newStart < 0 || h.oldCount < 0 || h.newCount < 0 then None
    else if oldLength != newLength || oldLength < 0 then None
    else if oldLength == 0 then Some([])
    else Some([DiffGap(count, if k == 0 then Before else Between, k, oldNext, newNext, Some(oldLength))])
  }

  /** Gaps from hunk `k` on, `count` gaps standing before them. */
  function GapsFrom(hunks: seq<DiffHunk>, k: nat, oldNext: int, newNext: int, count: nat): Option<seq<DiffGap>>
    requires k <= |hunks| && hunks != []
    decreases |hunks| - k
  {
    if k == |hunks| then
      Some(if HasAfterGap(hunks[k - 1]) then [DiffGap(count, After, k, oldNext, newNext, None)] else [])
    else
      var h := hunks[k];
      var own := GapBefore(h, k, oldNext, newNext, count);
      if own.None? then None
      else
        var rest := GapsFrom(hunks, k + 1, NextLine(h.oldStart, h.oldCount), NextLine(h.newStart, h.newCount),
                             count + |own.value|);
        if rest.None? then None else Some(own.value + rest.value)
  }

  function StructuralGaps(hunks: seq<DiffHunk>): Option<seq<DiffGap>> {
    if hunks == [] then None else GapsFrom(hunks, 0, 1, 1, 0)
  }

  lemma GapsEnd(hunks: seq<DiffHunk>, oldNext: int, newNext: int, count: nat)
    requires hunks != []
    ensures GapsFrom(hunks, |hunks|, oldNext, newNext, count)
         == Some(if HasAfterGap(hunks[|hunks| - 1])
                 then [DiffGap(count, After, |hunks|, oldNext, newNext, None)] else [])
  {}

  method FindStructuralGaps(hunks: seq<DiffHunk>) returns (r: Option<seq<DiffGap>>)
    ensures r == StructuralGaps(hunks)
  {
    if hunks == [] {
      return None;
    }
    hide GapBefore, HasAfterGap;
    var gaps: seq<DiffGap> := [];
    var oldNext, newNext := 1, 1;
    var k := 0;
    ghost var all := GapsFrom(hunks, 0, 1, 1, 0);
    assert all.Some? ==> [] + all.value == all.value;
    while k < |hunks|
      invariant k <= |hunks|
      invariant GapsFrom(hunks, k, oldNext, newNext, |gaps|).None? <==> all.None?
      invariant all.Some? ==> all.value == gaps + GapsFrom(hunks, k, oldNext, newNext, |gaps|).value
    {
      var h := hunks[k];
      var own := GapBefore(h, k, oldNext, newNext, |gaps|);
      if own.None? {
        return None;
      }
      ghost var rest := GapsFrom(hunks, k + 1, NextLine(h.oldStart, h.oldCount), NextLine(h.newStart, h.newCount),
                                 |gaps| + |own.value|);
      assert rest.Some? ==> gaps + (own.value + rest.value) == (gaps + own.value) + rest.value;
      gaps := gaps + own.value;
      oldNext := NextLine(h.oldStart, h.oldCount);
      newNext := NextLine(h.newStart, h.newCount);
      k := k + 1;
    }
    GapsEnd(hunks, oldNext, newNext, |gaps|);
    assert all.value == gaps + GapsFrom(hunks, |hunks|, oldNext, newNext, |gaps|).value;
    if HasAfterGap(hunks[|hunks| - 1]) {
      gaps := gaps + [DiffGap(|gaps|, After, |hunks|, oldNext, newNext, None)];
    } else {
      assert gaps + [] == gaps;
    }
    return Some(gaps);
  }

  predicate UnexpandableMode(mode: Option<string>) {
    mode == Some("120000") || mode == Some("160000")
  }

  predicate IsExpandable(file: DiffFile) {
    && (file.status.Modified? || file.status.Renamed?)
    && file.hunks != [] && !file.isBinary && !file.isTruncated && !file.IsMetadataOnly()
    && !UnexpandableMode(file.oldMode) && !UnexpandableMode(file.newMode)
    && StructuralGaps(file.hunks).Some?
  }

  /** The After gap gets its length once the new file's is known, and goes away when it is empty. */
  function CloseLastGap(gaps: seq<DiffGap>, newLineCount: nat): seq<DiffGap> {
    if gaps == [] || !gaps[|gaps| - 1].position.After? then gaps
    else
      var after := gaps[|gaps| - 1];
      var length := newLineCount - after.newStart + 1;
      gaps[..|gaps| - 1] + if length <= 0 then [] else [after.(length := Some(length))]
  }

  function FileGaps(file: DiffFile, newLineCount: Option<nat>): seq<DiffGap> {
    if !IsExpandable(file) then []
    else
      var gaps := StructuralGaps(file.hunks).value;
      if newLineCount.None? then gaps else CloseLastGap(gaps, newLineCount.value)
  }

  // ---------------------------------------------------------------- The file behind the gaps

  /** The new file's lines mapped onto the gaps of one file. */
  datatype FileContextModel = FileContextModel(file: DiffFile, text: FileText, gaps: seq<DiffGap>)

  function MakeModel(file: DiffFile, text: FileText): FileContextModel {
    FileContextModel(file, text, FileGaps(file, Some(|text.lines|)))
  }

  /** A slice bound in Python: counted from the end when negative, clipped to the sequence. */
  function Bound(n: int, length: nat): nat {
    if n < 0 then (if length + n < 0 then 0 else length + n) else if n > length then length else n
  }

  function Slice(s: seq<string>, start: int, end: int): seq<string> {
    var lo, hi := Bound(start, |s|), Bound(end, |s|);
    if lo <= hi then s[lo..hi] else []
  }

  /** The gap's lines, read-only: no comment can anchor to an expanded line. */
  function BuildGap(text: FileText, gap: DiffGap): seq<DiffLine> {
    if gap.length.None? || gap.length.value == 0 then []
    else
      var shown := Slice(text.lines, gap.newStart - 1, gap.newStart - 1 + gap.length.value);
      seq(|shown|, k requires 0 <= k < |shown| =>
        DiffLine(Some(gap.oldStart + k), Some(gap.newStart + k), shown[k], Expanded))
  }

  /** `{gap.index: gap}` and `{gap.hunk_index: gap}`: a later gap replaces an earlier one. */
  function ByIndex(gaps: seq<DiffGap>): map<int, DiffGap> {
    if gaps == [] then map[] else ByIndex(gaps[..|gaps| - 1])[gaps[|gaps| - 1].index := gaps[|gaps| - 1]]
  }

  function ByHunk(gaps: seq<DiffGap>): map<int, DiffGap> {
    if gaps == [] then map[] else ByHunk(gaps[..|gaps| - 1])[gaps[|gaps| - 1].hunkIndex := gaps[|gaps| - 1]]
  }

  function ExpandedLines(model: FileContextModel, index: int): seq<DiffLine> {
    var byIndex := ByIndex(model.gaps);
    if index in byIndex then BuildGap(model.text, byIndex[index]) else []
  }

  /** Code rows of the whole-file view: each new line once and each deleted line once more. */
  function FullViewRows(model: FileContextModel): nat {
    |model.text.lines| + Tally(model.file.hunks, Deletion)
  }

  // ---------------------------------------------------------------- The view

  datatype FileExpansion = FileExpansion(shown: set<int>, full: bool)
  {
    predicate IsShown(index: int) { full || index in shown }
  }

  datatype Segment = HunkBlock(hunkIndex: nat, hunk: DiffHunk) | GapRow(gap: DiffGap)
                   | ExpandedBlock(gap: DiffGap, lines: seq<DiffLine>)

  /** The gap before hunk `k`, collapsed or expanded; without a model every gap stays collapsed. */
  function GapSegment(gaps: seq<DiffGap>, model: Option<FileContextModel>, expansion: FileExpansion, k: nat)
    : seq<Segment>
  {
    var byHunk := ByHunk(gaps);
    if k !in byHunk then []
    else
      var gap := byHunk[k];
      if model.Some? && expansion.IsShown(gap.index) then [ExpandedBlock(gap, ExpandedLines(model.value, gap.index))]
      else [GapRow(gap)]
  }

  function SegmentsFrom(hunks: seq<DiffHunk>, gaps: seq<DiffGap>, model: Option<FileContextModel>,
                        expansion: FileExpansion, k: nat): seq<Segment>
    requires k <= |hunks|
    decreases |hunks| - k
  {
    GapSegment(gaps, model, expansion, k)
    + if k == |hunks| then [] else [HunkBlock(k, hunks[k])] + SegmentsFrom(hunks, gaps, model, expansion, k + 1)
  }

  /** The gaps `segments` works with: the model's when it is this file's, else the file's own. */
  function ViewGaps(file: DiffFile, model: Option<FileContextModel>): seq<DiffGap> {
    if model.Some? && model.value.file == file then model.value.gaps else FileGaps(file, None)
  }

  function ViewModel(file: DiffFile, model: Option<FileContextModel>): Option<FileContextModel> {
    if model.Some? && model.value.file == file then model else None
  }

  function View(file: DiffFile, model: Option<FileContextModel>, expansion: FileExpansion): seq<Segment> {
    SegmentsFrom(file.hunks, ViewGaps(file, model), ViewModel(file, model), expansion, 0)
  }

  method Segments(file: DiffFile, model: Option<FileContextModel>, expansion: FileExpansion)
    returns (result: seq<Segment>)
    ensures result == View(file, model, expansion)
  {
    hide GapSegment, ViewGaps;
    var gaps, own := ViewGaps(file, model), ViewModel(file, model);
    var hunks := file.hunks;
    result := [];
    var k := 0;
    if gaps == [] {
      while k < |hunks|
        invariant k <= |hunks|
        invariant result + SegmentsFrom(hunks, gaps, own, expansion, k) == View(file, model, expansion)
      {
        NoGapSegment(own, expansion, k);
        assert [] + ([HunkBlock(k, hunks[k])] + SegmentsFrom(hunks, gaps, own, expansion, k + 1))
            == [HunkBlock(k, hunks[k])] + SegmentsFrom(hunks, gaps, own, expansion, k + 1);
        assert result + ([HunkBlock(k, hunks[k])] + SegmentsFrom(hunks, gaps, own, expansion, k + 1))
            == (result + [HunkBlock(k, hunks[k])]) + SegmentsFrom(hunks, gaps, own, expansion, k + 1);
        result := result + [HunkBlock(k, hunks[k])];
        k := k + 1;
      }
      NoGapSegment(own, expansion, k);
      assert result + ([] + []) == result;
      return;
    }
    while k < |hunks|
      invariant k <= |hunks|
      invariant result + SegmentsFrom(hunks, gaps, own, expansion, k) == View(file, model, expansion)
    {
      var here := GapSegment(gaps, own, expansion, k);
      assert result + (here + ([HunkBlock(k, hunks[k])] + SegmentsFrom(hunks, gaps, own, expansion, k + 1)))
          == (result + here + [HunkBlock(k, hunks[k])]) + SegmentsFrom(hunks, gaps, own, expansion, k + 1);
      result := result + here + [HunkBlock(k, hunks[k])];
      k := k + 1;
    }
    assert result + (GapSegment(gaps, own, expansion, k) + []) == result + GapSegment(gaps, own, expansion, k);
    result := result + GapSegment(gaps, own, expansion, k);
  }

  lemma NoGapSegment(model: Option<FileContextModel>, expansion: FileExpansion, k: nat)
    ensures GapSegment([], model, expansion, k) == []
  {}

  // ---------------------------------------------------------------- Checking the new side

  /** The last line before index `k` that is no marker. */
  function PreviousSource(lines: seq<DiffLine>, k: nat): Option<DiffLine>
    requires k <= |lines|
  {
    if k == 0 then None
    else if lines[k - 1].lineType.NoNewline? then PreviousSource(lines, k - 1)
    else Some(lines[k - 1])
  }

  /** The line stands in the file at its number, with the same content. */
  predicate AtItsNumber(line: DiffLine, text: FileText) {
    line.newNo.Some? && 1 <= line.newNo.value <= |text.lines| && text.lines[line.newNo.value - 1] == line.content
  }

  /** A marker behind this source line says the new file ends there without a newline. */
  predicate EndsHere(previous: Option<DiffLine>, text: FileText) {
    previous.Some? && previous.value.OnNewSide() ==>
      !text.endsWithNewline && previous.value.newNo == Some(|text.lines|)
  }

  predicate FollowedByMarker(lines: seq<DiffLine>, k: nat)
    requires k < |lines|
  {
    k + 1 < |lines| && lines[k + 1].lineType.NoNewline?
  }

  /** The hunk's new side is what the file holds, and its markers agree with how the file ends. */
  ghost predicate HunkAgrees(lines: seq<DiffLine>, text: FileText) {
    && (forall k :: 0 <= k < |lines| && lines[k].OnNewSide() ==> AtItsNumber(lines[k], text))
    && (forall k :: 0 <= k < |lines| && lines[k].lineType.NoNewline? ==> EndsHere(PreviousSource(lines, k), text))
    && (!text.endsWithNewline ==>
          forall k :: 0 <= k < |lines| && lines[k].OnNewSide() && lines[k].newNo == Some(|text.lines|) ==>
                      FollowedByMarker(lines, k))
  }

  ghost predicate Agrees(hunks: seq<DiffHunk>, text: FileText) {
    forall h :: 0 <= h < |hunks| ==> HunkAgrees(hunks[h].lines, text)
  }

  method CheckLines(lines: seq<DiffLine>, text: FileText) returns (ok: bool)
    ensures ok <==>
              && (forall k :: 0 <= k < |lines| && lines[k].OnNewSide() ==> AtItsNumber(lines[k], text))
              && (forall k :: 0 <= k < |lines| && lines[k].lineType.NoNewline? ==>
                              EndsHere(PreviousSource(lines, k), text))
  {
    var previous: Option<DiffLine> := None;
    var k := 0;
    while k < |lines|
      invariant k <= |lines|
      invariant previous == PreviousSource(lines, k)
      invariant forall i :: 0 <= i < k && lines[i].OnNewSide() ==> AtItsNumber(lines[i], text)
      invariant forall i :: 0 <= i < k && lines[i].lineType.NoNewline? ==> EndsHere(PreviousSource(lines, i), text)
    {
      var line := lines[k];
      if line.lineType.NoNewline? {
        if !EndsHere(previous, text) {
          return false;
        }
      } else {
        previous := Some(line);
        if line.OnNewSide() && !AtItsNumber(line, text) {
          return false;
        }
      }
      k := k + 1;
    }
    return true;
  }

  method CheckLastLine(lines: seq<DiffLine>, total: nat) returns (ok: bool)
    ensures ok <==> forall k :: 0 <= k < |lines| && lines[k].OnNewSide() && lines[k].newNo == Some(total)
                                ==> FollowedByMarker(lines, k)
  {
    var k := 0;
    while k < |lines|
      invariant k <= |lines|
      invariant forall i :: 0 <= i < k && lines[i].OnNewSide() && lines[i].newNo == Some(total)
                            ==> FollowedByMarker(lines, i)
    {
      if lines[k].OnNewSide() && lines[k].newNo == Some(total) && !FollowedByMarker(lines, k) {
        return false;
      }
      k := k + 1;
    }
    return true;
  }

  /** `verify_new_side` accepts exactly the files that agree with the hunks. */
  method VerifyNewSide(file: DiffFile, text: FileText) returns (ok: bool)
    ensures ok <==> Agrees(file.hunks, text)
  {
    hide AtItsNumber, EndsHere, FollowedByMarker;
    var h := 0;
    while h < |file.hunks|
      invariant h <= |file.hunks|
      invariant forall i :: 0 <= i < h ==>
                  var lines := file.hunks[i].lines;
                  && (forall k :: 0 <= k < |lines| && lines[k].OnNewSide() ==> AtItsNumber(lines[k], text))
                  && (forall k :: 0 <= k < |lines| && lines[k].lineType.NoNewline? ==>
                                  EndsHere(PreviousSource(lines, k), text))
    {
      var fine := CheckLines(file.hunks[h].lines, text);
      if !fine {
        assert !HunkAgrees(file.hunks[h].lines, text);
        return false;
      }
      h := h + 1;
    }
    if !text.endsWithNewline && |text.lines| > 0 {
      h := 0;
      while h < |file.hunks|
        invariant h <= |file.hunks|
        invariant forall i :: 0 <= i < h ==> HunkAgrees(file.hunks[i].lines, text)
      {
        var fine := CheckLastLine(file.hunks[h].lines, |text.lines|);
        if !fine {
          assert !HunkAgrees(file.hunks[h].lines, text);
          return false;
        }
        h := h + 1;
      }
    } else {
      NoLastLineShown(file.hunks, text);
    }
    return true;
  }

  /** With a final newline, or no lines at all, the last check has nothing to ask. */
  lemma NoLastLineShown(hunks: seq<DiffHunk>, text: FileText)
    requires text.endsWithNewline || |text.lines| == 0
    requires forall i :: 0 <= i < |hunks| ==>
               forall k :: 0 <= k < |hunks[i].lines| && hunks[i].lines[k].OnNewSide() ==>
                           AtItsNumber(hunks[i].lines[k], text)
    ensures !text.endsWithNewline ==>
              forall i :: 0 <= i < |hunks| ==>
                var lines := hunks[i].lines;
                forall k :: 0 <= k < |lines| && lines[k].OnNewSide() && lines[k].newNo == Some(|text.lines|) ==>
                            FollowedByMarker(lines, k)
  {}
}
