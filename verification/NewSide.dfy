/**
 What the new-side check decides: an accepted file is one the hunks lead to, from old lines that the hunks
 and the new file determine, and the view shows those lines without ever reading them. The check compares
 nothing on the old side, so `OldFileIsFile` says when those lines make a file.
 */
module Acceptance {
  import opened Options
  import opened DiffModels
  import opened Text
  import opened Paths
  import opened DiffParser
  import opened ParserLaws
  import opened Patches
  import opened Generate
  import opened Contexts
  import opened ContextLaws

  // ---------------------------------------------------------------- The new side of an accepted hunk

  /** Every line of the new side stands in the file, and carries a marker exactly where the file ends bare. */
  ghost predicate LinesFit(lines: seq<DiffLine>, text: FileText) {
    forall k :: 0 <= k < |lines| && lines[k].OnNewSide() ==>
      AtItsNumber(lines[k], text)
      && (FollowedByMarker(lines, k) <==> !text.endsWithNewline && lines[k].newNo == Some(|text.lines|))
  }

  lemma AgreeingLinesFit(lines: seq<DiffLine>, text: FileText)
    requires HunkAgrees(lines, text)
    ensures LinesFit(lines, text)
  {
    hide AtItsNumber;
    forall k | 0 <= k < |lines| && lines[k].OnNewSide() && FollowedByMarker(lines, k)
      ensures !text.endsWithNewline && lines[k].newNo == Some(|text.lines|)
    {
      assert PreviousSource(lines, k + 1) == Some(lines[k]);
      assert EndsHere(PreviousSource(lines, k + 1), text);
    }
  }

  /** These texts stand in the file from an index on. */
  ghost predicate StretchAt(part: seq<string>, at: int, texts: seq<string>) {
    part == [] || (0 <= at && at + |part| <= |texts| && texts[at..at + |part|] == part)
  }

  /** The new side of such lines is a stretch of the file, endings included. */
  lemma {:induction false} FittingText(lines: seq<DiffLine>, oldNo: int, newNo: int, text: FileText)
    requires Numbered(lines, oldNo, newNo) && LinesFit(lines, text)
    ensures StretchAt(SideText(lines, NewSide), newNo - 1, WithEndings(text))
  {
    hide AtItsNumber, LinesFit, WithEndings, SideText, Numbered;
    if lines == [] {
      NothingOnSide();
    } else {
      var o, n := oldNo + Step(lines[0].OnOldSide()), newNo + Step(lines[0].OnNewSide());
      NumberedStep(lines, oldNo, newNo);
      TailFits(lines, text);
      FittingText(lines[1..], o, n, text);
      SideStep(lines);
      if lines[0].OnNewSide() {
        FirstFits(lines, text, newNo);
        PrependFits(lines[0].content + (if MarkerFirst(lines[1..]) then "" else "\n"), SideText(lines[1..], NewSide),
                    newNo - 1, WithEndings(text));
      } else {
        assert [] + SideText(lines[1..], NewSide) == SideText(lines[1..], NewSide);
      }
    }
  }

  lemma NothingOnSide()
    ensures SideText([], NewSide) == []
  {}

  lemma NumberedStep(lines: seq<DiffLine>, oldNo: int, newNo: int)
    requires Numbered(lines, oldNo, newNo) && lines != []
    ensures Numbered(lines[1..], oldNo + Step(lines[0].OnOldSide()), newNo + Step(lines[0].OnNewSide()))
    ensures lines[0].OnNewSide() ==> lines[0].newNo == Some(newNo)
  {}

  lemma SideStep(lines: seq<DiffLine>)
    requires lines != []
    ensures SideText(lines, NewSide)
         == (if lines[0].OnNewSide() then [lines[0].content + if MarkerFirst(lines[1..]) then "" else "\n"] else [])
            + SideText(lines[1..], NewSide)
  {}

  lemma PrependFits(first: string, rest: seq<string>, at: int, texts: seq<string>)
    requires 0 <= at < |texts| && first == texts[at] && StretchAt(rest, at + 1, texts)
    ensures StretchAt([first] + rest, at, texts)
  {
    if rest == [] {
      assert [first] + rest == [first];
    } else {
      assert texts[at..at + 1 + |rest|] == [texts[at]] + texts[at + 1..at + 1 + |rest|];
    }
  }

  lemma TailFits(lines: seq<DiffLine>, text: FileText)
    requires LinesFit(lines, text) && lines != []
    ensures LinesFit(lines[1..], text)
  {
    hide AtItsNumber;
    forall k | 0 <= k < |lines[1..]| ensures FollowedByMarker(lines[1..], k) == FollowedByMarker(lines, k + 1) {}
  }

  lemma FirstFits(lines: seq<DiffLine>, text: FileText, newNo: int)
    requires LinesFit(lines, text) && lines != [] && lines[0].OnNewSide() && lines[0].newNo == Some(newNo)
    ensures 0 <= newNo - 1 < |text.lines|
    ensures lines[0].content + (if MarkerFirst(lines[1..]) then "" else "\n") == WithEndings(text)[newNo - 1]
  {
    assert AtItsNumber(lines[0], text);
    assert FollowedByMarker(lines, 0) == MarkerFirst(lines[1..]);
    assert lines[0].content + "" == lines[0].content;
  }

  /** An accepted hunk with a new side stands in the file where it says. */
  lemma AcceptedStands(h: DiffHunk, text: FileText)
    requires Complete(h) && HunkAgrees(h.lines, text) && h.newStart >= 0 && h.newCount >= 0
    requires FirstIndex(h.newStart, h.newCount) <= |text.lines|
    ensures StandsIn(h, text)
  {
    hide SideText, HunkAgrees, Numbered, WithEndings;
    AgreeingLinesFit(h.lines, text);
    FittingText(h.lines, h.oldStart, h.newStart, text);
    SideLengths(h.lines);
    var g, side := FirstIndex(h.newStart, h.newCount), SideText(h.lines, NewSide);
    assert h.newCount == 0 ==> WithEndings(text)[g..g] == side;
  }

  // ---------------------------------------------------------------- Undoing the hunks

  lemma ReversedFits(h: DiffHunk, text: FileText, i: nat, j: nat)
    requires Complete(h) && StandsIn(h, text)
    requires var f, g := FirstIndex(h.oldStart, h.oldCount), FirstIndex(h.newStart, h.newCount);
             j <= g && f - i == g - j
    ensures Fits(WithEndings(text), Swap(h), j, i)
  {
    hide SideText, WithEndings, Numbered;
    SwapSides(h.lines);
    SideLengths(h.lines);
  }

  lemma {:induction false} AcceptedReverses(text: FileText, hunks: seq<DiffHunk>, k: nat, i: nat, j: nat, count: nat)
    requires hunks != [] && k <= |hunks| && j <= |text.lines|
    requires AllComplete(hunks) && Agrees(hunks, text) && ShownEnd(hunks, |text.lines|) <= |text.lines|
    requires GapsFrom(hunks, k, i + 1, j + 1, count).Some?
    ensures ApplyFrom(WithEndings(text), SwapAll(hunks[k..]), j, i).Some?
    decreases |hunks| - k
  {
    hide SideText, WithEndings, Numbered, HunkAgrees, HasAfterGap, Fits, StandsIn, ApplyFrom, ShownEnd;
    if k == |hunks| {
      assert SwapAll(hunks[k..]) == [];
      NoMoreHunks(WithEndings(text), j, i);
    } else {
      var h := hunks[k];
      var f, g := FirstIndex(h.oldStart, h.oldCount), FirstIndex(h.newStart, h.newCount);
      WithinFile(hunks, k, i + 1, j + 1, count, text);
      AcceptedStands(h, text);
      ReversedFits(h, text, i, j);
      assert SwapAll(hunks[k..])[0] == Swap(h) && SwapAll(hunks[k..])[1..] == SwapAll(hunks[k + 1..]);
      var own := GapBefore(h, k, i + 1, j + 1, count).value;
      AcceptedReverses(text, hunks, k + 1, f + h.oldCount, g + h.newCount, count + |own|);
      FirstApplied(WithEndings(text), SwapAll(hunks[k..]), j, i);
    }
  }

  /** A hunk that fits leaves the outcome to those behind it. */
  lemma FirstApplied(file: seq<string>, hunks: seq<DiffHunk>, i: nat, j: nat)
    requires i <= |file| && hunks != [] && Fits(file, hunks[0], i, j)
    ensures var h := hunks[0];
            var f, g := FirstIndex(h.oldStart, h.oldCount), FirstIndex(h.newStart, h.newCount);
            && 0 <= f + h.oldCount <= |file| && 0 <= g + h.newCount
            && (ApplyFrom(file, hunks, i, j).Some? <==>
                  ApplyFrom(file, hunks[1..], f + h.oldCount, g + h.newCount).Some?)
  {
    hide SideText;
  }

  lemma SwapTwice(hunks: seq<DiffHunk>)
    ensures SwapAll(SwapAll(hunks)) == hunks
  {
    forall k | 0 <= k < |hunks| ensures Swap(Swap(hunks[k])) == hunks[k] {
      SwapLinesTwice(hunks[k].lines);
    }
  }

  lemma SwapLinesTwice(lines: seq<DiffLine>)
    ensures SwapLines(SwapLines(lines)) == lines
  {
    assert forall k :: 0 <= k < |lines| ==> SwapLine(SwapLine(lines[k])) == lines[k];
  }

  // ---------------------------------------------------------------- What acceptance means

  /** The lines of the old file the hunks come from, when there is one: what undoing them makes of the new file. */
  ghost function OldFile(hunks: seq<DiffHunk>, text: FileText): Option<seq<string>> {
    Apply(WithEndings(text), SwapAll(hunks))
  }

  /** Complete hunks with consistent gaps, accepted for a file the view does not end behind. */
  ghost predicate Accepted(hunks: seq<DiffHunk>, text: FileText) {
    StructuralGaps(hunks).Some? && Agrees(hunks, text) && ShownEnd(hunks, |text.lines|) <= |text.lines|
  }

  /** The hunks lead from one list of old lines at most to the new file, the one that undoing them gives. */
  lemma OldFileUnique(hunks: seq<DiffHunk>, text: FileText, before: seq<string>)
    ensures OldFile(hunks, text) == Some(before) <==> Apply(before, hunks) == Some(WithEndings(text))
  {
    hide Apply, SwapAll, WithEndings;
    SwapTwice(hunks);
    if Apply(before, hunks) == Some(WithEndings(text)) {
      ReverseUndoes(before, hunks, WithEndings(text));
    }
    if OldFile(hunks, text) == Some(before) {
      ReverseUndoes(WithEndings(text), SwapAll(hunks), before);
    }
  }

  lemma AcceptedHasOldFile(hunks: seq<DiffHunk>, text: FileText)
    requires hunks != [] && AllComplete(hunks) && Accepted(hunks, text)
    ensures OldFile(hunks, text).Some?
  {
    hide ShownEnd, Agrees, AllComplete, ApplyFrom;
    assert hunks[0..] == hunks;
    AcceptedReverses(text, hunks, 0, 0, 0, 0);
  }

  /**
   For complete hunks: the check, the gap test and the place of the last hunk together accept exactly the
   files the hunks lead to from some list of old lines.
   */
  lemma AcceptedIsPatched(hunks: seq<DiffHunk>, text: FileText)
    requires hunks != [] && AllComplete(hunks) && SingleLines(hunks) && NewlineFree(text.lines)
    ensures Accepted(hunks, text) <==> OldFile(hunks, text).Some?
    ensures OldFile(hunks, text).Some? ==> Apply(OldFile(hunks, text).value, hunks) == Some(WithEndings(text))
  {
    hide Apply, Agrees, StructuralGaps, ShownEnd, SwapAll, WithEndings, SingleLines, OldFile;
    if Accepted(hunks, text) {
      AcceptedHasOldFile(hunks, text);
    }
    if OldFile(hunks, text).Some? {
      var before := OldFile(hunks, text).value;
      OldFileUnique(hunks, text, before);
      PatchVerifies(before, text, hunks);
      PatchIsConsistent(before, hunks);
      PatchShownEnd(hunks, before, text);
    }
  }

  /**
   Old side of the view of an accepted file, although the old file is never read: there are old lines
   exactly when the view does not end behind the new file, and then the view shows them once each, in
   order, under their numbers, all of them exactly when the last hunk follows the convention.
   */
  lemma FullViewShowsOldFile(file: DiffFile, text: FileText)
    requires IsExpandable(file) && AllComplete(file.hunks) && SingleLines(file.hunks)
    requires NewlineFree(text.lines) && Agrees(file.hunks, text)
    ensures OldFile(file.hunks, text).Some? <==> ShownEnd(file.hunks, |text.lines|) <= |text.lines|
    ensures OldFile(file.hunks, text).Some? ==>
              var before := OldFile(file.hunks, text).value;
              var end := OldShownEnd(file.hunks, before, text);
              && 0 <= end <= |before|
              && Reading(ShownLines(FullView(file, text)), OldSide) == Numbering(Chomps(before), 0, end)
              && (Reading(ShownLines(FullView(file, text)), OldSide) == WholeFile(Chomps(before))
                  <==> ReachesEnd(file.hunks, |text.lines|))
  {
    hide Apply, Agrees, StructuralGaps, ShownEnd, OldShownEnd, OldFile, SingleLines, AllComplete, FullView, Reading,
      ShownLines, WholeFile, ReachesEnd, Numbering, WithEndings;
    AcceptedIsPatched(file.hunks, text);
    if OldFile(file.hunks, text).Some? {
      PatchViewShowsOldFile(file, OldFile(file.hunks, text).value, text);
    }
  }

  // ---------------------------------------------------------------- When the old file is one

  ghost predicate IsFile(lines: seq<string>) {
    exists file: FileText :: NewlineFree(file.lines) && WithEndings(file) == lines
  }

  /** Only the last line may lack its newline. */
  ghost predicate BareAtEnd(lines: seq<string>) {
    forall k :: 0 <= k < |lines| - 1 ==> Ended(lines[k])
  }

  ghost predicate AllFileLines(lines: seq<string>) {
    forall k :: 0 <= k < |lines| ==> FileLine(lines[k])
  }

  /** An old line with a marker behind it is the old line of this number. */
  ghost predicate MarkersAt(lines: seq<DiffLine>, total: int) {
    forall k :: 0 <= k < |lines| && lines[k].OnOldSide() && FollowedByMarker(lines, k) ==>
      lines[k].oldNo == Some(total)
  }

  ghost predicate OldMarkersFit(hunks: seq<DiffHunk>, total: int) {
    forall k :: 0 <= k < |hunks| ==> MarkersAt(hunks[k].lines, total)
  }

  /** Some hunk shows this new line. */
  predicate Shown(hunks: seq<DiffHunk>, newNo: int) {
    exists k :: 0 <= k < |hunks| && hunks[k].newStart <= newNo < hunks[k].newStart + hunks[k].newCount
  }

  /** Some hunk has old lines, all of them behind this new line. */
  predicate OldLinesBehind(hunks: seq<DiffHunk>, newNo: int) {
    exists k :: 0 <= k < |hunks| && hunks[k].oldCount > 0 && FirstIndex(hunks[k].newStart, hunks[k].newCount) >= newNo
  }

  /** The file's last line, from index `j` on, has no newline, no hunk shows it, and old lines follow it. */
  predicate BareLineCovered(hunks: seq<DiffHunk>, text: FileText, j: nat) {
    !text.endsWithNewline && j < |text.lines| && !Shown(hunks, |text.lines|) && OldLinesBehind(hunks, |text.lines|)
  }

  lemma FileIsBareAtEnd(lines: seq<string>)
    ensures IsFile(lines) <==> AllFileLines(lines) && BareAtEnd(lines)
  {
    if AllFileLines(lines) && BareAtEnd(lines) {
      var file := FileText(Chomps(lines), lines != [] && Ended(lines[|lines| - 1]));
      forall k | 0 <= k < |lines| ensures WithEndings(file)[k] == lines[k] {
        assert Ended(lines[k]) ==> Chomp(lines[k]) + "\n" == lines[k];
      }
      assert NewlineFree(file.lines);
    }
    if IsFile(lines) {
      var file: FileText :| NewlineFree(file.lines) && WithEndings(file) == lines;
      ChompsOfFile(file);
    }
  }

  lemma BareJoin(x: seq<string>, y: seq<string>)
    ensures BareAtEnd(x + y) <==> if y == [] then BareAtEnd(x) else AllEnded(x) && BareAtEnd(y)
    ensures AllFileLines(x + y) <==> AllFileLines(x) && AllFileLines(y)
  {
    hide Ended, FileLine;
    assert forall k :: 0 <= k < |y| ==> (x + y)[|x| + k] == y[k];
    assert forall k :: 0 <= k < |x| ==> (x + y)[k] == x[k];
    assert y == [] ==> x + y == x;
  }

  /** Counted from `no`, only line `total` may be bare. */
  ghost predicate BareOnly(texts: seq<string>, no: int, total: int) {
    forall m :: 0 <= m < |texts| && !Ended(texts[m]) ==> no + m == total
  }

  lemma BareOnlyStep(first: string, rest: seq<string>, no: int, total: int)
    ensures BareOnly([first] + rest, no, total) <==> (Ended(first) || no == total) && BareOnly(rest, no + 1, total)
  {
    hide Ended;
    var texts := [first] + rest;
    assert forall m :: 0 <= m < |rest| ==> texts[m + 1] == rest[m];
    assert texts[0] == first;
  }

  /** The markers of a hunk's old side say which of its lines are bare. */
  lemma {:induction false} MarkedAreBare(lines: seq<DiffLine>, oldNo: int, newNo: int, total: int)
    requires Numbered(lines, oldNo, newNo) && forall k :: 0 <= k < |lines| ==> '\n' !in lines[k].content
    ensures AllFileLines(SideText(lines, OldSide))
    ensures MarkersAt(lines, total) <==> BareOnly(SideText(lines, OldSide), oldNo, total)
  {
    hide Ended, FileLine, MarkersAt, BareOnly, MarkerFirst;
    if lines == [] {
      NoMarkers(oldNo, total);
    } else {
      var rest := SideText(lines[1..], OldSide);
      var text := lines[0].content + if MarkerFirst(lines[1..]) then "" else "\n";
      MarkedAreBare(lines[1..], oldNo + Step(lines[0].OnOldSide()), newNo + Step(lines[0].OnNewSide()), total);
      MarkersStep(lines, total);
      LineEnds(lines[0].content, MarkerFirst(lines[1..]));
      BareOnlyStep(text, rest, oldNo, total);
      assert [] + rest == rest;
    }
  }

  lemma NoMarkers(no: int, total: int)
    ensures MarkersAt([], total) && BareOnly([], no, total)
  {}

  lemma LineEnds(content: string, bare: bool)
    requires '\n' !in content
    ensures var text := content + if bare then "" else "\n"; FileLine(text) && (Ended(text) <==> !bare)
  {
    var text := content + if bare then "" else "\n";
    assert !bare ==> text[..|text| - 1] == content;
    assert bare ==> text == content;
  }

  lemma MarkersStep(lines: seq<DiffLine>, total: int)
    requires lines != []
    ensures MarkersAt(lines, total)
       <==> MarkersAt(lines[1..], total)
            && (lines[0].OnOldSide() && MarkerFirst(lines[1..]) ==> lines[0].oldNo == Some(total))
  {
    assert FollowedByMarker(lines, 0) == MarkerFirst(lines[1..]);
    forall k | 0 <= k < |lines[1..]|
      ensures FollowedByMarker(lines[1..], k) == FollowedByMarker(lines, k + 1) && lines[1..][k] == lines[k + 1]
    {}
    assert forall k :: 1 <= k < |lines| ==> lines[k] == lines[1..][k - 1];
  }

  /** Where a stretch of the new file is bare. */
  lemma StretchEnds(text: FileText, j: nat, g: nat)
    requires j <= g <= |text.lines| && NewlineFree(text.lines)
    ensures AllFileLines(WithEndings(text)[j..g]) && BareAtEnd(WithEndings(text)[j..g])
    ensures AllEnded(WithEndings(text)[j..g]) <==> text.endsWithNewline || j == g || g < |text.lines|
  {
    hide Ended, FileLine;
    forall k | 0 <= k < |text.lines|
      ensures FileLine(WithEndings(text)[k])
      ensures Ended(WithEndings(text)[k]) <==> text.endsWithNewline || k < |text.lines| - 1
    {
      LineEnds(text.lines[k], k == |text.lines| - 1 && !text.endsWithNewline);
      assert text.lines[k] + "" == text.lines[k];
    }
    var part := WithEndings(text)[j..g];
    assert forall k :: 0 <= k < |part| ==> part[k] == WithEndings(text)[j + k];
    if j < g {
      assert part[|part| - 1] == WithEndings(text)[g - 1];
    }
  }

  /** The old part of hunks whose new side is used up: their deleted lines, and nothing else. */
  lemma {:induction false} AtFileEnd(text: FileText, hunks: seq<DiffHunk>, i: nat)
    requires AllComplete(hunks) && ApplyFrom(WithEndings(text), SwapAll(hunks), |text.lines|, i).Some?
    ensures ApplyFrom(WithEndings(text), SwapAll(hunks), |text.lines|, i).value != []
       <==> OldLinesBehind(hunks, |text.lines|)
    ensures !Shown(hunks, |text.lines|)
  {
    hide SideText, WithEndings, Numbered, ApplyFrom, SwapAll, AllComplete, OldLinesBehind, Shown;
    var j := |text.lines|;
    if hunks == [] {
      NothingAtEnd(text, i);
    } else {
      var h := hunks[0];
      HunkUndone(text, hunks, j, i);
      AtFileEnd(text, hunks[1..], FirstIndex(h.oldStart, h.oldCount) + h.oldCount);
      BehindStep(hunks, j);
      ShownStep(hunks, j);
    }
  }

  lemma NothingAtEnd(text: FileText, i: nat)
    ensures ApplyFrom(WithEndings(text), SwapAll([]), |text.lines|, i) == Some([])
    ensures !OldLinesBehind([], |text.lines|) && !Shown([], |text.lines|)
  {
    hide WithEndings;
    assert SwapAll([]) == [] && WithEndings(text)[|text.lines|..] == [];
  }

  /** Undoing the first hunk: the unchanged lines before it, its old side, and what the others give. */
  lemma HunkUndone(text: FileText, hunks: seq<DiffHunk>, j: nat, i: nat)
    requires hunks != [] && AllComplete(hunks) && j <= |text.lines|
    requires ApplyFrom(WithEndings(text), SwapAll(hunks), j, i).Some?
    ensures var h, part := hunks[0], ApplyFrom(WithEndings(text), SwapAll(hunks), j, i).value;
            var f, g := FirstIndex(h.oldStart, h.oldCount), FirstIndex(h.newStart, h.newCount);
            && j <= g <= g + h.newCount <= |text.lines| && f - i == g - j
            && h.newCount >= 0 && |SideText(h.lines, OldSide)| == h.oldCount
            && Complete(h) && AllComplete(hunks[1..])
            && var rest := ApplyFrom(WithEndings(text), SwapAll(hunks[1..]), g + h.newCount, f + h.oldCount);
               rest.Some? && part == WithEndings(text)[j..g] + (SideText(h.lines, OldSide) + rest.value)
  {
    hide SideText, WithEndings, Numbered, SwapLines, OldLength, NewLength;
    var h := hunks[0];
    assert AllComplete(hunks[1..]) && Complete(h);
    assert SwapAll(hunks)[0] == Swap(h) && SwapAll(hunks)[1..] == SwapAll(hunks[1..]);
    SwapSides(h.lines);
    SideLengths(h.lines);
    var g := FirstIndex(h.newStart, h.newCount);
    var rest := ApplyFrom(WithEndings(text), SwapAll(hunks[1..]), g + h.newCount,
                          FirstIndex(h.oldStart, h.oldCount) + h.oldCount);
    Reassociate(WithEndings(text)[j..g], SideText(h.lines, OldSide), rest.value);
  }

  lemma BehindStep(hunks: seq<DiffHunk>, newNo: int)
    requires hunks != []
    ensures OldLinesBehind(hunks, newNo)
       <==> (hunks[0].oldCount > 0 && FirstIndex(hunks[0].newStart, hunks[0].newCount) >= newNo)
            || OldLinesBehind(hunks[1..], newNo)
  {
    assert forall k :: 1 <= k < |hunks| ==> hunks[k] == hunks[1..][k - 1];
    assert forall k :: 0 <= k < |hunks[1..]| ==> hunks[1..][k] == hunks[k + 1];
  }

  lemma ShownStep(hunks: seq<DiffHunk>, newNo: int)
    requires hunks != []
    ensures Shown(hunks, newNo)
       <==> hunks[0].newStart <= newNo < hunks[0].newStart + hunks[0].newCount || Shown(hunks[1..], newNo)
  {
    assert forall k :: 1 <= k < |hunks| ==> hunks[k] == hunks[1..][k - 1];
    assert forall k :: 0 <= k < |hunks[1..]| ==> hunks[1..][k] == hunks[k + 1];
  }

  lemma MarkersFitStep(hunks: seq<DiffHunk>, total: int)
    requires hunks != []
    ensures OldMarkersFit(hunks, total) <==> MarkersAt(hunks[0].lines, total) && OldMarkersFit(hunks[1..], total)
  {
    hide MarkersAt;
    assert forall k :: 1 <= k < |hunks| ==> hunks[k] == hunks[1..][k - 1];
    assert forall k :: 0 <= k < |hunks[1..]| ==> hunks[1..][k] == hunks[k + 1];
  }

  /** Counted up to the last line, only that one may be bare. */
  lemma BareOnlyAtEnd(texts: seq<string>, behind: nat, no: int, total: int)
    requires texts != [] ==> total == no + |texts| - 1 + behind
    ensures BareOnly(texts, no, total) <==> if behind == 0 then BareAtEnd(texts) else AllEnded(texts)
  {
    hide Ended;
  }

  lemma {:induction false} OldPartIsFile(text: FileText, hunks: seq<DiffHunk>, j: nat, i: nat, total: int)
    requires AllComplete(hunks) && SingleLines(hunks) && NewlineFree(text.lines) && j <= |text.lines|
    requires ApplyFrom(WithEndings(text), SwapAll(hunks), j, i).Some?
    requires total == i + |ApplyFrom(WithEndings(text), SwapAll(hunks), j, i).value|
    ensures var part := ApplyFrom(WithEndings(text), SwapAll(hunks), j, i).value;
            && AllFileLines(part)
            && (BareAtEnd(part) <==> OldMarkersFit(hunks, total) && !BareLineCovered(hunks, text, j))
  {
    hide SideText, WithEndings, Numbered, Ended, FileLine, ApplyFrom, OldMarkersFit, MarkersAt, BareLineCovered,
      BareOnly, AllEnded, BareAtEnd, AllFileLines;
    if hunks == [] {
      NothingUndone(text, j, i, total);
    } else {
      var h := hunks[0];
      var f, g := FirstIndex(h.oldStart, h.oldCount), FirstIndex(h.newStart, h.newCount);
      HunkUndone(text, hunks, j, i);
      var rest := ApplyFrom(WithEndings(text), SwapAll(hunks[1..]), g + h.newCount, f + h.oldCount).value;
      var old_ := SideText(h.lines, OldSide);
      assert SingleLines(hunks[1..]);
      OldPartIsFile(text, hunks[1..], g + h.newCount, f + h.oldCount, total);
      StretchEnds(text, j, g);
      MarkedAreBare(h.lines, h.oldStart, h.newStart, total);
      BareOnlyAtEnd(old_, |rest|, h.oldStart, total);
      BareJoin(old_, rest);
      BareJoin(WithEndings(text)[j..g], old_ + rest);
      MarkersFitStep(hunks, total);
      CoveredStep(text, hunks, j, i);
      NothingBare();
    }
  }

  lemma NothingBare()
    ensures BareAtEnd([]) && AllEnded([])
  {}

  lemma NothingUndone(text: FileText, j: nat, i: nat, total: int)
    requires NewlineFree(text.lines) && j <= |text.lines|
    ensures ApplyFrom(WithEndings(text), SwapAll([]), j, i) == Some(WithEndings(text)[j..])
    ensures AllFileLines(WithEndings(text)[j..]) && BareAtEnd(WithEndings(text)[j..])
    ensures OldMarkersFit([], total) && !BareLineCovered([], text, j)
  {
    hide WithEndings;
    assert SwapAll([]) == [];
    StretchEnds(text, j, |text.lines|);
    assert WithEndings(text)[j..|text.lines|] == WithEndings(text)[j..];
  }

  /** A bare last line is covered by the first hunk, or by the others, and by none once a hunk shows it. */
  lemma CoveredStep(text: FileText, hunks: seq<DiffHunk>, j: nat, i: nat)
    requires hunks != [] && AllComplete(hunks) && j <= |text.lines|
    requires ApplyFrom(WithEndings(text), SwapAll(hunks), j, i).Some?
    ensures var h := hunks[0];
            var f, g := FirstIndex(h.oldStart, h.oldCount), FirstIndex(h.newStart, h.newCount);
            && 0 <= g + h.newCount <= |text.lines| && 0 <= f + h.oldCount
            && var rest := ApplyFrom(WithEndings(text), SwapAll(hunks[1..]), g + h.newCount, f + h.oldCount);
               rest.Some?
               && (BareLineCovered(hunks, text, j)
                   <==> if !text.endsWithNewline && j < g == |text.lines|
                        then SideText(h.lines, OldSide) + rest.value != []
                        else BareLineCovered(hunks[1..], text, g + h.newCount))
  {
    hide SideText, WithEndings, Numbered, ApplyFrom, Shown, OldLinesBehind;
    var h := hunks[0];
    var f, g := FirstIndex(h.oldStart, h.oldCount), FirstIndex(h.newStart, h.newCount);
    HunkUndone(text, hunks, j, i);
    BehindStep(hunks, |text.lines|);
    ShownStep(hunks, |text.lines|);
    if g + h.newCount == |text.lines| {
      AtFileEnd(text, hunks[1..], f + h.oldCount);
    }
  }

  /** The number of old lines, as the hunks and the new file give it. */
  function OldTotal(hunks: seq<DiffHunk>, text: FileText): int {
    |text.lines| + Tally(hunks, Deletion) - Tally(hunks, Addition)
  }

  /**
   The check never looks at the markers of the old side. The old file the hunks lead from is a file, bare
   in its last line at most, exactly when old lines with a marker are its last, and when the new file's
   bare last line, if no hunk shows it, has no old lines behind it.
   */
  lemma OldFileIsFile(hunks: seq<DiffHunk>, text: FileText)
    requires AllComplete(hunks) && SingleLines(hunks) && NewlineFree(text.lines) && OldFile(hunks, text).Some?
    ensures |OldFile(hunks, text).value| == OldTotal(hunks, text)
    ensures IsFile(OldFile(hunks, text).value)
       <==> OldMarkersFit(hunks, OldTotal(hunks, text)) && !BareLineCovered(hunks, text, 0)
  {
    hide ApplyFrom, SwapAll, WithEndings, SingleLines, AllComplete, Tally, IsFile, OldMarkersFit, BareLineCovered,
      AllFileLines, BareAtEnd;
    var before := OldFile(hunks, text).value;
    OldFileUnique(hunks, text, before);
    LengthChange(before, hunks, WithEndings(text));
    OldPartIsFile(text, hunks, 0, 0, OldTotal(hunks, text));
    FileIsBareAtEnd(before);
  }

  const MARKED_HUNK := DiffHunk("@@ -1,2 +1 @@", 1, 2, 1, 1,
                                [DiffLine(Some(1), None, "x", Deletion),
                                 MARKER_LINE,
                                 DiffLine(Some(2), Some(1), "c", Context)], "")

  /** A hunk whose first old line is marked as the last one is accepted; it leads from no file. */
  lemma MisplacedMarkerAccepted()
    ensures var hunks, text := [MARKED_HUNK], FileText(["c"], true);
            && AllComplete(hunks) && Accepted(hunks, text)
            && OldFile(hunks, text) == Some(["x", "c\n"]) && !IsFile(["x", "c\n"])
  {
    hide Accepted, OldFile, Apply, Complete, SingleLines;
    var hunks, text := [MARKED_HUNK], FileText(["c"], true);
    MarkedHunkApplies(text);
    MarkedHunkPlain();
    OldFileUnique(hunks, text, ["x", "c\n"]);
    AcceptedIsPatched(hunks, text);
    FileIsBareAtEnd(["x", "c\n"]);
    assert !Ended(["x", "c\n"][0]);
  }

  lemma MarkedHunkApplies(text: FileText)
    requires text == FileText(["c"], true)
    ensures Apply(["x", "c\n"], [MARKED_HUNK]) == Some(WithEndings(text))
    ensures Complete(MARKED_HUNK)
  {
    hide SideText, OldLength, NewLength, Numbered, Apply, CountType;
    MarkedHunkSides();
    SideLengths(MARKED_HUNK.lines);
    assert |["x", "c\n"]| == 2 && |["c\n"]| == 1;
    WholeHunkApplies(MARKED_HUNK);
    assert "c" + "\n" == "c\n" && WithEndings(text) == ["c\n"];
  }

  lemma MarkedHunkPlain()
    ensures SingleLines([MARKED_HUNK])
  {
    hide Numbered, SideText;
    NoNewlineInMarker();
  }

  lemma NoNewlineInMarker()
    ensures '\n' !in NO_NEWLINE_MARKER
  {}

  lemma MarkedHunkSides()
    ensures SideText(MARKED_HUNK.lines, OldSide) == ["x", "c\n"]
    ensures SideText(MARKED_HUNK.lines, NewSide) == ["c\n"]
    ensures Numbered(MARKED_HUNK.lines, 1, 1)
  {
    var lines := MARKED_HUNK.lines;
    assert lines == [lines[0], lines[1], lines[2]];
    assert lines[1..] == [lines[1], lines[2]] && [lines[1], lines[2]][1..] == [lines[2]] && [lines[2]][1..] == [];
    assert "c" + "\n" == "c\n" && "x" + "" == "x";
    assert SideText([], OldSide) == [] == SideText([], NewSide);
    assert SideText([lines[2]], OldSide) == ["c\n"] == SideText([lines[2]], NewSide);
    assert SideText([lines[1], lines[2]], OldSide) == ["c\n"] == SideText([lines[1], lines[2]], NewSide);
    assert Numbered([lines[2]], 2, 1) && Numbered([lines[1], lines[2]], 2, 1);
  }

  /** A hunk that shows both files whole. */
  lemma WholeHunkApplies(h: DiffHunk)
    requires h.oldStart == h.newStart == 1 && 0 < h.oldCount && 0 < h.newCount
    requires |SideText(h.lines, OldSide)| == h.oldCount && |SideText(h.lines, NewSide)| == h.newCount
    ensures Apply(SideText(h.lines, OldSide), [h]) == Some(SideText(h.lines, NewSide))
  {
    hide SideText;
    var before, after := SideText(h.lines, OldSide), SideText(h.lines, NewSide);
    assert before[0..|before|] == before && before[|before|..] == [];
    assert Fits(before, h, 0, 0);
    assert [h][1..] == [] && before[0..0] + after + [] == after;
    assert ApplyFrom(before, [], h.oldCount, h.newCount) == Some([]);
  }
}
