/** The whole-file view rebuilds both versions of a file from its hunks and its new version. */
module ContextLaws {
  import opened Options
  import opened DiffModels
  import opened Text
  import opened Paths
  import opened DiffParser
  import opened ParserLaws
  import opened Patches
  import opened Generate
  import opened Contexts

  // ---------------------------------------------------------------- Reading a side of the view

  function NumberOn(line: DiffLine, side: Side): Option<int> {
    if side.OldSide? then line.oldNo else line.newNo
  }

  function ReadOne(line: DiffLine, side: Side): seq<(int, string)> {
    if NumberOn(line, side).Some? then [(NumberOn(line, side).value, line.content)] else []
  }

  /** What a reader sees on one side: the line numbers and contents, in order. */
  function Reading(lines: seq<DiffLine>, side: Side): seq<(int, string)> {
    if lines == [] then [] else ReadOne(lines[0], side) + Reading(lines[1..], side)
  }

  function SegmentLines(segment: Segment): seq<DiffLine> {
    match segment
    case HunkBlock(_, hunk) => hunk.lines
    case GapRow(_) => []
    case ExpandedBlock(_, lines) => lines
  }

  function ShownLines(segments: seq<Segment>): seq<DiffLine> {
    if segments == [] then [] else SegmentLines(segments[0]) + ShownLines(segments[1..])
  }

  /** `count` lines of a file from index `at` on, numbered from one. */
  function Numbering(lines: seq<string>, at: int, count: int): seq<(int, string)>
    requires 0 <= count && (count > 0 ==> 0 <= at && at + count <= |lines|)
  {
    seq(count, k requires 0 <= k < count => (at + k + 1, lines[at + k]))
  }

  function WholeFile(lines: seq<string>): seq<(int, string)> {
    Numbering(lines, 0, |lines|)
  }

  lemma {:induction false} ReadingAppend(x: seq<DiffLine>, y: seq<DiffLine>, side: Side)
    ensures Reading(x + y, side) == Reading(x, side) + Reading(y, side)
  {
    hide ReadOne;
    if x == [] {
      assert x + y == y;
    } else {
      ReadingAppend(x[1..], y, side);
      assert (x + y)[1..] == x[1..] + y;
      Reassociate(ReadOne(x[0], side), Reading(x[1..], side), Reading(y, side));
    }
  }

  lemma {:induction false} ShownAppend(x: seq<Segment>, y: seq<Segment>)
    ensures ShownLines(x + y) == ShownLines(x) + ShownLines(y)
  {
    hide SegmentLines;
    if x == [] {
      assert x + y == y;
    } else {
      ShownAppend(x[1..], y);
      assert (x + y)[1..] == x[1..] + y;
      Reassociate(SegmentLines(x[0]), ShownLines(x[1..]), ShownLines(y));
    }
  }

  /** The lines of a file without their endings. */
  function Chomps(texts: seq<string>): (r: seq<string>)
    ensures |r| == |texts|
  {
    seq(|texts|, k requires 0 <= k < |texts| => Chomp(texts[k]))
  }

  lemma ChompsOfFile(file: FileText)
    requires NewlineFree(file.lines)
    ensures Chomps(WithEndings(file)) == file.lines
  {
    forall k | 0 <= k < |file.lines| ensures Chomp(WithEndings(file)[k]) == file.lines[k] {
      LastNewline(file, k);
    }
  }

  function Within(n: int, total: nat): int { if n < total then n else total }

  /** The lines of a file between two indices, as many of them as there are. */
  function Clipped(lines: seq<string>, i: int, j: int): seq<(int, string)>
    requires 0 <= i <= j
  {
    Numbering(lines, Within(i, |lines|), Within(j, |lines|) - Within(i, |lines|))
  }

  lemma ClippedJoin(lines: seq<string>, i: int, j: int, k: int)
    requires 0 <= i <= j <= k
    ensures Clipped(lines, i, j) + Clipped(lines, j, k) == Clipped(lines, i, k)
  {}

  // ---------------------------------------------------------------- One hunk on one side

  /** Where the line at index `q` of a hunk stands on the new side. */
  lemma {:induction false} LineOnNewSide(lines: seq<DiffLine>, q: nat, oldNo: int, newNo: int)
    requires Numbered(lines, oldNo, newNo) && q < |lines| && lines[q].OnNewSide()
    ensures var at := NewLength(lines[..q]);
            && at < |SideText(lines, NewSide)|
            && lines[q].newNo == Some(newNo + at)
            && SideText(lines, NewSide)[at] == lines[q].content + if FollowedByMarker(lines, q) then "" else "\n"
  {
    if q == 0 {
      assert lines[..0] == [];
    } else {
      var o, n := oldNo + Step(lines[0].OnOldSide()), newNo + Step(lines[0].OnNewSide());
      LineOnNewSide(lines[1..], q - 1, o, n);
      assert lines[..q][1..] == lines[1..][..q - 1];
    }
  }

  /** The source line a marker belongs to is followed by a marker. */
  lemma {:induction false} PreviousIsFollowed(lines: seq<DiffLine>, k: nat)
    requires k < |lines| && lines[k].lineType.NoNewline? && PreviousSource(lines, k).Some?
    ensures exists q :: 0 <= q < k && lines[q] == PreviousSource(lines, k).value && FollowedByMarker(lines, q)
  {
    if lines[k - 1].lineType.NoNewline? {
      PreviousIsFollowed(lines, k - 1);
    } else {
      assert FollowedByMarker(lines, k - 1);
    }
  }

  /** The hunk's new side is this part of the file, endings included. */
  ghost predicate StandsIn(h: DiffHunk, text: FileText) {
    var g := FirstIndex(h.newStart, h.newCount);
    && |SideText(h.lines, NewSide)| == h.newCount && 0 <= g && g + h.newCount <= |text.lines|
    && WithEndings(text)[g..g + h.newCount] == SideText(h.lines, NewSide)
  }

  lemma LineAgrees(h: DiffHunk, text: FileText, q: nat)
    requires Complete(h) && StandsIn(h, text) && NewlineFree(text.lines)
    requires q < |h.lines| && h.lines[q].OnNewSide() && '\n' !in h.lines[q].content
    ensures AtItsNumber(h.lines[q], text)
    ensures FollowedByMarker(h.lines, q) <==> !text.endsWithNewline && h.lines[q].newNo == Some(|text.lines|)
  {
    hide SideText, FollowedByMarker, Numbered, WithEndings, Chomp, Ended;
    LineOnNewSide(h.lines, q, h.oldStart, h.newStart);
    var at := NewLength(h.lines[..q]);
    var g := h.newStart - 1;
    var ended := WithEndings(text)[g + at];
    assert ended == WithEndings(text)[g..g + h.newCount][at];
    LastNewline(text, g + at);
    ChompEnded(h.lines[q].content, FollowedByMarker(h.lines, q));
  }

  lemma ChompEnded(content: string, bare: bool)
    requires '\n' !in content
    ensures var text := content + if bare then "" else "\n";
            Chomp(text) == content && (Ended(text) <==> !bare)
  {
    assert (content + "\n")[..|content|] == content && content + "" == content;
    assert !Ended(content);
  }

  lemma StandingAgrees(h: DiffHunk, text: FileText)
    requires Complete(h) && StandsIn(h, text) && NewlineFree(text.lines)
    requires forall q :: 0 <= q < |h.lines| ==> '\n' !in h.lines[q].content
    ensures HunkAgrees(h.lines, text)
  {
    hide Complete, StandsIn, AtItsNumber, FollowedByMarker;
    var lines := h.lines;
    forall q | 0 <= q < |lines| && lines[q].OnNewSide()
      ensures AtItsNumber(lines[q], text)
           && (FollowedByMarker(lines, q) <==> !text.endsWithNewline && lines[q].newNo == Some(|text.lines|))
    {
      LineAgrees(h, text, q);
    }
    forall k | 0 <= k < |lines| && lines[k].lineType.NoNewline? ensures EndsHere(PreviousSource(lines, k), text) {
      if PreviousSource(lines, k).Some? {
        PreviousIsFollowed(lines, k);
      }
    }
  }

  /** A patch's hunks all stand in its result. */
  lemma {:induction false} PatchAgreesFrom(file: seq<string>, hunks: seq<DiffHunk>, i: nat, j: nat, text: FileText)
    requires i <= |file| && j <= |text.lines| && NewlineFree(text.lines)
    requires ApplyFrom(file, hunks, i, j) == Some(WithEndings(text)[j..])
    requires (forall k :: 0 <= k < |hunks| ==> Complete(hunks[k])) && SingleLines(hunks)
    ensures Agrees(hunks, text)
  {
    hide SideText, Complete, ApplyFrom, HunkAgrees, WithEndings;
    if hunks != [] {
      var h := hunks[0];
      var g := FirstIndex(h.newStart, h.newCount);
      FitsReversed(file, hunks, i, j, WithEndings(text));
      SwapSides(h.lines);
      assert StandsIn(h, text);
      StandingAgrees(h, text);
      PatchAgreesFrom(file, hunks[1..], FirstIndex(h.oldStart, h.oldCount) + h.oldCount, g + h.newCount, text);
      assert forall k :: 1 <= k < |hunks| ==> hunks[k] == hunks[1..][k - 1];
    }
  }

  /** The new-side check accepts the file that the hunks lead to. */
  lemma PatchVerifies(before: seq<string>, after: FileText, hunks: seq<DiffHunk>)
    requires NewlineFree(after.lines) && SingleLines(hunks)
    requires forall k :: 0 <= k < |hunks| ==> Complete(hunks[k])
    requires Apply(before, hunks) == Some(WithEndings(after))
    ensures Agrees(hunks, after)
  {
    assert WithEndings(after)[0..] == WithEndings(after);
    PatchAgreesFrom(before, hunks, 0, 0, after);
  }

  // ---------------------------------------------------------------- Gaps of consistent hunks

  lemma {:induction false} PatchGapsFrom(file: seq<string>, hunks: seq<DiffHunk>, k: nat, i: nat, j: nat, count: nat)
    requires hunks != [] && k <= |hunks| && i <= |file|
    requires ApplyFrom(file, hunks[k..], i, j).Some?
    ensures GapsFrom(hunks, k, i + 1, j + 1, count).Some?
    decreases |hunks| - k
  {
    hide SideText, HasAfterGap;
    if k < |hunks| {
      var h := hunks[k];
      assert hunks[k..][1..] == hunks[k + 1..];
      var f, g := FirstIndex(h.oldStart, h.oldCount), FirstIndex(h.newStart, h.newCount);
      assert Fits(file, h, i, j);
      assert FirstLine(h.oldStart, h.oldCount) == f + 1 && NextLine(h.oldStart, h.oldCount) == f + h.oldCount + 1;
      assert FirstLine(h.newStart, h.newCount) == g + 1 && NextLine(h.newStart, h.newCount) == g + h.newCount + 1;
      var own := GapBefore(h, k, i + 1, j + 1, count);
      PatchGapsFrom(file, hunks, k + 1, f + h.oldCount, g + h.newCount, count + |own.value|);
    }
  }

  /** Hunks that apply to some file have consistent gaps. */
  lemma PatchIsConsistent(file: seq<string>, hunks: seq<DiffHunk>)
    requires hunks != [] && Apply(file, hunks).Some?
    ensures StructuralGaps(hunks).Some?
  {
    assert hunks[0..] == hunks;
    PatchGapsFrom(file, hunks, 0, 0, 0, 0);
  }

  /** Gaps are numbered by their position, in hunk order, and only the last can be the After gap. */
  lemma {:induction false} GapsOrdered(hunks: seq<DiffHunk>, k: nat, oldNext: int, newNext: int, count: nat)
    requires hunks != [] && k <= |hunks| && GapsFrom(hunks, k, oldNext, newNext, count).Some?
    ensures var gaps := GapsFrom(hunks, k, oldNext, newNext, count).value;
            forall p :: 0 <= p < |gaps| ==>
              gaps[p].index == count + p && k <= gaps[p].hunkIndex <= |hunks|
              && (gaps[p].position.After? <==> gaps[p].hunkIndex == |hunks|)
              && (gaps[p].position.After? ==> p == |gaps| - 1)
    decreases |hunks| - k
  {
    hide HasAfterGap;
    if k < |hunks| {
      var h := hunks[k];
      var own := GapBefore(h, k, oldNext, newNext, count);
      GapsOrdered(hunks, k + 1, NextLine(h.oldStart, h.oldCount), NextLine(h.newStart, h.newCount),
          count + |own.value|);
    }
  }

  lemma {:induction false} HunkLookup(gaps: seq<DiffGap>, p: nat)
    requires p < |gaps|
    requires forall q :: 0 <= q < |gaps| && gaps[q].hunkIndex == gaps[p].hunkIndex ==> q == p
    ensures gaps[p].hunkIndex in ByHunk(gaps) && ByHunk(gaps)[gaps[p].hunkIndex] == gaps[p]
  {
    var front := gaps[..|gaps| - 1];
    if p < |gaps| - 1 {
      HunkLookup(front, p);
    }
  }

  lemma {:induction false} HunkAbsent(gaps: seq<DiffGap>, k: int)
    requires forall q :: 0 <= q < |gaps| ==> gaps[q].hunkIndex != k
    ensures k !in ByHunk(gaps)
  {
    if gaps != [] {
      HunkAbsent(gaps[..|gaps| - 1], k);
    }
  }

  lemma {:induction false} IndexLookup(gaps: seq<DiffGap>, p: nat)
    requires p < |gaps| && forall q :: 0 <= q < |gaps| ==> gaps[q].index == q
    ensures p in ByIndex(gaps) && ByIndex(gaps)[p] == gaps[p]
  {
    if p < |gaps| - 1 {
      IndexLookup(gaps[..|gaps| - 1], p);
    }
  }

  // ---------------------------------------------------------------- One gap of the expanded view

  /** The gaps of a view: those of the hunks before `k`, then those from `k` on. */
  ghost predicate ViewedFrom(hunks: seq<DiffHunk>, gaps: seq<DiffGap>, k: nat, oldNext: int, newNext: int,
                             count: nat, total: nat)
  {
    && hunks != [] && k <= |hunks| && count <= |gaps|
    && GapsFrom(hunks, k, oldNext, newNext, count).Some?
    && gaps[count..] == CloseLastGap(GapsFrom(hunks, k, oldNext, newNext, count).value, total)
    && (forall p :: 0 <= p < |gaps| ==> gaps[p].index == p)
    && (forall p :: 0 <= p < count ==> gaps[p].hunkIndex < k)
  }

  /** The expanded gap before hunk `k`, as `GapBefore` or the After gap describes it. */
  function OwnGap(hunks: seq<DiffHunk>, k: nat, oldNext: int, newNext: int, count: nat, total: nat): seq<DiffGap>
    requires hunks != [] && k <= |hunks| && GapsFrom(hunks, k, oldNext, newNext, count).Some?
  {
    if k < |hunks| then GapBefore(hunks[k], k, oldNext, newNext, count).value
    else CloseLastGap(GapsFrom(hunks, k, oldNext, newNext, count).value, total)
  }

  lemma CloseBehind(own: seq<DiffGap>, rest: seq<DiffGap>, total: nat)
    requires forall p :: 0 <= p < |own| ==> !own[p].position.After?
    ensures CloseLastGap(own + rest, total) == own + CloseLastGap(rest, total)
  {
    if rest == [] {
      assert own + rest == own;
    } else {
      assert (own + rest)[..|own + rest| - 1] == own + rest[..|rest| - 1];
    }
  }

  /** One step through the gaps: the gap of this hunk, then a view from the next hunk on. */
  lemma ViewStep(hunks: seq<DiffHunk>, gaps: seq<DiffGap>, k: nat, oldNext: int, newNext: int, count: nat, total: nat)
    requires ViewedFrom(hunks, gaps, k, oldNext, newNext, count, total) && k < |hunks|
    ensures var own := OwnGap(hunks, k, oldNext, newNext, count, total);
            var h := hunks[k];
            && count + |own| <= |gaps| && gaps[count..count + |own|] == own
            && (own == [] || (|own| == 1 && own[0].hunkIndex == k))
            && ViewedFrom(hunks, gaps, k + 1, NextLine(h.oldStart, h.oldCount), NextLine(h.newStart, h.newCount),
                          count + |own|, total)
  {
    hide HasAfterGap, CloseLastGap;
    var h := hunks[k];
    var own := GapBefore(h, k, oldNext, newNext, count).value;
    var rest := GapsFrom(hunks, k + 1, NextLine(h.oldStart, h.oldCount), NextLine(h.newStart, h.newCount),
        count + |own|);
    assert gaps[count..] == CloseLastGap(own + rest.value, total);
    CloseBehind(own, rest.value, total);
    assert gaps[count..][..|own|] == own;
    assert gaps[count..][|own|..] == gaps[count + |own|..];
  }

  /** Behind this hunk's own gap, the view only holds gaps of later hunks. */
  lemma LaterGaps(hunks: seq<DiffHunk>, gaps: seq<DiffGap>, k: nat, oldNext: int, newNext: int, count: nat, total: nat)
    requires ViewedFrom(hunks, gaps, k, oldNext, newNext, count, total)
    ensures forall p :: count <= p < |gaps| ==> k <= gaps[p].hunkIndex
  {
    hide GapsFrom;
    GapsOrdered(hunks, k, oldNext, newNext, count);
    forall p | count <= p < |gaps| ensures k <= gaps[p].hunkIndex {
      assert gaps[p] == gaps[count..][p - count];
    }
  }

  /** The own gap stands at index `count` of the gap list and is the only one of its hunk. */
  lemma OwnGapPlace(hunks: seq<DiffHunk>, gaps: seq<DiffGap>, k: nat, oldNext: int, newNext: int, count: nat,
          total: nat)
    requires ViewedFrom(hunks, gaps, k, oldNext, newNext, count, total)
    ensures var own := OwnGap(hunks, k, oldNext, newNext, count, total);
            && |own| <= 1
            && (own == [] ==> forall q :: 0 <= q < |gaps| ==> gaps[q].hunkIndex != k)
            && (own != [] ==> count < |gaps| && gaps[count] == own[0] && own[0].hunkIndex == k
                              && forall q :: 0 <= q < |gaps| && gaps[q].hunkIndex == k ==> q == count)
  {
    hide GapsFrom, GapBefore, HasAfterGap, CloseLastGap;
    var own := OwnGap(hunks, k, oldNext, newNext, count, total);
    if k < |hunks| {
      ViewStep(hunks, gaps, k, oldNext, newNext, count, total);
      var h := hunks[k];
      LaterGaps(hunks, gaps, k + 1, NextLine(h.oldStart, h.oldCount), NextLine(h.newStart, h.newCount),
                count + |own|, total);
      assert own != [] ==> gaps[count..count + |own|][0] == gaps[count];
    } else {
      LastGapPlace(hunks, gaps, oldNext, newNext, count, total);
    }
  }

  lemma LastGapPlace(hunks: seq<DiffHunk>, gaps: seq<DiffGap>, oldNext: int, newNext: int, count: nat, total: nat)
    requires ViewedFrom(hunks, gaps, |hunks|, oldNext, newNext, count, total)
    ensures var own := OwnGap(hunks, |hunks|, oldNext, newNext, count, total);
            && |own| <= 1 && |gaps| == count + |own|
            && (own != [] ==> gaps[count] == own[0] && own[0].hunkIndex == |hunks|)
  {
    hide GapsFrom, HasAfterGap;
    GapsEnd(hunks, oldNext, newNext, count);
    var own := OwnGap(hunks, |hunks|, oldNext, newNext, count, total);
    assert gaps[count..] == own;
    assert own != [] ==> gaps[count..][0] == gaps[count];
  }

  lemma OwnGapShown(hunks: seq<DiffHunk>, model: FileContextModel, expansion: FileExpansion,
                    k: nat, oldNext: int, newNext: int, count: nat)
    requires expansion.full
    requires ViewedFrom(hunks, model.gaps, k, oldNext, newNext, count, |model.text.lines|)
    ensures var own := OwnGap(hunks, k, oldNext, newNext, count, |model.text.lines|);
            && |own| <= 1
            && ShownLines(GapSegment(model.gaps, Some(model), expansion, k))
               == if own == [] then [] else BuildGap(model.text, own[0])
  {
    hide GapsFrom, OwnGap, CloseLastGap, BuildGap, ByHunk, ByIndex;
    var gaps := model.gaps;
    OwnGapPlace(hunks, gaps, k, oldNext, newNext, count, |model.text.lines|);
    if OwnGap(hunks, k, oldNext, newNext, count, |model.text.lines|) == [] {
      HunkAbsent(gaps, k);
    } else {
      HunkLookup(gaps, count);
      IndexLookup(gaps, count);
      OneBlockShown(gaps[count], BuildGap(model.text, gaps[count]));
    }
  }

  lemma OneBlockShown(gap: DiffGap, lines: seq<DiffLine>)
    ensures ShownLines([ExpandedBlock(gap, lines)]) == lines
  {
    assert [ExpandedBlock(gap, lines)][1..] == [];
  }

  // ---------------------------------------------------------------- One hunk of the view

  lemma {:induction false} HunkReadsNew(lines: seq<DiffLine>, text: FileText, oldNo: int, newNo: int)
    requires Numbered(lines, oldNo, newNo) && (NewLength(lines) > 0 ==> 1 <= newNo)
    requires forall k :: 0 <= k < |lines| && lines[k].OnNewSide() ==> AtItsNumber(lines[k], text)
    ensures NewLength(lines) > 0 ==> newNo - 1 + NewLength(lines) <= |text.lines|
    ensures Reading(lines, NewSide) == Numbering(text.lines, newNo - 1, NewLength(lines))
  {
    if lines != [] {
      var o, n := oldNo + Step(lines[0].OnOldSide()), newNo + Step(lines[0].OnNewSide());
      assert forall k :: 0 <= k < |lines[1..]| ==> lines[1..][k] == lines[k + 1];
      HunkReadsNew(lines[1..], text, o, n);
      if lines[0].OnNewSide() {
        assert AtItsNumber(lines[0], text);
      }
    }
  }

  /** A line whose text with its ending stands in the file is that line of the file. */
  lemma SameContent(content: string, ending: string, text: string)
    requires '\n' !in content && (ending == "" || ending == "\n") && text == content + ending
    ensures Chomp(text) == content
  {
    ChompEnded(content, ending == "");
  }

  /** What is read on the old side is the old text without its endings, numbered on. */
  lemma {:induction false} ReadingIsText(lines: seq<DiffLine>, oldNo: int, newNo: int)
    requires Numbered(lines, oldNo, newNo) && forall k :: 0 <= k < |lines| ==> '\n' !in lines[k].content
    ensures var read, text := Reading(lines, OldSide), SideText(lines, OldSide);
            && |read| == |text|
            && forall k :: 0 <= k < |read| ==>
                 read[k].0 == oldNo + k && '\n' !in read[k].1
                 && (text[k] == read[k].1 + "" || text[k] == read[k].1 + "\n")
  {
    if lines != [] {
      var o, n := oldNo + Step(lines[0].OnOldSide()), newNo + Step(lines[0].OnNewSide());
      assert forall k :: 0 <= k < |lines[1..]| ==> lines[1..][k] == lines[k + 1];
      ReadingIsText(lines[1..], o, n);
    }
  }

  lemma HunkReadsOld(lines: seq<DiffLine>, texts: seq<string>, oldNo: int, newNo: int)
    requires Numbered(lines, oldNo, newNo) && (OldLength(lines) > 0 ==> 1 <= oldNo)
    requires forall k :: 0 <= k < |lines| ==> '\n' !in lines[k].content
    requires OldLength(lines) > 0 ==> oldNo - 1 + OldLength(lines) <= |texts|
    requires |SideText(lines, OldSide)| == OldLength(lines)
    requires forall k :: 0 <= k < OldLength(lines) ==> SideText(lines, OldSide)[k] == texts[oldNo - 1 + k]
    ensures Reading(lines, OldSide) == Numbering(Chomps(texts), oldNo - 1, OldLength(lines))
  {
    hide Reading, SideText, Numbered, OldLength, Chomp;
    ReadingIsText(lines, oldNo, newNo);
    var read, side := Reading(lines, OldSide), SideText(lines, OldSide);
    var meant := Numbering(Chomps(texts), oldNo - 1, OldLength(lines));
    forall k | 0 <= k < |read| ensures read[k] == meant[k] {
      SameContent(read[k].1, if side[k] == read[k].1 + "" then "" else "\n", side[k]);
    }
  }

  lemma {:induction false} UniformReading(lines: seq<DiffLine>, side: Side, r: seq<(int, string)>)
    requires |r| == |lines|
    requires forall k :: 0 <= k < |lines| ==> NumberOn(lines[k], side) == Some(r[k].0) && lines[k].content == r[k].1
    ensures Reading(lines, side) == r
  {
    if lines != [] {
      UniformReading(lines[1..], side, r[1..]);
      assert [r[0]] + r[1..] == r;
    }
  }

  lemma GapReads(text: FileText, gap: DiffGap)
    requires gap.length.Some? && 0 < gap.length.value && 1 <= gap.newStart
    requires gap.newStart - 1 + gap.length.value <= |text.lines|
    ensures Reading(BuildGap(text, gap), NewSide) == Numbering(text.lines, gap.newStart - 1, gap.length.value)
    ensures Reading(BuildGap(text, gap), OldSide)
         == seq(gap.length.value, k requires 0 <= k < gap.length.value =>
                  (gap.oldStart + k, text.lines[gap.newStart - 1 + k]))
  {
    UniformReading(BuildGap(text, gap), NewSide, Numbering(text.lines, gap.newStart - 1, gap.length.value));
    UniformReading(BuildGap(text, gap), OldSide,
                   seq(gap.length.value, k requires 0 <= k < gap.length.value =>
                         (gap.oldStart + k, text.lines[gap.newStart - 1 + k])));
  }

  /** However long a gap claims to be, it shows the lines the file has there. */
  lemma GapReadsClipped(text: FileText, gap: DiffGap)
    requires gap.length.Some? && 0 < gap.length.value && 1 <= gap.newStart
    ensures Reading(BuildGap(text, gap), NewSide)
         == Clipped(text.lines, gap.newStart - 1, gap.newStart - 1 + gap.length.value)
    ensures |BuildGap(text, gap)| == gap.length.value <==> gap.newStart - 1 + gap.length.value <= |text.lines|
  {
    UniformReading(BuildGap(text, gap), NewSide,
                   Clipped(text.lines, gap.newStart - 1, gap.newStart - 1 + gap.length.value));
  }

  // ---------------------------------------------------------------- The view from one hunk on

  /** Where the view ends on the new side: with the file when an After gap may follow, else with the last hunk. */
  function ShownEnd(hunks: seq<DiffHunk>, total: nat): int
    requires hunks != []
  {
    var last := hunks[|hunks| - 1];
    if HasAfterGap(last) then total else NextLine(last.newStart, last.newCount) - 1
  }

  /** The convention the trailing gap rests on: the last hunk leaves room for one or reaches the end. */
  ghost predicate ReachesEnd(hunks: seq<DiffHunk>, total: nat) {
    hunks != [] && var last := hunks[|hunks| - 1];
    HasAfterGap(last) || NextLine(last.newStart, last.newCount) == total + 1
  }

  ghost predicate AllComplete(hunks: seq<DiffHunk>) {
    forall k :: 0 <= k < |hunks| ==> Complete(hunks[k])
  }

  /** Three closing context lines are three lines on the new side. */
  lemma {:induction false} TrailingOnNewSide(lines: seq<DiffLine>)
    ensures TrailingContext(lines) <= NewLength(lines)
  {
    if lines != [] {
      var front, last := lines[..|lines| - 1], lines[|lines| - 1];
      TrailingOnNewSide(front);
      LengthAppend(front, [last]);
      assert front + [last] == lines;
    }
  }

  lemma HunkWithin(h: DiffHunk, text: FileText)
    requires Complete(h) && HunkAgrees(h.lines, text) && h.newCount > 0 && h.newStart >= 0
    ensures 1 <= h.newStart && h.newStart - 1 + h.newCount <= |text.lines|
  {
    FirstOnNewSide(h.lines, h.oldStart, h.newStart);
    HunkReadsNew(h.lines, text, h.oldStart, h.newStart);
  }

  lemma {:induction false} FirstOnNewSide(lines: seq<DiffLine>, oldNo: int, newNo: int)
    requires Numbered(lines, oldNo, newNo) && NewLength(lines) > 0
    ensures exists k :: 0 <= k < |lines| && lines[k].OnNewSide() && lines[k].newNo == Some(newNo)
  {
    if lines[0].OnNewSide() {
      assert lines[0].newNo == Some(newNo);
    } else {
      FirstOnNewSide(lines[1..], oldNo + Step(lines[0].OnOldSide()), newNo);
      var k :| 0 <= k < |lines[1..]| && lines[1..][k].OnNewSide() && lines[1..][k].newNo == Some(newNo);
      assert lines[k + 1] == lines[1..][k];
    }
  }

  /** No hunk, and no gap, starts past the end of the view. */
  lemma {:induction false} WithinFile(hunks: seq<DiffHunk>, k: nat, oldNext: int, newNext: int, count: nat,
          text: FileText)
    requires hunks != [] && k < |hunks| && AllComplete(hunks) && Agrees(hunks, text)
    requires GapsFrom(hunks, k, oldNext, newNext, count).Some?
    ensures newNext <= FirstLine(hunks[k].newStart, hunks[k].newCount)
         <= NextLine(hunks[k].newStart, hunks[k].newCount) <= ShownEnd(hunks, |text.lines|) + 1
    decreases |hunks| - k
  {
    hide HunkAgrees, Numbered;
    var h := hunks[k];
    if k + 1 < |hunks| {
      var own := GapBefore(h, k, oldNext, newNext, count);
      WithinFile(hunks, k + 1, NextLine(h.oldStart, h.oldCount), NextLine(h.newStart, h.newCount),
                 count + |own.value|, text);
    } else if HasAfterGap(h) {
      TrailingOnNewSide(h.lines);
      HunkWithin(h, text);
    }
  }

  lemma JoinThree(lines: seq<string>, at: int, l: int, m: int, n: int)
    requires 0 <= at && 0 <= l && 0 <= m && 0 <= n && at + l + m + n <= |lines|
    ensures Numbering(lines, at, l) + Numbering(lines, at + l, m) + Numbering(lines, at + l + m, n)
         == Numbering(lines, at, l + m + n)
  {}

  /** The gap before a hunk, read on the new side. */
  lemma GapPartNew(hunks: seq<DiffHunk>, model: FileContextModel, expansion: FileExpansion,
                   k: nat, oldNext: int, newNext: int, count: nat)
    requires expansion.full && k < |hunks| && 1 <= newNext
    requires ViewedFrom(hunks, model.gaps, k, oldNext, newNext, count, |model.text.lines|)
    requires newNext <= FirstLine(hunks[k].newStart, hunks[k].newCount)
    ensures Reading(ShownLines(GapSegment(model.gaps, Some(model), expansion, k)), NewSide)
         == Clipped(model.text.lines, newNext - 1, FirstLine(hunks[k].newStart, hunks[k].newCount) - 1)
  {
    hide HasAfterGap, GapSegment, BuildGap, Reading, ShownLines, CloseLastGap;
    var own := OwnGap(hunks, k, oldNext, newNext, count, |model.text.lines|);
    OwnGapShown(hunks, model, expansion, k, oldNext, newNext, count);
    if own == [] {
      NothingRead(NewSide);
    } else {
      GapReadsClipped(model.text, own[0]);
    }
  }

  lemma LastGap(hunks: seq<DiffHunk>, oldNext: int, newNext: int, count: nat, total: nat)
    requires hunks != [] && GapsFrom(hunks, |hunks|, oldNext, newNext, count).Some?
    ensures OwnGap(hunks, |hunks|, oldNext, newNext, count, total)
         == if HasAfterGap(hunks[|hunks| - 1]) && newNext <= total
            then [DiffGap(count, After, |hunks|, oldNext, newNext, Some(total - newNext + 1))] else []
  {
    hide GapsFrom, HasAfterGap;
    GapsEnd(hunks, oldNext, newNext, count);
  }

  /** What follows the last hunk, read on the new side. */
  lemma LastPartNew(hunks: seq<DiffHunk>, model: FileContextModel, expansion: FileExpansion,
                    oldNext: int, newNext: int, count: nat)
    requires expansion.full && ViewedFrom(hunks, model.gaps, |hunks|, oldNext, newNext, count, |model.text.lines|)
    requires 1 <= newNext <= ShownEnd(hunks, |model.text.lines|) + 1
    requires HasAfterGap(hunks[|hunks| - 1]) || newNext == ShownEnd(hunks, |model.text.lines|) + 1
    ensures Reading(ShownLines(GapSegment(model.gaps, Some(model), expansion, |hunks|)), NewSide)
         == Clipped(model.text.lines, newNext - 1, ShownEnd(hunks, |model.text.lines|))
  {
    hide HasAfterGap, GapSegment, BuildGap, Reading, ShownLines, GapsFrom, OwnGap;
    var own := OwnGap(hunks, |hunks|, oldNext, newNext, count, |model.text.lines|);
    OwnGapShown(hunks, model, expansion, |hunks|, oldNext, newNext, count);
    LastGap(hunks, oldNext, newNext, count, |model.text.lines|);
    if own == [] {
      NothingRead(NewSide);
    } else {
      GapReadsClipped(model.text, own[0]);
    }
  }

  lemma SegmentsLast(hunks: seq<DiffHunk>, gaps: seq<DiffGap>, model: Option<FileContextModel>,
          expansion: FileExpansion)
    ensures SegmentsFrom(hunks, gaps, model, expansion, |hunks|) == GapSegment(gaps, model, expansion, |hunks|)
  {
    hide GapSegment;
    assert GapSegment(gaps, model, expansion, |hunks|) + [] == GapSegment(gaps, model, expansion, |hunks|);
  }

  lemma SegmentsStep(hunks: seq<DiffHunk>, gaps: seq<DiffGap>, model: Option<FileContextModel>,
                     expansion: FileExpansion, k: nat, side: Side)
    requires k < |hunks|
    ensures Reading(ShownLines(SegmentsFrom(hunks, gaps, model, expansion, k)), side)
         == Reading(ShownLines(GapSegment(gaps, model, expansion, k)), side) + Reading(hunks[k].lines, side)
            + Reading(ShownLines(SegmentsFrom(hunks, gaps, model, expansion, k + 1)), side)
  {
    hide GapSegment, Reading, ShownLines;
    ShownSplit(GapSegment(gaps, model, expansion, k), HunkBlock(k, hunks[k]),
               SegmentsFrom(hunks, gaps, model, expansion, k + 1), side);
  }

  /** What the full view must show from hunk `k` on. */
  lemma {:induction false} NewSideFrom(model: FileContextModel, expansion: FileExpansion,
                                       k: nat, oldNext: int, newNext: int, count: nat)
    requires var hunks, text := model.file.hunks, model.text;
             && expansion.full && AllComplete(hunks) && Agrees(hunks, text)
             && ViewedFrom(hunks, model.gaps, k, oldNext, newNext, count, |text.lines|)
             && 1 <= newNext <= ShownEnd(hunks, |text.lines|) + 1
             && (k == |hunks| ==> HasAfterGap(hunks[k - 1]) || newNext == ShownEnd(hunks, |text.lines|) + 1)
    ensures Reading(ShownLines(SegmentsFrom(model.file.hunks, model.gaps, Some(model), expansion, k)), NewSide)
         == Clipped(model.text.lines, newNext - 1, ShownEnd(model.file.hunks, |model.text.lines|))
    decreases |model.file.hunks| - k
  {
    hide OwnGap, Numbered, FirstLine, NextLine, HasAfterGap, GapSegment, HunkAgrees, Complete, Reading, ShownLines,
        SegmentsFrom, CloseLastGap, GapsFrom, Clipped, Agrees;
    var hunks, text, total := model.file.hunks, model.text, |model.text.lines|;
    if k == |hunks| {
      LastPartNew(hunks, model, expansion, oldNext, newNext, count);
      SegmentsLast(hunks, model.gaps, Some(model), expansion);
    } else {
      var h := hunks[k];
      NonNegative(hunks, k, oldNext, newNext, count);
      RangeSpan(h.newStart, h.newCount);
      WithinFile(hunks, k, oldNext, newNext, count, text);
      ViewStep(hunks, model.gaps, k, oldNext, newNext, count, total);
      var own := OwnGap(hunks, k, oldNext, newNext, count, total);
      NewSideFrom(model, expansion, k + 1, NextLine(h.oldStart, h.oldCount), NextLine(h.newStart, h.newCount),
                  count + |own|);
      SegmentsStep(hunks, model.gaps, Some(model), expansion, k, NewSide);
      GapPartNew(hunks, model, expansion, k, oldNext, newNext, count);
      HunkNewPart(hunks, k, text);
      var first, next := FirstLine(h.newStart, h.newCount) - 1, NextLine(h.newStart, h.newCount) - 1;
      ClippedJoin(text.lines, newNext - 1, first, next);
      ClippedJoin(text.lines, newNext - 1, next, ShownEnd(hunks, total));
    }
  }

  lemma RangeSpan(start: int, count: int)
    requires count >= 0
    ensures NextLine(start, count) == FirstLine(start, count) + count
  {}

  lemma NonNegative(hunks: seq<DiffHunk>, k: nat, oldNext: int, newNext: int, count: nat)
    requires hunks != [] && k < |hunks| && GapsFrom(hunks, k, oldNext, newNext, count).Some?
    ensures hunks[k].newStart >= 0 && hunks[k].newCount >= 0 && hunks[k].oldStart >= 0 && hunks[k].oldCount >= 0
  {}

  lemma HunkNewPart(hunks: seq<DiffHunk>, k: nat, text: FileText)
    requires k < |hunks| && AllComplete(hunks) && Agrees(hunks, text)
    requires hunks[k].newStart >= 0 && hunks[k].newCount >= 0
    ensures hunks[k].newCount > 0 ==> 1 <= hunks[k].newStart
    ensures var h := hunks[k];
            Reading(h.lines, NewSide)
            == Clipped(text.lines, FirstLine(h.newStart, h.newCount) - 1, NextLine(h.newStart, h.newCount) - 1)
  {
    hide HunkAgrees, Numbered, Reading;
    var h := hunks[k];
    assert Complete(h) && HunkAgrees(h.lines, text);
    if h.newCount > 0 {
      HunkWithin(h, text);
    }
    HunkLinesRead(h, text);
  }

  lemma HunkLinesRead(h: DiffHunk, text: FileText)
    requires Complete(h) && HunkAgrees(h.lines, text) && (h.newCount > 0 ==> 1 <= h.newStart)
    ensures h.newCount > 0 ==> h.newStart - 1 + h.newCount <= |text.lines|
    ensures Reading(h.lines, NewSide) == Numbering(text.lines, h.newStart - 1, h.newCount)
  {
    HunkReadsNew(h.lines, text, h.oldStart, h.newStart);
  }

  lemma NothingRead(side: Side)
    ensures Reading([], side) == [] && ShownLines([]) == []
  {}

  lemma ShownSplit(here: seq<Segment>, block: Segment, later: seq<Segment>, side: Side)
    ensures Reading(ShownLines(here + ([block] + later)), side)
         == Reading(ShownLines(here), side) + Reading(SegmentLines(block), side) + Reading(ShownLines(later), side)
  {
    hide Reading;
    ShownAppend(here, [block] + later);
    assert ([block] + later)[1..] == later;
    ReadingAppend(ShownLines(here), SegmentLines(block) + ShownLines(later), side);
    ReadingAppend(SegmentLines(block), ShownLines(later), side);
    Reassociate(Reading(ShownLines(here), side), Reading(SegmentLines(block), side), Reading(ShownLines(later), side));
  }

  const FULL := FileExpansion({}, true)

  /** The file's whole-file view. */
  function FullView(file: DiffFile, text: FileText): seq<Segment> {
    View(file, Some(MakeModel(file, text)), FULL)
  }

  lemma ViewStarts(file: DiffFile, text: FileText)
    requires IsExpandable(file)
    ensures ViewedFrom(file.hunks, MakeModel(file, text).gaps, 0, 1, 1, 0, |text.lines|)
  {
    hide GapsFrom, HasAfterGap;
    var gaps := MakeModel(file, text).gaps;
    var all := StructuralGaps(file.hunks).value;
    GapsOrdered(file.hunks, 0, 1, 1, 0);
    assert gaps[0..] == gaps;
    assert forall p :: 0 <= p < |gaps| ==> gaps[p].index == all[p].index;
  }

  /**
   New side: when the hunks are complete and the file read agrees with them, the whole-file view shows
   the lines of the new file once each, in order, under their numbers, up to where it ends; so it shows
   all of them exactly when it ends no earlier than the file.
   */
  lemma FullViewShowsNewFile(file: DiffFile, text: FileText)
    requires IsExpandable(file) && AllComplete(file.hunks) && Agrees(file.hunks, text)
    ensures 0 <= ShownEnd(file.hunks, |text.lines|)
    ensures Reading(ShownLines(FullView(file, text)), NewSide)
         == Numbering(text.lines, 0, Within(ShownEnd(file.hunks, |text.lines|), |text.lines|))
    ensures Reading(ShownLines(FullView(file, text)), NewSide) == WholeFile(text.lines)
       <==> ShownEnd(file.hunks, |text.lines|) >= |text.lines|
  {
    hide GapsFrom, HunkAgrees, Complete, SegmentsFrom, HasAfterGap, Reading, ShownLines;
    ViewStarts(file, text);
    WithinFile(file.hunks, 0, 1, 1, 0, text);
    NewSideFrom(MakeModel(file, text), FULL, 0, 1, 1, 0);
    assert |WholeFile(text.lines)| == |text.lines|;
  }

  // ---------------------------------------------------------------- Expanded gaps meet their hunks

  /** First old and new line behind the hunks before hunk `k`. */
  function OldNextAt(hunks: seq<DiffHunk>, k: nat): int
    requires k <= |hunks|
  {
    if k == 0 then 1 else NextLine(hunks[k - 1].oldStart, hunks[k - 1].oldCount)
  }

  function NewNextAt(hunks: seq<DiffHunk>, k: nat): int
    requires k <= |hunks|
  {
    if k == 0 then 1 else NextLine(hunks[k - 1].newStart, hunks[k - 1].newCount)
  }

  /** The expanded lines begin where the hunks before end and end where the next hunk begins, on both sides. */
  ghost predicate Abuts(hunks: seq<DiffHunk>, gap: DiffGap, lines: seq<DiffLine>) {
    && 0 <= gap.hunkIndex < |hunks| && lines != []
    && var k, h, last := gap.hunkIndex, hunks[gap.hunkIndex], lines[|lines| - 1];
    && lines[0].oldNo == Some(OldNextAt(hunks, k)) && lines[0].newNo == Some(NewNextAt(hunks, k))
    && last.oldNo == Some(FirstLine(h.oldStart, h.oldCount) - 1)
    && last.newNo == Some(FirstLine(h.newStart, h.newCount) - 1)
  }

  /** The gap fills the space before its hunk. */
  ghost predicate Fills(hunks: seq<DiffHunk>, gap: DiffGap) {
    && 0 <= gap.hunkIndex < |hunks| && gap.length.Some? && 0 < gap.length.value
    && var k, h := gap.hunkIndex, hunks[gap.hunkIndex];
    && gap.oldStart == OldNextAt(hunks, k) && gap.newStart == NewNextAt(hunks, k)
    && gap.oldStart + gap.length.value == FirstLine(h.oldStart, h.oldCount)
    && gap.newStart + gap.length.value == FirstLine(h.newStart, h.newCount)
  }

  lemma {:induction false} GapsFill(hunks: seq<DiffHunk>, k: nat, count: nat)
    requires hunks != [] && k <= |hunks|
    requires GapsFrom(hunks, k, OldNextAt(hunks, k), NewNextAt(hunks, k), count).Some?
    requires 1 <= NewNextAt(hunks, k)
    ensures var gaps := GapsFrom(hunks, k, OldNextAt(hunks, k), NewNextAt(hunks, k), count).value;
            forall gap :: gap in gaps && !gap.position.After? ==> Fills(hunks, gap) && 1 <= gap.newStart
    decreases |hunks| - k
  {
    hide HasAfterGap;
    if k < |hunks| {
      var own := GapBefore(hunks[k], k, OldNextAt(hunks, k), NewNextAt(hunks, k), count);
      GapsFill(hunks, k + 1, count + |own.value|);
    }
  }

  /** A gap abuts its hunks exactly when the file has all its lines. */
  lemma FullGapAbuts(hunks: seq<DiffHunk>, gap: DiffGap, text: FileText)
    requires Fills(hunks, gap) && 1 <= gap.newStart
    ensures Abuts(hunks, gap, BuildGap(text, gap)) <==> |BuildGap(text, gap)| == gap.length.value
    ensures Abuts(hunks, gap, BuildGap(text, gap)) <==>
              var h := hunks[gap.hunkIndex]; FirstLine(h.newStart, h.newCount) - 1 <= |text.lines|
  {
    hide BuildGap, Reading, Clipped, FirstLine, OldNextAt, NewNextAt;
    GapReadsClipped(text, gap);
    BuiltEnds(text, gap);
  }

  /** The numbers of the first and the last line a gap shows. */
  lemma BuiltEnds(text: FileText, gap: DiffGap)
    ensures var lines := BuildGap(text, gap);
            lines != [] ==>
              var last := lines[|lines| - 1];
              && lines[0].oldNo == Some(gap.oldStart) && lines[0].newNo == Some(gap.newStart)
              && last.oldNo == Some(gap.oldStart + |lines| - 1) && last.newNo == Some(gap.newStart + |lines| - 1)
  {
    hide Slice;
  }

  /** Hunks end within the view. */
  lemma {:induction false} HunksWithin(hunks: seq<DiffHunk>, k: nat, oldNext: int, newNext: int, count: nat,
          text: FileText, j: nat)
    requires k <= j < |hunks| && AllComplete(hunks) && Agrees(hunks, text)
    requires GapsFrom(hunks, k, oldNext, newNext, count).Some?
    ensures FirstLine(hunks[j].newStart, hunks[j].newCount) <= ShownEnd(hunks, |text.lines|) + 1
    decreases |hunks| - k
  {
    hide HunkAgrees, Complete;
    if k == j {
      WithinFile(hunks, k, oldNext, newNext, count, text);
    } else {
      var h := hunks[k];
      var own := GapBefore(h, k, oldNext, newNext, count);
      HunksWithin(hunks, k + 1, NextLine(h.oldStart, h.oldCount), NextLine(h.newStart, h.newCount),
                  count + |own.value|, text, j);
    }
  }

  /** When the view ends behind the file, some gap claims more lines than the file has. */
  lemma {:induction false} SomeGapShort(hunks: seq<DiffHunk>, k: nat, count: nat, text: FileText)
    requires hunks != [] && k <= |hunks| && AllComplete(hunks) && Agrees(hunks, text)
    requires GapsFrom(hunks, k, OldNextAt(hunks, k), NewNextAt(hunks, k), count).Some?
    requires 1 <= NewNextAt(hunks, k) <= |text.lines| + 1 && ShownEnd(hunks, |text.lines|) > |text.lines|
    ensures exists gap :: gap in GapsFrom(hunks, k, OldNextAt(hunks, k), NewNextAt(hunks, k), count).value
              && !gap.position.After? && Fills(hunks, gap)
              && FirstLine(hunks[gap.hunkIndex].newStart, hunks[gap.hunkIndex].newCount) - 1 > |text.lines|
    decreases |hunks| - k
  {
    hide HasAfterGap, HunkAgrees, Numbered;
    if k < |hunks| {
      var h := hunks[k];
      var own := GapBefore(h, k, OldNextAt(hunks, k), NewNextAt(hunks, k), count).value;
      if FirstLine(h.newStart, h.newCount) - 1 > |text.lines| {
        var all := GapsFrom(hunks, k, OldNextAt(hunks, k), NewNextAt(hunks, k), count).value;
        assert all[0] == own[0] && Fills(hunks, all[0]);
      } else {
        if h.newCount > 0 {
          HunkWithin(h, text);
        }
        SomeGapShort(hunks, k + 1, count + |own|, text);
        var rest := GapsFrom(hunks, k + 1, OldNextAt(hunks, k + 1), NewNextAt(hunks, k + 1), count + |own|).value;
        assert GapsFrom(hunks, k, OldNextAt(hunks, k), NewNextAt(hunks, k), count).value == own + rest;
      }
    }
  }

  /** An After gap shows all that is left of the file. */
  ghost predicate ReachesFileEnd(hunks: seq<DiffHunk>, gap: DiffGap, lines: seq<DiffLine>, total: nat) {
    && lines != [] && gap.length == Some(|lines|) && lines[|lines| - 1].newNo == Some(total)
    && lines[0].oldNo == Some(OldNextAt(hunks, |hunks|)) && lines[0].newNo == Some(NewNextAt(hunks, |hunks|))
  }

  lemma {:induction false} AfterGapStart(hunks: seq<DiffHunk>, k: nat, count: nat)
    requires hunks != [] && k <= |hunks|
    requires GapsFrom(hunks, k, OldNextAt(hunks, k), NewNextAt(hunks, k), count).Some?
    requires 1 <= NewNextAt(hunks, k)
    ensures var gaps := GapsFrom(hunks, k, OldNextAt(hunks, k), NewNextAt(hunks, k), count).value;
            forall gap :: gap in gaps && gap.position.After? ==>
              && HasAfterGap(hunks[|hunks| - 1]) && 1 <= NewNextAt(hunks, |hunks|)
              && gap.oldStart == OldNextAt(hunks, |hunks|) && gap.newStart == NewNextAt(hunks, |hunks|)
    decreases |hunks| - k
  {
    hide HasAfterGap;
    if k < |hunks| {
      var own := GapBefore(hunks[k], k, OldNextAt(hunks, k), NewNextAt(hunks, k), count);
      AfterGapStart(hunks, k + 1, count + |own.value|);
    }
  }

  /**
   What acceptance says about the expanded gaps of a whole file: those before the hunks have all their
   lines, and so meet the hunks on both sides, exactly when the view does not end behind the file. A last
   hunk that only deletes may stand there, because the check has nothing of it to compare. An After gap
   always reaches the end of the file.
   */
  lemma ExpandedGapsMeetHunks(file: DiffFile, text: FileText)
    requires IsExpandable(file) && AllComplete(file.hunks) && Agrees(file.hunks, text)
    ensures var gaps := MakeModel(file, text).gaps;
            && ((forall gap :: gap in gaps && !gap.position.After? ==> Abuts(file.hunks, gap, BuildGap(text, gap)))
                <==> ShownEnd(file.hunks, |text.lines|) <= |text.lines|)
            && ((forall gap :: gap in gaps && !gap.position.After? ==> gap.length == Some(|BuildGap(text, gap)|))
                <==> ShownEnd(file.hunks, |text.lines|) <= |text.lines|)
            && (forall gap :: gap in gaps && gap.position.After? ==>
                  ReachesFileEnd(file.hunks, gap, BuildGap(text, gap), |text.lines|))
  {
    hide GapsFrom, HasAfterGap, HunkAgrees, Complete, BuildGap, Abuts, AllComplete, ReachesFileEnd;
    var hunks, gaps, total := file.hunks, MakeModel(file, text).gaps, |text.lines|;
    var all := StructuralGaps(hunks).value;
    GapsOrdered(hunks, 0, 1, 1, 0);
    GapsFill(hunks, 0, 0);
    AfterGapStart(hunks, 0, 0);
    GapsClosed(all, total);
    forall gap | gap in gaps && !gap.position.After?
      ensures Fills(hunks, gap) && 1 <= gap.newStart
      ensures Abuts(hunks, gap, BuildGap(text, gap)) <==> gap.length == Some(|BuildGap(text, gap)|)
      ensures ShownEnd(hunks, total) <= total ==> Abuts(hunks, gap, BuildGap(text, gap))
    {
      FullGapAbuts(hunks, gap, text);
      HunksWithin(hunks, 0, 1, 1, 0, text, gap.hunkIndex);
    }
    forall gap | gap in gaps && gap.position.After?
      ensures ReachesFileEnd(hunks, gap, BuildGap(text, gap), total)
    {
      AfterGapReaches(hunks, gap, text);
    }
    if ShownEnd(hunks, total) > total {
      SomeGapShort(hunks, 0, 0, text);
      var gap :| gap in all && !gap.position.After? && Fills(hunks, gap)
        && FirstLine(hunks[gap.hunkIndex].newStart, hunks[gap.hunkIndex].newCount) - 1 > total;
      assert gap in gaps;
      FullGapAbuts(hunks, gap, text);
    }
  }

  /** Closing the list keeps every other gap, and what it makes of an After gap ends with the file. */
  lemma GapsClosed(all: seq<DiffGap>, total: nat)
    requires forall p :: 0 <= p < |all| - 1 ==> !all[p].position.After?
    ensures var gaps := CloseLastGap(all, total);
            && (forall gap: DiffGap :: !gap.position.After? ==> (gap in gaps <==> gap in all))
            && (forall gap :: gap in gaps && gap.position.After? ==>
                  && gap.newStart <= total && gap.length == Some(total - gap.newStart + 1)
                  && exists g :: g in all && g.position.After? && g.oldStart == gap.oldStart
                                 && g.newStart == gap.newStart)
  {
    var gaps := CloseLastGap(all, total);
    if all != [] {
      var n := |all| - 1;
      assert all == all[..n] + [all[n]];
      forall gap | gap in all[..n] ensures !gap.position.After? {
        var p :| 0 <= p < n && all[..n][p] == gap;
        assert all[p] == gap;
      }
      assert all[n] in all;
    }
  }

  lemma AfterGapReaches(hunks: seq<DiffHunk>, gap: DiffGap, text: FileText)
    requires hunks != [] && 1 <= gap.newStart <= |text.lines|
    requires gap.length == Some(|text.lines| - gap.newStart + 1)
    requires gap.oldStart == OldNextAt(hunks, |hunks|) && gap.newStart == NewNextAt(hunks, |hunks|)
    ensures ReachesFileEnd(hunks, gap, BuildGap(text, gap), |text.lines|)
  {
    GapReadsClipped(text, gap);
  }

  // ---------------------------------------------------------------- The old side

  lemma GapReadsOld(before: seq<string>, after: FileText, gap: DiffGap)
    requires gap.length.Some? && 0 < gap.length.value && 1 <= gap.newStart && 1 <= gap.oldStart
    requires gap.newStart - 1 + gap.length.value <= |after.lines|
    requires gap.oldStart - 1 + gap.length.value <= |before|
    requires Chomps(before)[gap.oldStart - 1..gap.oldStart - 1 + gap.length.value]
          == after.lines[gap.newStart - 1..gap.newStart - 1 + gap.length.value]
    ensures Reading(BuildGap(after, gap), OldSide) == Numbering(Chomps(before), gap.oldStart - 1, gap.length.value)
  {
    hide Reading, BuildGap;
    GapReads(after, gap);
    var n, i, j := gap.length.value, gap.oldStart - 1, gap.newStart - 1;
    var read, meant := Reading(BuildGap(after, gap), OldSide), Numbering(Chomps(before), i, n);
    forall k | 0 <= k < n ensures read[k] == meant[k] {
      assert Chomps(before)[i..i + n][k] == after.lines[j..j + n][k];
    }
  }

  /** Equal stretches with their endings are equal lines. */
  lemma SameLines(before: seq<string>, after: FileText, i: nat, j: nat, n: nat)
    requires NewlineFree(after.lines)
    requires i + n <= |before| && j + n <= |after.lines|
    requires before[i..i + n] == WithEndings(after)[j..j + n]
    ensures Chomps(before)[i..i + n] == after.lines[j..j + n]
  {
    hide WithEndings, Chomp;
    ChompsOfFile(after);
    var x, y := Chomps(before)[i..i + n], after.lines[j..j + n];
    forall k | 0 <= k < n ensures x[k] == y[k] {
      assert before[i..i + n][k] == WithEndings(after)[j..j + n][k];
      assert Chomps(WithEndings(after))[j + k] == Chomp(WithEndings(after)[j + k]);
    }
  }

  /** What a fitting hunk says about the old file: the gap before it is unchanged and its old side stands there. */
  lemma HunkOldPart(before: seq<string>, after: FileText, hunks: seq<DiffHunk>, i: nat, j: nat)
    requires NewlineFree(after.lines) && hunks != []
    requires i <= |before| && j <= |after.lines|
    requires ApplyFrom(before, hunks, i, j) == Some(WithEndings(after)[j..])
    requires Complete(hunks[0]) && forall q :: 0 <= q < |hunks[0].lines| ==> '\n' !in hunks[0].lines[q].content
    ensures var h := hunks[0];
            var f, g := FirstIndex(h.oldStart, h.oldCount), FirstIndex(h.newStart, h.newCount);
            && i <= f <= f + h.oldCount <= |before| && j <= g <= g + h.newCount <= |after.lines|
            && f - i == g - j && h.oldCount >= 0 && h.newCount >= 0
            && Chomps(before)[i..f] == after.lines[j..g]
            && Reading(h.lines, OldSide) == Numbering(Chomps(before), f, h.oldCount)
            && ApplyFrom(before, hunks[1..], f + h.oldCount, g + h.newCount)
               == Some(WithEndings(after)[g + h.newCount..])
  {
    hide SideText, WithEndings, Reading, ApplyFrom;
    var h := hunks[0];
    var f, g := FirstIndex(h.oldStart, h.oldCount), FirstIndex(h.newStart, h.newCount);
    FitsReversed(before, hunks, i, j, WithEndings(after));
    GapUnchanged(before, hunks, i, j, WithEndings(after));
    SameLines(before, after, i, j, f - i);
    HunkOldLines(before, h, i, j);
  }

  lemma HunkOldLines(before: seq<string>, h: DiffHunk, i: nat, j: nat)
    requires Fits(before, h, i, j) && Complete(h)
    requires forall q :: 0 <= q < |h.lines| ==> '\n' !in h.lines[q].content
    ensures Reading(h.lines, OldSide)
         == Numbering(Chomps(before), FirstIndex(h.oldStart, h.oldCount), h.oldCount)
  {
    hide SideText, WithEndings, Reading, Numbered;
    SideLengths(h.lines);
    var f := FirstIndex(h.oldStart, h.oldCount);
    var side := SideText(h.lines, OldSide);
    assert h.oldCount > 0 ==> f == h.oldStart - 1;
    forall k | 0 <= k < h.oldCount ensures side[k] == before[h.oldStart - 1 + k] {
      assert side[k] == before[f..f + h.oldCount][k];
    }
    HunkReadsOld(h.lines, before, h.oldStart, h.newStart);
  }

  lemma GapUnchanged(file: seq<string>, hunks: seq<DiffHunk>, i: nat, j: nat, result: seq<string>)
    requires i <= |file| && j <= |result| && hunks != []
    requires ApplyFrom(file, hunks, i, j) == Some(result[j..])
    ensures var h := hunks[0];
            var f, g := FirstIndex(h.oldStart, h.oldCount), FirstIndex(h.newStart, h.newCount);
            i <= f <= |file| && j <= g <= |result| && file[i..f] == result[j..g]
  {
    hide SideText;
    var h := hunks[0];
    var f, g := FirstIndex(h.oldStart, h.oldCount), FirstIndex(h.newStart, h.newCount);
    var rest := ApplyFrom(file, hunks[1..], f + h.oldCount, g + h.newCount).value;
    PieceOfTail(result, j, file[i..f], SideText(h.lines, NewSide), rest);
  }

  /** The gap before a hunk, read on the old side: the new file's lines under the old file's numbers. */
  lemma GapPartOld(hunks: seq<DiffHunk>, model: FileContextModel, expansion: FileExpansion, before: seq<string>,
                   k: nat, i: nat, j: nat, count: nat)
    requires expansion.full && k < |hunks|
    requires ViewedFrom(hunks, model.gaps, k, i + 1, j + 1, count, |model.text.lines|)
    requires var h := hunks[k];
             var f, g := FirstIndex(h.oldStart, h.oldCount), FirstIndex(h.newStart, h.newCount);
             && i <= f <= |before| && j <= g <= |model.text.lines| && f - i == g - j
             && Chomps(before)[i..f] == model.text.lines[j..g]
    ensures Reading(ShownLines(GapSegment(model.gaps, Some(model), expansion, k)), OldSide)
         == Numbering(Chomps(before), i, FirstIndex(hunks[k].oldStart, hunks[k].oldCount) - i)
  {
    hide HasAfterGap, GapSegment, BuildGap, Reading, ShownLines, CloseLastGap;
    var own := OwnGap(hunks, k, i + 1, j + 1, count, |model.text.lines|);
    OwnGapShown(hunks, model, expansion, k, i + 1, j + 1, count);
    if own == [] {
      NothingRead(OldSide);
    } else {
      GapReadsOld(before, model.text, own[0]);
    }
  }

  /** The last line of the old file the view covers: behind the last hunk both versions go on alike. */
  function OldShownEnd(hunks: seq<DiffHunk>, before: seq<string>, after: FileText): int
    requires hunks != []
  {
    |before| - (|after.lines| - ShownEnd(hunks, |after.lines|))
  }

  lemma {:induction false} ShownWithin(hunks: seq<DiffHunk>, before: seq<string>, after: FileText, k: nat, i: nat,
          j: nat)
    requires hunks != [] && k <= |hunks| && i <= |before| && j <= |after.lines|
    requires ApplyFrom(before, hunks[k..], i, j) == Some(WithEndings(after)[j..])
    requires k == |hunks| ==> HasAfterGap(hunks[k - 1]) || j == ShownEnd(hunks, |after.lines|)
    ensures j <= ShownEnd(hunks, |after.lines|) <= |after.lines|
    ensures i <= OldShownEnd(hunks, before, after) <= |before|
    decreases |hunks| - k
  {
    hide SideText, WithEndings, ApplyFrom, HasAfterGap, Fits;
    if k == |hunks| {
      assert hunks[k..] == [];
      NoMoreHunks(before, i, j);
      assert |before[i..]| == |WithEndings(after)[j..]|;
    } else {
      var h := hunks[k];
      assert hunks[k..][1..] == hunks[k + 1..] && hunks[k..][0] == h;
      FitsReversed(before, hunks[k..], i, j, WithEndings(after));
      ShownWithin(hunks, before, after, k + 1, FirstIndex(h.oldStart, h.oldCount) + h.oldCount,
                  FirstIndex(h.newStart, h.newCount) + h.newCount);
    }
  }

  /** What follows the last hunk, read on the old side. */
  lemma LastPartOld(hunks: seq<DiffHunk>, model: FileContextModel, expansion: FileExpansion, before: seq<string>,
                    i: nat, j: nat, count: nat)
    requires expansion.full && i <= |before| && j <= |model.text.lines|
    requires ViewedFrom(hunks, model.gaps, |hunks|, i + 1, j + 1, count, |model.text.lines|)
    requires HasAfterGap(hunks[|hunks| - 1]) || j == ShownEnd(hunks, |model.text.lines|)
    requires Chomps(before)[i..] == model.text.lines[j..]
    requires i <= OldShownEnd(hunks, before, model.text)
    ensures Reading(ShownLines(GapSegment(model.gaps, Some(model), expansion, |hunks|)), OldSide)
         == Numbering(Chomps(before), i, OldShownEnd(hunks, before, model.text) - i)
  {
    hide HasAfterGap, GapSegment, BuildGap, Reading, ShownLines, GapsFrom, OwnGap;
    var own := OwnGap(hunks, |hunks|, i + 1, j + 1, count, |model.text.lines|);
    OwnGapShown(hunks, model, expansion, |hunks|, i + 1, j + 1, count);
    LastGap(hunks, i + 1, j + 1, count, |model.text.lines|);
    assert |Chomps(before)[i..]| == |model.text.lines[j..]|;
    if own == [] {
      NothingRead(OldSide);
    } else {
      var n := |before| - i;
      assert Chomps(before)[i..i + n] == Chomps(before)[i..] && model.text.lines[j..j + n] == model.text.lines[j..];
      GapReadsOld(before, model.text, own[0]);
    }
  }

  lemma RestUnchanged(before: seq<string>, after: FileText, i: nat, j: nat)
    requires NewlineFree(after.lines) && i <= |before| && j <= |after.lines|
    requires ApplyFrom(before, [], i, j) == Some(WithEndings(after)[j..])
    ensures Chomps(before)[i..] == after.lines[j..]
  {
    hide WithEndings;
    var b, n := WithEndings(after), |before| - i;
    NoMoreHunks(before, i, j);
    assert |before[i..]| == |b[j..]|;
    assert before[i..i + n] == before[i..] && b[j..j + n] == b[j..];
    SameLines(before, after, i, j, n);
    assert Chomps(before)[i..i + n] == Chomps(before)[i..] && after.lines[j..j + n] == after.lines[j..];
  }

  lemma {:induction false} OldSideFrom(model: FileContextModel, expansion: FileExpansion, before: seq<string>,
                                       k: nat, i: nat, j: nat, count: nat)
    requires var hunks, after := model.file.hunks, model.text;
             && expansion.full && AllComplete(hunks) && SingleLines(hunks)
             && ViewedFrom(hunks, model.gaps, k, i + 1, j + 1, count, |after.lines|)
             && NewlineFree(after.lines)
             && i <= |before| && j <= |after.lines|
             && ApplyFrom(before, hunks[k..], i, j) == Some(WithEndings(after)[j..])
             && (k == |hunks| ==> HasAfterGap(hunks[k - 1]) || j == ShownEnd(hunks, |after.lines|))
             && i <= OldShownEnd(hunks, before, after) <= |before|
    ensures Reading(ShownLines(SegmentsFrom(model.file.hunks, model.gaps, Some(model), expansion, k)), OldSide)
         == Numbering(Chomps(before), i, OldShownEnd(model.file.hunks, before, model.text) - i)
    decreases |model.file.hunks| - k
  {
    hide OwnGap, OldShownEnd, Numbered, HasAfterGap, GapSegment, Reading, ShownLines, SegmentsFrom, WithEndings,
      SideText, Complete, ApplyFrom, CloseLastGap, GapsFrom, Chomps;
    var hunks, after, total := model.file.hunks, model.text, |model.text.lines|;
    if k == |hunks| {
      assert hunks[k..] == [];
      RestUnchanged(before, after, i, j);
      LastPartOld(hunks, model, expansion, before, i, j, count);
      SegmentsLast(hunks, model.gaps, Some(model), expansion);
    } else {
      var h := hunks[k];
      assert hunks[k..][1..] == hunks[k + 1..] && hunks[k..][0] == h;
      HunkOldPart(before, after, hunks[k..], i, j);
      var f, g := FirstIndex(h.oldStart, h.oldCount), FirstIndex(h.newStart, h.newCount);
      ViewStep(hunks, model.gaps, k, i + 1, j + 1, count, total);
      var own := OwnGap(hunks, k, i + 1, j + 1, count, total);
      ShownWithin(hunks, before, after, k + 1, f + h.oldCount, g + h.newCount);
      OldSideFrom(model, expansion, before, k + 1, f + h.oldCount, g + h.newCount, count + |own|);
      SegmentsStep(hunks, model.gaps, Some(model), expansion, k, OldSide);
      GapPartOld(hunks, model, expansion, before, k, i, j, count);
      JoinThree(Chomps(before), i, f - i, h.oldCount, OldShownEnd(hunks, before, after) - (f + h.oldCount));
    }
  }

  lemma NoMoreHunks(file: seq<string>, i: nat, j: nat)
    requires i <= |file|
    ensures ApplyFrom(file, [], i, j) == Some(file[i..])
  {}

  /**
   Old side: for hunks that lead from one version to the other, the same view read on the old side shows
   the old file, so every number given to an expanded line is right although the old file is never read;
   again all of it exactly when the last hunk follows the convention.
   */
  lemma PatchViewShowsOldFile(file: DiffFile, before: seq<string>, after: FileText)
    requires IsExpandable(file) && AllComplete(file.hunks) && SingleLines(file.hunks)
    requires NewlineFree(after.lines)
    requires Apply(before, file.hunks) == Some(WithEndings(after))
    ensures 0 <= OldShownEnd(file.hunks, before, after) <= |before|
    ensures Reading(ShownLines(FullView(file, after)), OldSide)
         == Numbering(Chomps(before), 0, OldShownEnd(file.hunks, before, after))
    ensures Reading(ShownLines(FullView(file, after)), OldSide) == WholeFile(Chomps(before))
       <==> ReachesEnd(file.hunks, |after.lines|)
  {
    hide GapsFrom, Complete, SegmentsFrom, ApplyFrom, WithEndings, HasAfterGap, Reading, ShownLines;
    ViewStarts(file, after);
    assert WithEndings(after)[0..] == WithEndings(after) && file.hunks[0..] == file.hunks;
    ShownWithin(file.hunks, before, after, 0, 0, 0);
    OldSideFrom(MakeModel(file, after), FULL, before, 0, 0, 0, 0);
    assert |WholeFile(Chomps(before))| == |before|;
  }

  /** A patch never covers more than its result, so its new side needs no further condition. */
  lemma PatchShownEnd(hunks: seq<DiffHunk>, before: seq<string>, after: FileText)
    requires hunks != [] && Apply(before, hunks) == Some(WithEndings(after))
    ensures ShownEnd(hunks, |after.lines|) <= |after.lines|
  {
    hide ApplyFrom, WithEndings, HasAfterGap;
    assert WithEndings(after)[0..] == WithEndings(after) && hunks[0..] == hunks;
    ShownWithin(hunks, before, after, 0, 0, 0);
  }

  // ---------------------------------------------------------------- Rows

  /** The code rows a view shows: every line but the markers. */
  function CodeRows(lines: seq<DiffLine>): nat {
    if lines == [] then 0 else Step(!lines[0].lineType.NoNewline?) + CodeRows(lines[1..])
  }

  /** Lines with a new-side number, and deletions. */
  ghost predicate ReadableLine(line: DiffLine) {
    (line.newNo.None? <==> line.lineType.Deletion? || line.lineType.NoNewline?)
  }

  lemma {:induction false} RowsCounted(lines: seq<DiffLine>)
    requires forall k :: 0 <= k < |lines| ==> ReadableLine(lines[k])
    ensures CodeRows(lines) == |Reading(lines, NewSide)| + CountType(lines, Deletion)
  {
    if lines != [] {
      assert ReadableLine(lines[0]);
      RowsCounted(lines[1..]);
    }
  }

  lemma {:induction false} NumberedReadable(lines: seq<DiffLine>, oldNo: int, newNo: int)
    requires Numbered(lines, oldNo, newNo)
    ensures forall k :: 0 <= k < |lines| ==> ReadableLine(lines[k])
  {
    if lines != [] {
      NumberedReadable(lines[1..], oldNo + Step(lines[0].OnOldSide()), newNo + Step(lines[0].OnNewSide()));
      assert forall k :: 1 <= k < |lines| ==> lines[k] == lines[1..][k - 1];
    }
  }

  lemma {:induction false} NoDeletions(lines: seq<DiffLine>)
    requires forall k :: 0 <= k < |lines| ==> lines[k].lineType.Expanded?
    ensures CountType(lines, Deletion) == 0
  {
    if lines != [] {
      NoDeletions(lines[1..]);
    }
  }

  lemma GapSegmentReadable(gaps: seq<DiffGap>, model: Option<FileContextModel>, expansion: FileExpansion, k: nat)
    ensures var lines := ShownLines(GapSegment(gaps, model, expansion, k));
            && (forall q :: 0 <= q < |lines| ==> ReadableLine(lines[q])) && CountType(lines, Deletion) == 0
  {
    hide ByHunk, ByIndex;
    var shown := GapSegment(gaps, model, expansion, k);
    if shown != [] {
      assert shown[1..] == [];
      assert ShownLines(shown) == SegmentLines(shown[0]);
      NoDeletions(ShownLines(shown));
    }
  }

  lemma {:induction false} ViewReadable(hunks: seq<DiffHunk>, gaps: seq<DiffGap>, model: Option<FileContextModel>,
                                        expansion: FileExpansion, k: nat)
    requires k <= |hunks| && AllComplete(hunks)
    ensures var lines := ShownLines(SegmentsFrom(hunks, gaps, model, expansion, k));
            && (forall q :: 0 <= q < |lines| ==> ReadableLine(lines[q]))
            && CountType(lines, Deletion) == Tally(hunks[k..], Deletion)
    decreases |hunks| - k
  {
    hide GapSegment, Numbered, ShownLines, ReadableLine, CountType;
    var here := GapSegment(gaps, model, expansion, k);
    GapSegmentReadable(gaps, model, expansion, k);
    if k == |hunks| {
      assert here + [] == here && hunks[k..] == [];
    } else {
      var h := hunks[k];
      assert Complete(h);
      NumberedReadable(h.lines, h.oldStart, h.newStart);
      ViewReadable(hunks, gaps, model, expansion, k + 1);
      var later := SegmentsFrom(hunks, gaps, model, expansion, k + 1);
      ShownParts(here, HunkBlock(k, h), later);
      CountTypeAppend(ShownLines(here) + h.lines, ShownLines(later), Deletion);
      CountTypeAppend(ShownLines(here), h.lines, Deletion);
      assert hunks[k..][1..] == hunks[k + 1..];
    }
  }

  lemma ShownParts(here: seq<Segment>, block: Segment, later: seq<Segment>)
    ensures ShownLines(here + ([block] + later)) == ShownLines(here) + SegmentLines(block) + ShownLines(later)
  {
    ShownAppend(here, [block] + later);
    assert ([block] + later)[1..] == later;
    Reassociate(ShownLines(here), SegmentLines(block), ShownLines(later));
  }

  /** The view has as many code rows as `full_view_rows` announces exactly when it ends no earlier than the file. */
  lemma FullViewRowCount(file: DiffFile, text: FileText)
    requires IsExpandable(file) && AllComplete(file.hunks) && Agrees(file.hunks, text)
    ensures CodeRows(ShownLines(FullView(file, text))) == FullViewRows(MakeModel(file, text))
       <==> ShownEnd(file.hunks, |text.lines|) >= |text.lines|
  {
    hide Agrees, AllComplete, SegmentsFrom, CodeRows, Reading, FileGaps, ShownLines, IsExpandable, ReadableLine,
        HasAfterGap;
    var model := MakeModel(file, text);
    FullViewShowsNewFile(file, text);
    ViewReadable(file.hunks, model.gaps, Some(model), FULL, 0);
    RowsCounted(ShownLines(FullView(file, text)));
    assert file.hunks[0..] == file.hunks;
  }

  // ---------------------------------------------------------------- A patch made with less context

  const SHORT_HUNK := DiffHunk("@@ -1 +1 @@", 1, 1, 1, 1,
                               [DiffLine(Some(1), None, "x", Deletion), DiffLine(None, Some(1), "y", Addition)], "")

  /** A correct patch without trailing context, for a file that goes on: the view stops at the hunk. */
  lemma ShortContextHidesEnd()
    ensures var file := PlainFile("p", "p", Modified, [SHORT_HUNK]);
            var before, after := FileText(["x", "z"], true), FileText(["y", "z"], true);
            && Apply(WithEndings(before), file.hunks) == Some(WithEndings(after)) && Agrees(file.hunks, after)
            && Reading(ShownLines(FullView(file, after)), NewSide) == [(1, "y")]
  {
    var file := PlainFile("p", "p", Modified, [SHORT_HUNK]);
    var before, after := FileText(["x", "z"], true), FileText(["y", "z"], true);
    ShortHunkApplies(before, after);
    ShortHunkPlain(file, after);
    FullViewShowsNewFile(file, after);
  }

  lemma ShortHunkApplies(before: FileText, after: FileText)
    requires before == FileText(["x", "z"], true) && after == FileText(["y", "z"], true)
    ensures Apply(WithEndings(before), [SHORT_HUNK]) == Some(WithEndings(after))
  {
    var lines := SHORT_HUNK.lines;
    assert lines[1..][1..] == [];
    var x, y, z := "x" + "\n", "y" + "\n", "z" + "\n";
    assert WithEndings(before) == [x, z] && WithEndings(after) == [y, z];
    assert SideText(lines[1..], OldSide) == [] && SideText(lines[1..], NewSide) == [y];
    assert SideText(lines, OldSide) == [x] && SideText(lines, NewSide) == [y];
    assert [x, z][0..1] == [x] && [x, z][1..] == [z];
    assert Fits(WithEndings(before), SHORT_HUNK, 0, 0);
    assert ApplyFrom(WithEndings(before), [], 1, 1) == Some([z]);
    assert [x, z][0..0] + [y] + [z] == [y, z];
    assert [SHORT_HUNK][1..] == [];
  }

  lemma ShortHunkPlain(file: DiffFile, after: FileText)
    requires file == PlainFile("p", "p", Modified, [SHORT_HUNK]) && after == FileText(["y", "z"], true)
    ensures IsExpandable(file) && AllComplete(file.hunks) && Agrees(file.hunks, after)
    ensures ShownEnd(file.hunks, |after.lines|) == 1
  {
    var lines := SHORT_HUNK.lines;
    assert lines[1..][1..] == [];
    assert Numbered(lines[1..], 2, 1);
    assert OldLength(lines[1..]) == 0 && NewLength(lines[1..]) == 1;
    assert TrailingContext(lines) == 0;
    assert GapsFrom(file.hunks, 1, 2, 2, 0).Some?;
  }

  // ---------------------------------------------------------------- A hunk behind the end of the file

  const LATE_HUNK := DiffHunk("@@ -3 +2,0 @@", 3, 1, 2, 0, [DiffLine(Some(3), None, "x", Deletion)], "")

  /**
   A deletion behind the end of the file read is accepted: the gap before it claims two lines and shows
   old line 1 only, where the hunk begins with old line 3; yet the new side and the row count look complete.
   */
  lemma LateDeletionAccepted()
    ensures var file, text := PlainFile("p", "p", Modified, [LATE_HUNK]), FileText(["y"], true);
            var gap := DiffGap(0, Before, 0, 1, 1, Some(2));
            && IsExpandable(file) && AllComplete(file.hunks) && Agrees(file.hunks, text)
            && MakeModel(file, text).gaps == [gap]
            && BuildGap(text, gap) == [DiffLine(Some(1), Some(1), "y", Expanded)]
            && !Abuts(file.hunks, gap, BuildGap(text, gap)) && !ReachesEnd(file.hunks, |text.lines|)
            && Reading(ShownLines(FullView(file, text)), NewSide) == WholeFile(text.lines)
            && CodeRows(ShownLines(FullView(file, text))) == FullViewRows(MakeModel(file, text))
  {
    hide View, Reading, ShownLines, CodeRows, FullViewRows;
    var file, text := PlainFile("p", "p", Modified, [LATE_HUNK]), FileText(["y"], true);
    var lines, gap := LATE_HUNK.lines, DiffGap(0, Before, 0, 1, 1, Some(2));
    assert lines[1..] == [] && TrailingContext(lines) == 0;
    assert OldLength([]) == 0 && NewLength([]) == 0;
    assert GapsFrom(file.hunks, 1, 4, 3, 1) == Some([]);
    assert [gap] + [] == [gap];
    GapReadsClipped(text, gap);
    assert Fills(file.hunks, gap);
    FullGapAbuts(file.hunks, gap, text);
    FullViewShowsNewFile(file, text);
    FullViewRowCount(file, text);
  }
}
