/**
 What a list of hunks means: a patch from one file to another.

 A file is the list of its lines with their endings, so every line ends in a newline but perhaps the
 last. This is the semantics of a unified diff, stated without the printer or the parser.
 */
module Patches {
  import opened Options
  import opened DiffModels
  import opened DiffParser
  import opened ParserLaws

  datatype Side = OldSide | NewSide

  predicate On(line: DiffLine, side: Side) {
    if side.OldSide? then line.OnOldSide() else line.OnNewSide()
  }

  predicate MarkerFirst(lines: seq<DiffLine>) {
    lines != [] && lines[0].lineType.NoNewline?
  }

  /** One side of a hunk; a marker takes the newline from the line before it. */
  function SideText(lines: seq<DiffLine>, side: Side): seq<string> {
    if lines == [] then []
    else
      var ending := if MarkerFirst(lines[1..]) then "" else "\n";
      (if On(lines[0], side) then [lines[0].content + ending] else []) + SideText(lines[1..], side)
  }

  /** Index of the first line a range covers, or would cover: an empty range names the line before it. */
  function FirstIndex(start: int, count: int): int {
    if count > 0 then start - 1 else start
  }

  /** The hunk fits `file` at this index, and its new side stands where the earlier hunks leave it. */
  ghost predicate Fits(file: seq<string>, h: DiffHunk, i: nat, j: nat) {
    var f, g := FirstIndex(h.oldStart, h.oldCount), FirstIndex(h.newStart, h.newCount);
    var before := SideText(h.lines, OldSide);
    && i <= f && f - i == g - j
    && |before| == h.oldCount && |SideText(h.lines, NewSide)| == h.newCount
    && f + |before| <= |file| && file[f..f + |before|] == before
  }

  /** The patched text from index `i` of the file on, which is index `j` of the result; None if a hunk fails. */
  ghost function ApplyFrom(file: seq<string>, hunks: seq<DiffHunk>, i: nat, j: nat): Option<seq<string>>
    requires i <= |file|
  {
    if hunks == [] then Some(file[i..])
    else if !Fits(file, hunks[0], i, j) then None
    else
      var h := hunks[0];
      var f, g := FirstIndex(h.oldStart, h.oldCount), FirstIndex(h.newStart, h.newCount);
      var rest := ApplyFrom(file, hunks[1..], f + h.oldCount, g + h.newCount);
      if rest.None? then None
      else Some(file[i..f] + SideText(h.lines, NewSide) + rest.value)
  }

  ghost function Apply(file: seq<string>, hunks: seq<DiffHunk>): Option<seq<string>> {
    ApplyFrom(file, hunks, 0, 0)
  }

  // ---------------------------------------------------------------- Reversal

  function SwapLine(line: DiffLine): DiffLine {
    DiffLine(line.newNo, line.oldNo, line.content,
             if line.lineType.Addition? then Deletion else if line.lineType.Deletion? then Addition else line.lineType)
  }

  function SwapLines(lines: seq<DiffLine>): seq<DiffLine> {
    seq(|lines|, k requires 0 <= k < |lines| => SwapLine(lines[k]))
  }

  function Swap(h: DiffHunk): DiffHunk {
    h.(oldStart := h.newStart, oldCount := h.newCount, newStart := h.oldStart, newCount := h.oldCount,
       lines := SwapLines(h.lines))
  }

  function SwapAll(hunks: seq<DiffHunk>): seq<DiffHunk> {
    seq(|hunks|, k requires 0 <= k < |hunks| => Swap(hunks[k]))
  }

  lemma {:induction false} SwapSides(lines: seq<DiffLine>)
    ensures SideText(SwapLines(lines), OldSide) == SideText(lines, NewSide)
    ensures SideText(SwapLines(lines), NewSide) == SideText(lines, OldSide)
  {
    if lines != [] {
      SwapSides(lines[1..]);
      assert SwapLines(lines)[1..] == SwapLines(lines[1..]);
    }
  }

  /** Every patch that applies can be undone: swapping its sides takes the result back. */
  lemma {:induction false} ReverseFrom(file: seq<string>, hunks: seq<DiffHunk>, i: nat, j: nat, result: seq<string>)
    requires i <= |file| && j <= |result|
    requires ApplyFrom(file, hunks, i, j) == Some(result[j..])
    ensures ApplyFrom(result, SwapAll(hunks), j, i) == Some(file[i..])
  {
    hide SideText, Fits;
    if hunks != [] {
      var h := hunks[0];
      var f, g := FirstIndex(h.oldStart, h.oldCount), FirstIndex(h.newStart, h.newCount);
      FitsReversed(file, hunks, i, j, result);
      ReverseFrom(file, hunks[1..], f + h.oldCount, g + h.newCount, result);
      assert SwapAll(hunks)[0] == Swap(h) && SwapAll(hunks)[1..] == SwapAll(hunks[1..]);
    }
  }

  lemma FitsReversed(file: seq<string>, hunks: seq<DiffHunk>, i: nat, j: nat, result: seq<string>)
    requires i <= |file| && j <= |result| && hunks != []
    requires ApplyFrom(file, hunks, i, j) == Some(result[j..])
    ensures var h := hunks[0];
            var f, g := FirstIndex(h.oldStart, h.oldCount), FirstIndex(h.newStart, h.newCount);
            && i <= f <= f + h.oldCount <= |file| && j <= g <= g + h.newCount <= |result|
            && Fits(file, h, i, j) && Fits(result, Swap(h), j, i)
            && ApplyFrom(file, hunks[1..], f + h.oldCount, g + h.newCount) == Some(result[g + h.newCount..])
            && result[j..g] + SideText(Swap(h).lines, NewSide) + file[f + h.oldCount..] == file[i..]
  {
    hide SideText;
    var h := hunks[0];
    var f, g := FirstIndex(h.oldStart, h.oldCount), FirstIndex(h.newStart, h.newCount);
    var before, after := SideText(h.lines, OldSide), SideText(h.lines, NewSide);
    var rest := ApplyFrom(file, hunks[1..], f + h.oldCount, g + h.newCount).value;
    assert result[j..] == file[i..f] + after + rest;
    SwapSides(h.lines);
    PieceOfTail(result, j, file[i..f], after, rest);
    assert g == j + |file[i..f]|;
    Rejoin(file, i, f, f + h.oldCount);
  }

  lemma Rejoin(s: seq<string>, i: nat, j: nat, k: nat)
    requires i <= j <= k <= |s|
    ensures s[i..j] + s[j..k] + s[k..] == s[i..]
  {}

  lemma PieceOfTail(result: seq<string>, j: nat, gap: seq<string>, after: seq<string>, rest: seq<string>)
    requires j <= |result| && result[j..] == gap + after + rest
    ensures result[j..j + |gap|] == gap
    ensures result[j + |gap|..j + |gap| + |after|] == after
    ensures result[j + |gap| + |after|..] == rest
  {
    var tail := result[j..];
    assert result[j..j + |gap|] == tail[..|gap|];
    assert result[j + |gap|..j + |gap| + |after|] == tail[|gap|..|gap| + |after|];
    assert result[j + |gap| + |after|..] == tail[|gap| + |after|..];
  }

  lemma ReverseUndoes(file: seq<string>, hunks: seq<DiffHunk>, result: seq<string>)
    requires Apply(file, hunks) == Some(result)
    ensures Apply(result, SwapAll(hunks)) == Some(file)
  {
    assert result[0..] == result && file[0..] == file;
    ReverseFrom(file, hunks, 0, 0, result);
  }

  // ---------------------------------------------------------------- Line counts

  lemma {:induction false} SideLengths(lines: seq<DiffLine>)
    ensures |SideText(lines, OldSide)| == OldLength(lines) && |SideText(lines, NewSide)| == NewLength(lines)
    ensures NewLength(lines) + CountType(lines, Deletion) == OldLength(lines) + CountType(lines, Addition)
  {
    if lines != [] {
      SideLengths(lines[1..]);
    }
  }

  lemma {:induction false} LengthFrom(file: seq<string>, hunks: seq<DiffHunk>, i: nat, j: nat)
    requires i <= |file| && ApplyFrom(file, hunks, i, j).Some?
    ensures |ApplyFrom(file, hunks, i, j).value| + Tally(hunks, Deletion) == |file| - i + Tally(hunks, Addition)
  {
    hide SideText, CountType;
    if hunks != [] {
      var h := hunks[0];
      SideLengths(h.lines);
      LengthFrom(file, hunks[1..], FirstIndex(h.oldStart, h.oldCount) + h.oldCount,
                 FirstIndex(h.newStart, h.newCount) + h.newCount);
    }
  }

  /** A patch changes the number of lines by its additions less its deletions. */
  lemma LengthChange(file: seq<string>, hunks: seq<DiffHunk>, result: seq<string>)
    requires Apply(file, hunks) == Some(result)
    ensures |result| == |file| + Tally(hunks, Addition) - Tally(hunks, Deletion)
  {
    LengthFrom(file, hunks, 0, 0);
  }
}
