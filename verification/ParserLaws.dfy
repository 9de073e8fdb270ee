/** What the parser promises: it undoes the printer, keeps what it reads, and treats git sections one by one. */
module ParserLaws {
  import opened Options
  import opened DiffModels
  import opened HunkHeaders
  import opened Text
  import opened Paths
  import opened DiffParser

  // ---------------------------------------------------------------- Printing

  function PrintLine(line: DiffLine): string {
    match line.lineType
    case Addition => "+" + line.content
    case Deletion => "-" + line.content
    case NoNewline => line.content
    case _ => " " + line.content
  }

  function PrintLines(lines: seq<DiffLine>): (r: seq<string>)
    ensures |r| == |lines|
    ensures forall k :: 0 <= k < |lines| ==> r[k] == PrintLine(lines[k])
  {
    seq(|lines|, k requires 0 <= k < |lines| => PrintLine(lines[k]))
  }

  function PrintHunk(h: DiffHunk): seq<string> {
    [h.header] + PrintLines(h.lines)
  }

  function PrintHunks(hunks: seq<DiffHunk>): seq<string> {
    if hunks == [] then [] else PrintHunk(hunks[0]) + PrintHunks(hunks[1..])
  }

  // ---------------------------------------------------------------- Well-formed hunks

  function OldLength(lines: seq<DiffLine>): nat {
    if lines == [] then 0 else Step(lines[0].OnOldSide()) + OldLength(lines[1..])
  }

  function NewLength(lines: seq<DiffLine>): nat {
    if lines == [] then 0 else Step(lines[0].OnNewSide()) + NewLength(lines[1..])
  }

  /** The line carries exactly these numbers on the sides it stands on. */
  ghost predicate NumberedLine(line: DiffLine, oldNo: int, newNo: int) {
    && (line.OnOldSide() || line.OnNewSide() || (line.lineType.NoNewline? && "\\" <= line.content))
    && line.oldNo == (if line.OnOldSide() then Some(oldNo) else None)
    && line.newNo == (if line.OnNewSide() then Some(newNo) else None)
  }

  /** Both sides count up from these numbers without a break. */
  ghost predicate Numbered(lines: seq<DiffLine>, oldNo: int, newNo: int) {
    lines == []
    || (NumberedLine(lines[0], oldNo, newNo)
        && Numbered(lines[1..], oldNo + Step(lines[0].OnOldSide()), newNo + Step(lines[0].OnNewSide())))
  }

  /** The hunk holds as many lines of each side as it declares. */
  ghost predicate Complete(h: DiffHunk) {
    && Numbered(h.lines, h.oldStart, h.newStart)
    && OldLength(h.lines) == h.oldCount && NewLength(h.lines) == h.newCount
  }

  /** The header line spells the hunk's numbers, and the hunk has the text behind them, stripped. */
  ghost predicate UnderItsHeader(h: DiffHunk) {
    exists head: Header :: SpellsHeader(h.header, head)
      && h == DiffHunk(h.header, head.oldStart, head.oldCount, head.newStart, head.newCount, h.lines, Strip(head.text))
  }

  /** Complete, under a header that says so. */
  ghost predicate WellFormed(h: DiffHunk) {
    Complete(h) && UnderItsHeader(h)
  }

  /** Which is to say that the parser reads the hunk's numbers and text from its header line. */
  lemma UnderReadHeader(h: DiffHunk)
    ensures UnderItsHeader(h)
       <==> ParseHeader(h.header).Some? && h == MakeHunk(h.header, ParseHeader(h.header).value, h.lines)
  {
    hide ParseHeader, SpellsHeader, Strip;
    if ParseHeader(h.header).Some? {
      ParseHeaderExact(h.header, ParseHeader(h.header).value);
    }
    if UnderItsHeader(h) {
      var head: Header :| SpellsHeader(h.header, head)
        && h == DiffHunk(h.header, head.oldStart, head.oldCount, head.newStart, head.newCount, h.lines,
                         Strip(head.text));
      ParseHeaderExact(h.header, head);
    }
  }

  ghost predicate AllWellFormed(hunks: seq<DiffHunk>) {
    forall k :: 0 <= k < |hunks| ==> WellFormed(hunks[k])
  }

  // ---------------------------------------------------------------- Print, then parse

  /** The text a line was read from, up to an empty line standing for an empty context line. */
  ghost predicate SameText(line: string, printed: string) {
    line == printed || (line == "" && printed == " ")
  }

  /** A printing of the lines, in which an empty context line may have lost its blank. */
  ghost predicate IsPrinting(text: seq<string>, lines: seq<DiffLine>) {
    |text| == |lines| && forall k :: 0 <= k < |text| ==> SameText(text[k], PrintLine(lines[k]))
  }

  lemma ReadPrinted(text: string, line: DiffLine, oldNo: int, newNo: int)
    requires NumberedLine(line, oldNo, newNo) && SameText(text, PrintLine(line))
    ensures Classify(text) == Some(line.lineType)
    ensures ReadLine(text, oldNo, newNo) == line
    ensures !("@@ " <= text) && !(GIT_PREFIX <= text) && (text == "" ==> line.lineType.Context?)
  {
    if text == "" {
      assert PrintLine(line)[0] == ' ' && PrintLine(line)[1..] == "";
    }
  }

  /** Another plain file begins here. */
  predicate PlainBegins(lines: seq<string>) {
    |lines| > 1 && "--- " <= lines[0] && "+++ " <= lines[1]
  }

  /** What may follow a complete hunk: nothing, another hunk, a blank line or another plain file. */
  predicate EndsBody(tail: seq<string>) {
    tail == [] || "@@ " <= tail[0] || tail[0] == "" || PlainBegins(tail)
  }

  /**
   A deletion of `-- x` before an addition of `++ y` looks like file headers; while the counts say both
   sides still fit, it is not taken for them.
   */
  lemma PrintedIsNoBoundary(lines: seq<DiffLine>, text: seq<string>, h: Header, at: Progress, tail: seq<string>)
    requires lines != [] && IsPrinting(text, lines)
    requires Numbered(lines, h.oldStart + at.oldSeen, h.newStart + at.newSeen)
    requires at.oldSeen + OldLength(lines) == h.oldCount && at.newSeen + NewLength(lines) == h.newCount
    requires EndsBody(tail)
    ensures !FileBoundary(text + tail, h, at)
  {
    hide ParseHeader;
    var all := text + tail;
    assert all[0] == text[0] && SameText(text[0], PrintLine(lines[0]));
    assert tail != [] && tail[0] != "" ==> tail[0][0] == '@' || tail[0][0] == '-';
    if "--- " <= all[0] && |all| > 1 && "+++ " <= all[1] {
      assert all[0][0] == '-' && lines[0].lineType.Deletion?;
      assert all[1][0] == '+';
      if |lines| > 1 {
        assert all[1] == text[1] && SameText(text[1], PrintLine(lines[1])) && lines[1].lineType.Addition?;
        assert NewLength(lines) == 1 + NewLength(lines[2..]) by {
          assert lines[1..][1..] == lines[2..];
        }
        assert at.BothFit(h);
      }
    }
  }

  lemma PrintedContinues(lines: seq<DiffLine>, text: seq<string>, h: Header, at: Progress, tail: seq<string>)
    requires lines != [] && IsPrinting(text, lines)
    requires Numbered(lines, h.oldStart + at.oldSeen, h.newStart + at.newSeen)
    requires at.oldSeen + OldLength(lines) == h.oldCount && at.newSeen + NewLength(lines) == h.newCount
    requires EndsBody(tail)
    ensures !HunkEnds(text + tail, h, at) && (text + tail)[1..] == text[1..] + tail && IsPrinting(text[1..], lines[1..])
  {
    hide FileBoundary, ReadLine, Classify, PrintLine;
    ReadPrinted(text[0], lines[0], h.oldStart + at.oldSeen, h.newStart + at.newSeen);
    PrintedIsNoBoundary(lines, text, h, at, tail);
    assert text[0] == "" ==> !at.Complete(h);
  }

  /**
   A complete body is read back from any printing of it, blanks stripped or not, before whatever may
   follow a hunk.
   */
  lemma {:induction false} BodyRoundTrip(lines: seq<DiffLine>, text: seq<string>, h: Header, at: Progress,
                                         tail: seq<string>)
    requires IsPrinting(text, lines)
    requires Numbered(lines, h.oldStart + at.oldSeen, h.newStart + at.newSeen)
    requires at.oldSeen + OldLength(lines) == h.oldCount && at.newSeen + NewLength(lines) == h.newCount
    requires EndsBody(tail)
    ensures HunkBody(text + tail, h, at) == lines
  {
    hide HunkEnds, ReadLine, Classify, PrintLine, HunkBody, SameText;
    var all := text + tail;
    assert all[0..] == all;
    if lines == [] {
      assert all == tail;
      BodyEnds(tail, h, at);
    } else {
      var line := lines[0];
      assert all[0] == text[0];
      ReadPrinted(text[0], line, h.oldStart + at.oldSeen, h.newStart + at.newSeen);
      PrintedContinues(lines, text, h, at, tail);
      BodyStep(all, 0, h, at);
      BodyRoundTrip(lines[1..], text[1..], h, at.Past(line.lineType), tail);
      assert [line] + lines[1..] == lines;
    }
  }

  lemma BodyEnds(tail: seq<string>, h: Header, at: Progress)
    requires EndsBody(tail)
    requires at.Complete(h)
    ensures HunkBody(tail, h, at) == []
  {}

  lemma HeaderOpens(line: string)
    requires ParseHeader(line).Some?
    ensures "@@ " <= line && !(GIT_PREFIX <= line) && !("--- " <= line) && !("+++ " <= line)
  {
    hide ParseRange;
    assert line[..4] == "@@ -" && line[0] == '@';
    assert GIT_PREFIX[0] == 'd' && "--- "[0] == '-' && "+++ "[0] == '+';
  }

  /** Printed hunks are read back, and up to another plain file nothing but their lines is taken. */
  lemma {:induction false} HunksRoundTrip(hunks: seq<DiffHunk>, tail: seq<string>)
    requires AllWellFormed(hunks) && (tail == [] || tail == [""] || PlainBegins(tail))
    ensures HunkList(PrintHunks(hunks) + tail)
         == Parsed(hunks, |PrintHunks(hunks)| + if PlainBegins(tail) then 0 else |tail|)
  {
    hide HunkList, WellFormed, PrintHunk;
    if hunks == [] {
      assert PrintHunks(hunks) + tail == tail;
      NoHunksInBlank();
      NoHunksInHeader(tail);
    } else {
      var h, later := hunks[0], PrintHunks(hunks[1..]) + tail;
      if |hunks| > 1 {
        FirstHeader(hunks[1..], tail);
      }
      assert PrintHunks(hunks) + tail == PrintHunk(h) + later;
      OneHunkRead(h, later);
      HunksRoundTrip(hunks[1..], tail);
      assert [h] + hunks[1..] == hunks;
    }
  }

  lemma FirstHeader(hunks: seq<DiffHunk>, tail: seq<string>)
    requires hunks != [] && WellFormed(hunks[0])
    ensures EndsBody(PrintHunks(hunks) + tail)
  {
    hide ParseHeader, Complete, UnderItsHeader;
    UnderReadHeader(hunks[0]);
    HeaderOpens(hunks[0].header);
    assert (PrintHunks(hunks) + tail)[0] == hunks[0].header;
  }

  lemma OneHunkRead(h: DiffHunk, later: seq<string>)
    requires WellFormed(h) && EndsBody(later)
    ensures var rest := HunkList(later);
            HunkList(PrintHunk(h) + later) == Parsed([h] + rest.value, |PrintHunk(h)| + rest.consumed)
  {
    hide HunkBody, ParseHeader, HunkList, Complete, MakeHunk, UnderItsHeader;
    UnderReadHeader(h);
    var text := PrintHunk(h) + later;
    assert text[0] == h.header && text[1..] == PrintLines(h.lines) + later;
    HeaderOpens(h.header);
    HunkRead(h, later);
    assert text[1 + |h.lines|..] == later && text[0..] == text;
    HunkListStep(text, 0);
  }

  lemma NoHunksInHeader(tail: seq<string>)
    ensures PlainBegins(tail) ==> HunkList(tail) == Parsed([], 0)
  {}

  lemma NoHunksInBlank()
    ensures HunkList([]) == Parsed([], 0) && HunkList([""]) == Parsed([], 1)
  {
    assert [""][1..] == [];
    assert !("@@ -" <= "");
  }

  lemma HunkRead(h: DiffHunk, tail: seq<string>)
    requires WellFormed(h)
    requires EndsBody(tail)
    ensures ParseHeader(h.header).Some?
    ensures var head := ParseHeader(h.header).value;
            HunkBody(PrintLines(h.lines) + tail, head, START) == h.lines && MakeHunk(h.header, head, h.lines) == h
  {
    hide HunkBody, ParseHeader, UnderItsHeader;
    UnderReadHeader(h);
    BodyRoundTrip(h.lines, PrintLines(h.lines), ParseHeader(h.header).value, START, tail);
  }

  /** A file that was not there before is added, one that is not there afterwards deleted. */
  function PlainStatus(oldPath: string, newPath: string): FileStatus {
    match (oldPath == "/dev/null", newPath == "/dev/null")
    case (true, _) => Added
    case (false, true) => Deleted
    case _ => Modified
  }

  /** Printed hunks under two file header lines are read as one file with exactly those hunks. */
  lemma FileRoundTrip(oldName: string, newName: string, hunks: seq<DiffHunk>)
    requires oldName != "" && newName != "" && AllWellFormed(hunks)
    ensures Files(["--- " + oldName, "+++ " + newName] + PrintHunks(hunks))
         == [PlainFile(StripPrefix(oldName), StripPrefix(newName),
                       PlainStatus(StripPrefix(oldName), StripPrefix(newName)), hunks)]
  {
    hide HunkList, StripPrefix, Tally, WellFormed;
    var text := ["--- " + oldName, "+++ " + newName] + PrintHunks(hunks);
    HunksRoundTrip(hunks, []);
    assert PrintHunks(hunks) + [] == PrintHunks(hunks);
    assert text[2..] == PrintHunks(hunks);
    assert HeaderLines(text) == 2;
    assert HunksFrom(text) == Parsed(hunks, |text|);
    assert text[0][0] == '-' && GIT_PREFIX[0] == 'd';
    assert !IsGitHeader(text[0]);
    assert text[0][4..] == oldName && text[1][4..] == newName;
    assert text[|text|..] == [];
    FilesNil();
  }

  /** No line of the hunks' text holds a newline. */
  ghost predicate SingleLines(hunks: seq<DiffHunk>) {
    forall k :: 0 <= k < |hunks| ==>
      '\n' !in hunks[k].header
      && forall j :: 0 <= j < |hunks[k].lines| ==> '\n' !in hunks[k].lines[j].content
  }

  lemma {:induction false} PrintedNewlineFree(hunks: seq<DiffHunk>)
    requires SingleLines(hunks)
    ensures NewlineFree(PrintHunks(hunks))
  {
    if hunks != [] {
      PrintedNewlineFree(hunks[1..]);
      assert hunks[0] == hunks[0 as int];
    }
  }

  /** In front of another plain file, this one is read on its own. */
  lemma FileBefore(oldName: string, newName: string, hunks: seq<DiffHunk>, rest: seq<string>)
    requires oldName != "" && newName != "" && AllWellFormed(hunks) && PlainBegins(rest)
    ensures Files(["--- " + oldName, "+++ " + newName] + PrintHunks(hunks) + rest)
         == [PlainFile(StripPrefix(oldName), StripPrefix(newName),
                       PlainStatus(StripPrefix(oldName), StripPrefix(newName)), hunks)] + Files(rest)
  {
    hide HunkList, StripPrefix, WellFormed, Files, PlainDiffFile, IsPlainHeader, PlainFile, PlainStatus, PrintHunks,
      PlainBegins;
    var text := ["--- " + oldName, "+++ " + newName] + PrintHunks(hunks) + rest;
    HunksRoundTrip(hunks, rest);
    var n := |PrintHunks(hunks)|;
    assert text[2..] == PrintHunks(hunks) + rest && text[0..] == text && text[2 + n..] == rest;
    PlainFileRead(oldName, newName, text, Parsed(hunks, n));
    assert text[0][0] == '-' && GIT_PREFIX[0] == 'd';
    assert !IsGitHeader(text[0]);
    FilesStep(text, 0);
  }

  lemma PlainFileRead(oldName: string, newName: string, text: seq<string>, hunks: Parsed<seq<DiffHunk>>)
    requires oldName != "" && newName != "" && |text| > 1 && text[0] == "--- " + oldName && text[1] == "+++ " + newName
    requires HunkList(text[2..]) == hunks
    ensures IsPlainHeader(text)
    ensures PlainDiffFile(text)
         == Parsed(PlainFile(StripPrefix(oldName), StripPrefix(newName),
                             PlainStatus(StripPrefix(oldName), StripPrefix(newName)), hunks.value), 2 + hunks.consumed)
  {
    hide HunkList, StripPrefix, Tally;
    assert HeaderLines(text) == 2;
    assert text[0][4..] == oldName && text[1][4..] == newName;
  }

  lemma VisibleText(text: string)
    requires text != "" && !IsSpace(text[0])
    ensures Strip(text) != ""
  {
    StripBlank(text);
  }

  /** The round trip on the whole text: synthetic headers, printed hunks, joined by newlines. */
  lemma TextRoundTrip(oldName: string, newName: string, hunks: seq<DiffHunk>)
    requires oldName != "" && newName != "" && '\n' !in oldName && '\n' !in newName
    requires AllWellFormed(hunks) && SingleLines(hunks)
    ensures var files := Diff(Join(["--- " + oldName, "+++ " + newName] + PrintHunks(hunks)));
            |files| == 1 && files[0].hunks == hunks
            && files[0].additions == Tally(hunks, Addition) && files[0].deletions == Tally(hunks, Deletion)
  {
    hide Files, Strip, WellFormed, Tally;
    var lines := ["--- " + oldName, "+++ " + newName] + PrintHunks(hunks);
    PrintedNewlineFree(hunks);
    SplitJoin(lines);
    assert Join(lines)[0] == '-';
    VisibleText(Join(lines));
    FileRoundTrip(oldName, newName, hunks);
  }

  // ---------------------------------------------------------------- Parse, then print

  /** On any text, the body's numbers count up from the header's and its lines are the text that was read. */
  lemma {:induction false} BodyFaithful(lines: seq<string>, h: Header, at: Progress)
    ensures var body := HunkBody(lines, h, at);
            Numbered(body, h.oldStart + at.oldSeen, h.newStart + at.newSeen)
            && forall k :: 0 <= k < |body| ==> SameText(lines[k], PrintLine(body[k]))
  {
    hide HunkEnds, HunkBody, ReadLine, Classify, PrintLine;
    assert lines[0..] == lines;
    if lines == [] {
      BodyNil(h, at);
    } else {
      BodyStep(lines, 0, h, at);
      if !HunkEnds(lines, h, at) {
        var t := Classify(lines[0]).value;
        var line := ReadLine(lines[0], h.oldStart + at.oldSeen, h.newStart + at.newSeen);
        var rest := HunkBody(lines[1..], h, at.Past(t));
        BodyFaithful(lines[1..], h, at.Past(t));
        ReadFaithful(lines[0], h.oldStart + at.oldSeen, h.newStart + at.newSeen);
        assert ([line] + rest)[1..] == rest;
        assert forall k :: 1 <= k < 1 + |rest| ==> ([line] + rest)[k] == rest[k - 1] && lines[k] == lines[1..][k - 1];
      }
    }
  }

  /** A line read at these numbers carries them and prints as its text. */
  lemma ReadFaithful(text: string, oldNo: int, newNo: int)
    requires Classify(text).Some?
    ensures var line := ReadLine(text, oldNo, newNo);
            && NumberedLine(line, oldNo, newNo) && SameText(text, PrintLine(line))
            && line.OnOldSide() == OldStep(Classify(text).value) && line.OnNewSide() == NewStep(Classify(text).value)
  {
    assert text != "" ==> text == [text[0]] + text[1..];
  }

  /**
   Line `k`, behind a body read so far, ends it: a hunk or git header, a line of no kind a hunk has, and once
   both sides are as long as the header says a blank line or the headers of a plain file; those also when one
   side is and a hunk header follows them.
   */
  ghost predicate Stops(lines: seq<string>, k: nat, h: Header, old_: nat, new_: nat)
    requires k < |lines|
  {
    var line := lines[k];
    var oldFull, newFull := old_ >= h.oldCount, new_ >= h.newCount;
    || "@@ " <= line || "diff --git " <= line || (line == "" && oldFull && newFull)
    || (line != "" && line[0] !in " +-\\")
    || (k + 1 < |lines| && "--- " <= line && "+++ " <= lines[k + 1]
        && ((oldFull && newFull)
            || ((oldFull || newFull) && k + 2 < |lines| && IsHunkHeader(lines[k + 2]))))
  }

  lemma StopsHere(lines: seq<string>, h: Header, at: Progress)
    requires lines != []
    ensures HunkEnds(lines, h, at) <==> Stops(lines, 0, h, at.oldSeen, at.newSeen)
  {
    hide ParseHeader, IsHunkHeader;
    if |lines| > 2 {
      HeaderSpelled(lines[2]);
    }
    assert Classify(lines[0]).None? <==> lines[0] != "" && lines[0][0] !in " +-\\";
  }

  lemma HeaderSpelled(line: string)
    ensures ParseHeader(line).Some? <==> IsHunkHeader(line)
  {
    hide ParseHeader, SpellsHeader;
    if ParseHeader(line).Some? {
      ParseHeaderExact(line, ParseHeader(line).value);
    }
    forall head | SpellsHeader(line, head) ensures ParseHeader(line) == Some(head) {
      ParseHeaderExact(line, head);
    }
  }

  /** On any text a body takes the lines up to the first that ends it, by the lengths of what was read before. */
  lemma {:induction false} BodyExtent(lines: seq<string>, h: Header, at: Progress)
    ensures var body := HunkBody(lines, h, at);
            && (|body| < |lines| ==>
                  Stops(lines, |body|, h, at.oldSeen + OldLength(body), at.newSeen + NewLength(body)))
            && forall k :: 0 <= k < |body| ==>
                 !Stops(lines, k, h, at.oldSeen + OldLength(body[..k]), at.newSeen + NewLength(body[..k]))
  {
    hide HunkEnds, HunkBody, ReadLine, Classify, Stops;
    var body := HunkBody(lines, h, at);
    assert lines[0..] == lines;
    if lines == [] {
      BodyNil(h, at);
    } else {
      BodyStep(lines, 0, h, at);
      StopsHere(lines, h, at);
      if !HunkEnds(lines, h, at) {
        var t := Classify(lines[0]).value;
        var next := at.Past(t);
        ReadFaithful(lines[0], h.oldStart + at.oldSeen, h.newStart + at.newSeen);
        BodyExtent(lines[1..], h, next);
        var rest := HunkBody(lines[1..], h, next);
        assert body[1..] == rest;
        if |body| < |lines| {
          StopsBehind(lines, |rest|, h, next.oldSeen + OldLength(rest), next.newSeen + NewLength(rest));
        }
        forall k | 0 <= k < |body|
          ensures !Stops(lines, k, h, at.oldSeen + OldLength(body[..k]), at.newSeen + NewLength(body[..k]))
        {
          if k == 0 {
            assert body[..0] == [];
          } else {
            assert body[..k] == [body[0]] + rest[..k - 1] && body[..k][1..] == rest[..k - 1];
            StopsBehind(lines, k - 1, h, next.oldSeen + OldLength(rest[..k - 1]),
                        next.newSeen + NewLength(rest[..k - 1]));
          }
        }
      } else {
        assert body == [];
      }
    }
  }

  lemma StopsBehind(lines: seq<string>, k: nat, h: Header, old_: nat, new_: nat)
    requires k + 1 < |lines|
    ensures Stops(lines, k + 1, h, old_, new_) <==> Stops(lines[1..], k, h, old_, new_)
  {
    hide IsHunkHeader;
    assert lines[1..][k] == lines[k + 1];
    assert k + 2 < |lines| ==> lines[1..][k + 1] == lines[k + 2];
    assert k + 3 < |lines| ==> lines[1..][k + 2] == lines[k + 3];
  }

  /** Between hunks, lines that begin neither a hunk nor a section are passed over. */
  lemma {:induction false} HunkListSkips(junk: seq<string>, rest: seq<string>)
    requires forall k :: 0 <= k < |junk| ==>
               !("diff --git " <= junk[k]) && !("--- " <= junk[k]) && !IsHunkHeader(junk[k])
    ensures HunkList(junk + rest).value == HunkList(rest).value
    ensures HunkList(junk + rest).consumed == |junk| + HunkList(rest).consumed
    decreases |junk|
  {
    hide HunkList, IsHunkHeader, ParseHeader;
    if junk == [] {
      assert junk + rest == rest;
    } else {
      var all := junk + rest;
      HeaderSpelled(junk[0]);
      assert all[0] == junk[0] && all[1..] == junk[1..] + rest && all[0..] == all;
      assert forall k :: 0 <= k < |junk[1..]| ==> junk[1..][k] == junk[k + 1];
      HunkListSkips(junk[1..], rest);
      HunkListStep(all, 0);
    }
  }

  /** Outside sections, lines that begin none are passed over, so text around a diff does no harm. */
  lemma {:induction false} FilesSkip(junk: seq<string>, rest: seq<string>)
    requires forall k :: 0 <= k < |junk| ==> !IsGitHeader(junk[k]) && !("--- " <= junk[k])
    ensures Files(junk + rest) == Files(rest)
    decreases |junk|
  {
    hide Files, IsGitHeader;
    if junk == [] {
      assert junk + rest == rest;
    } else {
      var all := junk + rest;
      assert all[0] == junk[0] && all[1..] == junk[1..] + rest && all[0..] == all;
      assert forall k :: 0 <= k < |junk[1..]| ==> junk[1..][k] == junk[k + 1];
      FilesSkip(junk[1..], rest);
      FilesStep(all, 0);
    }
  }

  /** Each hunk is numbered, under the header that opened it. */
  ghost predicate NumberedHunks(hunks: seq<DiffHunk>) {
    forall h :: h in hunks ==> Numbered(h.lines, h.oldStart, h.newStart) && UnderItsHeader(h)
  }

  lemma {:induction false} HunkListNumbered(lines: seq<string>)
    ensures NumberedHunks(HunkList(lines).value)
    decreases |lines|
  {
    hide HunkBody, ParseHeader, SectionEnds, UnderItsHeader;
    if lines != [] && !SectionEnds(lines) {
      if ParseHeader(lines[0]).Some? {
        var h := ParseHeader(lines[0]).value;
        var body := HunkBody(lines[1..], h, START);
        UnderReadHeader(MakeHunk(lines[0], h, body));
        BodyFaithful(lines[1..], h, START);
        HunkListNumbered(lines[1 + |body|..]);
      } else {
        HunkListNumbered(lines[1..]);
      }
    }
  }

  /** A parsed file's hunks are numbered and its counts are those of its hunks. */
  ghost predicate FaithfulFile(file: DiffFile) {
    && NumberedHunks(file.hunks)
    && file.additions == Tally(file.hunks, Addition) && file.deletions == Tally(file.hunks, Deletion)
  }

  lemma {:induction false} SectionFaithful(lines: seq<string>, st: GitState, oldPath: string, newPath: string)
    ensures var file := GitSection(lines, st, oldPath, newPath).value; file.Some? ==> FaithfulFile(file.value)
  {
    hide GitStep, HunkList, Tally, StripPrefix, ParseHeader;
    if lines != [] && !(GIT_PREFIX <= lines[0]) {
      if "--- " <= lines[0] {
        HunkListNumbered(lines[HeaderLines(lines)..]);
      } else {
        SectionFaithful(lines[1..], GitStep(st, lines[0]), oldPath, newPath);
      }
    }
  }

  lemma PlainFileFaithful(lines: seq<string>)
    requires IsPlainHeader(lines)
    ensures FaithfulFile(PlainDiffFile(lines).value)
  {
    hide HunkList, Tally, StripPrefix, ParseHeader;
    HunkListNumbered(lines[HeaderLines(lines)..]);
  }

  /** Every hunk of every file of every parse is numbered, and every file counts its own lines. */
  lemma {:induction false} ParsedFilesFaithful(lines: seq<string>)
    ensures forall file :: file in Files(lines) ==> FaithfulFile(file)
    decreases |lines|
  {
    hide FaithfulFile, GitSection, PlainDiffFile, IsGitHeader, IsPlainHeader, HeaderNames;
    if lines != [] {
      if IsGitHeader(lines[0]) {
        SectionFaithful(lines[1..], FRESH, HeaderNames(lines[0]).0, HeaderNames(lines[0]).1);
        ParsedFilesFaithful(lines[GitFile(lines).consumed..]);
      } else if IsPlainHeader(lines) {
        PlainFileFaithful(lines);
        ParsedFilesFaithful(lines[PlainDiffFile(lines).consumed..]);
      } else {
        ParsedFilesFaithful(lines[1..]);
      }
    }
  }

  /** The same for texts. */
  lemma ParsedHunksNumbered(text: string)
    ensures forall file :: file in Diff(text) ==> FaithfulFile(file)
  {
    hide Files, FaithfulFile, Strip;
    ParsedFilesFaithful(Split(text));
  }

  // ---------------------------------------------------------------- Sections are read one by one

  /**
   What the extended headers of a git section have said when its first `--- ` line is the last line of
   all; None when the section has more lines than that, or no such line.
   */
  function OpenSection(lines: seq<string>, st: GitState): Option<GitState> {
    if lines == [] || GIT_PREFIX <= lines[0] then None
    else if "--- " <= lines[0] then (if |lines| == 1 then Some(st) else None)
    else OpenSection(lines[1..], GitStep(st, lines[0]))
  }

  /** A section cut off at its `--- ` line: its first line and what its headers said. */
  datatype OpenEnd = OpenEnd(header: string, st: GitState)

  /** The section, if any, that the lines leave open. */
  function OpenAt(lines: seq<string>): Option<OpenEnd>
    decreases |lines|
  {
    if lines == [] then None
    else if IsGitHeader(lines[0]) then
      var own := OpenSection(lines[1..], FRESH);
      if own.Some? then Some(OpenEnd(lines[0], own.value)) else OpenAt(lines[GitFile(lines).consumed..])
    else if IsPlainHeader(lines) then OpenAt(lines[PlainDiffFile(lines).consumed..])
    else OpenAt(lines[1..])
  }

  /** A `rename to` or `copy to` line gave the section a new name. */
  predicate NamesNew(st: GitState) {
    st.movedTo.Some? && st.movedTo.value != ""
  }

  /** The name a section cut off at its `--- ` line takes from the line behind it. */
  function BorrowedName(next: string): string {
    StripPrefix(Drop(next, 4))
  }

  /** The lines end in an open section that takes another name from the line behind them. */
  predicate Borrows(lines: seq<string>, next: string) {
    var end := OpenAt(lines);
    end.Some? && IsGitHeader(end.value.header) && !NamesNew(end.value.st)
    && BorrowedName(next) != HeaderNames(end.value.header).1
  }

  lemma NextSectionLine(line: string)
    requires GIT_PREFIX <= line
    ensures !("+++ " <= line) && !("--- " <= line) && ParseHeader(line).None?
  {
    hide ParseRange;
    assert GIT_PREFIX[0] == 'd' && line[0] == 'd';
    assert "--- "[0] == '-' && "+++ "[0] == '+' && "@@ -"[0] == '@';
  }

  lemma {:induction false} BodyLocal(a: seq<string>, b: seq<string>, h: Header, at: Progress)
    requires b != [] && GIT_PREFIX <= b[0]
    ensures HunkBody(a + b, h, at) == HunkBody(a, h, at)
  {
    hide ParseHeader, ReadLine, Classify;
    NextSectionLine(b[0]);
    if a != [] {
      assert (a + b)[1..] == a[1..] + b;
      assert FileBoundary(a + b, h, at) == FileBoundary(a, h, at);
      if !HunkEnds(a, h, at) {
        BodyLocal(a[1..], b, h, at.Past(Classify(a[0]).value));
      }
    }
  }

  lemma {:induction false} HunkListLocal(a: seq<string>, b: seq<string>)
    requires b != [] && GIT_PREFIX <= b[0]
    ensures HunkList(a + b) == HunkList(a)
    decreases |a|
  {
    hide ParseHeader, HunkBody;
    NextSectionLine(b[0]);
    if a != [] && !SectionEnds(a) {
      assert (a + b)[1..] == a[1..] + b;
      assert !SectionEnds(a + b);
      if ParseHeader(a[0]).Some? {
        var h := ParseHeader(a[0]).value;
        BodyLocal(a[1..], b, h, START);
        var n := 1 + |HunkBody(a[1..], h, START)|;
        assert (a + b)[n..] == a[n..] + b;
        HunkListLocal(a[n..], b);
      } else {
        HunkListLocal(a[1..], b);
      }
    }
  }

  lemma HunksFromLocal(a: seq<string>, b: seq<string>)
    requires a != [] && b != [] && GIT_PREFIX <= b[0]
    ensures HunksFrom(a + b) == HunksFrom(a)
  {
    hide HunkList;
    NextSectionLine(b[0]);
    var n := HeaderLines(a);
    assert (a + b)[0] == a[0] && (a + b)[1] == if |a| > 1 then a[1] else b[0];
    assert HeaderLines(a + b) == n;
    assert (a + b)[n..] == a[n..] + b;
    HunkListLocal(a[n..], b);
  }

  lemma {:induction false} GitSectionLocal(a: seq<string>, b: seq<string>, st: GitState, oldPath: string,
          newPath: string)
    requires b != [] && GIT_PREFIX <= b[0] && OpenSection(a, st).None?
    ensures GitSection(a + b, st, oldPath, newPath) == GitSection(a, st, oldPath, newPath)
  {
    hide HunksFrom, GitStep, StripPrefix, Tally;
    if a != [] && !(GIT_PREFIX <= a[0]) {
      if "--- " <= a[0] {
        HunksFromLocal(a, b);
      } else {
        assert (a + b)[1..] == a[1..] + b;
        GitSectionLocal(a[1..], b, GitStep(st, a[0]), oldPath, newPath);
      }
    }
  }

  /** An open section is a file without hunks that ends the lines; only its new name depends on what follows. */
  lemma {:induction false} GitSectionOpen(a: seq<string>, b: seq<string>, st: GitState, oldPath: string,
          newPath: string)
    requires b != [] && GIT_PREFIX <= b[0] && OpenSection(a, st).Some?
    ensures var end := OpenSection(a, st).value;
            var own, longer := GitSection(a, st, oldPath, newPath), GitSection(a + b, st, oldPath, newPath);
            && own.consumed == longer.consumed == |a| && own.value.Some?
            && own.value.value.newPath == OrElse(end.movedTo, newPath)
            && longer.value == Some(own.value.value.(newPath := OrElse(end.movedTo, BorrowedName(b[0]))))
  {
    hide GitStep, StripPrefix, Tally, HunksFrom;
    if "--- " <= a[0] {
      CutSection(a, b);
    } else {
      assert (a + b)[1..] == a[1..] + b;
      GitSectionOpen(a[1..], b, GitStep(st, a[0]), oldPath, newPath);
    }
  }

  lemma CutSection(a: seq<string>, b: seq<string>)
    requires |a| == 1 && "--- " <= a[0] && b != [] && GIT_PREFIX <= b[0]
    ensures HunksFrom(a) == Parsed([], 1) && HunksFrom(a + b) == Parsed([], 1)
  {
    HunksFromLocal(a, b);
    assert a[1..] == [] && HeaderLines(a) == 1;
  }

  lemma GitFileLocal(a: seq<string>, b: seq<string>)
    requires a != [] && IsGitHeader(a[0]) && b != [] && GIT_PREFIX <= b[0] && OpenSection(a[1..], FRESH).None?
    ensures GitFile(a + b) == GitFile(a)
  {
    hide GitSection, IsGitHeader, HeaderNames, OpenSection;
    assert (a + b)[1..] == a[1..] + b;
    var names := HeaderNames(a[0]);
    GitSectionLocal(a[1..], b, FRESH, names.0, names.1);
  }

  lemma GitFileOpen(a: seq<string>, b: seq<string>)
    requires a != [] && IsGitHeader(a[0]) && b != [] && GIT_PREFIX <= b[0] && OpenSection(a[1..], FRESH).Some?
    ensures var end := OpenSection(a[1..], FRESH).value;
            var own, longer := GitFile(a), GitFile(a + b);
            && own.consumed == longer.consumed == |a| && own.value.Some?
            && own.value.value.newPath == OrElse(end.movedTo, HeaderNames(a[0]).1)
            && longer.value == Some(own.value.value.(newPath := OrElse(end.movedTo, BorrowedName(b[0]))))
  {
    hide GitSection, IsGitHeader, HeaderNames, OpenSection, BorrowedName;
    assert (a + b)[1..] == a[1..] + b;
    var names := HeaderNames(a[0]);
    GitSectionOpen(a[1..], b, FRESH, names.0, names.1);
  }

  lemma PlainFileLocal(a: seq<string>, b: seq<string>)
    requires a != [] && b != [] && GIT_PREFIX <= b[0]
    ensures IsPlainHeader(a + b) == IsPlainHeader(a)
    ensures IsPlainHeader(a) ==> PlainDiffFile(a + b) == PlainDiffFile(a)
  {
    hide HunksFrom, StripPrefix, PlainFile;
    NextSectionLine(b[0]);
    HunksFromLocal(a, b);
  }

  /** The files of the lines when a section they leave open takes its new name from the line behind them. */
  function FilesBefore(lines: seq<string>, next: string): (files: seq<DiffFile>)
    ensures |files| == |Files(lines)|
  {
    var files := Files(lines);
    if !Borrows(lines, next) || files == [] then files
    else files[|files| - 1 := files[|files| - 1].(newPath := BorrowedName(next))]
  }

  lemma FilesBeforeStep(found: seq<DiffFile>, a: seq<string>, n: nat, next: string)
    requires 0 < n <= |a| && Files(a) == found + Files(a[n..]) && OpenAt(a) == OpenAt(a[n..])
    requires Borrows(a[n..], next) ==> Files(a[n..]) != []
    ensures FilesBefore(a, next) == found + FilesBefore(a[n..], next)
  {
    hide Files, OpenAt, BorrowedName, HeaderNames, NamesNew, IsGitHeader;
  }

  lemma OpenAtStep(a: seq<string>)
    requires a != []
    ensures IsGitHeader(a[0]) && OpenSection(a[1..], FRESH).Some? ==>
              OpenAt(a) == Some(OpenEnd(a[0], OpenSection(a[1..], FRESH).value))
    ensures IsGitHeader(a[0]) && OpenSection(a[1..], FRESH).None? ==> OpenAt(a) == OpenAt(a[GitFile(a).consumed..])
    ensures !IsGitHeader(a[0]) && IsPlainHeader(a) ==> OpenAt(a) == OpenAt(a[PlainDiffFile(a).consumed..])
    ensures !IsGitHeader(a[0]) && !IsPlainHeader(a) ==> OpenAt(a) == OpenAt(a[1..])
  {
    hide IsGitHeader, IsPlainHeader, GitFile, PlainDiffFile, OpenSection;
  }

  /**
   What parsing makes of two parts, the second beginning with a git section: the files of each, but for
   the new name of a section the first part leaves open.
   */
  lemma {:induction false} FilesJoined(a: seq<string>, b: seq<string>)
    requires b != [] && IsGitHeader(b[0])
    ensures Files(a + b) == FilesBefore(a, b[0]) + Files(b)
    ensures Borrows(a, b[0]) ==> Files(a) != [] && Files(a)[|Files(a)| - 1].newPath != BorrowedName(b[0])
    decreases |a|
  {
    hide Files, IsGitHeader, OpenAt, OpenSection, FilesBefore, Borrows;
    if a == [] {
      NothingOpen(b[0]);
      assert a + b == b;
    } else if IsGitHeader(a[0]) && OpenSection(a[1..], FRESH).Some? {
      JoinedOpen(a, b);
    } else {
      var found, n := FirstSection(a, b);
      FilesJoined(a[n..], b);
      SameBorrowing(a, a[n..], b[0]);
      FilesBeforeStep(found, a, n, b[0]);
      Reassociate(found, FilesBefore(a[n..], b[0]), Files(b));
    }
  }

  /** The first section of lines that do not end in it, read alike with and without what follows. */
  lemma FirstSection(a: seq<string>, b: seq<string>) returns (found: seq<DiffFile>, n: nat)
    requires a != [] && b != [] && IsGitHeader(b[0])
    requires IsGitHeader(a[0]) ==> OpenSection(a[1..], FRESH).None?
    ensures 0 < n <= |a| && Files(a) == found + Files(a[n..]) && Files(a + b) == found + Files(a[n..] + b)
    ensures OpenAt(a) == OpenAt(a[n..])
  {
    hide Files, GitFile, PlainDiffFile, IsGitHeader, IsPlainHeader, OpenAt, OpenSection;
    GitHeaderPrefix(b[0]);
    var whole := a + b;
    assert whole[0..] == whole && a[0..] == a;
    FilesStep(whole, 0);
    FilesStep(a, 0);
    OpenAtStep(a);
    PlainFileLocal(a, b);
    found, n := [], 1;
    if IsGitHeader(a[0]) {
      GitFileLocal(a, b);
      n := GitFile(a).consumed;
      found := if GitFile(a).value.Some? then [GitFile(a).value.value] else [];
    } else if IsPlainHeader(a) {
      n := PlainDiffFile(a).consumed;
      found := [PlainDiffFile(a).value];
    }
    assert whole[n..] == a[n..] + b;
    assert [] + Files(a[n..]) == Files(a[n..]) && [] + Files(whole[n..]) == Files(whole[n..]);
  }

  lemma SameBorrowing(a: seq<string>, rest: seq<string>, next: string)
    requires OpenAt(a) == OpenAt(rest)
    ensures Borrows(a, next) == Borrows(rest, next)
  {}

  lemma NothingOpen(next: string)
    ensures FilesBefore([], next) == [] && Files([]) == [] && !Borrows([], next)
  {}

  lemma JoinedOpen(a: seq<string>, b: seq<string>)
    requires a != [] && b != [] && IsGitHeader(a[0]) && IsGitHeader(b[0]) && OpenSection(a[1..], FRESH).Some?
    ensures Files(a + b) == FilesBefore(a, b[0]) + Files(b)
    ensures Borrows(a, b[0]) ==> Files(a) != [] && Files(a)[|Files(a)| - 1].newPath != BorrowedName(b[0])
  {
    hide Files, GitFile, IsGitHeader, IsPlainHeader, OpenAt, OpenSection, BorrowedName, HeaderNames;
    GitHeaderPrefix(b[0]);
    var whole := a + b;
    assert whole[0..] == whole && a[0..] == a;
    FilesStep(whole, 0);
    FilesStep(a, 0);
    OpenAtStep(a);
    GitFileOpen(a, b);
    FilesNil();
    assert a[|a|..] == [] && whole[|a|..] == b;
    var file := GitFile(a).value.value;
    assert Files(a) == [file];
  }

  /**
   Parsing is local to git sections, exactly unless the first part leaves a section open that takes
   another new name from the second part's first line.
   */
  lemma FilesLocal(a: seq<string>, b: seq<string>)
    requires b != [] && IsGitHeader(b[0])
    ensures Files(a + b) == Files(a) + Files(b) <==> !Borrows(a, b[0])
  {
    hide Files, IsGitHeader, Borrows;
    FilesJoined(a, b);
    var files, before := Files(a), FilesBefore(a, b[0]);
    if Borrows(a, b[0]) {
      var n := |files| - 1;
      assert (before + Files(b))[n].newPath == BorrowedName(b[0]);
      assert (files + Files(b))[n].newPath != BorrowedName(b[0]);
    }
  }

  lemma GitHeaderPrefix(line: string)
    requires IsGitHeader(line)
    ensures GIT_PREFIX <= line
  {}

  lemma {:induction false} SplitConcat(a: string, b: string)
    ensures Split(a + "\n" + b) == Split(a) + Split(b)
  {
    var lines := Split(a);
    JoinSplit(a);
    SplitLines(lines, b);
  }

  lemma {:induction false} SplitLines(lines: seq<string>, b: string)
    requires lines != [] && NewlineFree(lines)
    ensures Split(Join(lines) + "\n" + b) == lines + Split(b)
  {
    if |lines| == 1 {
      SplitFirstLine(lines[0], b);
    } else {
      SplitLines(lines[1..], b);
      var rest := Join(lines[1..]) + "\n" + b;
      assert Join(lines) + "\n" + b == lines[0] + "\n" + rest;
      SplitFirstLine(lines[0], rest);
      assert lines == [lines[0]] + lines[1..];
      Reassociate([lines[0]], lines[1..], Split(b));
    }
  }

  /** The blank-text guard changes nothing: a text of white space has no files anyway. */
  lemma BlankGuardRedundant(text: string)
    ensures Diff(text) == Files(Split(text))
  {
    hide Files;
    StripBlank(text);
    if Blank(text) {
      BlankLines(text);
      NoFilesInBlankLines(Split(text));
    }
  }

  lemma {:induction false} BlankLines(text: string)
    requires Blank(text)
    ensures forall k :: 0 <= k < |Split(text)| ==> Blank(Split(text)[k])
  {
    if text != "" {
      BlankLines(text[1..]);
      assert IsSpace(text[0]);
    }
  }

  lemma {:induction false} NoFilesInBlankLines(lines: seq<string>)
    requires forall k :: 0 <= k < |lines| ==> Blank(lines[k])
    ensures Files(lines) == []
  {
    hide RegexNames;
    if lines != [] {
      assert lines[0] != "" ==> IsSpace(lines[0][0]);
      NoFilesInBlankLines(lines[1..]);
    }
  }

  /** Locality on texts: a section boundary splits a diff into two diffs, under the same condition. */
  lemma DiffLocal(a: string, b: string)
    requires IsGitHeader(Split(b)[0])
    ensures Diff(a + "\n" + b) == Diff(a) + Diff(b) <==> !Borrows(Split(a), Split(b)[0])
  {
    hide Files, Split, Borrows, IsGitHeader, Diff;
    BlankGuardRedundant(a);
    BlankGuardRedundant(b);
    BlankGuardRedundant(a + "\n" + b);
    SplitConcat(a, b);
    FilesLocal(Split(a), Split(b));
  }

  const OPEN_LINES := ["diff --git a/x b/x", "--- a/x"]
  const NEXT_LINE: string := "diff --git a/y b/y"

  /** A section cut off at its `--- ` line takes its new name from the next section's first line. */
  lemma OpenSectionReadsOn()
    ensures IsGitHeader(NEXT_LINE) && Borrows(OPEN_LINES, NEXT_LINE)
    ensures Files(OPEN_LINES + [NEXT_LINE]) != Files(OPEN_LINES) + Files([NEXT_LINE])
  {
    hide Files, GitFile, StripPrefix, IsGitHeader, GitHeaderPaths;
    SameNamesHeader('x');
    SameNamesHeader('y');
    assert OPEN_LINES[0] == "diff --git a/" + ['x'] + " b/" + ['x'];
    assert NEXT_LINE == "diff --git a/" + ['y'] + " b/" + ['y'];
    assert OPEN_LINES[1..] == ["--- a/x"] && "--- a/x"[0] == '-' && GIT_PREFIX[0] == 'd';
    assert OpenSection(OPEN_LINES[1..], FRESH) == Some(FRESH);
    assert OpenAt(OPEN_LINES) == Some(OpenEnd(OPEN_LINES[0], FRESH));
    BorrowedFromNext();
    FilesLocal(OPEN_LINES, [NEXT_LINE]);
  }

  /** The header of a section whose two names are one letter. */
  lemma SameNamesHeader(c: char)
    requires c != QUOTE && c != ' '
    ensures var line := "diff --git a/" + [c] + " b/" + [c];
            IsGitHeader(line) && HeaderNames(line) == ([c], [c])
  {
    hide GitHeaderPaths, Find;
    var names := BothNames([c]);
    var line := "diff --git a/" + [c] + " b/" + [c];
    assert line == GIT_PREFIX + names && line[|GIT_PREFIX|..] == names;
    assert names[2..] == [c] + " b/" + [c];
    assert names[0] == 'a' && SeparatorAt(names[2..], 1).Some?;
    assert LastSeparator(names[2..], |names[2..]|).Some?;
    assert RegexNames(names).Some?;
    EqualNames([c]);
  }

  lemma BorrowedFromNext()
    ensures BorrowedName(NEXT_LINE) != "x"
  {
    var rest := Drop(NEXT_LINE, 4);
    assert rest == " --git a/y b/y";
    assert LStrip(rest) == rest[1..];
    assert RStrip(rest[1..]) == rest[1..];
    assert rest[1..][0] == '-' && !IsQuoted(rest[1..]);
  }
}
