/**
 The hand-written parser for unified and git diffs.

 Each function below reads a suffix of the line list and says what the source's index loop would
 produce from there; the methods are those loops, proved to compute the functions.
 */
module DiffParser {
  import opened Options
  import opened DiffModels
  import opened HunkHeaders
  import opened Text
  import opened Paths

  // ---------------------------------------------------------------- One hunk

  /** What a body line is, None for a line that ends the hunk. */
  function Classify(line: string): Option<LineType> {
    if line == "" || line[0] == ' ' then Some(Context)
    else if line[0] == '+' then Some(Addition)
    else if line[0] == '-' then Some(Deletion)
    else if line[0] == '\\' then Some(NoNewline)
    else None
  }

  predicate OldStep(t: LineType) { t.Context? || t.Deletion? }

  predicate NewStep(t: LineType) { t.Context? || t.Addition? }

  function Step(b: bool): nat { if b then 1 else 0 }

  /** The diff line read from `line` when the sides have reached these numbers. */
  function ReadLine(line: string, oldNo: int, newNo: int): DiffLine
    requires Classify(line).Some?
  {
    var t := Classify(line).value;
    DiffLine(if OldStep(t) then Some(oldNo) else None, if NewStep(t) then Some(newNo) else None,
             if t.NoNewline? then line else Drop(line, 1), t)
  }

  /** Lines of each side read so far. */
  datatype Progress = Progress(oldSeen: nat, newSeen: nat)
  {
    function Past(t: LineType): Progress {
      Progress(oldSeen + Step(OldStep(t)), newSeen + Step(NewStep(t)))
    }

    predicate Complete(h: Header) { oldSeen >= h.oldCount && newSeen >= h.newCount }

    predicate BothFit(h: Header) { oldSeen < h.oldCount && newSeen < h.newCount }
  }

  /** `_is_file_header_boundary`. */
  predicate FileBoundary(lines: seq<string>, h: Header, at: Progress)
    requires lines != []
  {
    && |lines| > 1 && "--- " <= lines[0] && "+++ " <= lines[1]
    && (at.Complete(h) || (!at.BothFit(h) && |lines| > 2 && ParseHeader(lines[2]).Some?))
  }

  predicate HunkEnds(lines: seq<string>, h: Header, at: Progress)
    requires lines != []
  {
    || "@@ " <= lines[0] || GIT_PREFIX <= lines[0]
    || (lines[0] == "" && at.Complete(h))
    || FileBoundary(lines, h, at)
    || Classify(lines[0]).None?
  }

  /** The lines of the hunk body that `lines` begins with. */
  function HunkBody(lines: seq<string>, h: Header, at: Progress): (body: seq<DiffLine>)
    ensures |body| <= |lines|
  {
    if lines == [] || HunkEnds(lines, h, at) then []
    else [ReadLine(lines[0], h.oldStart + at.oldSeen, h.newStart + at.newSeen)]
         + HunkBody(lines[1..], h, at.Past(Classify(lines[0]).value))
  }

  function MakeHunk(line: string, h: Header, body: seq<DiffLine>): DiffHunk {
    DiffHunk(line, h.oldStart, h.oldCount, h.newStart, h.newCount, body, Strip(h.text))
  }

  const START := Progress(0, 0)

  lemma BodyStep(lines: seq<string>, i: nat, h: Header, at: Progress)
    requires i < |lines|
    ensures HunkEnds(lines[i..], h, at) ==> HunkBody(lines[i..], h, at) == []
    ensures !HunkEnds(lines[i..], h, at) ==>
              Classify(lines[i]).Some?
              && HunkBody(lines[i..], h, at)
                 == [ReadLine(lines[i], h.oldStart + at.oldSeen, h.newStart + at.newSeen)]
                    + HunkBody(lines[i + 1..], h, at.Past(Classify(lines[i]).value))
  {
    hide ReadLine, FileBoundary;
    assert lines[i..][1..] == lines[i + 1..];
  }

  lemma BodyNil(h: Header, at: Progress)
    ensures HunkBody([], h, at) == []
  {}

  method ParseSingleHunk(lines: seq<string>, start: nat) returns (hunk: DiffHunk, consumed: nat)
    requires start < |lines| && ParseHeader(lines[start]).Some?
    ensures var h := ParseHeader(lines[start]).value;
            var body := HunkBody(lines[start + 1..], h, START);
            hunk == MakeHunk(lines[start], h, body) && consumed == 1 + |body|
  {
    hide ReadLine, HunkEnds, HunkBody, ParseHeader, Classify;
    var h := ParseHeader(lines[start]).value;
    var diffLines := [];
    var at := START;
    var i := start + 1;
    while i < |lines|
      invariant start + 1 <= i <= |lines|
      invariant |diffLines| == i - (start + 1)
      invariant diffLines + HunkBody(lines[i..], h, at) == HunkBody(lines[start + 1..], h, START)
    {
      BodyStep(lines, i, h, at);
      if HunkEnds(lines[i..], h, at) {
        break;
      }
      var line := ReadLine(lines[i], h.oldStart + at.oldSeen, h.newStart + at.newSeen);
      Reassociate(diffLines, [line], HunkBody(lines[i + 1..], h, at.Past(Classify(lines[i]).value)));
      diffLines := diffLines + [line];
      at := at.Past(Classify(lines[i]).value);
      i := i + 1;
    }
    assert HunkBody(lines[i..], h, at) == [] by {
      if i == |lines| {
        BodyNil(h, at);
      }
    }
    assert diffLines + [] == diffLines;
    return MakeHunk(lines[start], h, diffLines), i - start;
  }

  // ---------------------------------------------------------------- All hunks of a section

  /** A following section begins here. */
  predicate SectionEnds(lines: seq<string>)
    requires lines != []
  {
    GIT_PREFIX <= lines[0] || ("--- " <= lines[0] && |lines| > 1 && "+++ " <= lines[1])
  }

  datatype Parsed<T> = Parsed(value: T, consumed: nat)

  function HunkList(lines: seq<string>): (r: Parsed<seq<DiffHunk>>)
    ensures r.consumed <= |lines|
    decreases |lines|
  {
    if lines == [] || SectionEnds(lines) then Parsed([], 0)
    else if ParseHeader(lines[0]).Some? then
      var h := ParseHeader(lines[0]).value;
      var body := HunkBody(lines[1..], h, START);
      var rest := HunkList(lines[1 + |body|..]);
      Parsed([MakeHunk(lines[0], h, body)] + rest.value, 1 + |body| + rest.consumed)
    else
      var rest := HunkList(lines[1..]);
      Parsed(rest.value, 1 + rest.consumed)
  }

  /** The `---` and `+++` lines at the front, when they are there. */
  function HeaderLines(lines: seq<string>): (n: nat)
    ensures n <= |lines|
  {
    var first := Step(lines != [] && "--- " <= lines[0]);
    first + Step(|lines| > first && "+++ " <= lines[first])
  }

  function HunksFrom(lines: seq<string>): (r: Parsed<seq<DiffHunk>>)
    ensures r.consumed <= |lines|
    ensures lines != [] && "--- " <= lines[0] ==> r.consumed > 0
  {
    var skip := HeaderLines(lines);
    var rest := HunkList(lines[skip..]);
    Parsed(rest.value, skip + rest.consumed)
  }

  lemma HunkListStep(lines: seq<string>, i: nat)
    requires i < |lines|
    ensures SectionEnds(lines[i..]) ==> HunkList(lines[i..]) == Parsed([], 0)
    ensures !SectionEnds(lines[i..]) && ParseHeader(lines[i]).Some? ==>
              var h := ParseHeader(lines[i]).value;
              var body := HunkBody(lines[i + 1..], h, START);
              var rest := HunkList(lines[i + 1 + |body|..]);
              HunkList(lines[i..]) == Parsed([MakeHunk(lines[i], h, body)] + rest.value, 1 + |body| + rest.consumed)
    ensures !SectionEnds(lines[i..]) && ParseHeader(lines[i]).None? ==>
              var rest := HunkList(lines[i + 1..]);
              HunkList(lines[i..]) == Parsed(rest.value, 1 + rest.consumed)
  {
    hide HunkBody, MakeHunk, ParseHeader, SectionEnds;
    assert lines[i..][1..] == lines[i + 1..];
    if !SectionEnds(lines[i..]) && ParseHeader(lines[i]).Some? {
      var body := HunkBody(lines[i + 1..], ParseHeader(lines[i]).value, START);
      assert lines[i..][1 + |body|..] == lines[i + 1 + |body|..];
    }
  }

  lemma HunkListNil()
    ensures HunkList([]) == Parsed([], 0)
  {}

  method ParseHunksFrom(lines: seq<string>, start: nat) returns (hunks: seq<DiffHunk>, consumed: nat)
    requires start <= |lines|
    ensures Parsed(hunks, consumed) == HunksFrom(lines[start..])
  {
    hide HunkList, HunkBody, MakeHunk, ParseHeader, SectionEnds;
    var i := start;
    if i < |lines| && "--- " <= lines[i] {
      i := i + 1;
    }
    if i < |lines| && "+++ " <= lines[i] {
      i := i + 1;
    }
    ghost var skipped := lines[start..][i - start..];
    assert i - start == HeaderLines(lines[start..]) && skipped == lines[i..];
    hunks := [];
    ghost var first := i;
    while i < |lines|
      invariant first <= i <= |lines|
      invariant hunks + HunkList(lines[i..]).value == HunkList(skipped).value
      invariant i - first + HunkList(lines[i..]).consumed == HunkList(skipped).consumed
    {
      HunkListStep(lines, i);
      if SectionEnds(lines[i..]) {
        break;
      }
      if ParseHeader(lines[i]).Some? {
        var hunk, taken := ParseSingleHunk(lines, i);
        Reassociate(hunks, [hunk], HunkList(lines[i + taken..]).value);
        hunks := hunks + [hunk];
        i := i + taken;
      } else {
        i := i + 1;
      }
    }
    HunkListNil();
    assert HunkList(lines[i..]) == Parsed([], 0);
    assert hunks + [] == hunks;
    consumed := i - start;
  }

  // ---------------------------------------------------------------- Extended headers of a git section

  /** What the extended header lines have said so far. */
  datatype GitState = GitState(status: FileStatus, isBinary: bool, oldMode: Option<string>, newMode: Option<string>,
                               movedFrom: Option<string>, movedTo: Option<string>)

  const FRESH := GitState(Modified, false, None, None, None, None)

  predicate IsFileMode(value: string) {
    1 <= |value| <= 7 && forall k :: 0 <= k < |value| ==> IsOctal(value[k])
  }

  function HeaderMode(line: string, prefix: string): Option<string> {
    if !(prefix <= line) then None
    else
      var mode := Strip(line[|prefix|..]);
      if IsFileMode(mode) then Some(mode) else None
  }

  function Or<T>(first: Option<T>, second: Option<T>): Option<T> {
    if first.Some? then first else second
  }

  /** One header line; lines the parser only skips leave the state alone. */
  function GitStep(st: GitState, line: string): GitState {
    if "new file" <= line then
      st.(status := Added, newMode := Or(HeaderMode(line, "new file mode "), st.newMode))
    else if "deleted file" <= line then
      st.(status := Deleted, oldMode := Or(HeaderMode(line, "deleted file mode "), st.oldMode))
    else if "old mode " <= line then st.(oldMode := HeaderMode(line, "old mode "))
    else if "new mode " <= line then st.(newMode := HeaderMode(line, "new mode "))
    else if "rename from " <= line then st.(status := Renamed, movedFrom := Some(Unquoted(line[12..])))
    else if "copy from " <= line then st.(status := Renamed, movedFrom := Some(Unquoted(line[10..])))
    else if "rename to " <= line then st.(status := Renamed, movedTo := Some(Unquoted(line[10..])))
    else if "copy to " <= line then st.(status := Renamed, movedTo := Some(Unquoted(line[8..])))
    else if "rename from" <= line || "rename to" <= line || "copy from" <= line || "copy to" <= line then
      st.(status := Renamed)
    else if "Binary files" <= line then st.(isBinary := true)
    else st
  }

  /** Python's `first or second` on an optional text: an empty text counts as absent. */
  function OrElse(first: Option<string>, second: string): string {
    if first.Some? && first.value != "" then first.value else second
  }

  predicate ModeOnly(st: GitState, hasContent: bool) {
    !hasContent && (st.status.Modified? || st.status.Renamed?)
    && st.oldMode.Some? && st.newMode.Some? && st.oldMode != st.newMode
  }

  function PlainFile(oldPath: string, newPath: string, status: FileStatus, hunks: seq<DiffHunk>): DiffFile {
    DiffFile(oldPath, newPath, status, hunks, Tally(hunks, Addition), Tally(hunks, Deletion),
             false, false, false, false, false, false, None, None, false)
  }

  /** The file of a section that has a `---` line, which `lines` begins with. */
  function FileWithHunks(st: GitState, newPath: string, lines: seq<string>, hunks: seq<DiffHunk>): DiffFile
    requires lines != []
  {
    var oldName := OrElse(st.movedFrom, StripPrefix(Drop(lines[0], 4)));
    var newName := OrElse(st.movedTo, if |lines| > 1 then StripPrefix(Drop(lines[1], 4)) else newPath);
    PlainFile(oldName, newName, st.status, hunks).(
      isBinary := st.isBinary, isModeOnly := ModeOnly(st, hunks != [] || st.isBinary),
      oldMode := st.oldMode, newMode := st.newMode)
  }

  /** The file of a section without hunks, None when it says nothing worth a file. */
  function FileWithoutHunks(st: GitState, oldPath: string, newPath: string): Option<DiffFile> {
    var oldName, newName := OrElse(st.movedFrom, oldPath), OrElse(st.movedTo, newPath);
    var modeOnly := ModeOnly(st, st.isBinary);
    if st.isBinary || modeOnly || !st.status.Modified? then
      Some(PlainFile(oldName, newName, st.status, []).(
        isBinary := st.isBinary, isModeOnly := modeOnly,
        isRenameOnly := st.status.Renamed? && !st.isBinary && !modeOnly && oldName != newName,
        oldMode := st.oldMode, newMode := st.newMode))
    else None
  }

  /** The rest of a git section, behind its first line. */
  function GitSection(lines: seq<string>, st: GitState, oldPath: string, newPath: string): (r: Parsed<Option<DiffFile>>)
    ensures r.consumed <= |lines|
  {
    if lines == [] || GIT_PREFIX <= lines[0] then Parsed(FileWithoutHunks(st, oldPath, newPath), 0)
    else if "--- " <= lines[0] then
      var hunks := HunksFrom(lines);
      Parsed(Some(FileWithHunks(st, newPath, lines, hunks.value)), hunks.consumed)
    else
      var rest := GitSection(lines[1..], GitStep(st, lines[0]), oldPath, newPath);
      Parsed(rest.value, 1 + rest.consumed)
  }

  function HeaderNames(line: string): (string, string)
    requires IsGitHeader(line)
  {
    GitHeaderPaths(line[|GIT_PREFIX|..])
  }

  function GitFile(lines: seq<string>): (r: Parsed<Option<DiffFile>>)
    requires lines != [] && IsGitHeader(lines[0])
    ensures 0 < r.consumed <= |lines|
  {
    var names := HeaderNames(lines[0]);
    var rest := GitSection(lines[1..], FRESH, names.0, names.1);
    Parsed(rest.value, 1 + rest.consumed)
  }

  method ParseGitDiffFile(lines: seq<string>, start: nat) returns (file: Option<DiffFile>, consumed: nat)
    requires start < |lines| && IsGitHeader(lines[start])
    ensures Parsed(file, consumed) == GitFile(lines[start..])
  {
    hide HeaderNames, GitStep, FileWithHunks, FileWithoutHunks, HunksFrom, IsGitHeader, Tally;
    var (oldPath, newPath) := HeaderNames(lines[start]);
    assert lines[start..][1..] == lines[start + 1..];
    var i := start + 1;
    var st := FRESH;
    while i < |lines|
      invariant start + 1 <= i <= |lines|
      invariant GitSection(lines[start + 1..], FRESH, oldPath, newPath).value
             == GitSection(lines[i..], st, oldPath, newPath).value
      invariant GitSection(lines[start + 1..], FRESH, oldPath, newPath).consumed
             == i - (start + 1) + GitSection(lines[i..], st, oldPath, newPath).consumed
    {
      if GIT_PREFIX <= lines[i] {
        break;
      }
      if "--- " <= lines[i] {
        var hunks, taken := ParseHunksFrom(lines, i);
        return Some(FileWithHunks(st, newPath, lines[i..], hunks)), i + taken - start;
      }
      assert lines[i..][1..] == lines[i + 1..];
      st := GitStep(st, lines[i]);
      i := i + 1;
    }
    return FileWithoutHunks(st, oldPath, newPath), i - start;
  }

  // ---------------------------------------------------------------- Files without a git header

  /** `FILE_HEADER_RE` and `FILE_HEADER_NEW_RE` on the first two lines. */
  predicate IsPlainHeader(lines: seq<string>) {
    |lines| > 1 && "--- " <= lines[0] && |lines[0]| > 4 && "+++ " <= lines[1] && |lines[1]| > 4
  }

  function PlainDiffFile(lines: seq<string>): (r: Parsed<DiffFile>)
    requires IsPlainHeader(lines)
    ensures 0 < r.consumed <= |lines|
  {
    var oldPath, newPath := StripPrefix(lines[0][4..]), StripPrefix(lines[1][4..]);
    var hunks := HunksFrom(lines);
    var status := if oldPath == "/dev/null" then Added else if newPath == "/dev/null" then Deleted else Modified;
    Parsed(PlainFile(oldPath, newPath, status, hunks.value), hunks.consumed)
  }

  method ParsePlainDiffFile(lines: seq<string>, start: nat) returns (file: DiffFile, consumed: nat)
    requires start < |lines| && IsPlainHeader(lines[start..])
    ensures Parsed(file, consumed) == PlainDiffFile(lines[start..])
  {
    hide HunksFrom, StripPrefix;
    var oldPath, newPath := StripPrefix(lines[start][4..]), StripPrefix(lines[start + 1][4..]);
    var hunks;
    hunks, consumed := ParseHunksFrom(lines, start);
    var status := if oldPath == "/dev/null" then Added else if newPath == "/dev/null" then Deleted else Modified;
    var additions := CountLines(hunks, Addition);
    var deletions := CountLines(hunks, Deletion);
    file := PlainFile(oldPath, newPath, status, hunks).(additions := additions, deletions := deletions);
  }

  // ---------------------------------------------------------------- The whole diff

  function Files(lines: seq<string>): seq<DiffFile>
    decreases |lines|
  {
    if lines == [] then []
    else if IsGitHeader(lines[0]) then
      var section := GitFile(lines);
      (if section.value.Some? then [section.value.value] else []) + Files(lines[section.consumed..])
    else if IsPlainHeader(lines) then
      var section := PlainDiffFile(lines);
      [section.value] + Files(lines[section.consumed..])
    else Files(lines[1..])
  }

  function Diff(text: string): seq<DiffFile> {
    if Strip(text) == "" then [] else Files(Split(text))
  }

  lemma FilesNil()
    ensures Files([]) == []
  {}

  lemma FilesStep(lines: seq<string>, i: nat)
    requires i < |lines|
    ensures IsGitHeader(lines[i]) ==>
              var section := GitFile(lines[i..]);
              Files(lines[i..]) == (if section.value.Some? then [section.value.value] else [])
                                   + Files(lines[i + section.consumed..])
    ensures !IsGitHeader(lines[i]) && IsPlainHeader(lines[i..]) ==>
              var section := PlainDiffFile(lines[i..]);
              Files(lines[i..]) == [section.value] + Files(lines[i + section.consumed..])
    ensures !IsGitHeader(lines[i]) && !IsPlainHeader(lines[i..]) ==> Files(lines[i..]) == Files(lines[i + 1..])
  {
    hide GitFile, PlainDiffFile, IsGitHeader, IsPlainHeader;
    assert lines[i..][1..] == lines[i + 1..];
    if IsGitHeader(lines[i]) {
      var n := GitFile(lines[i..]).consumed;
      assert lines[i..][n..] == lines[i + n..];
    } else if IsPlainHeader(lines[i..]) {
      var n := PlainDiffFile(lines[i..]).consumed;
      assert lines[i..][n..] == lines[i + n..];
    }
  }

  method ParseLines(lines: seq<string>) returns (files: seq<DiffFile>)
    ensures files == Files(lines)
  {
    hide Files, GitFile, PlainDiffFile, IsGitHeader, IsPlainHeader;
    files := [];
    var i := 0;
    assert lines[0..] == lines;
    while i < |lines|
      invariant i <= |lines|
      invariant files + Files(lines[i..]) == Files(lines)
    {
      FilesStep(lines, i);
      if IsGitHeader(lines[i]) {
        var file, consumed := ParseGitDiffFile(lines, i);
        var found := if file.Some? then [file.value] else [];
        Reassociate(files, found, Files(lines[i + consumed..]));
        files := files + found;
        i := i + consumed;
      } else if IsPlainHeader(lines[i..]) {
        var file, consumed := ParsePlainDiffFile(lines, i);
        Reassociate(files, [file], Files(lines[i + consumed..]));
        files := files + [file];
        i := i + consumed;
      } else {
        i := i + 1;
      }
    }
    FilesNil();
    assert lines[i..] == [] && files + [] == files;
  }

  method ParseDiff(text: string) returns (files: seq<DiffFile>)
    ensures files == Diff(text)
  {
    if text == "" || Strip(text) == "" {
      return [];
    }
    files := ParseLines(Split(text));
  }
}
