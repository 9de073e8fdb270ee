/**
 Whole git diffs: what is read back of the text git writes for a list of changed files, with their paths,
 status, modes, flags and hunks, and when those are exactly the files it was written for.
 */
module GitDiffs {
  import opened Options
  import opened DiffModels
  import opened HunkHeaders
  import opened Text
  import opened Paths
  import opened DiffParser
  import opened ParserLaws

  // ---------------------------------------------------------------- What git writes

  /**
   A path as git writes it, bare or quoted; quoted, its bytes may be spelled in any way, with and without
   the `a/` or `b/` in front.
   */
  datatype Name = Bare(path: string) | Spelled(path: string, plain: seq<Piece>, sided: seq<Piece>)
  {
    /** git quotes a path that holds a quote, and leaves the prefix as it is. */
    ghost predicate Valid(side: string) {
      && path != ""
      && (Bare? ==> QUOTE !in path)
      && (Spelled? ==> Spells(plain, path) && Spells(sided, side + path) && side <= PrintPieces(sided))
    }

    function Plain(): string {
      if Bare? then path else Quote(plain)
    }

    function Sided(side: string): string {
      if Bare? then side + path else Quote(sided)
    }

    /** On a file header line git puts a tab behind a name that holds a space. */
    function OnLine(side: string): string {
      Sided(side) + if ' ' in Sided(side) then "\t" else ""
    }

    /** What is read of it there: the parser strips such a line, and a bare path may end in white space. */
    function Kept(): string {
      if Bare? then RStrip(path) else path
    }

    predicate EndsBlank()
      requires path != ""
    {
      Bare? && IsSpace(path[|path| - 1])
    }
  }

  datatype Kind = Edit | Create(mode: string) | Delete(mode: string) | Rename | Copy

  datatype Body = Hunks(hunks: seq<DiffHunk>) | Binary(rest: string) | Nothing

  const DEV_NULL: string := "/dev/null"

  /** One changed file. `notes` and `index` are lines the parser only skips. */
  datatype Change = Change(source: Name, target: Name, kind: Kind, modes: Option<(string, string)>,
                           notes: seq<string>, index: seq<string>, body: Body)
  {
    predicate Moved() {
      kind.Rename? || kind.Copy?
    }

    /**
     Only a moved file has two paths, git quotes a path or leaves it bare on both sides, and only a file that
     was there before and after changes its mode.
     */
    ghost predicate Valid() {
      && source.Valid("a/") && target.Valid("b/") && (!Moved() ==> source.path == target.path)
      && (source.path == target.path ==> source.Bare? == target.Bare?)
      && (kind.Create? || kind.Delete? ==> IsFileMode(kind.mode) && modes.None?)
      && (modes.Some? ==> IsFileMode(modes.value.0) && IsFileMode(modes.value.1))
      && AllNotes(notes) && AllNotes(index)
      && (body.Hunks? ==> AllWellFormed(body.hunks))
    }

    function Header(): string {
      GIT_PREFIX + (source.Sided("a/") + " " + target.Sided("b/"))
    }

    function ModeLines(): seq<string> {
      if modes.None? then [] else ["old mode " + modes.value.0, "new mode " + modes.value.1]
    }

    function KindLines(): seq<string> {
      match kind
      case Edit => []
      case Create(mode) => ["new file mode " + mode]
      case Delete(mode) => ["deleted file mode " + mode]
      case Rename => ["rename from " + source.Plain(), "rename to " + target.Plain()]
      case Copy => ["copy from " + source.Plain(), "copy to " + target.Plain()]
    }

    function BinaryLines(): seq<string> {
      if body.Binary? then ["Binary files" + body.rest] else []
    }

    function OldLine(): string {
      "--- " + if kind.Create? then DEV_NULL else source.OnLine("a/")
    }

    function NewLine(): string {
      "+++ " + if kind.Delete? then DEV_NULL else target.OnLine("b/")
    }

    function HunkLines(): seq<string> {
      if body.Hunks? then [OldLine(), NewLine()] + PrintHunks(body.hunks) else []
    }

    function Extended(): seq<string> {
      ModeLines() + (notes + (KindLines() + (index + BinaryLines())))
    }

    function Section(): seq<string> {
      [Header()] + (Extended() + HunkLines())
    }

    // What must be read back.

    function Status(): FileStatus {
      match kind
      case Edit => Modified
      case Create(_) => Added
      case Delete(_) => Deleted
      case _ => Renamed
    }

    /** What the extended headers say. */
    function Said(): GitState {
      GitState(Status(), body.Binary?,
               if kind.Delete? then Some(kind.mode) else if modes.Some? then Some(modes.value.0) else None,
               if kind.Create? then Some(kind.mode) else if modes.Some? then Some(modes.value.1) else None,
               if Moved() then Some(source.path) else None, if Moved() then Some(target.path) else None)
    }

    predicate ModeChanged() {
      modes.Some? && modes.value.0 != modes.value.1
    }

    /**
     The file under these paths: a created one has no old path and a deleted one no new path where there are
     hunks; a change of the mode alone is kept as such, and an edit that says nothing else is no file at all.
     */
    function File(oldPath: string, newPath: string): Option<DiffFile> {
      var hunks := if body.Hunks? then body.hunks else [];
      var modeOnly := hunks == [] && !body.Binary? && ModeChanged();
      if kind.Edit? && body.Nothing? && !modeOnly then None
      else
        Some(PlainFile(if body.Hunks? && kind.Create? then DEV_NULL else oldPath,
                       if body.Hunks? && kind.Delete? then DEV_NULL else newPath, Status(), hunks).(
          isBinary := body.Binary?, isModeOnly := modeOnly,
          isRenameOnly := Moved() && body.Nothing? && !modeOnly && oldPath != newPath,
          oldMode := Said().oldMode, newMode := Said().newMode))
    }

    function Meant(): Option<DiffFile> {
      File(source.path, target.path)
    }

    /** What is read: without moving lines, the names of a file with hunks come from its file header lines. */
    function Read(): Option<DiffFile> {
      if body.Hunks? && !Moved() then File(source.Kept(), target.Kept()) else Meant()
    }

    /** None of the names that are read from a file header line is bare and ends in white space. */
    predicate NamesKept()
      requires source.path != "" && target.path != ""
    {
      body.Hunks? && !Moved() ==> (kind.Create? || !source.EndsBlank()) && (kind.Delete? || !target.EndsBlank())
    }
  }

  /** Any line of no kind the parser knows, such as an `index` or a `similarity index` line. */
  predicate IsNote(line: string) {
    && !("new file" <= line) && !("deleted file" <= line) && !("old mode " <= line) && !("new mode " <= line)
    && !("rename from" <= line) && !("rename to" <= line) && !("copy from" <= line) && !("copy to" <= line)
    && !("Binary files" <= line) && !("diff --git " <= line) && !("--- " <= line)
  }

  predicate AllNotes(lines: seq<string>) {
    forall k :: 0 <= k < |lines| ==> IsNote(lines[k])
  }

  ghost predicate AllValid(changes: seq<Change>) {
    forall k :: 0 <= k < |changes| ==> changes[k].Valid()
  }

  function PrintDiff(changes: seq<Change>): seq<string> {
    if changes == [] then [] else changes[0].Section() + PrintDiff(changes[1..])
  }

  function Listed(file: Option<DiffFile>): seq<DiffFile> {
    if file.Some? then [file.value] else []
  }

  function MeantFiles(changes: seq<Change>): seq<DiffFile> {
    if changes == [] then [] else Listed(changes[0].Meant()) + MeantFiles(changes[1..])
  }

  function ReadFiles(changes: seq<Change>): seq<DiffFile> {
    if changes == [] then [] else Listed(changes[0].Read()) + ReadFiles(changes[1..])
  }

  ghost predicate AllNamesKept(changes: seq<Change>)
    requires AllValid(changes)
  {
    forall k :: 0 <= k < |changes| ==> changes[k].NamesKept()
  }

  // ---------------------------------------------------------------- Names

  lemma PlainRead(name: Name, side: string)
    requires name.Valid(side)
    ensures Unquoted(name.Plain()) == name.path
  {
    hide Quote;
    if name.Spelled? {
      QuoteRoundTrip(name.plain, name.path);
    }
  }

  lemma SidedRead(name: Name, side: string)
    requires name.Valid(side) && (side == "a/" || side == "b/")
    ensures StripPrefix(name.OnLine(side)) == name.Kept() == StripPrefix(name.Sided(side))
    ensures name.Kept() == name.path <==> !name.EndsBlank()
  {
    hide StripPrefix, Spells, RStrip;
    var sided := name.Sided(side);
    TabStripped(sided);
    assert sided + "" == sided;
    if name.Bare? {
      StripUnquoted(side, name.path);
      RStripShortens(name.path);
    } else {
      StripQuotedName(name.sided, side, name.path);
    }
  }

  lemma TabStripped(text: string)
    requires text != "" && !IsSpace(text[0])
    ensures StripPrefix(text + "\t") == StripPrefix(text)
  {
    hide Unquoted;
    var tabbed := text + "\t";
    assert tabbed[..|tabbed| - 1] == text;
  }

  lemma DevNullRead()
    ensures StripPrefix(DEV_NULL) == DEV_NULL
  {
    StripNothing(DEV_NULL);
    assert DEV_NULL[0] == '/';
  }

  /** git's first line is recognised. */
  lemma HeaderRecognised(source: Name, target: Name)
    requires source.Valid("a/") && target.Valid("b/")
    ensures IsGitHeader(GIT_PREFIX + (source.Sided("a/") + " " + target.Sided("b/")))
  {
    hide Spells, PrintPieces, LastSeparator, SeparatorAt;
    var names := source.Sided("a/") + " " + target.Sided("b/");
    assert (GIT_PREFIX + names)[|GIT_PREFIX|..] == names;
    var x, y := FrontOf(source), target.Sided("b/");
    TargetBegins(target);
    NamesBody(source, y);
    SeparatorFound(x, y);
    SomeSeparator(x + (" " + y), |x|);
  }

  lemma SomeSeparator(body: string, k: nat)
    requires 0 < k < |body| && SeparatorAt(body, k).Some?
    ensures LastSeparator(body, |body|).Some?
  {
    hide LastSeparator, SeparatorAt;
  }

  /** The source name in the header, behind its `a/`. */
  function FrontOf(source: Name): string {
    if source.Bare? then source.path else Drop(PrintPieces(source.sided), 2) + [QUOTE]
  }

  lemma NamesBody(source: Name, y: string)
    requires source.Valid("a/")
    ensures var names := source.Sided("a/") + " " + y;
            && FrontOf(source) != ""
            && (if "\"a/" <= names then names[3..] else if "a/" <= names then names[2..] else "")
               == FrontOf(source) + (" " + y)
  {
    hide Spells, PrintPieces;
    var names := source.Sided("a/") + " " + y;
    if source.Bare? {
      assert names[0] == 'a';
      assert names == "a/" + (source.path + (" " + y));
    } else {
      var p := PrintPieces(source.sided);
      assert p[..2] == "a/";
      assert p == "a/" + p[2..];
      assert names == [QUOTE] + p + [QUOTE] + (" " + y);
      assert names[..3] == "\"a/";
      assert names[3..] == FrontOf(source) + (" " + y);
    }
  }

  lemma TargetBegins(target: Name)
    requires target.Valid("b/")
    ensures var y := target.Sided("b/"); ("b/" <= y && |y| > 2) || ("\"b/" <= y && |y| > 3)
  {
    hide Spells, PrintPieces;
    if target.Spelled? {
      var p := PrintPieces(target.sided);
      assert p[..2] == "b/";
      assert ([QUOTE] + p + [QUOTE])[..3] == "\"b/";
    }
  }

  lemma SeparatorFound(x: string, y: string)
    requires x != "" && (("b/" <= y && |y| > 2) || ("\"b/" <= y && |y| > 3))
    ensures var body := x + (" " + y);
            0 < |x| < |body| && SeparatorAt(body, |x|).Some?
  {
    var body := x + (" " + y);
    assert body[|x|..] == " " + y;
    assert (" " + y)[1..] == y;
    if "b/" <= y {
      assert (" " + y)[..3] == " b/";
    } else {
      assert (" " + y)[..4] == " \"b/";
    }
  }

  /** Its two names are read back wherever the parser relies on them: whenever the file did not move. */
  lemma HeaderRead(source: Name, target: Name)
    requires source.Valid("a/") && target.Valid("b/")
    requires source.path == target.path && source.Bare? == target.Bare?
    ensures GitHeaderPaths(source.Sided("a/") + " " + target.Sided("b/")) == (source.path, target.path)
  {
    hide Spells, GitHeaderPaths, StripPrefix, Find, Quote;
    var path := source.path;
    if source.Spelled? {
      QuotedBothNames(source.sided, target.sided, path, path);
    } else {
      assert path[|path| - 1] in path;
      EqualNames(path);
      assert BothNames(path) == source.Sided("a/") + " " + target.Sided("b/");
    }
  }

  // ---------------------------------------------------------------- Extended headers

  /** What a list of header lines leaves of a state. */
  function Fold(lines: seq<string>, st: GitState): GitState {
    if lines == [] then st else Fold(lines[1..], GitStep(st, lines[0]))
  }

  /** The line ends neither the section nor its headers. */
  predicate Harmless(line: string) {
    !(GIT_PREFIX <= line) && !("--- " <= line)
  }

  ghost predicate AllHarmless(lines: seq<string>) {
    forall k :: 0 <= k < |lines| ==> Harmless(lines[k])
  }

  lemma {:induction false} FoldAppend(x: seq<string>, y: seq<string>, st: GitState)
    ensures Fold(x + y, st) == Fold(y, Fold(x, st))
  {
    hide GitStep;
    if x == [] {
      assert x + y == y;
    } else {
      assert (x + y)[1..] == x[1..] + y;
      FoldAppend(x[1..], y, GitStep(st, x[0]));
    }
  }

  lemma FoldOne(line: string, st: GitState)
    ensures Fold([line], st) == GitStep(st, line) && Fold([], st) == st
  {
    hide GitStep;
    assert [line][1..] == [];
  }

  lemma FoldTwo(x: string, y: string, st: GitState)
    ensures Fold([x, y], st) == GitStep(GitStep(st, x), y)
  {
    hide GitStep, Fold;
    assert [x, y] == [x] + [y];
    FoldAppend([x], [y], st);
    FoldOne(x, st);
    FoldOne(y, GitStep(st, x));
  }

  /** Header lines only add up to the state in which the rest of the section is read. */
  lemma {:induction false} HeadersRead(lines: seq<string>, rest: seq<string>, st: GitState, oldPath: string,
          newPath: string)
    requires AllHarmless(lines)
    ensures GitSection(lines + rest, st, oldPath, newPath).value
         == GitSection(rest, Fold(lines, st), oldPath, newPath).value
    ensures GitSection(lines + rest, st, oldPath, newPath).consumed
         == |lines| + GitSection(rest, Fold(lines, st), oldPath, newPath).consumed
    ensures OpenSection(lines + rest, st) == OpenSection(rest, Fold(lines, st))
  {
    hide GitStep, HunksFrom, FileWithHunks, FileWithoutHunks;
    if lines == [] {
      assert lines + rest == rest;
    } else {
      assert Harmless(lines[0]);
      assert (lines + rest)[1..] == lines[1..] + rest;
      HeadersRead(lines[1..], rest, GitStep(st, lines[0]), oldPath, newPath);
    }
  }

  lemma NoteStep(st: GitState, line: string)
    requires IsNote(line)
    ensures GitStep(st, line) == st && Harmless(line)
  {
    hide HeaderMode, Unquoted;
    assert "rename from" <= "rename from " && "rename to" <= "rename to ";
    assert "copy from" <= "copy from " && "copy to" <= "copy to ";
  }

  lemma {:induction false} NotesFold(notes: seq<string>, st: GitState)
    requires AllNotes(notes)
    ensures Fold(notes, st) == st && AllHarmless(notes)
  {
    hide GitStep, Harmless, IsNote;
    if notes != [] {
      NoteStep(st, notes[0]);
      NotesFold(notes[1..], st);
      assert forall k :: 1 <= k < |notes| ==> notes[k] == notes[1..][k - 1];
    }
  }

  lemma ModeRead(prefix: string, mode: string)
    requires IsFileMode(mode)
    ensures HeaderMode(prefix + mode, prefix) == Some(mode)
  {
    assert IsOctal(mode[0]) && IsOctal(mode[|mode| - 1]);
    StripNothing(mode);
    assert (prefix + mode)[|prefix|..] == mode;
  }

  lemma OldModeStep(st: GitState, mode: string)
    requires IsFileMode(mode)
    ensures GitStep(st, "old mode " + mode) == st.(oldMode := Some(mode)) && Harmless("old mode " + mode)
  {
    hide HeaderMode;
    var line := "old mode " + mode;
    assert line[0] == 'o';
    ModeRead("old mode ", mode);
  }

  lemma NewModeStep(st: GitState, mode: string)
    requires IsFileMode(mode)
    ensures GitStep(st, "new mode " + mode) == st.(newMode := Some(mode)) && Harmless("new mode " + mode)
  {
    hide HeaderMode;
    var line := "new mode " + mode;
    assert line[0] == 'n' && line[4] == 'm' && "new file"[4] == 'f';
    ModeRead("new mode ", mode);
  }

  lemma CreateStep(st: GitState, mode: string)
    requires IsFileMode(mode)
    ensures var line := "new file mode " + mode;
            GitStep(st, line) == st.(status := Added, newMode := Some(mode)) && Harmless(line)
  {
    hide HeaderMode;
    var line := "new file mode " + mode;
    assert line[..8] == "new file" && line[0] == 'n';
    ModeRead("new file mode ", mode);
  }

  lemma DeleteStep(st: GitState, mode: string)
    requires IsFileMode(mode)
    ensures var line := "deleted file mode " + mode;
            GitStep(st, line) == st.(status := Deleted, oldMode := Some(mode)) && Harmless(line)
  {
    hide HeaderMode;
    var line := "deleted file mode " + mode;
    assert line[..12] == "deleted file" && line[0] == 'd' && line[1] == 'e' && GIT_PREFIX[1] == 'i';
    ModeRead("deleted file mode ", mode);
  }

  lemma RenameSteps(st: GitState, x: string, y: string)
    ensures var from_, to := "rename from " + x, "rename to " + y;
            && GitStep(st, from_) == st.(status := Renamed, movedFrom := Some(Unquoted(x))) && Harmless(from_)
            && GitStep(st, to) == st.(status := Renamed, movedTo := Some(Unquoted(y))) && Harmless(to)
  {
    hide Unquoted, HeaderMode;
    var from_, to := "rename from " + x, "rename to " + y;
    assert from_[0] == 'r' && from_[12..] == x;
    assert to[0] == 'r' && to[7] == 't' && "rename from "[7] == 'f' && to[10..] == y;
  }

  lemma CopySteps(st: GitState, x: string, y: string)
    ensures var from_, to := "copy from " + x, "copy to " + y;
            && GitStep(st, from_) == st.(status := Renamed, movedFrom := Some(Unquoted(x))) && Harmless(from_)
            && GitStep(st, to) == st.(status := Renamed, movedTo := Some(Unquoted(y))) && Harmless(to)
  {
    hide Unquoted, HeaderMode;
    var from_, to := "copy from " + x, "copy to " + y;
    assert from_[0] == 'c' && from_[10..] == x;
    assert to[0] == 'c' && to[5] == 't' && "copy from "[5] == 'f' && to[8..] == y;
  }

  lemma BinaryStep(st: GitState, rest: string)
    ensures GitStep(st, "Binary files" + rest) == st.(isBinary := true) && Harmless("Binary files" + rest)
  {
    var line := "Binary files" + rest;
    assert line[0] == 'B' && line[..12] == "Binary files";
  }

  lemma ModesFold(c: Change)
    requires c.Valid()
    ensures AllHarmless(c.ModeLines())
    ensures Fold(c.ModeLines(), FRESH)
         == if c.modes.None? then FRESH
            else FRESH.(oldMode := Some(c.modes.value.0), newMode := Some(c.modes.value.1))
  {
    hide GitStep, Fold, Harmless, AllNotes, AllWellFormed;
    if c.modes.None? {
      FoldOne("", FRESH);
    } else {
      var (x, y) := c.modes.value;
      OldModeStep(FRESH, x);
      NewModeStep(FRESH.(oldMode := Some(x)), y);
      FoldTwo("old mode " + x, "new mode " + y, FRESH);
    }
  }

  lemma KindFold(c: Change, st: GitState)
    requires c.Valid() && st.status.Modified?
    ensures AllHarmless(c.KindLines())
    ensures Fold(c.KindLines(), st)
         == st.(status := c.Status(),
                oldMode := if c.kind.Delete? then Some(c.kind.mode) else st.oldMode,
                newMode := if c.kind.Create? then Some(c.kind.mode) else st.newMode,
                movedFrom := if c.Moved() then Some(c.source.path) else st.movedFrom,
                movedTo := if c.Moved() then Some(c.target.path) else st.movedTo)
  {
    hide GitStep, Fold, Harmless, AllNotes, AllWellFormed, Unquoted;
    PlainRead(c.source, "a/");
    PlainRead(c.target, "b/");
    var x, y := c.source.Plain(), c.target.Plain();
    match c.kind {
      case Edit => FoldOne("", st);
      case Create(mode) =>
        CreateStep(st, mode);
        FoldOne("new file mode " + mode, st);
      case Delete(mode) =>
        DeleteStep(st, mode);
        FoldOne("deleted file mode " + mode, st);
      case Rename =>
        RenameSteps(st, x, y);
        RenameSteps(st.(status := Renamed, movedFrom := Some(c.source.path)), x, y);
        FoldTwo("rename from " + x, "rename to " + y, st);
      case Copy =>
        CopySteps(st, x, y);
        CopySteps(st.(status := Renamed, movedFrom := Some(c.source.path)), x, y);
        FoldTwo("copy from " + x, "copy to " + y, st);
    }
  }

  lemma BinaryFold(c: Change, st: GitState)
    requires !st.isBinary
    ensures AllHarmless(c.BinaryLines()) && Fold(c.BinaryLines(), st) == st.(isBinary := c.body.Binary?)
  {
    hide GitStep, Fold, Harmless;
    if c.body.Binary? {
      BinaryStep(st, c.body.rest);
      FoldOne("Binary files" + c.body.rest, st);
    } else {
      FoldOne("", st);
    }
  }

  /** The extended headers say what they were written for. */
  lemma ExtendedFold(c: Change)
    requires c.Valid()
    ensures Fold(c.Extended(), FRESH) == c.Said() && AllHarmless(c.Extended())
  {
    hide GitStep, Fold, Harmless, AllWellFormed, IsNote;
    var modes := Fold(c.ModeLines(), FRESH);
    ModesFold(c);
    FoldAppend(c.ModeLines(), c.notes + (c.KindLines() + (c.index + c.BinaryLines())), FRESH);
    NotesFold(c.notes, modes);
    FoldAppend(c.notes, c.KindLines() + (c.index + c.BinaryLines()), modes);
    KindFold(c, modes);
    var kind := Fold(c.KindLines(), modes);
    FoldAppend(c.KindLines(), c.index + c.BinaryLines(), modes);
    NotesFold(c.index, kind);
    FoldAppend(c.index, c.BinaryLines(), kind);
    BinaryFold(c, kind);
    HarmlessJoin(c.index, c.BinaryLines());
    HarmlessJoin(c.KindLines(), c.index + c.BinaryLines());
    HarmlessJoin(c.notes, c.KindLines() + (c.index + c.BinaryLines()));
    HarmlessJoin(c.ModeLines(), c.notes + (c.KindLines() + (c.index + c.BinaryLines())));
  }

  lemma HarmlessJoin(x: seq<string>, y: seq<string>)
    requires AllHarmless(x) && AllHarmless(y)
    ensures AllHarmless(x + y)
  {
    hide Harmless;
  }

  // ---------------------------------------------------------------- One section

  /** A diff's text may end in a newline, which leaves a blank line at the end. */
  predicate IsTail(tail: seq<string>) {
    tail == [] || tail == [""]
  }

  lemma HunksSection(c: Change, tail: seq<string>)
    requires c.Valid() && c.body.Hunks? && IsTail(tail)
    ensures var lines := c.HunkLines() + tail;
            && GitSection(lines, c.Said(), c.source.path, c.target.path) == Parsed(c.Read(), |lines|)
            && OpenSection(lines, c.Said()).None?
  {
    hide HunksFrom, FileWithHunks, AllWellFormed, PrintHunks, AllNotes, GitStep;
    var lines := c.HunkLines() + tail;
    assert lines[0] == c.OldLine() && lines[1] == c.NewLine();
    LinesOpen(c);
    HunkLinesRead(c.OldLine(), c.NewLine(), c.body.hunks, tail);
    ReadByHunks(c, lines);
  }

  lemma HunkLinesRead(x: string, y: string, hunks: seq<DiffHunk>, tail: seq<string>)
    requires "--- " <= x && "+++ " <= y && AllWellFormed(hunks) && IsTail(tail)
    ensures var lines := [x, y] + PrintHunks(hunks) + tail; HunksFrom(lines) == Parsed(hunks, |lines|)
  {
    hide HunkList, AllWellFormed, PrintHunks;
    var lines := [x, y] + PrintHunks(hunks) + tail;
    HunksRoundTrip(hunks, tail);
    assert lines[2..] == PrintHunks(hunks) + tail && lines[0] == x && lines[1] == y;
    assert HeaderLines(lines) == 2;
  }

  lemma ReadByHunks(c: Change, lines: seq<string>)
    requires c.Valid() && c.body.Hunks? && |lines| > 1 && lines[0] == c.OldLine() && lines[1] == c.NewLine()
    ensures Some(FileWithHunks(c.Said(), c.target.path, lines, c.body.hunks)) == c.Read()
  {
    hide StripPrefix, Tally, AllWellFormed, AllNotes, Drop;
    PathsRead(c);
  }

  lemma LinesOpen(c: Change)
    ensures "--- " <= c.OldLine() && "+++ " <= c.NewLine() && !(GIT_PREFIX <= c.OldLine())
  {
    assert c.OldLine()[0] == '-';
  }

  lemma PathsRead(c: Change)
    requires c.Valid()
    ensures StripPrefix(Drop(c.OldLine(), 4)) == if c.kind.Create? then DEV_NULL else c.source.Kept()
    ensures StripPrefix(Drop(c.NewLine(), 4)) == if c.kind.Delete? then DEV_NULL else c.target.Kept()
  {
    hide StripPrefix, AllNotes, AllWellFormed;
    DevNullRead();
    SidedRead(c.source, "a/");
    SidedRead(c.target, "b/");
    assert c.OldLine()[4..] == if c.kind.Create? then DEV_NULL else c.source.OnLine("a/");
    assert c.NewLine()[4..] == if c.kind.Delete? then DEV_NULL else c.target.OnLine("b/");
  }

  lemma BareSection(c: Change, tail: seq<string>, oldPath: string, newPath: string)
    requires c.Valid() && !c.body.Hunks? && IsTail(tail)
    requires c.Moved() || (oldPath == c.source.path && newPath == c.target.path)
    ensures GitSection(tail, c.Said(), oldPath, newPath) == Parsed(c.Read(), |tail|)
    ensures OpenSection(tail, c.Said()).None?
  {
    hide AllNotes, AllWellFormed, GitStep;
    NoteStep(c.Said(), "");
    if tail != [] {
      assert tail[1..] == [];
    }
    assert Tally([], Addition) == 0 && Tally([], Deletion) == 0;
  }

  /** Each section git writes is read on its own, all its lines taken. */
  lemma SectionRead(c: Change, tail: seq<string>)
    requires c.Valid() && IsTail(tail)
    ensures var lines := c.Section() + tail;
            && IsGitHeader(lines[0]) && GitFile(lines) == Parsed(c.Read(), |lines|)
            && OpenSection(lines[1..], FRESH).None?
  {
    hide IsGitHeader, HeaderNames, Fold, GitSection, OpenSection, GitFile, AllHarmless;
    hide AllNotes, AllWellFormed, PrintHunks, Spells;
    var rest := c.HunkLines() + tail;
    HeaderRecognised(c.source, c.target);
    var names := HeaderNames(c.Header());
    HeaderNamesRead(c);
    ExtendedFold(c);
    RestRead(c, tail, names.0, names.1);
    SectionBehind(c.Header(), c.Extended(), rest, c.Said(), c.Read());
    assert c.Section() + tail == [c.Header()] + (c.Extended() + rest);
  }

  /** A section is its header, the state its extended headers add up to, and the rest read from there. */
  lemma SectionBehind(header: string, lines: seq<string>, rest: seq<string>, st: GitState, file: Option<DiffFile>)
    requires IsGitHeader(header) && AllHarmless(lines) && Fold(lines, FRESH) == st
    requires GitSection(rest, st, HeaderNames(header).0, HeaderNames(header).1) == Parsed(file, |rest|)
    requires OpenSection(rest, st).None?
    ensures var whole := [header] + (lines + rest);
            GitFile(whole) == Parsed(file, |whole|) && OpenSection(whole[1..], FRESH).None?
  {
    hide IsGitHeader, HeaderNames, Fold, GitSection, OpenSection, AllHarmless;
    var whole := [header] + (lines + rest);
    assert whole[0] == header && whole[1..] == lines + rest;
    HeadersRead(lines, rest, FRESH, HeaderNames(header).0, HeaderNames(header).1);
  }

  /** It stands for the file it was written for exactly when the names on its file header lines are kept. */
  lemma ReadAsMeant(c: Change)
    requires c.Valid()
    ensures c.Read().Some? == c.Meant().Some?
    ensures c.Read() == c.Meant() <==> c.NamesKept()
  {
    hide AllNotes, AllWellFormed, Spells, RStrip, Tally;
    SidedRead(c.source, "a/");
    SidedRead(c.target, "b/");
  }

  lemma HeaderNamesRead(c: Change)
    requires c.Valid() && IsGitHeader(c.Header())
    ensures !c.Moved() ==> HeaderNames(c.Header()) == (c.source.path, c.target.path)
  {
    hide IsGitHeader, GitHeaderPaths, Spells, AllNotes, AllWellFormed;
    assert c.Header()[|GIT_PREFIX|..] == c.source.Sided("a/") + " " + c.target.Sided("b/");
    if !c.Moved() {
      HeaderRead(c.source, c.target);
    }
  }

  lemma RestRead(c: Change, tail: seq<string>, oldPath: string, newPath: string)
    requires c.Valid() && IsTail(tail)
    requires c.Moved() || (oldPath == c.source.path && newPath == c.target.path)
    ensures var rest := c.HunkLines() + tail;
            && GitSection(rest, c.Said(), oldPath, newPath) == Parsed(c.Read(), |rest|)
            && OpenSection(rest, c.Said()).None?
  {
    hide AllNotes, AllWellFormed, PrintHunks, Spells, GitStep, HunksFrom, StripPrefix;
    if c.body.Hunks? {
      HunksSection(c, tail);
      NamesIrrelevant(c, tail, oldPath, newPath);
    } else {
      assert c.HunkLines() + tail == tail;
      BareSection(c, tail, oldPath, newPath);
    }
  }

  /** With file header lines the names of the first line are not looked at. */
  lemma NamesIrrelevant(c: Change, tail: seq<string>, oldPath: string, newPath: string)
    requires c.body.Hunks?
    ensures GitSection(c.HunkLines() + tail, c.Said(), oldPath, newPath)
         == GitSection(c.HunkLines() + tail, c.Said(), c.source.path, c.target.path)
  {
    hide PrintHunks, GitStep, HunksFrom, StripPrefix, Tally;
    LinesOpen(c);
    assert (c.HunkLines() + tail)[0] == c.OldLine();
  }

  // ---------------------------------------------------------------- The whole diff

  lemma OneSection(c: Change, tail: seq<string>)
    requires c.Valid() && IsTail(tail)
    ensures Files(c.Section() + tail) == Listed(c.Read()) && OpenAt(c.Section() + tail).None?
  {
    hide Files, GitFile, IsGitHeader, IsPlainHeader, OpenSection, OpenAt;
    SectionRead(c, tail);
    var lines := c.Section() + tail;
    assert lines[0..] == lines && lines[|lines|..] == [];
    FilesStep(lines, 0);
    FilesNil();
    OpenAtStep(lines);
    NothingOpen("");
    NoneOpen();
    assert Listed(c.Read()) + [] == Listed(c.Read());
  }

  lemma NoneOpen()
    ensures OpenAt([]).None?
  {}

  /** A section before others is read on its own. */
  lemma SectionBefore(c: Change, rest: seq<string>)
    requires c.Valid() && rest != [] && IsGitHeader(rest[0])
    ensures Files(c.Section() + rest) == Listed(c.Read()) + Files(rest)
  {
    hide Files, IsGitHeader, OpenAt, AllNotes, AllWellFormed, Listed;
    OneSection(c, []);
    assert c.Section() + [] == c.Section();
    FilesLocal(c.Section(), rest);
  }

  lemma SectionBegins(c: Change)
    requires c.Valid()
    ensures c.Section() != [] && IsGitHeader(c.Section()[0])
  {
    hide IsGitHeader, GitFile;
    SectionRead(c, []);
    assert c.Section() + [] == c.Section();
  }

  lemma PrintDiffStep(changes: seq<Change>)
    requires changes != []
    ensures PrintDiff(changes) == changes[0].Section() + PrintDiff(changes[1..])
    ensures ReadFiles(changes) == Listed(changes[0].Read()) + ReadFiles(changes[1..])
    ensures PrintDiff([]) == [] && ReadFiles([]) == []
  {}

  /** A list is read as meant exactly when each of its changes is. */
  lemma {:induction false} AllReadAsMeant(changes: seq<Change>)
    requires AllValid(changes)
    ensures |ReadFiles(changes)| == |MeantFiles(changes)|
    ensures ReadFiles(changes) == MeantFiles(changes) <==> AllNamesKept(changes)
  {
    hide Listed, AllNotes, AllWellFormed;
    if changes != [] {
      KeptStep(changes);
      ListedAsMeant(changes[0]);
      AllReadAsMeant(changes[1..]);
      JoinedEqual(Listed(changes[0].Read()), ReadFiles(changes[1..]),
                  Listed(changes[0].Meant()), MeantFiles(changes[1..]));
    }
  }

  lemma ListedAsMeant(c: Change)
    requires c.Valid()
    ensures |Listed(c.Read())| == |Listed(c.Meant())|
    ensures Listed(c.Read()) == Listed(c.Meant()) <==> c.NamesKept()
  {
    ReadAsMeant(c);
    assert c.Read().Some? && c.Meant().Some? && Listed(c.Read()) == Listed(c.Meant()) ==>
        Listed(c.Read())[0] == Listed(c.Meant())[0];
  }

  lemma KeptStep(changes: seq<Change>)
    requires changes != [] && AllValid(changes)
    ensures AllValid(changes[1..])
    ensures AllNamesKept(changes) <==> changes[0].NamesKept() && AllNamesKept(changes[1..])
  {
    assert forall k :: 1 <= k < |changes| ==> changes[k] == changes[1..][k - 1];
  }

  lemma JoinedEqual<T>(a: seq<T>, x: seq<T>, b: seq<T>, y: seq<T>)
    requires |a| == |b|
    ensures a + x == b + y <==> a == b && x == y
  {
    if a + x == b + y {
      assert a == (a + x)[..|a|] && b == (b + y)[..|a|];
      assert x == (a + x)[|a|..] && y == (b + y)[|a|..];
    }
  }

  /** Every git diff, moved, created, deleted and mode-only files included, is read section by section. */
  lemma {:induction false} GitLinesRoundTrip(changes: seq<Change>, tail: seq<string>)
    requires changes != [] && AllValid(changes) && IsTail(tail)
    ensures Files(PrintDiff(changes) + tail) == ReadFiles(changes)
    ensures Files(PrintDiff(changes) + tail) == MeantFiles(changes) <==> AllNamesKept(changes)
    ensures PrintDiff(changes) != [] && IsGitHeader(PrintDiff(changes)[0])
  {
    hide Files, IsGitHeader, PrintDiff, ReadFiles, MeantFiles, AllNamesKept, Listed, AllNotes, AllWellFormed;
    AllReadAsMeant(changes);
    var c := changes[0];
    assert c.Valid();
    var section, listed := c.Section(), Listed(c.Read());
    SectionBegins(c);
    PrintDiffStep(changes);
    if |changes| == 1 {
      assert changes[1..] == [];
      assert section + [] == section && listed + [] == listed;
      OneSection(c, tail);
    } else {
      var rest := PrintDiff(changes[1..]) + tail;
      GitLinesRoundTrip(changes[1..], tail);
      assert PrintDiff(changes) + tail == section + rest;
      SectionBefore(c, rest);
    }
  }

  lemma {:induction false} JoinBlank(lines: seq<string>)
    requires lines != []
    ensures Join(lines + [""]) == Join(lines) + "\n"
  {
    if |lines| == 1 {
      assert lines + [""] == [lines[0], ""] && [lines[0], ""][1..] == [""];
    } else {
      assert (lines + [""])[1..] == lines[1..] + [""];
      JoinBlank(lines[1..]);
    }
  }

  /**
   The same for the text of the diff, with or without its last newline: the files read are the ones the
   diff was written for exactly when no name on a file header line that is read is bare and ends in white space.
   */
  lemma GitDiffRoundTrip(changes: seq<Change>)
    requires changes != [] && AllValid(changes) && NewlineFree(PrintDiff(changes))
    ensures Diff(Join(PrintDiff(changes))) == Diff(Join(PrintDiff(changes)) + "\n") == ReadFiles(changes)
    ensures Diff(Join(PrintDiff(changes))) == MeantFiles(changes) <==> AllNamesKept(changes)
  {
    hide Files, PrintDiff, ReadFiles, MeantFiles, AllNamesKept, IsGitHeader, Diff, Split, Join, AllValid;
    var lines := PrintDiff(changes);
    GitLinesRoundTrip(changes, []);
    GitLinesRoundTrip(changes, [""]);
    assert lines + [] == lines;
    JoinBlank(lines);
    SplitJoin(lines);
    SplitJoin(lines + [""]);
    BlankGuardRedundant(Join(lines));
    BlankGuardRedundant(Join(lines + [""]));
  }

  /**
   Sections without a `diff --git` line: names and hunks are read as in a git section, and the status is
   that of an added or deleted file exactly where the other name is `/dev/null`.
   */
  lemma PlainSectionRead(c: Change)
    requires c.Valid() && c.body.Hunks? && !c.Moved()
    ensures var oldPath := if c.kind.Create? then DEV_NULL else c.source.Kept();
            var newPath := if c.kind.Delete? then DEV_NULL else c.target.Kept();
            && Files([c.OldLine(), c.NewLine()] + PrintHunks(c.body.hunks))
               == [PlainFile(oldPath, newPath, PlainStatus(oldPath, newPath), c.body.hunks)]
            && (c.source.Kept() != DEV_NULL && c.target.Kept() != DEV_NULL ==>
                  PlainStatus(oldPath, newPath) == c.Status())
  {
    hide Files, StripPrefix, AllWellFormed, PlainFile, PrintHunks, Spells, AllNotes;
    LinesOpen(c);
    PathsRead(c);
    var x, y := Drop(c.OldLine(), 4), Drop(c.NewLine(), 4);
    NamesNotEmpty(c);
    assert c.OldLine() == "--- " + x && c.NewLine() == "+++ " + y;
    FileRoundTrip(x, y, c.body.hunks);
  }

  /** A file of a plain diff, which has hunks and did not move. */
  ghost predicate IsPlain(c: Change) {
    c.Valid() && c.body.Hunks? && !c.Moved()
  }

  function PlainSection(c: Change): seq<string> {
    [c.OldLine(), c.NewLine()] + if c.body.Hunks? then PrintHunks(c.body.hunks) else []
  }

  function PrintPlain(changes: seq<Change>): seq<string> {
    if changes == [] then [] else PlainSection(changes[0]) + PrintPlain(changes[1..])
  }

  /** A diff of several plain files is read as those files, in order. */
  lemma {:induction false} PlainDiffRead(changes: seq<Change>) returns (files: seq<DiffFile>)
    requires changes != [] && forall k :: 0 <= k < |changes| ==> IsPlain(changes[k])
    ensures files == Files(PrintPlain(changes)) && |files| == |changes| && PlainBegins(PrintPlain(changes))
    ensures forall k :: 0 <= k < |changes| ==> Files(PlainSection(changes[k])) == [files[k]]
  {
    hide Files, IsPlain, PrintHunks, Change.OldLine, Change.NewLine;
    var c := changes[0];
    assert IsPlain(c);
    PlainSectionStarts(c);
    if |changes| == 1 {
      assert changes[1..] == [] && PlainSection(c) + [] == PlainSection(c);
      files := PlainFirst(c);
    } else {
      var rest := PlainDiffRead(changes[1..]);
      var first := PlainFirst(c);
      PlainBefore(c, PrintPlain(changes[1..]));
      files := first + rest;
      assert forall k :: 1 <= k < |changes| ==> changes[k] == changes[1..][k - 1] && files[k] == rest[k - 1];
    }
  }

  lemma PlainSectionStarts(c: Change)
    requires IsPlain(c)
    ensures PlainBegins(PlainSection(c)) && forall rest :: PlainBegins(PlainSection(c) + rest)
  {
    hide PrintHunks, AllNotes, AllWellFormed;
    LinesOpen(c);
    var section := PlainSection(c);
    forall rest ensures PlainBegins(section + rest) {
      assert (section + rest)[0] == section[0] && (section + rest)[1] == section[1];
    }
  }

  lemma PlainFirst(c: Change) returns (files: seq<DiffFile>)
    requires IsPlain(c)
    ensures files == Files(PlainSection(c)) && |files| == 1
  {
    hide Files, PrintHunks, AllNotes, AllWellFormed, Change.Valid, Change.OldLine, Change.NewLine;
    PlainSectionRead(c);
    files := Files(PlainSection(c));
  }

  lemma PlainBefore(c: Change, rest: seq<string>)
    requires IsPlain(c) && PlainBegins(rest)
    ensures Files(PlainSection(c) + rest) == Files(PlainSection(c)) + Files(rest)
  {
    hide Files, StripPrefix, AllWellFormed, PlainFile, PrintHunks, Spells, AllNotes;
    LinesOpen(c);
    var x, y := Drop(c.OldLine(), 4), Drop(c.NewLine(), 4);
    NamesNotEmpty(c);
    assert c.OldLine() == "--- " + x && c.NewLine() == "+++ " + y;
    FileRoundTrip(x, y, c.body.hunks);
    FileBefore(x, y, c.body.hunks, rest);
  }

  lemma NamesNotEmpty(c: Change)
    requires c.Valid()
    ensures Drop(c.OldLine(), 4) != "" && Drop(c.NewLine(), 4) != ""
  {}

  const RENAMED_ONLY := Change(Bare("x"), Bare("y"), Rename, None, ["similarity index 100%"], [], Nothing)
  const MODE_ONLY := Change(Bare("z"), Bare("z"), Edit, Some(("100644", "100755")), [], [], Nothing)

  /** A rename and a change of mode, neither with hunks, are both kept. */
  lemma MoveAndModeKept()
    ensures var files := Files(PrintDiff([RENAMED_ONLY, MODE_ONLY]));
            && |files| == 2
            && files[0].oldPath == "x" && files[0].newPath == "y" && files[0].isRenameOnly
            && files[1].newPath == "z" && files[1].isModeOnly
  {
    hide Files, PrintDiff, ReadFiles, MeantFiles, AllNamesKept, Change.Read, Change.Section, Change.Valid;
    RenamedOnly();
    ModeOnlyChange();
    var changes := [RENAMED_ONLY, MODE_ONLY];
    GitLinesRoundTrip(changes, []);
    assert PrintDiff(changes) + [] == PrintDiff(changes);
    PrintDiffStep(changes);
    assert changes[1..] == [MODE_ONLY];
    PrintDiffStep([MODE_ONLY]);
    assert [MODE_ONLY][1..] == [];
  }

  lemma RenamedOnly()
    ensures RENAMED_ONLY.Valid() && RENAMED_ONLY.Read().Some?
    ensures var file := RENAMED_ONLY.Read().value; file.oldPath == "x" && file.newPath == "y" && file.isRenameOnly
  {
    assert "similarity index 100%"[0] == 's';
  }

  lemma ModeOnlyChange()
    ensures MODE_ONLY.Valid() && MODE_ONLY.Read().Some?
    ensures var file := MODE_ONLY.Read().value; file.newPath == "z" && file.isModeOnly
  {
    assert "100644"[3] == '6' && "100755"[3] == '7';
  }

  function EditOf(path: string, hunks: seq<DiffHunk>): Change {
    Change(Bare(path), Bare(path), Edit, None, [], [], Hunks(hunks))
  }

  /** An edit of a file whose name ends in a space, which git does not quote: the space is lost. */
  lemma EndingSpaceLost(hunks: seq<DiffHunk>)
    requires AllWellFormed(hunks)
    ensures var c := EditOf("f ", hunks);
            && c.Valid()
            && c.OldLine() == "--- a/f \t" && c.NewLine() == "+++ b/f \t"
            && Files(PrintDiff([c])) == [PlainFile("f", "f", Modified, hunks)]
            && MeantFiles([c]) == [PlainFile("f ", "f ", Modified, hunks)]
  {
    hide Files, PrintDiff, AllWellFormed, PlainFile, EditOf, ReadFiles, MeantFiles, AllNamesKept, Change.Valid,
      Change.Read, Change.Meant, Change.Section, Change.OldLine, Change.NewLine;
    var c := EditOf("f ", hunks);
    EditRead("f ", hunks);
    EditLines("f ", hunks);
    GitLinesRoundTrip([c], []);
    assert PrintDiff([c]) + [] == PrintDiff([c]);
    OneListed(c);
    RStripOnce("f", ' ');
    assert "f" + [' '] == "f ";
    assert "a/" + "f " + "\t" == "a/f \t" && "b/" + "f " + "\t" == "b/f \t";
    assert "--- " + "a/f \t" == "--- a/f \t" && "+++ " + "b/f \t" == "+++ b/f \t";
  }

  lemma EditRead(path: string, hunks: seq<DiffHunk>)
    requires path != "" && QUOTE !in path && AllWellFormed(hunks)
    ensures var c := EditOf(path, hunks);
            && c.Valid() && c.Meant() == Some(PlainFile(path, path, Modified, hunks))
            && c.Read() == Some(PlainFile(RStrip(path), RStrip(path), Modified, hunks))
  {
    hide AllWellFormed, Tally, RStrip;
  }

  lemma EditLines(path: string, hunks: seq<DiffHunk>)
    requires ' ' in path
    ensures var c := EditOf(path, hunks);
            c.OldLine() == "--- " + ("a/" + path + "\t") && c.NewLine() == "+++ " + ("b/" + path + "\t")
  {
    hide PrintHunks, Name.OnLine;
    BareTabbed("a/", path);
    BareTabbed("b/", path);
  }

  lemma BareTabbed(side: string, path: string)
    requires ' ' in path
    ensures Bare(path).OnLine(side) == side + path + "\t"
  {
    var k :| 0 <= k < |path| && path[k] == ' ';
    assert (side + path)[|side| + k] == ' ';
  }

  lemma OneListed(c: Change)
    ensures ReadFiles([c]) == Listed(c.Read()) && MeantFiles([c]) == Listed(c.Meant())
  {
    assert [c][1..] == [];
  }

  lemma RStripOnce(s: string, c: char)
    requires s != "" && !IsSpace(s[|s| - 1]) && IsSpace(c)
    ensures RStrip(s + [c]) == s
  {
    assert (s + [c])[..|s + [c]| - 1] == s;
  }
}
