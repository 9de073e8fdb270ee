/**
 Hunks computed from two versions of a file.

 difflib's matching is left open: an edit script is any list of opcode groups that really leads from
 one version to the other, and every result holds for all of them.
 */
module Generate {
  import opened Options
  import opened DiffModels
  import opened HunkHeaders
  import opened Text
  import opened Paths
  import opened DiffParser
  import opened ParserLaws
  import opened Patches

  // ---------------------------------------------------------------- Files

  /** One version of a text file, split on newlines only. */
  datatype FileText = FileText(lines: seq<string>, endsWithNewline: bool)

  /** Every line with its newline back, except a last line that had none. */
  function WithEndings(file: FileText): (r: seq<string>)
    ensures |r| == |file.lines|
  {
    seq(|file.lines|, k requires 0 <= k < |file.lines| =>
      if k == |file.lines| - 1 && !file.endsWithNewline then file.lines[k] else file.lines[k] + "\n")
  }

  method AddEndings(file: FileText) returns (r: seq<string>)
    ensures r == WithEndings(file)
  {
    r := seq(|file.lines|, k requires 0 <= k < |file.lines| => file.lines[k] + "\n");
    if r != [] && !file.endsWithNewline {
      var last := r[|r| - 1];
      r := r[|r| - 1 := last[..|last| - 1]];
    }
  }

  predicate Ended(text: string) {
    text != "" && text[|text| - 1] == '\n'
  }

  ghost predicate AllEnded(texts: seq<string>) {
    forall k :: 0 <= k < |texts| ==> Ended(texts[k])
  }

  function Chomp(text: string): string {
    if Ended(text) then text[..|text| - 1] else text
  }

  /** No newline but the one that ends it. */
  ghost predicate FileLine(text: string) {
    '\n' !in Chomp(text)
  }

  ghost predicate FileLines(texts: seq<string>) {
    forall k :: 0 <= k < |texts| ==> FileLine(texts[k])
  }

  /** Lines split on newlines stay file lines when their endings come back. */
  lemma EndingsAreFileLines(file: FileText)
    requires NewlineFree(file.lines)
    ensures FileLines(WithEndings(file))
  {
    var r := WithEndings(file);
    forall k | 0 <= k < |r| ensures FileLine(r[k]) {
      var text := file.lines[k];
      assert (text + "\n")[..|text|] == text;
      assert !Ended(text);
    }
  }

  /** The endings say how the file was split: nothing about a non-empty file is lost. */
  lemma EndingsInjective(f: FileText, g: FileText)
    requires NewlineFree(f.lines) && NewlineFree(g.lines)
    requires WithEndings(f) == WithEndings(g)
    ensures f.lines == g.lines && (f.lines != [] ==> f.endsWithNewline == g.endsWithNewline)
  {
    forall k | 0 <= k < |f.lines| ensures f.lines[k] == g.lines[k] {
      LastNewline(f, k);
      LastNewline(g, k);
    }
    if f.lines != [] {
      LastNewline(f, |f.lines| - 1);
      LastNewline(g, |f.lines| - 1);
    }
  }

  lemma LastNewline(f: FileText, k: nat)
    requires NewlineFree(f.lines) && k < |f.lines|
    ensures Chomp(WithEndings(f)[k]) == f.lines[k]
    ensures Ended(WithEndings(f)[k]) <==> k < |f.lines| - 1 || f.endsWithNewline
  {
    var text := f.lines[k];
    assert (text + "\n")[..|text|] == text;
    assert !Ended(text);
  }

  // ---------------------------------------------------------------- Edit scripts

  datatype Tag = Equal | Replace | Delete | Insert

  /** difflib's opcode: `a[i1..i2]` becomes `b[j1..j2]`. */
  datatype Opcode = Opcode(tag: Tag, i1: nat, i2: nat, j1: nat, j2: nat)

  ghost predicate ValidOp(a: seq<string>, b: seq<string>, op: Opcode) {
    && op.i1 <= op.i2 <= |a| && op.j1 <= op.j2 <= |b|
    && (op.tag.Equal? ==> a[op.i1..op.i2] == b[op.j1..op.j2])
    && (op.tag.Delete? ==> op.j1 == op.j2)
    && (op.tag.Insert? ==> op.i1 == op.i2)
  }

  /** Opcodes that follow one another from `(i, j)` to `(i2, j2)`. */
  ghost predicate Contiguous(a: seq<string>, b: seq<string>, ops: seq<Opcode>, i: nat, j: nat, i2: nat, j2: nat) {
    if ops == [] then i == i2 && j == j2
    else
      ValidOp(a, b, ops[0]) && ops[0].i1 == i && ops[0].j1 == j
      && Contiguous(a, b, ops[1..], ops[0].i2, ops[0].j2, i2, j2)
  }

  type Group = ops: seq<Opcode> | ops != [] witness [Opcode(Equal, 0, 0, 0, 0)]

  function Last(g: Group): Opcode { g[|g| - 1] }

  ghost predicate ValidGroup(a: seq<string>, b: seq<string>, g: Group) {
    && Contiguous(a, b, g, g[0].i1, g[0].j1, Last(g).i2, Last(g).j2)
    && g[0].i1 <= Last(g).i2 <= |a| && g[0].j1 <= Last(g).j2 <= |b|
  }

  /** Groups in order; what lies between them, before and after is equal in both versions. */
  ghost predicate ValidGroups(a: seq<string>, b: seq<string>, groups: seq<Group>, i: nat, j: nat) {
    && i <= |a| && j <= |b|
    && if groups == [] then a[i..] == b[j..]
       else
         var g := groups[0];
         && ValidGroup(a, b, g) && i <= g[0].i1 && j <= g[0].j1 && a[i..g[0].i1] == b[j..g[0].j1]
         && ValidGroups(a, b, groups[1..], Last(g).i2, Last(g).j2)
  }

  /** An edit script from `a` to `b`. */
  ghost predicate EditScript(a: seq<string>, b: seq<string>, groups: seq<Group>) {
    ValidGroups(a, b, groups, 0, 0)
  }

  // ---------------------------------------------------------------- What difflib prints

  function Prefixed(prefix: string, texts: seq<string>): seq<string> {
    seq(|texts|, k requires 0 <= k < |texts| => prefix + texts[k])
  }

  function RawOp(a: seq<string>, b: seq<string>, op: Opcode): seq<string>
    requires op.i1 <= op.i2 <= |a| && op.j1 <= op.j2 <= |b|
  {
    if op.tag.Equal? then Prefixed(" ", a[op.i1..op.i2])
    else
      (if op.tag.Replace? || op.tag.Delete? then Prefixed("-", a[op.i1..op.i2]) else [])
      + (if op.tag.Replace? || op.tag.Insert? then Prefixed("+", b[op.j1..op.j2]) else [])
  }

  ghost function RawOps(a: seq<string>, b: seq<string>, ops: seq<Opcode>, i: nat, j: nat, i2: nat, j2: nat): seq<string>
    requires Contiguous(a, b, ops, i, j, i2, j2)
  {
    if ops == [] then []
    else RawOp(a, b, ops[0]) + RawOps(a, b, ops[1..], ops[0].i2, ops[0].j2, i2, j2)
  }

  function GroupHeader(g: Group): string
    requires g[0].i1 <= Last(g).i2 && g[0].j1 <= Last(g).j2
  {
    FormatHeader(g[0].i1, Last(g).i2, g[0].j1, Last(g).j2)
  }

  ghost function RawGroups(a: seq<string>, b: seq<string>, groups: seq<Group>, i: nat, j: nat): seq<string>
    requires ValidGroups(a, b, groups, i, j)
  {
    if groups == [] then []
    else
      var g := groups[0];
      [GroupHeader(g)] + RawOps(a, b, g, g[0].i1, g[0].j1, Last(g).i2, Last(g).j2)
      + RawGroups(a, b, groups[1..], Last(g).i2, Last(g).j2)
  }

  /** The lines `difflib.unified_diff` yields: two file headers before the first group. */
  ghost function UnifiedDiff(a: seq<string>, b: seq<string>, groups: seq<Group>): seq<string>
    requires EditScript(a, b, groups)
  {
    (if groups == [] then [] else ["--- ", "+++ "]) + RawGroups(a, b, groups, 0, 0)
  }

  // ---------------------------------------------------------------- The printer

  const NO_NEWLINE_MARKER: string := "\\ No newline at end of file"

  /** A header is kept, a line loses its newline, a line without one gets the marker behind it. */
  function Clean(line: string): seq<string> {
    if "@" <= line then [line]
    else if Ended(line) then [line[..|line| - 1]]
    else [line, NO_NEWLINE_MARKER]
  }

  function Cleaned(lines: seq<string>): seq<string> {
    if lines == [] then [] else Clean(lines[0]) + Cleaned(lines[1..])
  }

  lemma {:induction false} CleanedAppend(x: seq<string>, y: seq<string>)
    ensures Cleaned(x + y) == Cleaned(x) + Cleaned(y)
  {
    hide Clean;
    if x == [] {
      assert x + y == y;
    } else {
      CleanedAppend(x[1..], y);
      assert (x + y)[1..] == x[1..] + y;
      Reassociate(Clean(x[0]), Cleaned(x[1..]), Cleaned(y));
    }
  }

  datatype Outcome<T> = Ok(value: T) | TooLarge(limit: int) | BadArgument

  /**
   The loop of `unified_hunks` over difflib's lines: the kept lines, or the limit as soon as it is passed.
   */
  method CleanLines(diff: seq<string>, limit: nat) returns (r: Outcome<seq<string>>)
    ensures var kept := Cleaned(if |diff| <= 2 then [] else diff[2..]);
            r == if |kept| > limit then TooLarge(limit) else Ok(kept)
  {
    hide Clean;
    ghost var body := if |diff| <= 2 then [] else diff[2..];
    var output: seq<string> := [];
    var index := 0;
    while index < |diff|
      invariant index <= |diff|
      invariant index <= 2 ==> output == []
      invariant |output| <= limit
      invariant output + Cleaned(if index <= 2 then body else diff[index..]) == Cleaned(body)
    {
      if index < 2 {
        index := index + 1;
        continue;
      }
      CleanedSuffix(diff, index);
      Reassociate(output, Clean(diff[index]), Cleaned(diff[index + 1..]));
      output := output + Clean(diff[index]);
      if |output| > limit {
        return TooLarge(limit);
      }
      index := index + 1;
    }
    assert output == Cleaned(body) by {
      if |diff| > 2 {
        assert diff[|diff|..] == [];
        assert output + [] == output;
      }
    }
    return Ok(output);
  }

  lemma CleanedSuffix(lines: seq<string>, k: nat)
    requires k < |lines|
    ensures Cleaned(lines[k..]) == Clean(lines[k]) + Cleaned(lines[k + 1..])
  {
    hide Clean;
    assert lines[k..][1..] == lines[k + 1..];
  }

  // ---------------------------------------------------------------- The hunks that are meant

  const MARKER_LINE := DiffLine(None, None, NO_NEWLINE_MARKER, NoNewline)

  function SourceLine(t: LineType, text: string, oldNo: int, newNo: int): DiffLine {
    DiffLine(if OldStep(t) then Some(oldNo) else None, if NewStep(t) then Some(newNo) else None, Chomp(text), t)
  }

  /** A run of lines of one type, with a marker behind each line that has no newline. */
  function Run(t: LineType, texts: seq<string>, oldNo: int, newNo: int): seq<DiffLine> {
    if texts == [] then []
    else
      [SourceLine(t, texts[0], oldNo, newNo)]
      + ((if Ended(texts[0]) then [] else [MARKER_LINE])
         + Run(t, texts[1..], oldNo + Step(OldStep(t)), newNo + Step(NewStep(t))))
  }

  function OpLines(a: seq<string>, b: seq<string>, op: Opcode): seq<DiffLine>
    requires op.i1 <= op.i2 <= |a| && op.j1 <= op.j2 <= |b|
  {
    if op.tag.Equal? then Run(Context, a[op.i1..op.i2], op.i1 + 1, op.j1 + 1)
    else Run(Deletion, a[op.i1..op.i2], op.i1 + 1, op.j1 + 1) + Run(Addition, b[op.j1..op.j2], op.i2 + 1, op.j1 + 1)
  }

  ghost function OpsLines(a: seq<string>, b: seq<string>, ops: seq<Opcode>, i: nat, j: nat, i2: nat, j2: nat)
    : seq<DiffLine>
    requires Contiguous(a, b, ops, i, j, i2, j2)
  {
    if ops == [] then []
    else OpLines(a, b, ops[0]) + OpsLines(a, b, ops[1..], ops[0].i2, ops[0].j2, i2, j2)
  }

  ghost function GroupLines(a: seq<string>, b: seq<string>, g: Group): seq<DiffLine>
    requires ValidGroup(a, b, g)
  {
    OpsLines(a, b, g, g[0].i1, g[0].j1, Last(g).i2, Last(g).j2)
  }

  ghost function GroupHunk(a: seq<string>, b: seq<string>, g: Group): DiffHunk
    requires ValidGroup(a, b, g)
  {
    var i1, i2, j1, j2 := g[0].i1, Last(g).i2, g[0].j1, Last(g).j2;
    DiffHunk(GroupHeader(g), RangeStart(i1, i2), i2 - i1, RangeStart(j1, j2), j2 - j1, GroupLines(a, b, g), "")
  }

  ghost function GroupHunks(a: seq<string>, b: seq<string>, groups: seq<Group>, i: nat, j: nat): seq<DiffHunk>
    requires ValidGroups(a, b, groups, i, j)
  {
    if groups == [] then []
    else [GroupHunk(a, b, groups[0])]
         + GroupHunks(a, b, groups[1..], Last(groups[0]).i2, Last(groups[0]).j2)
  }

  ghost function ScriptHunks(a: seq<string>, b: seq<string>, groups: seq<Group>): seq<DiffHunk>
    requires EditScript(a, b, groups)
  {
    GroupHunks(a, b, groups, 0, 0)
  }

  // ---------------------------------------------------------------- One run of lines

  predicate IsSource(t: LineType) { t.Context? || t.Deletion? || t.Addition? }

  lemma {:induction false} RunNumbered(t: LineType, texts: seq<string>, oldNo: int, newNo: int)
    requires IsSource(t)
    ensures var run := Run(t, texts, oldNo, newNo);
            && Numbered(run, oldNo, newNo)
            && OldLength(run) == (if OldStep(t) then |texts| else 0)
            && NewLength(run) == (if NewStep(t) then |texts| else 0)
            && !MarkerFirst(run)
  {
    if texts != [] {
      var o, n := oldNo + Step(OldStep(t)), newNo + Step(NewStep(t));
      RunNumbered(t, texts[1..], o, n);
      var rest := Run(t, texts[1..], o, n);
      var run := Run(t, texts, oldNo, newNo);
      if Ended(texts[0]) {
        assert run[1..] == rest;
      } else {
        assert run[1..] == [MARKER_LINE] + rest;
        assert run[1..][1..] == rest;
      }
    }
  }

  lemma SourceText(t: LineType, text: string, oldNo: int, newNo: int, rest: seq<DiffLine>, side: Side)
    requires IsSource(t) && !MarkerFirst(rest)
    ensures SideText([SourceLine(t, text, oldNo, newNo)] + ((if Ended(text) then [] else [MARKER_LINE]) + rest), side)
         == (if (if side.OldSide? then OldStep(t) else NewStep(t)) then [text] else []) + SideText(rest, side)
  {
    var line := SourceLine(t, text, oldNo, newNo);
    if Ended(text) {
      assert [] + rest == rest;
      assert ([line] + rest)[1..] == rest;
      assert line.content + "\n" == text;
    } else {
      assert ([line] + ([MARKER_LINE] + rest))[1..] == [MARKER_LINE] + rest;
      assert ([MARKER_LINE] + rest)[1..] == rest;
      assert line.content + "" == text;
    }
  }

  lemma {:induction false} RunText(t: LineType, texts: seq<string>, oldNo: int, newNo: int, tail: seq<DiffLine>,
          side: Side)
    requires IsSource(t) && !MarkerFirst(tail)
    ensures SideText(Run(t, texts, oldNo, newNo) + tail, side)
         == (if (if side.OldSide? then OldStep(t) else NewStep(t)) then texts else []) + SideText(tail, side)
  {
    hide SideText, SourceLine, Ended;
    var run := Run(t, texts, oldNo, newNo);
    if texts == [] {
      assert run + tail == tail;
    } else {
      var o, n := oldNo + Step(OldStep(t)), newNo + Step(NewStep(t));
      var rest := Run(t, texts[1..], o, n);
      var marks := if Ended(texts[0]) then [] else [MARKER_LINE];
      RunNumbered(t, texts[1..], o, n);
      RunText(t, texts[1..], o, n, tail, side);
      SourceText(t, texts[0], oldNo, newNo, rest + tail, side);
      Nested([SourceLine(t, texts[0], oldNo, newNo)], marks, rest, tail);
      FirstOfRest(texts, SideText(tail, side));
    }
  }

  lemma Nested<T>(x: seq<T>, y: seq<T>, z: seq<T>, tail: seq<T>)
    ensures (x + (y + z)) + tail == x + (y + (z + tail))
  {}

  lemma FirstOfRest<T>(s: seq<T>, tail: seq<T>)
    requires s != []
    ensures [s[0]] + (s[1..] + tail) == s + tail && [] + ([] + tail) == [] + tail
  {}

  function Prefix(t: LineType): string {
    if t.Addition? then "+" else if t.Deletion? then "-" else " "
  }

  lemma {:induction false} RunPrinted(t: LineType, texts: seq<string>, oldNo: int, newNo: int)
    requires IsSource(t) && FileLines(texts)
    ensures Cleaned(Prefixed(Prefix(t), texts)) == PrintLines(Run(t, texts, oldNo, newNo))
  {
    hide Clean, SourceLine, Ended, PrintLines;
    if texts == [] {
      NothingPrinted();
      assert Prefixed(Prefix(t), texts) == [];
    } else {
      var o, n := oldNo + Step(OldStep(t)), newNo + Step(NewStep(t));
      RunPrinted(t, texts[1..], o, n);
      assert Prefixed(Prefix(t), texts)[1..] == Prefixed(Prefix(t), texts[1..]);
      CleanPrefixed(t, texts[0], oldNo, newNo);
      var marks := if Ended(texts[0]) then [] else [MARKER_LINE];
      PrintLinesAppend([SourceLine(t, texts[0], oldNo, newNo)] + marks, Run(t, texts[1..], o, n));
      Reassociate([SourceLine(t, texts[0], oldNo, newNo)], marks, Run(t, texts[1..], o, n));
    }
  }

  lemma CleanPrefixed(t: LineType, text: string, oldNo: int, newNo: int)
    requires IsSource(t) && FileLine(text)
    ensures Clean(Prefix(t) + text)
         == PrintLines([SourceLine(t, text, oldNo, newNo)] + (if Ended(text) then [] else [MARKER_LINE]))
  {
    var line := Prefix(t) + text;
    assert line[0] != '@';
    if Ended(text) {
      assert line[..|line| - 1] == Prefix(t) + Chomp(text);
    }
  }

  lemma PrintLinesAppend(x: seq<DiffLine>, y: seq<DiffLine>)
    ensures PrintLines(x + y) == PrintLines(x) + PrintLines(y)
  {
    hide PrintLine;
  }

  // ---------------------------------------------------------------- One group

  lemma {:induction false} LengthAppend(x: seq<DiffLine>, y: seq<DiffLine>)
    ensures OldLength(x + y) == OldLength(x) + OldLength(y)
    ensures NewLength(x + y) == NewLength(x) + NewLength(y)
  {
    if x == [] {
      assert x + y == y;
    } else {
      LengthAppend(x[1..], y);
      assert (x + y)[1..] == x[1..] + y;
    }
  }

  lemma {:induction false} NumberedAppend(x: seq<DiffLine>, y: seq<DiffLine>, oldNo: int, newNo: int)
    requires Numbered(x, oldNo, newNo) && Numbered(y, oldNo + OldLength(x), newNo + NewLength(x))
    ensures Numbered(x + y, oldNo, newNo)
  {
    if x == [] {
      assert x + y == y;
    } else {
      NumberedAppend(x[1..], y, oldNo + Step(x[0].OnOldSide()), newNo + Step(x[0].OnNewSide()));
      assert (x + y)[1..] == x[1..] + y;
    }
  }

  /** A side without lines may start its numbering anywhere. */
  lemma {:induction false} NumberingOfEmptySide(lines: seq<DiffLine>, oldNo: int, newNo: int, o: int, n: int)
    requires Numbered(lines, oldNo, newNo)
    requires OldLength(lines) == 0 || o == oldNo
    requires NewLength(lines) == 0 || n == newNo
    ensures Numbered(lines, o, n)
  {
    if lines != [] {
      NumberingOfEmptySide(lines[1..], oldNo + Step(lines[0].OnOldSide()), newNo + Step(lines[0].OnNewSide()),
                           o + Step(lines[0].OnOldSide()), n + Step(lines[0].OnNewSide()));
    }
  }

  lemma OpNumbered(a: seq<string>, b: seq<string>, op: Opcode)
    requires ValidOp(a, b, op)
    ensures var lines := OpLines(a, b, op);
            && Numbered(lines, op.i1 + 1, op.j1 + 1) && !MarkerFirst(lines)
            && OldLength(lines) == op.i2 - op.i1 && NewLength(lines) == op.j2 - op.j1
  {
    hide Run, Numbered, OldLength, NewLength;
    var old_, new_ := a[op.i1..op.i2], b[op.j1..op.j2];
    if op.tag.Equal? {
      RunNumbered(Context, old_, op.i1 + 1, op.j1 + 1);
      assert |old_| == |new_|;
    } else {
      var x, y := Run(Deletion, old_, op.i1 + 1, op.j1 + 1), Run(Addition, new_, op.i2 + 1, op.j1 + 1);
      RunNumbered(Deletion, old_, op.i1 + 1, op.j1 + 1);
      RunNumbered(Addition, new_, op.i2 + 1, op.j1 + 1);
      LengthAppend(x, y);
      NumberedAppend(x, y, op.i1 + 1, op.j1 + 1);
    }
  }

  lemma OpText(a: seq<string>, b: seq<string>, op: Opcode, tail: seq<DiffLine>)
    requires ValidOp(a, b, op) && !MarkerFirst(tail)
    ensures SideText(OpLines(a, b, op) + tail, OldSide) == a[op.i1..op.i2] + SideText(tail, OldSide)
    ensures SideText(OpLines(a, b, op) + tail, NewSide) == b[op.j1..op.j2] + SideText(tail, NewSide)
  {
    hide SideText, Run;
    var old_, new_ := a[op.i1..op.i2], b[op.j1..op.j2];
    if op.tag.Equal? {
      RunText(Context, old_, op.i1 + 1, op.j1 + 1, tail, OldSide);
      RunText(Context, old_, op.i1 + 1, op.j1 + 1, tail, NewSide);
    } else {
      var x, y := Run(Deletion, old_, op.i1 + 1, op.j1 + 1), Run(Addition, new_, op.i2 + 1, op.j1 + 1);
      RunNumbered(Addition, new_, op.i2 + 1, op.j1 + 1);
      assert x + y + tail == x + (y + tail);
      assert !MarkerFirst(y + tail);
      RunText(Deletion, old_, op.i1 + 1, op.j1 + 1, y + tail, OldSide);
      RunText(Deletion, old_, op.i1 + 1, op.j1 + 1, y + tail, NewSide);
      RunText(Addition, new_, op.i2 + 1, op.j1 + 1, tail, OldSide);
      RunText(Addition, new_, op.i2 + 1, op.j1 + 1, tail, NewSide);
    }
  }

  lemma OpPrinted(a: seq<string>, b: seq<string>, op: Opcode)
    requires ValidOp(a, b, op) && FileLines(a) && FileLines(b)
    ensures Cleaned(RawOp(a, b, op)) == PrintLines(OpLines(a, b, op))
  {
    hide Run, Cleaned, PrintLines;
    var old_, new_ := a[op.i1..op.i2], b[op.j1..op.j2];
    if op.tag.Equal? {
      RunPrinted(Context, old_, op.i1 + 1, op.j1 + 1);
    } else {
      RunPrinted(Deletion, old_, op.i1 + 1, op.j1 + 1);
      RunPrinted(Addition, new_, op.i2 + 1, op.j1 + 1);
      PrintLinesAppend(Run(Deletion, old_, op.i1 + 1, op.j1 + 1), Run(Addition, new_, op.i2 + 1, op.j1 + 1));
      CleanedAppend(Prefixed("-", old_), Prefixed("+", new_));
      assert RawOp(a, b, op) == Prefixed("-", old_) + Prefixed("+", new_);
    }
  }

  lemma {:induction false} OpsNumbered(a: seq<string>, b: seq<string>, ops: seq<Opcode>, i: nat, j: nat, i2: nat,
          j2: nat)
    requires Contiguous(a, b, ops, i, j, i2, j2)
    ensures var lines := OpsLines(a, b, ops, i, j, i2, j2);
            && i <= i2 && j <= j2
            && Numbered(lines, i + 1, j + 1) && !MarkerFirst(lines)
            && OldLength(lines) == i2 - i && NewLength(lines) == j2 - j
  {
    hide OpLines;
    if ops != [] {
      var op := ops[0];
      var first := OpLines(a, b, op);
      var rest := OpsLines(a, b, ops[1..], op.i2, op.j2, i2, j2);
      OpNumbered(a, b, op);
      OpsNumbered(a, b, ops[1..], op.i2, op.j2, i2, j2);
      LengthAppend(first, rest);
      NumberedAppend(first, rest, i + 1, j + 1);
    }
  }

  lemma {:induction false} OpsText(a: seq<string>, b: seq<string>, ops: seq<Opcode>, i: nat, j: nat, i2: nat, j2: nat)
    requires Contiguous(a, b, ops, i, j, i2, j2) && i2 <= |a| && j2 <= |b|
    ensures i <= i2 && j <= j2
    ensures SideText(OpsLines(a, b, ops, i, j, i2, j2), OldSide) == a[i..i2]
    ensures SideText(OpsLines(a, b, ops, i, j, i2, j2), NewSide) == b[j..j2]
  {
    hide OpLines;
    if ops != [] {
      var op := ops[0];
      var rest := OpsLines(a, b, ops[1..], op.i2, op.j2, i2, j2);
      OpsNumbered(a, b, ops[1..], op.i2, op.j2, i2, j2);
      OpsText(a, b, ops[1..], op.i2, op.j2, i2, j2);
      OpText(a, b, op, rest);
      assert a[i..op.i2] + a[op.i2..i2] == a[i..i2];
      assert b[j..op.j2] + b[op.j2..j2] == b[j..j2];
    }
  }

  lemma {:induction false} OpsPrinted(a: seq<string>, b: seq<string>, ops: seq<Opcode>, i: nat, j: nat, i2: nat,
          j2: nat)
    requires Contiguous(a, b, ops, i, j, i2, j2) && FileLines(a) && FileLines(b)
    ensures Cleaned(RawOps(a, b, ops, i, j, i2, j2)) == PrintLines(OpsLines(a, b, ops, i, j, i2, j2))
  {
    hide OpLines, PrintLines, RawOp, Cleaned;
    if ops == [] {
      NothingPrinted();
    } else {
      var op := ops[0];
      OpPrinted(a, b, op);
      OpsPrinted(a, b, ops[1..], op.i2, op.j2, i2, j2);
      CleanedAppend(RawOp(a, b, op), RawOps(a, b, ops[1..], op.i2, op.j2, i2, j2));
      PrintLinesAppend(OpLines(a, b, op), OpsLines(a, b, ops[1..], op.i2, op.j2, i2, j2));
    }
  }

  lemma NothingPrinted()
    ensures Cleaned([]) == PrintLines([])
  {}

  // ---------------------------------------------------------------- The hunk of a group

  /** Header, counts and numbers agree, so the parser will read this hunk back. */
  lemma GroupHunkWellFormed(a: seq<string>, b: seq<string>, g: Group)
    requires ValidGroup(a, b, g)
    ensures WellFormed(GroupHunk(a, b, g))
  {
    hide OpsLines, FormatHeader, ParseHeader, UnderItsHeader;
    var i1, i2, j1, j2 := g[0].i1, Last(g).i2, g[0].j1, Last(g).j2;
    OpsNumbered(a, b, g, i1, j1, i2, j2);
    HeaderRoundTrip(i1, i2, j1, j2, "");
    assert FormatHeader(i1, i2, j1, j2) + "" == FormatHeader(i1, i2, j1, j2);
    UnderReadHeader(GroupHunk(a, b, g));
    NumberingOfEmptySide(GroupLines(a, b, g), i1 + 1, j1 + 1, RangeStart(i1, i2), RangeStart(j1, j2));
  }

  lemma {:induction false} ScriptWellFormed(a: seq<string>, b: seq<string>, groups: seq<Group>, i: nat, j: nat)
    requires ValidGroups(a, b, groups, i, j)
    ensures AllWellFormed(GroupHunks(a, b, groups, i, j))
  {
    hide WellFormed, GroupHunk;
    if groups != [] {
      GroupHunkWellFormed(a, b, groups[0]);
      ScriptWellFormed(a, b, groups[1..], Last(groups[0]).i2, Last(groups[0]).j2);
    }
  }

  /** What is printed is the text of the hunks that are meant. */
  lemma {:induction false} ScriptPrinted(a: seq<string>, b: seq<string>, groups: seq<Group>, i: nat, j: nat)
    requires ValidGroups(a, b, groups, i, j) && FileLines(a) && FileLines(b)
    ensures Cleaned(RawGroups(a, b, groups, i, j)) == PrintHunks(GroupHunks(a, b, groups, i, j))
  {
    hide PrintLines, OpsLines, RawOps, Cleaned, FormatHeader;
    if groups == [] {
      NothingPrinted();
    } else {
      var g := groups[0];
      var raw := RawOps(a, b, g, g[0].i1, g[0].j1, Last(g).i2, Last(g).j2);
      var rest := RawGroups(a, b, groups[1..], Last(g).i2, Last(g).j2);
      OpsPrinted(a, b, g, g[0].i1, g[0].j1, Last(g).i2, Last(g).j2);
      ScriptPrinted(a, b, groups[1..], Last(g).i2, Last(g).j2);
      CleanedHeader(g, raw, rest);
      var hunks := GroupHunks(a, b, groups, i, j);
      assert hunks[0] == GroupHunk(a, b, g) && hunks[1..] == GroupHunks(a, b, groups[1..], Last(g).i2, Last(g).j2);
      assert PrintHunk(hunks[0]) == [GroupHeader(g)] + Cleaned(raw);
    }
  }

  lemma CleanedHeader(g: Group, raw: seq<string>, rest: seq<string>)
    requires g[0].i1 <= Last(g).i2 && g[0].j1 <= Last(g).j2
    ensures Cleaned([GroupHeader(g)] + raw + rest) == [GroupHeader(g)] + Cleaned(raw) + Cleaned(rest)
  {
    hide FormatRange;
    var head := GroupHeader(g);
    CleanedAppend([head] + raw, rest);
    CleanedAppend([head], raw);
    assert head[0] == '@';
    assert Cleaned([head]) == [head];
  }

  /** Header and contents hold no newline, so each stays one line of the text. */
  lemma {:induction false} RunSingleLines(t: LineType, texts: seq<string>, oldNo: int, newNo: int)
    requires FileLines(texts)
    ensures forall l :: l in Run(t, texts, oldNo, newNo) ==> '\n' !in l.content
  {
    hide SourceLine, Ended, Chomp;
    if texts != [] {
      var o, n := oldNo + Step(OldStep(t)), newNo + Step(NewStep(t));
      RunSingleLines(t, texts[1..], o, n);
      assert FileLine(texts[0]);
      SourceContent(t, texts[0], oldNo, newNo);
      SingleLinesJoined([SourceLine(t, texts[0], oldNo, newNo)], if Ended(texts[0]) then [] else [MARKER_LINE],
                        Run(t, texts[1..], o, n));
    }
  }

  lemma SourceContent(t: LineType, text: string, oldNo: int, newNo: int)
    ensures SourceLine(t, text, oldNo, newNo).content == Chomp(text) && '\n' !in NO_NEWLINE_MARKER
  {
    hide Chomp;
  }

  lemma SingleLinesJoined(x: seq<DiffLine>, y: seq<DiffLine>, z: seq<DiffLine>)
    requires forall l :: l in x || l in y || l in z ==> '\n' !in l.content
    ensures forall l :: l in x + (y + z) ==> '\n' !in l.content
  {}

  lemma {:induction false} OpsSingleLines(a: seq<string>, b: seq<string>, ops: seq<Opcode>, i: nat, j: nat, i2: nat,
          j2: nat)
    requires Contiguous(a, b, ops, i, j, i2, j2) && FileLines(a) && FileLines(b)
    ensures forall l :: l in OpsLines(a, b, ops, i, j, i2, j2) ==> '\n' !in l.content
  {
    hide Run;
    if ops != [] {
      var op := ops[0];
      OpsSingleLines(a, b, ops[1..], op.i2, op.j2, i2, j2);
      RunSingleLines(Context, a[op.i1..op.i2], op.i1 + 1, op.j1 + 1);
      RunSingleLines(Deletion, a[op.i1..op.i2], op.i1 + 1, op.j1 + 1);
      RunSingleLines(Addition, b[op.j1..op.j2], op.i2 + 1, op.j1 + 1);
    }
  }

  lemma {:induction false} ScriptSingleLines(a: seq<string>, b: seq<string>, groups: seq<Group>, i: nat, j: nat)
    requires ValidGroups(a, b, groups, i, j) && FileLines(a) && FileLines(b)
    ensures SingleLines(GroupHunks(a, b, groups, i, j))
  {
    hide OpsLines, FormatHeader;
    if groups != [] {
      var g := groups[0];
      HeaderNewlineFree(g[0].i1, Last(g).i2, g[0].j1, Last(g).j2);
      OpsSingleLines(a, b, g, g[0].i1, g[0].j1, Last(g).i2, Last(g).j2);
      ScriptSingleLines(a, b, groups[1..], Last(g).i2, Last(g).j2);
    }
  }

  // ---------------------------------------------------------------- The script is a patch

  lemma GroupFits(a: seq<string>, b: seq<string>, g: Group, i: nat, j: nat)
    requires ValidGroup(a, b, g) && i <= g[0].i1 && g[0].i1 - i == g[0].j1 - j
    ensures var h := GroupHunk(a, b, g);
            && Fits(a, h, i, j)
            && FirstIndex(h.oldStart, h.oldCount) == g[0].i1 && FirstIndex(h.newStart, h.newCount) == g[0].j1
            && SideText(h.lines, NewSide) == b[g[0].j1..Last(g).j2]
  {
    hide OpsLines, SideText;
    OpsText(a, b, g, g[0].i1, g[0].j1, Last(g).i2, Last(g).j2);
  }

  lemma {:induction false} ScriptApplies(a: seq<string>, b: seq<string>, groups: seq<Group>, i: nat, j: nat)
    requires ValidGroups(a, b, groups, i, j)
    ensures ApplyFrom(a, GroupHunks(a, b, groups, i, j), i, j) == Some(b[j..])
  {
    hide SideText, Fits, GroupHunk, ValidGroup;
    if groups != [] {
      var g := groups[0];
      var i1, i2, j1, j2 := g[0].i1, Last(g).i2, g[0].j1, Last(g).j2;
      GroupCounts(a, b, g);
      assert |a[i..i1]| == |b[j..j1]|;
      GroupFits(a, b, g, i, j);
      ScriptApplies(a, b, groups[1..], i2, j2);
      Rejoin(b, j, j1, j2);
      var hunks := GroupHunks(a, b, groups, i, j);
      assert hunks[0] == GroupHunk(a, b, g) && hunks[1..] == GroupHunks(a, b, groups[1..], i2, j2);
    }
  }

  lemma GroupCounts(a: seq<string>, b: seq<string>, g: Group)
    requires ValidGroup(a, b, g)
    ensures var h := GroupHunk(a, b, g);
            h.oldCount == Last(g).i2 - g[0].i1 && h.newCount == Last(g).j2 - g[0].j1
            && g[0].i1 <= Last(g).i2 <= |a| && g[0].j1 <= Last(g).j2 <= |b|
  {}

  /**
   The hunks of any edit script are a correct patch: forwards it makes the new version, backwards the
   old one, final newlines included, and the line counts add up.
   */
  lemma ScriptIsPatch(a: seq<string>, b: seq<string>, groups: seq<Group>)
    requires EditScript(a, b, groups)
    ensures var hunks := ScriptHunks(a, b, groups);
            && Apply(a, hunks) == Some(b) && Apply(b, SwapAll(hunks)) == Some(a)
            && |b| == |a| + Tally(hunks, Addition) - Tally(hunks, Deletion)
  {
    hide ApplyFrom, GroupHunks, SwapAll, Tally;
    var hunks := ScriptHunks(a, b, groups);
    ScriptApplies(a, b, groups, 0, 0);
    assert b[0..] == b;
    ReverseUndoes(a, hunks, b);
    LengthChange(a, hunks, b);
  }

  // ---------------------------------------------------------------- unified_hunks

  /**
   `unified_hunks`: the printed hunks of the edit script joined by newlines. `diff` is what difflib
   yields for it.
   */
  method UnifiedHunks(oldFile: FileText, newFile: FileText, context: int, maxOutputLines: int,
                      ghost groups: seq<Group>, diff: seq<string>)
    returns (r: Outcome<string>)
    requires NewlineFree(oldFile.lines) && NewlineFree(newFile.lines)
    requires EditScript(WithEndings(oldFile), WithEndings(newFile), groups)
    requires diff == UnifiedDiff(WithEndings(oldFile), WithEndings(newFile), groups)
    ensures var printed := PrintHunks(ScriptHunks(WithEndings(oldFile), WithEndings(newFile), groups));
            r == if context < 0 || maxOutputLines < 0 then BadArgument
                 else if |printed| > maxOutputLines then TooLarge(maxOutputLines)
                 else Ok(Join(printed))
  {
    if context < 0 || maxOutputLines < 0 {
      return BadArgument;
    }
    hide PrintHunks, GroupHunks, RawGroups;
    ghost var a, b := WithEndings(oldFile), WithEndings(newFile);
    EndingsAreFileLines(oldFile);
    EndingsAreFileLines(newFile);
    ScriptPrinted(a, b, groups, 0, 0);
    RawStart(a, b, groups);
    var kept := CleanLines(diff, maxOutputLines);
    match kept {
      case Ok(output) => return Ok(Join(output));
      case TooLarge(limit) => return TooLarge(limit);
      case BadArgument => return BadArgument;
    }
  }

  lemma RawStart(a: seq<string>, b: seq<string>, groups: seq<Group>)
    requires EditScript(a, b, groups)
    ensures var diff := UnifiedDiff(a, b, groups);
            (if |diff| <= 2 then [] else diff[2..]) == RawGroups(a, b, groups, 0, 0)
  {
    hide RawOps;
  }

  // ---------------------------------------------------------------- generate_file_diff

  const EMPTY_FILE := FileText([], true)

  const OLD_NAME: string := "a/__tongs_old__"
  const NEW_NAME: string := "b/__tongs_new__"

  const SYNTHETIC_HEADERS: string := "--- " + OLD_NAME + "\n" + ("+++ " + NEW_NAME) + "\n"

  /** The printed hunks under the synthetic headers are parsed back exactly. */
  lemma GeneratedRoundTrip(a: seq<string>, b: seq<string>, groups: seq<Group>)
    requires EditScript(a, b, groups) && groups != [] && FileLines(a) && FileLines(b)
    ensures var hunks := ScriptHunks(a, b, groups);
            var files := Diff(SYNTHETIC_HEADERS + Join(PrintHunks(hunks)));
            && Join(PrintHunks(hunks)) != "" && |files| == 1 && files[0].hunks == hunks
  {
    hide WellFormed, Diff, GroupHunk, Join, Tally, PrintHunk, SingleLines;
    var hunks := ScriptHunks(a, b, groups);
    ScriptWellFormed(a, b, groups, 0, 0);
    ScriptSingleLines(a, b, groups, 0, 0);
    TextRoundTrip(OLD_NAME, NEW_NAME, hunks);
    assert hunks != [];
    PrintedVisible(hunks);
    HeadersJoined(PrintHunks(hunks));
  }

  lemma PrintedVisible(hunks: seq<DiffHunk>)
    requires hunks != [] && WellFormed(hunks[0])
    ensures PrintHunks(hunks) != [] && Join(PrintHunks(hunks)) != ""
  {
    hide ParseRange, Complete, UnderItsHeader;
    UnderReadHeader(hunks[0]);
    assert PrintHunks(hunks)[0] == hunks[0].header;
  }

  lemma HeadersJoined(lines: seq<string>)
    requires lines != []
    ensures Join(["--- " + OLD_NAME, "+++ " + NEW_NAME] + lines) == SYNTHETIC_HEADERS + Join(lines)
  {
    hide Join;
    JoinUnder("--- " + OLD_NAME, "+++ " + NEW_NAME, lines);
  }

  lemma JoinUnder(first: string, second: string, lines: seq<string>)
    requires lines != []
    ensures Join([first, second] + lines) == first + "\n" + second + "\n" + Join(lines)
  {
    var all := [first, second] + lines;
    assert all[1..] == [second] + lines;
    assert all[1..][1..] == lines;
    assert first + "\n" + (second + "\n" + Join(lines)) == first + "\n" + second + "\n" + Join(lines);
  }

  /** Two different modes, neither empty nor all zeros. */
  ghost predicate ChangesMode(source: DiffFile) {
    match (source.oldMode, source.newMode)
    case (Some(x), Some(y)) =>
      x != y && (exists k :: 0 <= k < |x| && x[k] != '0') && (exists k :: 0 <= k < |y| && y[k] != '0')
    case _ => false
  }

  /** What the recomputed flags must say: a file without hunks has exactly one reason for it. */
  ghost predicate FlagsAgree(source: DiffFile, r: DiffFile) {
    && !r.isBinary && !r.isTruncated && !r.isUnavailable && r.generatedLocally
    && (r.hunks != [] ==> !r.isModeOnly && !r.isRenameOnly && !r.isEmpty)
    && (r.hunks == [] ==>
          && (r.isModeOnly <==> (source.status.Modified? || source.status.Renamed?) && ChangesMode(source))
          && (r.isRenameOnly <==> !r.isModeOnly && source.status.Renamed? && source.oldPath != source.newPath)
          && (r.isEmpty <==> !r.isModeOnly && !r.isRenameOnly))
  }

  function Version(file: Option<FileText>): FileText {
    file.GetOr(EMPTY_FILE)
  }

  /**
   `generate_file_diff`: the file with hunks that turn its old version into its new one. Paths, status
   and modes stay those of `source`.
   */
  method GenerateFileDiff(source: DiffFile, oldFile: Option<FileText>, newFile: Option<FileText>, maxOutputLines: int,
                          ghost groups: seq<Group>, diff: seq<string>)
    returns (r: Outcome<DiffFile>)
    requires NewlineFree(Version(oldFile).lines) && NewlineFree(Version(newFile).lines)
    requires EditScript(WithEndings(Version(oldFile)), WithEndings(Version(newFile)), groups)
    requires diff == UnifiedDiff(WithEndings(Version(oldFile)), WithEndings(Version(newFile)), groups)
    ensures var a, b := WithEndings(Version(oldFile)), WithEndings(Version(newFile));
            && (r.BadArgument? <==> maxOutputLines < 0)
            && (r.TooLarge? <==> 0 <= maxOutputLines < |PrintHunks(ScriptHunks(a, b, groups))|)
            && (r.Ok? ==>
                  var file := r.value;
                  && file.hunks == ScriptHunks(a, b, groups) && AllWellFormed(file.hunks)
                  && Apply(a, file.hunks) == Some(b) && Apply(b, SwapAll(file.hunks)) == Some(a)
                  && file.additions == Tally(file.hunks, Addition) && file.deletions == Tally(file.hunks, Deletion)
                  && |b| == |a| + file.additions - file.deletions
                  && FlagsAgree(source, file)
                  && file.oldPath == source.oldPath && file.newPath == source.newPath && file.status == source.status
                  && file.oldMode == source.oldMode && file.newMode == source.newMode)
  {
    hide ScriptHunks, PrintHunks, Apply, SwapAll, AllWellFormed, Diff, Tally, UnifiedDiff, EditScript;
    hide WithEndings, FileLines, NewlineFree, Join, Recomputed, FlagsAgree;
    ghost var a, b := WithEndings(Version(oldFile)), WithEndings(Version(newFile));
    var text := UnifiedHunks(Version(oldFile), Version(newFile), 3, maxOutputLines, groups, diff);
    if text.BadArgument? {
      return BadArgument;
    }
    if text.TooLarge? {
      return TooLarge(text.limit);
    }
    var hunks: seq<DiffHunk> := [];
    if text.value != "" {
      var parsed := ParseDiff(SYNTHETIC_HEADERS + text.value);
      if parsed != [] {
        hunks := parsed[0].hunks;
      }
    }
    EndingsAreFileLines(Version(oldFile));
    EndingsAreFileLines(Version(newFile));
    HunksRecovered(a, b, groups, text.value, hunks);
    ScriptIsPatch(a, b, groups);
    var additions := CountLines(hunks, Addition);
    var deletions := CountLines(hunks, Deletion);
    FlagsRecomputed(source, hunks, additions, deletions);
    return Ok(Recomputed(source, hunks, additions, deletions));
  }

  /** `source` with new hunks, counts and content flags. */
  function Recomputed(source: DiffFile, hunks: seq<DiffHunk>, additions: nat, deletions: nat): DiffFile {
    var isSame := hunks == [];
    var modeOnly := isSame && (source.status.Modified? || source.status.Renamed?) && source.HasModeChange();
    var renameOnly := isSame && !modeOnly && source.status.Renamed? && source.oldPath != source.newPath;
    source.(hunks := hunks, additions := additions, deletions := deletions,
            isBinary := false, isTruncated := false, isEmpty := isSame && !modeOnly && !renameOnly,
            isModeOnly := modeOnly, isRenameOnly := renameOnly, isUnavailable := false,
            generatedLocally := true)
  }

  lemma FlagsRecomputed(source: DiffFile, hunks: seq<DiffHunk>, additions: nat, deletions: nat)
    ensures var r := Recomputed(source, hunks, additions, deletions);
            && FlagsAgree(source, r)
            && r.hunks == hunks && r.additions == additions && r.deletions == deletions
            && r.oldPath == source.oldPath && r.newPath == source.newPath && r.status == source.status
            && r.oldMode == source.oldMode && r.newMode == source.newMode
  {}

  lemma HunksRecovered(a: seq<string>, b: seq<string>, groups: seq<Group>, text: string, hunks: seq<DiffHunk>)
    requires EditScript(a, b, groups) && FileLines(a) && FileLines(b)
    requires text == Join(PrintHunks(ScriptHunks(a, b, groups)))
    requires hunks == (if text != "" && Diff(SYNTHETIC_HEADERS + text) != []
                       then Diff(SYNTHETIC_HEADERS + text)[0].hunks else [])
    ensures hunks == ScriptHunks(a, b, groups) && AllWellFormed(hunks)
  {
    hide Diff, WellFormed, GroupHunk;
    ScriptWellFormed(a, b, groups, 0, 0);
    if groups != [] {
      GeneratedRoundTrip(a, b, groups);
    }
  }
}
