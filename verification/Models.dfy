/** Stock option type. */
module Options {
  datatype Option<+T> = None | Some(value: T) {
    function GetOr(default: T): T {
      if Some? then value else default
    }
  }
}

/** The structured diff: files, hunks, lines and side-by-side rows. */
module DiffModels {
  import opened Options

  datatype LineType = Context | Addition | Deletion | HunkHeader | NoNewline | Expanded

  datatype FileStatus = Modified | Added | Deleted | Renamed

  datatype DiffLine = DiffLine(oldNo: Option<int>, newNo: Option<int>, content: string, lineType: LineType)
  {
    predicate OnOldSide() { lineType.Context? || lineType.Deletion? }
    predicate OnNewSide() { lineType.Context? || lineType.Addition? }
  }

  datatype DiffHunk = DiffHunk(header: string, oldStart: int, oldCount: int, newStart: int, newCount: int,
                               lines: seq<DiffLine>, contextText: string)

  datatype DiffFile = DiffFile(oldPath: string, newPath: string, status: FileStatus, hunks: seq<DiffHunk>,
                               additions: nat, deletions: nat,
                               isBinary: bool, isTruncated: bool, isEmpty: bool, isModeOnly: bool,
                               isRenameOnly: bool, isUnavailable: bool,
                               oldMode: Option<string>, newMode: Option<string>, generatedLocally: bool)
  {
    predicate IsMetadataOnly() {
      isModeOnly || isEmpty || isBinary || isRenameOnly || isUnavailable
    }

    /** Whether `mode_change` is a non-empty text. */
    predicate HasModeChange() {
      oldMode.Some? && newMode.Some? && oldMode != newMode
      && !AllZero(oldMode.value) && !AllZero(newMode.value)
    }
  }

  /** Also true of the empty mode, which `mode_change` rejects as well. */
  predicate AllZero(mode: string) {
    forall k :: 0 <= k < |mode| ==> mode[k] == '0'
  }

  /** Lines of one type in a list. */
  function CountType(lines: seq<DiffLine>, t: LineType): nat {
    if lines == [] then 0
    else (if lines[0].lineType == t then 1 else 0) + CountType(lines[1..], t)
  }

  lemma {:induction false} CountTypeAppend(a: seq<DiffLine>, b: seq<DiffLine>, t: LineType)
    ensures CountType(a + b, t) == CountType(a, t) + CountType(b, t)
  {
    if a == [] {
      assert a + b == b;
    } else {
      CountTypeAppend(a[1..], b, t);
      assert (a + b)[1..] == a[1..] + b;
    }
  }

  /** Lines of one type in all hunks. */
  function Tally(hunks: seq<DiffHunk>, t: LineType): nat {
    if hunks == [] then 0 else CountType(hunks[0].lines, t) + Tally(hunks[1..], t)
  }

  /** The counting loops over `file.hunks` and their lines. */
  method CountLines(hunks: seq<DiffHunk>, t: LineType) returns (n: nat)
    ensures n == Tally(hunks, t)
  {
    n := 0;
    var h := 0;
    while h < |hunks|
      invariant h <= |hunks|
      invariant n + Tally(hunks[h..], t) == Tally(hunks, t)
    {
      var lines := hunks[h].lines;
      var before := n;
      var k := 0;
      while k < |lines|
        invariant k <= |lines|
        invariant n + CountType(lines[k..], t) == before + CountType(lines, t)
      {
        if lines[k].lineType == t {
          n := n + 1;
        }
        assert lines[k..][1..] == lines[k + 1..];
        k := k + 1;
      }
      assert hunks[h..][1..] == hunks[h + 1..];
      h := h + 1;
    }
  }

  /** One row of a side-by-side diff: the old side left, the new side right, an absent cell None. */
  datatype SplitDiffRow = SplitDiffRow(left: Option<DiffLine>, right: Option<DiffLine>)
  {
    function OldAnchor(): Option<DiffLine> {
      if left.Some? && left.value.OnOldSide() && left.value.oldNo.Some? then left else None
    }

    function NewAnchor(): Option<DiffLine> {
      if right.Some? && right.value.OnNewSide() && right.value.newNo.Some? then right else None
    }
  }
}
