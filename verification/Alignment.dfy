/** Side-by-side alignment of one hunk. */
module Alignment {
  import opened Options
  import opened DiffModels
  import opened Paths
  import opened Patches

  // ---------------------------------------------------------------- One change block

  predicate InBlock(t: LineType) {
    t.Deletion? || t.Addition? || t.NoNewline?
  }

  predicate OpensBlock(t: LineType) {
    t.Deletion? || t.Addition?
  }

  /** A marker with the ordinal and the side of the source line it follows. */
  datatype Mark = Mark(row: int, side: Option<LineType>, line: DiffLine)

  datatype Scan = Scan(olds: seq<DiffLine>, news: seq<DiffLine>, marks: seq<Mark>, last: Option<LineType>)
  {
    function Take(line: DiffLine): Scan {
      match line.lineType
      case Deletion => this.(olds := olds + [line], last := Some(Deletion))
      case Addition => this.(news := news + [line], last := Some(Addition))
      case _ =>
        var row := if last == Some(Deletion) then |olds| - 1 else if last == Some(Addition) then |news| - 1 else 0;
        this.(marks := marks + [Mark(row, last, line)])
    }

    function Rows(): nat {
      if |olds| >= |news| then |olds| else |news|
    }
  }

  const NOTHING := Scan([], [], [], None)

  function ScanOf(block: seq<DiffLine>): Scan {
    if block == [] then NOTHING else ScanOf(block[..|block| - 1]).Take(block[|block| - 1])
  }

  function Both(line: DiffLine): SplitDiffRow { SplitDiffRow(Some(line), Some(line)) }

  /** Row `r` of the block: deletions and additions are paired by their ordinal. */
  function PairRow(s: Scan, r: nat): SplitDiffRow {
    SplitDiffRow(if r < |s.olds| then Some(s.olds[r]) else None, if r < |s.news| then Some(s.news[r]) else None)
  }

  function MarkRow(m: Mark): SplitDiffRow {
    if m.side == Some(Deletion) then SplitDiffRow(Some(m.line), None)
    else if m.side == Some(Addition) then SplitDiffRow(None, Some(m.line))
    else Both(m.line)
  }

  /** Marker rows that go behind row `r`, in the order the markers were met. */
  function MarkRows(marks: seq<Mark>, r: int, lastRow: int): seq<SplitDiffRow> {
    if marks == [] then []
    else
      var m := marks[|marks| - 1];
      var row := if m.row < lastRow then m.row else lastRow;
      MarkRows(marks[..|marks| - 1], r, lastRow) + if row == r then [MarkRow(m)] else []
  }

  function EmitUpTo(s: Scan, r: nat): seq<SplitDiffRow> {
    if r == 0 then []
    else EmitUpTo(s, r - 1) + [PairRow(s, r - 1)] + MarkRows(s.marks, r - 1, s.Rows() - 1)
  }

  function LoneMarks(marks: seq<Mark>): seq<SplitDiffRow> {
    seq(|marks|, k requires 0 <= k < |marks| => Both(marks[k].line))
  }

  function AlignBlock(block: seq<DiffLine>): seq<SplitDiffRow> {
    var s := ScanOf(block);
    if s.Rows() == 0 then LoneMarks(s.marks) else EmitUpTo(s, s.Rows())
  }

  // ---------------------------------------------------------------- The hunk

  function BlockLength(lines: seq<DiffLine>): (n: nat)
    ensures n <= |lines|
    ensures forall k :: 0 <= k < n ==> InBlock(lines[k].lineType)
    ensures n < |lines| ==> !InBlock(lines[n].lineType)
    ensures lines != [] && InBlock(lines[0].lineType) ==> n > 0
  {
    if lines == [] || !InBlock(lines[0].lineType) then 0 else 1 + BlockLength(lines[1..])
  }

  function Align(lines: seq<DiffLine>): seq<SplitDiffRow>
    decreases |lines|
  {
    if lines == [] then []
    else if lines[0].lineType.Context? || lines[0].lineType.NoNewline? then [Both(lines[0])] + Align(lines[1..])
    else if !OpensBlock(lines[0].lineType) then [SplitDiffRow(Some(lines[0]), None)] + Align(lines[1..])
    else var n := BlockLength(lines); AlignBlock(lines[..n]) + Align(lines[n..])
  }

  method ScanBlock(block: seq<DiffLine>) returns (s: Scan)
    ensures s == ScanOf(block)
  {
    s := NOTHING;
    var k := 0;
    assert block[..0] == [];
    while k < |block|
      invariant k <= |block|
      invariant s == ScanOf(block[..k])
    {
      s := s.Take(block[k]);
      assert block[..k + 1][..k] == block[..k];
      k := k + 1;
    }
    assert block[..k] == block;
  }

  /** The `markers_by_row` dictionary. */
  method GroupMarks(marks: seq<Mark>, lastRow: int) returns (byRow: map<int, seq<SplitDiffRow>>)
    ensures forall r :: (if r in byRow then byRow[r] else []) == MarkRows(marks, r, lastRow)
  {
    byRow := map[];
    var k := 0;
    assert marks[..0] == [];
    while k < |marks|
      invariant k <= |marks|
      invariant forall r :: (if r in byRow then byRow[r] else []) == MarkRows(marks[..k], r, lastRow)
    {
      var m := marks[k];
      var row := if m.row < lastRow then m.row else lastRow;
      assert marks[..k + 1][..k] == marks[..k];
      var earlier := if row in byRow then byRow[row] else [];
      byRow := byRow[row := earlier + [MarkRow(m)]];
      k := k + 1;
    }
    assert marks[..k] == marks;
  }

  method EmitBlock(block: seq<DiffLine>) returns (rows: seq<SplitDiffRow>)
    ensures rows == AlignBlock(block)
  {
    hide ScanOf, MarkRows, PairRow;
    var s := ScanBlock(block);
    var n := s.Rows();
    if n == 0 {
      return LoneMarks(s.marks);
    }
    var byRow := GroupMarks(s.marks, n - 1);
    rows := [];
    var r := 0;
    while r < n
      invariant r <= n
      invariant rows == EmitUpTo(s, r)
    {
      rows := rows + [PairRow(s, r)] + if r in byRow then byRow[r] else [];
      r := r + 1;
    }
  }

  method AlignHunk(hunk: DiffHunk) returns (rows: seq<SplitDiffRow>)
    ensures rows == Align(hunk.lines)
  {
    hide AlignBlock, Align, BlockLength;
    var lines := hunk.lines;
    rows := [];
    var index := 0;
    assert lines[0..] == lines;
    while index < |lines|
      invariant index <= |lines|
      invariant rows + Align(lines[index..]) == Align(lines)
    {
      var line := lines[index];
      AlignStep(lines, index);
      if line.lineType.Context? || line.lineType.NoNewline? {
        Reassociate(rows, [Both(line)], Align(lines[index + 1..]));
        rows := rows + [Both(line)];
        index := index + 1;
      } else if !OpensBlock(line.lineType) {
        Reassociate(rows, [SplitDiffRow(Some(line), None)], Align(lines[index + 1..]));
        rows := rows + [SplitDiffRow(Some(line), None)];
        index := index + 1;
      } else {
        var start := index;
        index := FindBlockEnd(lines, start);
        var block := EmitBlock(lines[start..index]);
        Reassociate(rows, block, Align(lines[index..]));
        rows := rows + block;
      }
    }
    AlignNothing();
    assert lines[index..] == [] && rows + [] == rows;
  }

  /** The inner loop, which runs to the end of a block. */
  method FindBlockEnd(lines: seq<DiffLine>, start: nat) returns (index: nat)
    requires start < |lines|
    ensures index == start + BlockLength(lines[start..])
  {
    index := start;
    while index < |lines| && InBlock(lines[index].lineType)
      invariant start <= index <= |lines|
      invariant index - start + BlockLength(lines[index..]) == BlockLength(lines[start..])
    {
      assert lines[index..][1..] == lines[index + 1..];
      index := index + 1;
    }
  }

  lemma AlignStep(lines: seq<DiffLine>, k: nat)
    requires k < |lines|
    ensures var line, n := lines[k], BlockLength(lines[k..]);
            && k + n <= |lines|
            && Align(lines[k..])
               == if line.lineType.Context? || line.lineType.NoNewline? then [Both(line)] + Align(lines[k + 1..])
                  else if !OpensBlock(line.lineType) then [SplitDiffRow(Some(line), None)] + Align(lines[k + 1..])
                  else AlignBlock(lines[k..k + n]) + Align(lines[k + n..])
    ensures OpensBlock(lines[k].lineType) ==> BlockLength(lines[k..]) > 0
  {
    hide AlignBlock;
    var n := BlockLength(lines[k..]);
    assert lines[k..][1..] == lines[k + 1..];
    assert lines[k..][..n] == lines[k..k + n] && lines[k..][n..] == lines[k + n..];
  }

  lemma AlignNothing()
    ensures Align([]) == []
  {}

  // ---------------------------------------------------------------- What the cells must hold

  function Cell(row: SplitDiffRow, side: Side): seq<DiffLine> {
    var cell := if side.OldSide? then row.left else row.right;
    if cell.Some? then [cell.value] else []
  }

  /** The non-empty cells of one column, top to bottom. */
  function Column(rows: seq<SplitDiffRow>, side: Side): seq<DiffLine> {
    if rows == [] then [] else Column(rows[..|rows| - 1], side) + Cell(rows[|rows| - 1], side)
  }

  /** Lines that stand on a side: its own, and on the old side any line of an unknown kind. */
  predicate Belongs(t: LineType, side: Side) {
    t.Context? || (if side.OldSide? then !t.Addition? && !t.NoNewline? else t.Addition?)
  }

  /** A marker belongs to the side of the source line before it, to both behind an unchanged line. */
  predicate MarkerBelongs(previous: LineType, side: Side) {
    if side.OldSide? then !previous.Addition? else !previous.Deletion?
  }

  function CellsOf(line: DiffLine, previous: LineType, side: Side): seq<DiffLine> {
    var belongs := if line.lineType.NoNewline? then MarkerBelongs(previous, side) else Belongs(line.lineType, side);
    if belongs then [line] else []
  }

  function SourceAfter(line: DiffLine, previous: LineType): LineType {
    if line.lineType.NoNewline? then previous else line.lineType
  }

  /** One side of the hunk with its markers, read straight off the lines. */
  function SideCells(lines: seq<DiffLine>, previous: LineType, side: Side): seq<DiffLine> {
    if lines == [] then []
    else CellsOf(lines[0], previous, side) + SideCells(lines[1..], SourceAfter(lines[0], previous), side)
  }

  function LastSource(lines: seq<DiffLine>, previous: LineType): LineType {
    if lines == [] then previous else LastSource(lines[1..], SourceAfter(lines[0], previous))
  }

  lemma {:induction false} SideCellsAppend(x: seq<DiffLine>, y: seq<DiffLine>, previous: LineType, side: Side)
    ensures SideCells(x + y, previous, side)
         == SideCells(x, previous, side) + SideCells(y, LastSource(x, previous), side)
    ensures LastSource(x + y, previous) == LastSource(y, LastSource(x, previous))
  {
    hide CellsOf, SourceAfter;
    if x == [] {
      assert x + y == y;
    } else {
      var p := SourceAfter(x[0], previous);
      assert (x + y)[1..] == x[1..] + y;
      SideCellsAppend(x[1..], y, p, side);
      Reassociate(CellsOf(x[0], previous, side), SideCells(x[1..], p, side), SideCells(y, LastSource(x, previous),
          side));
    }
  }

  lemma {:induction false} ColumnAppend(x: seq<SplitDiffRow>, y: seq<SplitDiffRow>, side: Side)
    ensures Column(x + y, side) == Column(x, side) + Column(y, side)
  {
    hide Cell;
    if y == [] {
      assert x + y == x;
    } else {
      var n := |y| - 1;
      ColumnAppend(x, y[..n], side);
      assert (x + y)[..|x + y| - 1] == x + y[..n];
      Reassociate(Column(x, side), Column(y[..n], side), Cell(y[n], side));
    }
  }

  // ---------------------------------------------------------------- One block keeps its sides

  function SideType(side: Side): LineType { if side.OldSide? then Deletion else Addition }

  function SideLines(s: Scan, side: Side): seq<DiffLine> { if side.OldSide? then s.olds else s.news }

  /** Markers of one side that follow the source line with this ordinal. */
  function MarksOf(marks: seq<Mark>, r: int, side: Side): seq<DiffLine> {
    if marks == [] then []
    else
      var m := marks[|marks| - 1];
      MarksOf(marks[..|marks| - 1], r, side)
      + if m.row == r && m.side == Some(SideType(side)) then [m.line] else []
  }

  /** The first `r` source lines of a side, each with its markers behind it. */
  function Interleaved(lines: seq<DiffLine>, marks: seq<Mark>, r: nat, side: Side): seq<DiffLine>
    requires r <= |lines|
  {
    if r == 0 then [] else Interleaved(lines, marks, r - 1, side) + [lines[r - 1]] + MarksOf(marks, r - 1, side)
  }

  /** Every marker follows a deletion or an addition, and its ordinal is that line's. */
  ghost predicate Placed(s: Scan) {
    && (forall k :: 0 <= k < |s.marks| ==>
          || (s.marks[k].side == Some(Deletion) && 0 <= s.marks[k].row < |s.olds|)
          || (s.marks[k].side == Some(Addition) && 0 <= s.marks[k].row < |s.news|))
    && (s.last == Some(Deletion) ==> s.olds != [])
    && (s.last == Some(Addition) ==> s.news != [])
  }

  ghost predicate IsBlock(block: seq<DiffLine>) {
    && block != [] && OpensBlock(block[0].lineType)
    && forall k :: 0 <= k < |block| ==> InBlock(block[k].lineType)
  }

  lemma {:induction false} NoMarksPast(marks: seq<Mark>, r: int, side: Side)
    requires forall k :: 0 <= k < |marks| && marks[k].side == Some(SideType(side)) ==> marks[k].row < r
    ensures MarksOf(marks, r, side) == []
  {
    if marks != [] {
      NoMarksPast(marks[..|marks| - 1], r, side);
    }
  }

  /** Adding a line, or a marker of another ordinal or side, leaves the earlier part alone. */
  lemma {:induction false} InterleavedStable(lines: seq<DiffLine>, more: seq<DiffLine>, marks: seq<Mark>, m: Mark,
          r: nat, side: Side)
    requires r <= |lines|
    ensures Interleaved(lines + more, marks, r, side) == Interleaved(lines, marks, r, side)
    ensures (m.row >= r || m.side != Some(SideType(side))) ==>
              Interleaved(lines, marks + [m], r, side) == Interleaved(lines, marks, r, side)
  {
    if r > 0 {
      InterleavedStable(lines, more, marks, m, r - 1, side);
      assert (marks + [m])[..|marks|] == marks;
    }
  }

  /** What the scan holds for one side, markers included. */
  function Held(s: Scan, side: Side): seq<DiffLine> {
    Interleaved(SideLines(s, side), s.marks, |SideLines(s, side)|, side)
  }

  predicate AfterChange(s: Scan) {
    s.last == Some(Deletion) || s.last == Some(Addition)
  }

  lemma TakePlaced(s: Scan, line: DiffLine)
    requires Placed(s) && InBlock(line.lineType) && (line.lineType.NoNewline? ==> AfterChange(s))
    ensures Placed(s.Take(line)) && AfterChange(s.Take(line))
    ensures s.Take(line).last == if line.lineType.NoNewline? then s.last else Some(line.lineType)
  {}

  /** Taking a line adds it, or its marker, at the end of the sides it belongs to. */
  lemma TakeHolds(s: Scan, line: DiffLine, side: Side)
    requires Placed(s) && InBlock(line.lineType)
    requires line.lineType.NoNewline? ==> AfterChange(s)
    ensures Held(s.Take(line), side) == Held(s, side) + CellsOf(line, s.last.GetOr(Context), side)
  {
    hide Interleaved, MarksOf;
    var lines := SideLines(s, side);
    if line.lineType.NoNewline? {
      var m := s.Take(line).marks[|s.marks|];
      assert s.Take(line).marks == s.marks + [m];
      if m.side == Some(SideType(side)) {
        MarkerHeld(lines, s.marks, m, side);
      } else {
        InterleavedStable(lines, [], s.marks, m, |lines|, side);
      }
    } else if line.lineType == SideType(side) {
      LineHeld(lines, line, s.marks, side);
    }
  }

  lemma MarksOfAppend(marks: seq<Mark>, m: Mark, side: Side)
    requires m.side == Some(SideType(side))
    ensures MarksOf(marks + [m], m.row, side) == MarksOf(marks, m.row, side) + [m.line]
  {
    assert (marks + [m])[..|marks|] == marks;
  }

  lemma LastInterleaved(lines: seq<DiffLine>, marks: seq<Mark>, side: Side)
    requires lines != []
    ensures Interleaved(lines, marks, |lines|, side)
         == Interleaved(lines, marks, |lines| - 1, side) + [lines[|lines| - 1]] + MarksOf(marks, |lines| - 1, side)
  {
    hide MarksOf;
  }

  lemma MarkerHeld(lines: seq<DiffLine>, marks: seq<Mark>, m: Mark, side: Side)
    requires lines != [] && m.row == |lines| - 1 && m.side == Some(SideType(side))
    ensures Interleaved(lines, marks + [m], |lines|, side) == Interleaved(lines, marks, |lines|, side) + [m.line]
  {
    hide MarksOf, Interleaved;
    var n := |lines| - 1;
    LastInterleaved(lines, marks, side);
    LastInterleaved(lines, marks + [m], side);
    InterleavedStable(lines, [], marks, m, n, side);
    MarksOfAppend(marks, m, side);
    Reassociate(Interleaved(lines, marks, n, side) + [lines[n]], MarksOf(marks, n, side), [m.line]);
  }

  lemma LineHeld(lines: seq<DiffLine>, line: DiffLine, marks: seq<Mark>, side: Side)
    requires forall k :: 0 <= k < |marks| && marks[k].side == Some(SideType(side)) ==> marks[k].row < |lines|
    ensures Interleaved(lines + [line], marks, |lines| + 1, side) == Interleaved(lines, marks, |lines|, side) + [line]
  {
    NoMarksPast(marks, |lines|, side);
    InterleavedStable(lines, [line], marks, Mark(0, None, line), |lines|, side);
  }

  /** The scan of a block holds each side with its markers. */
  lemma {:induction false} ScanKeeps(block: seq<DiffLine>, side: Side)
    requires IsBlock(block)
    ensures var s := ScanOf(block);
            && Placed(s) && AfterChange(s) && s.last == Some(LastSource(block, Context))
            && Held(s, side) == SideCells(block, Context, side)
    decreases |block|
  {
    hide Held, CellsOf, SideCells, Placed;
    var n := |block| - 1;
    var front, line := block[..n], block[n];
    assert front + [line] == block;
    SideCellsAppend(front, [line], Context, side);
    if n == 0 {
      NothingHeld(side);
    } else {
      ScanKeeps(front, side);
    }
    var s := ScanOf(front);
    TakePlaced(s, line);
    TakeHolds(s, line, side);
    OneMore(line, LastSource(front, Context), side);
  }

  lemma NothingHeld(side: Side)
    ensures ScanOf([]) == NOTHING && Placed(NOTHING) && Held(NOTHING, side) == [] && SideCells([], Context, side) == []
  {}

  lemma OneMore(line: DiffLine, previous: LineType, side: Side)
    ensures SideCells([line], previous, side) == CellsOf(line, previous, side)
    ensures LastSource([line], previous) == SourceAfter(line, previous)
  {
    hide CellsOf;
    assert [line][1..] == [];
  }

  /** The marker rows behind row `r`, read on one side. */
  lemma {:induction false} MarkRowsColumn(s: Scan, marks: seq<Mark>, r: nat, side: Side)
    requires r < s.Rows()
    requires forall k :: 0 <= k < |marks| ==>
               || (marks[k].side == Some(Deletion) && 0 <= marks[k].row < |s.olds|)
               || (marks[k].side == Some(Addition) && 0 <= marks[k].row < |s.news|)
    ensures Column(MarkRows(marks, r, s.Rows() - 1), side) == MarksOf(marks, r, side)
  {
    hide Column, MarkRow;
    if marks == [] {
      ColumnOfOne(SplitDiffRow(None, None), side);
    } else {
      var n := |marks| - 1;
      MarkRowsColumn(s, marks[..n], r, side);
      var last: seq<SplitDiffRow> := if marks[n].row == r then [MarkRow(marks[n])] else [];
      ColumnAppend(MarkRows(marks[..n], r, s.Rows() - 1), last, side);
      MarkColumn(marks[n], side);
    }
  }

  lemma MarkColumn(m: Mark, side: Side)
    requires m.side == Some(Deletion) || m.side == Some(Addition)
    ensures Column([MarkRow(m)], side) == if m.side == Some(SideType(side)) then [m.line] else []
    ensures Column([], side) == []
  {
    ColumnOfOne(MarkRow(m), side);
  }

  lemma ColumnOfOne(row: SplitDiffRow, side: Side)
    ensures Column([row], side) == Cell(row, side) && Column([], side) == []
  {
    assert [row][..0] == [];
  }

  lemma {:induction false} EmitColumn(s: Scan, r: nat, side: Side)
    requires Placed(s) && r <= s.Rows()
    ensures var lines := SideLines(s, side);
            Column(EmitUpTo(s, r), side) == Interleaved(lines, s.marks, if r < |lines| then r else |lines|, side)
  {
    hide Cell, MarkRows, PairRow, Column, MarksOf;
    var lines := SideLines(s, side);
    if r == 0 {
      ColumnOfOne(Both(DiffLine(None, None, "", Context)), side);
    } else {
      EmitColumn(s, r - 1, side);
      MarkRowsColumn(s, s.marks, r - 1, side);
      var rows, pair, marks := EmitUpTo(s, r - 1), PairRow(s, r - 1), MarkRows(s.marks, r - 1, s.Rows() - 1);
      ColumnAppend(rows + [pair], marks, side);
      ColumnAppend(rows, [pair], side);
      ColumnOfOne(pair, side);
      PairCell(s, r - 1, side);
      if r > |lines| {
        NoMarksPast(s.marks, r - 1, side);
      }
    }
  }

  lemma PairCell(s: Scan, r: nat, side: Side)
    ensures var lines := SideLines(s, side);
            Cell(PairRow(s, r), side) == if r < |lines| then [lines[r]] else []
  {}

  lemma RowsNeeded(s: Scan)
    requires Placed(s) && AfterChange(s)
    ensures s.Rows() > 0 && |s.olds| <= s.Rows() && |s.news| <= s.Rows()
  {}

  lemma BlockKeepsSides(block: seq<DiffLine>, side: Side)
    requires IsBlock(block)
    ensures Column(AlignBlock(block), side) == SideCells(block, Context, side)
  {
    hide EmitUpTo, Interleaved, SideCells, ScanOf, Column, Placed;
    var s := ScanOf(block);
    ScanKeeps(block, side);
    RowsNeeded(s);
    EmitColumn(s, s.Rows(), side);
  }

  // ---------------------------------------------------------------- The hunk keeps its sides

  lemma SideCellsStep(lines: seq<DiffLine>, previous: LineType, side: Side)
    requires lines != []
    ensures SideCells(lines, previous, side)
         == CellsOf(lines[0], previous, side) + SideCells(lines[1..], SourceAfter(lines[0], previous), side)
  {}

  lemma PreviousForgotten(lines: seq<DiffLine>, p: LineType, q: LineType, side: Side)
    requires lines == [] || !lines[0].lineType.NoNewline?
    ensures SideCells(lines, p, side) == SideCells(lines, q, side)
  {}

  /**
   Each column, read downwards, is exactly that side of the hunk with its markers: alignment loses,
   repeats and reorders nothing. `previous` is any line type but a change, as before a hunk.
   */
  lemma {:induction false} AlignKeepsSides(lines: seq<DiffLine>, previous: LineType, side: Side)
    requires !OpensBlock(previous)
    ensures Column(Align(lines), side) == SideCells(lines, previous, side)
    decreases |lines|
  {
    hide AlignBlock, Column, SideCells;
    if lines == [] {
      ColumnOfOne(SplitDiffRow(None, None), side);
      NothingHeld(side);
      PreviousForgotten([], previous, Context, side);
    } else if !OpensBlock(lines[0].lineType) {
      var rest := lines[1..];
      AlignKeepsSides(rest, SourceAfter(lines[0], previous), side);
      SideCellsStep(lines, previous, side);
      var row := Align(lines)[0];
      ColumnAppend([row], Align(rest), side);
      ColumnOfOne(row, side);
    } else {
      var n := BlockLength(lines);
      var block, rest := lines[..n], lines[n..];
      assert block + rest == lines;
      BlockKeepsSides(block, side);
      AlignKeepsSides(rest, Context, side);
      ColumnAppend(AlignBlock(block), Align(rest), side);
      SideCellsAppend(block, rest, previous, side);
      PreviousForgotten(block, previous, Context, side);
      PreviousForgotten(rest, LastSource(block, previous), Context, side);
    }
  }

  // ---------------------------------------------------------------- Rows

  /** What a row may be; in particular a marker never stands beside a source line. */
  predicate ProperRow(row: SplitDiffRow) {
    match (row.left, row.right)
    case (Some(l), Some(r)) =>
      (l == r && (l.lineType.Context? || l.lineType.NoNewline?)) || (l.lineType.Deletion? && r.lineType.Addition?)
    case (Some(l), None) => !l.lineType.Context? && !l.lineType.Addition?
    case (None, Some(r)) => r.lineType.Addition? || r.lineType.NoNewline?
    case (None, None) => false
  }

  lemma {:induction false} ScanTypes(block: seq<DiffLine>)
    requires forall k :: 0 <= k < |block| ==> InBlock(block[k].lineType)
    ensures var s := ScanOf(block);
            && (forall k :: 0 <= k < |s.olds| ==> s.olds[k].lineType.Deletion?)
            && (forall k :: 0 <= k < |s.news| ==> s.news[k].lineType.Addition?)
            && (forall k :: 0 <= k < |s.marks| ==> s.marks[k].line.lineType.NoNewline?)
            && |s.olds| == CountType(block, Deletion) && |s.news| == CountType(block, Addition)
            && |s.marks| == CountType(block, NoNewline)
  {
    if block != [] {
      var n := |block| - 1;
      ScanTypes(block[..n]);
      assert block[..n] + [block[n]] == block;
      CountTypeAppend(block[..n], [block[n]], Deletion);
      CountTypeAppend(block[..n], [block[n]], Addition);
      CountTypeAppend(block[..n], [block[n]], NoNewline);
    }
  }

  lemma {:induction false} MarkRowsProper(marks: seq<Mark>, r: int, lastRow: int)
    requires forall k :: 0 <= k < |marks| ==> marks[k].line.lineType.NoNewline?
    ensures forall row :: row in MarkRows(marks, r, lastRow) ==> ProperRow(row)
  {
    if marks != [] {
      MarkRowsProper(marks[..|marks| - 1], r, lastRow);
      assert ProperRow(MarkRow(marks[|marks| - 1]));
    }
  }

  lemma {:induction false} EmitProper(s: Scan, r: nat)
    requires r <= s.Rows()
    requires forall k :: 0 <= k < |s.olds| ==> s.olds[k].lineType.Deletion?
    requires forall k :: 0 <= k < |s.news| ==> s.news[k].lineType.Addition?
    requires forall k :: 0 <= k < |s.marks| ==> s.marks[k].line.lineType.NoNewline?
    ensures forall row :: row in EmitUpTo(s, r) ==> ProperRow(row)
  {
    if r > 0 {
      EmitProper(s, r - 1);
      MarkRowsProper(s.marks, r - 1, s.Rows() - 1);
      assert ProperRow(PairRow(s, r - 1));
    }
  }

  /** Every row is proper: a line shown on both sides is unchanged, a pair is a deletion with an addition. */
  lemma {:induction false} AlignProper(lines: seq<DiffLine>)
    ensures forall row :: row in Align(lines) ==> ProperRow(row)
    decreases |lines|
  {
    hide ScanOf, EmitUpTo;
    if lines != [] {
      if OpensBlock(lines[0].lineType) {
        var n := BlockLength(lines);
        var s := ScanOf(lines[..n]);
        ScanTypes(lines[..n]);
        if s.Rows() > 0 {
          EmitProper(s, s.Rows());
        }
        AlignProper(lines[n..]);
      } else {
        AlignProper(lines[1..]);
      }
    }
  }

  // ---------------------------------------------------------------- Pairing

  function OfType(lines: seq<DiffLine>, t: LineType): seq<DiffLine> {
    if lines == [] then []
    else
      var last := lines[|lines| - 1];
      OfType(lines[..|lines| - 1], t) + if last.lineType == t then [last] else []
  }

  predicate HoldsMarker(row: SplitDiffRow) {
    (row.left.Some? && row.left.value.lineType.NoNewline?) || (row.right.Some? && row.right.value.lineType.NoNewline?)
  }

  function SourceRows(rows: seq<SplitDiffRow>): seq<SplitDiffRow> {
    if rows == [] then []
    else
      var last := rows[|rows| - 1];
      SourceRows(rows[..|rows| - 1]) + if HoldsMarker(last) then [] else [last]
  }

  /** The longer list decides the number of rows; the shorter one leaves cells empty at the end. */
  function Paired(olds: seq<DiffLine>, news: seq<DiffLine>, r: nat): seq<SplitDiffRow> {
    seq(r, k requires 0 <= k < r =>
      SplitDiffRow(if k < |olds| then Some(olds[k]) else None, if k < |news| then Some(news[k]) else None))
  }

  lemma {:induction false} ScanFilters(block: seq<DiffLine>)
    requires forall k :: 0 <= k < |block| ==> InBlock(block[k].lineType)
    ensures ScanOf(block).olds == OfType(block, Deletion) && ScanOf(block).news == OfType(block, Addition)
  {
    if block != [] {
      ScanFilters(block[..|block| - 1]);
    }
  }

  lemma {:induction false} SourceRowsAppend(x: seq<SplitDiffRow>, y: seq<SplitDiffRow>)
    ensures SourceRows(x + y) == SourceRows(x) + SourceRows(y)
  {
    hide HoldsMarker;
    if y == [] {
      assert x + y == x;
    } else {
      var n := |y| - 1;
      SourceRowsAppend(x, y[..n]);
      assert (x + y)[..|x + y| - 1] == x + y[..n];
    }
  }

  lemma {:induction false} MarkRowsAside(marks: seq<Mark>, r: int, lastRow: int)
    requires forall k :: 0 <= k < |marks| ==> marks[k].line.lineType.NoNewline?
    ensures SourceRows(MarkRows(marks, r, lastRow)) == []
  {
    hide SourceRows;
    if marks == [] {
      NoSourceRows();
    } else {
      var m := marks[|marks| - 1];
      var front := MarkRows(marks[..|marks| - 1], r, lastRow);
      MarkRowsAside(marks[..|marks| - 1], r, lastRow);
      assert front + [] == front;
      SourceRowsAppend(front, [MarkRow(m)]);
      OneSourceRow(MarkRow(m));
      assert HoldsMarker(MarkRow(m));
    }
  }

  lemma NoSourceRows()
    ensures SourceRows([]) == []
  {}

  lemma OneSourceRow(row: SplitDiffRow)
    ensures SourceRows([row]) == if HoldsMarker(row) then [] else [row]
  {
    assert [row][..0] == [];
  }

  lemma {:induction false} EmitPairs(s: Scan, r: nat)
    requires r <= s.Rows()
    requires forall k :: 0 <= k < |s.olds| ==> s.olds[k].lineType.Deletion?
    requires forall k :: 0 <= k < |s.news| ==> s.news[k].lineType.Addition?
    requires forall k :: 0 <= k < |s.marks| ==> s.marks[k].line.lineType.NoNewline?
    ensures SourceRows(EmitUpTo(s, r)) == Paired(s.olds, s.news, r)
  {
    hide MarkRows, SourceRows;
    if r == 0 {
      NoSourceRows();
    } else {
      EmitPairs(s, r - 1);
      MarkRowsAside(s.marks, r - 1, s.Rows() - 1);
      var front, row := EmitUpTo(s, r - 1), PairRow(s, r - 1);
      SourceRowsAppend(front + [row], MarkRows(s.marks, r - 1, s.Rows() - 1));
      SourceRowsAppend(front, [row]);
      OneSourceRow(row);
    }
  }

  /**
   Within a change block the deletions and the additions are paired by their ordinal, with no row to
   spare: markers aside, row `k` shows the `k`-th deletion beside the `k`-th addition.
   */
  lemma BlockPairs(block: seq<DiffLine>)
    requires IsBlock(block)
    ensures var olds, news := OfType(block, Deletion), OfType(block, Addition);
            SourceRows(AlignBlock(block)) == Paired(olds, news, if |olds| >= |news| then |olds| else |news|)
  {
    hide SourceRows, EmitUpTo, ScanOf, OfType, SideCells, Placed;
    var s := ScanOf(block);
    ScanFilters(block);
    ScanTypes(block);
    ScanKeeps(block, OldSide);
    RowsNeeded(s);
    EmitPairs(s, s.Rows());
  }

  // ---------------------------------------------------------------- Markers of both sides

  /** The row whose markers these are: its own, or the last one when there is no such row. */
  predicate Behind(m: Mark, r: int, lastRow: int) {
    m.row == r <= lastRow || (m.row >= lastRow == r)
  }

  /**
   The markers behind a row are all of those that go there, and markers that come later in the hunk, on
   either side, stand further down.
   */
  lemma {:induction false} MarkersInOrder(x: seq<Mark>, y: seq<Mark>, r: int, lastRow: int)
    ensures MarkRows(x + y, r, lastRow) == MarkRows(x, r, lastRow) + MarkRows(y, r, lastRow)
    ensures |y| == 1 ==> MarkRows(y, r, lastRow) == if Behind(y[0], r, lastRow) then [MarkRow(y[0])] else []
  {
    hide MarkRow;
    if y == [] {
      assert x + y == x;
    } else {
      var n := |y| - 1;
      MarkersInOrder(x, y[..n], r, lastRow);
      assert (x + y)[..|x + y| - 1] == x + y[..n];
      var last: seq<SplitDiffRow> := if Behind(y[n], r, lastRow) then [MarkRow(y[n])] else [];
      Reassociate(MarkRows(x, r, lastRow), MarkRows(y[..n], r, lastRow), last);
    }
  }

  const BARE_ENDS := [DiffLine(Some(1), None, "a", Deletion), DiffLine(None, None, "\\ old", NoNewline),
                      DiffLine(None, Some(1), "b", Addition), DiffLine(None, None, "\\ new", NoNewline)]

  /** Two last lines that both lack their newline: one row for the pair, then the old side's marker, then the new. */
  lemma BothEndsBare()
    ensures var b := BARE_ENDS;
            Align(b) == [SplitDiffRow(Some(b[0]), Some(b[2])), SplitDiffRow(Some(b[1]), None),
                         SplitDiffRow(None, Some(b[3]))]
  {
    hide MarkRows, ScanOf, EmitUpTo;
    var b := BARE_ENDS;
    BareScan();
    assert b[1..] == [b[1], b[2], b[3]] && b[1..][1..] == [b[2], b[3]] && b[1..][1..][1..] == [b[3]];
    assert [b[3]][1..] == [];
    assert BlockLength(b[1..][1..]) == 2;
    assert BlockLength(b) == 4;
    assert b[..4] == b && b[4..] == [];
    BareRows(ScanOf(b));
    assert AlignBlock(b) == EmitUpTo(ScanOf(b), 1);
    assert Align(b) == AlignBlock(b) + [] == AlignBlock(b);
  }

  lemma BareScan()
    ensures var b := BARE_ENDS;
            ScanOf(b) == Scan([b[0]], [b[2]], [Mark(0, Some(Deletion), b[1]), Mark(0, Some(Addition), b[3])],
                              Some(Addition))
  {
    var b := BARE_ENDS;
    assert b[..3][..2][..1][..0] == [];
    assert b[..3][..2] == b[..2] && b[..2][..1] == b[..1];
    assert ScanOf(b[..1]) == Scan([b[0]], [], [], Some(Deletion));
    assert ScanOf(b[..2]) == Scan([b[0]], [], [Mark(0, Some(Deletion), b[1])], Some(Deletion));
    assert ScanOf(b[..3]) == Scan([b[0]], [b[2]], [Mark(0, Some(Deletion), b[1])], Some(Addition));
  }

  lemma BareRows(s: Scan)
    requires |s.olds| == 1 && |s.news| == 1 && |s.marks| == 2 && s.marks[0].row == 0 == s.marks[1].row
    requires s.marks[0].side == Some(Deletion) && s.marks[1].side == Some(Addition)
    ensures s.Rows() == 1
    ensures EmitUpTo(s, 1)
         == [SplitDiffRow(Some(s.olds[0]), Some(s.news[0])), SplitDiffRow(Some(s.marks[0].line), None),
             SplitDiffRow(None, Some(s.marks[1].line))]
  {
    hide MarkRows;
    MarkersInOrder([], [s.marks[0]], 0, 0);
    MarkersInOrder([s.marks[0]], [s.marks[1]], 0, 0);
    assert [s.marks[0]] + [s.marks[1]] == s.marks;
    assert EmitUpTo(s, 0) == [];
  }

  // ---------------------------------------------------------------- Anchors

  /** Lines a comment can be anchored to on a side. */
  function Commentable(lines: seq<DiffLine>, side: Side): seq<DiffLine> {
    if lines == [] then []
    else Anchor(lines[0], side) + Commentable(lines[1..], side)
  }

  function Anchor(line: DiffLine, side: Side): seq<DiffLine> {
    if IsCommentable(line, side) then [line] else []
  }

  predicate IsCommentable(line: DiffLine, side: Side) {
    if side.OldSide? then line.OnOldSide() && line.oldNo.Some? else line.OnNewSide() && line.newNo.Some?
  }

  /** The anchors of one column, top to bottom. */
  function Anchors(rows: seq<SplitDiffRow>, side: Side): seq<DiffLine> {
    if rows == [] then []
    else
      var row := rows[|rows| - 1];
      var anchor := if side.OldSide? then row.OldAnchor() else row.NewAnchor();
      Anchors(rows[..|rows| - 1], side) + if anchor.Some? then [anchor.value] else []
  }

  lemma {:induction false} CommentableAppend(x: seq<DiffLine>, y: seq<DiffLine>, side: Side)
    ensures Commentable(x + y, side) == Commentable(x, side) + Commentable(y, side)
  {
    hide Anchor;
    if x == [] {
      assert x + y == y;
    } else {
      CommentableAppend(x[1..], y, side);
      assert (x + y)[1..] == x[1..] + y;
      Reassociate(Anchor(x[0], side), Commentable(x[1..], side), Commentable(y, side));
    }
  }

  lemma {:induction false} AnchorsAreCommentable(rows: seq<SplitDiffRow>, side: Side)
    ensures Anchors(rows, side) == Commentable(Column(rows, side), side)
  {
    hide Cell, Commentable, Anchors, Column;
    if rows == [] {
      NoAnchors(side);
    } else {
      var n := |rows| - 1;
      AnchorsAreCommentable(rows[..n], side);
      LastAnchor(rows, side);
      CommentableAppend(Column(rows[..n], side), Cell(rows[n], side), side);
    }
  }

  lemma NoAnchors(side: Side)
    ensures Anchors([], side) == [] && Commentable(Column([], side), side) == []
  {}

  /** The last row's anchor is what can be commented on in its cell. */
  lemma LastAnchor(rows: seq<SplitDiffRow>, side: Side)
    requires rows != []
    ensures var n := |rows| - 1;
            && Anchors(rows, side) == Anchors(rows[..n], side) + Commentable(Cell(rows[n], side), side)
            && Column(rows, side) == Column(rows[..n], side) + Cell(rows[n], side)
  {
    var n := |rows| - 1;
    if Cell(rows[n], side) != [] {
      assert Cell(rows[n], side)[1..] == [];
    }
  }

  lemma {:induction false} CommentableCells(lines: seq<DiffLine>, previous: LineType, side: Side)
    ensures Commentable(SideCells(lines, previous, side), side) == Commentable(lines, side)
  {
    if lines != [] {
      var p := SourceAfter(lines[0], previous);
      CommentableCells(lines[1..], p, side);
      CommentableAppend(CellsOf(lines[0], previous, side), SideCells(lines[1..], p, side), side);
    }
  }

  /** Each commentable line is an anchor exactly once on each side it belongs to, in the hunk's order. */
  lemma AnchorsComplete(lines: seq<DiffLine>, side: Side)
    ensures Anchors(Align(lines), side) == Commentable(lines, side)
  {
    AlignKeepsSides(lines, Context, side);
    AnchorsAreCommentable(Align(lines), side);
    CommentableCells(lines, Context, side);
  }
}
