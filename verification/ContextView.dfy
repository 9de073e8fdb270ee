/** What the interleaved view of a file holds, whichever of its gaps are open. */
module Views {
  import opened Options
  import opened DiffModels
  import opened Generate
  import opened Contexts
  import opened ContextLaws

  /** The file's gaps: none when it is not expandable, the last one closed only by a model of this file. */
  function GapsOf(file: DiffFile, model: Option<FileContextModel>): seq<DiffGap> {
    if !IsExpandable(file) then []
    else if model.Some? && model.value.file == file then
      CloseLastGap(StructuralGaps(file.hunks).value, |model.value.text.lines|)
    else StructuralGaps(file.hunks).value
  }

  /** A gap shows its lines when a model of this file is given and the reader opened it or the whole file. */
  function Shown(file: DiffFile, model: Option<FileContextModel>, expansion: FileExpansion, gap: DiffGap): Segment {
    if model.Some? && model.value.file == file && (gap.index in expansion.shown || expansion.full)
    then ExpandedBlock(gap, BuildGap(model.value.text, gap)) else GapRow(gap)
  }

  /** Where a segment belongs: a gap before the hunk it names, the gap after the last hunk at the end. */
  function Place(s: Segment): int {
    if s.HunkBlock? then 2 * s.hunkIndex + 1 else 2 * s.gap.hunkIndex
  }

  ghost predicate InFileOrder(view: seq<Segment>) {
    forall p, q :: 0 <= p < q < |view| ==> Place(view[p]) < Place(view[q])
  }

  predicate IsHunk(hunks: seq<DiffHunk>, k: nat, s: Segment) {
    s.HunkBlock? && k <= s.hunkIndex < |hunks| && s.hunk == hunks[s.hunkIndex]
  }

  ghost predicate GapIn(file: DiffFile, gaps: seq<DiffGap>, model: Option<FileContextModel>,
                        expansion: FileExpansion, p: nat, s: Segment)
  {
    exists q :: p <= q < |gaps| && s == Shown(file, model, expansion, gaps[q])
  }

  /** Numbered by position, with at most one before each hunk and one at the end. */
  ghost predicate Ordered(gaps: seq<DiffGap>, n: nat) {
    && (forall p :: 0 <= p < |gaps| ==> gaps[p].index == p && 0 <= gaps[p].hunkIndex <= n)
    && (forall p, q :: 0 <= p < q < |gaps| ==> gaps[p].hunkIndex < gaps[q].hunkIndex)
  }

  lemma {:induction false} GapsAscend(hunks: seq<DiffHunk>, k: nat, oldNext: int, newNext: int, count: nat)
    requires hunks != [] && k <= |hunks| && GapsFrom(hunks, k, oldNext, newNext, count).Some?
    ensures var gaps := GapsFrom(hunks, k, oldNext, newNext, count).value;
            forall p, q :: 0 <= p < q < |gaps| ==> gaps[p].hunkIndex < gaps[q].hunkIndex
    decreases |hunks| - k
  {
    hide HasAfterGap;
    if k < |hunks| {
      var h := hunks[k];
      var own := GapBefore(h, k, oldNext, newNext, count);
      var o, n := NextLine(h.oldStart, h.oldCount), NextLine(h.newStart, h.newCount);
      GapsAscend(hunks, k + 1, o, n, count + |own.value|);
      GapsOrdered(hunks, k + 1, o, n, count + |own.value|);
    }
  }

  lemma GapsOfOrdered(file: DiffFile, model: Option<FileContextModel>)
    ensures Ordered(GapsOf(file, model), |file.hunks|)
  {
    hide GapsFrom;
    if IsExpandable(file) {
      GapsAscend(file.hunks, 0, 1, 1, 0);
      GapsOrdered(file.hunks, 0, 1, 1, 0);
    }
  }

  /** The gap before hunk `k` is looked up as the one that stands next. */
  lemma GapFound(file: DiffFile, gaps: seq<DiffGap>, model: Option<FileContextModel>, expansion: FileExpansion,
                 k: nat, p: nat)
    requires Ordered(gaps, |file.hunks|) && p <= |gaps|
    requires model.Some? ==> model.value.file == file && model.value.gaps == gaps
    requires forall q :: 0 <= q < |gaps| ==> (q < p <==> gaps[q].hunkIndex < k)
    ensures GapSegment(gaps, model, expansion, k)
         == if p < |gaps| && gaps[p].hunkIndex == k then [Shown(file, model, expansion, gaps[p])] else []
  {
    hide ByHunk, ByIndex, BuildGap;
    if p < |gaps| && gaps[p].hunkIndex == k {
      HunkLookup(gaps, p);
      IndexLookup(gaps, p);
    } else {
      HunkAbsent(gaps, k);
    }
  }

  /** From hunk `k` on, with the gaps from `p` on still to come. */
  lemma {:induction false} ViewFrom(file: DiffFile, gaps: seq<DiffGap>, model: Option<FileContextModel>,
                                    expansion: FileExpansion, k: nat, p: nat)
    requires Ordered(gaps, |file.hunks|) && k <= |file.hunks| && p <= |gaps|
    requires model.Some? ==> model.value.file == file && model.value.gaps == gaps
    requires forall q :: 0 <= q < |gaps| ==> (q < p <==> gaps[q].hunkIndex < k)
    ensures var view := SegmentsFrom(file.hunks, gaps, model, expansion, k);
            && InFileOrder(view) && (forall s :: s in view ==> 2 * k <= Place(s))
            && forall s :: s in view <==> IsHunk(file.hunks, k, s) || GapIn(file, gaps, model, expansion, p, s)
    decreases |file.hunks| - k
  {
    hide GapSegment, Shown, SegmentsFrom, InFileOrder, GapIn, IsHunk;
    var view := SegmentsFrom(file.hunks, gaps, model, expansion, k);
    var here := GapSegment(gaps, model, expansion, k);
    GapFound(file, gaps, model, expansion, k, p);
    var next := if p < |gaps| && gaps[p].hunkIndex == k then p + 1 else p;
    if next == p + 1 {
      ShownPlace(file, model, expansion, gaps[p]);
      GapsStep(file, gaps, model, expansion, p);
    }
    SegmentsUnfold(file.hunks, gaps, model, expansion, k);
    if k == |file.hunks| {
      OneGapLeft(gaps, k, p);
      OneInOrder(here);
      assert view == here;
      NothingBehind(file, gaps, model, expansion);
    } else {
      ViewFrom(file, gaps, model, expansion, k + 1, next);
      var rest := SegmentsFrom(file.hunks, gaps, model, expansion, k + 1);
      var block := HunkBlock(k, file.hunks[k]);
      OneInOrder(here);
      OneInOrder([block]);
      BlocksStep(file.hunks, k);
      OrderJoin([block], rest, 2 * (k + 1));
      OrderJoin(here, [block] + rest, 2 * k + 1);
      assert view == here + ([block] + rest);
      assert forall s :: s in view <==> s in here || s == block || s in rest;
      assert forall s :: s in here ==> Place(s) == 2 * k;
    }
  }

  lemma ShownPlace(file: DiffFile, model: Option<FileContextModel>, expansion: FileExpansion, gap: DiffGap)
    ensures Place(Shown(file, model, expansion, gap)) == 2 * gap.hunkIndex
    ensures !Shown(file, model, expansion, gap).HunkBlock?
  {}

  lemma SegmentsUnfold(hunks: seq<DiffHunk>, gaps: seq<DiffGap>, model: Option<FileContextModel>,
                       expansion: FileExpansion, k: nat)
    requires k <= |hunks|
    ensures SegmentsFrom(hunks, gaps, model, expansion, k)
         == GapSegment(gaps, model, expansion, k)
            + if k == |hunks| then [] else [HunkBlock(k, hunks[k])] + SegmentsFrom(hunks, gaps, model, expansion, k + 1)
  {
    hide GapSegment;
  }

  lemma OneInOrder(view: seq<Segment>)
    requires |view| <= 1
    ensures InFileOrder(view)
  {}

  lemma OrderJoin(x: seq<Segment>, y: seq<Segment>, at: int)
    requires InFileOrder(x) && InFileOrder(y)
    requires (forall s :: s in x ==> Place(s) < at) && forall s :: s in y ==> at <= Place(s)
    ensures InFileOrder(x + y)
  {
    hide Place;
    forall p, q | 0 <= p < q < |x + y| ensures Place((x + y)[p]) < Place((x + y)[q]) {
      if p < |x| {
        assert (x + y)[p] in x;
      }
      if q >= |x| {
        assert (x + y)[q] in y;
      }
    }
  }

  lemma Ascending(gaps: seq<DiffGap>, n: nat, p: nat)
    requires Ordered(gaps, n)
    ensures p + 1 < |gaps| ==> gaps[p].hunkIndex < gaps[p + 1].hunkIndex
  {}

  /** Behind the last hunk stands one gap at most. */
  lemma OneGapLeft(gaps: seq<DiffGap>, n: nat, p: nat)
    requires Ordered(gaps, n) && p <= |gaps| && forall q :: p <= q < |gaps| ==> n <= gaps[q].hunkIndex
    ensures |gaps| == if p < |gaps| && gaps[p].hunkIndex == n then p + 1 else p
  {
    Ascending(gaps, n, p);
  }

  lemma GapsStep(file: DiffFile, gaps: seq<DiffGap>, model: Option<FileContextModel>, expansion: FileExpansion, p: nat)
    requires p < |gaps|
    ensures forall s ::
              GapIn(file, gaps, model, expansion, p, s)
              <==> s == Shown(file, model, expansion, gaps[p]) || GapIn(file, gaps, model, expansion, p + 1, s)
  {
    hide Shown;
  }

  lemma NothingBehind(file: DiffFile, gaps: seq<DiffGap>, model: Option<FileContextModel>, expansion: FileExpansion)
    ensures forall s :: !GapIn(file, gaps, model, expansion, |gaps|, s) && !IsHunk(file.hunks, |file.hunks|, s)
  {
    hide Shown;
  }

  lemma BlocksStep(hunks: seq<DiffHunk>, k: nat)
    requires k < |hunks|
    ensures forall s :: IsHunk(hunks, k, s) <==> s == HunkBlock(k, hunks[k]) || IsHunk(hunks, k + 1, s)
  {}

  /**
   For any model and any set of open gaps: the view holds every hunk and every gap of the file once, in
   file order, and nothing else. A gap shows its lines exactly when a model of this file is given and the
   reader opened that gap or the whole file; otherwise it stays a row.
   */
  lemma ViewHolds(file: DiffFile, model: Option<FileContextModel>, expansion: FileExpansion)
    requires model.Some? ==> model.value == MakeModel(model.value.file, model.value.text)
    ensures var view, gaps := View(file, model, expansion), GapsOf(file, model);
            && InFileOrder(view) && Ordered(gaps, |file.hunks|)
            && forall s :: s in view <==> IsHunk(file.hunks, 0, s) || GapIn(file, gaps, model, expansion, 0, s)
  {
    hide GapsFrom, SegmentsFrom, IsExpandable, StructuralGaps, InFileOrder, CloseLastGap;
    var gaps := GapsOf(file, model);
    GapsOfOrdered(file, model);
    var own := if model.Some? && model.value.file == file then model else None;
    ViewFrom(file, gaps, own, expansion, 0, 0);
    assert forall p :: 0 <= p < |gaps| ==>
        Shown(file, own, expansion, gaps[p]) == Shown(file, model, expansion, gaps[p]);
  }

  /** A file that is not whole text on both sides shows its hunks and nothing else. */
  lemma PartialFilesStayPlain(file: DiffFile, model: Option<FileContextModel>, expansion: FileExpansion)
    requires model.Some? ==> model.value == MakeModel(model.value.file, model.value.text)
    requires || file.status == Added || file.status == Deleted || file.hunks == []
             || file.isBinary || file.isTruncated || file.isModeOnly || file.isEmpty || file.isRenameOnly
             || file.isUnavailable || file.oldMode.GetOr("") in {"120000", "160000"}
             || file.newMode.GetOr("") in {"120000", "160000"}
    ensures forall s :: s in View(file, model, expansion) <==> IsHunk(file.hunks, 0, s)
  {
    hide View, IsHunk, StructuralGaps, InFileOrder;
    ViewHolds(file, model, expansion);
    assert GapsOf(file, model) == [];
  }
}
