# Verified model of the tongs core

tongs is a review inbox for several forges. This project models its algorithmic core in Dafny and
proves what that core is relied on for:

- **The diff pipeline.** Hunks are generated from two versions of a file, printed, parsed back, checked
  against the file that was read, interleaved with the unchanged lines around them and aligned side by
  side. `Patches` states the meaning of a unified diff independently of printer and parser; every result
  about generation holds for every edit script difflib could have chosen. `GitDiffs` states what git
  writes for any list of changed files, what the parser reads of it, and when those are the same files.
  `Acceptance` says what the new-side check decides, `Views` what is shown whichever gaps are open, and
  `GeneratedView` joins the pieces: from two versions to hunks to the whole-file view and back to both
  versions.
- **The cache coherence protocol.** `CacheProtocol` is the client object, `CacheRuns` every interleaving
  of its reads, mutations, marks, invalidations and store operations, `CacheStores` the table with its
  prefix deletion and eviction, and `CacheKeys` the agreement of the client's prefix test with the SQL
  pattern the store uses.
- **Smaller cores with a whole-run invariant.** The ledger of editor exports, the frame reader and the
  diagnostic forwarder of the desktop transport, the worklist over an npm lock, the job log cutter and
  the automatic restart budget.

Each loop of the source is a method with a loop, each object that updates its fields a class; both are
proved against functions of their inputs or of the old state, and the results are lemmas about those
functions. Where something the code is expected to do does not hold for all inputs, the model keeps the
code's behaviour and a lemma says exactly when it holds, but for the restart budget, for which a
sufficient condition is given:

- For any file the new-side check accepts, the whole-file view shows all new lines, and has as many rows
  as announced, exactly when it ends no earlier than the file (`FullViewShowsNewFile`,
  `FullViewRowCount`; `ShortContextHidesEnd` is an input for which it ends earlier). Its expanded gaps meet
  the hunks exactly when it ends no later than the file (`ExpandedGapsMeetHunks`): the check has nothing to
  compare in a last hunk that only deletes, so it accepts one that stands behind the end of the file
  (`LateDeletionAccepted`). Short of that, acceptance means that the hunks lead to the file read, from one
  list of old lines only (`AcceptedIsPatched`, `OldFileUnique`), and the view shows those, which are
  never read, under the same condition as the new ones (`FullViewShowsOldFile`). The check never looks at
  the old side's markers, so those lines make a file, bare in its last line at most, exactly when each old
  line with a marker is the last one and no old line comes behind a bare last line of the new file that no
  hunk shows (`OldFileIsFile`; `MisplacedMarkerAccepted` is an accepted hunk for which they do not).
- Two equal unquoted names of a git header are read as that name exactly unless the path both ends in a
  quote and holds one behind a space (`EqualNames`), and an unquoted old name before a quoted new one
  exactly when it does not end in white space (`QuotedNewName`).
- A git diff is read as the files it was written for exactly when none of the names taken from `---` and
  `+++` lines is unquoted and ends in white space, which is stripped there (`GitDiffRoundTrip`;
  `EndingSpaceLost` is the edit of such a file). Moved files and sections without hunks take their names
  from other lines and are always read exactly.
- Lines and a following git section are parsed one after the other exactly unless the lines end in a
  section cut off at its `---` line, without a `rename to` or `copy to` name, that reads another new name
  from the section's first line (`FilesLocal`, `DiffLocal`; `OpenSectionReadsOn` is such an input).
- One round of background invalidation clears every mark of its prefixes exactly when they were marked
  together (`DrainClearsNewest`). Reads stay safe either way.
- An export reservation can be released exactly when its job number has at most 19 digits, which the
  reservation itself does not check (`GrantIsReleasable`; `GrantNeverReleased` is such a reservation).
- A truncated job log starts on a line boundary, unless its first line alone is longer than the budget, as
  documented, exactly unless the second cut lands inside a last line that fits (`TailPromise`;
  `TailInsideLine` is an input for which it does, `PlainTextKeepsPromise` excludes it for plain text).
- The restart budget is proved for every clock that never goes back (`RestartBudget`). That premise is
  sufficient, not necessary; without it the budget can be passed (`ClockThatGoesBack`).

`dafny verify dfyconfig.toml` checks everything.

## Model

| member | source | states |
|---|---|---|
| Text.SplitJoin | src/tongs/diff/parser.py:64 | splitting a text joined from newline-free lines gives those lines back |
| Text.JoinSplit | src/tongs/diff/parser.py:64 | joining the split lines of any text gives the text back |
| Text.StripBlank | src/tongs/diff/parser.py:61-62 | stripping leaves nothing exactly for a text of white space only |
| Text.StripEnds | src/tongs/diff/parser.py:469 | stripping takes all white space off both ends and nothing else |
| Text.ShowValue | src/tongs/diff/parser.py:467-470 | a decimal number is read back as itself |
| HunkHeaders.ParseFormattedRange | src/tongs/diff/parser.py:23 | a printed range, with its count omitted or not, is read back with its start and count |
| HunkHeaders.ParseHeaderExact | src/tongs/diff/parser.py:463-469 | a line is read as a hunk header with these numbers and this text exactly when it spells them, old range first, a count of one left out or not, and the text behind the second `@@` |
| HunkHeaders.HeaderRoundTrip | src/tongs/diff/parser.py:463-471 | every printed hunk header, empty ranges included, is read back with the numbers it was printed from and any text put behind it |
| Utf8.DecodeEncode | src/tongs/diff/parser.py:336-353 | decoding with replacement restores every text from its UTF-8 bytes |
| Utf8.DecodeResumes | src/tongs/diff/parser.py:336-353 | whatever stands before it, well or ill formed, a byte that begins a character is where decoding takes up again |
| Utf8.TextSurvives | src/tongs/diff/parser.py:336-353 | no text is lost behind bytes that cannot be read |
| Utf8.EncodeLength | src/tongs/forges/models.py:266-270 | a text has at least as many UTF-8 bytes as characters |
| Paths.UnquotePath | src/tongs/diff/parser.py:322-353 | a path between quotes becomes the text its escapes spell, any other path stays as it is |
| Paths.CollectBytes | src/tongs/diff/parser.py:333-353 | the loop collects the bytes of each literal, named or octal escape in order |
| Paths.EscapesAreC | src/tongs/diff/parser.py:38-48 | the named escapes are the C letters for the bytes 7 to 13 and the quote and backslash for themselves |
| Paths.UnquotePieces | src/tongs/diff/parser.py:334-353 | for any mix of literal, named and octal escapes the bytes that were quoted come back |
| Paths.QuoteRoundTrip | src/tongs/diff/parser.py:322-353 | a quoted path is read back as the path its pieces spell |
| Paths.ClosingQuote | src/tongs/diff/parser.py:309-319 | the loop finds the first quote not behind a backslash |
| Paths.ClosingQuoteFound | src/tongs/diff/parser.py:309-319 | that quote is the one that closes the name, whatever the name holds and whatever follows |
| Paths.StripUnquoted | src/tongs/diff/parser.py:591-596 | an unquoted name loses its prefix and the white space at its end, and nothing else |
| Paths.QuotedOldName | src/tongs/diff/parser.py:294-306 | a header whose old name is quoted splits into its two names |
| Paths.QuotedBothNames | src/tongs/diff/parser.py:294-306 | with both names quoted both paths come back exactly |
| Paths.QuotedNewName | src/tongs/diff/parser.py:302-306 | with only the new name quoted both paths come back exactly when the old one does not end in white space |
| Paths.EqualNames | src/tongs/diff/parser.py:260-306 | two equal unquoted names give that path, even with ` b/` inside, exactly unless it both ends in a quote and holds one behind a space |
| Paths.LastSeparator | src/tongs/diff/parser.py:30 | the greedy pattern splits at the last separator with a name on either side |
| Paths.HeaderPattern | src/tongs/diff/parser.py:30 | a line is a git header exactly when it holds two non-empty names behind `a/` and ` b/`, each prefix with or without a quote, and of all ways to read it the one with the longest first name is taken |
| DiffModels.CountLines | src/tongs/diff/parser.py:182-187 | the counting loops give the number of lines of a type in all hunks |
| DiffParser.ParseSingleHunk | src/tongs/diff/parser.py:463-554 | the loop reads exactly the lines up to the end of the hunk, numbered from the header, and says how many it took |
| DiffParser.ParseHunksFrom | src/tongs/diff/parser.py:427-460 | the loop reads all hunks up to the next section and says how many lines it took |
| DiffParser.HunksFrom | src/tongs/diff/parser.py:427-460 | a section that begins with its `---` line takes at least that line |
| DiffParser.ParseGitDiffFile | src/tongs/diff/parser.py:94-257 | the loop over the extended headers gives the file, or none, of the section and its length |
| DiffParser.GitFile | src/tongs/diff/parser.py:94-257 | a git section takes at least one line and no more than there are, so parsing ends on every text |
| DiffParser.PlainDiffFile | src/tongs/diff/parser.py:385-424 | so does a section without a git header |
| DiffParser.ParsePlainDiffFile | src/tongs/diff/parser.py:385-424 | a plain section gives its two stripped names, its status from the missing side, its hunks and their counts |
| DiffParser.ParseLines | src/tongs/diff/parser.py:64-91 | the loop collects the files of all sections in order |
| DiffParser.ParseDiff | src/tongs/diff/parser.py:55-91 | a whole text gives the files of its lines, a blank one none |
| ParserLaws.PrintedIsNoBoundary | src/tongs/diff/parser.py:557-588 | a deletion of `-- x` before an addition of `++ y` is never taken for file headers while the counts say both sides still fit |
| ParserLaws.BodyRoundTrip | src/tongs/diff/parser.py:480-541 | a complete hunk is read back exactly from any printing of its lines, empty context lines with or without their blank, whatever hunk, blank line or plain file follows |
| ParserLaws.HunksRoundTrip | src/tongs/diff/parser.py:427-554 | every list of well-formed hunks, whose headers spell their numbers and text, is read back exactly from its printed lines, all of which are taken, and nothing of a plain file behind them |
| ParserLaws.FileRoundTrip | src/tongs/diff/parser.py:79-87 | under two file header lines the printed hunks are one file with exactly those hunks and their counts, both stripped names, and the status added or deleted exactly where a name is `/dev/null` |
| ParserLaws.FileBefore | src/tongs/diff/parser.py:64-91 | in front of another plain file it is read on its own |
| ParserLaws.FilesSkip | src/tongs/diff/parser.py:64-91 | outside sections, lines that begin none are passed over |
| ParserLaws.TextRoundTrip | src/tongs/diff/parser.py:55-91 | the same for the whole text joined by newlines |
| ParserLaws.BodyFaithful | src/tongs/diff/parser.py:473-541 | on any text the numbers of a hunk's lines count up from its header and its lines print as the text they were read from |
| ParserLaws.BodyExtent | src/tongs/diff/parser.py:480-541 | on any text the body takes the lines up to the first that ends it: a hunk or git header, a line of no kind a hunk has, a blank line or plain file headers once both sides are full, and those headers also once one side is and a hunk header follows |
| ParserLaws.HunkListSkips | src/tongs/diff/parser.py:438-460 | between hunks, lines that begin neither a hunk nor a section are passed over |
| ParserLaws.ParsedHunksNumbered | src/tongs/diff/parser.py:55-91 | every hunk of every file parsed from any text is numbered consistently under a header line that spells its numbers, has the stripped text behind them, and every file counts its own lines |
| ParserLaws.BodyLocal | src/tongs/diff/parser.py:480-496 | a hunk body ends before a following git section whatever that section says |
| ParserLaws.HunkListLocal | src/tongs/diff/parser.py:438-460 | so do the hunks of a section |
| ParserLaws.GitSectionLocal | src/tongs/diff/parser.py:117-257 | so does every git section whose first `---` line is not the last line there is |
| ParserLaws.GitSectionOpen | src/tongs/diff/parser.py:175-214 | a section cut off at its `---` line takes all lines there are, and only its new name, when no header gave one, depends on the line behind them |
| ParserLaws.FilesJoined | src/tongs/diff/parser.py:55-91 | in every case the files are those of A and of B, but for that one new name |
| ParserLaws.FilesLocal | src/tongs/diff/parser.py:55-91 | for any lines A and any B that begins with a git header, parsing A followed by B is parsing A, then parsing B, exactly unless A ends in a section cut off at its `---` line, without a non-empty `rename to` or `copy to` name, that would read another new name from B |
| ParserLaws.DiffLocal | src/tongs/diff/parser.py:55-91 | the same if-and-only-if for texts, the blank-text guard included |
| ParserLaws.BlankGuardRedundant | src/tongs/diff/parser.py:61-62 | the guard for blank texts changes no result |
| ParserLaws.OpenSectionReadsOn | src/tongs/diff/parser.py:175-180 | two sections, the first cut off at its `---` line, that are not parsed one by one |
| GitDiffs.PlainRead | src/tongs/diff/parser.py:145-155 | a path on a rename or copy line, bare or quoted, is read back |
| GitDiffs.SidedRead | src/tongs/diff/parser.py:591-596 | of a path on a `---` or `+++` line, bare or quoted, with or without git's tab behind it, everything is read back but the white space a bare one ends in, so that it is exact exactly when there is none |
| GitDiffs.HeaderRecognised | src/tongs/diff/parser.py:30 | the first line of every section git writes is recognised |
| GitDiffs.HeaderRead | src/tongs/diff/parser.py:260-306 | two names of one path on that line, both bare or both quoted, are both read back |
| GitDiffs.HeadersRead | src/tongs/diff/parser.py:117-173 | header lines only add up to the state in which the rest of the section is read |
| GitDiffs.ExtendedFold | src/tongs/diff/parser.py:97-103 | mode, create, delete, rename, copy and binary lines give status, modes and exact paths, and lines of any kind the parser does not know nothing |
| GitDiffs.SectionRead | src/tongs/diff/parser.py:94-257 | every section git writes, edited, created, deleted, renamed, copied, binary or mode-only, is read as one file, or none for an edit that says nothing, all its lines taken; only the paths on its `---` and `+++` lines are read as `SidedRead` says |
| GitDiffs.ReadAsMeant | src/tongs/diff/parser.py:177-180 | that file is the one the section was written for exactly when the change moved, has no hunks, or none of the names read from its `---` and `+++` lines is bare and ends in white space |
| GitDiffs.GitLinesRoundTrip | src/tongs/diff/parser.py:55-257 | the lines of a whole git diff are read section by section, and as exactly the files it was written for, with their paths, status, modes, flags, hunks and counts, if and only if that condition holds of every change |
| GitDiffs.GitDiffRoundTrip | src/tongs/diff/parser.py:55-257 | the same for its text, with or without the last newline |
| GitDiffs.PlainSectionRead | src/tongs/diff/parser.py:385-424 | a section without a git header line is read with the same names and hunks, and with the status of an added or deleted file where the other name is `/dev/null` |
| GitDiffs.PlainDiffRead | src/tongs/diff/parser.py:64-91 | a diff of several such sections is read as one file each, in order |
| GitDiffs.EndingSpaceLost | src/tongs/diff/parser.py:591-596 | the edit of a file `f ` is read, whatever its hunks, as one of a file `f` |
| GitDiffs.MoveAndModeKept | src/tongs/diff/parser.py:97-103 | a rename and a change of the mode, both without hunks, are kept as such |
| Patches.ReverseUndoes | src/tongs/diff/generate.py:89-152 | reversing a patch takes its result back to the original |
| Patches.LengthChange | src/tongs/diff/generate.py:116-127 | a patch changes the number of lines by its additions less its deletions |
| Generate.AddEndings | src/tongs/diff/generate.py:155-160 | every line gets its newline back except a last line that had none |
| Generate.EndingsInjective | src/tongs/diff/generate.py:155-160 | the lines with endings determine the file, its final newline included |
| Generate.CleanLines | src/tongs/diff/generate.py:71-86 | the loop keeps headers, takes the newline off lines, adds the marker behind lines without one, and stops as soon as the limit is passed |
| Generate.ScriptPrinted | src/tongs/diff/generate.py:71-86 | for every edit script what is kept is the text of the hunks that script means |
| Generate.GroupHunkWellFormed | src/tongs/diff/generate.py:72-83 | header, counts and line numbers of each generated hunk agree |
| Generate.ScriptWellFormed | src/tongs/diff/generate.py:59-86 | all generated hunks are well formed |
| Generate.UnifiedHunks | src/tongs/diff/generate.py:50-86 | the result is the printed hunks joined, the limit error exactly when they have too many lines, the argument error exactly for negative arguments |
| Generate.ScriptApplies | src/tongs/diff/generate.py:89-152 | applying the hunks of any edit script from any point gives the rest of the new version |
| Generate.ScriptIsPatch | src/tongs/diff/generate.py:89-152 | the hunks turn the old version into the new one, reversed the new into the old, final newlines included, and the line counts add up |
| Generate.GeneratedRoundTrip | src/tongs/diff/generate.py:111-115 | parsing the synthetic headers and the printed hunks gives exactly those hunks |
| Generate.GenerateFileDiff | src/tongs/diff/generate.py:89-152 | the returned file's hunks are a correct patch both ways, its counts are those of its hunks and add up, its flags give exactly one reason for having no hunks, a change of mode being one between two modes that are not all zeros, and paths, status and modes are kept; errors exactly for negative or passed limits |
| Contexts.CountTrailingContext | src/tongs/diff/context.py:131-140 | the loop counts the context lines that close a hunk, markers aside |
| Contexts.FindStructuralGaps | src/tongs/diff/context.py:154-203 | the loop gives the gaps of consistent hunks and nothing for inconsistent ones |
| Contexts.Segments | src/tongs/diff/context.py:432-461 | the loop gives the view of the file for this model and these open gaps |
| Views.ViewHolds | src/tongs/diff/context.py:432-461 | for any model and any set of open gaps the view holds every hunk and every gap of the file once, in file order, and nothing else; a gap shows its lines exactly when a model of this file is given and that gap or the whole file is open |
| Views.PartialFilesStayPlain | src/tongs/diff/context.py:206-221 | an added, deleted, binary, cut, empty, unavailable, mode-only or rename-only file, a link or a submodule shows its hunks only |
| Contexts.CheckLines | src/tongs/diff/context.py:266-286 | the loop accepts exactly lines that stand in the file at their numbers under markers that agree with its end |
| Contexts.CheckLastLine | src/tongs/diff/context.py:287-297 | the loop accepts exactly hunks that mark the last line wherever they show it |
| Contexts.VerifyNewSide | src/tongs/diff/context.py:255-303 | the check accepts exactly the files that agree with the hunks, contents, numbers and markers |
| ContextLaws.PatchVerifies | src/tongs/diff/context.py:255-303 | the file a patch leads to agrees with its hunks |
| ContextLaws.PatchIsConsistent | src/tongs/diff/context.py:154-203 | hunks that apply to some file have consistent gaps |
| ContextLaws.GapsOrdered | src/tongs/diff/context.py:163-203 | gaps are numbered by position, in hunk order, and only the last is an After gap |
| ContextLaws.FullViewShowsNewFile | src/tongs/diff/context.py:306-364 | the whole-file view of any accepted file shows its lines once each, in order, under their numbers, up to where the view ends; all of them exactly when that is no earlier than the end of the file |
| ContextLaws.ExpandedGapsMeetHunks | src/tongs/diff/context.py:255-338 | for an accepted file the expanded gaps before hunks have all their lines, and meet the hunks on both sides with no gap or overlap, exactly when the view does not end behind the file; an After gap always reaches the end of the file |
| ContextLaws.LateDeletionAccepted | src/tongs/diff/context.py:255-298 | a deletion behind the end of the file read is accepted, and the gap before it does not meet it |
| ContextLaws.PatchViewShowsOldFile | src/tongs/diff/context.py:326-338 | for hunks that lead from an old file to the new one the view read on the old side shows the old file, all of it exactly under the convention |
| Acceptance.AcceptedStands | src/tongs/diff/context.py:266-297 | an accepted hunk stands in the file where it says, endings included |
| Acceptance.AcceptedReverses | src/tongs/diff/context.py:255-303 | accepted hunks can be undone from any point on |
| Acceptance.AcceptedIsPatched | src/tongs/diff/context.py:255-303 | complete hunks with consistent gaps are accepted for a file they do not end behind exactly when they lead to it from some list of old lines |
| Acceptance.OldFileUnique | src/tongs/diff/context.py:255-263 | those old lines are the ones undoing the hunks gives, and there are no others |
| Acceptance.OldFileIsFile | src/tongs/diff/context.py:255-303 | the old lines make a file, bare in its last line at most, exactly when every old line with a marker is the last one and no old line comes behind a bare last line of the new file that no hunk shows |
| Acceptance.MisplacedMarkerAccepted | src/tongs/diff/context.py:255-303 | a complete hunk with its old-side marker in the middle is accepted, and leads from no file |
| Acceptance.FullViewShowsOldFile | src/tongs/diff/context.py:326-338 | for every accepted file: there are old lines exactly when the view does not end behind the new file, and then the view read on the old side shows them, whether or not they make a file (`OldFileIsFile`), so every number given to an expanded line is right; all of them exactly under the convention |
| ContextLaws.FullViewRowCount | src/tongs/diff/context.py:352-364 | it has as many code rows as announced exactly when it ends no earlier than the file |
| ContextLaws.ShortContextHidesEnd | src/tongs/diff/context.py:22-28 | a correct patch with less trailing context, for which the view stops at the hunk |
| GeneratedView.ScriptReachesEnd | src/tongs/diff/context.py:143-151 | hunks generated with three lines of context follow the convention |
| GeneratedView.GeneratedFileRebuilds | src/tongs/diff/context.py:432-461 | hunks generated from two versions are expandable, pass the check and are met by their gaps, and their view reads as the new file on one side and the old file on the other, in as many rows as announced |
| GeneratedView.GeneratedIsExpandable | src/tongs/diff/context.py:206-221 | a generated file has gaps to open exactly when it was there before and after, its versions differ, and neither is a link or a submodule |
| Alignment.ScanBlock | src/tongs/diff/alignment.py:54-75 | the loop sorts a block into deletions, additions and markers with the ordinal of the line they follow |
| Alignment.GroupMarks | src/tongs/diff/alignment.py:97-108 | the dictionary holds each row's markers in the order they were met |
| Alignment.EmitBlock | src/tongs/diff/alignment.py:54-113 | a block becomes its paired rows, each followed by its markers |
| Alignment.AlignHunk | src/tongs/diff/alignment.py:8-115 | the loops give the rows of each line or block of the hunk in order |
| Alignment.FindBlockEnd | src/tongs/diff/alignment.py:46-52 | the inner loop stops at the end of the block |
| Alignment.BlockKeepsSides | src/tongs/diff/alignment.py:46-113 | within a change block each column holds exactly that side's lines with their markers |
| Alignment.AlignKeepsSides | src/tongs/diff/alignment.py:8-115 | the non-empty cells of each column are exactly that side of the hunk with its markers, in order |
| Alignment.AlignProper | src/tongs/diff/alignment.py:16-18 | a marker never shares a row with a source line, and a pair is a deletion with an addition |
| Alignment.BlockPairs | src/tongs/diff/alignment.py:77-83 | deletions and additions of a block are paired by their ordinal with no row to spare |
| Alignment.MarkersInOrder | src/tongs/diff/alignment.py:84-113 | the markers behind a row are all that go there, later ones further down whichever side they are on |
| Alignment.BothEndsBare | src/tongs/diff/alignment.py:46-113 | two last lines without newlines give one row for the pair and then one for each marker, the old side first |
| Alignment.AnchorsComplete | src/tongs/diff/models.py:132-152 | each commentable line is an anchor exactly once on each side it belongs to |
| CacheKeys.LikeEscaped | src/tongs/cache/store.py:15-17 | an escaped text in a pattern matches that text, ignoring ASCII case, and nothing else |
| CacheKeys.FoldJoinsCases | src/tongs/cache/cached_client.py:61-70 | folding identifies the two cases of an ASCII letter and nothing else |
| CacheKeys.ColonIsDropped | src/tongs/cache/cached_client.py:61-70 | one colon at the end of a prefix makes no difference |
| CacheKeys.DeletesWhatItCovers | src/tongs/cache/store.py:98-117 | the SQL patterns delete a key exactly when the client counts it as covered, for every prefix |
| CacheKeys.CoversAcrossColon | src/tongs/cache/cached_client.py:61-70 | a prefix covers a longer key exactly across a colon |
| CacheProtocol.CachedForgeClient.HasDirtyPrefix | src/tongs/cache/cached_client.py:179-180 | true exactly when some dirty prefix covers the key |
| CacheProtocol.CachedForgeClient.MayStoreResult | src/tongs/cache/cached_client.py:182-195 | false exactly when a kept mark newer than the read covers the key |
| CacheProtocol.CachedForgeClient.Begin | src/tongs/cache/cached_client.py:197-203 | the read is counted at the current generation |
| CacheProtocol.CachedForgeClient.End | src/tongs/cache/cached_client.py:205-212 | the read's count goes down, or away, and the marks are pruned |
| CacheProtocol.CachedForgeClient.OldestRead | src/tongs/cache/cached_client.py:221 | the smallest generation in flight, or the current one |
| CacheProtocol.CachedForgeClient.Prune | src/tongs/cache/cached_client.py:214-228 | exactly the marks newer than the oldest read stay |
| CacheProtocol.CachedForgeClient.MarkDirty | src/tongs/cache/cached_client.py:679-685 | every prefix is marked with a new generation in both tables, then marks are pruned |
| CacheProtocol.CachedForgeClient.ClearDirty | src/tongs/cache/cached_client.py:636-640 | exactly the prefixes whose latest mark is this one become clean |
| CacheProtocol.CachedForgeClient.DrainGeneration | src/tongs/cache/cached_client.py:665-672 | the newest mark of the prefixes, or none once one is clean |
| CacheProtocol.DrainClearsNewest | src/tongs/cache/cached_client.py:665-677 | a round leaves no prefix dirty exactly when all were marked together, and the next round ends |
| CacheRuns.PruningRefines | src/tongs/cache/cached_client.py:182-228 | for a read in flight the pruned table answers as the full history would |
| CacheRuns.NoReadNoMarks | src/tongs/cache/cached_client.py:214-228 | with no read in flight the table is empty |
| CacheRuns.StepKeeps | src/tongs/cache/cached_client.py:232-250 | every step of a read, mutation, invalidation or the store keeps the coherence invariant |
| CacheRuns.ReachableInv | src/tongs/cache/cached_client.py:140-171 | the invariant holds after every interleaving |
| CacheRuns.CachedReadsAreFresh | src/tongs/cache/cached_client.py:232-250 | a cached read never returns a value whose forge read began before a covering mark made before its dirty test |
| CacheRuns.CleanKeysUseCache | src/tongs/cache/cached_client.py:232-250 | a read looks into the store exactly when no dirty prefix covers its key, and then gets what the store has |
| CacheRuns.CleaningIsExact | src/tongs/cache/cached_client.py:636-640 | when an invalidation ends, of its prefixes exactly those marked again since stay dirty, and no others change |
| CacheRuns.StaleEntriesStayDirty | src/tongs/cache/cached_client.py:601-640 | an entry older than a covering mark stays under a dirty prefix, whether or not invalidation ever succeeds or runs |
| CacheRuns.PruningIsExact | src/tongs/cache/cached_client.py:182-228 | in every reachable state a result may be stored exactly when no covering mark was made since its read began |
| CacheRuns.QuietTableIsEmpty | src/tongs/cache/cached_client.py:214-228 | in every reachable state without reads in flight the table is empty |
| CacheRuns.ReadsCanEnd | src/tongs/cache/cached_client.py:205-212 | ending a read never finds its count missing |
| CacheStores.CacheStore.Get | src/tongs/cache/store.py:54-72 | a live row's value, which then counts as used now; nothing for a missing, expired or excluded key |
| CacheStores.CacheStore.Put | src/tongs/cache/store.py:74-90 | the row is put in and the table cut to the limit, oldest rows first; log texts are never kept |
| CacheStores.CacheStore.Invalidate | src/tongs/cache/store.py:92-96 | exactly this key goes |
| CacheStores.CacheStore.InvalidatePrefix | src/tongs/cache/store.py:98-117 | exactly the keys the client counts as covered go |
| CacheStores.CacheStore.Clear | src/tongs/cache/store.py:119-123 | everything goes |
| CacheStores.CacheStore.Prune | src/tongs/cache/store.py:125-130 | exactly the expired rows go |
| CacheStores.CacheStore.SumSizes | src/tongs/cache/store.py:135-139 | the total of the row sizes |
| CacheStores.CacheStore.DeleteOldest | src/tongs/cache/store.py:144-151 | that many rows go, each used no later than every row that stays |
| CacheStores.CacheStore.FindOldest | src/tongs/cache/store.py:147 | a row used no later than any other |
| CacheStores.CacheStore.EnforceSizeLimit | src/tongs/cache/store.py:132-160 | the loop ends on every table, within the limit, having deleted least recently used rows only; its last pass was needed and deleted a quarter of the rows, at least one |
| CacheStores.NoGratuitousEviction | src/tongs/cache/store.py:143 | a table within the limit loses nothing |
| CacheStores.OversizedRowGoes | src/tongs/cache/store.py:140-142 | a row larger than the limit does not survive |
| CacheStores.ExcludedAreLogs | src/tongs/cache/store.py:54-90 | the keys never kept are those of job and stream logs, whatever follows the prefix |
| Exports.NameTestsAreExact | src/tongs/desktop/editor_exports.py:313-330 | the row check's prefix and suffix tests hold exactly for the name of this very slot and token |
| Exports.ExportNamePattern | src/tongs/desktop/editor_exports.py:18-21 | an export name has a slot from 1 to 8, a job number of 1 to 19 digits without a leading zero, and a token |
| Exports.ValidRowReadsText | src/tongs/desktop/editor_exports.py:313-330 | the row check reads the name's text: it begins with this slot's prefix and ends in this token |
| Exports.EditorExportLedger.RemoveStaleOwned | src/tongs/desktop/editor_exports.py:264-283 | true exactly when the file is absent, or ours, stale and removable, and then it is gone |
| Exports.EditorExportLedger.DoReclaimRows | src/tongs/desktop/editor_exports.py:197-231 | exactly the stale rows whose file is gone or can go are freed, with their files; the slots of all others are reported, stray rows counted |
| Exports.EditorExportLedger.DoReclaimOrphans | src/tongs/desktop/editor_exports.py:233-262 | exactly the stale removable files without a row go; the slots of those that stay are reported, legacy files counted |
| Exports.EditorExportLedger.Reserve | src/tongs/desktop/editor_exports.py:43-97 | everything stale is reclaimed, the least free slot is granted exactly when free slots outnumber what is held without a slot, and the error cases leave the rows alone |
| Exports.EditorExportLedger.Release | src/tongs/desktop/editor_exports.py:99-124 | the row goes exactly when slot and token are its own and its file is absent |
| Exports.RowsReclaimed | src/tongs/desktop/editor_exports.py:197-231 | a reservation takes away exactly the well-formed rows of at least a day whose file is absent, or ours, as old and removable; every other row stays as it was |
| Exports.FilesReclaimed | src/tongs/desktop/editor_exports.py:233-283 | it takes away exactly the export and legacy files that are ours, a day old and removable and that no younger well-formed row names; every other file stays as it was |
| Exports.RefusedWhenFull | src/tongs/desktop/editor_exports.py:43-83 | it is refused for want of a slot only when eight are still held, and otherwise for its arguments or a token in use |
| Exports.GrantIsLowest | src/tongs/desktop/editor_exports.py:82-94 | the slot granted is the lowest that is not held, under a token no other row has |
| Exports.ReleaseFreesSlot | src/tongs/desktop/editor_exports.py:99-124 | a release succeeds exactly when the row has this token and a well-formed name and no export file is there for its slot; then nothing holds the slot |
| Exports.FreshReservationStands | src/tongs/desktop/editor_exports.py:63-124 | over every run a reservation younger than a day that was not released still stands unchanged, and its slot is granted to nobody else |
| Exports.HeldIsOccupied | src/tongs/desktop/editor_exports.py:71-81 | every slot with a row or a file counts as occupied |
| Exports.FreeSlotIsEmpty | src/tongs/desktop/editor_exports.py:77-92 | a free slot has neither row nor file, so the insert never collides on it |
| Exports.GrantWithinBound | src/tongs/desktop/editor_exports.py:82-94 | a grant leaves at most eight held, from any state |
| Exports.GrantIsReleasable | src/tongs/desktop/editor_exports.py:87-94 | the new row is well formed and releasable exactly for job numbers of at most 19 digits |
| Exports.GrantNeverReleased | src/tongs/desktop/editor_exports.py:87-94 | an empty ledger grants a job of 20 digits a slot that cannot be released |
| Exports.MalformedStays | src/tongs/desktop/editor_exports.py:212-218 | a malformed row keeps its slot through every reservation |
| Exports.StepKeepsFiles | src/tongs/desktop/editor_exports.py:63-124 | no step gives a slot two files |
| Exports.StepKeepsNames | src/tongs/desktop/editor_exports.py:87-92 | every row keeps naming its own slot |
| Exports.StepHoldsFiles | src/tongs/desktop/editor_exports.py:63-124 | a file for a job of 20 digits stays under its row |
| Exports.FilesWithinLoad | src/tongs/desktop/editor_exports.py:82-83 | there are no more export files than slots and legacy files held |
| Exports.StepLoad | src/tongs/desktop/editor_exports.py:63-124 | no step raises what is held above eight |
| Exports.StepAccounted | src/tongs/desktop/editor_exports.py:63-124 | releases of a reservation never outnumber its grants |
| Exports.LedgerBound | src/tongs/desktop/editor_exports.py:31-124 | over every run from an empty directory, files created under any row, at most eight are held and at most eight export files exist, no slot has two files, and a reservation is released at most once per grant |
| Exports.LoadNeverGrows | src/tongs/desktop/editor_exports.py:31-124 | from any directory and table an excess can only shrink |
| Frames.SidecarTransport.HoldPartial | desktop/src/main/sidecar.ts:637-641 | the held tail grows by the piece |
| Frames.SidecarTransport.TakeFrame | desktop/src/main/sidecar.ts:643-654 | the frame is the held tail and its last piece, and nothing stays held |
| Frames.SidecarTransport.Consume | desktop/src/main/sidecar.ts:597-635 | a chunk takes the connection where reading the held tail followed by the chunk takes it |
| Frames.SidecarTransport.ConsumeNext | desktop/src/main/sidecar.ts:611-634 | one turn of the loop leaves the outcome of the rest unchanged |
| Frames.SidecarTransport.ConsumeFrame | desktop/src/main/sidecar.ts:656-666 | the handler gets the frame and may end the connection |
| Frames.DriveConcat | desktop/src/main/sidecar.ts:597-635 | reading a stream in two parts is reading it at once |
| Frames.ChunkingIrrelevant | desktop/src/main/sidecar.ts:597-654 | frames handed over, session and failure depend on the stream alone, however it is cut |
| Frames.LiveTailBounded | desktop/src/main/sidecar.ts:613-619 | the held tail of a live connection has no newline and at most 8 MiB |
| Frames.LiveIffAllGood | desktop/src/main/sidecar.ts:597-635 | the connection lives exactly when all complete lines are good frames and the tail fits, and then they were all handed over |
| Frames.HandedOverInOrder | desktop/src/main/sidecar.ts:602-634 | what is handed over are the complete lines before the first that is no good frame, and that one exactly when its size is right and its handler refused it; the session is what these leave |
| Frames.LinesRejoin | desktop/src/main/sidecar.ts:602-634 | the lines of a stream hold no newline and joined again give the stream back |
| Diagnostics.DiagnosticForwarder.AppendPart | desktop/src/main/sidecar.ts:205-212 | the room left in the line is filled and the line marked as cut when that is not enough |
| Diagnostics.DiagnosticForwarder.Emit | desktop/src/main/sidecar.ts:214-233 | the line is sent, left out when blank, or replaced by the last notice |
| Diagnostics.DiagnosticForwarder.WriteChunk | desktop/src/main/sidecar.ts:187-197 | the loop ends every line of the chunk in turn until output is dropped |
| Diagnostics.DiagnosticForwarder.Finish | desktop/src/main/sidecar.ts:199-203 | an unfinished last line is sent too |
| Diagnostics.WriteFollows | desktop/src/main/sidecar.ts:187-197 | a chunk forwards exactly the lines it completes |
| Diagnostics.ChunksForwarded | desktop/src/main/sidecar.ts:187-233 | after any chunks the complete lines of the stream were forwarded, each clipped to its first 4096 bytes and marked exactly when longer |
| Diagnostics.SessionForwarded | desktop/src/main/sidecar.ts:187-233 | what a whole session forwards depends on its bytes alone |
| Diagnostics.SessionSends | desktop/src/main/sidecar.ts:187-233 | of the lines that are not blank or are too long, each clipped and marked, a session in any chunks sends the longest front within 1 MiB, newlines counted, and the notice exactly when more follow |
| Diagnostics.ForwardBounded | desktop/src/main/sidecar.ts:225-232 | forwarded bytes stay within the session bound and the notice comes once at most, and last |
| Diagnostics.SessionBounded | desktop/src/main/sidecar.ts:225-232 | the same for a whole session in any chunks |
| NpmLock.ResolveLockedDependency | scripts/build_desktop_archive.py:838-848 | the loop resolves a name upwards from its parent |
| NpmLock.NearestAncestor | scripts/build_desktop_archive.py:838-848 | the package of the nearest ancestor that holds one is found |
| NpmLock.NoAncestor | scripts/build_desktop_archive.py:838-848 | nothing is found when no ancestor holds one |
| NpmLock.NamesAreSafe | scripts/build_desktop_archive.py:889-904 | a valid name has one part, or two of which exactly the first is a scope, none empty, `.`, `..` or with a backslash or control character |
| NpmLock.RequestsAre | scripts/build_desktop_archive.py:769-779 | a package requests its plain dependencies as required, its optional ones as optional, its peers as their meta data says, and nothing else |
| NpmLock.ClosedHoldsReachable | scripts/build_desktop_archive.py:751-779 | a selection all of whose requests are settled holds everything reachable |
| NpmLock.ClosedNeverOffends | scripts/build_desktop_archive.py:751-767 | such a selection without development packages means that no request offends |
| NpmLock.CollectProduction | scripts/build_desktop_archive.py:749-779 | the worklist ends, selects exactly what the root reaches, and fails exactly when a reachable request is malformed, unmet and required, or reaches a development package |
| JobLogs.FromBytes | src/tongs/forges/models.py:233-272 | at most the budget in UTF-8 bytes; the whole log unless marked as truncated, else its end from a line start on or a single line, as the two cuts leave it; the error exactly for a negative budget |
| JobLogs.TailPromise | src/tongs/forges/models.py:220-226 | a tail starts on a line boundary unless its first line alone is longer than the budget, exactly unless the second cut lands inside a last line that begins within the kept part and fits the budget |
| JobLogs.PlainTextKeepsPromise | src/tongs/forges/models.py:266-271 | the second cut never does so when all characters before the last line take one byte and it begins with no replacement character |
| JobLogs.TailInsideLine | src/tongs/forges/models.py:260-271 | seven bytes that decode to longer text, whose tail is the middle of a line that fits the budget |
| JobLogs.FromLineStartCuts | src/tongs/forges/models.py:296-305 | what is kept is an end of the text that begins a line or is its only line |
| JobLogs.FirstLineOnly | src/tongs/forges/models.py:296-305 | no more than the partial first line is dropped, or, of a single line, the replacement characters it begins with |
| JobLogs.SecondCutFits | src/tongs/forges/models.py:266-271 | dropping the excess in characters always fits the budget |
| JobLogs.SecondCutCuts | src/tongs/forges/models.py:266-271 | the second cut keeps an end of the log that begins a line or is a single line |
| JobLogs.SuffixShorter | src/tongs/forges/models.py:268-269 | each character dropped saves at least one byte |
| Recovery.ServiceRecoveryPolicy.Create | desktop/src/main/renderer_lifecycle.ts:101-113 | a new policy exactly for a safe integer that is not negative and a window that is positive |
| Recovery.ServiceRecoveryPolicy.TakeRestart | desktop/src/main/renderer_lifecycle.ts:167-174 | restarts outside the window are forgotten, and one more is taken exactly when fewer than allowed are left |
| Recovery.ServiceRecoveryPolicy.RunTurn | desktop/src/main/renderer_lifecycle.ts:142-150 | a turn of the loop stops for a shutdown, gives up, or starts a restart |
| Recovery.ServiceRecoveryPolicy.ServiceLost | desktop/src/main/renderer_lifecycle.ts:125-135 | a loss starts a run only when none is active, it has not given up and the app is not quitting |
| Recovery.ServiceRecoveryPolicy.RestartEnded | desktop/src/main/renderer_lifecycle.ts:152-165 | a restart that connected ends the run, another one takes the next turn |
| Recovery.ServiceRecoveryPolicy.ServiceConnected | desktop/src/main/renderer_lifecycle.ts:138-140 | a connection made elsewhere clears a give-up |
| Recovery.RefusedWhenWindowFull | desktop/src/main/renderer_lifecycle.ts:167-174 | a restart is taken exactly when the window over all restarts ever made has room, so forgetting loses nothing |
| Recovery.StepOutcome | desktop/src/main/renderer_lifecycle.ts:125-174 | what each event leads to, by all restarts ever taken: a loss starts a run only from rest, a restart that did not connect is followed by another, and the policy gives up exactly when the window is full |
| Recovery.StepKeeps | desktop/src/main/renderer_lifecycle.ts:125-174 | every event keeps the log ordered and spaced out and the counts right |
| Recovery.RestartBudget | desktop/src/main/renderer_lifecycle.ts:72-79 | over every run with a clock that never goes back, one more restart than allowed spans at least the window, and no two restarts run at once |
| Recovery.NoBudgetNoRestart | desktop/src/main/renderer_lifecycle.ts:105-113 | with no restarts allowed none is ever taken |
| Recovery.GaveUpStays | desktop/src/main/renderer_lifecycle.ts:77-79 | after giving up nothing is restarted until a connection made some other way |
| Recovery.ClockThatGoesBack | desktop/src/main/renderer_lifecycle.ts:167-172 | a run of a new policy on a clock that goes back, whose third restart follows the first by less than a window that allows two |

## Left out

- GenerateFileDiff: the language of a file is not part of the model, because Pygments finds it; difflib's choice of matching blocks is an arbitrary valid edit script, whose lines are passed in.
- ParseDiff: the digits of a hunk header are ASCII, while the source's pattern accepts any Unicode decimal digit and `int` limits the length of a number; characters are Unicode scalar values, so lone surrogates do not occur.
- Segments: a model belongs to a file when the two are equal, where the source compares identities; folds inside hunks, the operations that open and close gaps, and the lookups by key or line are not modelled.
- GeneratedFileRebuilds: that difflib closes its last group with three equal lines unless it reaches the end is a premise, not a result.
- DeletesWhatItCovers: letters fold in ASCII only; on other letters Python's `casefold` and SQLite's LIKE differ.
- CachedReadsAreFresh: one process, statements in the order they are issued; file bodies at a full commit and merge bases are immutable and need no such claim; the claim about first pages after a later page was read is not made, since page reads delete without marking.
- DrainClearsNewest: that invalidation is ever scheduled or completes is not claimed; the limit of 64 tasks, the table of running tasks and `close` are not modelled.
- CacheStore: the table is a map and every operation one atomic step; opening the database, JSON encoding and the file itself are left out, times are real numbers.
- EditorExportLedger: the directory is a map of parsed names, the table a map of rows by slot and each operation one atomic step under its lock; the storage identity checks and the opening of the database are left out, and a rollback appears as the outcome `Duplicate`.
- Consume: the checks that the child process and its generation are still current, the reason codes of failures, and what `consumeFrame` does with a frame; the last is an arbitrary handler of a session.
- ConsumeFrame: decoding a frame, the JSON limits, the event checks and the pending requests are inside the arbitrary handler.
- Emit: the decoded text of a line with its unsafe characters replaced is not computed; its bytes stand for it, and whether the text is blank is a parameter.
- SessionForwarded: decoding a line, replacing unsafe characters, the log prefix and a failing sink; whether a decoded line is blank is a parameter.
- CollectProduction: lock entries are parsed values, so errors for members of the wrong type are left out, as are the check that the manifest agrees with the lock and the reading of licence texts afterwards.
- TailPromise: of a line that began before the kept part of the log the length is not known, so nothing is promised about it.
- FromBytes: the decoder of the source encoding is a parameter; the note about a cut log is left out.
- RestartBudget: the restart itself and the state listener are left out, the number of restarts is an integer and times are reals, and the order of microtasks is not modelled, so nothing is said about the renderer recovery coordinator.
- The validators of the desktop's inter-process messages, configuration, authentication, the terminal and React interfaces, the MCP server, packaging checks and the site would only add easy members.
