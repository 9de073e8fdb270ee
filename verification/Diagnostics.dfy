/** Forwarding the service's error output line by line, bounded, whatever chunks it arrives in. */
module Diagnostics {
  import opened Options
  import opened Utf8
  import opened Frames

  const MAX_LINE_BYTES := 4 * 1024
  const MAX_SESSION_BYTES := 1024 * 1024

  /** A forwarded line: the bytes kept of it and whether it was longer; or the last notice. */
  datatype Emission = Line(raw: seq<Byte>, cut: bool) | DroppedNotice

  /** What has been sent, how much of it counts, and whether the bound was passed. */
  datatype Log = Log(sent: seq<Emission>, total: nat, dropped: bool)

  const EMPTY_LOG := Log([], 0, false)

  /**
   Whether a line's decoded text is blank: decoding, control characters and trimming are not modelled.
   */
  type BlankTest = seq<Byte> -> bool

  function EmitLine(blank: BlankTest, log: Log, raw: seq<Byte>, cut: bool): Log {
    if log.dropped || (blank(raw) && !cut) then log
    else
      var total := log.total + |raw| + 1;
      if total > MAX_SESSION_BYTES then Log(log.sent + [DroppedNotice], total, true)
      else Log(log.sent + [Line(raw, cut)], total, false)
  }

  // ---------------------------------------------------------------- What the stream means

  /** The first bytes of a line, as many as are kept. */
  function Clip(line: seq<Byte>): seq<Byte> {
    if |line| > MAX_LINE_BYTES then line[..MAX_LINE_BYTES] else line
  }

  function IsCut(line: seq<Byte>): bool { |line| > MAX_LINE_BYTES }

  /** Every line of a list, forwarded in order: the reference, which knows no chunks. */
  function ForwardLines(blank: BlankTest, log: Log, lines: seq<seq<Byte>>): Log
    decreases |lines|
  {
    if lines == [] then log
    else ForwardLines(blank, EmitLine(blank, log, Clip(lines[0]), IsCut(lines[0])), lines[1..])
  }

  // ---------------------------------------------------------------- The forwarder

  /** The log with the kept part of the current line. */
  datatype Progress = Progress(log: Log, line: seq<Byte>, cut: bool)

  const START := Progress(EMPTY_LOG, [], false)

  /** More bytes of the current line: the room left is filled, anything over it cuts the line. */
  function Append(p: Progress, part: seq<Byte>): Progress
    requires |p.line| <= MAX_LINE_BYTES
  {
    var room := MAX_LINE_BYTES - |p.line|;
    p.(line := p.line + if |part| <= room then part else part[..room], cut := p.cut || |part| > room)
  }

  function EndLine(blank: BlankTest, p: Progress): Progress {
    Progress(EmitLine(blank, p.log, p.line, p.cut), [], false)
  }

  function Write(blank: BlankTest, p: Progress, chunk: seq<Byte>): Progress
    requires |p.line| <= MAX_LINE_BYTES
    decreases |chunk|
  {
    if p.log.dropped || chunk == [] then p
    else
      var at := FindNewline(chunk);
      if at.None? then Append(p, chunk)
      else Write(blank, EndLine(blank, Append(p, chunk[..at.value])), chunk[at.value + 1..])
  }

  class DiagnosticForwarder {
    const blank: BlankTest
    var line: seq<seq<Byte>>
    var lineBytes: nat
    var lineCut: bool
    var total: nat
    var dropped: bool
    ghost var sent: seq<Emission>

    ghost predicate Valid()
      reads this
    {
      lineBytes == |Flatten(line)| && lineBytes <= MAX_LINE_BYTES
    }

    ghost function View(): Progress
      reads this
    {
      Progress(Log(sent, total, dropped), Flatten(line), lineCut)
    }

    constructor (blank: BlankTest)
      ensures Valid() && this.blank == blank && View() == START
    {
      this.blank := blank;
      line, lineBytes, lineCut, total, dropped, sent := [], 0, false, 0, false, [];
    }

    method AppendPart(part: seq<Byte>)
      requires Valid()
      modifies this`line, this`lineBytes, this`lineCut
      ensures Valid() && View() == Append(old(View()), part)
    {
      var room := MAX_LINE_BYTES - lineBytes;
      if |part| > room {
        lineCut := true;
      }
      var kept := part[..if |part| < room then |part| else room];
      if |kept| == 0 {
        assert Flatten(line) + kept == Flatten(line);
        return;
      }
      FlattenAppend(line, kept);
      line := line + [kept];
      lineBytes := lineBytes + |kept|;
    }

    method Emit()
      requires Valid() && !dropped
      modifies this
      ensures Valid() && View() == EndLine(blank, old(View()))
    {
      var raw, cut := Flatten(line), lineCut;
      line, lineBytes, lineCut := [], 0, false;
      if blank(raw) && !cut {
        return;
      }
      total := total + |raw| + 1;
      if total > MAX_SESSION_BYTES {
        dropped := true;
        sent := sent + [DroppedNotice];
        return;
      }
      sent := sent + [Line(raw, cut)];
    }

    method WriteChunk(chunk: seq<Byte>)
      requires Valid()
      modifies this
      ensures Valid() && View() == Write(blank, old(View()), chunk)
    {
      hide FindNewline, Append, EndLine, Flatten;
      ghost var goal := Write(blank, View(), chunk);
      var start := 0;
      assert chunk[0..] == chunk;
      while !dropped && start < |chunk|
        invariant start <= |chunk| && Valid()
        invariant Write(blank, View(), chunk[start..]) == goal
        decreases |chunk| - start
      {
        var newline := FindNewline(chunk[start..]);
        var end := if newline.Some? then start + newline.value else |chunk|;
        if newline.None? {
          assert chunk[start..end] == chunk[start..];
        } else {
          assert chunk[start..][..newline.value] == chunk[start..end];
          assert chunk[start..][newline.value + 1..] == chunk[end + 1..];
        }
        AppendPart(chunk[start..end]);
        if newline.None? {
          return;
        }
        Emit();
        start := end + 1;
      }
    }

    /** A last line that ended without a newline. */
    method Finish()
      requires Valid()
      modifies this
      ensures Valid() && View() == Finished(blank, old(View()))
    {
      if !dropped && (lineBytes > 0 || lineCut) {
        Emit();
      }
    }
  }

  function Finished(blank: BlankTest, p: Progress): Progress {
    if !p.log.dropped && (p.line != [] || p.cut) then EndLine(blank, p) else p
  }

  function WriteAll(blank: BlankTest, p: Progress, chunks: seq<seq<Byte>>): Progress
    requires |p.line| <= MAX_LINE_BYTES
    decreases |chunks|
  {
    if chunks == [] then p
    else
      WriteBounded(blank, p, chunks[0]);
      WriteAll(blank, Write(blank, p, chunks[0]), chunks[1..])
  }

  lemma {:induction false} WriteBounded(blank: BlankTest, p: Progress, chunk: seq<Byte>)
    requires |p.line| <= MAX_LINE_BYTES
    ensures |Write(blank, p, chunk).line| <= MAX_LINE_BYTES
    decreases |chunk|
  {
    hide EmitLine;
    if !p.log.dropped && chunk != [] && FindNewline(chunk).Some? {
      var at := FindNewline(chunk).value;
      WriteBounded(blank, EndLine(blank, Append(p, chunk[..at])), chunk[at + 1..]);
    }
  }

  // ---------------------------------------------------------------- The stream decides

  /** The forwarder's state is what the lines read so far leave. */
  ghost predicate Follows(p: Progress, log: Log, pending: seq<Byte>) {
    && p.log == log
    && (!log.dropped ==> p.line == Clip(pending) && p.cut == IsCut(pending))
    && (log.dropped ==> p.line == [] && !p.cut)
  }

  lemma AppendFollows(p: Progress, log: Log, pending: seq<Byte>, part: seq<Byte>)
    requires Follows(p, log, pending) && !log.dropped
    ensures |p.line| <= MAX_LINE_BYTES && Follows(Append(p, part), log, pending + part)
  {}

  /** One chunk: the complete lines of the pending text and the chunk are forwarded, the rest is kept. */
  lemma {:induction false} WriteFollows(blank: BlankTest, p: Progress, log: Log, pending: seq<Byte>, chunk: seq<Byte>)
    requires Follows(p, log, pending) && NEWLINE !in pending
    ensures |p.line| <= MAX_LINE_BYTES
    ensures Follows(Write(blank, p, chunk), ForwardLines(blank, log, CompleteLines(pending + chunk)),
                    Unfinished(pending + chunk))
    ensures NEWLINE !in Unfinished(pending + chunk)
    decreases |chunk|
  {
    hide FindNewline, EmitLine, ForwardLines;
    UnfinishedClean(pending + chunk);
    if log.dropped {
      DroppedStays(blank, log, CompleteLines(pending + chunk));
    } else if FindNewline(chunk).None? {
      NoLineEnds(blank, log, pending, chunk);
      AppendFollows(p, log, pending, chunk);
      AppendNothing(p);
    } else {
      var at := FindNewline(chunk).value;
      var part, rest := chunk[..at], chunk[at + 1..];
      FirstLineEnds(blank, log, pending, chunk);
      AppendFollows(p, log, pending, part);
      var q := EndLine(blank, Append(p, part));
      var next := EmitLine(blank, log, Clip(pending + part), IsCut(pending + part));
      assert Follows(q, next, []);
      WriteFollows(blank, q, next, [], rest);
      assert [] + rest == rest;
    }
  }

  lemma AppendNothing(p: Progress)
    requires |p.line| <= MAX_LINE_BYTES
    ensures Append(p, []) == p
  {}

  lemma {:induction false} DroppedStays(blank: BlankTest, log: Log, lines: seq<seq<Byte>>)
    requires log.dropped
    ensures ForwardLines(blank, log, lines) == log
  {
    if lines != [] {
      DroppedStays(blank, log, lines[1..]);
    }
  }

  lemma {:induction false} UnfinishedClean(stream: seq<Byte>)
    ensures NEWLINE !in Unfinished(stream)
    decreases |stream|
  {
    var at := FindNewline(stream);
    if at.Some? {
      UnfinishedClean(stream[at.value + 1..]);
      assert Lines(stream)[1..] == Lines(stream[at.value + 1..]);
    }
  }

  lemma NoLineEnds(blank: BlankTest, log: Log, pending: seq<Byte>, chunk: seq<Byte>)
    requires NEWLINE !in pending && FindNewline(chunk).None?
    ensures ForwardLines(blank, log, CompleteLines(pending + chunk)) == log
    ensures Unfinished(pending + chunk) == pending + chunk
  {
    HeldBefore(pending, chunk);
    assert CompleteLines(pending + chunk) == [];
  }

  lemma FirstLineEnds(blank: BlankTest, log: Log, pending: seq<Byte>, chunk: seq<Byte>)
    requires NEWLINE !in pending && FindNewline(chunk).Some?
    ensures var at := FindNewline(chunk).value;
            var line, rest := pending + chunk[..at], chunk[at + 1..];
            && ForwardLines(blank, log, CompleteLines(pending + chunk))
               == ForwardLines(blank, EmitLine(blank, log, Clip(line), IsCut(line)), CompleteLines(rest))
            && Unfinished(pending + chunk) == Unfinished(rest)
  {
    hide FindNewline, EmitLine, CompleteLines, Unfinished, ForwardLines;
    HeldBefore(pending, chunk);
    LinesStep(pending + chunk);
    var at := FindNewline(chunk).value;
    var line, rest := pending + chunk[..at], chunk[at + 1..];
    assert (pending + chunk)[|pending| + at + 1..] == rest;
    ForwardStep(blank, log, line, CompleteLines(rest));
  }

  lemma ForwardStep(blank: BlankTest, log: Log, line: seq<Byte>, later: seq<seq<Byte>>)
    ensures ForwardLines(blank, log, [line] + later)
         == ForwardLines(blank, EmitLine(blank, log, Clip(line), IsCut(line)), later)
  {
    hide EmitLine;
    assert ([line] + later)[1..] == later;
  }

  lemma {:induction false} ForwardConcat(blank: BlankTest, log: Log, x: seq<seq<Byte>>, y: seq<seq<Byte>>)
    ensures ForwardLines(blank, log, x + y) == ForwardLines(blank, ForwardLines(blank, log, x), y)
    decreases |x|
  {
    hide EmitLine;
    if x == [] {
      assert x + y == y;
    } else {
      assert (x + y)[1..] == x[1..] + y;
      ForwardConcat(blank, EmitLine(blank, log, Clip(x[0]), IsCut(x[0])), x[1..], y);
    }
  }

  /** Appending to a stream continues its unfinished line. */
  lemma {:induction false} LinesConcat(x: seq<Byte>, y: seq<Byte>)
    ensures CompleteLines(x + y) == CompleteLines(x) + CompleteLines(Unfinished(x) + y)
    ensures Unfinished(x + y) == Unfinished(Unfinished(x) + y)
    decreases |x|
  {
    hide FindNewline, CompleteLines, Unfinished, Lines;
    var at := FindNewline(x);
    LinesStep(x);
    LinesStep(x + y);
    if at.None? {
      assert [] + CompleteLines(x + y) == CompleteLines(x + y);
    } else {
      FoundEarlier(x, y);
      var line, rest := x[..at.value], x[at.value + 1..];
      assert (x + y)[..at.value] == line && (x + y)[at.value + 1..] == rest + y;
      LinesConcat(rest, y);
      assert [line] + (CompleteLines(rest) + CompleteLines(Unfinished(rest) + y))
          == ([line] + CompleteLines(rest)) + CompleteLines(Unfinished(rest) + y);
    }
  }

  /**
   What is forwarded depends only on the bytes: after any chunks, each complete line of the stream has
   been clipped to its first 4096 bytes, marked when it was longer, and sent in order up to the bound.
   */
  lemma {:induction false} ChunksForwarded(blank: BlankTest, p: Progress, stream: seq<Byte>, chunks: seq<seq<Byte>>)
    requires Follows(p, ForwardLines(blank, EMPTY_LOG, CompleteLines(stream)), Unfinished(stream))
    ensures |p.line| <= MAX_LINE_BYTES
    ensures var whole := stream + Flatten(chunks);
            Follows(WriteAll(blank, p, chunks), ForwardLines(blank, EMPTY_LOG, CompleteLines(whole)), Unfinished(whole))
    decreases |chunks|
  {
    hide EmitLine, ForwardLines, Write, CompleteLines, Unfinished;
    if chunks == [] {
      assert stream + [] == stream;
    } else {
      var log, pending := ForwardLines(blank, EMPTY_LOG, CompleteLines(stream)), Unfinished(stream);
      UnfinishedClean(stream);
      WriteFollows(blank, p, log, pending, chunks[0]);
      LinesConcat(stream, chunks[0]);
      ForwardConcat(blank, EMPTY_LOG, CompleteLines(stream), CompleteLines(pending + chunks[0]));
      ChunksForwarded(blank, Write(blank, p, chunks[0]), stream + chunks[0], chunks[1..]);
      assert stream + Flatten(chunks) == stream + chunks[0] + Flatten(chunks[1..]);
    }
  }

  /** The same from the start of a session, the unfinished last line included. */
  lemma SessionForwarded(blank: BlankTest, chunks: seq<seq<Byte>>)
    ensures var stream := Flatten(chunks);
            var end := Unfinished(stream);
            var log := ForwardLines(blank, EMPTY_LOG, CompleteLines(stream));
            && WriteAll(blank, START, chunks).log == log
            && Finished(blank, WriteAll(blank, START, chunks)).log
               == if end == [] then log else EmitLine(blank, log, Clip(end), IsCut(end))
  {
    hide EmitLine, WriteAll, Flatten;
    StartFollows(blank);
    ChunksForwarded(blank, START, [], chunks);
    assert [] + Flatten(chunks) == Flatten(chunks);
    var stream := Flatten(chunks);
    DroppedEmits(blank, ForwardLines(blank, EMPTY_LOG, CompleteLines(stream)), Clip(Unfinished(stream)),
        IsCut(Unfinished(stream)));
  }

  lemma DroppedEmits(blank: BlankTest, log: Log, raw: seq<Byte>, cut: bool)
    ensures log.dropped ==> EmitLine(blank, log, raw, cut) == log
  {}

  lemma StartFollows(blank: BlankTest)
    ensures Follows(START, ForwardLines(blank, EMPTY_LOG, CompleteLines([])), Unfinished([]))
  {
    assert CompleteLines([]) == [] && Unfinished([]) == [];
  }

  // ---------------------------------------------------------------- Bounds

  /** Bytes of the forwarded lines, a newline each included. */
  function SentBytes(sent: seq<Emission>): nat {
    if sent == [] then 0
    else
      var last := sent[|sent| - 1];
      SentBytes(sent[..|sent| - 1]) + if last.Line? then |last.raw| + 1 else 0
  }

  ghost predicate Bounded(log: Log) {
    && SentBytes(log.sent) <= MAX_SESSION_BYTES
    && (!log.dropped ==> log.total == SentBytes(log.sent))
    && (forall k :: 0 <= k < |log.sent| ==>
          && (log.sent[k].DroppedNotice? <==> log.dropped && k == |log.sent| - 1)
          && (log.sent[k].Line? ==> |log.sent[k].raw| <= MAX_LINE_BYTES
                                    && (log.sent[k].cut ==> |log.sent[k].raw| == MAX_LINE_BYTES)))
    && (log.dropped ==> log.sent != [])
  }

  lemma EmitBounded(blank: BlankTest, log: Log, line: seq<Byte>)
    requires Bounded(log)
    ensures Bounded(EmitLine(blank, log, Clip(line), IsCut(line)))
  {
    var next := EmitLine(blank, log, Clip(line), IsCut(line));
    if next != log {
      assert next.sent[..|next.sent| - 1] == log.sent;
    }
  }

  /**
   However much the service writes: what is forwarded stays within the session bound, each line within
   the line bound, and the notice appears once at most and nothing follows it.
   */
  lemma {:induction false} ForwardBounded(blank: BlankTest, log: Log, lines: seq<seq<Byte>>)
    requires Bounded(log)
    ensures Bounded(ForwardLines(blank, log, lines))
    decreases |lines|
  {
    hide Bounded, EmitLine;
    if lines != [] {
      EmitBounded(blank, log, lines[0]);
      ForwardBounded(blank, EmitLine(blank, log, Clip(lines[0]), IsCut(lines[0])), lines[1..]);
    }
  }

  /** Both bounds over a whole session, the unfinished last line included. */
  lemma SessionBounded(blank: BlankTest, chunks: seq<seq<Byte>>)
    ensures Bounded(Finished(blank, WriteAll(blank, START, chunks)).log)
  {
    hide Bounded, EmitLine, ForwardLines, WriteAll, Finished, Flatten;
    var stream := Flatten(chunks);
    SessionForwarded(blank, chunks);
    NothingBounded();
    ForwardBounded(blank, EMPTY_LOG, CompleteLines(stream));
    EmitBounded(blank, ForwardLines(blank, EMPTY_LOG, CompleteLines(stream)), Unfinished(stream));
  }

  lemma NothingBounded()
    ensures Bounded(EMPTY_LOG)
  {}

  // ---------------------------------------------------------------- Nothing is lost

  /** What is to be sent of these lines: those that are longer than what is kept of them, or not blank. */
  function Worth(blank: BlankTest, lines: seq<seq<Byte>>): seq<Emission> {
    if lines == [] then []
    else
      (if |lines[0]| > MAX_LINE_BYTES then [Line(lines[0][..MAX_LINE_BYTES], true)]
       else if blank(lines[0]) then [] else [Line(lines[0], false)]) + Worth(blank, lines[1..])
  }

  /** `n` is the length of the longest front of these lines that stays within the session bound. */
  ghost predicate Longest(kept: seq<Emission>, n: nat) {
    n <= |kept| && forall m :: 0 <= m <= |kept| ==> (SentBytes(kept[..m]) <= MAX_SESSION_BYTES <==> m <= n)
  }

  /** That front has been sent, and behind it the notice exactly when there were more lines. */
  ghost predicate SentOf(log: Log, kept: seq<Emission>) {
    exists n: nat :: n <= |kept| && Longest(kept, n)
      && log.sent == kept[..n] + if n < |kept| then [DroppedNotice] else []
  }

  /** The same with what the forwarder remembers of it. */
  ghost predicate Accounts(log: Log, kept: seq<Emission>) {
    && SentOf(log, kept)
    && (if log.dropped then !Longest(kept, |kept|)
        else Longest(kept, |kept|) && log.sent == kept && log.total == SentBytes(kept))
  }

  /** More lines make no front of the earlier ones heavier. */
  lemma {:induction false} SentBytesGrow(kept: seq<Emission>, m: nat)
    requires m <= |kept|
    ensures SentBytes(kept[..m]) <= SentBytes(kept)
  {
    if m == |kept| {
      assert kept[..m] == kept;
    } else {
      SentBytesGrow(kept[..|kept| - 1], m);
      assert kept[..|kept| - 1][..m] == kept[..m];
    }
  }

  lemma SentBytesAdd(kept: seq<Emission>, raw: seq<Byte>, cut: bool)
    ensures SentBytes(kept + [Line(raw, cut)]) == SentBytes(kept) + |raw| + 1
  {
    assert (kept + [Line(raw, cut)])[..|kept|] == kept;
  }

  /** Once the bound is passed it stays passed. */
  lemma LongestStays(kept: seq<Emission>, n: nat, more: Emission)
    requires Longest(kept, n) && n < |kept|
    ensures Longest(kept + [more], n) && (kept + [more])[..n] == kept[..n]
  {
    hide SentBytes;
    var all := kept + [more];
    forall m | 0 <= m <= |kept| ensures all[..m] == kept[..m] {}
    SentBytesGrow(all, |kept|);
    assert all[..|all|] == all && kept[..|kept|] == kept;
    assert SentBytes(kept[..|kept|]) > MAX_SESSION_BYTES;
  }

  lemma LongestGrows(kept: seq<Emission>, more: Emission)
    requires Longest(kept, |kept|)
    ensures var all := kept + [more];
            Longest(all, if SentBytes(all) <= MAX_SESSION_BYTES then |all| else |kept|) && all[..|kept|] == kept
  {
    hide SentBytes;
    var all := kept + [more];
    forall m | 0 <= m <= |kept| ensures all[..m] == kept[..m] {}
    assert all[..|all|] == all;
  }

  lemma LongestUnique(kept: seq<Emission>, n: nat, m: nat)
    requires Longest(kept, n) && Longest(kept, m)
    ensures n == m
  {
    hide SentBytes;
    assert SentBytes(kept[..n]) <= MAX_SESSION_BYTES && SentBytes(kept[..m]) <= MAX_SESSION_BYTES;
  }

  lemma SendsOne(log: Log, kept: seq<Emission>, raw: seq<Byte>, cut: bool, next: Log)
    requires Accounts(log, kept)
    requires next == if log.dropped then log
                     else if log.total + |raw| + 1 > MAX_SESSION_BYTES
                     then Log(log.sent + [DroppedNotice], log.total + |raw| + 1, true)
                     else Log(log.sent + [Line(raw, cut)], log.total + |raw| + 1, false)
    ensures Accounts(next, kept + [Line(raw, cut)])
  {
    hide SentBytes, Longest;
    var line := Line(raw, cut);
    if log.dropped {
      var n: nat :| n <= |kept| && Longest(kept, n)
        && log.sent == kept[..n] + if n < |kept| then [DroppedNotice] else [];
      LongestStays(kept, n, line);
      if Longest(kept + [line], |kept + [line]|) {
        LongestUnique(kept + [line], n, |kept + [line]|);
      }
    } else {
      SentBytesAdd(kept, raw, cut);
      LongestGrows(kept, line);
      var all := kept + [line];
      assert all[..|all|] == all && all[..|all|] + [] == all;
      if Longest(all, |kept|) && Longest(all, |all|) {
        LongestUnique(all, |kept|, |all|);
      }
    }
  }

  lemma LineSent(blank: BlankTest, log: Log, kept: seq<Emission>, line: seq<Byte>)
    requires Accounts(log, kept)
    ensures Accounts(EmitLine(blank, log, Clip(line), IsCut(line)), kept + Worth(blank, [line]))
  {
    hide Accounts;
    var one: seq<seq<Byte>> := [line];
    assert one[1..] == [];
    if IsCut(line) || !blank(line) {
      SendsOne(log, kept, Clip(line), IsCut(line), EmitLine(blank, log, Clip(line), IsCut(line)));
      assert Worth(blank, [line]) == [Line(Clip(line), IsCut(line))];
    } else {
      assert Worth(blank, [line]) == [] && kept + [] == kept;
    }
  }

  lemma {:induction false} LinesSent(blank: BlankTest, log: Log, kept: seq<Emission>, lines: seq<seq<Byte>>)
    requires Accounts(log, kept)
    ensures Accounts(ForwardLines(blank, log, lines), kept + Worth(blank, lines))
    decreases |lines|
  {
    hide Accounts, EmitLine, Worth, Clip, IsCut;
    WorthUnfold(blank, lines);
    if lines == [] {
      assert kept + [] == kept;
    } else {
      var next := EmitLine(blank, log, Clip(lines[0]), IsCut(lines[0]));
      LineSent(blank, log, kept, lines[0]);
      LinesSent(blank, next, kept + Worth(blank, [lines[0]]), lines[1..]);
      assert kept + Worth(blank, [lines[0]]) + Worth(blank, lines[1..]) == kept + Worth(blank, lines);
    }
  }

  lemma WorthUnfold(blank: BlankTest, lines: seq<seq<Byte>>)
    ensures if lines == [] then Worth(blank, lines) == []
            else Worth(blank, lines) == Worth(blank, [lines[0]]) + Worth(blank, lines[1..])
  {
    if lines != [] {
      var first: seq<seq<Byte>> := [lines[0]];
      assert first[1..] == [];
    }
  }

  lemma NothingSent()
    ensures Accounts(EMPTY_LOG, [])
  {
    assert Longest([], 0);
  }

  /**
   What a session sends, whatever chunks its bytes come in: of the lines that are not blank or too long,
   each clipped and marked, the longest front within the session bound, and the notice when more follow.
   */
  lemma SessionSends(blank: BlankTest, chunks: seq<seq<Byte>>)
    ensures var stream := Flatten(chunks);
            var lines, end := CompleteLines(stream), Unfinished(stream);
            && SentOf(WriteAll(blank, START, chunks).log, Worth(blank, lines))
            && SentOf(Finished(blank, WriteAll(blank, START, chunks)).log,
                      Worth(blank, if end == [] then lines else lines + [end]))
  {
    hide EmitLine, ForwardLines, WriteAll, Finished, Flatten, CompleteLines, Unfinished, SentOf, Worth;
    var stream := Flatten(chunks);
    var lines, end := CompleteLines(stream), Unfinished(stream);
    SessionForwarded(blank, chunks);
    NothingSent();
    LinesSent(blank, EMPTY_LOG, [], lines);
    LinesSent(blank, EMPTY_LOG, [], lines + [end]);
    ForwardConcat(blank, EMPTY_LOG, lines, [end]);
    ForwardStep(blank, ForwardLines(blank, EMPTY_LOG, lines), end, []);
    ForwardNothing(blank, EmitLine(blank, ForwardLines(blank, EMPTY_LOG, lines), Clip(end), IsCut(end)));
    assert [end] + [] == [end];
    assert [] + Worth(blank, lines) == Worth(blank, lines);
    assert [] + Worth(blank, lines + [end]) == Worth(blank, lines + [end]);
  }

  lemma ForwardNothing(blank: BlankTest, log: Log)
    ensures ForwardLines(blank, log, []) == log
  {}
}
