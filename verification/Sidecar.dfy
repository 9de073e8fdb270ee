/** Reading frames from the desktop service's output, whatever chunks they arrive in. */
module Frames {
  import opened Options
  import opened Utf8

  const MAX_RESPONSE_BYTES := 8 * 1024 * 1024
  const NEWLINE: Byte := 0x0A

  /** Index of the first newline. */
  function FindNewline(s: seq<Byte>): (r: Option<nat>)
    ensures r.Some? ==> r.value < |s| && s[r.value] == NEWLINE && NEWLINE !in s[..r.value]
    ensures r.None? ==> NEWLINE !in s
  {
    if s == [] then None
    else if s[0] == NEWLINE then Some(0)
    else
      var r := FindNewline(s[1..]);
      assert r.Some? ==> s[..r.value + 1] == [s[0]] + s[1..][..r.value];
      if r.Some? then Some(r.value + 1) else None
  }

  function Flatten(chunks: seq<seq<Byte>>): seq<Byte> {
    if chunks == [] then [] else chunks[0] + Flatten(chunks[1..])
  }

  lemma {:induction false} FlattenAppend(chunks: seq<seq<Byte>>, more: seq<Byte>)
    ensures Flatten(chunks + [more]) == Flatten(chunks) + more
  {
    if chunks == [] {
      assert chunks + [more] == [more] && [more][1..] == [];
    } else {
      FlattenAppend(chunks[1..], more);
      assert (chunks + [more])[1..] == chunks[1..] + [more];
    }
  }

  /**
   What takes a complete frame: from the session it finds, the session it leaves and whether the
   connection goes on. Decoding, the JSON limits, the pending requests and the listeners are all in it.
   */
  type Handler<!S> = (S, seq<Byte>) -> (S, bool)

  /** A connection: the session, the frames handed over so far, and the unterminated tail while it lives. */
  datatype Connection<S> = Live(session: S, frames: seq<seq<Byte>>, tail: seq<Byte>)
                         | Failed(session: S, frames: seq<seq<Byte>>)

  /** The frames of a whole stream, up to the first bad one. */
  function Drive<S>(handle: Handler<S>, session: S, frames: seq<seq<Byte>>, stream: seq<Byte>): Connection<S>
    decreases |stream|
  {
    var at := FindNewline(stream);
    if at.None? then
      if |stream| > MAX_RESPONSE_BYTES then Failed(session, frames) else Live(session, frames, stream)
    else
      var raw := stream[..at.value];
      if |raw| == 0 || |raw| > MAX_RESPONSE_BYTES then Failed(session, frames)
      else
        var (next, ok) := handle(session, raw);
        if ok then Drive(handle, next, frames + [raw], stream[at.value + 1..]) else Failed(next, frames + [raw])
  }

  /** A chunk continues the held tail; a failed connection reads nothing more. */
  function Consumed<S>(handle: Handler<S>, c: Connection<S>, chunk: seq<Byte>): Connection<S> {
    if c.Failed? then c else Drive(handle, c.session, c.frames, c.tail + chunk)
  }

  function ConsumedAll<S>(handle: Handler<S>, c: Connection<S>, chunks: seq<seq<Byte>>): Connection<S>
    decreases |chunks|
  {
    if chunks == [] then c else ConsumedAll(handle, Consumed(handle, c, chunks[0]), chunks[1..])
  }

  // ---------------------------------------------------------------- The transport

  class SidecarTransport<!S> {
    const handle: Handler<S>
    var session: S
    var partialChunks: seq<seq<Byte>>
    var partialLength: nat
    var failureReported: bool
    ghost var frames: seq<seq<Byte>>

    /** The tail is kept in the chunks it came in, holds no newline and stays within the frame bound. */
    ghost predicate Valid()
      reads this
    {
      && partialLength == |Flatten(partialChunks)|
      && (!failureReported ==> NEWLINE !in Flatten(partialChunks) && partialLength <= MAX_RESPONSE_BYTES)
    }

    ghost function View(): Connection<S>
      reads this
    {
      if failureReported then Failed(session, frames) else Live(session, frames, Flatten(partialChunks))
    }

    constructor (handle: Handler<S>, session: S)
      ensures Valid() && this.handle == handle && View() == Live(session, [], [])
    {
      this.handle := handle;
      this.session := session;
      partialChunks, partialLength, failureReported, frames := [], 0, false, [];
    }

    method HoldPartial(piece: seq<Byte>)
      modifies this`partialChunks, this`partialLength
      ensures Flatten(partialChunks) == old(Flatten(partialChunks)) + piece
      ensures partialLength == old(partialLength) + |piece|
    {
      if piece == [] {
        assert Flatten(partialChunks) + piece == Flatten(partialChunks);
        return;
      }
      FlattenAppend(partialChunks, piece);
      partialChunks := partialChunks + [piece];
      partialLength := partialLength + |piece|;
    }

    method TakeFrame(last: seq<Byte>) returns (raw: seq<Byte>)
      requires partialLength == |Flatten(partialChunks)|
      modifies this`partialChunks, this`partialLength
      ensures raw == old(Flatten(partialChunks)) + last
      ensures partialChunks == [] && partialLength == 0
    {
      if partialChunks == [] {
        assert Flatten(partialChunks) + last == last;
        return last;
      }
      FlattenAppend(partialChunks, last);
      raw := Flatten(partialChunks + [last]);
      partialChunks, partialLength := [], 0;
    }

    ghost function Rest(rest: seq<Byte>): Connection<S>
      reads this
    {
      Drive(handle, session, frames, Flatten(partialChunks) + rest)
    }

    /** Only the new chunk is searched for newlines; each frame is joined with the held tail. */
    method Consume(chunk: seq<Byte>)
      requires Valid()
      modifies this
      ensures Valid() && View() == Consumed(handle, old(View()), chunk)
    {
      if failureReported {
        return;
      }
      hide Rest;
      var start, more := 0, true;
      assert chunk[0..] == chunk;
      ghost var goal := Rest(chunk);
      assert goal == Consumed(handle, View(), chunk) by {
        RestIsConsumed(chunk);
      }
      while more
        invariant start <= |chunk| && Valid()
        invariant more ==> !failureReported && Rest(chunk[start..]) == goal
        invariant !more ==> View() == goal
        decreases more, |chunk| - start
      {
        more, start := ConsumeNext(chunk, start);
      }
    }

    lemma RestIsConsumed(chunk: seq<Byte>)
      requires !failureReported
      ensures Rest(chunk) == Consumed(handle, View(), chunk)
    {
      hide Drive, Flatten;
    }

    /** One turn of the loop: the next frame of the chunk, or what is left of it to hold. */
    method ConsumeNext(chunk: seq<Byte>, start: nat) returns (more: bool, next: nat)
      requires Valid() && !failureReported && start <= |chunk|
      modifies this
      ensures Valid() && next <= |chunk|
      ensures more ==> start < next && !failureReported && Rest(chunk[next..]) == old(Rest(chunk[start..]))
      ensures !more ==> View() == old(Rest(chunk[start..]))
    {
      hide FindNewline, Drive, Flatten;
      var newline := FindNewline(chunk[start..]);
      ghost var tail := Flatten(partialChunks);
      if newline.None? {
        DriveTail(handle, session, frames, tail, chunk[start..]);
        HoldPartial(chunk[start..]);
        if partialLength > MAX_RESPONSE_BYTES {
          failureReported := true;
        }
        return false, start;
      }
      var end := start + newline.value;
      DriveFrame(handle, session, frames, tail, chunk[start..]);
      assert chunk[start..][..newline.value] == chunk[start..end];
      assert chunk[start..][newline.value + 1..] == chunk[end + 1..];
      var raw := TakeFrame(chunk[start..end]);
      next := end + 1;
      FlattenNothing();
      if |raw| == 0 || |raw| > MAX_RESPONSE_BYTES {
        HoldPartial(chunk[next..]);
        failureReported := true;
        return false, next;
      }
      assert [] + chunk[next..] == chunk[next..];
      ConsumeFrame(raw);
      more := !failureReported;
    }

    /** The frame goes to its handler, which may end the connection. */
    method ConsumeFrame(raw: seq<Byte>)
      modifies this`session, this`frames, this`failureReported
      ensures var (next, ok) := handle(old(session), raw);
              session == next && frames == old(frames) + [raw] && failureReported == (old(failureReported) || !ok)
    {
      var (next, ok) := handle(session, raw);
      session := next;
      frames := frames + [raw];
      if !ok {
        failureReported := true;
      }
    }
  }

  lemma FlattenNothing()
    ensures Flatten([]) == []
  {}

  /** Without a newline in the rest, the stream is one tail. */
  lemma DriveTail<S>(handle: Handler<S>, session: S, frames: seq<seq<Byte>>, tail: seq<Byte>, rest: seq<Byte>)
    requires NEWLINE !in tail && FindNewline(rest).None?
    ensures NEWLINE !in tail + rest
    ensures Drive(handle, session, frames, tail + rest)
         == if |tail + rest| > MAX_RESPONSE_BYTES then Failed(session, frames) else Live(session, frames, tail + rest)
  {
    hide FindNewline;
    HeldBefore(tail, rest);
  }

  /** The connection once this frame has been met, before the rest of the stream. */
  function AfterFrame<S>(handle: Handler<S>, session: S, frames: seq<seq<Byte>>, raw: seq<Byte>, rest: seq<Byte>)
    : Connection<S>
  {
    if |raw| == 0 || |raw| > MAX_RESPONSE_BYTES then Failed(session, frames)
    else
      var (next, ok) := handle(session, raw);
      if ok then Drive(handle, next, frames + [raw], rest) else Failed(next, frames + [raw])
  }

  /** With one, the first frame joins the tail with what comes before it. */
  lemma DriveFrame<S>(handle: Handler<S>, session: S, frames: seq<seq<Byte>>, tail: seq<Byte>, rest: seq<Byte>)
    requires NEWLINE !in tail && FindNewline(rest).Some?
    ensures Drive(handle, session, frames, tail + rest)
         == AfterFrame(handle, session, frames, tail + rest[..FindNewline(rest).value],
             rest[FindNewline(rest).value + 1..])
  {
    hide FindNewline;
    HeldBefore(tail, rest);
    var at := FindNewline(rest).value;
    assert (tail + rest)[|tail| + at + 1..] == rest[at + 1..];
  }

  /** A tail without newlines only shifts the first one. */
  lemma HeldBefore(tail: seq<Byte>, rest: seq<Byte>)
    requires NEWLINE !in tail
    ensures FindNewline(tail + rest) == if FindNewline(rest).Some? then Some(|tail| + FindNewline(rest).value) else None
    ensures FindNewline(rest).Some? ==>
              (tail + rest)[..|tail| + FindNewline(rest).value] == tail + rest[..FindNewline(rest).value]
    ensures FindNewline(rest).None? ==> NEWLINE !in tail + rest
  {
    HeldShift(tail, rest);
  }

  lemma {:induction false} HeldShift(tail: seq<Byte>, rest: seq<Byte>)
    requires NEWLINE !in tail
    ensures FindNewline(tail + rest) == if FindNewline(rest).Some? then Some(|tail| + FindNewline(rest).value) else None
  {
    hide FindNewline;
    if tail == [] {
      assert tail + rest == rest;
    } else {
      assert tail[0] in tail && forall b :: b in tail[1..] ==> b in tail;
      HeldShift(tail[1..], rest);
      assert (tail + rest)[1..] == tail[1..] + rest;
      SkipByte(tail + rest);
    }
  }

  lemma SkipByte(s: seq<Byte>)
    requires s != [] && s[0] != NEWLINE
    ensures var r := FindNewline(s[1..]); FindNewline(s) == if r.Some? then Some(r.value + 1) else None
  {}

  // ---------------------------------------------------------------- Chunks do not matter

  lemma FoundEarlier(s: seq<Byte>, more: seq<Byte>)
    requires FindNewline(s).Some?
    ensures FindNewline(s + more) == FindNewline(s)
  {
    hide FindNewline;
    var at := FindNewline(s).value;
    var before, rest := s[..at], s[at..] + more;
    assert s + more == before + rest;
    NewlineHere(rest);
    HeldShift(before, rest);
  }

  lemma NewlineHere(s: seq<Byte>)
    requires s != [] && s[0] == NEWLINE
    ensures FindNewline(s) == Some(0)
  {}

  /** Reading a stream in two parts is reading it at once; only the reason of a failure may differ. */
  lemma {:induction false} DriveConcat<S>(handle: Handler<S>, session: S, frames: seq<seq<Byte>>, x: seq<Byte>,
          y: seq<Byte>)
    ensures Drive(handle, session, frames, x + y) == Consumed(handle, Drive(handle, session, frames, x), y)
    decreases |x|
  {
    hide FindNewline;
    var at := FindNewline(x);
    if at.Some? {
      FoundEarlier(x, y);
      assert (x + y)[..at.value] == x[..at.value];
      assert (x + y)[at.value + 1..] == x[at.value + 1..] + y;
      var raw := x[..at.value];
      if 0 < |raw| <= MAX_RESPONSE_BYTES && handle(session, raw).1 {
        DriveConcat(handle, handle(session, raw).0, frames + [raw], x[at.value + 1..], y);
      }
    } else {
      HeldBefore(x, y);
    }
  }

  /**
   Frame reading is independent of chunking: the frames handed over, the session and whether the
   connection fails are those of the whole stream, however it is cut.
   */
  lemma {:induction false} ChunkingIrrelevant<S>(handle: Handler<S>, session: S, frames: seq<seq<Byte>>,
                                                 stream: seq<Byte>, chunks: seq<seq<Byte>>)
    ensures ConsumedAll(handle, Drive(handle, session, frames, stream), chunks)
         == Drive(handle, session, frames, stream + Flatten(chunks))
    decreases |chunks|
  {
    hide Drive;
    if chunks == [] {
      assert stream + [] == stream;
    } else {
      DriveConcat(handle, session, frames, stream, chunks[0]);
      ChunkingIrrelevant(handle, session, frames, stream + chunks[0], chunks[1..]);
      assert stream + Flatten(chunks) == stream + chunks[0] + Flatten(chunks[1..]);
    }
  }

  /** The tail of a live connection holds no newline and never exceeds the frame bound. */
  lemma {:induction false} LiveTailBounded<S>(handle: Handler<S>, session: S, frames: seq<seq<Byte>>, stream: seq<Byte>)
    ensures var c := Drive(handle, session, frames, stream);
            c.Live? ==> |c.tail| <= MAX_RESPONSE_BYTES && NEWLINE !in c.tail
    decreases |stream|
  {
    var at := FindNewline(stream);
    if at.Some? {
      var raw := stream[..at.value];
      LiveTailBounded(handle, handle(session, raw).0, frames + [raw], stream[at.value + 1..]);
    }
  }

  // ---------------------------------------------------------------- Splitting the stream

  /** `stream.split("\n")`; the last part is the unterminated tail. */
  function Lines(stream: seq<Byte>): (r: seq<seq<Byte>>)
    ensures r != []
    decreases |stream|
  {
    var at := FindNewline(stream);
    if at.None? then [stream] else [stream[..at.value]] + Lines(stream[at.value + 1..])
  }

  /** The lines of a stream that end in a newline. */
  function CompleteLines(stream: seq<Byte>): seq<seq<Byte>> {
    var lines := Lines(stream); lines[..|lines| - 1]
  }

  /** What stands behind the last newline. */
  function Unfinished(stream: seq<Byte>): seq<Byte> {
    var lines := Lines(stream); lines[|lines| - 1]
  }

  /** `parts.join("\n")`. */
  function Rejoined(parts: seq<seq<Byte>>): seq<Byte>
    requires parts != []
  {
    if |parts| == 1 then parts[0] else parts[0] + [NEWLINE] + Rejoined(parts[1..])
  }

  /** The lines hold no newline and are all of the stream: joined again, they give it back. */
  lemma {:induction false} LinesRejoin(stream: seq<Byte>)
    ensures Rejoined(Lines(stream)) == stream
    ensures forall line :: line in Lines(stream) ==> NEWLINE !in line
    ensures Lines(stream) == CompleteLines(stream) + [Unfinished(stream)]
    decreases |stream|
  {
    hide FindNewline;
    var at := FindNewline(stream);
    if at.Some? {
      var line, rest := stream[..at.value], stream[at.value + 1..];
      LinesRejoin(rest);
      assert ([line] + Lines(rest))[1..] == Lines(rest);
      assert stream == line + [NEWLINE] + rest;
    }
  }

  lemma LinesStep(stream: seq<Byte>)
    ensures var at := FindNewline(stream);
            if at.None? then CompleteLines(stream) == [] && Unfinished(stream) == stream
            else
              CompleteLines(stream) == [stream[..at.value]] + CompleteLines(stream[at.value + 1..])
              && Unfinished(stream) == Unfinished(stream[at.value + 1..])
  {
    hide FindNewline, Lines;
    LinesUnfold(stream);
    var at := FindNewline(stream);
    if at.Some? {
      AllButLast(stream[..at.value], Lines(stream[at.value + 1..]));
    }
  }

  lemma AllButLast<T>(first: T, rest: seq<T>)
    requires rest != []
    ensures var whole := [first] + rest;
            whole[..|whole| - 1] == [first] + rest[..|rest| - 1] && whole[|whole| - 1] == rest[|rest| - 1]
  {}

  predicate GoodFrame<S>(handle: Handler<S>, session: S, raw: seq<Byte>) {
    0 < |raw| <= MAX_RESPONSE_BYTES && handle(session, raw).1
  }

  /** The session after handing over frames one after the other. */
  function SessionAfter<S>(handle: Handler<S>, session: S, frames: seq<seq<Byte>>): S {
    if frames == [] then session else SessionAfter(handle, handle(session, frames[0]).0, frames[1..])
  }

  /** Frames that are all good, each for the session the earlier ones leave. */
  predicate AllGood<S>(handle: Handler<S>, session: S, frames: seq<seq<Byte>>) {
    frames == []
    || (GoodFrame(handle, session, frames[0]) && AllGood(handle, handle(session, frames[0]).0, frames[1..]))
  }

  /** A stream leaves the connection alive exactly when its complete lines are good frames and its tail fits. */
  lemma {:induction false} LiveIffAllGood<S>(handle: Handler<S>, session: S, frames: seq<seq<Byte>>, stream: seq<Byte>)
    ensures var complete, tail := CompleteLines(stream), Unfinished(stream);
            var c := Drive(handle, session, frames, stream);
            && (c.Live? <==> AllGood(handle, session, complete) && |tail| <= MAX_RESPONSE_BYTES)
            && (c.Live? ==> c == Live(SessionAfter(handle, session, complete), frames + complete, tail))
    decreases |stream|
  {
    hide FindNewline, CompleteLines, Unfinished, Drive, SessionAfter, AllGood;
    LinesStep(stream);
    DriveUnfold(handle, session, frames, stream);
    var at := FindNewline(stream);
    if at.None? {
      NothingBad(handle, session);
      assert frames + [] == frames;
    } else {
      var raw, rest := stream[..at.value], stream[at.value + 1..];
      LiveIffAllGood(handle, handle(session, raw).0, frames + [raw], rest);
      GoodUnfold(handle, session, raw, CompleteLines(rest));
      SessionUnfold(handle, session, raw, CompleteLines(rest));
      assert frames + ([raw] + CompleteLines(rest)) == frames + [raw] + CompleteLines(rest);
    }
  }

  lemma NothingBad<S>(handle: Handler<S>, session: S)
    ensures AllGood(handle, session, []) && SessionAfter(handle, session, []) == session
  {}

  lemma GoodUnfold<S>(handle: Handler<S>, session: S, raw: seq<Byte>, later: seq<seq<Byte>>)
    ensures AllGood(handle, session, [raw] + later)
       <==> GoodFrame(handle, session, raw) && AllGood(handle, handle(session, raw).0, later)
  {
    assert ([raw] + later)[1..] == later;
  }

  /** How many frames are good before the first bad one. */
  function GoodCount<S>(handle: Handler<S>, session: S, frames: seq<seq<Byte>>): (n: nat)
    ensures n <= |frames| && AllGood(handle, session, frames[..n])
    ensures n < |frames| ==> !GoodFrame(handle, SessionAfter(handle, session, frames[..n]), frames[n])
    decreases |frames|
  {
    if frames == [] || !GoodFrame(handle, session, frames[0]) then 0
    else
      var n := GoodCount(handle, handle(session, frames[0]).0, frames[1..]);
      GoodStep(handle, session, frames, n);
      1 + n
  }

  lemma GoodStep<S>(handle: Handler<S>, session: S, frames: seq<seq<Byte>>, n: nat)
    requires frames != [] && n < |frames|
    ensures var next := handle(session, frames[0]).0;
            && (GoodFrame(handle, session, frames[0]) && AllGood(handle, next, frames[1..][..n]) ==>
                  AllGood(handle, session, frames[..1 + n]))
            && SessionAfter(handle, session, frames[..1 + n]) == SessionAfter(handle, next, frames[1..][..n])
  {
    assert frames[..1 + n][1..] == frames[1..][..n];
  }

  predicate RightSize(raw: seq<Byte>) {
    0 < |raw| <= MAX_RESPONSE_BYTES
  }

  /** The lines before the first bad one, and that one too when only its handler refused it. */
  function Delivered<S>(handle: Handler<S>, session: S, lines: seq<seq<Byte>>): seq<seq<Byte>> {
    var n := GoodCount(handle, session, lines);
    lines[..if n < |lines| && RightSize(lines[n]) then n + 1 else n]
  }

  lemma DeliveredStep<S>(handle: Handler<S>, session: S, lines: seq<seq<Byte>>)
    requires lines != []
    ensures var (next, ok) := handle(session, lines[0]);
            Delivered(handle, session, lines)
            == if !RightSize(lines[0]) then [] else if !ok then [lines[0]]
               else [lines[0]] + Delivered(handle, next, lines[1..])
  {}

  /**
   What is handed over, for a failed connection as for a live one: the complete lines before the first
   that is no good frame, and that one only when its size is right and its handler refused it. The
   session is what handing over just these leaves.
   */
  lemma {:induction false} HandedOverInOrder<S>(handle: Handler<S>, session: S, frames: seq<seq<Byte>>,
          stream: seq<Byte>)
    ensures var delivered := Delivered(handle, session, CompleteLines(stream));
            var c := Drive(handle, session, frames, stream);
            c.frames == frames + delivered && c.session == SessionAfter(handle, session, delivered)
    decreases |stream|
  {
    hide FindNewline, CompleteLines, Delivered, Drive, SessionAfter;
    LinesStep(stream);
    DriveUnfold(handle, session, frames, stream);
    var at := FindNewline(stream);
    if at.None? {
      NothingDelivered(handle, session);
      assert frames + [] == frames;
    } else {
      var raw, rest := stream[..at.value], stream[at.value + 1..];
      var (next, ok) := handle(session, raw);
      if RightSize(raw) && ok {
        HandedOverInOrder(handle, next, frames + [raw], rest);
      }
      OneDelivered(handle, session, frames, raw, CompleteLines(rest));
    }
  }

  /** The first line's part in what is delivered. */
  lemma OneDelivered<S>(handle: Handler<S>, session: S, frames: seq<seq<Byte>>, raw: seq<Byte>, later: seq<seq<Byte>>)
    ensures var (next, ok) := handle(session, raw);
            var delivered := Delivered(handle, session, [raw] + later);
            var after := SessionAfter(handle, session, delivered);
            if !RightSize(raw) then frames + delivered == frames && after == session
            else if !ok then frames + delivered == frames + [raw] && after == next
            else
              && frames + delivered == frames + [raw] + Delivered(handle, next, later)
              && after == SessionAfter(handle, next, Delivered(handle, next, later))
  {
    hide Delivered, SessionAfter;
    assert ([raw] + later)[1..] == later;
    DeliveredStep(handle, session, [raw] + later);
    var (next, ok) := handle(session, raw);
    SessionUnfold(handle, session, raw, if ok then Delivered(handle, next, later) else []);
    assert frames + [] == frames && [raw] + [] == [raw];
    assert frames + ([raw] + Delivered(handle, next, later)) == frames + [raw] + Delivered(handle, next, later);
  }

  lemma SessionUnfold<S>(handle: Handler<S>, session: S, raw: seq<Byte>, later: seq<seq<Byte>>)
    ensures SessionAfter(handle, session, []) == session
    ensures SessionAfter(handle, handle(session, raw).0, []) == handle(session, raw).0
    ensures SessionAfter(handle, session, [raw] + later) == SessionAfter(handle, handle(session, raw).0, later)
  {
    assert ([raw] + later)[1..] == later;
  }

  lemma DriveUnfold<S>(handle: Handler<S>, session: S, frames: seq<seq<Byte>>, stream: seq<Byte>)
    ensures var at := FindNewline(stream);
            Drive(handle, session, frames, stream)
            == if at.None? then
                 if |stream| > MAX_RESPONSE_BYTES then Failed(session, frames) else Live(session, frames, stream)
               else AfterFrame(handle, session, frames, stream[..at.value], stream[at.value + 1..])
  {
    hide FindNewline;
  }

  lemma NothingDelivered<S>(handle: Handler<S>, session: S)
    ensures Delivered(handle, session, []) == []
    ensures SessionAfter(handle, session, []) == session
  {}

  lemma LinesUnfold(stream: seq<Byte>)
    ensures var at := FindNewline(stream);
            Lines(stream) == if at.None? then [stream] else [stream[..at.value]] + Lines(stream[at.value + 1..])
  {
    hide FindNewline;
  }
}
