/** The end of a job log, cut to a byte budget. */
module JobLogs {
  import opened Options
  import opened Utf8

  /** The character a decoder puts for bytes it cannot read. */
  const REPLACEMENT: char := '\U{fffd}'

  function LStripReplacement(text: string): string {
    if text != "" && text[0] == REPLACEMENT then LStripReplacement(text[1..]) else text
  }

  function FindLineFeed(text: string): (r: Option<nat>)
    ensures r.Some? ==> r.value < |text| && text[r.value] == '\n' && '\n' !in text[..r.value]
    ensures r.None? ==> '\n' !in text
  {
    if text == "" then None
    else if text[0] == '\n' then Some(0)
    else
      var r := FindLineFeed(text[1..]);
      assert r.Some? ==> text[..r.value + 1] == [text[0]] + text[1..][..r.value];
      if r.Some? then Some(r.value + 1) else None
  }

  /** `log_from_line_start`: drop the partial first line unless it is the only one. */
  function FromLineStart(text: string): string {
    var at := FindLineFeed(text);
    if at.None? || at.value == |text| - 1 then LStripReplacement(text) else text[at.value + 1..]
  }

  datatype JobLogTail = JobLogTail(text: string, totalBytes: nat, truncated: bool)

  type Decoder = seq<Byte> -> string

  /** The second cut drops as many characters as there are bytes too many. */
  function Excess(text: string, over: nat): string {
    if over <= |text| then text[over..] else ""
  }

  /** One line only, whatever its ending. */
  ghost predicate SingleLine(text: string) {
    forall k :: 0 <= k < |text| - 1 ==> text[k] != '\n'
  }

  /** The text is the end of `whole`, from a line start on unless it is a single line. */
  ghost predicate EndsFromLine(text: string, whole: string, atLineStart: bool) {
    exists n :: 0 <= n <= |whole| && text == whole[n..] && LineStarts(whole, n, atLineStart, text)
  }

  ghost predicate LineStarts(whole: string, n: nat, atLineStart: bool, text: string)
    requires n <= |whole|
  {
    StartsLine(whole, n, atLineStart) || SingleLine(text)
  }

  predicate StartsLine(whole: string, n: nat, atLineStart: bool)
    requires n <= |whole|
  {
    (n == 0 && atLineStart) || (n > 0 && whole[n - 1] == '\n')
  }

  // ---------------------------------------------------------------- Cutting

  /** A suffix of a text takes at least one byte less for each character dropped. */
  lemma {:induction false} SuffixShorter(text: string, n: nat)
    requires n <= |text|
    ensures |Encode(text[n..])| + n <= |Encode(text)|
  {
    hide EncodeChar;
    if n == 0 {
      assert text[0..] == text;
    } else {
      SuffixShorter(text[1..], n - 1);
      assert text[1..][n - 1..] == text[n..];
    }
  }

  lemma {:induction false} StrippedAway(text: string) returns (n: nat)
    ensures n <= |text| && LStripReplacement(text) == text[n..]
    ensures forall k :: 0 <= k < n ==> text[k] == REPLACEMENT
    ensures n == 0 <==> text == "" || text[0] != REPLACEMENT
  {
    if text != "" && text[0] == REPLACEMENT {
      var m := StrippedAway(text[1..]);
      n := m + 1;
      assert text[1..][m..] == text[n..];
      assert forall k :: 1 <= k < n ==> text[k] == text[1..][k - 1];
    } else {
      n := 0;
      assert text[0..] == text;
    }
  }

  /**
   No more than the partial first line goes: what is cut off ends in the first line feed, unless none is
   followed by anything; then only the replacement characters at the front go.
   */
  lemma FirstLineOnly(text: string) returns (n: nat)
    ensures n <= |text| && FromLineStart(text) == text[n..]
    ensures if SingleLine(text)
            then (forall k :: 0 <= k < n ==> text[k] == REPLACEMENT) && (n < |text| ==> text[n] != REPLACEMENT)
            else 0 < n < |text| && text[n - 1] == '\n' && '\n' !in text[..n - 1]
  {
    hide FindLineFeed;
    var at := FindLineFeed(text);
    if at.None? || at.value == |text| - 1 {
      n := StrippedAll(text);
      assert at.Some? ==> forall k :: 0 <= k < |text| - 1 ==> text[k] == text[..at.value][k];
    } else {
      n := at.value + 1;
      assert text[at.value] == '\n';
    }
  }

  lemma {:induction false} StrippedAll(text: string) returns (n: nat)
    ensures n <= |text| && LStripReplacement(text) == text[n..]
    ensures (forall k :: 0 <= k < n ==> text[k] == REPLACEMENT) && (n < |text| ==> text[n] != REPLACEMENT)
  {
    if text != "" && text[0] == REPLACEMENT {
      var m := StrippedAll(text[1..]);
      n := m + 1;
      assert text[1..][m..] == text[n..];
      assert forall k :: 1 <= k < n ==> text[k] == text[1..][k - 1];
      assert n < |text| ==> text[n] == text[1..][m];
    } else {
      n := 0;
      assert text[0..] == text;
    }
  }

  /** A cut log begins behind a line feed, or it is its only line. */
  lemma FromLineStartCuts(text: string) returns (n: nat)
    ensures n <= |text| && FromLineStart(text) == text[n..]
    ensures (n > 0 && text[n - 1] == '\n') || SingleLine(text[n..])
  {
    var at := FindLineFeed(text);
    if at.None? || at.value == |text| - 1 {
      n := StrippedAway(text);
      assert at.Some? ==> forall k :: 0 <= k < |text| - 1 ==> text[k] == text[..at.value][k];
      assert forall k :: 0 <= k < |text[n..]| ==> text[n..][k] == text[n + k];
    } else {
      n := at.value + 1;
    }
  }

  /** A later line start of an end of the text is a line start of the text. */
  lemma CutAgain(whole: string, first: string, atLineStart: bool, text: string, n: nat)
    requires EndsFromLine(first, whole, atLineStart)
    requires n <= |first| && text == first[n..] && ((n > 0 && first[n - 1] == '\n') || SingleLine(text))
    ensures EndsFromLine(text, whole, atLineStart)
  {
    hide SingleLine;
    var m :| 0 <= m <= |whole| && first == whole[m..] && LineStarts(whole, m, atLineStart, first);
    assert text == whole[m + n..] by {
      assert whole[m..][n..] == whole[m + n..];
    }
    assert n > 0 ==> first[n - 1] == whole[m + n - 1];
    assert LineStarts(whole, m + n, atLineStart, text);
  }

  lemma FirstCutCuts(whole: string)
    ensures EndsFromLine(FromLineStart(whole), whole, false)
  {
    hide FromLineStart;
    var n := FromLineStartCuts(whole);
    assert LineStarts(whole, n, false, whole[n..]);
  }

  lemma Uncut(whole: string)
    ensures EndsFromLine(whole, whole, true)
  {
    assert whole[0..] == whole && LineStarts(whole, 0, true, whole);
  }

  /** A budget passed by so many bytes is met once as many characters are gone, however wide they are. */
  lemma SecondCutFits(text: string, maxBytes: nat)
    requires |Encode(text)| > maxBytes
    ensures |Encode(FromLineStart(Excess(text, |Encode(text)| - maxBytes)))| <= maxBytes
  {
    hide FromLineStart, Encode;
    var over := |Encode(text)| - maxBytes;
    var rest := Excess(text, over);
    var n := FromLineStartCuts(rest);
    SuffixShorter(rest, n);
    if over <= |text| {
      SuffixShorter(text, over);
    } else {
      NothingEncoded();
    }
  }

  lemma NothingEncoded()
    ensures |Encode("")| == 0
  {}

  lemma SecondCutCuts(whole: string, first: string, atLineStart: bool, over: nat)
    requires EndsFromLine(first, whole, atLineStart) && over > 0
    ensures EndsFromLine(FromLineStart(Excess(first, over)), whole, atLineStart)
  {
    hide FromLineStart, EndsFromLine;
    var rest := Excess(first, over);
    var n := FromLineStartCuts(rest);
    if over <= |first| {
      assert rest[n..] == first[over + n..];
      CutAgain(whole, first, atLineStart, rest[n..], over + n);
    } else {
      assert rest[n..] == first[|first|..];
      CutAgain(whole, first, atLineStart, rest[n..], |first|);
    }
  }

  // ---------------------------------------------------------------- Line boundaries

  /** Where the line that holds index `n` begins. */
  function LineStart(whole: string, n: nat): (r: nat)
    requires n <= |whole|
    ensures r <= n && (r == 0 || whole[r - 1] == '\n')
  {
    if n == 0 || whole[n - 1] == '\n' then n else LineStart(whole, n - 1)
  }

  /** Where it ends, its line feed included. */
  function LineEnd(whole: string, n: nat): (r: nat)
    requires n <= |whole|
    ensures n <= r <= |whole|
    decreases |whole| - n
  {
    if n == |whole| then n else if whole[n] == '\n' then n + 1 else LineEnd(whole, n + 1)
  }

  /**
   What a tail that begins at index `n` promises: it starts on a line boundary, unless its first line
   alone is longer than the budget. Of a line that began before what is left of the log nothing is known.
   */
  predicate Promised(whole: string, atLineStart: bool, n: nat, maxBytes: nat)
    requires n <= |whole|
  {
    || StartsLine(whole, n, atLineStart)
    || (LineStart(whole, n) == 0 && !atLineStart)
    || |Encode(whole[LineStart(whole, n)..LineEnd(whole, n)])| > maxBytes
  }

  function SecondCut(text: string, maxBytes: nat): string {
    var length := |Encode(text)|;
    if length > maxBytes then FromLineStart(Excess(text, length - maxBytes)) else text
  }

  function FirstCut(whole: string, atLineStart: bool): string {
    if atLineStart then whole else FromLineStart(whole)
  }

  /** What both cuts leave of a decoded log. */
  function Tail(whole: string, atLineStart: bool, maxBytes: nat): string {
    SecondCut(FirstCut(whole, atLineStart), maxBytes)
  }

  /** Where the last line of a text begins; a final line feed belongs to it. */
  function LastLine(text: string): nat
    requires text != ""
  {
    LineStart(text, if text[|text| - 1] == '\n' then |text| - 1 else |text|)
  }

  /**
   The second cut lands inside the last line although that line fits the budget: it drops as many
   characters as there are bytes too many, which is more than stand before the line.
   */
  predicate CutsLastLine(text: string, maxBytes: nat) {
    var over := |Encode(text)| - maxBytes;
    && text != "" && over > 0 && |Encode(text[LastLine(text)..])| <= maxBytes
    && (LastLine(text) < over || (LastLine(text) == over && text[over] == REPLACEMENT))
    && !(over >= |text| && text[|text| - 1] == '\n')
  }

  /** A line feed that does not end the text, so that some line begins within it. */
  predicate HasLineStart(whole: string) {
    FindLineFeed(whole).Some? && FindLineFeed(whole).value < |whole| - 1
  }

  lemma {:induction false} SameLine(text: string, from: nat, n: nat)
    requires from <= n <= |text| && (from == 0 || text[from - 1] == '\n')
    requires forall k :: from <= k < n ==> text[k] != '\n'
    ensures LineStart(text, n) == from
  {
    if from < n {
      SameLine(text, from, n - 1);
    }
  }

  lemma {:induction false} SameEnd(text: string, n: nat)
    requires n <= |text| && forall k :: n <= k < |text| - 1 ==> text[k] != '\n'
    ensures LineEnd(text, n) == |text|
    decreases |text| - n
  {
    if n < |text| {
      SameEnd(text, n + 1);
    }
  }

  lemma {:induction false} NoLineFeedWithin(text: string, n: nat)
    requires n <= |text|
    ensures forall k :: LineStart(text, n) <= k < n ==> text[k] != '\n'
  {
    if n > 0 && text[n - 1] != '\n' {
      NoLineFeedWithin(text, n - 1);
    }
  }

  /** The last line, seen from any place in it. */
  lemma LastLineHolds(text: string, n: nat)
    requires text != "" && LastLine(text) <= n <= |text|
    requires n == |text| ==> text[|text| - 1] != '\n'
    ensures LineStart(text, n) == LastLine(text) < |text| && LineEnd(text, n) == |text|
    ensures n > LastLine(text) ==> text[n - 1] != '\n'
    ensures forall k :: LastLine(text) <= k < |text| - 1 ==> text[k] != '\n'
  {
    hide LineStart, LineEnd;
    LastLineInside(text);
    SameLine(text, LastLine(text), n);
    SameEnd(text, n);
  }

  lemma LastLineInside(text: string)
    requires text != ""
    ensures LastLine(text) < |text| && (LastLine(text) == 0 || text[LastLine(text) - 1] == '\n')
    ensures forall k :: LastLine(text) <= k < |text| - 1 ==> text[k] != '\n'
  {
    hide LineStart;
    var end := if text[|text| - 1] == '\n' then |text| - 1 else |text|;
    NoLineFeedWithin(text, end);
  }

  /** Where the second cut lands. */
  lemma SecondCutAt(text: string, over: nat) returns (n: nat)
    requires 0 < over <= |text|
    ensures n <= |text| && FromLineStart(Excess(text, over)) == text[n..]
    ensures over < LastLine(text) ==> StartsLine(text, n, true)
    ensures over >= LastLine(text) ==>
              && over <= n && (forall k :: over <= k < n ==> text[k] == REPLACEMENT)
              && (over < |text| ==> (n == over <==> text[over] != REPLACEMENT))
  {
    hide LastLine, LStripReplacement, FindLineFeed;
    var rest := text[over..];
    LastLineInside(text);
    var at := FindLineFeed(rest);
    if over < LastLine(text) {
      var k := LastLine(text) - 1 - over;
      assert rest[k] == text[LastLine(text) - 1];
      FoundBy(rest, k);
      n := over + at.value + 1;
      assert rest[at.value + 1..] == text[n..] && text[n - 1] == rest[at.value];
    } else {
      NotFoundBefore(text, over);
      var m := StrippedAway(rest);
      n := over + m;
      assert rest[m..] == text[n..];
      assert forall k :: over <= k < n ==> text[k] == rest[k - over];
    }
  }

  lemma {:induction false} FoundBy(text: string, k: nat)
    requires k < |text| && text[k] == '\n'
    ensures FindLineFeed(text).Some? && FindLineFeed(text).value <= k
  {
    if k > 0 && text[0] != '\n' {
      FoundBy(text[1..], k - 1);
    }
  }

  lemma NotFoundBefore(text: string, over: nat)
    requires text != "" && LastLine(text) <= over <= |text|
    ensures var at := FindLineFeed(text[over..]); at.None? || at.value == |text[over..]| - 1
  {
    hide FindLineFeed, LastLine;
    LastLineInside(text);
    var at := FindLineFeed(text[over..]);
    assert at.Some? ==> text[over + at.value] == '\n';
  }

  /** Within the last line the promise is its start, its end behind a line feed, or its length. */
  lemma PromisedInLastLine(text: string, n: nat, maxBytes: nat)
    requires text != "" && LastLine(text) <= n <= |text|
    ensures var ended := n == |text| && text[|text| - 1] == '\n';
            Promised(text, true, n, maxBytes)
            <==> ended || n == LastLine(text) || |Encode(text[LastLine(text)..])| > maxBytes
  {
    hide Encode, LastLine, LineStart, LineEnd;
    LastLineInside(text);
    if n < |text| || text[|text| - 1] != '\n' {
      LastLineHolds(text, n);
      assert text[LastLine(text)..|text|] == text[LastLine(text)..];
    }
  }

  /** The second cut of a text that begins a line keeps the promise exactly when it spares a last line that fits. */
  lemma SecondCutPromise(text: string, maxBytes: nat)
    requires |Encode(text)| > maxBytes
    ensures |SecondCut(text, maxBytes)| <= |text|
    ensures Promised(text, true, |text| - |SecondCut(text, maxBytes)|, maxBytes) <==> !CutsLastLine(text, maxBytes)
  {
    hide Encode, LastLine, FromLineStart, Promised, CutsLastLine, Excess;
    var over := |Encode(text)| - maxBytes;
    if text == "" {
      NothingEncoded();
    } else if over > |text| {
      AllDropped(text, over);
      CutInLastLine(text, |text|, maxBytes);
    } else {
      var n := SecondCutAt(text, over);
      if over >= LastLine(text) {
        CutInLastLine(text, n, maxBytes);
      } else {
        BoundaryPromised(text, n, maxBytes);
      }
    }
  }

  lemma AllDropped(text: string, over: nat)
    requires over > |text|
    ensures FromLineStart(Excess(text, over)) == "" && text[|text|..] == ""
    ensures text != "" ==> LastLine(text) <= |text|
  {
    hide FromLineStart, LastLine;
    NothingLeft();
    if text != "" {
      LastLineInside(text);
    }
  }

  lemma CutInLastLine(text: string, n: nat, maxBytes: nat)
    requires text != "" && LastLine(text) <= |Encode(text)| - maxBytes && 0 < |Encode(text)| - maxBytes
    requires LastLine(text) <= n <= |text|
    requires var over := |Encode(text)| - maxBytes;
             if over > |text| then n == |text|
             else over <= n <= |text| && (forall k :: over <= k < n ==> text[k] == REPLACEMENT)
                  && (over < |text| ==> (n == over <==> text[over] != REPLACEMENT))
    ensures Promised(text, true, n, maxBytes) <==> !CutsLastLine(text, maxBytes)
  {
    hide Encode, LastLine, Promised, CutsLastLine;
    PromisedInLastLine(text, n, maxBytes);
    CutDecides(text, n, maxBytes);
  }

  lemma BoundaryPromised(text: string, n: nat, maxBytes: nat)
    requires text != "" && n <= |text| && StartsLine(text, n, true) && |Encode(text)| - maxBytes < LastLine(text)
    ensures Promised(text, true, n, maxBytes) && !CutsLastLine(text, maxBytes)
  {
    hide Encode, LastLine, LineStart, LineEnd;
  }

  lemma CutDecides(text: string, n: nat, maxBytes: nat)
    requires text != "" && LastLine(text) <= |Encode(text)| - maxBytes && 0 < |Encode(text)| - maxBytes
    requires var over := |Encode(text)| - maxBytes;
             if over > |text| then n == |text|
             else over <= n <= |text| && (forall k :: over <= k < n ==> text[k] == REPLACEMENT)
                  && (over < |text| ==> (n == over <==> text[over] != REPLACEMENT))
    ensures CutsLastLine(text, maxBytes)
       <==> !((n == |text| && text[|text| - 1] == '\n') || n == LastLine(text)
              || |Encode(text[LastLine(text)..])| > maxBytes)
  {
    hide Encode, LastLine;
    LastLineInside(text);
  }

  lemma NothingLeft()
    ensures FromLineStart("") == ""
  {}

  /** Behind a line feed, lines are those of what follows. */
  lemma {:induction false} LineStartBehind(whole: string, a: nat, m: nat)
    requires 0 < a && a + m <= |whole| && whole[a - 1] == '\n'
    ensures LineStart(whole, a + m) == a + LineStart(whole[a..], m)
  {
    if m > 0 {
      LineStartBehind(whole, a, m - 1);
    }
  }

  lemma {:induction false} LineEndBehind(whole: string, a: nat, m: nat)
    requires a + m <= |whole|
    ensures LineEnd(whole, a + m) == a + LineEnd(whole[a..], m)
    decreases |whole| - m
  {
    if a + m < |whole| {
      LineEndBehind(whole, a, m + 1);
    }
  }

  lemma PromisedBehind(whole: string, a: nat, m: nat, maxBytes: nat)
    requires 0 < a && a + m <= |whole| && whole[a - 1] == '\n'
    ensures Promised(whole, false, a + m, maxBytes) <==> Promised(whole[a..], true, m, maxBytes)
  {
    hide LineStart, LineEnd, Encode;
    LineStartBehind(whole, a, m);
    LineEndBehind(whole, a, m);
    var text := whole[a..];
    assert whole[a + LineStart(text, m)..a + LineEnd(text, m)] == text[LineStart(text, m)..LineEnd(text, m)];
  }

  lemma OnlyLine(whole: string, n: nat, maxBytes: nat)
    requires n <= |whole| && !HasLineStart(whole)
    ensures Promised(whole, false, n, maxBytes)
  {
    hide Encode, FindLineFeed;
    var at := FindLineFeed(whole);
    if n == 0 || whole[n - 1] != '\n' {
      assert at.Some? ==> forall k :: 0 <= k < at.value ==> whole[k] == whole[..at.value][k];
      SameLine(whole, 0, n);
    }
  }

  lemma TailShorter(text: string, maxBytes: nat)
    ensures |SecondCut(text, maxBytes)| <= |text| && |FromLineStart(text)| <= |text|
  {
    hide Encode, FromLineStart;
    var n := FromLineStartCuts(text);
    var over := |Encode(text)| - maxBytes;
    if over > 0 {
      var m := FromLineStartCuts(Excess(text, over));
    }
  }

  /**
   The documented promise about truncated tails is kept exactly unless the line the tail begins in is
   known to begin within what is left, fits the budget, and is cut into by the second cut.
   */
  lemma TailPromise(whole: string, atLineStart: bool, maxBytes: nat)
    ensures |Tail(whole, atLineStart, maxBytes)| <= |whole|
    ensures Promised(whole, atLineStart, |whole| - |Tail(whole, atLineStart, maxBytes)|, maxBytes)
       <==> !((atLineStart || HasLineStart(whole)) && CutsLastLine(FirstCut(whole, atLineStart), maxBytes))
  {
    hide Encode, SecondCut, Promised, FindLineFeed, CutsLastLine, HasLineStart, FromLineStart;
    var first := FirstCut(whole, atLineStart);
    TailShorter(whole, maxBytes);
    TailShorter(first, maxBytes);
    BoundaryOfLine(first, maxBytes);
    if !atLineStart {
      if HasLineStart(whole) {
        PromisedBehindFirst(whole, |first| - |SecondCut(first, maxBytes)|, maxBytes);
      } else {
        OnlyLine(whole, |whole| - |SecondCut(first, maxBytes)|, maxBytes);
      }
    }
  }

  lemma PromisedBehindFirst(whole: string, m: nat, maxBytes: nat)
    requires HasLineStart(whole) && m <= |FromLineStart(whole)|
    ensures |FromLineStart(whole)| <= |whole|
    ensures Promised(whole, false, |whole| - |FromLineStart(whole)| + m, maxBytes)
       <==> Promised(FromLineStart(whole), true, m, maxBytes)
  {
    hide FindLineFeed, Promised;
    PromisedBehind(whole, FindLineFeed(whole).value + 1, m, maxBytes);
  }

  lemma BoundaryOfLine(text: string, maxBytes: nat)
    ensures |SecondCut(text, maxBytes)| <= |text|
    ensures Promised(text, true, |text| - |SecondCut(text, maxBytes)|, maxBytes) <==> !CutsLastLine(text, maxBytes)
  {
    hide Encode, FromLineStart;
    if |Encode(text)| > maxBytes {
      SecondCutPromise(text, maxBytes);
    }
  }

  /** In particular it is kept when every character before the last line takes one byte. */
  lemma PlainTextKeepsPromise(text: string, maxBytes: nat)
    requires text != "" && |Encode(text[..LastLine(text)])| == LastLine(text) && text[LastLine(text)] != REPLACEMENT
    ensures !CutsLastLine(text, maxBytes)
  {
    hide Encode;
    LastLineInside(text);
    EncodeAppend(text[..LastLine(text)], text[LastLine(text)..]);
    assert text[..LastLine(text)] + text[LastLine(text)..] == text;
  }

  const BAD_BYTES: seq<Byte> := [0xFF, 0xFF, 0xFF, 0x0A, 0xFF, 0x61, 0x62]

  /** Bytes that decode to longer text: with a budget of ten the tail is the middle of a line of five bytes. */
  lemma TailInsideLine()
    ensures var whole := Decode(BAD_BYTES);
            && |BAD_BYTES| <= 10 && Tail(whole, true, 10) == "ab"
            && !Promised(whole, true, |whole| - 2, 10)
  {
    hide Encode, LastLine, FromLineStart, Promised, Decode;
    var r := REPLACEMENT;
    var whole := [r, r, r, '\n', r, 'a', 'b'];
    BadBytesDecoded();
    BadTextEncoded();
    BadLastLine(whole);
    assert whole[4..] == [r, 'a', 'b'];
    assert Excess(whole, 5) == "ab";
    PlainPair();
    TailPromise(whole, true, 10);
  }

  lemma BadLastLine(whole: string)
    requires whole == [REPLACEMENT, REPLACEMENT, REPLACEMENT, '\n', REPLACEMENT, 'a', 'b']
    ensures LastLine(whole) == 4
  {
    hide LineStart;
    SameLine(whole, 4, 7);
  }

  lemma PlainPair()
    ensures FromLineStart("ab") == "ab"
  {
    assert "ab"[1..] == "b" && "b"[1..] == "";
  }

  lemma BadBytesDecoded()
    ensures Decode(BAD_BYTES) == [REPLACEMENT, REPLACEMENT, REPLACEMENT, '\n', REPLACEMENT, 'a', 'b']
  {
    hide Decode;
    var r := REPLACEMENT;
    var b: seq<Byte> := [0x62];
    var ab: seq<Byte> := [0x61] + b;
    var line: seq<Byte> := [0xFF] + ab;
    var last: seq<Byte> := [0x0A] + line;
    NoBytes();
    assert [0x62] + [] == b;
    PlainByte(0x62, []);
    PlainByte(0x61, b);
    BadByte(ab);
    PlainByte(0x0A, line);
    BadByte(last);
    BadByte([0xFF] + last);
    BadByte([0xFF] + ([0xFF] + last));
    assert BAD_BYTES == [0xFF] + ([0xFF] + ([0xFF] + last));
    assert Decode(last) == ['\n', r, 'a', 'b'];
  }

  lemma NoBytes()
    ensures Decode([]) == ""
  {}

  /** No sequence begins with this byte. */
  lemma BadByte(rest: seq<Byte>)
    ensures Decode([0xFF] + rest) == [REPLACEMENT] + Decode(rest)
  {
    assert ([0xFF] + rest)[1..] == rest;
  }

  lemma PlainByte(b: Byte, rest: seq<Byte>)
    requires b < 0x80
    ensures Decode([b] + rest) == [b as char] + Decode(rest)
  {
    assert ([b] + rest)[1..] == rest;
  }

  lemma BadTextEncoded()
    ensures var r := REPLACEMENT;
            |Encode([r, r, r, '\n', r, 'a', 'b'])| == 15 && |Encode([r, 'a', 'b'])| == 5
  {
    var r := REPLACEMENT;
    assert [r, 'a', 'b'][1..] == ['a', 'b'] && ['a', 'b'][1..] == ['b'] && ['b'][1..] == [];
    assert |Encode(['a', 'b'])| == 2;
    var line, text := [r, 'a', 'b'], [r, r, r, '\n', r, 'a', 'b'];
    assert text[1..][1..] == [r, '\n', r, 'a', 'b'] && [r, '\n', r, 'a', 'b'][1..] == ['\n'] + line;
    assert (['\n'] + line)[1..] == line;
    assert |Encode(['\n'] + line)| == 6;
    assert |Encode([r, '\n', r, 'a', 'b'])| == 9;
    assert |Encode(text[1..])| == 12;
  }

  // ---------------------------------------------------------------- The tail

  /** The end of the bytes that the budget leaves, and whether it is known to begin a line. */
  function KeptBytes(data: seq<Byte>, maxBytes: nat): seq<Byte> {
    if |data| > maxBytes then data[|data| - maxBytes..] else data
  }

  function KnownStart(data: seq<Byte>, total: nat, maxBytes: nat): bool {
    total <= maxBytes || (|data| > maxBytes && data[|data| - maxBytes - 1] == 0x0A)
  }

  /**
   `JobLogTail.from_bytes`, for any decoder of the source encoding; None is the error for a negative
   budget. The text never passes the budget in UTF-8. It is the whole decoded log unless it is marked as
   truncated, and then it is the end of it, from a line start on unless it is a single line.
   */
  method FromBytes(decode: Decoder, data: seq<Byte>, totalBytes: nat, maxBytes: int) returns (r: Option<JobLogTail>)
    ensures r.None? <==> maxBytes < 0
    ensures r.Some? ==> r.value.totalBytes == if totalBytes > |data| then totalBytes else |data|
    ensures r.Some? ==> |Encode(r.value.text)| <= maxBytes
    ensures r.Some? ==> r.value.text == Tail(decode(KeptBytes(data, maxBytes)),
                                             KnownStart(data, r.value.totalBytes, maxBytes), maxBytes)
    ensures r.Some? && !r.value.truncated ==> r.value.totalBytes <= maxBytes && r.value.text == decode(data)
    ensures r.Some? && r.value.truncated ==> r.value.totalBytes > maxBytes || |Encode(decode(data))| > maxBytes
    ensures r.Some? && r.value.totalBytes > maxBytes ==> r.value.truncated
    ensures r.Some? && r.value.truncated && |data| > maxBytes ==>
              var cut := |data| - maxBytes;
              EndsFromLine(r.value.text, decode(data[cut..]), data[cut - 1] == 0x0A)
    ensures r.Some? && r.value.truncated && |data| <= maxBytes ==>
              EndsFromLine(r.value.text, decode(data), r.value.totalBytes <= maxBytes)
  {
    hide FromLineStart, Encode, EndsFromLine;
    if maxBytes < 0 {
      return None;
    }
    var total := if totalBytes > |data| then totalBytes else |data|;
    var truncated := total > maxBytes;
    var atLineStart := false;
    var kept := data;
    if |data| > maxBytes {
      var cut := |data| - maxBytes;
      atLineStart := data[cut - 1] == 0x0A;
      kept := data[cut..];
    }
    var text := decode(kept);
    if truncated && !atLineStart {
      FirstCutCuts(text);
      text := FromLineStart(text);
    } else {
      Uncut(text);
    }
    ghost var known := !(truncated && !atLineStart);
    assert EndsFromLine(text, decode(kept), known);
    var length := |Encode(text)|;
    if length > maxBytes {
      SecondCutFits(text, maxBytes);
      SecondCutCuts(decode(kept), text, known, length - maxBytes);
      text := FromLineStart(Excess(text, length - maxBytes));
      truncated := true;
    }
    return Some(JobLogTail(text, total, truncated));
  }
}
