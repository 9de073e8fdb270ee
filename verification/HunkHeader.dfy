/** The `@@ -l,s +l,s @@ text` line that opens a hunk. */
module HunkHeaders {
  import opened Options
  import opened Text

  datatype Header = Header(oldStart: nat, oldCount: nat, newStart: nat, newCount: nat, text: string)

  datatype Range = Range(start: nat, count: nat, rest: string)

  /** `(\d+)(?:,(\d+))?`: an omitted count is 1. */
  function ParseRange(s: string): Option<Range> {
    var n := DigitRun(s);
    if n == 0 then None
    else
      var rest := s[n..];
      if rest != "" && rest[0] == ',' && DigitRun(rest[1..]) > 0 then
        var m := DigitRun(rest[1..]);
        Some(Range(Value(s[..n]), Value(rest[1..][..m]), rest[1..][m..]))
      else
        Some(Range(Value(s[..n]), 1, rest))
  }

  /** A match of `HUNK_HEADER_RE` and the numbers read from its groups. */
  function ParseHeader(line: string): Option<Header> {
    if !("@@ -" <= line) then None
    else
      var o := ParseRange(line[4..]);
      if o.None? || !(" +" <= o.value.rest) then None
      else
        var n := ParseRange(o.value.rest[2..]);
        if n.None? || !(" @@" <= n.value.rest) then None
        else Some(Header(o.value.start, o.value.count, n.value.start, n.value.count,
                         n.value.rest[3..]))
  }

  /** The line number that stands before the count, one less for an empty range. */
  function RangeStart(start: nat, stop: nat): nat
    requires start <= stop
  {
    if start == stop then start else start + 1
  }

  /** difflib's range text for the lines `start + 1 .. stop`: an empty range names the line before it. */
  function FormatRange(start: nat, stop: nat): string
    requires start <= stop
  {
    if stop - start == 1 then Show(start + 1)
    else Show(RangeStart(start, stop)) + ("," + Show(stop - start))
  }

  function FormatHeader(i1: nat, i2: nat, j1: nat, j2: nat): string
    requires i1 <= i2 && j1 <= j2
  {
    "@@ -" + (FormatRange(i1, i2) + (" +" + (FormatRange(j1, j2) + " @@")))
  }

  // ---------------------------------------------------------------- What a header spells

  /** `start` or `start,count` in decimal digits, where the count may be left out for a single line. */
  ghost predicate SpellsRange(s: string, start: nat, count: nat) {
    || (s != "" && AllDigits(s) && Value(s) == start && count == 1)
    || (exists k :: 0 < k < |s| - 1 && s[k] == ',' && AllDigits(s[..k]) && AllDigits(s[k + 1..])
                    && Value(s[..k]) == start && Value(s[k + 1..]) == count)
  }

  /** The line says these numbers, old range first, and has this text behind its second `@@`. */
  ghost predicate SpellsHeader(line: string, h: Header) {
    exists oldRange, newRange ::
      && SpellsRange(oldRange, h.oldStart, h.oldCount) && SpellsRange(newRange, h.newStart, h.newCount)
      && line == "@@ -" + (oldRange + (" +" + (newRange + (" @@" + h.text))))
  }

  ghost predicate IsHunkHeader(line: string) {
    exists h :: SpellsHeader(line, h)
  }

  ghost predicate EndsRange(rest: string) {
    rest != "" && !IsDigit(rest[0]) && rest[0] != ','
  }

  lemma ParseOne(digits: string, rest: string)
    requires digits != "" && AllDigits(digits) && EndsRange(rest)
    ensures ParseRange(digits + rest) == Some(Range(Value(digits), 1, rest))
  {
    hide Value;
    DigitRunExact(digits, rest);
    assert (digits + rest)[..|digits|] == digits && (digits + rest)[|digits|..] == rest;
  }

  lemma ParsePair(digits: string, count: string, rest: string)
    requires digits != "" && AllDigits(digits) && count != "" && AllDigits(count) && EndsRange(rest)
    ensures ParseRange(digits + ("," + (count + rest))) == Some(Range(Value(digits), Value(count), rest))
  {
    hide Value;
    var tail := count + rest;
    var s := digits + ("," + tail);
    DigitRunExact(digits, "," + tail);
    DigitRunExact(count, rest);
    assert s[..|digits|] == digits && s[|digits|..] == "," + tail;
    assert ("," + tail)[1..] == tail;
    assert tail[..|count|] == count && tail[|count|..] == rest;
  }

  lemma ParseFormattedRange(start: nat, stop: nat, rest: string)
    requires start <= stop && EndsRange(rest)
    ensures ParseRange(FormatRange(start, stop) + rest)
         == Some(Range(RangeStart(start, stop), stop - start, rest))
  {
    hide ParseRange, Show, Value;
    var first, count := RangeStart(start, stop), stop - start;
    ShowValue(first);
    ShowValue(count);
    if count == 1 {
      ParseOne(Show(first), rest);
    } else {
      ParsePair(Show(first), Show(count), rest);
      assert FormatRange(start, stop) + rest == Show(first) + ("," + (Show(count) + rest));
    }
  }

  lemma AfterPrefix(prefix: string, rest: string)
    ensures prefix <= prefix + rest && (prefix + rest)[|prefix|..] == rest
  {}

  /** A spelled range is read with its numbers, and what follows it is left. */
  lemma SpelledRangeRead(s: string, start: nat, count: nat, rest: string)
    requires SpellsRange(s, start, count) && EndsRange(rest)
    ensures ParseRange(s + rest) == Some(Range(start, count, rest))
  {
    hide ParseRange, Value, AllDigits, EndsRange;
    if s != "" && AllDigits(s) && Value(s) == start && count == 1 {
      ParseOne(s, rest);
    } else {
      var k :| 0 < k < |s| - 1 && s[k] == ',' && AllDigits(s[..k]) && AllDigits(s[k + 1..])
               && Value(s[..k]) == start && Value(s[k + 1..]) == count;
      ParsePair(s[..k], s[k + 1..], rest);
      assert s + rest == s[..k] + ("," + (s[k + 1..] + rest));
    }
  }

  /** What is read as a range is spelled where it was read. */
  lemma ReadRangeSpelled(s: string)
    requires ParseRange(s).Some?
    ensures var r := ParseRange(s).value;
            exists spelled :: SpellsRange(spelled, r.start, r.count) && s == spelled + r.rest
  {
    hide Value, SpellsRange, AllDigits, DigitRun;
    var n := DigitRun(s);
    var rest := s[n..];
    if rest != "" && rest[0] == ',' && DigitRun(rest[1..]) > 0 {
      var m := DigitRun(rest[1..]);
      PairSpells(s[..n], rest[1..][..m]);
      PairStands(s, n, m);
    } else {
      SingleSpells(s[..n]);
      assert s == s[..n] + rest;
    }
  }

  lemma PairStands(s: string, n: nat, m: nat)
    requires n < |s| && s[n] == ',' && n + 1 + m <= |s|
    ensures s == s[..n] + ("," + s[n..][1..][..m]) + s[n..][1..][m..]
  {
    assert s[n..][1..] == s[n + 1..];
  }

  lemma PairSpells(first: string, count: string)
    requires first != "" && AllDigits(first) && count != "" && AllDigits(count)
    ensures SpellsRange(first + ("," + count), Value(first), Value(count))
  {
    hide Value, AllDigits;
    var s := first + ("," + count);
    assert s[..|first|] == first && s[|first| + 1..] == count && s[|first|] == ',';
  }

  lemma SingleSpells(first: string)
    requires first != "" && AllDigits(first)
    ensures SpellsRange(first, Value(first), 1)
  {}

  /**
   The pattern reads exactly the lines that spell a header, with the old range first, the numbers spelled
   and the text behind the second `@@`.
   */
  lemma ParseHeaderExact(line: string, h: Header)
    ensures ParseHeader(line) == Some(h) <==> SpellsHeader(line, h)
  {
    hide ParseRange, SpellsRange, Value;
    if SpellsHeader(line, h) {
      var oldRange, newRange :| SpellsRange(oldRange, h.oldStart, h.oldCount)
        && SpellsRange(newRange, h.newStart, h.newCount)
        && line == "@@ -" + (oldRange + (" +" + (newRange + (" @@" + h.text))));
      SpelledHeaderRead(oldRange, newRange, h);
    }
    if ParseHeader(line) == Some(h) {
      ReadHeaderSpelled(line, h);
    }
  }

  lemma SpelledHeaderRead(oldRange: string, newRange: string, h: Header)
    requires SpellsRange(oldRange, h.oldStart, h.oldCount) && SpellsRange(newRange, h.newStart, h.newCount)
    ensures ParseHeader("@@ -" + (oldRange + (" +" + (newRange + (" @@" + h.text))))) == Some(h)
  {
    hide ParseRange, SpellsRange;
    var afterNew := " @@" + h.text;
    var afterOld := " +" + (newRange + afterNew);
    SpelledRangeRead(oldRange, h.oldStart, h.oldCount, afterOld);
    SpelledRangeRead(newRange, h.newStart, h.newCount, afterNew);
    AfterPrefix("@@ -", oldRange + afterOld);
    AfterPrefix(" +", newRange + afterNew);
    AfterPrefix(" @@", h.text);
  }

  lemma ReadHeaderSpelled(line: string, h: Header)
    requires ParseHeader(line) == Some(h)
    ensures SpellsHeader(line, h)
  {
    hide ParseRange, SpellsRange;
    var o := ParseRange(line[4..]).value;
    var n := ParseRange(o.rest[2..]).value;
    ReadRangeSpelled(line[4..]);
    ReadRangeSpelled(o.rest[2..]);
    var oldRange :| SpellsRange(oldRange, o.start, o.count) && line[4..] == oldRange + o.rest;
    var newRange :| SpellsRange(newRange, n.start, n.count) && o.rest[2..] == newRange + n.rest;
    assert line == "@@ -" + line[4..] && o.rest == " +" + o.rest[2..] && n.rest == " @@" + n.rest[3..];
  }

  /** difflib's range text spells its numbers, with the count left out or not. */
  lemma FormattedRangeSpells(start: nat, stop: nat)
    requires start <= stop
    ensures SpellsRange(FormatRange(start, stop), RangeStart(start, stop), stop - start)
  {
    hide Show, Value;
    var first, count := Show(RangeStart(start, stop)), Show(stop - start);
    ShowValue(RangeStart(start, stop));
    ShowValue(stop - start);
    if stop - start != 1 {
      PairSpells(first, count);
    }
  }

  /** Every printed header is read back with its four numbers and the text put behind it, whatever that is. */
  lemma HeaderRoundTrip(i1: nat, i2: nat, j1: nat, j2: nat, text: string)
    requires i1 <= i2 && j1 <= j2
    ensures var h := Header(RangeStart(i1, i2), i2 - i1, RangeStart(j1, j2), j2 - j1, text);
            ParseHeader(FormatHeader(i1, i2, j1, j2) + text) == Some(h)
            && SpellsHeader(FormatHeader(i1, i2, j1, j2) + text, h)
  {
    hide ParseRange, FormatRange, SpellsRange, ParseHeader;
    var h := Header(RangeStart(i1, i2), i2 - i1, RangeStart(j1, j2), j2 - j1, text);
    var x, y := FormatRange(i1, i2), FormatRange(j1, j2);
    FormattedRangeSpells(i1, i2);
    FormattedRangeSpells(j1, j2);
    assert "@@ -" + (x + (" +" + (y + " @@"))) + text == "@@ -" + (x + (" +" + (y + (" @@" + text))));
    ParseHeaderExact(FormatHeader(i1, i2, j1, j2) + text, h);
  }

  /** A printed header holds no newline. */
  lemma HeaderNewlineFree(i1: nat, i2: nat, j1: nat, j2: nat)
    requires i1 <= i2 && j1 <= j2
    ensures '\n' !in FormatHeader(i1, i2, j1, j2)
  {
    hide Show;
    assert forall n: nat :: '\n' !in Show(n);
  }
}
