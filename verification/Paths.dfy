/** git's quoted path names and the two names of a `diff --git` line. */
module Paths {
  import opened Options
  import opened Text
  import opened Utf8

  // ---------------------------------------------------------------- Undoing the quotes

  const QUOTE: char := '"'
  const BACKSLASH: char := '\\'

  /** The C escapes git writes besides octal ones. */
  function EscapeByte(c: char): Option<Byte> {
    match c
    case 'a' => Some(0x07)
    case 'b' => Some(0x08)
    case 't' => Some(0x09)
    case 'n' => Some(0x0A)
    case 'v' => Some(0x0B)
    case 'f' => Some(0x0C)
    case 'r' => Some(0x0D)
    case '"' => Some(0x22)
    case '\\' => Some(0x5C)
    case _ => None
  }

  /** These are the letters of the C standard for the bytes 7 to 13, and the quote and backslash for themselves. */
  lemma EscapesAreC(c: char, b: Byte)
    ensures EscapeByte(c) == Some(b)
       <==> (7 <= b <= 13 && c == "abtnvfr"[b - 7]) || ((c == QUOTE || c == BACKSLASH) && b == c as int)
  {}

  predicate IsOctal(c: char) {
    '0' <= c <= '7'
  }

  function OctalDigit(c: char): nat
    requires IsOctal(c)
  {
    c as int - '0' as int
  }

  /** Three octal digits, kept to eight bits. */
  function OctalByte(a: char, b: char, c: char): Byte
    requires IsOctal(a) && IsOctal(b) && IsOctal(c)
  {
    (OctalDigit(a) * 64 + OctalDigit(b) * 8 + OctalDigit(c)) % 256
  }

  /** One turn of the unquoting loop: the bytes it adds and the characters it takes. */
  function UnquoteStep(body: string): (r: (seq<Byte>, nat))
    requires body != ""
    ensures 0 < r.1 <= |body|
  {
    if body[0] != BACKSLASH || |body| == 1 then (EncodeChar(body[0]), 1)
    else if |body| >= 4 && IsOctal(body[1]) && IsOctal(body[2]) && IsOctal(body[3]) then
      ([OctalByte(body[1], body[2], body[3])], 4)
    else if EscapeByte(body[1]).Some? then ([EscapeByte(body[1]).value], 2)
    else (EncodeChar(body[0]), 1)
  }

  function UnquotedBytes(body: string): seq<Byte> {
    if body == "" then []
    else var (bytes, taken) := UnquoteStep(body); bytes + UnquotedBytes(body[taken..])
  }

  predicate IsQuoted(path: string) {
    |path| >= 2 && path[0] == QUOTE && path[|path| - 1] == QUOTE
  }

  function Unquoted(path: string): string {
    if IsQuoted(path) then Decode(UnquotedBytes(path[1..|path| - 1])) else path
  }

  method UnquotePath(path: string) returns (r: string)
    ensures r == Unquoted(path)
  {
    if !IsQuoted(path) {
      return path;
    }
    var bytes := CollectBytes(path[1..|path| - 1]);
    r := Decode(bytes);
  }

  /** The loop over the text between the quotes. */
  method CollectBytes(body: string) returns (out: seq<Byte>)
    ensures out == UnquotedBytes(body)
  {
    hide UnquoteStep, UnquotedBytes;
    out := [];
    var index := 0;
    assert body[0..] == body;
    while index < |body|
      invariant index <= |body|
      invariant out + UnquotedBytes(body[index..]) == UnquotedBytes(body)
    {
      var (bytes, taken) := UnquoteStep(body[index..]);
      UnquotedAt(body, index);
      Reassociate(out, bytes, UnquotedBytes(body[index + taken..]));
      out := out + bytes;
      index := index + taken;
    }
    UnquotedNothing();
    assert body[index..] == "" && out + [] == out;
  }

  lemma UnquotedStep(body: string)
    requires body != ""
    ensures var (bytes, taken) := UnquoteStep(body); UnquotedBytes(body) == bytes + UnquotedBytes(body[taken..])
  {
    hide UnquoteStep;
  }

  lemma UnquotedAt(body: string, index: nat)
    requires index < |body|
    ensures var (bytes, taken) := UnquoteStep(body[index..]);
            UnquotedBytes(body[index..]) == bytes + UnquotedBytes(body[index + taken..])
  {
    hide UnquoteStep, UnquotedBytes;
    UnquotedStep(body[index..]);
    assert body[index..][UnquoteStep(body[index..]).1..] == body[index + UnquoteStep(body[index..]).1..];
  }

  lemma UnquotedNothing()
    ensures UnquotedBytes("") == []
  {}

  lemma Reassociate<T>(a: seq<T>, b: seq<T>, c: seq<T>)
    ensures a + (b + c) == (a + b) + c
  {}

  // ---------------------------------------------------------------- The closing quote

  /** Index of the first quote not behind a backslash. */
  function QuoteEnd(s: string): (r: Option<nat>)
    ensures r.Some? ==> r.value < |s| && s[r.value] == QUOTE
  {
    if s == "" then None
    else if s[0] == BACKSLASH then
      if |s| < 2 then None else Shift(QuoteEnd(s[2..]), 2)
    else if s[0] == QUOTE then Some(0)
    else Shift(QuoteEnd(s[1..]), 1)
  }

  function Shift(r: Option<nat>, n: nat): Option<nat> {
    if r.Some? then Some(r.value + n) else None
  }

  method ClosingQuote(text: string) returns (r: Option<nat>)
    requires text != ""
    ensures r == Shift(QuoteEnd(text[1..]), 1)
  {
    hide QuoteEnd;
    QuoteEndOfNothing();
    var index := 1;
    while index < |text|
      invariant 1 <= index
      invariant index <= |text| ==> Shift(QuoteEnd(text[index..]), index) == Shift(QuoteEnd(text[1..]), 1)
      invariant index > |text| ==> QuoteEnd(text[1..]) == None
    {
      var rest := text[index..];
      QuoteEndStep(rest);
      if text[index] == BACKSLASH {
        if index + 2 <= |text| {
          assert rest[2..] == text[index + 2..];
        }
        index := index + 2;
      } else if text[index] == QUOTE {
        return Some(index);
      } else {
        assert rest[1..] == text[index + 1..];
        index := index + 1;
      }
    }
    return None;
  }

  lemma QuoteEndOfNothing()
    ensures QuoteEnd("") == None
  {}

  lemma QuoteEndStep(s: string)
    requires s != ""
    ensures QuoteEnd(s) == if s[0] == BACKSLASH then (if |s| < 2 then None else Shift(QuoteEnd(s[2..]), 2))
                           else if s[0] == QUOTE then Some(0) else Shift(QuoteEnd(s[1..]), 1)
  {}

  // ---------------------------------------------------------------- The names of a header

  function StripPrefix(path: string): string {
    var p := Unquoted(Strip(path));
    if "a/" <= p || "b/" <= p then p[2..] else p
  }

  /** `str.find`, None where Python has -1. */
  function Find(s: string, pattern: string): (r: Option<nat>)
    ensures r.Some? ==> r.value + |pattern| <= |s| && s[r.value..][..|pattern|] == pattern
  {
    if pattern <= s then Some(0)
    else if s == "" then None
    else
      var r := Find(s[1..], pattern);
      assert r.Some? ==> s[1..][r.value..] == s[r.value + 1..];
      Shift(r, 1)
  }

  /** The two names when git quoted either one. */
  function SplitQuotedNames(names: string): Option<(string, string)> {
    if names != "" && names[0] == QUOTE then
      var end := Shift(QuoteEnd(names[1..]), 1);
      if end.None? || !([' '] <= names[end.value + 1..]) then None
      else Some((StripPrefix(names[..end.value + 1]), StripPrefix(names[end.value + 2..])))
    else if names != "" && names[|names| - 1] == QUOTE && Find(names, " \"").Some? then
      var at := Find(names, " \"").value;
      Some((StripPrefix(names[..at]), StripPrefix([QUOTE] + names[at + 2..])))
    else None
  }

  /** Two equal halves `a/P b/P`. */
  function EqualHalves(names: string): Option<string> {
    var length := (|names| - 5) / 2;
    if "a/" <= names && length > 0 && |names| == 2 + length + 3 + length
       && names[2 + length..5 + length] == " b/" && names[2..2 + length] == names[5 + length..]
    then Some(names[2..2 + length])
    else None
  }

  /** Where the greedy first group of `DIFF_GIT_RE` ends: the last separator with a name on either side. */
  function LastSeparator(body: string, upTo: nat): (r: Option<nat>)
    requires upTo <= |body|
    ensures r.Some? ==> 0 < r.value < upTo && SeparatorAt(body, r.value).Some?
    ensures forall k :: 0 < k < upTo && (r.None? || r.value < k) ==> SeparatorAt(body, k).None?
  {
    if upTo <= 1 then None
    else if SeparatorAt(body, upTo - 1).Some? then Some(upTo - 1)
    else LastSeparator(body, upTo - 1)
  }

  /** The second name, when ` b/` or ` "b/` and a name stand at `k`. */
  function SeparatorAt(body: string, k: nat): Option<string>
    requires k < |body|
  {
    if " b/" <= body[k..] && |body| > k + 3 then Some(body[k + 3..])
    else if " \"b/" <= body[k..] && |body| > k + 4 then Some(body[k + 4..])
    else None
  }

  /** The groups of `DIFF_GIT_RE` matched behind `diff --git `. */
  function RegexNames(names: string): Option<(string, string)> {
    var body := if "\"a/" <= names then names[3..] else if "a/" <= names then names[2..] else "";
    var at := LastSeparator(body, |body|);
    if at.None? then None else Some((body[..at.value], SeparatorAt(body, at.value).value))
  }

  const GIT_PREFIX: string := "diff --git "

  /** Whether `DIFF_GIT_RE` matches. */
  predicate IsGitHeader(line: string) {
    GIT_PREFIX <= line && RegexNames(line[|GIT_PREFIX|..]).Some?
  }

  /** The names behind `diff --git `, each with or without a quote in front of its prefix. */
  ghost predicate NamesSpelled(names: string, x: string, y: string) {
    && x != "" && y != ""
    && (names == "a/" + (x + (" b/" + y)) || names == "a/" + (x + (" \"b/" + y))
        || names == "\"a/" + (x + (" b/" + y)) || names == "\"a/" + (x + (" \"b/" + y)))
  }

  /** The pattern takes exactly the lines that hold two such names, and of all ways to read them the last. */
  lemma HeaderPattern(names: string)
    ensures RegexNames(names).Some? <==> exists x, y :: NamesSpelled(names, x, y)
    ensures var r := RegexNames(names);
            r.Some? ==> NamesSpelled(names, r.value.0, r.value.1)
                        && forall x, y :: NamesSpelled(names, x, y) ==> |x| <= |r.value.0|
  {
    hide LastSeparator, SeparatorAt;
    var body := if "\"a/" <= names then names[3..] else if "a/" <= names then names[2..] else "";
    var at := LastSeparator(body, |body|);
    if at.Some? {
      SeparatorSplits(names, at.value);
    }
    forall x, y | NamesSpelled(names, x, y)
      ensures 0 < |x| < |body| && SeparatorAt(body, |x|).Some?
    {
      SpelledSeparator(names, x, y);
    }
  }

  lemma SeparatorSplits(names: string, at: nat)
    requires var body := if "\"a/" <= names then names[3..] else if "a/" <= names then names[2..] else "";
             0 < at < |body| && SeparatorAt(body, at).Some?
    ensures var body := if "\"a/" <= names then names[3..] else if "a/" <= names then names[2..] else "";
            NamesSpelled(names, body[..at], SeparatorAt(body, at).value)
  {
    hide SeparatorAt;
    var body := if "\"a/" <= names then names[3..] else if "a/" <= names then names[2..] else "";
    BodySplits(body, at);
    if "\"a/" <= names {
      assert names == "\"a/" + body;
    } else {
      assert names == "a/" + body;
    }
  }

  lemma BodySplits(body: string, at: nat)
    requires 0 < at < |body| && SeparatorAt(body, at).Some?
    ensures var y := SeparatorAt(body, at).value;
            y != "" && (body == body[..at] + (" b/" + y) || body == body[..at] + (" \"b/" + y))
  {
    var rest := body[at..];
    assert body == body[..at] + rest;
    if " b/" <= rest && |rest| > 3 {
      assert rest == " b/" + rest[3..] && rest[3..] == body[at + 3..];
    } else {
      assert rest == " \"b/" + rest[4..] && rest[4..] == body[at + 4..];
    }
  }

  lemma SpelledSeparator(names: string, x: string, y: string)
    requires NamesSpelled(names, x, y)
    ensures var body := if "\"a/" <= names then names[3..] else if "a/" <= names then names[2..] else "";
            0 < |x| < |body| && SeparatorAt(body, |x|).Some?
  {
    var body := if "\"a/" <= names then names[3..] else if "a/" <= names then names[2..] else "";
    if names == "a/" + (x + (" b/" + y)) || names == "a/" + (x + (" \"b/" + y)) {
      assert names[0] == 'a';
    }
    if body == x + (" b/" + y) {
      assert body[|x|..] == " b/" + y;
    } else {
      assert body == x + (" \"b/" + y);
      assert body[|x|..] == " \"b/" + y && (" \"b/" + y)[1] == QUOTE;
    }
  }

  function GitHeaderPaths(names: string): (string, string) {
    var quoted := SplitQuotedNames(names);
    var half := EqualHalves(names);
    if quoted.Some? then quoted.value
    else if half.Some? then (half.value, half.value)
    else RegexNames(names).GetOr((names, names))
  }

  // ---------------------------------------------------------------- What git writes

  /** One way git may write part of a quoted name. */
  datatype Piece = Literal(c: char) | Named(c: char) | Octal(b: Byte)
  {
    predicate Valid() {
      (Literal? ==> c != QUOTE && c != BACKSLASH) && (Named? ==> EscapeByte(c).Some?)
    }

    function Print(): (s: string)
      ensures s != ""
    {
      match this
      case Literal(c) => [c]
      case Named(c) => [BACKSLASH, c]
      case Octal(b) => [BACKSLASH, ShowOctal(b / 64), ShowOctal(b / 8 % 8), ShowOctal(b % 8)]
    }

    function Bytes(): seq<Byte>
      requires Valid()
    {
      match this
      case Literal(c) => EncodeChar(c)
      case Named(c) => [EscapeByte(c).value]
      case Octal(b) => [b]
    }
  }

  function ShowOctal(d: nat): (c: char)
    requires d < 8
    ensures IsOctal(c) && OctalDigit(c) == d
  {
    ('0' as int + d) as char
  }

  ghost predicate AllValid(pieces: seq<Piece>) {
    forall k :: 0 <= k < |pieces| ==> pieces[k].Valid()
  }

  function PrintPieces(pieces: seq<Piece>): string {
    if pieces == [] then "" else pieces[0].Print() + PrintPieces(pieces[1..])
  }

  function PieceBytes(pieces: seq<Piece>): seq<Byte>
    requires AllValid(pieces)
  {
    if pieces == [] then [] else pieces[0].Bytes() + PieceBytes(pieces[1..])
  }

  function Quote(pieces: seq<Piece>): string {
    [QUOTE] + PrintPieces(pieces) + [QUOTE]
  }

  /** The pieces spell this path, whatever mix of escapes they use. */
  ghost predicate Spells(pieces: seq<Piece>, path: string) {
    AllValid(pieces) && PieceBytes(pieces) == Encode(path)
  }

  lemma UnquotePiece(p: Piece, rest: string)
    requires p.Valid()
    ensures UnquoteStep(p.Print() + rest) == (p.Bytes(), |p.Print()|)
  {
    hide EncodeChar, OctalByte, EscapeByte;
    match p {
      case Literal(c) =>
        assert ([c] + rest)[0] == c;
      case Named(c) =>
        NamedIsNotOctal(c);
        assert ([BACKSLASH, c] + rest)[1] == c;
      case Octal(b) =>
        var s := p.Print() + rest;
        assert s[1] == ShowOctal(b / 64) && s[2] == ShowOctal(b / 8 % 8) && s[3] == ShowOctal(b % 8);
        OctalRead(b);
    }
  }

  lemma NamedIsNotOctal(c: char)
    requires EscapeByte(c).Some?
    ensures !IsOctal(c)
  {}

  lemma OctalRead(b: Byte)
    ensures OctalByte(ShowOctal(b / 64), ShowOctal(b / 8 % 8), ShowOctal(b % 8)) == b
  {
    assert b == b / 64 * 64 + b / 8 % 8 * 8 + b % 8;
  }

  /** Unquoting a body restores its bytes, for every mix of literal, named and octal escapes. */
  lemma {:induction false} UnquotePieces(pieces: seq<Piece>)
    requires AllValid(pieces)
    ensures UnquotedBytes(PrintPieces(pieces)) == PieceBytes(pieces)
  {
    if pieces != [] {
      var first, rest := pieces[0].Print(), PrintPieces(pieces[1..]);
      UnquotePiece(pieces[0], rest);
      UnquotePieces(pieces[1..]);
      assert (first + rest)[|first|..] == rest;
    }
  }

  /** A quoted path is read back as the path it spells. */
  lemma QuoteRoundTrip(pieces: seq<Piece>, path: string)
    requires Spells(pieces, path)
    ensures Unquoted(Quote(pieces)) == path
  {
    UnquotePieces(pieces);
    DecodeEncode(path);
    assert Quote(pieces)[1..|Quote(pieces)| - 1] == PrintPieces(pieces);
  }

  /** The quote that closes a quoted name is found, whatever stands inside and after it. */
  lemma {:induction false} ClosingQuoteFound(pieces: seq<Piece>, rest: string)
    requires AllValid(pieces)
    ensures QuoteEnd(PrintPieces(pieces) + [QUOTE] + rest) == Some(|PrintPieces(pieces)|)
  {
    hide QuoteEnd;
    if pieces == [] {
      assert PrintPieces(pieces) + [QUOTE] + rest == [QUOTE] + rest;
      QuoteEndsHere(rest);
    } else {
      var first, others := pieces[0].Print(), PrintPieces(pieces[1..]);
      ClosingQuoteFound(pieces[1..], rest);
      var tail := others + [QUOTE] + rest;
      assert PrintPieces(pieces) + [QUOTE] + rest == first + tail;
      ClosingQuoteSkips(pieces[0], tail);
    }
  }

  lemma QuoteEndsHere(rest: string)
    ensures QuoteEnd([QUOTE] + rest) == Some(0)
  {}

  lemma ClosingQuoteSkips(p: Piece, tail: string)
    requires p.Valid()
    ensures QuoteEnd(p.Print() + tail) == Shift(QuoteEnd(tail), |p.Print()|)
  {
    hide QuoteEnd;
    match p {
      case Literal(c) => SkipPlain(c, tail);
      case Named(c) => SkipEscaped(c, tail);
      case Octal(b) => SkipOctal(b, tail);
    }
  }

  lemma SkipPlain(c: char, tail: string)
    requires c != QUOTE && c != BACKSLASH
    ensures QuoteEnd([c] + tail) == Shift(QuoteEnd(tail), 1)
  {
    assert ([c] + tail)[1..] == tail;
  }

  lemma SkipEscaped(c: char, tail: string)
    ensures QuoteEnd([BACKSLASH, c] + tail) == Shift(QuoteEnd(tail), 2)
  {
    assert ([BACKSLASH, c] + tail)[2..] == tail;
  }

  lemma SkipOctal(b: Byte, tail: string)
    ensures QuoteEnd(Octal(b).Print() + tail) == Shift(QuoteEnd(tail), 4)
  {
    hide QuoteEnd;
    var d2, d1, d0 := ShowOctal(b / 64), ShowOctal(b / 8 % 8), ShowOctal(b % 8);
    assert Octal(b).Print() + tail == [BACKSLASH, d2] + ([d1] + ([d0] + tail));
    SkipEscaped(d2, [d1] + ([d0] + tail));
    SkipPlain(d1, [d0] + tail);
    SkipPlain(d0, tail);
  }

  // ---------------------------------------------------------------- Reading a header back

  lemma StripQuotedName(pieces: seq<Piece>, side: string, path: string)
    requires side == "a/" || side == "b/"
    requires Spells(pieces, side + path)
    ensures StripPrefix(Quote(pieces)) == path
  {
    StripNothing(Quote(pieces));
    QuoteRoundTrip(pieces, side + path);
    assert (side + path)[2..] == path;
  }

  /** A header whose old name is quoted splits into its two names. */
  lemma QuotedOldName(pieces: seq<Piece>, oldPath: string, newName: string)
    requires Spells(pieces, "a/" + oldPath)
    ensures GitHeaderPaths(Quote(pieces) + " " + newName) == (oldPath, StripPrefix(newName))
  {
    hide StripPrefix, EqualHalves, RegexNames, PrintPieces;
    var q := Quote(pieces);
    var names := q + " " + newName;
    var inner := PrintPieces(pieces);
    assert names[1..] == inner + [QUOTE] + (" " + newName);
    ClosingQuoteFound(pieces, " " + newName);
    var end := 1 + |inner|;
    assert names[..end + 1] == q;
    assert names[end + 1..] == " " + newName;
    assert names[end + 2..] == newName;
    StripQuotedName(pieces, "a/", oldPath);
  }

  /** Both names quoted. */
  lemma QuotedBothNames(old_: seq<Piece>, new_: seq<Piece>, oldPath: string, newPath: string)
    requires Spells(old_, "a/" + oldPath) && Spells(new_, "b/" + newPath)
    ensures GitHeaderPaths(Quote(old_) + " " + Quote(new_)) == (oldPath, newPath)
  {
    QuotedOldName(old_, oldPath, Quote(new_));
    StripQuotedName(new_, "b/", newPath);
  }

  // ---------------------------------------------------------------- Where a space and a quote meet

  predicate PairAt(s: string, k: nat) {
    k + 1 < |s| && s[k] == ' ' && s[k + 1] == QUOTE
  }

  /** `str.find` of a space and a quote: the first place where they meet. */
  lemma {:induction false} FindPair(s: string)
    ensures var r := Find(s, " \"");
            && (r.Some? ==> PairAt(s, r.value) && forall k :: 0 <= k < r.value ==> !PairAt(s, k))
            && (r.None? ==> forall k :: 0 <= k < |s| ==> !PairAt(s, k))
  {
    assert " \"" <= s <==> PairAt(s, 0);
    if s != "" && !(" \"" <= s) {
      FindPair(s[1..]);
      assert forall k :: 1 <= k < |s| ==> PairAt(s, k) == PairAt(s[1..], k - 1);
    }
  }

  lemma FoundPair(s: string, at: nat)
    requires PairAt(s, at) && forall k :: 0 <= k < at ==> !PairAt(s, k)
    ensures Find(s, " \"") == Some(at)
  {
    hide Find;
    FindPair(s);
  }

  /** Stripping never makes a name longer, and takes the white space at its end. */
  lemma {:induction false} RStripShortens(s: string)
    ensures |RStrip(s)| <= |s|
    ensures RStrip(s) == s <==> s == "" || !IsSpace(s[|s| - 1])
  {
    if s != "" && IsSpace(s[|s| - 1]) {
      RStripShortens(s[..|s| - 1]);
    }
  }

  /** An unquoted name loses its prefix and the white space at its end. */
  lemma StripUnquoted(side: string, rest: string)
    requires side == "a/" || side == "b/"
    ensures StripPrefix(side + rest) == RStrip(rest)
  {
    hide RStrip;
    var name := side + rest;
    assert LStrip(name) == name;
    RStripKeepsPrefix(side, rest);
    var p := Strip(name);
    assert p == side + RStrip(rest) && p[0] == side[0] && p[1] == '/';
    assert !IsQuoted(p) && p[2..] == RStrip(rest);
  }

  lemma {:induction false} RStripKeepsPrefix(side: string, rest: string)
    requires side == "a/" || side == "b/"
    ensures RStrip(side + rest) == side + RStrip(rest)
  {
    var name := side + rest;
    if rest == "" {
      assert name[|name| - 1] == '/';
    } else {
      assert name[|name| - 1] == rest[|rest| - 1];
      if IsSpace(rest[|rest| - 1]) {
        assert name[..|name| - 1] == side + rest[..|rest| - 1];
        RStripKeepsPrefix(side, rest[..|rest| - 1]);
      }
    }
  }

  /**
   Only the new name quoted: git quotes every name that holds a quote, so the old one holds none. The
   split is exact unless the old path ends in white space, which is stripped.
   */
  lemma QuotedNewName(oldPath: string, pieces: seq<Piece>, newPath: string)
    requires oldPath != "" && QUOTE !in oldPath && Spells(pieces, "b/" + newPath)
    ensures GitHeaderPaths("a/" + oldPath + " " + Quote(pieces)) == (oldPath, newPath)
       <==> !IsSpace(oldPath[|oldPath| - 1])
  {
    hide StripPrefix, EqualHalves, RegexNames, PrintPieces, Find, Spells;
    var old_ := "a/" + oldPath;
    var inner := PrintPieces(pieces) + [QUOTE];
    var names := old_ + " " + Quote(pieces);
    assert names == old_ + " \"" + inner;
    assert names[0] == 'a' && names[|names| - 1] == QUOTE;
    assert forall k :: 0 <= k < |old_| ==> old_[k] != QUOTE && names[k] == old_[k];
    FoundPair(names, |old_|);
    assert names[..|old_|] == old_;
    assert [QUOTE] + names[|old_| + 2..] == Quote(pieces);
    StripQuotedName(pieces, "b/", newPath);
    StripUnquoted("a/", oldPath);
    RStripShortens(oldPath);
  }

  /**
   Neither name quoted and both the same: the halves are compared, so ` b/` inside the path does no
   harm. The header is misread exactly for a path that ends in a quote and holds one behind a space;
   git quotes such a path.
   */
  lemma EqualNames(path: string)
    requires path != ""
    ensures GitHeaderPaths(BothNames(path)) == (path, path)
       <==> !(path[|path| - 1] == QUOTE && Find(path, " \"").Some?)
  {
    hide StripPrefix, Find, RegexNames, SplitQuotedNames, EqualHalves;
    HalvesOfNames(path);
    SplitOfNames(path);
    if Find(path, " \"").Some? {
      var front := path[..Find(path, " \"").value];
      StripUnquoted("a/", front);
      RStripShortens(front);
    }
  }

  function BothNames(path: string): string {
    "a/" + path + " b/" + path
  }

  lemma HalvesOfNames(path: string)
    requires path != ""
    ensures EqualHalves(BothNames(path)) == Some(path)
  {
    var names := BothNames(path);
    assert names[2 + |path|..5 + |path|] == " b/";
    assert names[2..2 + |path|] == path && names[5 + |path|..] == path;
  }

  lemma SplitOfNames(path: string)
    requires path != ""
    ensures var split, at := SplitQuotedNames(BothNames(path)), Find(path, " \"");
            if path[|path| - 1] == QUOTE && at.Some?
            then split.Some? && at.value < |path| && split.value.0 == StripPrefix("a/" + path[..at.value])
            else split.None?
  {
    hide StripPrefix, Find, BothNames, SplitQuotedNames;
    var names := BothNames(path);
    PairsOfNames(path);
    NamesBegin(path, Find(path, " \"").GetOr(0));
    SplitUnquoted(names);
  }

  lemma SplitUnquoted(names: string)
    requires names != "" && names[0] != QUOTE
    ensures var at := Find(names, " \"");
            SplitQuotedNames(names)
            == if names[|names| - 1] == QUOTE && at.Some?
               then Some((StripPrefix(names[..at.value]), StripPrefix([QUOTE] + names[at.value + 2..]))) else None
  {
    hide StripPrefix, Find, QuoteEnd;
  }

  lemma NamesBegin(path: string, k: nat)
    requires path != ""
    ensures var names := BothNames(path);
            && |names| == 5 + 2 * |path| && names[0] == 'a' && names[|names| - 1] == path[|path| - 1]
            && (k <= |path| ==> names[..2 + k] == "a/" + path[..k])
  {}

  /** A space meets a quote in the names only where it does in the path. */
  lemma PairPlace(path: string, k: nat)
    requires path != "" && PairAt(BothNames(path), k)
    ensures || (2 <= k < 2 + |path| && PairAt(path, k - 2))
            || (5 + |path| <= k && PairAt(path, k - 5 - |path|))
  {
    hide BothNames;
    NameChar(path, k);
    NameChar(path, k + 1);
  }

  lemma NameChar(path: string, k: nat)
    requires k < |BothNames(path)|
    ensures BothNames(path)[k]
         == if k < 2 + |path| then (if k == 0 then 'a' else if k == 1 then '/' else path[k - 2])
            else if k == 2 + |path| then ' ' else if k == 3 + |path| then 'b' else if k == 4 + |path| then '/'
            else path[k - 5 - |path|]
    ensures |BothNames(path)| == 5 + 2 * |path|
  {}

  /** The first such place in the names is the first in the path, behind the prefix. */
  lemma PairsOfNames(path: string)
    requires path != ""
    ensures Find(BothNames(path), " \"") == Shift(Find(path, " \""), 2)
  {
    hide Find, PairAt;
    var names := BothNames(path);
    FindPair(path);
    forall k | 0 <= k < |names| && PairAt(names, k)
      ensures (2 <= k < 2 + |path| && PairAt(path, k - 2)) || (5 + |path| <= k && PairAt(path, k - 5 - |path|))
    {
      PairPlace(path, k);
    }
    var at := Find(path, " \"");
    if at.Some? {
      PairCopied(path, at.value);
      FoundPair(names, 2 + at.value);
    } else {
      FindPair(names);
    }
  }

  lemma PairCopied(path: string, k: nat)
    requires PairAt(path, k)
    ensures PairAt(BothNames(path), 2 + k) && k + 1 < |path|
  {
    var names := BothNames(path);
    assert names[2 + k] == path[k] && names[3 + k] == path[k + 1];
  }
}
