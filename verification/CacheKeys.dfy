/** Which cached keys a prefix covers: the client's test and the store's SQL pattern. */
module CacheKeys {

  /**
   Case folding of ASCII letters. On ASCII keys this is both Python's `casefold` and the case rule of
   SQLite's LIKE.
   */
  function Fold(c: char): char {
    if 'A' <= c <= 'Z' then (c as int + 32) as char else c
  }

  predicate IsLetter(c: char) {
    'a' <= c <= 'z' || 'A' <= c <= 'Z'
  }

  /** Folding identifies the two cases of an ASCII letter and nothing else. */
  lemma FoldJoinsCases(c: char, d: char)
    ensures Fold(c) == Fold(d)
       <==> c == d || (IsLetter(c) && IsLetter(d) && (c as int == d as int + 32 || d as int == c as int + 32))
  {}

  function FoldAll(s: string): (r: string)
    ensures |r| == |s|
    ensures forall k :: 0 <= k < |s| ==> r[k] == Fold(s[k])
  {
    seq(|s|, k requires 0 <= k < |s| => Fold(s[k]))
  }

  /** `removesuffix(":")`. */
  function Stem(prefix: string): string {
    if prefix != "" && prefix[|prefix| - 1] == ':' then prefix[..|prefix| - 1] else prefix
  }

  /** `_key_under`: the key is the prefix or lies below it across a colon. */
  predicate KeyUnder(key: string, prefix: string) {
    var stem := Stem(FoldAll(prefix));
    FoldAll(key) == stem || stem + ":" <= FoldAll(key)
  }

  // ---------------------------------------------------------------- The store's pattern

  /** `text.replace(c, with)` for a single character. */
  function Replace(text: string, c: char, with: string): string {
    if text == "" then "" else (if text[0] == c then with else [text[0]]) + Replace(text[1..], c, with)
  }

  function EscapeLike(text: string): string {
    Replace(Replace(Replace(text, '\\', "\\\\"), '%', "\\%"), '_', "\\_")
  }

  /** SQLite's `text LIKE pattern ESCAPE '\'`. */
  predicate Like(pattern: string, text: string)
    decreases |pattern|, |text|
  {
    if pattern == "" then text == ""
    else if pattern[0] == '%' then Like(pattern[1..], text) || (text != "" && Like(pattern, text[1..]))
    else if pattern[0] == '\\' then
      |pattern| > 1 && text != "" && Fold(pattern[1]) == Fold(text[0]) && Like(pattern[2..], text[1..])
    else
      text != "" && (pattern[0] == '_' || Fold(pattern[0]) == Fold(text[0])) && Like(pattern[1..], text[1..])
  }

  /** The rows `invalidate_prefix` deletes. */
  predicate Deletes(key: string, prefix: string) {
    var escaped := EscapeLike(Stem(prefix));
    Like(escaped, key) || Like(escaped + ":%", key)
  }

  // ---------------------------------------------------------------- They agree

  predicate IsWild(c: char) { c == '\\' || c == '%' || c == '_' }

  function Escaped(c: char): string { if IsWild(c) then ['\\', c] else [c] }

  lemma ReplaceHead(a: char, rest: string, c: char, with: string)
    ensures Replace([a] + rest, c, with) == (if a == c then with else [a]) + Replace(rest, c, with)
  {
    assert ([a] + rest)[1..] == rest;
  }

  lemma ReplaceNothing(c: char, with: string)
    ensures Replace("", c, with) == ""
  {}

  lemma {:induction false} ReplaceAppend(x: string, y: string, c: char, with: string)
    ensures Replace(x + y, c, with) == Replace(x, c, with) + Replace(y, c, with)
  {
    hide Replace;
    if x == "" {
      ReplaceNothing(c, with);
      assert x + y == y && "" + Replace(y, c, with) == Replace(y, c, with);
    } else {
      var first := if x[0] == c then with else [x[0]];
      ReplaceAppend(x[1..], y, c, with);
      ReplaceHead(x[0], x[1..], c, with);
      ReplaceHead(x[0], x[1..] + y, c, with);
      assert x == [x[0]] + x[1..] && x + y == [x[0]] + (x[1..] + y);
      Regroup(first, Replace(x[1..], c, with), Replace(y, c, with));
    }
  }

  lemma Regroup<T>(a: seq<T>, b: seq<T>, c: seq<T>)
    ensures a + (b + c) == (a + b) + c
  {}

  lemma ReplaceOne(a: char, c: char, with: string)
    ensures Replace([a], c, with) == if a == c then with else [a]
  {
    assert [a][1..] == "";
  }

  lemma ReplaceTwo(a: char, b: char, c: char, with: string)
    ensures Replace([a, b], c, with) == (if a == c then with else [a]) + (if b == c then with else [b])
  {
    assert [a, b] == [a] + [b];
    ReplaceAppend([a], [b], c, with);
    ReplaceOne(a, c, with);
    ReplaceOne(b, c, with);
  }

  lemma EscapeOne(c: char)
    ensures EscapeLike([c]) == Escaped(c)
  {
    hide Replace;
    assert "\\\\" == ['\\', '\\'] && "\\%" == ['\\', '%'] && "\\_" == ['\\', '_'];
    ReplaceOne(c, '\\', "\\\\");
    if c == '\\' {
      assert ['\\'] + ['\\'] == ['\\', '\\'];
      ReplaceTwo('\\', '\\', '%', "\\%");
      ReplaceTwo('\\', '\\', '_', "\\_");
    } else {
      assert ['\\'] + ['%'] == ['\\', '%'];
      ReplaceOne(c, '%', "\\%");
      ReplaceOne(c, '_', "\\_");
      ReplaceTwo('\\', '%', '_', "\\_");
    }
  }

  /** The three replacements together escape each wildcard once, because the backslash goes first. */
  lemma EscapeHead(text: string)
    requires text != ""
    ensures EscapeLike(text) == Escaped(text[0]) + EscapeLike(text[1..])
  {
    hide Replace;
    var first, rest := [text[0]], text[1..];
    assert text == first + rest;
    ReplaceAppend(first, rest, '\\', "\\\\");
    ReplaceAppend(Replace(first, '\\', "\\\\"), Replace(rest, '\\', "\\\\"), '%', "\\%");
    ReplaceAppend(Replace(Replace(first, '\\', "\\\\"), '%', "\\%"),
                  Replace(Replace(rest, '\\', "\\\\"), '%', "\\%"), '_', "\\_");
    EscapeOne(text[0]);
  }

  lemma LikeEscapedHead(c: char, pattern: string, text: string)
    ensures Like(Escaped(c) + pattern, text) <==> text != "" && Fold(c) == Fold(text[0]) && Like(pattern, text[1..])
  {
    var whole := Escaped(c) + pattern;
    if IsWild(c) {
      assert whole[2..] == pattern;
    } else {
      assert whole[1..] == pattern;
    }
  }

  /** An escaped text in front of a pattern matches that text and nothing else. */
  lemma {:induction false} LikeEscaped(text: string, pattern: string, key: string)
    ensures Like(EscapeLike(text) + pattern, key)
       <==> |text| <= |key| && FoldAll(key[..|text|]) == FoldAll(text) && Like(pattern, key[|text|..])
  {
    hide Replace, Like, Escaped, Fold;
    if text == "" {
      EscapeNothing();
      assert EscapeLike(text) + pattern == pattern;
      assert key[..0] == "" && key[0..] == key;
    } else {
      EscapeHead(text);
      var rest := EscapeLike(text[1..]) + pattern;
      assert EscapeLike(text) + pattern == Escaped(text[0]) + rest;
      LikeEscapedHead(text[0], rest, key);
      if key != "" {
        LikeEscaped(text[1..], pattern, key[1..]);
        FoldHead(text, key);
        if |text| <= |key| {
          assert key[1..][|text| - 1..] == key[|text|..];
        }
      }
    }
  }

  lemma EscapeNothing()
    ensures EscapeLike("") == ""
  {}

  lemma FoldHead(text: string, key: string)
    requires text != "" && key != ""
    ensures |text| <= |key| ==>
              (FoldAll(key[..|text|]) == FoldAll(text)
               <==> Fold(text[0]) == Fold(key[0]) && FoldAll(key[1..][..|text| - 1]) == FoldAll(text[1..]))
  {
    hide Fold;
    if |text| <= |key| {
      var a, b := FoldAll(key[..|text|]), FoldAll(text);
      var x, y := FoldAll(key[1..][..|text| - 1]), FoldAll(text[1..]);
      assert x == a[1..] && y == b[1..];
      assert a == [a[0]] + a[1..] && b == [b[0]] + b[1..];
    }
  }

  /** A percent sign stands for any text, none included. */
  lemma {:induction false} PercentMatches(pattern: string, text: string)
    ensures Like("%" + pattern, text) <==> exists k :: 0 <= k <= |text| && Like(pattern, text[k..])
  {
    assert ("%" + pattern)[1..] == pattern && text[0..] == text;
    if text != "" {
      PercentMatches(pattern, text[1..]);
      assert forall k :: 1 <= k <= |text| ==> text[k..] == text[1..][k - 1..];
      assert forall k :: 0 <= k < |text| ==> text[1..][k..] == text[k + 1..];
    }
  }

  lemma {:induction false} AnythingMatches(text: string)
    ensures Like("%", text)
  {
    assert "%"[1..] == "";
    if text != "" {
      AnythingMatches(text[1..]);
    }
  }

  lemma BelowColon(text: string)
    ensures Like(":%", text) <==> text != "" && text[0] == ':'
  {
    assert ":%"[1..] == "%";
    if text != "" {
      AnythingMatches(text[1..]);
    }
  }

  lemma StemFold(prefix: string)
    ensures Stem(FoldAll(prefix)) == FoldAll(Stem(prefix))
  {}

  /**
   The SQL patterns delete a key exactly when the client counts it as covered, for every prefix,
   wildcards, backslashes and a trailing colon included.
   */
  lemma DeletesWhatItCovers(key: string, prefix: string)
    ensures Deletes(key, prefix) <==> KeyUnder(key, prefix)
  {
    hide Like, EscapeLike, Fold, Stem;
    var stem := Stem(prefix);
    StemFold(prefix);
    LikeEscaped(stem, "", key);
    LikeEscaped(stem, ":%", key);
    assert EscapeLike(stem) + "" == EscapeLike(stem);
    var folded := FoldAll(stem);
    if |stem| <= |key| {
      var rest := key[|stem|..];
      LikeEmpty(rest);
      BelowColon(rest);
      assert FoldAll(key)[..|stem|] == FoldAll(key[..|stem|]);
      CoveredParts(FoldAll(key), folded);
      ColonFolds(key);
    }
  }

  lemma LikeEmpty(text: string)
    ensures Like("", text) <==> text == ""
  {}

  lemma CoveredParts(key: string, stem: string)
    requires |stem| <= |key|
    ensures (key == stem || stem + ":" <= key)
       <==> key[..|stem|] == stem && (|key| == |stem| || key[|stem|] == ':')
  {
    assert |key| == |stem| ==> key[..|stem|] == key;
  }

  lemma ColonFolds(key: string)
    ensures forall k :: 0 <= k < |key| ==> (FoldAll(key)[k] == ':' <==> key[k] == ':')
  {}

  /** One colon at the end of a prefix makes no difference. */
  lemma ColonIsDropped(prefix: string, key: string)
    requires prefix == "" || prefix[|prefix| - 1] != ':'
    ensures Stem(prefix) == prefix && Stem(prefix + ":") == prefix
    ensures KeyUnder(key, prefix + ":") <==> KeyUnder(key, prefix)
  {
    StemFold(prefix);
    StemFold(prefix + ":");
    assert (prefix + ":")[..|prefix|] == prefix;
  }

  /** Review 1 does not cover review 12: what follows the prefix must begin with a colon. */
  lemma CoversAcrossColon(prefix: string, more: string)
    requires prefix == "" || prefix[|prefix| - 1] != ':'
    ensures KeyUnder(prefix + more, prefix) <==> more == "" || more[0] == ':'
    ensures KeyUnder(prefix + more, prefix + ":") <==> more == "" || more[0] == ':'
  {
    hide Fold, Stem, KeyUnder;
    ColonIsDropped(prefix, prefix + more);
    UnderItself(prefix, more);
  }

  lemma UnderItself(prefix: string, more: string)
    requires Stem(prefix) == prefix
    ensures KeyUnder(prefix + more, prefix) <==> more == "" || more[0] == ':'
  {
    hide Fold, Stem;
    StemFold(prefix);
    var key := FoldAll(prefix + more);
    assert key[..|prefix|] == FoldAll(prefix);
    CoveredParts(key, FoldAll(prefix));
    ColonFolds(prefix + more);
  }
}
