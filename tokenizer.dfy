/** The tokenizer of `TextSimilarityService::extractTokens`: lower-case the
    text, turn every run of characters other than `[a-z0-9]` and whitespace
    into one space, trim, split on whitespace, and keep the parts of at
    least three characters that are not made of digits only. */
module Tokenizer {
  import opened Chars
  import opened PhpStrings

  /** A term: what the tokenizer is meant to emit. */
  predicate IsTerm(t: string) {
    |t| >= 3 && !AllDigits(t) && forall c :: c in t ==> IsLowerAlnum(c)
  }

  /** `preg_match('/^\d+$/', part)`: a non-empty run of ASCII digits. (The
      `$` of that pattern also accepts a final line feed, which no part can
      hold, since parts are split on whitespace.) */
  predicate AllDigits(s: string) {
    |s| > 0 && forall i :: 0 <= i < |s| ==> IsDigit(s[i])
  }

  /** The two `continue` filters of the token loop: a part is kept when it
      has at least three characters and is not a number. */
  predicate Survives(part: string) {
    |part| >= 3 && !AllDigits(part)
  }

  /** The class `[^a-z0-9\s]` of the replacement step, with `\s` the same
      ASCII whitespace class the split step uses. */
  predicate IsSeparator(c: char) {
    !IsLowerAlnum(c) && !IsAsciiSpace(c)
  }

  /** The same class as the source compiles it: the pattern carries the `u`
      flag, so there `\s` is Unicode whitespace. */
  predicate IsSeparatorAsWritten(c: char) {
    !IsLowerAlnum(c) && !IsUnicodeSpace(c)
  }

  /** Lower-case, replace separator runs by a space, trim, split on
      whitespace runs. */
  function PartsWith(text: string, separator: char -> bool): seq<string> {
    Split(Trim(ReplaceRuns(Lower(text), separator)), IsAsciiSpace)
  }

  /** The candidate parts of a text. */
  function Parts(text: string): seq<string> {
    PartsWith(text, IsSeparator)
  }

  /** The surviving parts, in their order, duplicates included: the value
      of the token list after the loop has seen `parts`. */
  function Keep(parts: seq<string>): (tokens: seq<string>)
    ensures |tokens| <= |parts|
  {
    if parts == [] then []
    else
      var last := parts[|parts| - 1];
      Keep(parts[..|parts| - 1]) + (if Survives(last) then [last] else [])
  }

  /** The tokens of a text for a given replacement class. */
  function TokensWith(text: string, separator: char -> bool): seq<string> {
    Keep(PartsWith(text, separator))
  }

  /** The tokens of a text, with one whitespace class for the replacement
      and the split: what the tokenizer is meant to compute. */
  function Tokens(text: string): seq<string> {
    TokensWith(text, IsSeparator)
  }

  /** The tokens of a text, with the replacement class as the source
      writes it: what `extractTokens` computes. */
  function TokensAsWritten(text: string): seq<string> {
    TokensWith(text, IsSeparatorAsWritten)
  }

  /** The token loop: walk the parts, skip those that are too short or
      numeric, append the others. */
  method ExtractTokens(text: string) returns (tokens: seq<string>)
    ensures tokens == TokensAsWritten(text)
  {
    var parts := PartsWith(text, IsSeparatorAsWritten);
    tokens := [];
    for i := 0 to |parts|
      invariant tokens == Keep(parts[..i])
    {
      assert parts[..i + 1][..i] == parts[..i];
      var part := parts[i];
      if |part| < 3 {
        continue;
      }
      if AllDigits(part) {
        continue;
      }
      tokens := tokens + [part];
    }
    assert parts[..|parts|] == parts;
  }

  /** Filtering distributes over concatenation, so the kept parts stay in
      their original order. */
  lemma {:induction false} KeepAppend(a: seq<string>, b: seq<string>)
    ensures Keep(a + b) == Keep(a) + Keep(b)
    decreases |b|
  {
    if b == [] {
      assert a + b == a;
    } else {
      var b' := b[..|b| - 1];
      assert (a + b)[..|a + b| - 1] == a + b';
      assert (a + b)[|a + b| - 1] == b[|b| - 1];
      KeepAppend(a, b');
    }
  }

  /** Keep is the filter by `Survives`: a part is a token exactly when it
      survives, and it is kept as many times as it occurs. */
  lemma {:induction false} KeepIsFilter(parts: seq<string>)
    ensures forall t :: t in Keep(parts) <==> t in parts && Survives(t)
    ensures forall t :: multiset(Keep(parts))[t] == if Survives(t) then multiset(parts)[t] else 0
  {
    if parts != [] {
      var init := parts[..|parts| - 1];
      var last := parts[|parts| - 1];
      assert parts == init + [last];
      KeepIsFilter(init);
    }
  }

  /** Every character of every part is a lower-case ASCII letter or a
      digit: the replacement turned everything else that is not whitespace
      into spaces, and the split removed the whitespace. */
  lemma PartsAreAlnum(text: string)
    ensures forall k, c :: 0 <= k < |Parts(text)| && c in Parts(text)[k] ==> IsLowerAlnum(c)
  {
    var lowered := Lower(text);
    var replaced := ReplaceRuns(lowered, IsSeparator);
    var trimmed := Trim(replaced);
    var parts := Split(trimmed, IsAsciiSpace);
    assert Parts(text) == parts;
    ReplaceRunsChars(lowered, IsSeparator, false);
    TrimChars(replaced);
    forall k, c | 0 <= k < |parts| && c in parts[k]
      ensures IsLowerAlnum(c)
    {
      SplitPartChar(trimmed, IsAsciiSpace, k, c);
      assert c in replaced;
    }
  }

  /** Every token is a term: at least three characters, not a number, and
      only lower-case ASCII letters and digits. */
  lemma TokensAreTerms(text: string)
    ensures forall k :: 0 <= k < |Tokens(text)| ==> IsTerm(Tokens(text)[k])
  {
    var parts := Parts(text);
    PartsAreAlnum(text);
    KeepIsFilter(parts);
    forall k | 0 <= k < |Tokens(text)|
      ensures IsTerm(Tokens(text)[k])
    {
      var t := Tokens(text)[k];
      assert t in Keep(parts);
      var j :| 0 <= j < |parts| && parts[j] == t;
    }
  }

  /** Case does not matter: a text and its lower-cased form have the same
      tokens, for either replacement class. */
  lemma TokensIgnoreCase(text: string)
    ensures Tokens(Lower(text)) == Tokens(text)
    ensures TokensAsWritten(Lower(text)) == TokensAsWritten(text)
  {
    LowerTwice(text);
  }

  /** The text holds no whitespace outside ASCII. */
  predicate NoWideSpace(text: string) {
    forall c :: c in text ==> !IsWideSpace(c)
  }

  /** The two replacement classes differ only on whitespace outside ASCII,
      so on a text without such whitespace the tokenizer as written and the
      intended one agree. */
  lemma TokensAgree(text: string)
    requires NoWideSpace(text)
    ensures TokensAsWritten(text) == Tokens(text)
  {
    var lowered := Lower(text);
    forall c | c in lowered
      ensures IsSeparatorAsWritten(c) == IsSeparator(c)
    {
      var i :| 0 <= i < |lowered| && lowered[i] == c;
      assert text[i] in text;
    }
    ReplaceRunsAgree(lowered, IsSeparatorAsWritten, IsSeparator, false);
  }

  /** Every token of a text without whitespace outside ASCII is a term. */
  lemma TokensAsWrittenAreTerms(text: string)
    requires NoWideSpace(text)
    ensures forall k :: 0 <= k < |TokensAsWritten(text)| ==> IsTerm(TokensAsWritten(text)[k])
  {
    TokensAgree(text);
    TokensAreTerms(text);
  }

  /** Parts that all survive are all kept. */
  lemma {:induction false} KeepAll(parts: seq<string>)
    requires forall i :: 0 <= i < |parts| ==> Survives(parts[i])
    ensures Keep(parts) == parts
  {
    if parts != [] {
      KeepAll(parts[..|parts| - 1]);
    }
  }

  /** Words joined by a gap. */
  function Joined(words: seq<string>, gap: string): string {
    if words == [] then []
    else if |words| == 1 then words[0]
    else words[0] + gap + Joined(words[1..], gap)
  }

  /** All words are terms. */
  predicate AllTerms(words: seq<string>) {
    forall i :: 0 <= i < |words| ==> IsTerm(words[i])
  }

  /** A joined text of terms neither starts nor ends with a character
      `trim` removes, and does not start with whitespace. */
  lemma {:induction false} JoinedEnds(words: seq<string>, gap: string)
    requires words != [] && AllTerms(words)
    ensures var t := Joined(words, gap);
      t != [] && !IsTrimmed(t[0]) && !IsAsciiSpace(t[0]) && !IsTrimmed(t[|t| - 1])
  {
    var w := words[0];
    TermEnds(w);
    if |words| > 1 {
      var rest := Joined(words[1..], gap);
      JoinedEnds(words[1..], gap);
      var t := w + gap + rest;
      assert t[0] == w[0] && t[|t| - 1] == rest[|rest| - 1];
    }
  }

  /** Every character of a joined text comes from a word or from the gap. */
  lemma {:induction false} JoinedChars(words: seq<string>, gap: string)
    requires AllTerms(words)
    ensures forall c :: c in Joined(words, gap) ==> IsLowerAlnum(c) || c in gap
  {
    if |words| > 1 {
      JoinedChars(words[1..], gap);
    }
  }

  /** Terms joined by a run of ASCII whitespace split back into the terms. */
  lemma {:induction false} SplitJoined(words: seq<string>, gap: string)
    requires words != [] && AllTerms(words)
    requires gap != [] && forall c :: c in gap ==> IsAsciiSpace(c)
    ensures Split(Joined(words, gap), IsAsciiSpace) == words
  {
    var w := words[0];
    if |words| == 1 {
      SplitUnbroken(w, IsAsciiSpace);
    } else {
      var rest := words[1..];
      JoinedEnds(rest, gap);
      assert IsTerm(w);
      SplitAfterWord(w, gap, Joined(rest, gap), IsAsciiSpace);
      SplitJoined(rest, gap);
    }
  }

  /** Terms joined by single spaces are the tokens; no terms give the
      empty text, which has no tokens. */
  lemma TokensJoined(words: seq<string>)
    requires AllTerms(words)
    ensures Tokens(Joined(words, " ")) == words
  {
    if words == [] {
      var empty: string := [];
      assert Parts(empty) == [empty] by {
        assert Lower(empty) == empty;
        assert Trim(ReplaceRuns(empty, IsSeparator)) == empty;
      }
      assert [empty][..0] == [];
    } else {
      JoinedParts(words);
      KeepAll(words);
    }
  }

  /** The same round trip through the tokenizer as written. */
  lemma TokensAsWrittenJoined(words: seq<string>)
    requires AllTerms(words)
    ensures TokensAsWritten(Joined(words, " ")) == words
  {
    var t := Joined(words, " ");
    assert NoWideSpace(t) by {
      JoinedChars(words, " ");
    }
    TokensAgree(t);
    TokensJoined(words);
  }

  lemma JoinedParts(words: seq<string>)
    requires words != [] && AllTerms(words)
    ensures Parts(Joined(words, " ")) == words
  {
    var t := Joined(words, " ");
    assert Lower(t) == t by {
      JoinedChars(words, " ");
      LowerUnchanged(t);
    }
    assert ReplaceRuns(t, IsSeparator) == t by {
      JoinedChars(words, " ");
      ReplaceRunsUnchanged(t, IsSeparator);
    }
    assert Trim(t) == t by {
      JoinedEnds(words, " ");
      TrimUnchanged(t);
    }
    SplitJoined(words, " ");
  }

  /** The first and last characters of a term are neither whitespace nor
      removed by `trim`. */
  lemma TermEnds(t: string)
    requires IsTerm(t)
    ensures !IsTrimmed(t[0]) && !IsTrimmed(t[|t| - 1])
    ensures !IsAsciiSpace(t[0]) && !IsSeparator(t[|t| - 1])
  {
    assert t[0] in t && t[|t| - 1] in t;
  }
}
