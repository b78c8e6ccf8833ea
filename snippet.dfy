/** `TextSimilarityService::findEvidenceSnippet`: the text around the first
    case-insensitive occurrence of a query, with ASCII whitespace runs collapsed
    to one space and the ends trimmed. */
module Snippet {
  import opened Chars
  import opened PhpStrings

  /** `text` holds `query` somewhere, ignoring ASCII case. */
  ghost predicate Mentions(text: string, query: string) {
    exists i: nat :: OccursAt(Lower(query), Lower(text), i)
  }

  /** `needle` occurs somewhere in `hay`. */
  ghost predicate Contains(hay: string, needle: string) {
    exists i: nat :: OccursAt(needle, hay, i)
  }

  /** The first index of the snippet window: `max(0, position - radius)`. */
  function WindowStart(position: nat, radius: nat): (start: nat)
    ensures start <= position && position - start <= radius
    ensures position >= radius ==> position - start == radius
    ensures position < radius ==> start == 0
  {
    if position >= radius then position - radius else 0
  }

  /** No whitespace and no NUL: the characters the clean-up leaves alone
      wherever they stand. */
  predicate Plain(s: string) {
    forall c :: c in s ==> !IsAsciiSpace(c) && c != '\0'
  }

  /** The window of `length + 2 * radius` characters around a match of
      `length` characters at `position`, whitespace runs collapsed to one
      space and the ends trimmed. */
  function CleanWindow(text: string, position: nat, length: nat, radius: nat): (w: string)
    ensures |w| <= length + 2 * radius
  {
    var window := Substr(text, WindowStart(position, radius), length + 2 * radius);
    Trim(ReplaceRuns(window, IsAsciiSpace))
  }

  /** The snippet, or `None` (PHP's `null`) when the query does not occur.
      The radius is a count of characters, taken as non-negative, and 80
      when the caller gives none. */
  function FindEvidenceSnippet(text: string, query: string, radius: nat := 80): (r: Option<string>)
    ensures r.Some? ==> |r.value| <= |query| + 2 * radius
  {
    match Stripos(text, query)
    case None => None
    case Some(position) => Some(CleanWindow(text, position, |query|, radius))
  }

  /** The text the query matched, in its original case. */
  function MatchedText(text: string, query: string): (m: string)
    requires Stripos(text, query).Some?
    ensures |m| == |query| && Lower(m) == Lower(query)
  {
    var position := Stripos(text, query).value;
    LowerSlice(text, position, position + |query|);
    text[position..position + |query|]
  }

  /** A snippet exists exactly when the text mentions the query. */
  lemma SnippetExactlyWhenMentioned(text: string, query: string, radius: nat)
    ensures FindEvidenceSnippet(text, query, radius).Some? <==> Mentions(text, query)
  {
    match Stripos(text, query)
    case None =>
    case Some(position) =>
      assert OccursAt(Lower(query), Lower(text), position);
  }

  /** Clean for display: the only ASCII whitespace is single spaces (no
      line breaks or tabs, no two spaces in a row), and neither end is a
      character `trim` removes. Whitespace outside ASCII is not ASCII `\s`,
      so it is left as it is. */
  predicate IsClean(s: string) {
    && (forall c :: c in s && IsAsciiSpace(c) ==> c == ' ')
    && (forall i :: 0 <= i < |s| - 1 ==> !(s[i] == ' ' && s[i + 1] == ' '))
    && (s != [] ==> !IsTrimmed(s[0]) && !IsTrimmed(s[|s| - 1]))
  }

  /** Every snippet is clean for display. */
  lemma SnippetIsClean(text: string, query: string, radius: nat)
    requires FindEvidenceSnippet(text, query, radius).Some?
    ensures IsClean(FindEvidenceSnippet(text, query, radius).value)
  {
    var position := Stripos(text, query).value;
    var window := Substr(text, WindowStart(position, radius), |query| + 2 * radius);
    assert FindEvidenceSnippet(text, query, radius).value == Trim(ReplaceRuns(window, IsAsciiSpace));
    CollapsedIsClean(window);
  }

  /** Collapsing ASCII whitespace runs and trimming gives a clean string. */
  lemma CollapsedIsClean(window: string)
    ensures IsClean(Trim(ReplaceRuns(window, IsAsciiSpace)))
  {
    var replaced := ReplaceRuns(window, IsAsciiSpace);
    var s := Trim(replaced);
    ReplaceRunsCollapses(window, IsAsciiSpace, false);
    TrimChars(replaced);
    if s != [] {
      var k := TrimStart(replaced);
      forall i | 0 <= i < |s| - 1
        ensures !(s[i] == ' ' && s[i + 1] == ' ')
      {
        assert s[i] == replaced[k + i] && s[i + 1] == replaced[k + i + 1];
      }
    }
  }

  /** The snippet shows the match: for a query without whitespace or NUL
      (characters the collapsing or `trim` would change), the text the query
      matched appears in the snippet unchanged, in the text's own case. */
  lemma SnippetShowsMatch(text: string, query: string, radius: nat)
    requires query != [] && Plain(query)
    requires Stripos(text, query).Some?
    ensures FindEvidenceSnippet(text, query, radius).Some?
    ensures Contains(FindEvidenceSnippet(text, query, radius).value, MatchedText(text, query))
  {
    var position := Stripos(text, query).value;
    MatchedTextAt(text, query);
    MatchedTextIsPlain(text, query);
    CleanWindowShowsMatch(text, position, |query|, radius);
  }

  /** Where the matched text lies in the text. */
  lemma MatchedTextAt(text: string, query: string)
    requires Stripos(text, query).Some?
    ensures var position := Stripos(text, query).value;
      position + |query| <= |text| && MatchedText(text, query) == text[position..position + |query|]
  {
    assert OccursAt(Lower(query), Lower(text), Stripos(text, query).value);
  }

  /** The cleaned-up window around a slice without whitespace or NUL holds
      that slice. */
  lemma CleanWindowShowsMatch(text: string, position: nat, length: nat, radius: nat)
    requires 0 < length && position + length <= |text|
    requires Plain(text[position..position + length])
    ensures Contains(CleanWindow(text, position, length, radius), text[position..position + length])
  {
    var start := WindowStart(position, radius);
    var window := Substr(text, start, length + 2 * radius);
    var m := text[position..position + length];
    assert OccursAt(m, window, position - start) by {
      WindowHoldsMatch(text, position, length, radius);
    }
    assert CleanWindow(text, position, length, radius) == Trim(ReplaceRuns(window, IsAsciiSpace));
    CleanupKeeps(window, m, position - start);
  }

  /** The matched text differs from the query only in the case of ASCII
      letters, so it holds no whitespace or NUL when the query holds none. */
  lemma MatchedTextIsPlain(text: string, query: string)
    requires Plain(query)
    requires Stripos(text, query).Some?
    ensures Plain(MatchedText(text, query))
  {
    var m := MatchedText(text, query);
    forall j | 0 <= j < |m|
      ensures !IsAsciiSpace(m[j]) && m[j] != '\0'
    {
      assert LowerChar(m[j]) == Lower(m)[j] == Lower(query)[j] == LowerChar(query[j]);
      assert query[j] in query;
    }
  }

  /** The window reaches `radius` characters past the match on each side,
      so it holds the whole match. */
  lemma WindowHoldsMatch(text: string, position: nat, length: nat, radius: nat)
    requires position + length <= |text|
    ensures var start := WindowStart(position, radius);
      OccursAt(text[position..position + length], Substr(text, start, length + 2 * radius), position - start)
  {
    var start := WindowStart(position, radius);
    SubstrHolds(text, start, length + 2 * radius, position, length);
  }

  /** A slice of `s` that lies inside the range `mb_substr` takes is a slice
      of its result. */
  lemma SubstrHolds(s: string, start: nat, len: nat, position: nat, length: nat)
    requires start <= position && position + length <= |s| && position + length <= start + len
    ensures OccursAt(s[position..position + length], Substr(s, start, len), position - start)
  {
    var a := position - start;
    if len <= |s| - start {
      SliceOfSlice(s, start, start + len, a, a + length);
    } else {
      assert s[start..] == s[start..|s|];
      SliceOfSlice(s, start, |s|, a, a + length);
    }
  }

  /** Collapsing whitespace and trimming keep an occurrence of a string
      that holds neither whitespace nor NUL. */
  lemma CleanupKeeps(window: string, m: string, i: nat)
    requires m != [] && OccursAt(m, window, i) && Plain(m)
    ensures Contains(Trim(ReplaceRuns(window, IsAsciiSpace)), m)
  {
    var before, after := window[..i], window[i + |m|..];
    assert window == before + (m + after);
    assert m[0] in m && m[|m| - 1] in m;
    ReplaceRunsSplitsBefore(before, m + after, IsAsciiSpace, false);
    ReplaceRunsKeepsPrefix(m, after, IsAsciiSpace, false);
    var replaced := ReplaceRuns(window, IsAsciiSpace);
    var head := ReplaceRunsAfter(before, IsAsciiSpace, false);
    assert replaced == head + m + ReplaceRunsAfter(after, IsAsciiSpace, false);
    assert replaced[|head|..|head| + |m|] == m;
    TrimKeepsOccurrence(replaced, m, |head|);
  }
}
