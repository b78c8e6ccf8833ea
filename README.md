# Lightweight text similarity, modelled in Dafny

`TextSimilarityService` is a stateless PHP class with four parts:

- a tokenizer (`extractTokens`): lower-case the text, turn every run of characters other than `[a-z0-9]` and whitespace into one space, trim, split on whitespace, and drop parts shorter than three characters or made of digits only;
- a term-frequency vectoriser (`vectorize`): a map from each token to its number of occurrences;
- `cosineSimilarity`: the cosine of the angle between the two term-frequency vectors of two texts, with 0 when either text has no tokens;
- `findEvidenceSnippet`: the window of text around the first case-insensitive occurrence of a query, with runs of ASCII whitespace collapsed to one space and the ends trimmed. It gives `null` when the query does not occur.

The model keeps the source's form:

- The four loops (the token filter, the tally and the two accumulation loops) are methods. Each is proved equal to a specification function, and the properties are lemmas about those functions.
- The snippet finder has no loop and is a function.
- The PHP string primitives it relies on (`mb_strtolower`, `preg_replace`, `trim`, `preg_split`, `mb_substr`, `mb_stripos`) are pure functions in `PhpStrings` and `Chars`.

The tokenizer exists in two versions, which differ only in the replacement class of line 90 (see "## Findings"):

- `Tokenizer.TokensAsWritten` uses the class as the source compiles it. There, `\s` is Unicode whitespace. `ExtractTokens`, `Vectorize`, `CosineSimilarity` and every `Cosine` lemma are about this version.
- `Tokenizer.Tokens` is the intended tokenizer. Its replacement and split share ASCII whitespace, and the term properties (`PartsAreAlnum`, `TokensAreTerms`, `TokensJoined`) are proved about it.
- `Tokenizer.TokensAgree` proves the two agree on every text without whitespace outside ASCII. That carries the term properties over to the code as written for such texts (`TokensAsWrittenAreTerms`, `TokensAsWrittenJoined`).

Modules:

| module | file | models |
|---|---|---|
| `Chars` | chars.dfy | the character classes (`\s` with and without the `u` flag, the `trim` set, `[a-z0-9]`) and ASCII lower-casing |
| `PhpStrings` | strings.dfy | run replacement, `trim`, split on a class, `mb_substr`, case-insensitive search |
| `Tokenizer` | tokenizer.dfy | `extractTokens` |
| `Sums` | sums.dfy | sums over a set of terms (the accumulation loops visit a map's terms) |
| `Vectorizer` | vectorizer.dfy | `vectorize` |
| `Cosine` | cosine.dfy | `cosineSimilarity` up to the final division |
| `Snippet` | snippet.dfy | `findEvidenceSnippet` |
| `Examples` | examples.dfy | the normalisation test case, and the input behind the finding below |

The score is kept as integers, not as a float:

- `Zero` stands for each early `return 0.0`.
- `Ratio(dot, leftMagnitudeSquared, rightMagnitudeSquared)` holds the three operands of the final division.
- "score 0" therefore reads `dot == 0`.
- "score 1" reads `dot * dot == leftMagnitudeSquared * rightMagnitudeSquared`. When the three values are equal, the real quotient `dot / (sqrt(dot) * sqrt(dot))` is exactly 1.
- These readings hold for the real quotient. The double that line 52 returns can differ from it in the last place (see "## Left out").

## Model

| member | source | states |
|---|---|---|
| Tokenizer.ExtractTokens | src/TextSimilarityService.php:87-109 | the token loop returns exactly `TokensAsWritten(text)`: the surviving parts of the normalised text, in order, with the replacement class as written |
| Tokenizer.KeepIsFilter | src/TextSimilarityService.php:96-106 | a string is a token exactly when it is a part with at least three characters that is not all digits; each token keeps the multiplicity of its part |
| Tokenizer.KeepAppend | src/TextSimilarityService.php:96-106 | the filter distributes over concatenation, so tokens keep the order of their parts |
| Tokenizer.PartsAreAlnum | src/TextSimilarityService.php:89-92 | for the intended tokenizer: after lower-casing, replacement, trim and split, every character of every part is in `[a-z0-9]` |
| Tokenizer.TokensAreTerms | src/TextSimilarityService.php:87-109 | for the intended tokenizer: every token is a term (at least three characters, not all digits, only `[a-z0-9]`) |
| Tokenizer.TokensAgree | src/TextSimilarityService.php:90-92 | on a text without whitespace outside ASCII, the tokenizer as written gives the same tokens as the intended one |
| Tokenizer.TokensAsWrittenAreTerms | src/TextSimilarityService.php:87-109 | as written: every token of a text without whitespace outside ASCII is a term |
| Tokenizer.TokensIgnoreCase | src/TextSimilarityService.php:89 | a text and its lower-cased form have the same tokens, for both tokenizers |
| Tokenizer.TokensJoined | src/TextSimilarityService.php:87-109 | round trip for the intended tokenizer: any list of terms, the empty one included, joined by single spaces tokenizes back to itself |
| Tokenizer.TokensAsWrittenJoined | src/TextSimilarityService.php:87-109 | the same round trip through the tokenizer as written |
| Tokenizer.SplitJoined | src/TextSimilarityService.php:92 | terms joined by any non-empty run of ASCII whitespace split back into the terms |
| Chars.Lower | src/TextSimilarityService.php:89 | `mb_strtolower` restricted to ASCII: the same length, each character lower-cased on its own |
| PhpStrings.ReplaceRuns | src/TextSimilarityService.php:90 | `preg_replace` of a class run by one space never lengthens the string |
| PhpStrings.Split | src/TextSimilarityService.php:92 | `preg_split` on a class run always gives at least one part, and an empty first part when the string starts with a class character |
| PhpStrings.Stripos | src/TextSimilarityService.php:118 | `mb_stripos` up to ASCII case: the result is an occurrence of the lower-cased query in the lower-cased text, no earlier position is one, no result means no occurrence, and an empty query is found at 0 |
| Chars.LowerTwice | src/TextSimilarityService.php:89 | lower-casing is idempotent |
| PhpStrings.ReplaceRunsChars | src/TextSimilarityService.php:90 | replacing runs of a class leaves only spaces and characters outside the class |
| PhpStrings.ReplaceRunsCollapses | src/TextSimilarityService.php:130 | after collapsing runs of a class that holds the space, the only class characters left are single spaces, never two side by side |
| PhpStrings.Trim | src/TextSimilarityService.php:92 | the trimmed string neither starts nor ends with a character `trim` removes |
| PhpStrings.TrimChars | src/TextSimilarityService.php:92 | trimming adds no character |
| PhpStrings.SplitPartsChars | src/TextSimilarityService.php:92 | every character of every part comes from the input and is not whitespace |
| PhpStrings.SplitLosesOnlySeparators | src/TextSimilarityService.php:92 | concatenating the parts gives the input with the separator characters removed |
| PhpStrings.Substr | src/TextSimilarityService.php:127 | `mb_substr` returns `len` characters from `start`, fewer at the end of the string, each equal to the source character |
| PhpStrings.SearchFrom | src/TextSimilarityService.php:118 | the search result is an occurrence, no earlier position is one, and no result means no occurrence at all |
| Vectorizer.Vectorize | src/TextSimilarityService.php:60-75 | the tally loop returns exactly the term-frequency map of the text's tokens |
| Vectorizer.TermFrequenciesCount | src/TextSimilarityService.php:68-72 | the keys are exactly the tokens, and each count is the term's number of occurrences, so at least 1 |
| Vectorizer.CountsSumToLength | src/TextSimilarityService.php:70-72 | the counts add up to the number of tokens |
| Cosine.VectorOfText | src/TextSimilarityService.php:62-66 | a text's vector has positive counts, and is empty exactly when the text has no tokens |
| Cosine.CosineSimilarity | src/TextSimilarityService.php:19-51 | the method returns exactly `CosineScore` of the two texts, whatever order the maps are walked in |
| Cosine.Combine | src/TextSimilarityService.php:25-51 | after vectorising: `Zero` for an empty vector, otherwise the dot product and both squared magnitudes, unless the guard fires |
| Cosine.DotAndMagnitude | src/TextSimilarityService.php:29-40 | the first loop computes the dot product and the left squared magnitude, in any order of the left map's terms |
| Cosine.MagnitudeOf | src/TextSimilarityService.php:43-45 | the second loop computes the right squared magnitude |
| Cosine.GuardNeverFires | src/TextSimilarityService.php:47-50 | for vectors of positive counts, the score is `Zero` exactly when a vector is empty; otherwise both magnitudes are positive |
| Cosine.MagnitudePositive | src/TextSimilarityService.php:43-45 | the squared magnitude of a positive vector is at least its number of terms |
| Cosine.ZeroExactlyWithoutTokens | src/TextSimilarityService.php:24-27 | the similarity is 0 before any arithmetic exactly when one of the texts has no tokens; otherwise the division has positive magnitudes |
| Cosine.DotSymmetric | src/TextSimilarityService.php:34-40 | the dot product is the same whichever side the first loop walks |
| Cosine.ScoreSymmetric | src/TextSimilarityService.php:19-53 | exchanging the texts keeps the dot product and exchanges the magnitudes, so the similarity is symmetric |
| Cosine.DisjointDotZero | src/TextSimilarityService.php:37-39 | vectors without a shared term have dot product 0 |
| Cosine.DisjointTextsScoreZero | tests/TextSimilarityServiceTest.php:58-68 | texts without a shared token score 0 |
| Cosine.IdenticalTextsScoreOne | tests/TextSimilarityServiceTest.php:22-32 | a text scores 1 against itself (dot equals both squared magnitudes) exactly when it has tokens |
| Cosine.SameTokensScoreOne | src/TextSimilarityService.php:19-53 | two texts with the same non-empty tokens score 1 |
| Cosine.CauchySchwarz | src/TextSimilarityService.php:29-45 | the square of a dot product sum is at most the product of the two sums of squares |
| Cosine.RatioInUnitRange | src/TextSimilarityService.php:52 | the dot product of positive vectors is non-negative, and its square is at most the product of the squared magnitudes |
| Cosine.ScoreInUnitRange | src/TextSimilarityService.php:52 | the real quotient of line 52 lies between 0 and 1 |
| Snippet.WindowStart | src/TextSimilarityService.php:124 | `max(0, position - radius)`: the window starts exactly `radius` characters before the match when there is room, and at 0 otherwise |
| Snippet.CleanWindow | src/TextSimilarityService.php:124-130 | the cleaned window is no longer than the query length plus twice the radius |
| Snippet.FindEvidenceSnippet | src/TextSimilarityService.php:116-131 | the snippet is no longer than the query length plus twice the radius |
| Snippet.MatchedText | src/TextSimilarityService.php:118 | the matched text has the query's length and equals the query up to ASCII case |
| Snippet.SnippetExactlyWhenMentioned | src/TextSimilarityService.php:118-122 | there is a snippet exactly when the text contains the query, ignoring case |
| Snippet.SnippetIsClean | src/TextSimilarityService.php:129-130 | the snippet's only ASCII whitespace is single spaces (no line feed, carriage return or tab, no two spaces in a row), and its ends are not trimmable |
| Snippet.CollapsedIsClean | src/TextSimilarityService.php:130 | collapsing ASCII whitespace runs and trimming leaves single spaces as the only ASCII whitespace, none adjacent, and untrimmable ends |
| Snippet.SnippetShowsMatch | src/TextSimilarityService.php:116-131 | for a query without whitespace or NUL, the snippet contains the matched text unchanged, in the text's own case |
| Snippet.CleanWindowShowsMatch | src/TextSimilarityService.php:124-130 | the cleaned window around a match without whitespace or NUL contains that match |
| Snippet.MatchedTextIsPlain | src/TextSimilarityService.php:118 | the matched text has no whitespace or NUL when the query has none |
| Examples.CaseAndPunctuationIgnored | tests/TextSimilarityServiceTest.php:34-44 | with the tokenizer as written, "Laravel, PHP; AWS!" and "laravel php aws" both have the tokens laravel, php, aws, so they score 1 |
| Examples.TokensPunctuated | src/TextSimilarityService.php:87-109 | for the intended tokenizer: terms each followed by a punctuation mark, with spaces between them, tokenize to the terms |
| Examples.TermsAroundSeparator | src/TextSimilarityService.php:87-109 | for the intended tokenizer: two terms around one separator character are the two tokens |
| Examples.AsWrittenKeepsNoBreakSpace | src/TextSimilarityService.php:90-92 | as written, "abc", U+00A0, "def" is one token, and that token is not a term |
| Examples.NoBreakSpaceSeparates | src/TextSimilarityService.php:90-92 | with one whitespace class on both steps, the same text gives the tokens "abc" and "def" |

## Left out

- Floating point: the square roots and the division at src/TextSimilarityService.php:52 are not computed. The score is kept as its three integer operands, and properties of the quotient are stated on them. The tests' rounding to 12 digits is not modelled.
- Double rounding: `sqrt` and the multiplication and division at line 52 round to doubles, so the returned score can differ from the real quotient in the last place. For example, a text with three distinct tokens scored against itself has `sqrt(3) * sqrt(3)` slightly below 3, and the score comes out just above 1. "Score 1" (`Cosine.IdenticalTextsScoreOne`, `Cosine.SameTokensScoreOne`) and the [0, 1] bound (`Cosine.ScoreInUnitRange`) are statements about the real quotient only.
- Unicode case mapping: `mb_strtolower` and `mb_stripos` are modelled as ASCII-only lower-casing, one character for one. Characters whose full lower-case or case-folded form holds ASCII are tokenized and matched differently in the model. Two examples:
  - the Kelvin sign U+212A lower-cases to `k`;
  - U+0130 (I with dot above) lower-cases to `i` followed by U+0307, so "abİ" gives the token "abi" in PHP and no token in the model.

  In the tokenizer, other non-ASCII letters are separators in both. The snippet search differs for every non-ASCII case pair: PHP's `mb_stripos` finds "élan" in "Élan" at 0, but `PhpStrings.Stripos` finds nothing, so `Snippet.FindEvidenceSnippet` gives `None` where the source gives a snippet.
- PCRE failures: the fallbacks `?? ''` at lines 90 and 130 and `?: []` at line 92 are reached only when PCRE fails at run time. For line 90, invalid UTF-8 in the subject is one such failure, and Dafny strings cannot hold it. The model always takes the successful path.
- Empty query: `Stripos` finds an empty query at position 0, as PHP 8's `mb_stripos` does. The snippet is then the first `2 * radius` characters, cleaned up.
- Float accumulation: the source adds up the dot product and the squared magnitudes in floats starting from `0.0` (lines 29-31). The model's integer sums equal those float sums only while every partial sum is exact in a double, below 2^53.
- Snippet.FindEvidenceSnippet: the radius is a `nat`. A negative radius, where PHP's `max` and a negative `mb_substr` length take over, is not modelled. The length `mb_strlen($query) + ($radius * 2)` at line 125 is not bounded either: when it overflows PHP's integer range it becomes a float, and under `strict_types` (line 3) passing that float to `mb_substr` at line 127 throws a `TypeError`. That happens for any match once the radius exceeds about 2^62. The model's unbounded `nat` returns a snippet there instead.
- Whitespace outside ASCII in snippets: the collapse at line 130 has no `u` flag and `trim` knows only ASCII, so U+00A0, U+3000 and other whitespace outside ASCII are neither collapsed nor trimmed. `Snippet.SnippetIsClean` speaks of ASCII whitespace only, as the source does.
- Snippet.SnippetShowsMatch: only queries without ASCII whitespace or NUL are covered. For other queries, collapsing and trimming can change the match inside the snippet, so the snippet may not contain it verbatim.
- Map iteration order: PHP walks arrays in insertion order. The accumulation loops instead pick any remaining term, so the proofs hold for every order.
- Cosine.DisjointTextsScoreZero: states `dot == 0` (or an early `Zero`) rather than the float `0.0`, since the division is not modelled.
- Cosine.ScoreInUnitRange: states `0 <= dot` and `dot * dot <= leftMagnitudeSquared * rightMagnitudeSquared`. For positive magnitudes this is the same as a real quotient in [0, 1], stated without the square roots.
- Test inputs: only the normalisation test is restated on its literal strings. The other tests are covered by the general lemmas named in the table:
  - identical text: `Cosine.IdenticalTextsScoreOne`
  - no tokens: `Cosine.ZeroExactlyWithoutTokens`
  - disjoint tokens: `Cosine.DisjointTextsScoreZero`
  - snippet not found, found and free of line breaks: `Snippet.SnippetExactlyWhenMentioned`, `Snippet.SnippetShowsMatch`, `Snippet.SnippetIsClean`

## Findings

| source | as written | input that shows it | evidently intended | confidence | as-written member | corrected member |
|---|---|---|---|---|---|---|
| src/TextSimilarityService.php:90-92 | the replacement pattern has the `u` flag, so its `\s` is Unicode whitespace. A no-break space (U+00A0) is therefore neither replaced nor split on (the split at line 92 uses ASCII `\s`), and it stays inside a token. | "abc" + U+00A0 + "def" gives one token, the whole text with the U+00A0 inside it, which is not made of letters and digits only | drop everything outside letters, digits and whitespace, so the text gives "abc" and "def" | medium, not executed | Examples.AsWrittenKeepsNoBreakSpace | Examples.NoBreakSpaceSeparates |

The same holds for every other character of the Unicode class outside ASCII, such as U+0085 (next line) and U+3000 (ideographic space).

The corrected tokenizer is `Tokenizer.Tokens`, whose replacement and split share one whitespace class. The term properties are proved about it. `Tokenizer.TokensAsWritten` keeps the source's two classes, and the methods that model the code run on it. `Tokenizer.TokensAgree` bounds the discrepancy to texts with whitespace outside ASCII.
