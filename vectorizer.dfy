/** The term-frequency vectoriser of `TextSimilarityService::vectorize`:
    tally the tokens of a text into a term-to-count map. */
module Vectorizer {
  import opened Sums
  import opened Tokenizer

  /** A term-frequency vector: term to number of occurrences. */
  type TfVector = map<string, int>

  /** The count of a term, zero when the term is absent (`?? 0`). */
  function Get(v: TfVector, t: string): int {
    if t in v then v[t] else 0
  }

  /** The map after tallying `tokens` one by one. */
  function TermFrequencies(tokens: seq<string>): TfVector {
    if tokens == [] then map[]
    else
      var v := TermFrequencies(tokens[..|tokens| - 1]);
      var last := tokens[|tokens| - 1];
      v[last := Get(v, last) + 1]
  }

  /** The keys are exactly the tokens, and each count is the number of
      occurrences of its term, so at least one. */
  lemma {:induction false} TermFrequenciesCount(tokens: seq<string>)
    ensures forall t :: t in TermFrequencies(tokens) <==> t in tokens
    ensures forall t :: t in TermFrequencies(tokens) ==>
              TermFrequencies(tokens)[t] == multiset(tokens)[t] >= 1
  {
    if tokens != [] {
      var init, last := tokens[..|tokens| - 1], tokens[|tokens| - 1];
      assert tokens == init + [last];
      TermFrequenciesCount(init);
    }
  }

  /** The term-frequency vector of a text. */
  function VectorOf(text: string): TfVector {
    TermFrequencies(TokensAsWritten(text))
  }

  /** `vectorize`: extract the tokens, return an empty map when there are
      none, otherwise tally them one by one. */
  method Vectorize(text: string) returns (v: TfVector)
    ensures v == VectorOf(text)
  {
    var tokens := ExtractTokens(text);
    if tokens == [] {
      return map[];
    }
    v := map[];
    for i := 0 to |tokens|
      invariant v == TermFrequencies(tokens[..i])
    {
      var token := tokens[i];
      TallyOneMore(tokens, i);
      v := v[token := (if token in v then v[token] else 0) + 1];
    }
    assert tokens[..|tokens|] == tokens;
  }

  /** One more token adds one to its count, or enters it with count one. */
  lemma TallyOneMore(tokens: seq<string>, i: nat)
    requires i < |tokens|
    ensures TermFrequencies(tokens[..i + 1])
         == TermFrequencies(tokens[..i])[tokens[i] := Get(TermFrequencies(tokens[..i]), tokens[i]) + 1]
  {
    assert tokens[..i + 1][..i] == tokens[..i];
  }

  /** The counts add up to the number of tokens. */
  lemma {:induction false} CountsSumToLength(tokens: seq<string>)
    ensures Sum(TermFrequencies(tokens).Keys, t => Get(TermFrequencies(tokens), t)) == |tokens|
  {
    if tokens != [] {
      var init, last := tokens[..|tokens| - 1], tokens[|tokens| - 1];
      var v, w := TermFrequencies(init), TermFrequencies(tokens);
      var f, g := t => Get(v, t), t => Get(w, t);
      CountsSumToLength(init);
      SumPointwise(v.Keys - {last}, f, g);
      if last in v {
        assert w.Keys == v.Keys;
        SumRemove(v.Keys, f, last);
        SumRemove(w.Keys, g, last);
      } else {
        assert w.Keys == v.Keys + {last};
        assert v.Keys - {last} == v.Keys;
        SumAdd(v.Keys, g, last);
      }
    }
  }
}
