/** The integer part of `TextSimilarityService::cosineSimilarity`. The
    score is dot / (sqrt(leftMagnitudeSquared) * sqrt(rightMagnitudeSquared));
    the model stops before the square roots and the division and keeps the
    three integers, so "score 0" reads `dot == 0` and "score 1" reads
    `dot * dot == leftMagnitudeSquared * rightMagnitudeSquared`. */
module Cosine {
  import opened Sums
  import opened Tokenizer
  import opened Vectorizer

  /** `Zero` is the early `return 0.0`; `Ratio` holds the operands of the
      final division. */
  datatype Score = Zero | Ratio(dot: int, leftMagnitudeSquared: int, rightMagnitudeSquared: int)

  /** The term-wise product of two vectors. */
  function Products(l: TfVector, r: TfVector): string -> int {
    t => Get(l, t) * Get(r, t)
  }

  /** The dot product, summed over the left vector's terms as the first loop
      does; a term missing on the right contributes nothing. */
  ghost function Dot(l: TfVector, r: TfVector): int {
    Sum(l.Keys, Products(l, r))
  }

  /** The squared magnitude: the sum of the squared counts. */
  ghost function SquaredMagnitude(v: TfVector): int {
    Sum(v.Keys, Products(v, v))
  }

  /** What `cosineSimilarity` computes from the two vectors: `Zero` when
      either is empty, otherwise the three sums, unless the guard against a
      non-positive magnitude fires. */
  ghost function ScoreOf(lv: TfVector, rv: TfVector): Score {
    if lv == map[] || rv == map[] then Zero
    else
      var dot, lm, rm := Dot(lv, rv), SquaredMagnitude(lv), SquaredMagnitude(rv);
      if lm <= 0 || rm <= 0 then Zero
      else Ratio(dot, lm, rm)
  }

  /** The score of two texts. */
  ghost function CosineScore(leftText: string, rightText: string): Score {
    ScoreOf(VectorOf(leftText), VectorOf(rightText))
  }

  /** For vectors of positive counts the magnitude guard never fires: the
      score is `Zero` exactly when a vector is empty, and otherwise both
      magnitudes are positive. */
  lemma GuardNeverFires(lv: TfVector, rv: TfVector)
    requires Positive(lv) && Positive(rv)
    ensures ScoreOf(lv, rv).Zero? <==> lv == map[] || rv == map[]
    ensures ScoreOf(lv, rv).Ratio? ==>
      ScoreOf(lv, rv).leftMagnitudeSquared > 0 && ScoreOf(lv, rv).rightMagnitudeSquared > 0
  {
    MagnitudePositive(lv);
    MagnitudePositive(rv);
  }

  /** A text's vector has positive counts, and is empty exactly when the
      text has no tokens. */
  lemma VectorOfText(text: string)
    ensures Positive(VectorOf(text))
    ensures VectorOf(text) == map[] <==> TokensAsWritten(text) == []
  {
    var tokens := TokensAsWritten(text);
    TermFrequenciesCount(tokens);
    if tokens != [] {
      assert tokens[0] in VectorOf(text);
    }
  }

  /** `cosineSimilarity` returns 0 before computing anything exactly when
      one of the texts has no tokens; otherwise it reaches the division with
      positive magnitudes. */
  lemma ZeroExactlyWithoutTokens(leftText: string, rightText: string)
    ensures CosineScore(leftText, rightText).Zero? <==> TokensAsWritten(leftText) == [] || TokensAsWritten(rightText) == []
    ensures CosineScore(leftText, rightText).Ratio? ==>
      CosineScore(leftText, rightText).leftMagnitudeSquared > 0 &&
      CosineScore(leftText, rightText).rightMagnitudeSquared > 0
  {
    VectorOfText(leftText);
    VectorOfText(rightText);
    GuardNeverFires(VectorOf(leftText), VectorOf(rightText));
  }

  /** Every count is at least one. */
  ghost predicate Positive(v: TfVector) {
    forall t :: t in v ==> v[t] >= 1
  }

  /** A non-empty vector of positive counts has a squared magnitude of at
      least its number of terms. */
  lemma MagnitudePositive(v: TfVector)
    requires Positive(v)
    ensures SquaredMagnitude(v) >= |v.Keys|
    ensures v != map[] ==> SquaredMagnitude(v) > 0
  {
    forall t | t in v.Keys
      ensures Products(v, v)(t) >= 1
    {
      assert v[t] * v[t] >= v[t];
    }
    SumAtLeast(v.Keys, Products(v, v), 1);
    if v != map[] {
      var t :| t in v;
      assert t in v.Keys;
    }
  }

  /** `cosineSimilarity`: the early return for an empty vector, the two
      accumulation loops, the guard, and the operands of the division. */
  method CosineSimilarity(leftText: string, rightText: string) returns (s: Score)
    ensures s == CosineScore(leftText, rightText)
  {
    var leftVector := Vectorize(leftText);
    var rightVector := Vectorize(rightText);
    s := Combine(leftVector, rightVector);
  }

  /** The body of `cosineSimilarity` after vectorizing. */
  method Combine(leftVector: TfVector, rightVector: TfVector) returns (s: Score)
    ensures s == ScoreOf(leftVector, rightVector)
  {
    if leftVector == map[] || rightVector == map[] {
      return Zero;
    }
    var dotProduct, leftMagnitudeSquared := DotAndMagnitude(leftVector, rightVector);
    var rightMagnitudeSquared := MagnitudeOf(rightVector);
    if leftMagnitudeSquared <= 0 || rightMagnitudeSquared <= 0 {
      return Zero;
    }
    s := Ratio(dotProduct, leftMagnitudeSquared, rightMagnitudeSquared);
  }

  /** The first loop: over the left vector's terms, add the squared count to
      the left magnitude and, for a term the right vector also has, the
      product of the counts to the dot product. PHP visits the terms in
      insertion order; here the loop takes them in any order, so the result
      holds for every order. */
  method DotAndMagnitude(leftVector: TfVector, rightVector: TfVector)
    returns (dotProduct: int, leftMagnitudeSquared: int)
    ensures dotProduct == Dot(leftVector, rightVector)
    ensures leftMagnitudeSquared == SquaredMagnitude(leftVector)
  {
    dotProduct, leftMagnitudeSquared := 0, 0;
    var pending := leftVector.Keys;
    while pending != {}
      invariant pending <= leftVector.Keys
      invariant leftMagnitudeSquared == Sum(leftVector.Keys - pending, Products(leftVector, leftVector))
      invariant dotProduct == Sum(leftVector.Keys - pending, Products(leftVector, rightVector))
      decreases pending
    {
      var term :| term in pending;
      var weight := leftVector[term];
      leftMagnitudeSquared := leftMagnitudeSquared + weight * weight;
      if term in rightVector {
        dotProduct := dotProduct + weight * rightVector[term];
      }
      var seen := leftVector.Keys - pending;
      SumAdd(seen, Products(leftVector, leftVector), term);
      SumAdd(seen, Products(leftVector, rightVector), term);
      assert leftVector.Keys - (pending - {term}) == seen + {term};
      pending := pending - {term};
    }
    assert leftVector.Keys - pending == leftVector.Keys;
  }

  /** The second loop: the squared magnitude of the right vector. */
  method MagnitudeOf(v: TfVector) returns (magnitudeSquared: int)
    ensures magnitudeSquared == SquaredMagnitude(v)
  {
    magnitudeSquared := 0;
    var pending := v.Keys;
    while pending != {}
      invariant pending <= v.Keys
      invariant magnitudeSquared == Sum(v.Keys - pending, Products(v, v))
      decreases pending
    {
      var term :| term in pending;
      var weight := v[term];
      magnitudeSquared := magnitudeSquared + weight * weight;
      var seen := v.Keys - pending;
      SumAdd(seen, Products(v, v), term);
      assert v.Keys - (pending - {term}) == seen + {term};
      pending := pending - {term};
    }
    assert v.Keys - pending == v.Keys;
  }

  /** The score with the two sides exchanged: the same dot product with the
      magnitudes swapped, which gives the same quotient. */
  function Mirror(s: Score): Score {
    match s
    case Zero => Zero
    case Ratio(dot, lm, rm) => Ratio(dot, rm, lm)
  }

  /** The dot product does not depend on which side the first loop walks. */
  lemma DotSymmetric(l: TfVector, r: TfVector)
    ensures Dot(l, r) == Dot(r, l)
  {
    var both := l.Keys * r.Keys;
    SumRestrict(l.Keys, both, Products(l, r));
    SumRestrict(r.Keys, both, Products(r, l));
    SumPointwise(both, Products(l, r), Products(r, l));
  }

  /** Exchanging the texts exchanges the magnitudes and keeps the dot
      product, so the similarity is symmetric. */
  lemma ScoreSymmetric(leftText: string, rightText: string)
    ensures CosineScore(leftText, rightText) == Mirror(CosineScore(rightText, leftText))
  {
    DotSymmetric(VectorOf(leftText), VectorOf(rightText));
  }

  /** Vectors without a shared term have a zero dot product. */
  lemma DisjointDotZero(l: TfVector, r: TfVector)
    requires l.Keys !! r.Keys
    ensures Dot(l, r) == 0
  {
    SumRestrict(l.Keys, {}, Products(l, r));
  }

  /** Texts without a shared token score 0: either a side has no tokens, or
      the dot product is zero. */
  lemma DisjointTextsScoreZero(leftText: string, rightText: string)
    requires forall t :: t in TokensAsWritten(leftText) ==> t !in TokensAsWritten(rightText)
    ensures CosineScore(leftText, rightText).Zero? || CosineScore(leftText, rightText).dot == 0
  {
    TermFrequenciesCount(TokensAsWritten(leftText));
    TermFrequenciesCount(TokensAsWritten(rightText));
    DisjointDotZero(VectorOf(leftText), VectorOf(rightText));
  }

  /** A text with tokens scores 1 against itself: the dot product equals
      both squared magnitudes, so the quotient is dot / dot. */
  lemma IdenticalTextsScoreOne(text: string)
    ensures TokensAsWritten(text) != [] <==> CosineScore(text, text).Ratio?
    ensures CosineScore(text, text).Ratio? ==>
      CosineScore(text, text).dot == CosineScore(text, text).leftMagnitudeSquared
                                  == CosineScore(text, text).rightMagnitudeSquared
  {
    ZeroExactlyWithoutTokens(text, text);
  }

  /** One induction step of Cauchy-Schwarz: adding the term x * y to a dot
      product c bounded by a * b keeps the bound. */
  lemma CauchySchwarzStep(x: int, y: int, a: int, b: int, c: int)
    requires a >= 0 && b >= 0 && c * c <= a * b
    ensures (x * y + c) * (x * y + c) <= (x * x + a) * (y * y + b)
  {
    CrossTerm(x, y, a, b, c);
    assert (x * y + c) * (x * y + c) == (x * y) * (x * y) + 2 * x * y * c + c * c;
    assert (x * x + a) * (y * y + b) == (x * y) * (x * y) + x * x * b + y * y * a + a * b;
  }

  /** The cross term of the step: 2xyc <= x^2 b + y^2 a. */
  lemma CrossTerm(x: int, y: int, a: int, b: int, c: int)
    requires a >= 0 && b >= 0 && c * c <= a * b
    ensures 2 * x * y * c <= x * x * b + y * y * a
  {
    var xx, yy, xy := x * x, y * y, x * y;
    assert xx >= 0 && yy >= 0;
    var p := xx * b + yy * a;
    var q := 2 * xy * c;
    var d := xx * b - yy * a;
    assert xx * b >= 0 && yy * a >= 0;
    assert p * p - q * q == d * d + 4 * (xy * xy) * (a * b - c * c) by {
      assert xy * xy == xx * yy;
    }
    assert (xy * xy) * (a * b - c * c) >= 0;
    SquareOrder(p, q);
    assert 2 * x * y * c == q;
  }

  lemma SquareOrder(p: int, q: int)
    requires p >= 0 && p * p >= q * q
    ensures q <= p
  {
    assert (p - q) * (p + q) == p * p - q * q;
  }

  /** The sum of squares over any set of terms is non-negative. */
  lemma SquaresNonNegative(keys: set<string>, v: TfVector)
    ensures Sum(keys, Products(v, v)) >= 0
  {
    forall t | t in keys
      ensures Products(v, v)(t) >= 0
    {
    }
    SumAtLeast(keys, Products(v, v), 0);
  }

  /** The Cauchy-Schwarz inequality for sums over a set of terms. */
  lemma {:induction false} CauchySchwarz(keys: set<string>, l: TfVector, r: TfVector)
    ensures Sum(keys, Products(l, r)) * Sum(keys, Products(l, r))
         <= Sum(keys, Products(l, l)) * Sum(keys, Products(r, r))
    decreases keys
  {
    if keys != {} {
      var k :| k in keys;
      var rest := keys - {k};
      SumRemove(keys, Products(l, r), k);
      SumRemove(keys, Products(l, l), k);
      SumRemove(keys, Products(r, r), k);
      CauchySchwarz(rest, l, r);
      SquaresNonNegative(rest, l);
      SquaresNonNegative(rest, r);
      var x, y := Get(l, k), Get(r, k);
      var a, b, c := Sum(rest, Products(l, l)), Sum(rest, Products(r, r)), Sum(rest, Products(l, r));
      assert Sum(keys, Products(l, r)) == x * y + c;
      assert Sum(keys, Products(l, l)) == x * x + a;
      assert Sum(keys, Products(r, r)) == y * y + b;
      CauchySchwarzStep(x, y, a, b, c);
    }
  }

  /** For vectors of positive counts the dot product is non-negative and its
      square is at most the product of the squared magnitudes. */
  lemma RatioInUnitRange(lv: TfVector, rv: TfVector)
    requires Positive(lv) && Positive(rv)
    ensures 0 <= Dot(lv, rv)
    ensures Dot(lv, rv) * Dot(lv, rv) <= SquaredMagnitude(lv) * SquaredMagnitude(rv)
  {
    var all := lv.Keys + rv.Keys;
    SumRestrict(all, lv.Keys, Products(lv, rv));
    SumRestrict(all, lv.Keys, Products(lv, lv));
    SumRestrict(all, rv.Keys, Products(rv, rv));
    CauchySchwarz(all, lv, rv);
    forall t | t in lv.Keys
      ensures Products(lv, rv)(t) >= 0
    {
    }
    SumAtLeast(lv.Keys, Products(lv, rv), 0);
  }

  /** The score lies in [0, 1]. */
  lemma ScoreInUnitRange(leftText: string, rightText: string)
    ensures CosineScore(leftText, rightText).Ratio? ==>
      0 <= CosineScore(leftText, rightText).dot &&
      CosineScore(leftText, rightText).dot * CosineScore(leftText, rightText).dot <=
      CosineScore(leftText, rightText).leftMagnitudeSquared * CosineScore(leftText, rightText).rightMagnitudeSquared
  {
    VectorOfText(leftText);
    VectorOfText(rightText);
    RatioInUnitRange(VectorOf(leftText), VectorOf(rightText));
  }

  /** Texts with the same tokens score 1 against each other. */
  lemma SameTokensScoreOne(leftText: string, rightText: string)
    requires TokensAsWritten(leftText) == TokensAsWritten(rightText) != []
    ensures var s := CosineScore(leftText, rightText);
      s.Ratio? && s.dot == s.leftMagnitudeSquared == s.rightMagnitudeSquared
  {
    IdenticalTextsScoreOne(leftText);
  }
}
