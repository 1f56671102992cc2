/**
 * The similarity cascade of the search engine
 * (`RulesSearcher._calculate_similarity`), as a function. The first branch
 * that applies decides the score:
 *   1. the whole query occurs in the text: 1.0;
 *   2. two or more query words matched in order with a sequence score above 0.8: that score;
 *   3. two or more query words, all found in the text: 0.7; more than 70% of them: 0.5 + 0.2 * m / n;
 *   4. a single query word found in the text: 0.6;
 *   5. no query words at all: the character ratio alone;
 *   6. otherwise 0.15 * ratio + 0.25 * word Jaccard + 0.25 * partial (0.3 when some
 *      query word and text word contain one another, else 0).
 */
module Similarity {
  import opened Text
  import opened SequenceMatch

  /**
   * `difflib.SequenceMatcher(None, a, b).ratio()`, a library routine kept
   * abstract: any function whose values lie in [0, 1].
   */
  type Ratio = f: (string, string) -> real | forall a, b :: 0.0 <= f(a, b) <= 1.0
    witness (a: string, b: string) => 0.0

  const ExactMatchScore: real := 1.0
  const SequenceGate: real := 0.8
  const AllWordsScore: real := 0.7
  const MostWordsShare: real := 0.7
  const MostWordsBase: real := 0.5
  const MostWordsWeight: real := 0.2
  const SingleWordScore: real := 0.6
  const RatioWeight: real := 0.15
  const OverlapWeight: real := 0.25
  const PartialWeight: real := 0.25
  const PartialHit: real := 0.3

  /** `sum(1 for word in words if word in text)` */
  function WordMatches(words: seq<string>, text: string): (m: nat)
    ensures m <= |words|
  {
    if words == [] then 0
    else WordMatches(words[..|words| - 1], text) + (if Contains(text, words[|words| - 1]) then 1 else 0)
  }

  function WordSet(words: seq<string>): set<string> {
    set w | w in words
  }

  lemma {:induction false} SubsetCardinality(a: set<string>, b: set<string>)
    requires a <= b
    ensures |a| <= |b|
  {
    if a != {} {
      var x :| x in a;
      SubsetCardinality(a - {x}, b - {x});
    }
  }

  /** A non-negative factor of a non-negative product with a positive cofactor. */
  lemma NonNegativeFactor(x: real, y: real)
    requires y > 0.0 && x * y >= 0.0
    ensures x >= 0.0
  {
  }

  /** a / b lies in [0, 1] when a <= b. */
  lemma FractionBounds(a: nat, b: nat)
    requires 0 < b && a <= b
    ensures 0.0 <= a as real / b as real <= 1.0
  {
    var f := a as real / b as real;
    assert f * b as real == a as real;
    assert (1.0 - f) * b as real == b as real - a as real;
    NonNegativeFactor(f, b as real);
    NonNegativeFactor(1.0 - f, b as real);
  }

  /**
   * `len(set(q) & set(t)) / len(set(q) | set(t))`, or 0 when both are
   * empty: the Jaccard index of the two word sets, a value in [0, 1].
   */
  function WordOverlap(queryWords: seq<string>, textWords: seq<string>): (r: real)
    ensures 0.0 <= r <= 1.0
  {
    var q := WordSet(queryWords);
    var t := WordSet(textWords);
    if q + t == {} then 0.0
    else
      SubsetCardinality(q * t, q + t);
      FractionBounds(|q * t|, |q + t|);
      |q * t| as real / |q + t| as real
  }

  /** Some query word is a substring of some text word, or the other way round. */
  predicate PartialWordMatch(queryWords: seq<string>, textWords: set<string>) {
    exists q, t :: q in queryWords && t in textWords && (Contains(t, q) || Contains(q, t))
  }

  /** The weighted fallback of the last branch. */
  function Composite(ratioScore: real, overlap: real, partial: real): real {
    ratioScore * RatioWeight + overlap * OverlapWeight + partial * PartialWeight
  }

  /** `_calculate_similarity(query, text)`, with `ratio` standing for difflib's ratio. */
  function Score(query: string, text: string, ratio: Ratio): (r: real)
    ensures 0.0 <= r <= 1.0
  {
    if Contains(text, query) then ExactMatchScore
    else
      var queryWords := Split(query);
      var sequenceScore := SequenceScore(queryWords, Split(text));
      SequenceScoreValues(queryWords, Split(text));
      if |queryWords| > 1 && sequenceScore > SequenceGate then sequenceScore
      else
        var wordMatches := WordMatches(queryWords, text);
        if |queryWords| > 1 && wordMatches == |queryWords| then AllWordsScore
        else if |queryWords| > 1 && wordMatches as real > |queryWords| as real * MostWordsShare then
          FractionBounds(wordMatches, |queryWords|);
          MostWordsBase + (wordMatches as real / |queryWords| as real) * MostWordsWeight
        else if |queryWords| == 1 && Contains(text, queryWords[0]) then SingleWordScore
        else if queryWords == [] then ratio(query, text)
        else
          var partial := if PartialWordMatch(queryWords, WordSet(Split(text))) then PartialHit else 0.0;
          Composite(ratio(query, text), WordOverlap(queryWords, Split(text)), partial)
  }

  // ----- lemmas -----

  /** A query that occurs in the text scores 1.0, whatever else holds. */
  lemma ExactSubstringScoresOne(query: string, text: string, ratio: Ratio)
    requires Contains(text, query)
    ensures Score(query, text, ratio) == 1.0
  {
  }

  /** Every text is a perfect match for itself. */
  lemma SelfScoreIsOne(text: string, ratio: Ratio)
    ensures Score(text, text, ratio) == 1.0
  {
    ContainsSelf(text);
  }

  /** A factor of a positive product with a positive cofactor is positive. */
  lemma PositiveFactor(x: real, y: real)
    requires y > 0.0 && x * y > 0.0
    ensures x > 0.0
  {
  }

  /** For m of n words with 0.7 n < m < n, the "most words" score lies in (0.64, 0.7). */
  lemma MostWordsRange(m: nat, n: nat)
    requires 0 < n && m < n && m as real > n as real * MostWordsShare
    ensures 0.64 < MostWordsBase + (m as real / n as real) * MostWordsWeight < 0.7
  {
    var x := n as real;
    var y := m as real;
    var f := y / x;
    assert f * x == y;
    var above := f - MostWordsShare;
    var below := 1.0 - f;
    assert above * x == y - MostWordsShare * x;
    assert above * x > 0.0;
    PositiveFactor(above, x);
    assert below * x == x - y;
    assert below * x > 0.0;
    PositiveFactor(below, x);
  }

  /**
   * For a query with at least one word, the cascade yields one of the
   * branch values: 1.0 (substring), 0.9 (gapless sequence), 0.7 (all
   * words), a value in (0.64, 0.7) (most words), 0.6 (the single word) or a
   * fallback value of at most 0.475. So a score above 0.9 means the query
   * occurs in the text, and the fallback never reaches any structural branch.
   */
  lemma ScoreValues(query: string, text: string, ratio: Ratio)
    requires Split(query) != []
    ensures var r := Score(query, text, ratio);
      && (r == 1.0 || r == 0.9 || r == 0.7 || 0.64 < r < 0.7 || r == 0.6 || 0.0 <= r <= 0.475)
      && (r > 0.9 <==> Contains(text, query))
  {
    var queryWords := Split(query);
    SequenceScoreValues(queryWords, Split(text));
    var m := WordMatches(queryWords, text);
    var n := |queryWords|;
    if !Contains(text, query) && n > 1 && m != n && m as real > n as real * MostWordsShare {
      if SequenceScore(queryWords, Split(text)) <= SequenceGate {
        MostWordsRange(m, n);
      }
    }
  }
}
