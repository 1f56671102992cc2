/**
 * The ordered-word-sequence score of the search engine
 * (`RulesSearcher._calculate_sequence_similarity`), as functions.
 *
 * For every start position `i` of the text words, the query words are
 * matched one after another; each is looked up in a small window
 * `[last - 2, last + 3)` around the position `last` after the previous
 * match (clamped to the text), the first equal word in the window wins,
 * and the distance skipped past `last` is counted as gaps. A start at which
 * every query word is found scores `0.9 - min(0.3, 0.1 * gaps)`; the result
 * is the best start's score, or 0 when no start matches all words.
 */
module SequenceMatch {
  import opened Wrappers

  const FullSequenceScore: real := 0.9
  const GapStep: real := 0.1
  const MaxGapPenalty: real := 0.3

  /** `max(0, last - 2)` */
  function WindowStart(last: nat): nat {
    if last >= 2 then last - 2 else 0
  }

  /** `min(n, last + 3)` */
  function WindowEnd(last: nat, n: nat): nat {
    if last + 3 <= n then last + 3 else n
  }

  /** `max(0, k - last - 1)`: the words skipped between `last` and the match at `k`. */
  function Gap(k: nat, last: nat): nat {
    if k > last + 1 then k - last - 1 else 0
  }

  /** `min(0.3, gaps * 0.1)` */
  function GapPenalty(gaps: nat): (p: real)
    ensures 0.0 <= p <= MaxGapPenalty
    ensures p == 0.0 <==> gaps == 0
  {
    if gaps as real * GapStep < MaxGapPenalty then gaps as real * GapStep else MaxGapPenalty
  }

  /** The first index in `[k, hi)` whose text word equals `w`. */
  function FindInWindow(w: string, textWords: seq<string>, k: nat, hi: nat): (r: Option<nat>)
    requires hi <= |textWords|
    ensures r.Some? ==> k <= r.value < hi && textWords[r.value] == w
    decreases hi - k
  {
    if k >= hi then None
    else if textWords[k] == w then Some(k)
    else FindInWindow(w, textWords, k + 1, hi)
  }

  /**
   * Matching the query words from index `j` on, the previous match having
   * left the position at `last` and `gaps` gaps counted so far: the total
   * gap count once every word is found, `None` as soon as a word is not
   * found in its window.
   */
  function MatchFrom(queryWords: seq<string>, textWords: seq<string>, j: nat, last: nat, gaps: nat): (r: Option<nat>)
    requires j <= |queryWords|
    ensures r.Some? ==> r.value >= gaps
    ensures r.Some? ==> forall m :: j <= m < |queryWords| ==> queryWords[m] in textWords
    decreases |queryWords| - j
  {
    if j == |queryWords| then Some(gaps)
    else
      var found := FindInWindow(queryWords[j], textWords, WindowStart(last), WindowEnd(last, |textWords|));
      if found.None? then None
      else MatchFrom(queryWords, textWords, j + 1, found.value + 1, gaps + Gap(found.value, last))
  }

  /** One step of the match: the next query word is found at `k`, or the match fails. */
  lemma MatchFromStep(queryWords: seq<string>, textWords: seq<string>, j: nat, last: nat, gaps: nat)
    requires j < |queryWords|
    ensures var found := FindInWindow(queryWords[j], textWords, WindowStart(last), WindowEnd(last, |textWords|));
      MatchFrom(queryWords, textWords, j, last, gaps)
        == if found.None? then None
           else MatchFrom(queryWords, textWords, j + 1, found.value + 1, gaps + Gap(found.value, last))
  {
  }

  /** The gaps of a full match from start position `i`, or `None`. */
  function MatchGaps(queryWords: seq<string>, textWords: seq<string>, i: nat): Option<nat> {
    MatchFrom(queryWords, textWords, 0, i, 0)
  }

  /** The score of start position `i`: 0 unless every query word is matched from `i`. */
  function StartScore(queryWords: seq<string>, textWords: seq<string>, i: nat): real {
    match MatchGaps(queryWords, textWords, i)
    case None => 0.0
    case Some(gaps) => FullSequenceScore - GapPenalty(gaps)
  }

  function Max(a: real, b: real): real {
    if a >= b then a else b
  }

  /**
   * The best score over the start positions `0 .. n - 1`: no start scores
   * more, and it is the score of one of them, or 0 when none scores.
   */
  function BestStart(queryWords: seq<string>, textWords: seq<string>, n: nat): (r: real)
    ensures forall i :: 0 <= i < n ==> StartScore(queryWords, textWords, i) <= r
    ensures r == 0.0 || exists i :: 0 <= i < n && r == StartScore(queryWords, textWords, i)
  {
    if n == 0 then 0.0
    else Max(BestStart(queryWords, textWords, n - 1), StartScore(queryWords, textWords, n - 1))
  }

  /** The number of start positions: `range(len(text_words) - len(query_words) + 1)`. */
  function StartCount(queryWords: seq<string>, textWords: seq<string>): nat {
    if |textWords| + 1 >= |queryWords| then |textWords| + 1 - |queryWords| else 0
  }

  /** A start position from which every query word is matched with no gap. */
  ghost predicate GaplessStart(queryWords: seq<string>, textWords: seq<string>, n: nat) {
    exists i :: 0 <= i < n && MatchGaps(queryWords, textWords, i) == Some(0)
  }

  /**
   * `_calculate_sequence_similarity`: 0 for fewer than two query words,
   * otherwise the best start's score.
   */
  function SequenceScore(queryWords: seq<string>, textWords: seq<string>): (r: real)
    ensures |queryWords| < 2 ==> r == 0.0
  {
    if |queryWords| < 2 then 0.0
    else BestStart(queryWords, textWords, StartCount(queryWords, textWords))
  }

  // ----- lemmas -----

  /**
   * The window search finds the first index of `[k, hi)` holding `w`: no
   * earlier index holds it, and it finds nothing exactly when no index of
   * the window holds it.
   */
  lemma {:induction false} FindInWindowFirst(w: string, textWords: seq<string>, k: nat, hi: nat)
    requires hi <= |textWords|
    ensures var r := FindInWindow(w, textWords, k, hi);
      && (r.Some? ==> forall j :: k <= j < r.value ==> textWords[j] != w)
      && (r.None? <==> forall j :: k <= j < hi ==> textWords[j] != w)
    decreases hi - k
  {
    if k < hi && textWords[k] != w {
      FindInWindowFirst(w, textWords, k + 1, hi);
    }
  }

  /** More gaps never cost less. */
  lemma GapPenaltyMonotone(a: nat, b: nat)
    requires a <= b
    ensures GapPenalty(a) <= GapPenalty(b)
  {
    assert a as real * GapStep <= b as real * GapStep;
  }

  /**
   * The best score over `n` starts is 0 or lies in [0.6, 0.9], and it is
   * above 0.8 exactly when some start matches with no gap, in which case it
   * is exactly 0.9.
   */
  lemma {:induction false} BestStartValues(queryWords: seq<string>, textWords: seq<string>, n: nat)
    ensures var r := BestStart(queryWords, textWords, n);
      && (r == 0.0 || 0.6 <= r <= 0.9)
      && (r > 0.8 <==> GaplessStart(queryWords, textWords, n))
      && (r > 0.8 ==> r == 0.9)
  {
    if n > 0 {
      BestStartValues(queryWords, textWords, n - 1);
      var m := MatchGaps(queryWords, textWords, n - 1);
      if GaplessStart(queryWords, textWords, n) && !GaplessStart(queryWords, textWords, n - 1) {
        var i :| 0 <= i < n && MatchGaps(queryWords, textWords, i) == Some(0);
        assert i == n - 1;
      }
      if m.Some? && m.value == 0 {
        assert GaplessStart(queryWords, textWords, n);
      }
      if m.Some? && m.value > 0 {
        assert GapPenalty(m.value) >= GapStep;
      }
    }
  }

  /**
   * The sequence score is 0 or lies in [0.6, 0.9]; it passes the cascade's
   * "> 0.8" gate only for a gapless match, and then it is exactly 0.9.
   */
  lemma SequenceScoreValues(queryWords: seq<string>, textWords: seq<string>)
    ensures var r := SequenceScore(queryWords, textWords);
      && (r == 0.0 || 0.6 <= r <= 0.9)
      && (r > 0.8 <==> |queryWords| >= 2 && GaplessStart(queryWords, textWords, StartCount(queryWords, textWords)))
      && (r > 0.8 ==> r == 0.9)
  {
    BestStartValues(queryWords, textWords, StartCount(queryWords, textWords));
  }
}
