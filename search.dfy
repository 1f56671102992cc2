/**
 * The rule search engine (`RulesSearcher`): free-text fuzzy search over
 * both languages of every rule, the direct rule-number shortcut, the
 * keyword AND-search and the lookup by number. The corpus is a constant
 * sequence of rules given to the constructor, and difflib's ratio is a
 * constant function given with it.
 */
module Search {
  import opened Wrappers
  import opened Text
  import opened SequenceMatch
  import opened Similarity
  import opened Corpus
  import opened Ordering

  // ----- specification of the fuzzy search -----

  /**
   * The candidate entry for one rule: the better of its English and Russian
   * scores, attributed to English only when English scores strictly higher.
   */
  function FuzzyEntry(rule: Rule, query: string, ratio: Ratio): (e: SearchResult)
    ensures var eng := Score(query, Lower(rule.textEng), ratio);
      var rus := Score(query, Lower(rule.textRus), ratio);
      && e.score >= eng && e.score >= rus && (e.score == eng || e.score == rus)
      && (e.language == English <==> eng > rus)
      && (e.language != English ==> e.language == Russian && e.score == rus)
      && 0.0 <= e.score <= 1.0
      && e.ruleNumber == rule.ruleNumber && e.textEng == rule.textEng && e.textRus == rule.textRus
      && !e.isDirectRule
  {
    var eng := Score(query, Lower(rule.textEng), ratio);
    var rus := Score(query, Lower(rule.textRus), ratio);
    SearchResult(rule.ruleNumber, rule.textEng, rule.textRus, Max(eng, rus),
                 if eng > rus then English else Russian, false)
  }

  /** The candidate entries of all the rules, in corpus order. */
  function FuzzyEntries(rules: seq<Rule>, query: string, ratio: Ratio): seq<SearchResult> {
    seq(|rules|, i requires 0 <= i < |rules| => FuzzyEntry(rules[i], query, ratio))
  }

  /** The entries, in their order, whose score reaches the threshold. */
  function AboveThreshold(entries: seq<SearchResult>, threshold: real): seq<SearchResult> {
    if entries == [] then []
    else
      var earlier := AboveThreshold(entries[..|entries| - 1], threshold);
      var e := entries[|entries| - 1];
      if e.score >= threshold then earlier + [e] else earlier
  }

  /** The entries of the rules, in corpus order, that reach the threshold. */
  function FuzzyCandidates(rules: seq<Rule>, query: string, threshold: real, ratio: Ratio): seq<SearchResult> {
    AboveThreshold(FuzzyEntries(rules, query, ratio), threshold)
  }

  /** One more entry is appended exactly when it reaches the threshold. */
  lemma AboveThresholdStep(entries: seq<SearchResult>, i: nat, threshold: real)
    requires i < |entries|
    ensures AboveThreshold(entries[..i + 1], threshold)
         == AboveThreshold(entries[..i], threshold) + (if entries[i].score >= threshold then [entries[i]] else [])
  {
    assert entries[..i + 1][..i] == entries[..i];
  }

  /** The answer to a query that is a bare rule number. */
  function DirectResults(rules: seq<Rule>, n: int): seq<SearchResult> {
    match FindRule(rules, n)
    case None => []
    case Some(rule) => [SearchResult(rule.ruleNumber, rule.textEng, rule.textRus, 1.0, DirectRuleNumber, true)]
  }

  /** What `fuzzy_search(query, threshold, max_results)` returns: never more entries than there are rules. */
  function FuzzyResults(rules: seq<Rule>, query: string, threshold: real, maxResults: int, ratio: Ratio): (r: seq<SearchResult>)
    ensures |r| <= |rules|
  {
    if Strip(query) == [] then []
    else if IsDigits(Strip(query)) then DirectResults(rules, DecimalValue(Strip(query)))
    else
      var c := FuzzyCandidates(rules, Strip(Lower(query)), threshold, ratio);
      AboveThresholdExact(FuzzyEntries(rules, Strip(Lower(query)), ratio), threshold);
      assert |SortByScore(c)| == |multiset(c)|;
      Ranked(c, maxResults)
  }

  // ----- specification of the keyword search -----

  /** The lower-cased keyword occurs in the (lower-cased) English or Russian text. */
  predicate KeywordPresent(keyword: string, eng: string, rus: string) {
    Contains(eng, Lower(keyword)) || Contains(rus, Lower(keyword))
  }

  /** Every keyword is present, each in either language. */
  predicate AllKeywordsPresent(keywords: seq<string>, eng: string, rus: string) {
    forall i :: 0 <= i < |keywords| ==> KeywordPresent(keywords[i], eng, rus)
  }

  /** The sum over the keywords of the better of the two language scores. */
  function KeywordTotal(keywords: seq<string>, eng: string, rus: string, ratio: Ratio): real {
    if keywords == [] then 0.0
    else
      var keyword := Lower(keywords[|keywords| - 1]);
      KeywordTotal(keywords[..|keywords| - 1], eng, rus, ratio)
        + Max(Score(keyword, eng, ratio), Score(keyword, rus, ratio))
  }

  /** The entries, in corpus order, of the rules holding every keyword whose average score reaches the threshold. */
  function KeywordCandidates(rules: seq<Rule>, keywords: seq<string>, threshold: real, ratio: Ratio): (r: seq<SearchResult>)
    requires keywords != []
    ensures |r| <= |rules|
  {
    if rules == [] then []
    else
      var earlier := KeywordCandidates(rules[..|rules| - 1], keywords, threshold, ratio);
      var rule := rules[|rules| - 1];
      var eng := Lower(rule.textEng);
      var rus := Lower(rule.textRus);
      var average := KeywordTotal(keywords, eng, rus, ratio) / |keywords| as real;
      if AllKeywordsPresent(keywords, eng, rus) && average >= threshold then
        earlier + [SearchResult(rule.ruleNumber, rule.textEng, rule.textRus, average, Both, false)]
      else earlier
  }

  /** What `search_by_keywords(keywords, threshold)` returns: never more entries than there are rules. */
  function KeywordResults(rules: seq<Rule>, keywords: seq<string>, threshold: real, ratio: Ratio): (r: seq<SearchResult>)
    ensures |r| <= |rules|
  {
    if keywords == [] then []
    else
      var c := KeywordCandidates(rules, keywords, threshold, ratio);
      assert |SortByScore(c)| == |multiset(c)|;
      SortByScore(c)
  }

  /**
   * Reference definition of the keyword answer: the rules holding every
   * keyword, in corpus order, each with score 1.0.
   */
  function Qualifying(rules: seq<Rule>, keywords: seq<string>): seq<SearchResult> {
    if rules == [] then []
    else
      var earlier := Qualifying(rules[..|rules| - 1], keywords);
      var rule := rules[|rules| - 1];
      if AllKeywordsPresent(keywords, Lower(rule.textEng), Lower(rule.textRus)) then
        earlier + [SearchResult(rule.ruleNumber, rule.textEng, rule.textRus, 1.0, Both, false)]
      else earlier
  }

  // ----- the searcher -----

  class RulesSearcher {
    /** The corpus, in its fixed order. */
    const rules: seq<Rule>
    /** difflib's `SequenceMatcher(None, a, b).ratio()`. */
    const ratio: Ratio

    constructor (rules: seq<Rule>, ratio: Ratio)
      ensures this.rules == rules && this.ratio == ratio
    {
      this.rules := rules;
      this.ratio := ratio;
    }

    /** `fuzzy_search`: ranks the rules against a free-text query. */
    method FuzzySearch(query: string, threshold: real, maxResults: int) returns (results: seq<SearchResult>)
      ensures results == FuzzyResults(rules, query, threshold, maxResults, ratio)
    {
      if Strip(query) == [] {
        return [];
      }
      var stripped := Strip(query);
      if IsDigits(stripped) {
        var ruleNumber := DecimalValue(stripped);
        var result := SearchByRuleNumber(ruleNumber);
        if result.Some? {
          return [SearchResult(result.value.ruleNumber, result.value.textEng, result.value.textRus,
                               1.0, DirectRuleNumber, true)];
        } else {
          return [];
        }
      }
      var queryLower := Strip(Lower(query));
      results := [];
      for i := 0 to |rules|
        invariant results == AboveThreshold(FuzzyEntries(rules, queryLower, ratio)[..i], threshold)
      {
        var rule := rules[i];
        var engScore := CalculateSimilarity(queryLower, Lower(rule.textEng));
        var rusScore := CalculateSimilarity(queryLower, Lower(rule.textRus));
        var bestScore := Max(engScore, rusScore);
        var entry := SearchResult(rule.ruleNumber, rule.textEng, rule.textRus, bestScore,
                                  if engScore > rusScore then English else Russian, false);
        assert entry == FuzzyEntries(rules, queryLower, ratio)[i];
        AboveThresholdStep(FuzzyEntries(rules, queryLower, ratio), i, threshold);
        if bestScore >= threshold {
          results := results + [entry];
        }
      }
      assert FuzzyEntries(rules, queryLower, ratio)[..|rules|] == FuzzyEntries(rules, queryLower, ratio);
      results := Ranked(results, maxResults);
    }

    /** `_calculate_similarity`: the score cascade for one query and one text. */
    method CalculateSimilarity(query: string, text: string) returns (score: real)
      ensures score == Score(query, text, ratio)
    {
      if Contains(text, query) {
        return ExactMatchScore;
      }
      var queryWords := Split(query);
      if |queryWords| > 1 {
        var textWords := Split(text);
        var sequenceScore := CalculateSequenceSimilarity(queryWords, textWords);
        if sequenceScore > SequenceGate {
          return sequenceScore;
        }
      }
      if |queryWords| > 1 {
        var wordMatches := CountWordMatches(queryWords, text);
        if wordMatches == |queryWords| {
          return AllWordsScore;
        } else if wordMatches as real > |queryWords| as real * MostWordsShare {
          return MostWordsBase + (wordMatches as real / |queryWords| as real) * MostWordsWeight;
        }
      }
      if |queryWords| == 1 {
        if Contains(text, queryWords[0]) {
          return SingleWordScore;
        }
      }
      var seqScore := ratio(query, text);
      var textWords := WordSet(Split(text));
      if queryWords == [] {
        return seqScore;
      }
      var queryWordSet := WordSet(queryWords);
      var intersection := queryWordSet * textWords;
      var union := queryWordSet + textWords;
      var wordScore := if union != {} then |intersection| as real / |union| as real else 0.0;
      var partialScore := PartialScore(queryWords, textWords);
      score := seqScore * RatioWeight + wordScore * OverlapWeight + partialScore * PartialWeight;
    }

    /** The loop counting the query words found in the text, inside `_calculate_similarity`. */
    static method CountWordMatches(queryWords: seq<string>, text: string) returns (wordMatches: nat)
      ensures wordMatches == WordMatches(queryWords, text)
    {
      wordMatches := 0;
      for j := 0 to |queryWords|
        invariant wordMatches == WordMatches(queryWords[..j], text)
      {
        if Contains(text, queryWords[j]) {
          wordMatches := wordMatches + 1;
        }
        assert queryWords[..j + 1][..j] == queryWords[..j];
      }
      assert queryWords[..|queryWords|] == queryWords;
    }

    /**
     * The nested loop of `_calculate_similarity` that awards the partial
     * bonus once some query word and some text word contain one another.
     */
    static method PartialScore(queryWords: seq<string>, textWords: set<string>) returns (partialScore: real)
      ensures partialScore == if PartialWordMatch(queryWords, textWords) then PartialHit else 0.0
    {
      partialScore := 0.0;
      for j := 0 to |queryWords|
        invariant partialScore == if PartialWordMatch(queryWords[..j], textWords) then PartialHit else 0.0
      {
        var queryWord := queryWords[j];
        var unseen := textWords;
        while unseen != {}
          invariant unseen <= textWords
          invariant partialScore == if PartialWordMatch(queryWords[..j], textWords) then PartialHit else 0.0
          invariant forall t :: t in textWords - unseen ==> !(Contains(t, queryWord) || Contains(queryWord, t))
          decreases unseen
        {
          var textWord :| textWord in unseen;
          if Contains(textWord, queryWord) || Contains(queryWord, textWord) {
            partialScore := PartialHit;
            break;
          }
          unseen := unseen - {textWord};
        }
        assert queryWords[..j + 1] == queryWords[..j] + [queryWord];
      }
      assert queryWords[..|queryWords|] == queryWords;
    }

    /** `_calculate_sequence_similarity`: the best in-order match of the query words. */
    static method CalculateSequenceSimilarity(queryWords: seq<string>, textWords: seq<string>) returns (bestScore: real)
      ensures bestScore == SequenceScore(queryWords, textWords)
    {
      if |queryWords| < 2 {
        return 0.0;
      }
      bestScore := 0.0;
      var stop := |textWords| - |queryWords| + 1;
      var i := 0;
      while i < stop
        invariant 0 <= i <= (if stop >= 0 then stop else 0)
        invariant bestScore == BestStart(queryWords, textWords, i)
      {
        var matches, gaps := MatchStart(queryWords, textWords, i);
        if matches == |queryWords| {
          var gapPenalty := GapPenalty(gaps);  // min(0.3, gaps * 0.1)
          var score := FullSequenceScore - gapPenalty;
          bestScore := Max(bestScore, score);
        } else {
          BestStartValues(queryWords, textWords, i);
        }
        i := i + 1;
      }
      assert i == StartCount(queryWords, textWords);
    }

    /**
     * The inner loop of `_calculate_sequence_similarity` for the start
     * position `i`: the number of query words matched in order before the
     * first miss, and the gaps counted on the way.
     */
    static method MatchStart(queryWords: seq<string>, textWords: seq<string>, i: nat) returns (matches: nat, gaps: nat)
      requires i <= |textWords|
      ensures matches <= |queryWords|
      ensures matches == |queryWords| <==> MatchGaps(queryWords, textWords, i).Some?
      ensures matches == |queryWords| ==> MatchGaps(queryWords, textWords, i) == Some(gaps)
    {
      matches := 0;
      gaps := 0;
      var lastPos: nat := i;
      while matches < |queryWords|
        invariant matches <= |queryWords| && lastPos <= |textWords|
        invariant MatchGaps(queryWords, textWords, i) == MatchFrom(queryWords, textWords, matches, lastPos, gaps)
      {
        var windowStart := WindowStart(lastPos);  // max(0, last_pos - 2)
        var windowEnd := WindowEnd(lastPos, |textWords|);  // min(len(text_words), last_pos + 3)
        var found, k := ScanWindow(queryWords[matches], textWords, windowStart, windowEnd);
        MatchFromStep(queryWords, textWords, matches, lastPos, gaps);
        if !found {
          return;
        }
        gaps := gaps + Gap(k, lastPos);  // max(0, k - last_pos - 1)
        lastPos := k + 1;
        matches := matches + 1;
      }
    }

    /**
     * The window scan inside `_calculate_sequence_similarity`: the first
     * index in `[windowStart, windowEnd)` holding `word`, if any.
     */
    static method ScanWindow(word: string, textWords: seq<string>, windowStart: nat, windowEnd: nat)
      returns (found: bool, k: nat)
      requires windowEnd <= |textWords|
      ensures found == FindInWindow(word, textWords, windowStart, windowEnd).Some?
      ensures found ==> k == FindInWindow(word, textWords, windowStart, windowEnd).value
    {
      k := windowStart;
      while k < windowEnd
        invariant windowStart <= k
        invariant FindInWindow(word, textWords, windowStart, windowEnd) == FindInWindow(word, textWords, k, windowEnd)
      {
        if textWords[k] == word {
          return true, k;
        }
        k := k + 1;
      }
      found := false;
    }

    /** `search_by_rule_number`: the first rule with the number, in corpus order. */
    method SearchByRuleNumber(ruleNumber: int) returns (rule: Option<Rule>)
      ensures rule == FindRule(rules, ruleNumber)
    {
      for i := 0 to |rules|
        invariant forall j :: 0 <= j < i ==> rules[j].ruleNumber != ruleNumber
      {
        if rules[i].ruleNumber == ruleNumber {
          return Some(rules[i]);
        }
      }
      return None;
    }

    /** `search_by_keywords`: rules holding every keyword, scored by the average keyword score. */
    method SearchByKeywords(keywords: seq<string>, threshold: real) returns (results: seq<SearchResult>)
      ensures results == KeywordResults(rules, keywords, threshold, ratio)
    {
      if keywords == [] {
        return [];
      }
      results := [];
      for i := 0 to |rules|
        invariant results == KeywordCandidates(rules[..i], keywords, threshold, ratio)
      {
        var rule := rules[i];
        var allPresent, avgScore := ScoreRule(rule, keywords);
        if allPresent {
          if avgScore >= threshold {
            results := results + [SearchResult(rule.ruleNumber, rule.textEng, rule.textRus, avgScore, Both, false)];
          }
        }
        assert rules[..i + 1][..i] == rules[..i];
      }
      assert rules[..|rules|] == rules;
      results := SortByScore(results);
    }

    /**
     * The body of the rule loop of `search_by_keywords`: whether every
     * keyword occurs in the rule, and if so the average keyword score.
     */
    method ScoreRule(rule: Rule, keywords: seq<string>) returns (allPresent: bool, avgScore: real)
      requires keywords != []
      ensures allPresent == AllKeywordsPresent(keywords, Lower(rule.textEng), Lower(rule.textRus))
      ensures allPresent ==> avgScore == KeywordTotal(keywords, Lower(rule.textEng), Lower(rule.textRus), ratio) / |keywords| as real
    {
      var engText := Lower(rule.textEng);
      var rusText := Lower(rule.textRus);
      allPresent := true;
      for j := 0 to |keywords|
        invariant allPresent
        invariant forall m :: 0 <= m < j ==> KeywordPresent(keywords[m], engText, rusText)
      {
        var keywordLower := Lower(keywords[j]);
        if !Contains(engText, keywordLower) && !Contains(rusText, keywordLower) {
          allPresent := false;
          break;
        }
      }
      avgScore := 0.0;
      if allPresent {
        var totalScore := 0.0;
        for j := 0 to |keywords|
          invariant totalScore == KeywordTotal(keywords[..j], engText, rusText, ratio)
        {
          var keywordLower := Lower(keywords[j]);
          var engScore := CalculateSimilarity(keywordLower, engText);
          var rusScore := CalculateSimilarity(keywordLower, rusText);
          totalScore := totalScore + Max(engScore, rusScore);
          assert keywords[..j + 1][..j] == keywords[..j];
        }
        assert keywords[..|keywords|] == keywords;
        avgScore := totalScore / |keywords| as real;
      }
    }
  }

  // ----- lemmas about the fuzzy search -----

  /** A blank query finds nothing; a bare number bypasses scoring, threshold and limit. */
  lemma DirectNumberQuery(rules: seq<Rule>, query: string, threshold: real, maxResults: int, ratio: Ratio,
                          otherThreshold: real, otherMax: int)
    ensures IsBlank(query) ==> FuzzyResults(rules, query, threshold, maxResults, ratio) == []
    ensures !IsBlank(query) && IsDigits(Strip(query)) ==>
      var r := FuzzyResults(rules, query, threshold, maxResults, ratio);
      var n := DecimalValue(Strip(query));
      && r == FuzzyResults(rules, query, otherThreshold, otherMax, ratio)
      && |r| <= 1
      && (r == [] <==> forall j :: 0 <= j < |rules| ==> rules[j].ruleNumber != n)
      && (r != [] ==> r[0].ruleNumber == n && r[0].score == 1.0
                      && r[0].language == DirectRuleNumber && r[0].isDirectRule)
      && (r != [] ==> r[0].textEng == FindRule(rules, n).value.textEng
                      && r[0].textRus == FindRule(rules, n).value.textRus)
  {
  }

  /**
   * The filter keeps exactly the entries that reach the threshold: each kept
   * entry is one of the entries and reaches it, and every entry that
   * reaches it is kept.
   */
  lemma {:induction false} AboveThresholdExact(entries: seq<SearchResult>, threshold: real)
    ensures var c := AboveThreshold(entries, threshold);
      && |c| <= |entries|
      && (forall i :: 0 <= i < |c| ==> c[i].score >= threshold && c[i] in entries)
      && (forall k :: 0 <= k < |entries| && entries[k].score >= threshold ==> entries[k] in c)
  {
    if entries != [] {
      var init := entries[..|entries| - 1];
      AboveThresholdExact(init, threshold);
      forall k | 0 <= k < |entries| && entries[k].score >= threshold
        ensures entries[k] in AboveThreshold(entries, threshold)
      {
        if k < |init| {
          assert init[k] == entries[k];
        }
      }
    }
  }

  /**
   * The answer does not depend on the query's case or surrounding
   * whitespace: a query and its `query.lower().strip()` get the same answer,
   * whether blank, a rule number or free text.
   */
  lemma FuzzyResultsNormalised(rules: seq<Rule>, query: string, threshold: real, maxResults: int, ratio: Ratio)
    ensures FuzzyResults(rules, Strip(Lower(query)), threshold, maxResults, ratio)
         == FuzzyResults(rules, query, threshold, maxResults, ratio)
  {
    var n := Strip(Lower(query));
    NormalisedQuery(query);
    StripIdempotent(Lower(query));
    if Strip(query) == [] {
      assert Strip(n) == [];
    } else if IsDigits(Strip(query)) {
      assert Strip(n) == Strip(query);
    } else {
      assert Strip(n) != [] && !IsDigits(Strip(n));
      assert Strip(Lower(n)) == Strip(Lower(query));
    }
  }

  /** On a free-text query the answer is the candidate list, sorted and cut to the limit. */
  lemma FreeTextResults(rules: seq<Rule>, query: string, threshold: real, maxResults: int, ratio: Ratio)
    requires !IsBlank(query) && !IsDigits(Strip(query))
    ensures FuzzyResults(rules, query, threshold, maxResults, ratio)
         == Ranked(FuzzyCandidates(rules, Strip(Lower(query)), threshold, ratio), maxResults)
  {
  }

  /**
   * On a free-text query the answer is the sorted candidate list cut to the
   * limit: sorted by descending score, equal scores in corpus order,
   * `min(maxResults, |c|)` entries for a non-negative limit, all the
   * candidates when the limit allows them all, and no left-out candidate
   * scoring higher than a returned entry.
   */
  lemma FuzzyResultsRanked(rules: seq<Rule>, query: string, threshold: real, maxResults: int, ratio: Ratio)
    requires !IsBlank(query) && !IsDigits(Strip(query))
    ensures var c := FuzzyCandidates(rules, Strip(Lower(query)), threshold, ratio);
      var r := FuzzyResults(rules, query, threshold, maxResults, ratio);
      && Sorted(r)
      && (forall v :: IsPrefix(WithScore(r, v), WithScore(c, v)))
      && (maxResults >= 0 ==> |r| == if maxResults <= |c| then maxResults else |c|)
      && (maxResults >= |c| ==> multiset(r) == multiset(c))
      && (forall i, y :: 0 <= i < |r| && y in multiset(c) - multiset(r) ==> r[i].score >= y.score)
  {
    FreeTextResults(rules, query, threshold, maxResults, ratio);
    RankedPrefix(FuzzyCandidates(rules, Strip(Lower(query)), threshold, ratio), maxResults);
  }

  /**
   * On a free-text query every returned entry reaches the threshold, scores
   * in [0, 1], is attributed to English or Russian and is not a direct hit.
   */
  lemma FuzzyResultsEntries(rules: seq<Rule>, query: string, threshold: real, maxResults: int, ratio: Ratio)
    requires !IsBlank(query) && !IsDigits(Strip(query))
    ensures var r := FuzzyResults(rules, query, threshold, maxResults, ratio);
      forall i :: 0 <= i < |r| ==>
        r[i].score >= threshold && 0.0 <= r[i].score <= 1.0 && !r[i].isDirectRule
        && (r[i].language == English || r[i].language == Russian)
  {
    var q := Strip(Lower(query));
    var entries := FuzzyEntries(rules, q, ratio);
    var r := FuzzyResults(rules, query, threshold, maxResults, ratio);
    assert r == Ranked(AboveThreshold(entries, threshold), maxResults) by {
      FreeTextResults(rules, query, threshold, maxResults, ratio);
    }
    FuzzyEntriesBounds(rules, q, ratio);
    RankedAboveThreshold(entries, threshold, maxResults, r);
  }

  /** An entry as the free-text scoring produces it: a score in [0, 1], one language, not a direct hit. */
  predicate ScoredEntry(e: SearchResult) {
    0.0 <= e.score <= 1.0 && !e.isDirectRule && (e.language == English || e.language == Russian)
  }

  /** Ranking the entries that reach the threshold keeps only such entries. */
  lemma RankedAboveThreshold(entries: seq<SearchResult>, threshold: real, n: int, r: seq<SearchResult>)
    requires forall e :: e in entries ==> ScoredEntry(e)
    requires r == Ranked(AboveThreshold(entries, threshold), n)
    ensures forall i :: 0 <= i < |r| ==> r[i].score >= threshold && ScoredEntry(r[i])
  {
    var c := AboveThreshold(entries, threshold);
    RankedMembers(c, n);
    AboveThresholdExact(entries, threshold);
    forall i | 0 <= i < |r| ensures r[i].score >= threshold && ScoredEntry(r[i]) {
      var k :| 0 <= k < |c| && c[k] == r[i];
      assert c[k] in entries;
    }
  }

  /** Every entry scores in [0, 1], is attributed to one language and is not a direct hit. */
  lemma FuzzyEntriesBounds(rules: seq<Rule>, query: string, ratio: Ratio)
    ensures forall e :: e in FuzzyEntries(rules, query, ratio) ==>
      0.0 <= e.score <= 1.0 && !e.isDirectRule && (e.language == English || e.language == Russian)
  {
    var entries := FuzzyEntries(rules, query, ratio);
    forall e | e in entries
      ensures 0.0 <= e.score <= 1.0 && !e.isDirectRule && (e.language == English || e.language == Russian)
    {
      var k :| 0 <= k < |entries| && entries[k] == e;
    }
  }

  // ----- lemmas about the keyword search -----

  /** When every keyword occurs, each scores 1.0, so the total is the keyword count. */
  lemma {:induction false} KeywordTotalAllPresent(keywords: seq<string>, eng: string, rus: string, ratio: Ratio)
    requires AllKeywordsPresent(keywords, eng, rus)
    ensures KeywordTotal(keywords, eng, rus, ratio) == |keywords| as real
  {
    if keywords != [] {
      var init := keywords[..|keywords| - 1];
      forall i | 0 <= i < |init| ensures KeywordPresent(init[i], eng, rus) {
        assert init[i] == keywords[i];
      }
      KeywordTotalAllPresent(init, eng, rus, ratio);
      assert KeywordPresent(keywords[|keywords| - 1], eng, rus);
    }
  }

  /** Every reference entry holds every keyword, has score 1.0 and language Both; every such rule is listed. */
  lemma {:induction false} QualifyingExact(rules: seq<Rule>, keywords: seq<string>)
    ensures var r := Qualifying(rules, keywords);
      && |r| <= |rules|
      && (forall i :: 0 <= i < |r| ==>
            r[i].score == 1.0 && r[i].language == Both && !r[i].isDirectRule
            && AllKeywordsPresent(keywords, Lower(r[i].textEng), Lower(r[i].textRus)))
      && (forall k :: 0 <= k < |rules| && AllKeywordsPresent(keywords, Lower(rules[k].textEng), Lower(rules[k].textRus)) ==>
            SearchResult(rules[k].ruleNumber, rules[k].textEng, rules[k].textRus, 1.0, Both, false) in r)
  {
    if rules != [] {
      var init := rules[..|rules| - 1];
      QualifyingExact(init, keywords);
      forall k | 0 <= k < |init| ensures init[k] == rules[k] { }
    }
  }

  /** A positive number divided by itself is one. */
  lemma SelfQuotient(x: real)
    requires x > 0.0
    ensures x / x == 1.0
  {
  }

  /**
   * The keyword scores reduce to the reference: with at least one keyword,
   * the candidates are the qualifying rules when the threshold is at most
   * 1.0, and none otherwise.
   */
  lemma {:induction false} KeywordCandidatesQualifying(rules: seq<Rule>, keywords: seq<string>, threshold: real, ratio: Ratio)
    requires keywords != []
    ensures KeywordCandidates(rules, keywords, threshold, ratio)
         == if threshold <= 1.0 then Qualifying(rules, keywords) else []
  {
    if rules != [] {
      var init := rules[..|rules| - 1];
      KeywordCandidatesQualifying(init, keywords, threshold, ratio);
      var rule := rules[|rules| - 1];
      var eng := Lower(rule.textEng);
      var rus := Lower(rule.textRus);
      var earlier := KeywordCandidates(init, keywords, threshold, ratio);
      var average := KeywordTotal(keywords, eng, rus, ratio) / |keywords| as real;
      assert KeywordCandidates(rules, keywords, threshold, ratio)
          == if AllKeywordsPresent(keywords, eng, rus) && average >= threshold then
               earlier + [SearchResult(rule.ruleNumber, rule.textEng, rule.textRus, average, Both, false)]
             else earlier;
      if AllKeywordsPresent(keywords, eng, rus) {
        KeywordTotalAllPresent(keywords, eng, rus, ratio);
        SelfQuotient(|keywords| as real);
      }
    }
  }

  /**
   * `search_by_keywords` returns the rules that hold every keyword, in
   * corpus order with score 1.0, when the threshold is at most 1.0, and
   * nothing for an empty keyword list or a higher threshold.
   */
  lemma KeywordResultsReference(rules: seq<Rule>, keywords: seq<string>, threshold: real, ratio: Ratio)
    ensures KeywordResults(rules, keywords, threshold, ratio)
         == if keywords == [] || threshold > 1.0 then [] else Qualifying(rules, keywords)
    ensures Sorted(KeywordResults(rules, keywords, threshold, ratio))
  {
    if keywords != [] {
      SortByScoreIsStable(KeywordCandidates(rules, keywords, threshold, ratio));
      KeywordCandidatesQualifying(rules, keywords, threshold, ratio);
      if threshold <= 1.0 {
        QualifyingExact(rules, keywords);
        SortUniform(Qualifying(rules, keywords), 1.0);
      }
    }
  }
}
