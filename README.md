# Cycling rules search and rule-of-the-day rotation, in Dafny

This project models two parts of a bilingual (English/Russian) cycling
rules assistant and proves properties of the model.

- **The search engine** (`RulesSearcher` in `search_rules.py`). A query is
  ranked against both language texts of every rule:
  - the similarity cascade scores one query against one text: exact substring,
    ordered word sequence, all words, most words, single word, then a weighted
    fallback;
  - the sequence score slides a start position over the text words and matches
    each query word inside a small window, counting gaps;
  - `fuzzy_search` short-circuits blank and all-digit queries; otherwise it
    keeps the better language score per rule, filters by the threshold,
    stable-sorts by descending score and truncates;
  - `search_by_keywords` keeps the rules that hold every keyword and scores
    them by the average keyword score;
  - `search_by_rule_number` is a linear lookup.
- **The daily rotation** (`SimpleDailyRules` in `daily_rules.py`). Each
  registered group has `used` and `unused` lists of rule numbers 1..95. A
  request refills an exhausted `unused` list and then moves one arbitrarily
  chosen number from `unused` to `used`.

Layout:

- `wrappers.dfy`: `Option`.
- `text.dfy`: the Python string operations the engine relies on: `strip`,
  `split`, `in` on strings, `lower`, `isdigit` and `int`. It also defines
  decimal notation (what `str` gives for a natural number), the inverse
  against which `int` is proved.
- `sequence_match.dfy`: the ordered word-sequence score, as functions.
- `similarity.dfy`: the similarity cascade, as the function `Score`. It is
  parameterised by difflib's ratio, an arbitrary function into [0, 1].
- `corpus.dfy`: rules, search results, and the first rule with a given number.
- `ordering.dfy`: the stable descending sort and the Python slice `s[:n]`.
- `search.dfy`: the specification functions of the two searches and the class
  `RulesSearcher`. Its methods are loops proved against those functions.
- `daily.dfy`: the rotation's group state and the class `SimpleDailyRules`.

The methods of the two classes follow the source's loops and updates. Each
method of `RulesSearcher` is proved equal to a specification function. The
constructors set their fields from their parameters. The methods of
`SimpleDailyRules` state the new group map in terms of the functions
`FreshGroup`, `Refilled` and `Moved`. Properties of the functions are proved
as lemmas: score ranges, cascade priority, sortedness,
stability, the threshold filter, the direct-number shortcut, the keyword
search's reduction to "every keyword occurs, score 1.0", and the rotation's
invariant that a group's two lists together hold each rule number exactly
once.

## Model

| member | source | states |
|---|---|---|
| `Text.Strip` | search_rules.py:40-44 | `str.strip()`: the result is a slice of the input with only whitespace before and after it; it is empty exactly when the input is all whitespace, and otherwise neither starts nor ends with whitespace |
| `Text.Split` | search_rules.py:93 | `str.split()`: every piece is a non-empty run without whitespace, and there are no pieces exactly when the input is all whitespace |
| `Text.SplitAtSpace` | search_rules.py:93 | splitting at a whitespace character splits the two sides separately: `(a + c + b).split() == a.split() + b.split()` |
| `Text.SplitWord` | search_rules.py:93 | a string that is a single word splits into just itself |
| `Text.Lower` | search_rules.py:59 | `str.lower()` keeps the length, leaves no capital of the two alphabets, keeps every other character, and maps each capital to its small letter (+32, or +80 for U+0400..U+040F) |
| `Text.LowerIdempotent` | search_rules.py:59 | lower-casing an already lower-cased string changes nothing |
| `Text.IsDigits` | search_rules.py:44 | `isdigit()` holds only for a non-empty string, so a digit query is never blank |
| `Text.DecimalValue` | search_rules.py:45 | `int(s)` of a digit string is 0 exactly when every digit is `0` |
| `Text.DecimalString` | search_rules.py:45 | decimal notation, the inverse `DecimalRoundTrip` needs for `int`: a non-empty digit string whose first digit is `0` only for `n = 0` |
| `Text.DecimalRoundTrip` | search_rules.py:44-45 | `int(str(n)) == n`: the number query path reads back every rule number written in decimal |
| `Text.LeadingZero` | search_rules.py:45 | `int` ignores a leading zero, so `"07"` looks up rule 7 |
| `Text.StripIdempotent` | search_rules.py:59 | stripping a stripped string changes nothing |
| `Text.NormalisedQuery` | search_rules.py:40-59 | `query.lower().strip()` normalises to itself, is empty exactly when `query.strip()` is, is all digits exactly when `query.strip()` is, and then equals it |
| `Text.Contains` | search_rules.py:89 | `part in text`: the empty string occurs in every text, and an occurring part is no longer than the text |
| `Text.ContainsSelf` | search_rules.py:89 | `t in t` holds for every string |
| `SequenceMatch.GapPenalty` | search_rules.py:182 | `min(0.3, 0.1 * gaps)` lies in [0, 0.3] and is 0 exactly when there are no gaps |
| `SequenceMatch.GapPenaltyMonotone` | search_rules.py:182 | more gaps never give a smaller penalty |
| `SequenceMatch.FindInWindow` | search_rules.py:169-175 | a hit is an index inside the window that holds the word |
| `SequenceMatch.FindInWindowFirst` | search_rules.py:169-178 | the hit is the first index of the window holding the word, and there is no hit exactly when no index of the window holds it |
| `SequenceMatch.MatchFrom` | search_rules.py:163-178 | matching the query words from word `j` on succeeds only if each of them occurs in the text, and then with at least the gaps already counted |
| `SequenceMatch.BestStart` | search_rules.py:155-186 | `best_score` over the first `n` starts is at least every start's score, and is 0 or the score of one of the starts |
| `SequenceMatch.SequenceScore` | search_rules.py:151-152 | fewer than two query words score 0 |
| `SequenceMatch.BestStartValues` | search_rules.py:157-186 | the best score over the starts is 0 or in [0.6, 0.9]; it exceeds 0.8 exactly when some start matches every word with no gap, and then it is 0.9 |
| `SequenceMatch.SequenceScoreValues` | search_rules.py:149-186 | the sequence score is 0 or in [0.6, 0.9], and passes the cascade's "> 0.8" gate only for a gapless match, scoring exactly 0.9 |
| `Similarity.WordMatches` | search_rules.py:103 | the number of query words found in the text is at most the number of query words |
| `Similarity.WordOverlap` | search_rules.py:124-130 | the Jaccard index of the two word sets, 0 when both are empty, lies in [0, 1] |
| `Similarity.Score` | search_rules.py:86-147 | every similarity score lies in [0, 1], given a ratio in [0, 1] |
| `Similarity.ExactSubstringScoresOne` | search_rules.py:89-90 | a query that occurs in the text scores 1.0 |
| `Similarity.SelfScoreIsOne` | search_rules.py:89-90 | every text scores 1.0 against itself |
| `Similarity.MostWordsRange` | search_rules.py:106-107 | the "most words" branch yields a value in (0.64, 0.7) |
| `Similarity.ScoreValues` | search_rules.py:86-147 | for a query with words, the score is 1.0, 0.9, 0.7, in (0.64, 0.7), 0.6, or a fallback of at most 0.475; it exceeds 0.9 exactly when the query occurs in the text |
| `Corpus.FirstIndexOf` | search_rules.py:190-193 | the index of the first rule with the number, or the corpus length when none has it |
| `Corpus.FindRule` | search_rules.py:188-193 | `None` exactly when no rule has the number; otherwise the first rule in corpus order with that number |
| `Ordering.InsertByScore` | search_rules.py:83 | inserting adds exactly one entry to the multiset |
| `Ordering.SortByScore` | search_rules.py:83 | the sort is a permutation of its input |
| `Ordering.Truncate` | search_rules.py:84 | `s[:n]` is a prefix of `s` of length `min(n, len)` for `n >= 0`, and of length `max(0, len + n)` for negative `n` |
| `Ordering.InsertSorted` | search_rules.py:83 | inserting into a sorted list keeps it sorted |
| `Ordering.InsertWithScore` | search_rules.py:83 | inserting adds the entry in front of all the entries with its own score |
| `Ordering.SortByScoreIsStable` | search_rules.py:83 | `sort(reverse=True)` by score is sorted, a permutation, and keeps entries with equal scores in input order |
| `Ordering.WithScoreOfPrefix` | search_rules.py:84 | the equal-score entries of a prefix are a prefix of those of the whole list |
| `Ordering.WithScoreOfUniform` | search_rules.py:83 | a list whose entries all have one score is its own filter by that score |
| `Ordering.SortUniform` | search_rules.py:234 | sorting a list whose scores are all equal leaves it unchanged |
| `Ordering.RankedPrefix` | search_rules.py:83-84 | sort-then-slice is sorted, drawn from the input, stable, exactly `min(n, len)` long for `n >= 0`, a permutation of the input when `n` covers it, and keeps the best: no left-out entry scores higher than a kept one |
| `Search.FuzzyEntry` | search_rules.py:64-80 | a rule's entry scores the maximum of its two language scores; the language is English exactly when the English score is strictly higher, otherwise Russian; the fields are copied and the entry is not a direct hit |
| `Search.AboveThresholdExact` | search_rules.py:72-80 | the threshold filter keeps exactly the entries reaching the threshold |
| `Search.FuzzyEntriesBounds` | search_rules.py:64-78 | every entry scores in [0, 1], is English or Russian, and is not a direct hit |
| `Search.FuzzyResults` | search_rules.py:28-84 | `fuzzy_search` never returns more entries than there are rules |
| `Search.DirectNumberQuery` | search_rules.py:40-57 | a blank query returns `[]`; an all-digit query ignores threshold and limit and returns one direct hit with score 1.0 and the English and Russian texts of the first rule with the number, or `[]` when no rule has the number |
| `Search.FuzzyResultsNormalised` | search_rules.py:40-59 | the answer does not depend on the query's case or surrounding whitespace: `query` and `query.lower().strip()` get the same answer, whether blank, a rule number or free text |
| `Search.FuzzyResultsRanked` | search_rules.py:59-84 | a free-text query returns entries that are sorted, keep corpus order among equal scores, number exactly `min(max_results, candidates)` for a non-negative limit, are all the candidates when the limit allows, and score at least as high as every candidate left out |
| `Search.FuzzyResultsEntries` | search_rules.py:59-84 | on a free-text query every returned entry reaches the threshold, scores in [0, 1], is English or Russian, and is not a direct hit |
| `Search.KeywordResults` | search_rules.py:195-235 | `search_by_keywords` never returns more entries than there are rules |
| `Search.KeywordTotalAllPresent` | search_rules.py:215-221 | when every keyword occurs, each contributes 1.0 to the total |
| `Search.QualifyingExact` | search_rules.py:202-232 | the reference answer lists the rules holding every keyword, each with score 1.0 and language Both, and no others |
| `Search.KeywordCandidatesQualifying` | search_rules.py:202-232 | the averaged scores reduce the candidate list to the reference answer at thresholds up to 1.0, and to nothing above |
| `Search.KeywordResultsReference` | search_rules.py:195-235 | `search_by_keywords` returns `[]` for no keywords, and otherwise the reference answer in corpus order (or nothing above threshold 1.0); the result is sorted |
| `Search.RulesSearcher.constructor` | search_rules.py:16-26 | the searcher holds the given corpus and ratio |
| `Search.RulesSearcher.FuzzySearch` | search_rules.py:28-84 | the loop over the corpus computes the fuzzy answer |
| `Search.RulesSearcher.CalculateSimilarity` | search_rules.py:86-147 | the early-return cascade computes the similarity score |
| `Search.RulesSearcher.CountWordMatches` | search_rules.py:103 | the loop counts the query words found in the text |
| `Search.RulesSearcher.PartialScore` | search_rules.py:133-138 | the nested loop awards 0.3 exactly when some query word and some text word contain one another |
| `Search.RulesSearcher.CalculateSequenceSimilarity` | search_rules.py:149-186 | the nested loops compute the sequence score |
| `Search.RulesSearcher.MatchStart` | search_rules.py:159-180 | the inner loop for one start matches all the query words exactly when the specification finds a match there, and then counts its gaps |
| `Search.RulesSearcher.ScanWindow` | search_rules.py:165-178 | the window scan returns what `FindInWindow` specifies, which `FindInWindowFirst` shows is the first matching index of the window, if any |
| `Search.RulesSearcher.SearchByRuleNumber` | search_rules.py:188-193 | the scan returns the first rule with the number, or `None` |
| `Search.RulesSearcher.SearchByKeywords` | search_rules.py:195-235 | the loop over the corpus computes the keyword answer |
| `Search.RulesSearcher.ScoreRule` | search_rules.py:203-223 | a rule holds every keyword exactly when the check loop finishes, and then the average is the summed keyword score over the keyword count |
| `DailyRules.Range` | daily_rules.py:59 | `list(range(lo, hi))` has `hi - lo` elements, or none |
| `DailyRules.FreshGroup` | daily_rules.py:56-60 | a new group has the given id, nothing used, and 95 unused numbers, which are exactly 1..95 |
| `DailyRules.RangeCount` | daily_rules.py:59 | `range(lo, hi)` holds each number of [lo, hi) exactly once and nothing else |
| `DailyRules.Refilled` | daily_rules.py:77-87 | after the refill `unused` is non-empty; a group with numbers left is unchanged; an exhausted group takes `used` as its new `unused` and empties `used`, or, holding nothing, takes all the rules; a non-empty group keeps its multiset of numbers |
| `DailyRules.FirstIndex` | daily_rules.py:94 | the position of the first occurrence of the number |
| `DailyRules.RemoveFirst` | daily_rules.py:94 | `list.remove(x)` drops one `x`, the first one, and keeps the rest in order |
| `DailyRules.Moved` | daily_rules.py:94-95 | the move appends the number to `used`, shortens `unused` by one and keeps the group's multiset |
| `DailyRules.WellFormedDistinct` | daily_rules.py:56-60 | in a well-formed group every number is in 1..95, none is listed twice, and no unused number is in `used` |
| `DailyRules.FreshGroupWellFormed` | daily_rules.py:56-60 | a new group is well-formed, with nothing used and all 95 rules unused |
| `DailyRules.PickPreservesWellFormed` | daily_rules.py:77-95 | one day's step keeps a group well-formed; the pick is a rule number not yet used in the current cycle |
| `DailyRules.RefillAfterFullCycle` | daily_rules.py:78-83 | `unused` is refilled from `used` only after all 95 rules have been shown |
| `DailyRules.SimpleDailyRules.constructor` | daily_rules.py:14-24 | the registry holds the given searcher and groups |
| `DailyRules.SimpleDailyRules.AddGroup` | daily_rules.py:51-62 | an unknown group is inserted with a fresh rotation; a known group leaves the map unchanged; validity is preserved |
| `DailyRules.SimpleDailyRules.PickRule` | daily_rules.py:77-95 | the update step picks a number from the refilled `unused` list and replaces only that group's entry, by the refilled group with the number moved; validity is preserved |
| `DailyRules.SimpleDailyRules.GetDailyRule` | daily_rules.py:64-115 | an unknown group gets `None` and nothing changes; otherwise only that group's entry changes, to the refilled group with the picked number moved, and the result carries the picked rule and the new list lengths, or is `None` when the corpus lacks the number; validity is preserved |

## Left out

- Reading the rules and groups from JSON files, saving the groups, creating the
  data directory, `display_results`, `format_daily_rule_message` and the two
  `main` functions are I/O or presentation. Saving is treated as doing nothing,
  and the corpus and the loaded groups are constructor parameters.
- `telegram_bot.py` and `simple_scheduler.py` are not part of this model. They
  are the messaging transport, the asyncio timing loop and the wall-clock
  scheduling.
- difflib's `SequenceMatcher(None, query, text).ratio()` is a foreign library.
  It is the searcher's constant `ratio`, an arbitrary function into [0, 1].
- Scores are real numbers, not IEEE doubles. Float rounding is not modelled.
  The value `0.9 - 0.1` is exactly 0.8 in both, so the "> 0.8" gate behaves
  the same.
- Text.Lower: only ASCII and the basic Cyrillic capitals (U+0400..U+042F) are
  lower-cased. Other Unicode case mappings, including those that change the
  length of a string, are not modelled.
- Text.IsDigits: only the ASCII digits count. Python's `isdigit` also accepts
  other Unicode digits, and the model scores every such query as free text.
  For a decimal digit of another script, such as the fullwidth `"５"` or the
  Arabic-Indic `"٥"`, `int()` succeeds and the source returns the direct hit
  for that rule number. For a digit that is not decimal, such as `"²"` or
  `"①"`, `int()` raises `ValueError` out of `fuzzy_search`.
- The sort is modelled as a stable insertion sort, with the sortedness,
  permutation and stability proved. Python's Timsort algorithm itself is not
  modelled.
- The order in which Python iterates the text-word set of the partial-match
  loop is left open. Each text word is drawn arbitrarily from those not yet
  seen, and the result does not depend on the order.
- The group dictionary is keyed by `str(group_id)` in the source and by the
  integer id here. `str` is injective on integers, so nothing is lost. A group
  is a value in the map, so the in-place mutation of the dictionary entry is
  modelled as replacing that entry.
- DailyRules.SimpleDailyRules.AddGroup: the boolean result is not modelled. It
  is the result of the save, which is a no-op here.
- DailyRules.SimpleDailyRules.GetDailyRule: groups loaded with a missing `used`
  or `unused` key (read through `dict.get`), and the exception handler, are not
  modelled. Every group here has both lists.
- `random.choice` is an arbitrary index into `unused`.
- Results are records with a fixed set of fields. The keyword results, which
  have no `is_direct_rule` key in the source, carry `isDirectRule = false`. This
  is the value that `dict.get('is_direct_rule', False)` reads for them.
- The window scan of `_calculate_sequence_similarity`, the word-count and
  partial-match loops of `_calculate_similarity`, and the per-rule body of
  `search_by_keywords` are separate methods (`ScanWindow`, `CountWordMatches`,
  `PartialScore`, `ScoreRule`), and so are the per-start body of
  `_calculate_sequence_similarity` (`MatchStart`) and the update step of
  `get_daily_rule` (`PickRule`). They are inlined in the source.
- The default arguments `threshold=0.6` and `max_results=10` of
  `fuzzy_search` and `threshold=0.5` of `search_by_keywords` are not modelled
  as defaults: every caller passes both values explicitly.
- SequenceMatch.FindInWindow: its own contract states only that a hit is in
  the window and holds the word. That the hit is the first one, and that no
  hit means the word is absent from the window, is the lemma
  `FindInWindowFirst`.
- Similarity.ScoreValues: the fallback is bounded by 0.475, which is tighter
  than 0.65 (0.15 + 0.25 + 0.25). The partial bonus is 0.3 and contributes at
  most 0.075.
- The "> 0.8" gate admits only gapless sequence matches, as proved by
  `SequenceScoreValues`. So a sequence score below 0.9 is never returned by
  the cascade. This is stated as behaviour, not as a defect.
