/**
 * The records the search engine works on: a rule of the corpus, the result
 * entries it returns, and the lookup of a rule by its number
 * (`RulesSearcher.search_by_rule_number`).
 */
module Corpus {
  import opened Wrappers

  /** One numbered rule with its English and Russian text. */
  datatype Rule = Rule(ruleNumber: int, textEng: string, textRus: string)

  /** The `matched_language` field of a result. */
  datatype Language = English | Russian | Both | DirectRuleNumber

  /** One entry of a result list. */
  datatype SearchResult = SearchResult(
    ruleNumber: int,
    textEng: string,
    textRus: string,
    score: real,
    language: Language,
    isDirectRule: bool)

  /** The index of the first rule numbered `n`, or `|rules|` when there is none. */
  function FirstIndexOf(rules: seq<Rule>, n: int): (k: nat)
    ensures k <= |rules|
    ensures forall j :: 0 <= j < k ==> rules[j].ruleNumber != n
    ensures k < |rules| ==> rules[k].ruleNumber == n
  {
    if rules == [] then 0
    else if rules[0].ruleNumber == n then 0
    else 1 + FirstIndexOf(rules[1..], n)
  }

  /**
   * The first rule, in corpus order, whose number is `n`; `None` exactly
   * when no rule has that number.
   */
  function FindRule(rules: seq<Rule>, n: int): (r: Option<Rule>)
    ensures r.None? <==> forall j :: 0 <= j < |rules| ==> rules[j].ruleNumber != n
    ensures r.Some? ==> r.value.ruleNumber == n
    ensures r.Some? ==>
      exists k :: 0 <= k < |rules| && rules[k] == r.value && forall j :: 0 <= j < k ==> rules[j].ruleNumber != n
  {
    var k := FirstIndexOf(rules, n);
    if k < |rules| then Some(rules[k]) else None
  }
}
