/**
 * The "rule of the day" rotation (`SimpleDailyRules`). Every registered
 * chat group keeps two lists of rule numbers, `used` and `unused`; each
 * request moves one number, chosen at random, from `unused` to `used`, and
 * an exhausted `unused` list is refilled from `used`. So a group sees every
 * one of the 95 rules once before any rule comes back.
 *
 * The groups dictionary is keyed by the group id; reading and writing the
 * JSON file are left out, and saving is treated as doing nothing.
 */
module DailyRules {
  import opened Wrappers
  import opened Corpus
  import opened Search

  /** The number of rules in the rotation: `range(1, 96)`. */
  const RuleCount: nat := 95

  /** `list(range(lo, hi))`. */
  function Range(lo: int, hi: int): (s: seq<int>)
    ensures |s| == if lo < hi then hi - lo else 0
    decreases hi - lo
  {
    if lo >= hi then [] else [lo] + Range(lo + 1, hi)
  }

  /** The rotation's full set of rule numbers, 1 to 95 in order. */
  function AllRuleNumbers(): seq<int> {
    Range(1, RuleCount + 1)
  }

  /** One group's rotation state. */
  datatype Group = Group(id: int, used: seq<int>, unused: seq<int>)

  /** What `get_daily_rule` returns for a pick whose rule exists. */
  datatype DailyRule = DailyRule(ruleNumber: int, textEng: string, textRus: string, usedCount: nat, unusedCount: nat)

  /** The group `add_group` registers: nothing used, every rule unused once. */
  function FreshGroup(id: int): (g: Group)
    ensures g.id == id && g.used == [] && |g.unused| == RuleCount
    ensures forall x :: x in g.unused <==> 1 <= x <= RuleCount
  {
    var g := Group(id, [], AllRuleNumbers());
    forall x ensures x in g.unused <==> 1 <= x <= RuleCount {
      RangeCount(1, RuleCount + 1, x);
    }
    g
  }

  /**
   * The refill step before a pick: an empty `unused` list takes over the
   * `used` list (which is emptied), or, when both are empty, all the rules.
   * A group with rules left to pick is unchanged.
   */
  function Refilled(g: Group): (r: Group)
    ensures r.id == g.id && r.unused != []
    ensures g.unused != [] ==> r == g
    ensures g.unused == [] && g.used != [] ==> r.unused == g.used && r.used == []
    ensures g.unused == [] && g.used == [] ==> r.unused == AllRuleNumbers() && r.used == []
    ensures g.used + g.unused != [] ==> multiset(r.used + r.unused) == multiset(g.used + g.unused)
  {
    if g.unused != [] then g
    else if g.used != [] then g.(unused := g.used, used := [])
    else g.(unused := AllRuleNumbers())
  }

  /** The position of the first occurrence of `x`. */
  function FirstIndex(s: seq<int>, x: int): (i: nat)
    requires x in s
    ensures i < |s| && s[i] == x && x !in s[..i]
  {
    if s[0] == x then 0
    else
      var i := FirstIndex(s[1..], x);
      assert s[..i + 1] == [s[0]] + s[1..][..i];
      i + 1
  }

  /** `list.remove(x)`: deletes the first occurrence of `x`, keeping the rest in order. */
  function RemoveFirst(s: seq<int>, x: int): (r: seq<int>)
    requires x in s
    ensures |r| == |s| - 1
    ensures multiset(r) == multiset(s) - multiset{x}
    ensures forall j :: 0 <= j < FirstIndex(s, x) ==> r[j] == s[j]
    ensures forall j :: FirstIndex(s, x) <= j < |r| ==> r[j] == s[j + 1]
  {
    var i := FirstIndex(s, x);
    assert s == s[..i] + [x] + s[i + 1..];
    s[..i] + s[i + 1..]
  }

  /** Moving a picked number from `unused` to the end of `used`. */
  function Moved(g: Group, x: int): (r: Group)
    requires x in g.unused
    ensures r.id == g.id
    ensures r.used == g.used + [x] && |r.unused| == |g.unused| - 1
    ensures multiset(r.used + r.unused) == multiset(g.used + g.unused)
  {
    g.(unused := RemoveFirst(g.unused, x), used := g.used + [x])
  }

  /** The number most recently moved to `used`. */
  function LastPick(g: Group): int
    requires g.used != []
  {
    g.used[|g.used| - 1]
  }

  /** A group whose two lists together hold every rule number exactly once. */
  predicate WellFormed(g: Group) {
    multiset(g.used + g.unused) == multiset(AllRuleNumbers())
  }

  // ----- lemmas -----

  /** `range(lo, hi)` holds each number of [lo, hi) exactly once and nothing else. */
  lemma {:induction false} RangeCount(lo: int, hi: int, x: int)
    ensures multiset(Range(lo, hi))[x] == if lo <= x < hi then 1 else 0
    decreases hi - lo
  {
    if lo < hi {
      RangeCount(lo + 1, hi, x);
      assert Range(lo, hi) == [lo] + Range(lo + 1, hi);
    }
  }

  /** A number occurring at two positions of a list counts at least twice in it. */
  lemma RepeatCount(s: seq<int>, i: nat, j: nat)
    requires i < j < |s| && s[i] == s[j]
    ensures multiset(s)[s[i]] >= 2
  {
    assert s == s[..j] + [s[j]] + s[j + 1..];
    assert s[i] in s[..j];
  }

  /**
   * In a well-formed group every number is a rule number 1..95 and none is
   * listed twice: no rule repeats within a cycle, and a pick from `unused`
   * is never a rule already shown.
   */
  lemma WellFormedDistinct(g: Group)
    requires WellFormed(g)
    ensures forall i :: 0 <= i < |g.used + g.unused| ==> 1 <= (g.used + g.unused)[i] <= RuleCount
    ensures forall i, j :: 0 <= i < j < |g.used + g.unused| ==> (g.used + g.unused)[i] != (g.used + g.unused)[j]
    ensures forall x :: x in g.unused ==> x !in g.used
  {
    var all := g.used + g.unused;
    forall i | 0 <= i < |all| ensures 1 <= all[i] <= RuleCount {
      assert all[i] in multiset(all);
      RangeCount(1, RuleCount + 1, all[i]);
    }
    forall i, j | 0 <= i < j < |all| ensures all[i] != all[j] {
      if all[i] == all[j] {
        RepeatCount(all, i, j);
        RangeCount(1, RuleCount + 1, all[i]);
      }
    }
    forall x | x in g.unused ensures x !in g.used {
      var j :| 0 <= j < |g.unused| && g.unused[j] == x;
      assert all[|g.used| + j] == x;
      forall i | 0 <= i < |g.used| ensures g.used[i] != x {
        assert all[i] == g.used[i];
      }
    }
  }

  /** A registered group starts well-formed. */
  lemma FreshGroupWellFormed(id: int)
    ensures WellFormed(FreshGroup(id)) && FreshGroup(id).used == []
    ensures |FreshGroup(id).unused| == RuleCount
  {
    assert FreshGroup(id).used + FreshGroup(id).unused == AllRuleNumbers();
  }

  /**
   * One day's step keeps a group well-formed: the refill and the move only
   * shuffle numbers between the two lists, and the picked number was not
   * yet used in the current cycle.
   */
  lemma PickPreservesWellFormed(g: Group, x: int)
    requires WellFormed(g) && x in Refilled(g).unused
    ensures WellFormed(Moved(Refilled(g), x))
    ensures 1 <= x <= RuleCount && x !in Refilled(g).used
    ensures |Moved(Refilled(g), x).used| + |Moved(Refilled(g), x).unused| == RuleCount
  {
    assert |AllRuleNumbers()| == RuleCount;
    assert g.used + g.unused != [] by {
      assert |multiset(g.used + g.unused)| == |multiset(AllRuleNumbers())|;
    }
    var r := Refilled(g);
    WellFormedDistinct(r);
    var k :| 0 <= k < |r.unused| && r.unused[k] == x;
    assert (r.used + r.unused)[|r.used| + k] == x;
    var m := Moved(r, x);
    assert |multiset(m.used + m.unused)| == RuleCount;
  }

  /** A refill from `used` happens only once every rule has been shown in the cycle. */
  lemma RefillAfterFullCycle(g: Group)
    requires WellFormed(g) && g.unused == []
    ensures multiset(g.used) == multiset(AllRuleNumbers())
    ensures Refilled(g) == Group(g.id, [], g.used)
  {
    assert g.used + g.unused == g.used;
    assert |AllRuleNumbers()| == RuleCount;
    assert |multiset(g.used)| == |multiset(AllRuleNumbers())|;
  }

  /** A group registry: the groups by id, and the searcher that supplies rule texts. */
  class SimpleDailyRules {
    var groups: map<int, Group>
    const searcher: RulesSearcher

    /** Every group is stored under its own id and is well-formed. */
    predicate Valid()
      reads this
    {
      forall id :: id in groups ==> groups[id].id == id && WellFormed(groups[id])
    }

    /** The registry over the groups read from storage. */
    constructor (searcher: RulesSearcher, groups: map<int, Group>)
      ensures this.searcher == searcher && this.groups == groups
    {
      this.searcher := searcher;
      this.groups := groups;
    }

    /** `add_group`: registers an unknown group with a fresh rotation; a known group is left alone. */
    method AddGroup(groupId: int)
      modifies this
      ensures groupId !in old(groups) ==> groups == old(groups)[groupId := FreshGroup(groupId)]
      ensures groupId in old(groups) ==> groups == old(groups)
      ensures old(Valid()) ==> Valid()
    {
      if groupId !in groups {
        FreshGroupWellFormed(groupId);
        groups := groups[groupId := Group(groupId, [], AllRuleNumbers())];
      }
    }

    /**
     * `get_daily_rule`: for a registered group, refills an exhausted
     * `unused` list, moves one arbitrarily chosen unused number to the end
     * of `used`, and returns that rule with the new list lengths; the move
     * stands even when the corpus has no rule with the number. An unknown
     * group gets nothing and nothing changes.
     */
    method GetDailyRule(groupId: int) returns (result: Option<DailyRule>)
      modifies this
      ensures groupId !in old(groups) ==> result.None? && groups == old(groups)
      ensures groupId in old(groups) ==> groupId in groups && groups[groupId].used != []
      ensures groupId in old(groups) ==>
        LastPick(groups[groupId]) in Refilled(old(groups)[groupId]).unused
      ensures groupId in old(groups) ==>
        groups == old(groups)[groupId := Moved(Refilled(old(groups)[groupId]), LastPick(groups[groupId]))]
      ensures groupId in old(groups) ==>
        (result.None? <==> FindRule(searcher.rules, LastPick(groups[groupId])).None?)
      ensures groupId in old(groups) && result.Some? ==>
        var rule := FindRule(searcher.rules, LastPick(groups[groupId])).value;
        result.value == DailyRule(LastPick(groups[groupId]), rule.textEng, rule.textRus,
                                  |groups[groupId].used|, |groups[groupId].unused|)
      ensures old(Valid()) ==> Valid()
    {
      if groupId !in groups {
        return None;
      }
      var ruleNumber := PickRule(groupId);
      var group := groups[groupId];
      var rule := searcher.SearchByRuleNumber(ruleNumber);
      result := if rule.Some? then
          Some(DailyRule(ruleNumber, rule.value.textEng, rule.value.textRus, |group.used|, |group.unused|))
        else None;
    }

    /**
     * The update step of `get_daily_rule` for a registered group: the
     * refill, then the move of one arbitrarily chosen unused number to the
     * end of `used`.
     */
    method PickRule(groupId: int) returns (ruleNumber: int)
      requires groupId in groups
      modifies this
      ensures ruleNumber in Refilled(old(groups)[groupId]).unused
      ensures groups == old(groups)[groupId := Moved(Refilled(old(groups)[groupId]), ruleNumber)]
      ensures old(Valid()) ==> Valid()
    {
      var group := Refilled(groups[groupId]);
      var choice :| 0 <= choice < |group.unused|;  // random.choice(unused) picks an index
      ruleNumber := group.unused[choice];
      if Valid() {
        PickPreservesWellFormed(groups[groupId], ruleNumber);
      }
      groups := groups[groupId := Moved(group, ruleNumber)];
    }
  }
}
