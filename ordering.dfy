/**
 * The ordering and truncation applied to result lists: Python's
 * `results.sort(key=lambda x: x['similarity_score'], reverse=True)`, a
 * stable sort by descending score (equal scores keep their order), and the
 * slice `results[:max_results]`.
 */
module Ordering {
  import opened Corpus

  /** Scores never increase along the list. */
  predicate Sorted(s: seq<SearchResult>) {
    forall i, j :: 0 <= i < j < |s| ==> s[i].score >= s[j].score
  }

  /** The entries of `s` whose score is `v`, in their order in `s`. */
  function WithScore(s: seq<SearchResult>, v: real): seq<SearchResult> {
    if s == [] then []
    else (if s[0].score == v then [s[0]] else []) + WithScore(s[1..], v)
  }

  /** Inserts `x` in front of the first entry whose score is at most its own. */
  function InsertByScore(x: SearchResult, s: seq<SearchResult>): (r: seq<SearchResult>)
    ensures multiset(r) == multiset(s) + multiset{x}
  {
    if s == [] then [x]
    else if s[0].score <= x.score then [x] + s
    else
      assert s == [s[0]] + s[1..];
      [s[0]] + InsertByScore(x, s[1..])
  }

  /** The stable descending sort, as insertion of each entry into the sorted rest. */
  function SortByScore(s: seq<SearchResult>): (r: seq<SearchResult>)
    ensures multiset(r) == multiset(s)
  {
    if s == [] then []
    else
      assert s == [s[0]] + s[1..];
      InsertByScore(s[0], SortByScore(s[1..]))
  }

  /** `s[:n]`: the first `n` entries, or for negative `n` all but the last `-n`. */
  function Truncate(s: seq<SearchResult>, n: int): (r: seq<SearchResult>)
    ensures |r| <= |s| && r == s[..|r|]
    ensures n >= 0 ==> |r| == if n <= |s| then n else |s|
    ensures n < 0 ==> |r| == if |s| + n >= 0 then |s| + n else 0
  {
    if n >= 0 then (if n <= |s| then s[..n] else s)
    else (if |s| + n >= 0 then s[..|s| + n] else [])
  }

  /** `a` is an initial segment of `b`. */
  predicate IsPrefix(a: seq<SearchResult>, b: seq<SearchResult>) {
    |a| <= |b| && a == b[..|a|]
  }

  // ----- lemmas -----

  lemma {:induction false} InsertSorted(x: SearchResult, s: seq<SearchResult>)
    requires Sorted(s)
    ensures Sorted(InsertByScore(x, s))
  {
    if s != [] && s[0].score > x.score {
      var t := InsertByScore(x, s[1..]);
      assert InsertByScore(x, s) == [s[0]] + t;
      assert Sorted(t) by {
        InsertSorted(x, s[1..]);
      }
      assert forall j :: 0 <= j < |t| ==> t[j].score <= s[0].score by {
        InsertedFrom(x, s[1..]);
      }
      SortedCons(s[0], t);
    }
  }

  /** Every entry after an insertion is the inserted one or was there before. */
  lemma InsertedFrom(x: SearchResult, s: seq<SearchResult>)
    ensures forall j :: 0 <= j < |InsertByScore(x, s)| ==> InsertByScore(x, s)[j] == x || InsertByScore(x, s)[j] in s
  {
    var t := InsertByScore(x, s);
    forall j | 0 <= j < |t| ensures t[j] == x || t[j] in s {
      assert t[j] in multiset(t);
    }
  }

  /** An entry scoring at least as high as every entry of a sorted list can go in front of it. */
  lemma SortedCons(h: SearchResult, t: seq<SearchResult>)
    requires Sorted(t) && forall j :: 0 <= j < |t| ==> t[j].score <= h.score
    ensures Sorted([h] + t)
  {
    forall i, j | 0 <= i < j < |[h] + t| ensures ([h] + t)[i].score >= ([h] + t)[j].score {
      assert ([h] + t)[j] == t[j - 1];
      if i > 0 {
        assert ([h] + t)[i] == t[i - 1];
      }
    }
  }

  /** Filtering a list that starts with `x` by score. */
  lemma {:induction false} WithScoreCons(x: SearchResult, t: seq<SearchResult>, v: real)
    ensures WithScore([x] + t, v) == (if x.score == v then [x] else []) + WithScore(t, v)
  {
    assert ([x] + t)[1..] == t;
  }

  /**
   * Inserting `x` adds it to the entries with its score, in front of them:
   * equal scores keep the inserted entry ahead of the older ones.
   */
  lemma {:induction false} InsertWithScore(x: SearchResult, s: seq<SearchResult>, v: real)
    ensures WithScore(InsertByScore(x, s), v) == (if x.score == v then [x] else []) + WithScore(s, v)
  {
    if s == [] {
      WithScoreCons(x, s, v);
      assert [x] + s == [x];
    } else if s[0].score <= x.score {
      WithScoreCons(x, s, v);
    } else {
      InsertWithScore(x, s[1..], v);
      InsertPastHead(x, s, v);
    }
  }

  /** The step of `InsertWithScore` where `x` goes past the first entry, whose score is higher. */
  lemma {:induction false} InsertPastHead(x: SearchResult, s: seq<SearchResult>, v: real)
    requires s != [] && s[0].score > x.score
    requires WithScore(InsertByScore(x, s[1..]), v) == (if x.score == v then [x] else []) + WithScore(s[1..], v)
    ensures WithScore(InsertByScore(x, s), v) == (if x.score == v then [x] else []) + WithScore(s, v)
  {
    var t := InsertByScore(x, s[1..]);
    var rest := WithScore(s[1..], v);
    var head: seq<SearchResult> := if s[0].score == v then [s[0]] else [];
    var inserted: seq<SearchResult> := if x.score == v then [x] else [];
    assert InsertByScore(x, s) == [s[0]] + t;
    assert WithScore([s[0]] + t, v) == head + (inserted + rest) by {
      WithScoreCons(s[0], t, v);
    }
    assert WithScore(s, v) == head + rest by {
      WithScoreCons(s[0], s[1..], v);
      assert [s[0]] + s[1..] == s;
    }
    assert head + (inserted + rest) == inserted + (head + rest) by {
      SwapEmpty(head, inserted, rest);
    }
  }

  /** Of two lists at most one of which is non-empty, either may come first. */
  lemma SwapEmpty(a: seq<SearchResult>, b: seq<SearchResult>, c: seq<SearchResult>)
    requires a == [] || b == []
    ensures a + (b + c) == b + (a + c)
  {
    if a == [] {
      assert a + (b + c) == b + c;
      assert a + c == c;
    } else {
      assert b + c == c;
      assert b + (a + c) == a + c;
    }
  }

  /**
   * The sort is a stable descending sort: its output is sorted, and for
   * every score the entries with that score are exactly those of the input,
   * in the input's order (which also makes it a permutation).
   */
  lemma {:induction false} SortByScoreIsStable(s: seq<SearchResult>)
    ensures Sorted(SortByScore(s))
    ensures multiset(SortByScore(s)) == multiset(s)
    ensures forall v :: WithScore(SortByScore(s), v) == WithScore(s, v)
  {
    if s != [] {
      SortByScoreIsStable(s[1..]);
      InsertSorted(s[0], SortByScore(s[1..]));
      forall v ensures WithScore(SortByScore(s), v) == WithScore(s, v) {
        InsertWithScore(s[0], SortByScore(s[1..]), v);
      }
    }
  }

  /** Filtering a prefix by score gives a prefix of the filtered list. */
  lemma {:induction false} WithScoreOfPrefix(s: seq<SearchResult>, n: nat, v: real)
    requires n <= |s|
    ensures IsPrefix(WithScore(s[..n], v), WithScore(s, v))
  {
    if n > 0 {
      WithScoreOfPrefix(s[1..], n - 1, v);
      assert s[..n][1..] == s[1..][..n - 1];
    }
  }

  /** A list all of whose entries have score `v` is its own filter by `v`. */
  lemma {:induction false} WithScoreOfUniform(s: seq<SearchResult>, v: real)
    requires forall i :: 0 <= i < |s| ==> s[i].score == v
    ensures WithScore(s, v) == s
  {
    if s != [] {
      WithScoreOfUniform(s[1..], v);
    }
  }

  /** Sorting a list whose scores are all equal leaves it as it is. */
  lemma SortUniform(s: seq<SearchResult>, v: real)
    requires forall i :: 0 <= i < |s| ==> s[i].score == v
    ensures SortByScore(s) == s
  {
    SortByScoreIsStable(s);
    var r := SortByScore(s);
    forall i | 0 <= i < |r| ensures r[i].score == v {
      assert r[i] in multiset(s);
    }
    WithScoreOfUniform(s, v);
    WithScoreOfUniform(r, v);
  }
  /** Sorting then cutting to a limit: `sorted(s, reverse=True)[:n]` by score. */
  function Ranked(s: seq<SearchResult>, n: int): seq<SearchResult> {
    Truncate(SortByScore(s), n)
  }

  /**
   * Sorting then cutting to a limit: the result is sorted, drawn from the
   * input, keeps equal scores in input order, holds `min(n, |s|)` entries
   * for a non-negative limit, is a permutation of the input when the limit
   * allows it all, and scores no lower than any entry it leaves out.
   */
  lemma RankedPrefix(s: seq<SearchResult>, n: int)
    ensures Sorted(Ranked(s, n))
    ensures forall i :: 0 <= i < |Ranked(s, n)| ==> Ranked(s, n)[i] in s
    ensures forall v :: IsPrefix(WithScore(Ranked(s, n), v), WithScore(s, v))
    ensures n >= 0 ==> |Ranked(s, n)| == if n <= |s| then n else |s|
    ensures n >= |s| ==> multiset(Ranked(s, n)) == multiset(s)
    ensures forall i, y :: 0 <= i < |Ranked(s, n)| && y in multiset(s) - multiset(Ranked(s, n)) ==>
      Ranked(s, n)[i].score >= y.score
  {
    RankedSortedPrefix(s, n);
    RankedMembers(s, n);
    RankedStable(s, n);
    RankedCount(s, n);
    LeftOutScoreLower(SortByScore(s), |Ranked(s, n)|);
  }

  /** The ranked list is a sorted prefix of the sorted input, which is as long as the input. */
  lemma RankedSortedPrefix(s: seq<SearchResult>, n: int)
    ensures |SortByScore(s)| == |s| && multiset(SortByScore(s)) == multiset(s)
    ensures Ranked(s, n) == SortByScore(s)[..|Ranked(s, n)|]
    ensures Sorted(SortByScore(s)) && Sorted(Ranked(s, n))
  {
    var sorted := SortByScore(s);
    var r := Ranked(s, n);
    SortByScoreIsStable(s);
    assert |sorted| == |multiset(sorted)|;
    assert forall i :: 0 <= i < |r| ==> r[i] == sorted[i];
  }

  /** Every ranked entry comes from the input. */
  lemma RankedMembers(s: seq<SearchResult>, n: int)
    ensures forall i :: 0 <= i < |Ranked(s, n)| ==> Ranked(s, n)[i] in s
  {
    var sorted := SortByScore(s);
    var r := Ranked(s, n);
    RankedSortedPrefix(s, n);
    forall i | 0 <= i < |r| ensures r[i] in s {
      assert r[i] == sorted[i];
      assert sorted[i] in multiset(s);
    }
  }

  /** The ranked entries of each score are the first entries of that score in the input. */
  lemma RankedStable(s: seq<SearchResult>, n: int)
    ensures forall v :: IsPrefix(WithScore(Ranked(s, n), v), WithScore(s, v))
  {
    var sorted := SortByScore(s);
    var r := Ranked(s, n);
    SortByScoreIsStable(s);
    RankedSortedPrefix(s, n);
    forall v ensures IsPrefix(WithScore(r, v), WithScore(s, v)) {
      WithScoreOfPrefix(sorted, |r|, v);
    }
  }

  /** The ranked list holds `min(n, |s|)` entries for `n >= 0`, and all of `s` once `n` covers it. */
  lemma RankedCount(s: seq<SearchResult>, n: int)
    ensures n >= 0 ==> |Ranked(s, n)| == if n <= |s| then n else |s|
    ensures n >= |s| ==> multiset(Ranked(s, n)) == multiset(s)
  {
    RankedSortedPrefix(s, n);
    if n >= |s| {
      assert Ranked(s, n) == SortByScore(s);
    }
  }

  /** In a sorted list, every entry of a prefix scores at least as high as every entry after it. */
  lemma LeftOutScoreLower(sorted: seq<SearchResult>, k: nat)
    requires Sorted(sorted) && k <= |sorted|
    ensures forall i, y :: 0 <= i < k && y in multiset(sorted) - multiset(sorted[..k]) ==>
      sorted[i].score >= y.score
  {
    assert sorted == sorted[..k] + sorted[k..];
    assert multiset(sorted) - multiset(sorted[..k]) == multiset(sorted[k..]);
    forall i, y | 0 <= i < k && y in multiset(sorted) - multiset(sorted[..k])
      ensures sorted[i].score >= y.score
    {
      assert y in sorted[k..];
      var j :| 0 <= j < |sorted[k..]| && sorted[k..][j] == y;
      assert sorted[k + j] == y;
    }
  }
}
