/**
 * The significance filter of the gene browser: drop rows with a missing
 * p-value or Cohen's d, keep the rows that clear the cutoffs on either
 * comparison, and rank them by their smaller p-value.
 */
module SignificanceFilter {
  import opened Wrappers
  import opened GeneStats

  /**
   * The rows of `stats` that have all four filter columns, in table order.
   * Each such row keeps its multiplicity; every other row is gone.
   */
  function DropIncomplete(stats: seq<GeneStatRecord>): (r: seq<GeneStatRecord>)
    ensures AllComplete(r)
    ensures forall x :: multiset(r)[x] == if Complete(x) then multiset(stats)[x] else 0
  {
    if stats == [] then []
    else
      assert stats == [stats[0]] + stats[1..];
      (if Complete(stats[0]) then [stats[0]] else []) + DropIncomplete(stats[1..])
  }

  /** Dropping incomplete rows works row by row, so the relative order of the survivors is kept. */
  lemma {:induction false} DropIncompleteAppend(a: seq<GeneStatRecord>, b: seq<GeneStatRecord>)
    ensures DropIncomplete(a + b) == DropIncomplete(a) + DropIncomplete(b)
  {
    if a == [] {
      assert a + b == b;
    } else {
      assert (a + b)[1..] == a[1..] + b;
      DropIncompleteAppend(a[1..], b);
    }
  }

  /** The rows of a table of complete rows that are significant at the given cutoffs, in table order. */
  function ThresholdFilter(stats: seq<GeneStatRecord>, pThresh: real, dThresh: real): (r: seq<GeneStatRecord>)
    requires AllComplete(stats)
    ensures AllComplete(r)
    ensures forall x :: x in r ==> Significant(x, pThresh, dThresh)
    ensures forall x :: multiset(r)[x] == if Retained(x, pThresh, dThresh) then multiset(stats)[x] else 0
  {
    if stats == [] then []
    else
      assert stats == [stats[0]] + stats[1..];
      (if Significant(stats[0], pThresh, dThresh) then [stats[0]] else [])
        + ThresholdFilter(stats[1..], pThresh, dThresh)
  }

  /** The significance mask works row by row, so the relative order of the kept rows is unchanged. */
  lemma {:induction false} ThresholdFilterAppend(a: seq<GeneStatRecord>, b: seq<GeneStatRecord>, pThresh: real, dThresh: real)
    requires AllComplete(a) && AllComplete(b)
    ensures ThresholdFilter(a + b, pThresh, dThresh) == ThresholdFilter(a, pThresh, dThresh) + ThresholdFilter(b, pThresh, dThresh)
  {
    if a == [] {
      assert a + b == b;
    } else {
      assert (a + b)[1..] == a[1..] + b;
      ThresholdFilterAppend(a[1..], b, pThresh, dThresh);
    }
  }

  /** A key-sorted sequence stays sorted when a row with a key no larger than all of its keys goes in front. */
  lemma SortedCons(h: GeneStatRecord, t: seq<GeneStatRecord>)
    requires Complete(h) && AllComplete(t) && SortedByKey(t)
    requires forall y :: y in t ==> RankKey(h) <= RankKey(y)
    ensures AllComplete([h] + t) && SortedByKey([h] + t)
  {
    var r := [h] + t;
    forall i, j | 0 <= i < j < |r| ensures RankKey(r[i]) <= RankKey(r[j]) {
      assert r[j] == t[j - 1];
      if i > 0 {
        assert r[i] == t[i - 1];
      }
    }
  }

  /** The first row of a key-sorted sequence has the least key. */
  lemma HeadIsLeast(s: seq<GeneStatRecord>)
    requires s != [] && AllComplete(s) && SortedByKey(s)
    ensures forall y :: y in s ==> RankKey(s[0]) <= RankKey(y)
  {
    forall y | y in s ensures RankKey(s[0]) <= RankKey(y) {
      var k :| 0 <= k < |s| && s[k] == y;
      if k > 0 {
        assert RankKey(s[0]) <= RankKey(s[k]);
      }
    }
  }

  /** Puts `x` into a key-sorted sequence, keeping it sorted and adding nothing else. */
  function Insert(x: GeneStatRecord, s: seq<GeneStatRecord>): (r: seq<GeneStatRecord>)
    requires Complete(x) && AllComplete(s) && SortedByKey(s)
    ensures forall y :: y in r ==> y == x || y in s
    ensures AllComplete(r) && SortedByKey(r)
    ensures multiset(r) == multiset(s) + multiset{x}
  {
    if s == [] || RankKey(x) <= RankKey(s[0]) then [x] + s
    else
      var t := Insert(x, s[1..]);
      HeadIsLeast(s);
      assert s == [s[0]] + s[1..];
      SortedCons(s[0], t);
      [s[0]] + t
  }

  /**
   * Orders complete rows by ascending ranking key. The result is a
   * permutation of the input; no order among equal keys is promised.
   */
  function SortByKey(s: seq<GeneStatRecord>): (r: seq<GeneStatRecord>)
    requires AllComplete(s)
    ensures AllComplete(r) && SortedByKey(r)
    ensures multiset(r) == multiset(s)
  {
    if s == [] then []
    else
      assert s == [s[0]] + s[1..];
      Insert(s[0], SortByKey(s[1..]))
  }

  /**
   * The whole filter: incomplete rows dropped, significant rows kept, ranked
   * ascending by the smaller of their two p-values.
   */
  function FilterAndRank(stats: seq<GeneStatRecord>, pThresh: real, dThresh: real): (r: seq<GeneStatRecord>)
    ensures AllComplete(r) && SortedByKey(r)
    ensures forall x :: x in r ==> Retained(x, pThresh, dThresh) && RankKey(x) < pThresh
    ensures forall x :: multiset(r)[x] == if Retained(x, pThresh, dThresh) then multiset(stats)[x] else 0
  {
    var r := SortByKey(ThresholdFilter(DropIncomplete(stats), pThresh, dThresh));
    assert forall x :: x in r ==> Retained(x, pThresh, dThresh) && RankKey(x) < pThresh by {
      forall x | x in r ensures Retained(x, pThresh, dThresh) && RankKey(x) < pThresh {
        assert x in multiset(r);
        RetainedKeyBelowCutoff(x, pThresh, dThresh);
      }
    }
    r
  }

  /** The "Gene" column of a table, in row order. */
  function GeneList(s: seq<GeneStatRecord>): (genes: seq<Gene>)
    ensures |genes| == |s|
    ensures forall i :: 0 <= i < |s| ==> genes[i] == s[i].gene
  {
    seq(|s|, i requires 0 <= i < |s| => s[i].gene)
  }

  /** Membership in the ranked output: a row appears exactly when it is in the table, complete and significant. */
  lemma RankedMembership(stats: seq<GeneStatRecord>, pThresh: real, dThresh: real, x: GeneStatRecord)
    ensures x in FilterAndRank(stats, pThresh, dThresh) <==> x in stats && Retained(x, pThresh, dThresh)
  {
    var r := FilterAndRank(stats, pThresh, dThresh);
    assert x in r <==> x in multiset(r);
    assert x in stats <==> x in multiset(stats);
  }

  /** A row missing any of the four filter values never reaches the output, whatever the cutoffs. */
  lemma IncompleteNeverRanked(stats: seq<GeneStatRecord>, pThresh: real, dThresh: real, x: GeneStatRecord)
    requires !Complete(x)
    ensures x !in FilterAndRank(stats, pThresh, dThresh)
  {
    RankedMembership(stats, pThresh, dThresh, x);
  }

  /** Every gene of a sub-multiset of rows is a gene of the larger collection. */
  lemma GenesOfSubMultiset(a: seq<GeneStatRecord>, b: seq<GeneStatRecord>)
    requires multiset(a) <= multiset(b)
    ensures forall g :: g in GeneList(a) ==> g in GeneList(b)
  {
    forall g | g in GeneList(a) ensures g in GeneList(b) {
      var i :| 0 <= i < |a| && GeneList(a)[i] == g;
      assert a[i] in multiset(b);
      assert a[i] in b;
      var j :| 0 <= j < |b| && b[j] == a[i];
      assert GeneList(b)[j] == g;
    }
  }

  /** Tightening the cutoffs never raises the multiplicity of any row in the output. */
  lemma TighterCutoffsSubMultiset(stats: seq<GeneStatRecord>, p1: real, d1: real, p2: real, d2: real)
    requires p2 <= p1 && d1 <= d2
    ensures multiset(FilterAndRank(stats, p2, d2)) <= multiset(FilterAndRank(stats, p1, d1))
  {
    var tight, loose := FilterAndRank(stats, p2, d2), FilterAndRank(stats, p1, d1);
    forall x ensures multiset(tight)[x] <= multiset(loose)[x] {
      if Complete(x) {
        SignificantMonotone(x, p1, d1, p2, d2);
      }
    }
  }

  /**
   * Tightening the cutoffs (a smaller p cutoff, a larger effect cutoff)
   * yields no more rows and no gene that the looser cutoffs did not yield.
   */
  lemma TighterCutoffsKeepFewer(stats: seq<GeneStatRecord>, p1: real, d1: real, p2: real, d2: real)
    requires p2 <= p1 && d1 <= d2
    ensures |FilterAndRank(stats, p2, d2)| <= |FilterAndRank(stats, p1, d1)|
    ensures forall g :: g in GeneList(FilterAndRank(stats, p2, d2)) ==> g in GeneList(FilterAndRank(stats, p1, d1))
  {
    var tight, loose := FilterAndRank(stats, p2, d2), FilterAndRank(stats, p1, d1);
    TighterCutoffsSubMultiset(stats, p1, d1, p2, d2);
    assert multiset(loose) == multiset(tight) + (multiset(loose) - multiset(tight));
    assert |multiset(tight)| <= |multiset(loose)|;
    GenesOfSubMultiset(tight, loose);
  }

  /** An empty statistics table yields an empty ranking, not an error. */
  lemma EmptyTableRanksNothing(pThresh: real, dThresh: real)
    ensures FilterAndRank([], pThresh, dThresh) == []
  {
  }

  /**
   * Two genes, each significant on a different side, with equal ranking
   * keys: both are kept, and either may come first.
   */
  lemma TwoGeneScenario()
    ensures var a := GeneStatRecord("A", None, Some(0.001), Some(0.5), None, Some(0.2), Some(0.1));
            var b := GeneStatRecord("B", None, Some(0.2), Some(0.1), None, Some(0.001), Some(0.6));
            var r := FilterAndRank([a, b], 0.05, 0.3);
            (r == [a, b] || r == [b, a]) && RankKey(a) == RankKey(b) == 0.001
  {
    var a := GeneStatRecord("A", None, Some(0.001), Some(0.5), None, Some(0.2), Some(0.1));
    var b := GeneStatRecord("B", None, Some(0.2), Some(0.1), None, Some(0.001), Some(0.6));
    var r := FilterAndRank([a, b], 0.05, 0.3);
    assert Retained(a, 0.05, 0.3) && Retained(b, 0.05, 0.3);
    forall x ensures multiset(r)[x] == multiset{a, b}[x] {
      assert multiset([a, b]) == multiset{a, b};
    }
    assert multiset(r) == multiset{a, b};
    PairPermutation(r, a, b);
  }

  /** A sequence holding exactly two distinct elements lists them in one of two orders. */
  lemma PairPermutation<T>(r: seq<T>, a: T, b: T)
    requires a != b && multiset(r) == multiset{a, b}
    ensures r == [a, b] || r == [b, a]
  {
    assert |r| == |multiset(r)| == 2;
    assert r[0] in multiset(r) && r[1] in multiset(r);
  }
}
