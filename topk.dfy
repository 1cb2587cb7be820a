/**
 * get_top_k_per_job on one adjacency list: sort the (candidate, score) entries by
 * score, best first, with the stable order of Python's sorted(..., reverse=True),
 * then keep the slice [:k].
 */
module Shortlist {

  type Entry = (string, real)

  /** Scores never increase from first to last. */
  ghost predicate Descending(s: seq<Entry>)
  {
    forall i, j :: 0 <= i < j < |s| ==> s[i].1 >= s[j].1
  }

  /**
   * Insert x into a descending list after every entry scoring at least as much, so an
   * entry inserted later stays behind earlier entries of equal score.
   */
  function InsertDesc(q: seq<Entry>, x: Entry): (r: seq<Entry>)
    requires Descending(q)
    ensures Descending(r)
    ensures multiset(r) == multiset(q) + multiset{x}
  {
    if q == [] then [x]
    else if q[0].1 >= x.1 then
      DescendingTail(q);
      var rest := InsertDesc(q[1..], x);
      InsertDescBehind(q, x, rest);
      [q[0]] + rest
    else
      ConsDescending(x, q);
      [x] + q
  }

  lemma DescendingTail(q: seq<Entry>)
    requires Descending(q) && q != []
    ensures Descending(q[1..])
  {
    forall i, j | 0 <= i < j < |q[1..]|
      ensures q[1..][i].1 >= q[1..][j].1
    {
      assert q[1..][i] == q[i + 1] && q[1..][j] == q[j + 1];
    }
  }

  /** The insert that goes past the head: the head stays in front of the rest with x in it. */
  lemma InsertDescBehind(q: seq<Entry>, x: Entry, rest: seq<Entry>)
    requires Descending(q) && q != [] && q[0].1 >= x.1
    requires Descending(rest) && multiset(rest) == multiset(q[1..]) + multiset{x}
    ensures Descending([q[0]] + rest)
    ensures multiset([q[0]] + rest) == multiset(q) + multiset{x}
  {
    forall y | y in rest
      ensures y.1 <= q[0].1
    {
      assert y in multiset(rest);
    }
    ConsDescending(q[0], rest);
    assert q == [q[0]] + q[1..];
  }

  /** Putting an entry that scores at least as much as all of q in front keeps q descending. */
  lemma ConsDescending(y: Entry, q: seq<Entry>)
    requires Descending(q) && forall z | z in q :: z.1 <= y.1
    ensures Descending([y] + q)
  {
    forall i, j | 0 <= i < j < |[y] + q|
      ensures ([y] + q)[i].1 >= ([y] + q)[j].1
    {
      if i == 0 {
        assert ([y] + q)[j] == q[j - 1];
      }
    }
  }

  /** sorted(entries, key=score, reverse=True). */
  function SortDesc(s: seq<Entry>): (r: seq<Entry>)
    ensures Descending(r)
    ensures multiset(r) == multiset(s)
    ensures |r| == |s|
  {
    if s == [] then []
    else
      assert s == s[..|s| - 1] + [s[|s| - 1]];
      var r := InsertDesc(SortDesc(s[..|s| - 1]), s[|s| - 1]);
      assert |r| == |multiset(r)| == |multiset(s)| == |s|;
      r
  }

  /** The entries of s that score exactly x, in their order in s. */
  function WithScore(s: seq<Entry>, x: real): (r: seq<Entry>)
    ensures |r| <= |s|
  {
    if s == [] then []
    else (if s[0].1 == x then [s[0]] else []) + WithScore(s[1..], x)
  }

  lemma {:induction false} WithScoreConcat(a: seq<Entry>, b: seq<Entry>, x: real)
    ensures WithScore(a + b, x) == WithScore(a, x) + WithScore(b, x)
  {
    hide WithScore;
    if a == [] {
      assert a + b == b;
    } else {
      var q := a[1..];
      var h := if a[0].1 == x then [a[0]] else [];
      assert a == [a[0]] + q;
      assert a + b == [a[0]] + (q + b);
      WithScoreConcat(q, b, x);
      WithScoreCons(a[0], q + b, x);
      WithScoreCons(a[0], q, x);
      assert h + (WithScore(q, x) + WithScore(b, x)) == (h + WithScore(q, x)) + WithScore(b, x);
    }
  }

  lemma {:induction false} WithScoreNone(q: seq<Entry>, x: real)
    requires forall z | z in q :: z.1 != x
    ensures WithScore(q, x) == []
  {
    hide WithScore;
    if q != [] {
      assert q[0] in q;
      assert q == [q[0]] + q[1..];
      WithScoreNone(q[1..], x);
      WithScoreCons(q[0], q[1..], x);
    } else {
      WithScoreEmpty(x);
    }
  }

  lemma WithScoreEmpty(x: real)
    ensures WithScore([], x) == []
  {
  }

  lemma WithScoreCons(y: Entry, q: seq<Entry>, x: real)
    ensures WithScore([y] + q, x) == (if y.1 == x then [y] else []) + WithScore(q, x)
  {
    assert ([y] + q)[0] == y && ([y] + q)[1..] == q;
  }

  /** The three cases of InsertDesc, one unfolding each. */
  lemma InsertDescCases(q: seq<Entry>, y: Entry)
    requires Descending(q)
    ensures q == [] ==> InsertDesc(q, y) == [y]
    ensures q != [] && q[0].1 >= y.1 ==>
      Descending(q[1..]) && InsertDesc(q, y) == [q[0]] + InsertDesc(q[1..], y)
    ensures q != [] && q[0].1 < y.1 ==>
      InsertDesc(q, y) == [y] + q && forall z | z in q :: z.1 < y.1
  {
    if q != [] {
      DescendingTail(q);
      forall z | z in q
        ensures z.1 <= q[0].1
      {
        var i :| 0 <= i < |q| && q[i] == z;
        assert i == 0 || q[0].1 >= q[i].1;
      }
    }
  }

  /** An insert adds the new entry after every entry of the same score already there. */
  lemma {:induction false} InsertDescStable(q: seq<Entry>, e: Entry, x: real)
    requires Descending(q)
    ensures WithScore(InsertDesc(q, e), x) == WithScore(q, x) + (if e.1 == x then [e] else [])
  {
    hide InsertDesc, WithScore, Descending;
    InsertDescCases(q, e);
    var h := if e.1 == x then [e] else [];
    if q == [] {
      WithScoreCons(e, [], x);
      WithScoreEmpty(x);
      assert [e] + [] == [e];
    } else if q[0].1 >= e.1 {
      var g := if q[0].1 == x then [q[0]] else [];
      calc {
        WithScore(InsertDesc(q, e), x);
        == { WithScoreCons(q[0], InsertDesc(q[1..], e), x); }
        g + WithScore(InsertDesc(q[1..], e), x);
        == { InsertDescStable(q[1..], e, x); }
        g + (WithScore(q[1..], x) + h);
        == { WithScoreCons(q[0], q[1..], x); assert [q[0]] + q[1..] == q; }
        WithScore(q, x) + h;
      }
    } else {
      WithScoreCons(e, q, x);
      if e.1 == x {
        WithScoreNone(q, x);
      }
    }
  }

  /**
   * The sort is stable: the entries of any one score come out in the order they went
   * in, as Python's sorted keeps them with reverse=True.
   */
  lemma {:induction false} SortDescStable(s: seq<Entry>, x: real)
    ensures WithScore(SortDesc(s), x) == WithScore(s, x)
  {
    hide SortDesc, InsertDesc, WithScore, Descending;
    if s == [] {
      SortDescEmpty();
    } else {
      var init, last := s[..|s| - 1], s[|s| - 1];
      var h := if last.1 == x then [last] else [];
      calc {
        WithScore(SortDesc(s), x);
        == { SortDescLast(s); }
        WithScore(InsertDesc(SortDesc(init), last), x);
        == { SortDescLast(s); InsertDescStable(SortDesc(init), last, x); }
        WithScore(SortDesc(init), x) + h;
        == { SortDescStable(init, x); }
        WithScore(init, x) + h;
        == { WithScoreCons(last, [], x); WithScoreEmpty(x); assert [last] + [] == [last]; }
        WithScore(init, x) + WithScore([last], x);
        == { WithScoreConcat(init, [last], x); assert init + [last] == s; }
        WithScore(s, x);
      }
    }
  }

  lemma SortDescEmpty()
    ensures SortDesc([]) == []
  {
  }

  lemma SortDescLast(s: seq<Entry>)
    requires s != []
    ensures Descending(SortDesc(s[..|s| - 1]))
    ensures SortDesc(s) == InsertDesc(SortDesc(s[..|s| - 1]), s[|s| - 1])
  {
  }

  /** The end index of the Python slice [:k] on a list of length n. */
  function SliceEnd(n: nat, k: int): (e: nat)
    ensures e <= n
    ensures k >= 0 ==> e == if k < n then k else n
    ensures k < 0 ==> e == if n + k > 0 then n + k else 0
  {
    if k >= 0 then (if k < n then k else n)
    else if n + k > 0 then n + k else 0
  }

  /**
   * The top-k list of one job: as many entries as the slice [:k] keeps, which is
   * min(k, |s|) for k >= 0.
   */
  function TopK(s: seq<Entry>, k: int): (r: seq<Entry>)
    ensures |r| == SliceEnd(|s|, k)
    ensures k >= 0 ==> |r| == if k < |s| then k else |s|
    ensures k < 0 ==> |r| == if |s| + k > 0 then |s| + k else 0
  {
    SortDesc(s)[..SliceEnd(|s|, k)]
  }

  /**
   * The top-k list is best first, is drawn from s, and no entry of s left out scores
   * above an entry kept.
   */
  lemma TopKBest(s: seq<Entry>, k: int)
    ensures Descending(TopK(s, k))
    ensures multiset(TopK(s, k)) <= multiset(s)
    ensures forall x: Entry, i: int | x in multiset(s) - multiset(TopK(s, k)) && 0 <= i < |TopK(s, k)| ::
      x.1 <= TopK(s, k)[i].1
  {
    var sorted := SortDesc(s);
    var n := SliceEnd(|s|, k);
    var r, rest := sorted[..n], sorted[n..];
    assert TopK(s, k) == r;
    SplitMultiset(sorted, n);
    CutBelow(sorted, n);
  }

  /**
   * Among the entries of one score, the top-k list keeps the earliest ones of s: the
   * tie order of the adjacency list decides which equal scores make the cut.
   */
  lemma TopKStable(s: seq<Entry>, k: int, x: real)
    ensures WithScore(TopK(s, k), x) <= WithScore(s, x)
  {
    var sorted := SortDesc(s);
    var n := SliceEnd(|s|, k);
    assert sorted == sorted[..n] + sorted[n..];
    WithScoreConcat(sorted[..n], sorted[n..], x);
    SortDescStable(s, x);
  }

  lemma SplitMultiset(q: seq<Entry>, n: nat)
    requires n <= |q|
    ensures multiset(q) - multiset(q[..n]) == multiset(q[n..])
    ensures multiset(q[..n]) <= multiset(q)
  {
    assert q == q[..n] + q[n..];
  }

  /** In a descending list, every entry after the cut scores at most every entry before it. */
  lemma CutBelow(sorted: seq<Entry>, n: nat)
    requires Descending(sorted) && n <= |sorted|
    ensures forall x: Entry, i: int | x in multiset(sorted[n..]) && 0 <= i < n :: x.1 <= sorted[i].1
  {
    forall x: Entry, i: int | x in multiset(sorted[n..]) && 0 <= i < n
      ensures x.1 <= sorted[i].1
    {
      var m :| 0 <= m < |sorted[n..]| && sorted[n..][m] == x;
      assert sorted[n + m] == x;
    }
  }
}
