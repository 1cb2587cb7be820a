/**
 * The engine's priority queue of scored edges. The source keeps a binary heap of
 * tuples (-score, job id, candidate id); this model keeps the same tuples as a
 * sequence sorted on that key, so that the first element is what a heap pop
 * returns and a push is an ordered insertion.
 */
module EdgeQueue {

  /** A scored (job, candidate) pair. */
  datatype Edge = Edge(score: real, job: string, cand: string)

  /** Python's order on strings: lexicographic by code point, a proper prefix first. */
  predicate StrLess(a: string, b: string)
    decreases |a|
  {
    if a == [] then b != []
    else if b == [] then false
    else a[0] < b[0] || (a[0] == b[0] && StrLess(a[1..], b[1..]))
  }

  lemma {:induction false} StrLessIrreflexive(a: string)
    ensures !StrLess(a, a)
    decreases |a|
  {
    if a != [] {
      StrLessIrreflexive(a[1..]);
    }
  }

  lemma {:induction false} StrLessTotal(a: string, b: string)
    ensures a == b || StrLess(a, b) || StrLess(b, a)
    decreases |a|
  {
    if a != [] && b != [] && a[0] == b[0] {
      StrLessTotal(a[1..], b[1..]);
      if a[1..] == b[1..] {
        assert a == [a[0]] + a[1..] && b == [b[0]] + b[1..];
      }
    }
  }

  lemma {:induction false} StrLessTransitive(a: string, b: string, c: string)
    requires StrLess(a, b) && StrLess(b, c)
    ensures StrLess(a, c)
    decreases |a|
  {
    if a != [] && a[0] == b[0] && b[0] == c[0] {
      StrLessTransitive(a[1..], b[1..], c[1..]);
    }
  }

  /** The reflexive order "a <= b", written as "not b < a", is transitive. */
  lemma StrNotLessTransitive(a: string, b: string, c: string)
    requires !StrLess(b, a) && !StrLess(c, b)
    ensures !StrLess(c, a)
  {
    StrLessTotal(a, b);
    StrLessTotal(b, c);
    if StrLess(c, a) && StrLess(a, b) {
      StrLessTransitive(c, a, b);
    }
  }

  /**
   * True when a pops no later than b: the heap key (-score, job, candidate) of a is
   * at most that of b.
   */
  predicate KeyLe(a: Edge, b: Edge)
  {
    a.score > b.score ||
    (a.score == b.score && (StrLess(a.job, b.job) || (a.job == b.job && !StrLess(b.cand, a.cand))))
  }

  /** The heap key order is a total order. */
  lemma KeyLeTotalOrder(a: Edge, b: Edge, c: Edge)
    ensures KeyLe(a, a)
    ensures KeyLe(a, b) || KeyLe(b, a)
    ensures KeyLe(a, b) && KeyLe(b, a) ==> a == b
    ensures KeyLe(a, b) && KeyLe(b, c) ==> KeyLe(a, c)
  {
    StrLessIrreflexive(a.cand);
    StrLessTotal(a.job, b.job);
    StrLessTotal(a.cand, b.cand);
    if StrLess(a.job, b.job) && StrLess(b.job, a.job) {
      StrLessTransitive(a.job, b.job, a.job);
      StrLessIrreflexive(a.job);
    }
    if StrLess(a.cand, b.cand) && StrLess(b.cand, a.cand) {
      StrLessTransitive(a.cand, b.cand, a.cand);
      StrLessIrreflexive(a.cand);
    }
    if KeyLe(a, b) && KeyLe(b, c) {
      if StrLess(a.job, b.job) && StrLess(b.job, c.job) {
        StrLessTransitive(a.job, b.job, c.job);
      }
      if !StrLess(b.cand, a.cand) && !StrLess(c.cand, b.cand) {
        StrNotLessTransitive(a.cand, b.cand, c.cand);
      }
    }
  }

  /** The queue invariant: ordered by heap key, so the head is what a heap pop returns. */
  ghost predicate Sorted(q: seq<Edge>)
  {
    forall i, j :: 0 <= i < j < |q| ==> KeyLe(q[i], q[j])
  }

  /** The head of a sorted queue has the highest score and the least key. */
  lemma HeadIsMax(q: seq<Edge>, e: Edge)
    requires Sorted(q) && e in q
    ensures KeyLe(q[0], e) && e.score <= q[0].score
  {
    KeyLeTotalOrder(q[0], q[0], q[0]);
  }

  /** Popping n edges off a sorted queue leaves it sorted. */
  lemma SortedDrop(q: seq<Edge>, n: nat)
    requires Sorted(q) && n <= |q|
    ensures Sorted(q[n..])
  {
    forall i, j | 0 <= i < j < |q[n..]|
      ensures KeyLe(q[n..][i], q[n..][j])
    {
      assert q[n..][i] == q[n + i] && q[n..][j] == q[n + j];
    }
  }

  /** heappush: insert e keeping the queue sorted; the contents gain exactly e. */
  function Push(q: seq<Edge>, e: Edge): (r: seq<Edge>)
    requires Sorted(q)
    ensures Sorted(r)
    ensures multiset(r) == multiset(q) + multiset{e}
  {
    if q == [] then [e]
    else if KeyLe(e, q[0]) then
      PushFront(q, e);
      [e] + q
    else
      SortedDrop(q, 1);
      var rest := Push(q[1..], e);
      PushBehind(q, e, rest);
      [q[0]] + rest
  }

  /** An edge that keys no later than every edge of a sorted queue may go in front of it. */
  lemma SortedCons(y: Edge, q: seq<Edge>)
    requires Sorted(q) && forall x | x in q :: KeyLe(y, x)
    ensures Sorted([y] + q)
  {
    forall i, j | 0 <= i < j < |[y] + q|
      ensures KeyLe(([y] + q)[i], ([y] + q)[j])
    {
      if i == 0 {
        assert ([y] + q)[j] == q[j - 1];
      } else {
        assert ([y] + q)[i] == q[i - 1] && ([y] + q)[j] == q[j - 1];
      }
    }
  }

  /** The push that lands at the head. */
  lemma PushFront(q: seq<Edge>, e: Edge)
    requires Sorted(q) && q != [] && KeyLe(e, q[0])
    ensures Sorted([e] + q)
  {
    forall x | x in q
      ensures KeyLe(e, x)
    {
      KeyLeTotalOrder(e, q[0], x);
    }
    SortedCons(e, q);
  }

  /** The push that goes past the head: the head stays in front of the rest with e in it. */
  lemma PushBehind(q: seq<Edge>, e: Edge, rest: seq<Edge>)
    requires Sorted(q) && q != [] && !KeyLe(e, q[0])
    requires Sorted(rest) && multiset(rest) == multiset(q[1..]) + multiset{e}
    ensures Sorted([q[0]] + rest)
    ensures multiset([q[0]] + rest) == multiset(q) + multiset{e}
  {
    KeyLeTotalOrder(e, q[0], e);
    forall x | x in rest
      ensures KeyLe(q[0], x)
    {
      assert x in multiset(rest);
      if x != e {
        assert x in q[1..];
      }
    }
    SortedCons(q[0], rest);
    assert q == [q[0]] + q[1..];
  }
}
