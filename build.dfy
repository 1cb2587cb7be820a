/**
 * build_graph_and_heap on values. The engine scores every (job, candidate) pair,
 * jobs in insertion order on the outside and candidates in insertion order inside,
 * and keeps the pairs whose score is strictly above the threshold. Each kept edge is
 * appended to its job's adjacency list and pushed on the queue.
 */
module Build {
  import opened Scoring
  import opened EdgeQueue

  /** Every id of the order is a key of the map. */
  ghost predicate Covers<T>(order: seq<string>, m: map<string, T>)
  {
    forall x | x in order :: x in m
  }

  /** The edges of one job, candidates in order, that clear minScore. */
  function Row(jid: string, job: Job, candOrder: seq<string>, cands: map<string, Candidate>, minScore: real): (r: seq<Edge>)
    requires Covers(candOrder, cands)
    ensures |r| <= |candOrder|
  {
    if candOrder == [] then []
    else
      var init := candOrder[..|candOrder| - 1];
      var cid := candOrder[|candOrder| - 1];
      assert forall x | x in init :: x in candOrder;
      var s := CalculateScore(cands[cid], job, DefaultWeights);
      var row := Row(jid, job, init, cands, minScore);
      if s > minScore then row + [Edge(s, jid, cid)] else row
  }

  /** A row holds exactly the candidates of the order whose score with the job clears minScore. */
  lemma {:induction false} RowMembers(jid: string, job: Job, candOrder: seq<string>, cands: map<string, Candidate>, minScore: real, e: Edge)
    requires Covers(candOrder, cands)
    ensures e in Row(jid, job, candOrder, cands, minScore) <==>
      e.job == jid && e.cand in candOrder &&
      e.score == CalculateScore(cands[e.cand], job, DefaultWeights) && e.score > minScore
  {
    if candOrder != [] {
      var init := candOrder[..|candOrder| - 1];
      assert forall x | x in init :: x in candOrder;
      assert candOrder == init + [candOrder[|candOrder| - 1]];
      RowMembers(jid, job, init, cands, minScore, e);
    }
  }

  /** Before the first candidate: an empty row, and nothing appended or pushed. */
  lemma RowNothing(jid: string, job: Job, cands: map<string, Candidate>, minScore: real,
                   g: map<string, seq<(string, real)>>, h: seq<Edge>)
    requires Sorted(h)
    ensures Covers([], cands) && Row(jid, job, [], cands, minScore) == []
    ensures AppendEdges(g, []) == g && PushAll(h, []) == h
  {
  }

  /** Scoring one more candidate of the order extends the row by its edge, if it clears minScore. */
  lemma RowSnoc(jid: string, job: Job, candOrder: seq<string>, cands: map<string, Candidate>, minScore: real, i: nat)
    requires Covers(candOrder, cands) && i < |candOrder|
    ensures Covers(candOrder[..i], cands) && Covers(candOrder[..i + 1], cands) && candOrder[i] in cands
    ensures var s := CalculateScore(cands[candOrder[i]], job, DefaultWeights);
      Row(jid, job, candOrder[..i + 1], cands, minScore) ==
        Row(jid, job, candOrder[..i], cands, minScore) + if s > minScore then [Edge(s, jid, candOrder[i])] else []
  {
    hide CalculateScore;
    assert candOrder[..i + 1][..i] == candOrder[..i];
  }

  /** All edges build_graph_and_heap creates, in creation order. */
  function BuildEdges(jobOrder: seq<string>, jobs: map<string, Job>, candOrder: seq<string>, cands: map<string, Candidate>, minScore: real): (r: seq<Edge>)
    requires Covers(jobOrder, jobs) && Covers(candOrder, cands)
  {
    if jobOrder == [] then []
    else
      var init := jobOrder[..|jobOrder| - 1];
      var jid := jobOrder[|jobOrder| - 1];
      assert forall x | x in init :: x in jobOrder;
      BuildEdges(init, jobs, candOrder, cands, minScore) + Row(jid, jobs[jid], candOrder, cands, minScore)
  }

  /** Before the first job: no edges, and nothing appended or pushed. */
  lemma BuildNothing(jobs: map<string, Job>, candOrder: seq<string>, cands: map<string, Candidate>, minScore: real,
                     g: map<string, seq<(string, real)>>, h: seq<Edge>)
    requires Covers(candOrder, cands) && Sorted(h)
    ensures Covers([], jobs) && BuildEdges([], jobs, candOrder, cands, minScore) == []
    ensures AppendEdges(g, []) == g && PushAll(h, []) == h
  {
  }

  /** Scoring one more job of the order appends its row. */
  lemma BuildSnoc(jobOrder: seq<string>, jobs: map<string, Job>, candOrder: seq<string>, cands: map<string, Candidate>, minScore: real, i: nat)
    requires Covers(jobOrder, jobs) && Covers(candOrder, cands) && i < |jobOrder|
    ensures Covers(jobOrder[..i], jobs) && Covers(jobOrder[..i + 1], jobs) && jobOrder[i] in jobs
    ensures BuildEdges(jobOrder[..i + 1], jobs, candOrder, cands, minScore) ==
      BuildEdges(jobOrder[..i], jobs, candOrder, cands, minScore) + Row(jobOrder[i], jobs[jobOrder[i]], candOrder, cands, minScore)
  {
    hide Row;
    assert jobOrder[..i + 1][..i] == jobOrder[..i];
  }

  /** At most one edge per (job, candidate) pair: edges_created <= |jobs| * |candidates|. */
  lemma {:induction false} BuildCount(jobOrder: seq<string>, jobs: map<string, Job>, candOrder: seq<string>, cands: map<string, Candidate>, minScore: real)
    requires Covers(jobOrder, jobs) && Covers(candOrder, cands)
    ensures |BuildEdges(jobOrder, jobs, candOrder, cands, minScore)| <= |jobOrder| * |candOrder|
  {
    hide Row, CalculateScore;
    if jobOrder != [] {
      var init := jobOrder[..|jobOrder| - 1];
      assert forall x | x in init :: x in jobOrder;
      BuildCount(init, jobs, candOrder, cands, minScore);
      assert |init| * |candOrder| + |candOrder| == |jobOrder| * |candOrder|;
    }
  }

  /**
   * An edge is created exactly when its job and candidate are loaded, its score is the
   * weighted score of the pair, and that score is strictly above minScore.
   */
  lemma {:induction false} BuildMembers(jobOrder: seq<string>, jobs: map<string, Job>, candOrder: seq<string>, cands: map<string, Candidate>, minScore: real, e: Edge)
    requires Covers(jobOrder, jobs) && Covers(candOrder, cands)
    ensures e in BuildEdges(jobOrder, jobs, candOrder, cands, minScore) <==>
      e.job in jobOrder && e.cand in candOrder &&
      e.score == CalculateScore(cands[e.cand], jobs[e.job], DefaultWeights) && e.score > minScore
  {
    if jobOrder != [] {
      var init := jobOrder[..|jobOrder| - 1];
      var jid := jobOrder[|jobOrder| - 1];
      assert forall x | x in init :: x in jobOrder;
      assert jobOrder == init + [jid];
      BuildMembers(init, jobs, candOrder, cands, minScore, e);
      RowMembers(jid, jobs[jid], candOrder, cands, minScore, e);
    }
  }

  /** Every created edge clears the threshold. */
  lemma BuildThreshold(jobOrder: seq<string>, jobs: map<string, Job>, candOrder: seq<string>, cands: map<string, Candidate>, minScore: real)
    requires Covers(jobOrder, jobs) && Covers(candOrder, cands)
    ensures forall e | e in BuildEdges(jobOrder, jobs, candOrder, cands, minScore) :: e.score > minScore
  {
    forall e | e in BuildEdges(jobOrder, jobs, candOrder, cands, minScore)
      ensures e.score > minScore
    {
      BuildMembers(jobOrder, jobs, candOrder, cands, minScore, e);
    }
  }

  /** The adjacency dict g after appending the edges of es, in order, to their jobs' lists. */
  function AppendEdges(g: map<string, seq<(string, real)>>, es: seq<Edge>): map<string, seq<(string, real)>>
  {
    if es == [] then g
    else
      var g' := AppendEdges(g, es[..|es| - 1]);
      var e := es[|es| - 1];
      g'[e.job := (if e.job in g' then g'[e.job] else []) + [(e.cand, e.score)]]
  }

  /** The adjacency dict after appending the edges of log, in order, to a defaultdict(list). */
  function Group(log: seq<Edge>): map<string, seq<(string, real)>>
  {
    AppendEdges(map[], log)
  }

  /** Appending one more edge appends its (candidate, score) to its job's list. */
  lemma AppendEdgesSnoc(g: map<string, seq<(string, real)>>, es: seq<Edge>, e: Edge)
    ensures var g' := AppendEdges(g, es);
      AppendEdges(g, es + [e]) == g'[e.job := (if e.job in g' then g'[e.job] else []) + [(e.cand, e.score)]]
  {
    assert (es + [e])[..|es|] == es;
  }

  /** Appending a then b is appending a + b. */
  lemma {:induction false} AppendEdgesConcat(g: map<string, seq<(string, real)>>, a: seq<Edge>, b: seq<Edge>)
    ensures AppendEdges(AppendEdges(g, a), b) == AppendEdges(g, a + b)
  {
    if b != [] {
      var init := b[..|b| - 1];
      AppendEdgesConcat(g, a, init);
      assert (a + b)[..|a + b| - 1] == a + init;
      assert (a + b)[|a + b| - 1] == b[|b| - 1];
    } else {
      assert a + b == a;
    }
  }

  /** The adjacency list of job j: the (candidate, score) of each edge of log for j, in order. */
  function Column(log: seq<Edge>, j: string): (r: seq<(string, real)>)
    ensures |r| <= |log|
  {
    if log == [] then []
    else
      var e := log[|log| - 1];
      Column(log[..|log| - 1], j) + if e.job == j then [(e.cand, e.score)] else []
  }

  /**
   * The dict has a key for exactly the jobs with at least one edge, and the list of
   * each is that job's column of the log.
   */
  lemma {:induction false} GroupColumns(log: seq<Edge>, j: string)
    ensures j in Group(log) <==> Column(log, j) != []
    ensures j in Group(log) ==> Group(log)[j] == Column(log, j)
  {
    if log != [] {
      GroupColumns(log[..|log| - 1], j);
    }
  }

  /** A (candidate, score) entry sits in job j's column exactly when the edge is in the log. */
  lemma {:induction false} ColumnMembers(log: seq<Edge>, j: string, c: string, s: real)
    ensures (c, s) in Column(log, j) <==> Edge(s, j, c) in log
  {
    if log != [] {
      var init := log[..|log| - 1];
      ColumnMembers(init, j, c, s);
      assert log == init + [log[|log| - 1]];
    }
  }

  /** The queue after pushing the edges of es, in order, onto h. */
  function PushAll(h: seq<Edge>, es: seq<Edge>): (r: seq<Edge>)
    requires Sorted(h)
    ensures Sorted(r)
    ensures multiset(r) == multiset(h) + multiset(es)
  {
    if es == [] then h
    else
      var init := es[..|es| - 1];
      assert es == init + [es[|es| - 1]];
      Push(PushAll(h, init), es[|es| - 1])
  }

  /** Pushing one more edge is one more heappush. */
  lemma PushAllSnoc(h: seq<Edge>, es: seq<Edge>, e: Edge)
    requires Sorted(h)
    ensures PushAll(h, es + [e]) == Push(PushAll(h, es), e)
  {
    hide Push, Sorted;
    assert (es + [e])[..|es|] == es;
  }

  /** Pushing a then b is pushing a + b. */
  lemma {:induction false} PushAllConcat(h: seq<Edge>, a: seq<Edge>, b: seq<Edge>)
    requires Sorted(h)
    ensures PushAll(PushAll(h, a), b) == PushAll(h, a + b)
  {
    hide Push, Sorted;
    if b != [] {
      var init := b[..|b| - 1];
      PushAllConcat(h, a, init);
      assert (a + b)[..|a + b| - 1] == a + init;
      assert (a + b)[|a + b| - 1] == b[|b| - 1];
    } else {
      assert a + b == a;
    }
  }
}
