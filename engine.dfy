/**
 * The SkillMatch360 engine: dictionaries of candidates and jobs, the bipartite graph
 * of edges above a threshold, the priority queue, the ranked index of matches, the
 * two assignment dictionaries and the run counters, all updated in place.
 *
 * Python dicts keep insertion order; the model keeps the key order of candidates and
 * jobs, which the build iterates, in a sequence beside each map. The other dicts are
 * plain maps.
 */
module Engine {
  import opened Scoring
  import opened EdgeQueue
  import opened MatchIndex
  import opened Greedy
  import opened Build
  import opened Shortlist

  /** No id occurs twice. */
  ghost predicate Distinct(s: seq<string>)
  {
    forall i, j | 0 <= i < j < |s| :: s[i] != s[j]
  }

  /** order lists the keys of m in insertion order, each once. */
  ghost predicate OrderOf<T>(order: seq<string>, m: map<string, T>)
  {
    Distinct(order) && (forall x | x in order :: x in m) && (forall x | x in m :: x in order)
  }

  /** A sequence without repeats has as many distinct elements as entries. */
  lemma {:induction false} DistinctCard(order: seq<string>)
    requires Distinct(order)
    ensures |(set x | x in order)| == |order|
  {
    if order != [] {
      var init, x := order[..|order| - 1], order[|order| - 1];
      assert Distinct(init) by {
        forall i, j | 0 <= i < j < |init| ensures init[i] != init[j] {
          assert init[i] == order[i] && init[j] == order[j];
        }
      }
      DistinctCard(init);
      assert (set y | y in order) == (set y | y in init) + {x};
      assert x !in (set y | y in init);
    }
  }

  /** A dict has as many keys as its insertion order has entries. */
  lemma OrderCard<T>(order: seq<string>, m: map<string, T>)
    requires OrderOf(order, m)
    ensures |m| == |order|
  {
    DistinctCard(order);
    assert m.Keys == (set y | y in order);
  }

  class SkillMatch360 {
    var candidates: map<string, Candidate>
    var candOrder: seq<string>
    var jobs: map<string, Job>
    var jobOrder: seq<string>
    /** job id -> [(candidate id, score)], a defaultdict(list). */
    var graph: map<string, seq<(string, real)>>
    /** The priority queue, as a sequence sorted on the heap key. */
    var heap: seq<Edge>
    var matchBst: MatchBST
    var jobAssigned: map<string, string>
    var candidateAssigned: map<string, string>
    var edgesCreated: nat
    var edgesProcessed: nat
    var matchesMade: nat
    var tiesBroken: nat
    /** Every edge added to the graph, in creation order. */
    ghost var created: seq<Edge>
    /** Every committed edge, in commit order. */
    ghost var committed: seq<Edge>
    /** The greedy state as last established; Valid ties it to the fields. */
    ghost var view: State
    ghost var Repr: set<object>

    /** The part of the engine greedy_matching works on. */
    ghost function Snapshot(): State
      reads this, matchBst, matchBst.root
    {
      State(heap, jobAssigned, candidateAssigned, matchBst.Model(), committed, edgesProcessed, matchesMade, tiesBroken)
    }

    /** The part of the engine greedy_matching leaves alone. */
    ghost function Catalogue(): (map<string, Candidate>, seq<string>, map<string, Job>, seq<string>,
                                 map<string, seq<(string, real)>>, seq<Edge>, nat, MatchBST)
      reads this
    {
      (candidates, candOrder, jobs, jobOrder, graph, created, edgesCreated, matchBst)
    }

    ghost predicate Valid()
      reads this, Repr
    {
      matchBst in Repr && matchBst.Repr <= Repr &&
      IndexOwned(matchBst, Repr, this, matchesMade, committed) && view == Snapshot() &&
      Consistent(candOrder, candidates, jobOrder, jobs, graph, created, edgesCreated, view)
    }

    /** An engine with nothing loaded. */
    constructor ()
      ensures Valid() && fresh(Repr)
      ensures candidates == map[] && jobs == map[] && graph == map[] && heap == []
      ensures jobAssigned == map[] && candidateAssigned == map[] && matchBst.Model() == Leaf
      ensures edgesCreated == 0 && edgesProcessed == 0 && matchesMade == 0 && tiesBroken == 0
    {
      candidates := map[];
      candOrder := [];
      jobs := map[];
      jobOrder := [];
      graph := map[];
      heap := [];
      var bst := new MatchBST();
      matchBst := bst;
      jobAssigned := map[];
      candidateAssigned := map[];
      edgesCreated := 0;
      edgesProcessed := 0;
      matchesMade := 0;
      tiesBroken := 0;
      created := [];
      committed := [];
      view := Init([]);
      Repr := {this} + bst.Repr;
      new;
      hide *;
      OwnedBuild(matchBst, Repr, this, matchesMade, committed);
      SnapshotFields();
      EmptyConsistent();
      Pack();
    }

    /** add_candidate: store under its id; a repeated id replaces the record and keeps its place. */
    method AddCandidate(c: Candidate)
      requires Valid()
      modifies this
      ensures Valid() && Repr == old(Repr)
      ensures candidates == old(candidates)[c.id := c]
      ensures candOrder == if c.id in old(candidates) then old(candOrder) else old(candOrder) + [c.id]
      ensures jobs == old(jobs) && jobOrder == old(jobOrder) && graph == old(graph) && created == old(created)
      ensures Snapshot() == old(Snapshot())
    {
      hide Inv, Ledger, Sorted, Ranked, Group, MatchBST.Valid;
      if c.id !in candidates {
        candOrder := candOrder + [c.id];
      }
      candidates := candidates[c.id := c];
    }

    /** add_job: store under its id; a repeated id replaces the record and keeps its place. */
    method AddJob(j: Job)
      requires Valid()
      modifies this
      ensures Valid() && Repr == old(Repr)
      ensures jobs == old(jobs)[j.id := j]
      ensures jobOrder == if j.id in old(jobs) then old(jobOrder) else old(jobOrder) + [j.id]
      ensures candidates == old(candidates) && candOrder == old(candOrder) && graph == old(graph) && created == old(created)
      ensures Snapshot() == old(Snapshot())
    {
      hide Inv, Ledger, Sorted, Ranked, Group, MatchBST.Valid;
      if j.id !in jobs {
        jobOrder := jobOrder + [j.id];
      }
      jobs := jobs[j.id := j];
    }

    /**
     * build_graph_and_heap: score every (job, candidate) pair in insertion order and
     * add each pair scoring strictly above minScore to its job's list and to the queue.
     */
    method BuildGraphAndHeap(minScore: real)
      requires Valid()
      modifies this
      ensures Valid() && Repr == old(Repr)
      ensures created == old(created) + BuildEdges(jobOrder, jobs, candOrder, candidates, minScore)
      ensures heap == PushAll(old(heap), BuildEdges(jobOrder, jobs, candOrder, candidates, minScore))
      ensures edgesCreated == old(edgesCreated) + |BuildEdges(jobOrder, jobs, candOrder, candidates, minScore)|
      ensures candidates == old(candidates) && candOrder == old(candOrder) && jobs == old(jobs) && jobOrder == old(jobOrder)
      ensures Snapshot() == old(Snapshot()).(heap := heap)
    {
      hide *;
      Unpack();
      SnapshotFields();
      ghost var s0, created0 := view, created;
      BuildConsistent(candOrder, candidates, jobOrder, jobs, created0, s0, minScore);
      ghost var es := BuildEdges(jobOrder, jobs, candOrder, candidates, minScore);
      var g, h, n := ScorePairs(jobOrder, jobs, candOrder, candidates, minScore, graph, heap);
      graph, heap, edgesCreated, created, view := g, h, edgesCreated + n, created + es, s0.(heap := h);
      SnapshotFields();
      Pack();
    }

    /** Valid, taken apart into its three conjuncts. */
    lemma Unpack()
      requires Valid()
      ensures IndexOwned(matchBst, Repr, this, matchesMade, committed) && view == Snapshot() && this !in matchBst.Repr
      ensures Consistent(candOrder, candidates, jobOrder, jobs, graph, created, edgesCreated, view)
    {
    }

    /** Valid, put back together from its three conjuncts. */
    lemma Pack()
      requires IndexOwned(matchBst, Repr, this, matchesMade, committed) && view == Snapshot()
      requires Consistent(candOrder, candidates, jobOrder, jobs, graph, created, edgesCreated, view)
      ensures Valid()
    {
    }

    /** The catalogue is read off the fields. */
    lemma CatalogueFields()
      ensures Catalogue() == (candidates, candOrder, jobs, jobOrder, graph, created, edgesCreated, matchBst)
    {
    }

    /** The greedy state is read off the fields. */
    lemma SnapshotFields()
      ensures Snapshot() == State(heap, jobAssigned, candidateAssigned, matchBst.Model(), committed, edgesProcessed, matchesMade, tiesBroken)
    {
    }

    /**
     * The outer loop of build_graph_and_heap, over the jobs in insertion order, from
     * the adjacency dict graph0 and the queue heap0: every edge created is appended to
     * its job's list, pushed, and counted.
     */
    static method ScorePairs(jobOrder: seq<string>, jobs: map<string, Job>, candOrder: seq<string>,
                             cands: map<string, Candidate>, minScore: real,
                             graph0: map<string, seq<(string, real)>>, heap0: seq<Edge>)
      returns (graph: map<string, seq<(string, real)>>, heap: seq<Edge>, count: nat)
      requires Covers(jobOrder, jobs) && Covers(candOrder, cands)
      requires Sorted(heap0)
      ensures graph == AppendEdges(graph0, BuildEdges(jobOrder, jobs, candOrder, cands, minScore))
      ensures heap == PushAll(heap0, BuildEdges(jobOrder, jobs, candOrder, cands, minScore))
      ensures count == |BuildEdges(jobOrder, jobs, candOrder, cands, minScore)|
    {
      hide *;
      BuildNothing(jobs, candOrder, cands, minScore, graph0, heap0);
      assert jobOrder[..0] == [];
      graph, heap, count := graph0, heap0, 0;
      ghost var done: seq<Edge> := [];
      for ji := 0 to |jobOrder|
        invariant Covers(jobOrder[..ji], jobs)
        invariant done == BuildEdges(jobOrder[..ji], jobs, candOrder, cands, minScore)
        invariant graph == AppendEdges(graph0, done) && heap == PushAll(heap0, done) && count == |done|
      {
        BuildSnoc(jobOrder, jobs, candOrder, cands, minScore, ji);
        var jid := jobOrder[ji];
        var g, h, n := ScoreRow(jid, jobs[jid], candOrder, cands, minScore, graph, heap);
        ghost var row := Row(jid, jobs[jid], candOrder, cands, minScore);
        AppendEdgesConcat(graph0, done, row);
        PushAllConcat(heap0, done, row);
        graph, heap, count := g, h, count + n;
        done := done + row;
      }
      assert jobOrder[..|jobOrder|] == jobOrder;
    }

    /**
     * The inner loop of build_graph_and_heap: score one job against every candidate in
     * insertion order and append, push and count each edge above minScore.
     */
    static method ScoreRow(jid: string, job: Job, candOrder: seq<string>, cands: map<string, Candidate>, minScore: real,
                           graph0: map<string, seq<(string, real)>>, heap0: seq<Edge>)
      returns (graph: map<string, seq<(string, real)>>, heap: seq<Edge>, count: nat)
      requires Covers(candOrder, cands) && Sorted(heap0)
      ensures graph == AppendEdges(graph0, Row(jid, job, candOrder, cands, minScore))
      ensures heap == PushAll(heap0, Row(jid, job, candOrder, cands, minScore))
      ensures count == |Row(jid, job, candOrder, cands, minScore)|
    {
      hide *;
      RowNothing(jid, job, cands, minScore, graph0, heap0);
      assert candOrder[..0] == [];
      graph, heap, count := graph0, heap0, 0;
      ghost var done: seq<Edge> := [];
      for ci := 0 to |candOrder|
        invariant Covers(candOrder[..ci], cands)
        invariant done == Row(jid, job, candOrder[..ci], cands, minScore)
        invariant graph == AppendEdges(graph0, done) && heap == PushAll(heap0, done) && count == |done|
      {
        RowSnoc(jid, job, candOrder, cands, minScore, ci);
        var cid := candOrder[ci];
        var score := CalculateScore(cands[cid], job, DefaultWeights);
        if score > minScore {
          var e := Edge(score, jid, cid);
          AppendEdgesSnoc(graph0, done, e);
          PushAllSnoc(heap0, done, e);
          graph := graph[jid := (if jid in graph then graph[jid] else []) + [(cid, score)]];
          heap := Push(heap, e);
          count := count + 1;
          done := done + [e];
        }
      }
      assert candOrder[..|candOrder|] == candOrder;
    }

    /**
     * greedy_matching: while the queue is not empty, run one round of the outer loop.
     * The engine ends in the state Run computes from the one it started in.
     */
    method GreedyMatching(eps: real, pick: (nat, nat) -> nat)
      requires Valid()
      modifies Repr
      ensures Valid() && fresh(Repr - old(Repr))
      ensures Snapshot() == Run(old(Snapshot()), eps, pick)
      ensures Catalogue() == old(Catalogue())
      ensures heap == [] && forall e | e in created :: e.job in jobAssigned || e.cand in candidateAssigned
    {
      hide *;
      Unpack();
      SnapshotFields();
      CatalogueFields();
      ghost var s0 := view;
      GreedyConsistent(candOrder, candidates, jobOrder, jobs, graph, created, edgesCreated, s0, eps, pick);
      while heap != []
        invariant IndexOwned(matchBst, Repr, this, matchesMade, committed) && this !in matchBst.Repr
        invariant matchBst.Repr <= Repr && fresh(Repr - old(Repr))
        invariant Catalogue() == old(Catalogue())
        invariant Sorted(heap) && Snapshot().heap == heap
        invariant Run(Snapshot(), eps, pick) == Run(s0, eps, pick)
        decreases |heap|
      {
        ghost var before := Snapshot();
        RunStep(before, eps, pick);
        Round(eps, pick);
        SnapshotFields();
      }
      RunDone(Snapshot(), eps, pick);
      SnapshotFields();
      CatalogueFields();
      view := Snapshot();
      SnapshotFields();
      CatalogueFields();
      Pack();
      Unpack();
      DrainedAllocated(candOrder, candidates, jobOrder, jobs, graph, created, edgesCreated, view);
    }

    /**
     * One iteration of the outer loop of greedy_matching: pop the best edge; skip it if
     * an endpoint is allocated; otherwise gather the edges tied with it, keep the valid
     * ones, commit one (the oracle picks on a real tie) and re-push the others that stay
     * free. The greedy state becomes Step of what it was.
     */
    method Round(eps: real, pick: (nat, nat) -> nat)
      requires IndexOwned(matchBst, Repr, this, matchesMade, committed) && this !in matchBst.Repr
      requires heap != [] && Sorted(heap)
      modifies this, matchBst.Repr
      ensures IndexOwned(matchBst, Repr, this, matchesMade, committed) && this !in matchBst.Repr
      ensures Repr == old(Repr) + matchBst.Repr && fresh(matchBst.Repr - old(matchBst.Repr))
      ensures Catalogue() == old(Catalogue())
      ensures Snapshot() == Step(old(Snapshot()), eps, pick)
    {
      hide *;
      OwnedParts(matchBst, Repr, this, matchesMade, committed);
      SnapshotFields();
      CatalogueFields();
      ghost var before := Snapshot();
      SortedDrop(heap, 1);
      var seed := heap[0];
      if seed.job in jobAssigned || seed.cand in candidateAssigned {
        heap := heap[1..];
        edgesProcessed := edgesProcessed + 1;
        StepSkip(before, eps, pick);
        OwnedBuild(matchBst, Repr, this, matchesMade, committed);
        SnapshotFields();
        CatalogueFields();
        return;
      }
      StepSettle(before, eps, pick);
      var chosen, h, n, broke := ResolveTie(seed, heap[1..], eps, pick, jobAssigned, candidateAssigned, tiesBroken);
      Record(chosen, h, edgesProcessed + 1 + n, if broke then tiesBroken + 1 else tiesBroken);
    }

    /**
     * Record the chosen match: allocate its job and candidate to each other, insert it
     * in the ranked index and count it; the queue and the two counters take the values
     * the tie branch left them with. The greedy state becomes Commit of what it was.
     */
    method Record(e: Edge, h: seq<Edge>, processed: nat, ties: nat)
      requires IndexOwned(matchBst, Repr, this, matchesMade, committed) && this !in matchBst.Repr
      modifies this, matchBst.Repr
      ensures IndexOwned(matchBst, Repr, this, matchesMade, committed) && this !in matchBst.Repr
      ensures Repr == old(Repr) + matchBst.Repr && fresh(matchBst.Repr - old(matchBst.Repr))
      ensures Catalogue() == old(Catalogue())
      ensures Snapshot() == Commit(old(Snapshot()), e, h, processed, ties)
    {
      hide *;
      OwnedParts(matchBst, Repr, this, matchesMade, committed);
      CatalogueFields();
      ghost var st := Snapshot();
      Allocate(e, h, processed, ties);
      CatalogueFields();
      Rank(e);
      CatalogueFields();
      CommitParts(st, e, h, processed, ties);
    }

    /** The allocation half of a commit, with the queue and counters the tie branch left. */
    method Allocate(e: Edge, h: seq<Edge>, processed: nat, ties: nat)
      requires IndexOwned(matchBst, Repr, this, matchesMade, committed) && this !in matchBst.Repr
      modifies this
      ensures IndexOwned(matchBst, Repr, this, matchesMade, committed) && this !in matchBst.Repr
      ensures Repr == old(Repr) && Catalogue() == old(Catalogue())
      ensures Snapshot() == old(Snapshot()).(heap := h, processed := processed, ties := ties,
                                             jobAssigned := old(Snapshot()).jobAssigned[e.job := e.cand],
                                             candAssigned := old(Snapshot()).candAssigned[e.cand := e.job])
    {
      hide *;
      OwnedParts(matchBst, Repr, this, matchesMade, committed);
      SnapshotFields();
      CatalogueFields();
      heap, edgesProcessed, tiesBroken := h, processed, ties;
      jobAssigned := jobAssigned[e.job := e.cand];
      candidateAssigned := candidateAssigned[e.cand := e.job];
      SnapshotFields();
      CatalogueFields();
    }

    /** The ranking half of a commit: insert the match in the ranked index and count it. */
    method Rank(e: Edge)
      requires IndexOwned(matchBst, Repr, this, matchesMade, committed) && this !in matchBst.Repr
      modifies this, matchBst.Repr
      ensures IndexOwned(matchBst, Repr, this, matchesMade, committed) && this !in matchBst.Repr
      ensures Repr == old(Repr) + matchBst.Repr && fresh(matchBst.Repr - old(matchBst.Repr))
      ensures Catalogue() == old(Catalogue())
      ensures Snapshot() == old(Snapshot()).(ranking := InsertTree(old(Snapshot()).ranking, e.score, Pair(e.job, e.cand)),
                                             committed := old(Snapshot()).committed + [e], matches := old(Snapshot()).matches + 1)
    {
      hide *;
      OwnedParts(matchBst, Repr, this, matchesMade, committed);
      SnapshotFields();
      CatalogueFields();
      matchBst.Insert(e.score, e.job, e.cand);
      matchesMade := matchesMade + 1;
      PairsOfConcat(committed, [e]);
      committed := committed + [e];
      Repr := Repr + matchBst.Repr;
      OwnedBuild(matchBst, Repr, this, matchesMade, committed);
      SnapshotFields();
      CatalogueFields();
    }

    /**
     * The tie branch of greedy_matching's outer loop, for a free seed popped off the
     * queue with rest left: gather the tie group, keep its valid edges, choose one
     * (broke says whether the oracle was asked), and re-push the others that stay free
     * once the chosen edge is allocated; n edges were popped for the group.
     */
    static method ResolveTie(seed: Edge, rest: seq<Edge>, eps: real, pick: (nat, nat) -> nat,
                             ja: map<string, string>, ca: map<string, string>, ties: nat)
      returns (chosen: Edge, h: seq<Edge>, n: nat, broke: bool)
      requires Sorted(rest) && seed.job !in ja && seed.cand !in ca
      ensures Tie(chosen, h, n, broke) == Resolution(seed, rest, eps, pick, ja, ca, ties)
    {
      var tied, left := GatherTies(seed, rest, eps);
      n := |tied| - 1;
      var valid := ValidEdges(tied, ja, ca);
      broke := |valid| > 1;
      if broke {
        chosen := valid[pick(ties, |valid|) % |valid|];
      } else {
        chosen := valid[0];
      }
      SortedDrop(rest, n);
      h := Requeue(left, valid, chosen, ja[chosen.job := chosen.cand], ca[chosen.cand := chosen.job]);
    }

    /**
     * The tie-gathering loop of greedy_matching: pop from rest every leading edge whose
     * score is within eps of the seed's. Returns the tie group and what is left.
     */
    static method GatherTies(seed: Edge, rest: seq<Edge>, eps: real) returns (tied: seq<Edge>, h: seq<Edge>)
      ensures tied == TieGroup(seed, rest, eps)
      ensures h == rest[TieCount(rest, seed.score, eps)..]
    {
      h, tied := rest, [seed];
      ghost var i := 0;
      while h != [] && Abs(h[0].score - seed.score) <= eps
        invariant i <= |rest| && h == rest[i..] && tied == [seed] + rest[..i]
        invariant forall k | 0 <= k < i :: Abs(rest[k].score - seed.score) <= eps
        decreases |h|
      {
        assert rest[..i + 1] == rest[..i] + [rest[i]];
        tied := tied + [h[0]];
        h := h[1..];
        i := i + 1;
      }
      TieCountIs(rest, seed.score, eps, i);
    }

    /**
     * The re-push loop of greedy_matching: push, in order, every edge of valid other
     * than the chosen one whose endpoints are both still free.
     */
    static method Requeue(base: seq<Edge>, valid: seq<Edge>, chosen: Edge, ja: map<string, string>, ca: map<string, string>)
      returns (h: seq<Edge>)
      requires Sorted(base)
      ensures h == Repush(base, valid, chosen, ja, ca)
    {
      h := base;
      for k := 0 to |valid|
        invariant h == Repush(base, valid[..k], chosen, ja, ca)
      {
        assert valid[..k + 1][..k] == valid[..k];
        var e := valid[k];
        if e != chosen && e.job !in ja && e.cand !in ca {
          h := Push(h, e);
        }
      }
      assert valid[..|valid|] == valid;
    }

    /** For every job with edges, its best k candidates, best first. */
    function TopKPerJob(k: int): (r: map<string, seq<Entry>>)
      reads this
      ensures r.Keys == graph.Keys
      ensures forall j | j in r :: |r[j]| == SliceEnd(|graph[j]|, k)
    {
      map j | j in graph :: TopK(graph[j], k)
    }

    /** get_top_k_per_job: one job of the adjacency dict at a time, sort and slice. */
    method GetTopKPerJob(k: int) returns (r: map<string, seq<Entry>>)
      ensures r == TopKPerJob(k)
    {
      hide TopK;
      r := map[];
      var left := graph.Keys;
      while left != {}
        invariant left <= graph.Keys
        invariant r == map j | j in graph.Keys - left :: TopK(graph[j], k)
        decreases |left|
      {
        var j :| j in left;
        r := r[j := TopK(graph[j], k)];
        left := left - {j};
      }
    }

    /**
     * Each top-k list is best first, is drawn from the job's adjacency list, leaves out
     * nothing that scores above an entry kept, and every entry is a created edge.
     */
    lemma TopKPerJobSpec(k: int)
      requires Valid()
      ensures forall j | j in TopKPerJob(k) ::
        Descending(TopKPerJob(k)[j]) && multiset(TopKPerJob(k)[j]) <= multiset(graph[j])
      ensures forall j, x: Entry, i: int | j in TopKPerJob(k) && x in multiset(graph[j]) - multiset(TopKPerJob(k)[j]) && 0 <= i < |TopKPerJob(k)[j]| ::
        x.1 <= TopKPerJob(k)[j][i].1
      ensures forall j, x: Entry | j in TopKPerJob(k) && x in TopKPerJob(k)[j] :: Edge(x.1, j, x.0) in created
    {
      hide Valid, Consistent, TopK, Group;
      Unpack();
      ConsistentGraph(candOrder, candidates, jobOrder, jobs, graph, created, edgesCreated, view);
      forall j | j in graph
        ensures Descending(TopK(graph[j], k)) && multiset(TopK(graph[j], k)) <= multiset(graph[j])
        ensures forall x: Entry, i: int | x in multiset(graph[j]) - multiset(TopK(graph[j], k)) && 0 <= i < |TopK(graph[j], k)| ::
          x.1 <= TopK(graph[j], k)[i].1
        ensures forall x: Entry | x in TopK(graph[j], k) :: Edge(x.1, j, x.0) in created
      {
        TopKOfColumn(created, j, k);
      }
    }

    /** get_assignments: a copy of job_assigned, which no two jobs share a candidate in. */
    method GetAssignments() returns (r: map<string, string>)
      requires Valid()
      ensures r == jobAssigned
      ensures forall j | j in r :: r[j] in candidateAssigned && candidateAssigned[r[j]] == j
      ensures forall j1, j2 | j1 in r && j2 in r && j1 != j2 :: r[j1] != r[j2]
      ensures forall j | j in r :: Linked(j, r[j], created)
    {
      r := jobAssigned;
      forall j | j in r
        ensures Linked(j, r[j], created)
      {
        var e :| e in committed && e.job == j;
      }
    }

    /**
     * get_ranking: the committed pairs, best score first, one triple per match, each an
     * assignment, and no more of them than jobs or candidates.
     */
    method GetRanking() returns (r: seq<Edge>)
      requires Valid()
      ensures r == Flatten(Ranked(committed))
      ensures NonIncreasing(r)
      ensures |r| == matchesMade == |jobAssigned|
      ensures multiset(PairsOf(r)) == multiset(PairsOf(committed))
      ensures forall i | 0 <= i < |r| :: r[i].job in jobAssigned && jobAssigned[r[i].job] == r[i].cand
      ensures |r| <= |jobs| && |r| <= |candidates|
    {
      hide *;
      Unpack();
      SnapshotFields();
      OwnedParts(matchBst, Repr, this, matchesMade, committed);
      r := matchBst.GetAllMatches();
      RankingAssigned(candOrder, candidates, jobOrder, jobs, graph, created, edgesCreated, view, r);
      RankingIsRanked(candOrder, candidates, jobOrder, jobs, graph, created, edgesCreated, view);
    }
  }

  /**
   * The engine's invariant on its values: each dict's key order, the adjacency dict
   * grouping the edge log, one created edge counted per entry of the log, every edge
   * between loaded ids, the greedy invariant over the log, every created edge either
   * still queued or already processed, and every created edge still queued or with an
   * allocated endpoint.
   */
  ghost predicate Consistent(candOrder: seq<string>, candidates: map<string, Candidate>, jobOrder: seq<string>,
                             jobs: map<string, Job>, graph: map<string, seq<(string, real)>>, created: seq<Edge>,
                             edgesCreated: nat, view: State)
  {
    OrderOf(candOrder, candidates) && OrderOf(jobOrder, jobs) &&
    graph == Group(created) && edgesCreated == |created| &&
    (forall e | e in created :: e.job in jobs && e.cand in candidates) &&
    Inv(view, created) && view.processed + |view.heap| >= edgesCreated &&
    Maximal(view, created)
  }

  /**
   * Once the queue of a consistent engine is empty, every created edge has an allocated
   * job or an allocated candidate: nobody is left unassigned while a viable edge remains.
   */
  lemma DrainedAllocated(candOrder: seq<string>, candidates: map<string, Candidate>, jobOrder: seq<string>,
                         jobs: map<string, Job>, graph: map<string, seq<(string, real)>>, created: seq<Edge>,
                         edgesCreated: nat, view: State)
    requires Consistent(candOrder, candidates, jobOrder, jobs, graph, created, edgesCreated, view)
    requires view.heap == []
    ensures forall e | e in created :: e.job in view.jobAssigned || e.cand in view.candAssigned
  {
    hide Inv, Group, OrderOf;
    assert Maximal(view, created);
  }

  /** A fresh engine, with nothing loaded, built or matched, is consistent. */
  lemma EmptyConsistent()
    ensures Init([]) == State([], map[], map[], Leaf, [], 0, 0, 0)
    ensures Consistent([], map[], [], map[], map[], [], 0, Init([]))
  {
    InitInv([], []);
  }

  /**
   * Building on a consistent engine keeps it consistent: the new edges join the log,
   * the adjacency dict and the queue, and nothing else of the greedy state changes.
   */
  lemma BuildConsistent(candOrder: seq<string>, candidates: map<string, Candidate>, jobOrder: seq<string>,
                        jobs: map<string, Job>, created0: seq<Edge>, s0: State, minScore: real)
    requires Consistent(candOrder, candidates, jobOrder, jobs, Group(created0), created0, |created0|, s0)
    ensures Covers(jobOrder, jobs) && Covers(candOrder, candidates) && Sorted(s0.heap)
    ensures var es := BuildEdges(jobOrder, jobs, candOrder, candidates, minScore);
      Consistent(candOrder, candidates, jobOrder, jobs, AppendEdges(Group(created0), es), created0 + es,
                 |created0| + |es|, s0.(heap := PushAll(s0.heap, es)))
  {
    var es := BuildEdges(jobOrder, jobs, candOrder, candidates, minScore);
    var h := PushAll(s0.heap, es);
    AppendEdgesConcat(map[], created0, es);
    forall e | e in es
      ensures e.job in jobs && e.cand in candidates
    {
      BuildMembers(jobOrder, jobs, candOrder, candidates, minScore, e);
    }
    assert forall x | x in h :: x in multiset(s0.heap) + multiset(es);
    assert |h| == |multiset(h)| == |s0.heap| + |es|;
    RequeueKeepsInv(s0, created0, created0 + es, h);
    PushKeepsMaximal(s0, created0, es);
  }

  /** Pushing the new edges onto the queue leaves none of the grown graph behind. */
  lemma PushKeepsMaximal(s0: State, created0: seq<Edge>, es: seq<Edge>)
    requires Sorted(s0.heap) && Maximal(s0, created0)
    ensures Maximal(s0.(heap := PushAll(s0.heap, es)), created0 + es)
  {
    var h := PushAll(s0.heap, es);
    assert forall x | x in h :: x in multiset(s0.heap) + multiset(es);
    assert forall x | x in s0.heap :: x in multiset(h);
    assert forall x | x in es :: x in multiset(h);
    RequeueKeepsMaximal(s0, created0, created0 + es, h);
  }

  /** One build creates at most one edge per loaded (job, candidate) pair. */
  lemma BuildBound(candOrder: seq<string>, candidates: map<string, Candidate>, jobOrder: seq<string>,
                   jobs: map<string, Job>, minScore: real)
    requires OrderOf(candOrder, candidates) && OrderOf(jobOrder, jobs)
    ensures |BuildEdges(jobOrder, jobs, candOrder, candidates, minScore)| <= |jobs| * |candidates|
  {
    OrderCard(candOrder, candidates);
    OrderCard(jobOrder, jobs);
    BuildCount(jobOrder, jobs, candOrder, candidates, minScore);
  }

  /**
   * A list holding the committed pairs, one entry per match, lists assignments only,
   * has one entry per allocated job, and is no longer than the jobs or the candidates.
   */
  lemma RankingAssigned(candOrder: seq<string>, candidates: map<string, Candidate>, jobOrder: seq<string>,
                        jobs: map<string, Job>, graph: map<string, seq<(string, real)>>, created: seq<Edge>,
                        edgesCreated: nat, view: State, r: seq<Edge>)
    requires Consistent(candOrder, candidates, jobOrder, jobs, graph, created, edgesCreated, view)
    requires multiset(PairsOf(r)) == multiset(PairsOf(view.committed)) && |r| == view.matches
    ensures |r| == |view.jobAssigned|
    ensures forall i | 0 <= i < |r| :: r[i].job in view.jobAssigned && view.jobAssigned[r[i].job] == r[i].cand
    ensures |r| <= |jobs| && |r| <= |candidates|
  {
    hide Sorted, Ranked, Group, AppendEdges, OrderOf, InsertTree, CalculateScore;
    PairsAssigned(view.jobAssigned, view.committed, r);
    AssignedWithinGraph(view, created);
    assert JobsOf(created) <= jobs.Keys;
    assert CandsOf(created) <= candidates.Keys;
    SubsetCard(JobsOf(created), jobs.Keys);
    SubsetCard(CandsOf(created), candidates.Keys);
  }

  /** The index of a consistent engine is the one built by inserting its committed edges in order. */
  lemma RankingIsRanked(candOrder: seq<string>, candidates: map<string, Candidate>, jobOrder: seq<string>,
                        jobs: map<string, Job>, graph: map<string, seq<(string, real)>>, created: seq<Edge>,
                        edgesCreated: nat, view: State)
    requires Consistent(candOrder, candidates, jobOrder, jobs, graph, created, edgesCreated, view)
    ensures view.ranking == Ranked(view.committed)
  {
    hide Sorted, Ranked, Group, OrderOf, Maximal, Ledger;
  }

  /** Edges whose pairs are those of the committed edges are each recorded in ja. */
  lemma PairsAssigned(ja: map<string, string>, committed: seq<Edge>, r: seq<Edge>)
    requires forall e | e in committed :: e.job in ja && ja[e.job] == e.cand
    requires multiset(PairsOf(r)) == multiset(PairsOf(committed))
    ensures forall i | 0 <= i < |r| :: r[i].job in ja && ja[r[i].job] == r[i].cand
  {
    forall i | 0 <= i < |r|
      ensures r[i].job in ja && ja[r[i].job] == r[i].cand
    {
      var p := PairsOf(r)[i];
      assert p in multiset(PairsOf(committed));
      var m :| 0 <= m < |committed| && PairsOf(committed)[m] == p;
      assert committed[m] in committed;
    }
  }

  /**
   * Running the greedy allocator on a consistent engine keeps it consistent: the
   * catalogue is untouched, and Run keeps the greedy invariant and processes every
   * queued edge.
   */
  lemma GreedyConsistent(candOrder: seq<string>, candidates: map<string, Candidate>, jobOrder: seq<string>,
                         jobs: map<string, Job>, graph: map<string, seq<(string, real)>>, created: seq<Edge>,
                         edgesCreated: nat, s0: State, eps: real, pick: (nat, nat) -> nat)
    requires Consistent(candOrder, candidates, jobOrder, jobs, graph, created, edgesCreated, s0)
    ensures Sorted(s0.heap)
    ensures Consistent(candOrder, candidates, jobOrder, jobs, graph, created, edgesCreated, Run(s0, eps, pick))
  {
    RunKeepsInv(s0, created, eps, pick);
    RunKeepsMaximal(s0, created, eps, pick);
  }

  /** The adjacency dict of a consistent engine is the grouping of its created edges. */
  lemma ConsistentGraph(candOrder: seq<string>, candidates: map<string, Candidate>, jobOrder: seq<string>, jobs: map<string, Job>,
                        graph: map<string, seq<(string, real)>>, created: seq<Edge>, edgesCreated: nat, view: State)
    requires Consistent(candOrder, candidates, jobOrder, jobs, graph, created, edgesCreated, view)
    ensures graph == Group(created)
  {
  }

  /** The top-k list of one job of the grouped edges: best first, from its list, and only created edges. */
  lemma TopKOfColumn(created: seq<Edge>, j: string, k: int)
    requires j in Group(created)
    ensures Descending(TopK(Group(created)[j], k)) && multiset(TopK(Group(created)[j], k)) <= multiset(Group(created)[j])
    ensures forall x: Entry, i: int | x in multiset(Group(created)[j]) - multiset(TopK(Group(created)[j], k)) && 0 <= i < |TopK(Group(created)[j], k)| ::
      x.1 <= TopK(Group(created)[j], k)[i].1
    ensures forall x: Entry | x in TopK(Group(created)[j], k) :: Edge(x.1, j, x.0) in created
  {
    hide TopK, Group;
    var col := Group(created)[j];
    TopKBest(col, k);
    GroupColumns(created, j);
    forall x: Entry | x in TopK(col, k)
      ensures Edge(x.1, j, x.0) in created
    {
      assert x in multiset(TopK(col, k));
      ColumnMembers(created, j, x.0, x.1);
    }
  }

  /**
   * The engine owner owns the ranked index bst within its footprint repr, and the
   * index counts and records exactly the committed matches.
   */
  ghost predicate IndexOwned(bst: MatchBST, repr: set<object>, owner: object, made: nat, committed: seq<Edge>)
    reads bst, bst.Repr
  {
    owner in repr && bst in repr && bst.Repr <= repr && owner !in bst.Repr &&
    bst.Valid() && bst.totalMatches == made && bst.Inserted == PairsOf(committed)
  }

  /** IndexOwned, taken apart into its conjuncts. */
  lemma OwnedParts(bst: MatchBST, repr: set<object>, owner: object, made: nat, committed: seq<Edge>)
    requires IndexOwned(bst, repr, owner, made, committed)
    ensures owner in repr && bst in repr && bst.Repr <= repr && owner !in bst.Repr && bst in bst.Repr
    ensures bst.Valid() && bst.totalMatches == made && bst.Inserted == PairsOf(committed)
  {
  }

  /** IndexOwned, put back together from its conjuncts. */
  lemma OwnedBuild(bst: MatchBST, repr: set<object>, owner: object, made: nat, committed: seq<Edge>)
    requires owner in repr && bst in repr && bst.Repr <= repr && owner !in bst.Repr
    requires bst.Valid() && bst.totalMatches == made && bst.Inserted == PairsOf(committed)
    ensures IndexOwned(bst, repr, owner, made, committed)
  {
  }

  /** A (job, candidate) pair that is one of the edges of g, at whatever score. */
  ghost predicate Linked(j: string, c: string, g: seq<Edge>)
  {
    exists e | e in g :: e.job == j && e.cand == c
  }
}
