/**
 * The greedy allocator of the engine, stated on values. One call of Step is one
 * iteration of the outer loop of greedy_matching: pop the best edge, gather the
 * edges tied with it, commit one still-free edge of the group and re-push the
 * others that stay free. Run repeats Step until the queue is empty; the engine's
 * imperative greedy_matching is proved to compute exactly Run.
 *
 * random.choice is an oracle: pick(t, n) names the index chosen at the t-th tie
 * break among n valid edges (reduced modulo n, so every oracle is a legal one).
 */
module Greedy {
  import opened EdgeQueue
  import opened MatchIndex
  import Scoring

  /**
   * What greedy_matching reads and writes: the queue, the two assignment maps, the
   * ranked index (as its Tree value), the committed edges in commit order (a model
   * only record) and the three counters it bumps.
   */
  datatype State = State(
    heap: seq<Edge>,
    jobAssigned: map<string, string>,
    candAssigned: map<string, string>,
    ranking: Tree,
    committed: seq<Edge>,
    processed: nat,
    matches: nat,
    ties: nat)

  /** Neither endpoint of e is allocated yet. */
  predicate Free(e: Edge, ja: map<string, string>, ca: map<string, string>)
  {
    e.job !in ja && e.cand !in ca
  }

  /** The length of the run of leading edges of h whose score is within eps of s. */
  function TieCount(h: seq<Edge>, s: real, eps: real): (n: nat)
    ensures n <= |h|
    ensures forall i | 0 <= i < n :: Abs(h[i].score - s) <= eps
    ensures n < |h| ==> Abs(h[n].score - s) > eps
  {
    if h != [] && Abs(h[0].score - s) <= eps then 1 + TieCount(h[1..], s, eps) else 0
  }

  /** tied_edges: the seed followed by the run of queued edges tied with it. */
  function TieGroup(seed: Edge, rest: seq<Edge>, eps: real): (t: seq<Edge>)
    ensures t != [] && t[0] == seed
    ensures |t| == 1 + TieCount(rest, seed.score, eps)
    ensures forall x | x in t :: x == seed || (x in rest && Abs(x.score - seed.score) <= eps)
  {
    var n := TieCount(rest, seed.score, eps);
    var t := [seed] + rest[..n];
    forall x | x in t
      ensures x == seed || (x in rest && Abs(x.score - seed.score) <= eps)
    {
      if x != seed {
        var i :| 0 <= i < n && rest[..n][i] == x;
        assert rest[i] == x;
      }
    }
    t
  }

  /** The valid_edges comprehension: the edges of es whose endpoints are both free, in order. */
  function ValidEdges(es: seq<Edge>, ja: map<string, string>, ca: map<string, string>): (r: seq<Edge>)
    ensures |r| <= |es|
    ensures forall e | e in r :: e in es && Free(e, ja, ca)
    ensures forall e | e in es && Free(e, ja, ca) :: e in r
    ensures es != [] && Free(es[0], ja, ca) ==> r != [] && r[0] == es[0]
  {
    if es == [] then []
    else
      var init := ValidEdges(es[..|es| - 1], ja, ca);
      var last := es[|es| - 1];
      assert forall e | e in es :: e in es[..|es| - 1] || e == last;
      if Free(last, ja, ca) then init + [last] else init
  }

  /** The edges of es the re-push loop puts back: not the chosen one, and still free. */
  predicate Kept(e: Edge, chosen: Edge, ja: map<string, string>, ca: map<string, string>)
  {
    e != chosen && Free(e, ja, ca)
  }

  /**
   * The re-push loop: push, in order, every edge of es that is kept. The queue stays
   * sorted, loses nothing, and gains exactly the kept edges.
   */
  function Repush(h: seq<Edge>, es: seq<Edge>, chosen: Edge, ja: map<string, string>, ca: map<string, string>): (r: seq<Edge>)
    requires Sorted(h)
    ensures Sorted(r)
    ensures forall e | e in r :: e in h || (e in es && Kept(e, chosen, ja, ca))
    ensures forall e | e in h || (e in es && Kept(e, chosen, ja, ca)) :: e in r
    ensures |h| <= |r| <= |h| + |es|
    ensures chosen in es ==> |r| < |h| + |es|
  {
    if es == [] then h
    else
      var init := Repush(h, es[..|es| - 1], chosen, ja, ca);
      var last := es[|es| - 1];
      assert forall e | e in es :: e in es[..|es| - 1] || e == last;
      if Kept(last, chosen, ja, ca) then
        var r := Push(init, last);
        assert |r| == |multiset(r)| == |init| + 1;
        assert forall e :: e in r <==> e in multiset(r);
        r
      else init
  }

  /** The edge committed out of a tie group: the oracle's pick when there is a real tie. */
  function Choose(valid: seq<Edge>, t: nat, pick: (nat, nat) -> nat): (e: Edge)
    requires valid != []
    ensures e in valid
  {
    if |valid| > 1 then valid[pick(t, |valid|) % |valid|] else valid[0]
  }

  /**
   * Record the chosen edge e: both maps, the ranked index and the match count; h is
   * the queue after the re-push, and the two counters are given.
   */
  function Commit(st: State, e: Edge, h: seq<Edge>, processed: nat, ties: nat): (r: State)
    ensures r.heap == h && r.processed == processed && r.ties == ties
    ensures r.jobAssigned == st.jobAssigned[e.job := e.cand] && r.candAssigned == st.candAssigned[e.cand := e.job]
    ensures r.ranking == InsertTree(st.ranking, e.score, Pair(e.job, e.cand))
    ensures r.committed == st.committed + [e] && r.matches == st.matches + 1
  {
    State(h, st.jobAssigned[e.job := e.cand], st.candAssigned[e.cand := e.job],
          InsertTree(st.ranking, e.score, Pair(e.job, e.cand)), st.committed + [e],
          processed, st.matches + 1, ties)
  }

  /** A commit is an allocation, with the queue and counters given, followed by a ranking. */
  lemma CommitParts(st: State, e: Edge, h: seq<Edge>, processed: nat, ties: nat)
    ensures Commit(st, e, h, processed, ties) ==
      st.(heap := h, processed := processed, ties := ties,
          jobAssigned := st.jobAssigned[e.job := e.cand], candAssigned := st.candAssigned[e.cand := e.job])
        .(ranking := InsertTree(st.ranking, e.score, Pair(e.job, e.cand)), committed := st.committed + [e], matches := st.matches + 1)
  {
  }

  /**
   * What the tie branch of one iteration decides: the edge committed, the queue after
   * the re-push, how many queued edges were popped as tied with the seed, and whether
   * the oracle broke a tie.
   */
  datatype Tie = Tie(chosen: Edge, queue: seq<Edge>, popped: nat, broke: bool)

  /**
   * The tie branch on values, for a free seed popped off the queue with rest left:
   * gather the run of edges tied with the seed, keep the valid ones, choose one, and
   * re-push the others that stay free once the chosen edge is allocated.
   */
  function Resolution(seed: Edge, rest: seq<Edge>, eps: real, pick: (nat, nat) -> nat,
                      ja: map<string, string>, ca: map<string, string>, ties: nat): (t: Tie)
    requires Sorted(rest) && seed.job !in ja && seed.cand !in ca
    ensures Sorted(t.queue) && t.popped <= |rest|
    ensures |rest| - t.popped <= |t.queue| <= |rest|
  {
    var n := TieCount(rest, seed.score, eps);
    var valid := ValidEdges(TieGroup(seed, rest, eps), ja, ca);
    var chosen := Choose(valid, ties, pick);
    assert Sorted(rest[n..]);
    var h := Repush(rest[n..], valid, chosen, ja[chosen.job := chosen.cand], ca[chosen.cand := chosen.job]);
    assert |rest[n..]| <= |h| < |rest| - n + n + 1;
    Tie(chosen, h, n, |valid| > 1)
  }

  /**
   * The tie branch commits the seed or a queued edge within eps of it, one whose
   * endpoints were both free, and re-pushes only the seed and edges that were queued.
   */
  lemma ResolutionFacts(seed: Edge, rest: seq<Edge>, eps: real, pick: (nat, nat) -> nat,
                        ja: map<string, string>, ca: map<string, string>, ties: nat)
    requires Sorted(rest) && seed.job !in ja && seed.cand !in ca
    ensures var t := Resolution(seed, rest, eps, pick, ja, ca, ties);
      (t.chosen == seed || (t.chosen in rest && Abs(t.chosen.score - seed.score) <= eps)) &&
      Free(t.chosen, ja, ca) && forall x | x in t.queue :: x == seed || x in rest
  {
    hide Sorted;
    var n := TieCount(rest, seed.score, eps);
    var tied := TieGroup(seed, rest, eps);
    var valid := ValidEdges(tied, ja, ca);
    assert valid != [];
    var chosen := Choose(valid, ties, pick);
    SortedDrop(rest, n);
    var h := Repush(rest[n..], valid, chosen, ja[chosen.job := chosen.cand], ca[chosen.cand := chosen.job]);
    assert Resolution(seed, rest, eps, pick, ja, ca, ties) == Tie(chosen, h, n, |valid| > 1);
    assert forall x | x in rest[n..] :: x in rest;
  }

  /**
   * The tie branch of one iteration: commit the chosen edge, take the re-pushed queue,
   * count the seed and its tie group as processed and the tie break if there was one.
   */
  function Settle(st: State, seed: Edge, rest: seq<Edge>, eps: real, pick: (nat, nat) -> nat): (r: State)
    requires Sorted(rest) && Free(seed, st.jobAssigned, st.candAssigned)
    ensures Sorted(r.heap)
    ensures |r.heap| <= |rest|
    ensures r.processed + |r.heap| >= st.processed + 1 + |rest|
  {
    var t := Resolution(seed, rest, eps, pick, st.jobAssigned, st.candAssigned, st.ties);
    Commit(st, t.chosen, t.queue, st.processed + 1 + t.popped, if t.broke then st.ties + 1 else st.ties)
  }

  /** One iteration of the outer loop of greedy_matching. */
  function Step(st: State, eps: real, pick: (nat, nat) -> nat): (r: State)
    requires st.heap != [] && Sorted(st.heap)
    ensures Sorted(r.heap)
    ensures |r.heap| < |st.heap|
    ensures r.processed + |r.heap| >= st.processed + |st.heap|
  {
    var seed := st.heap[0];
    var rest := st.heap[1..];
    if !Free(seed, st.jobAssigned, st.candAssigned) then
      st.(heap := rest, processed := st.processed + 1)
    else
      Settle(st, seed, rest, eps, pick)
  }

  /** greedy_matching: Step until the queue is empty. */
  function Run(st: State, eps: real, pick: (nat, nat) -> nat): (r: State)
    requires Sorted(st.heap)
    ensures r.heap == []
    ensures r.processed >= st.processed + |st.heap|
    decreases |st.heap|
  {
    if st.heap == [] then st else Run(Step(st, eps, pick), eps, pick)
  }

  /**
   * A run of i leading edges of h within eps of s, stopped by the end of h or by an
   * edge beyond eps, is exactly the run TieCount measures.
   */
  lemma {:induction false} TieCountIs(h: seq<Edge>, s: real, eps: real, i: nat)
    requires i <= |h| && forall k | 0 <= k < i :: Abs(h[k].score - s) <= eps
    requires i < |h| ==> Abs(h[i].score - s) > eps
    ensures TieCount(h, s, eps) == i
  {
    if i > 0 {
      assert forall k | 0 <= k < i - 1 :: h[1..][k] == h[k + 1];
      TieCountIs(h[1..], s, eps, i - 1);
    }
  }

  /** A step on an allocated head edge just drops it and counts it as processed. */
  lemma StepSkip(st: State, eps: real, pick: (nat, nat) -> nat)
    requires st.heap != [] && Sorted(st.heap)
    requires st.heap[0].job in st.jobAssigned || st.heap[0].cand in st.candAssigned
    ensures Step(st, eps, pick) == st.(heap := st.heap[1..], processed := st.processed + 1)
  {
  }

  /**
   * A step on a free head edge commits the chosen valid edge of its tie group, counts
   * the group as processed and re-pushes the edges that stay free onto what is left.
   */
  lemma StepSettle(st: State, eps: real, pick: (nat, nat) -> nat)
    requires st.heap != [] && Sorted(st.heap)
    requires st.heap[0].job !in st.jobAssigned && st.heap[0].cand !in st.candAssigned
    ensures Sorted(st.heap[1..])
    ensures var t := Resolution(st.heap[0], st.heap[1..], eps, pick, st.jobAssigned, st.candAssigned, st.ties);
      Step(st, eps, pick) ==
        Commit(st, t.chosen, t.queue, st.processed + 1 + t.popped, if t.broke then st.ties + 1 else st.ties)
  {
    hide Sorted, Resolution, Commit;
    SortedDrop(st.heap, 1);
  }

  /** On a non-empty queue, Run is one Step followed by Run. */
  lemma RunStep(st: State, eps: real, pick: (nat, nat) -> nat)
    requires st.heap != [] && Sorted(st.heap)
    ensures Run(st, eps, pick) == Run(Step(st, eps, pick), eps, pick)
  {
  }

  /** On an empty queue, Run changes nothing. */
  lemma RunDone(st: State, eps: real, pick: (nat, nat) -> nat)
    requires st.heap == []
    ensures Run(st, eps, pick) == st
  {
  }

  /** The state greedy_matching starts from on a freshly built engine. */
  function Init(heap: seq<Edge>): (st: State)
    ensures st.heap == heap && st.jobAssigned == map[] && st.candAssigned == map[]
    ensures st.committed == [] && st.processed == 0 && st.matches == 0 && st.ties == 0
  {
    State(heap, map[], map[], Leaf, [], 0, 0, 0)
  }

  /** job_assigned and candidate_assigned are inverse to each other. */
  ghost predicate Inverse(ja: map<string, string>, ca: map<string, string>)
  {
    (forall j | j in ja :: ja[j] in ca && ca[ja[j]] == j) &&
    (forall c | c in ca :: ca[c] in ja && ja[ca[c]] == c)
  }

  /** The ranked index built by inserting the committed edges, in order, into an empty one. */
  function Ranked(committed: seq<Edge>): Tree
  {
    if committed == [] then Leaf
    else
      var e := committed[|committed| - 1];
      InsertTree(Ranked(committed[..|committed| - 1]), e.score, Pair(e.job, e.cand))
  }

  lemma RankedSnoc(committed: seq<Edge>, e: Edge)
    ensures Ranked(committed + [e]) == InsertTree(Ranked(committed), e.score, Pair(e.job, e.cand))
  {
    assert (committed + [e])[..|committed|] == committed;
  }

  /**
   * The ranked index of the committed edges is a separated search tree with one
   * triple per committed edge, holding exactly the committed pairs.
   */
  lemma {:induction false} RankedIndex(committed: seq<Edge>)
    ensures IndexInv(Ranked(committed), |committed|, PairsOf(committed))
  {
    if committed != [] {
      var init, e := committed[..|committed| - 1], committed[|committed| - 1];
      RankedIndex(init);
      InsertKeepsInv(Ranked(init), |init|, PairsOf(init), e.score, Pair(e.job, e.cand));
      PairsOfConcat(init, [e]);
      assert committed == init + [e];
      assert PairsOf([e]) == [Pair(e.job, e.cand)];
    }
  }

  /**
   * The assignment ledger: the committed edges are exactly the entries of
   * job_assigned, the two maps are inverse, and all three have one entry per match.
   */
  ghost predicate Ledger(ja: map<string, string>, ca: map<string, string>, committed: seq<Edge>)
  {
    Inverse(ja, ca) &&
    (forall e | e in committed :: e.job in ja && ja[e.job] == e.cand) &&
    (forall j | j in ja :: exists e | e in committed :: e.job == j) &&
    |ja| == |committed| && |ca| == |committed|
  }

  /** Committing an edge with both endpoints free extends the ledger. */
  lemma LedgerCommit(ja: map<string, string>, ca: map<string, string>, committed: seq<Edge>, e: Edge)
    requires Ledger(ja, ca, committed) && Free(e, ja, ca)
    ensures Ledger(ja[e.job := e.cand], ca[e.cand := e.job], committed + [e])
  {
    var ja', c := ja[e.job := e.cand], committed + [e];
    assert forall x | x in c :: x in committed || x == e;
    forall j | j in ja'
      ensures exists x | x in c :: x.job == j
    {
      if j == e.job {
        assert e in c;
      } else {
        var x :| x in committed && x.job == j;
        assert x in c;
      }
    }
  }

  /**
   * What greedy_matching keeps true when every queued edge is an edge of the graph g:
   * the queue is sorted and drawn from g; the committed edges are edges of g and form
   * the ledger with the two maps; the ranked index is what inserting the committed
   * edges in commit order builds; and every tie break produced a match.
   */
  ghost predicate Inv(st: State, g: seq<Edge>)
  {
    Sorted(st.heap) &&
    (forall e | e in st.heap :: e in g) &&
    (forall e | e in st.committed :: e in g) &&
    Ledger(st.jobAssigned, st.candAssigned, st.committed) &&
    st.matches == |st.committed| &&
    st.ranking == Ranked(st.committed) &&
    st.ties <= st.matches
  }

  lemma InitInv(heap: seq<Edge>, g: seq<Edge>)
    requires Sorted(heap) && forall e | e in heap :: e in g
    ensures Inv(Init(heap), g)
  {
  }

  /** Growing the graph and replacing the queue by a sorted one drawn from it keeps the invariant. */
  lemma RequeueKeepsInv(st: State, g: seq<Edge>, g': seq<Edge>, h: seq<Edge>)
    requires Inv(st, g) && forall e | e in g :: e in g'
    requires Sorted(h) && forall x | x in h :: x in g'
    ensures Inv(st.(heap := h), g')
  {
  }

  /** Committing a free edge of the graph keeps the invariant. */
  lemma CommitKeepsInv(st: State, g: seq<Edge>, e: Edge, h: seq<Edge>, processed: nat, ties: nat)
    requires Inv(st, g)
    requires e in g && Free(e, st.jobAssigned, st.candAssigned)
    requires Sorted(h) && (forall x | x in h :: x in g) && ties <= st.ties + 1
    ensures Inv(Commit(st, e, h, processed, ties), g)
  {
    var r := Commit(st, e, h, processed, ties);
    LedgerCommit(st.jobAssigned, st.candAssigned, st.committed, e);
    RankedSnoc(st.committed, e);
    assert forall x | x in r.committed :: x in st.committed || x == e;
  }

  /** Settle keeps the invariant. */
  lemma SettleKeepsInv(st: State, g: seq<Edge>, eps: real, pick: (nat, nat) -> nat)
    requires Inv(st, g) && st.heap != [] && Free(st.heap[0], st.jobAssigned, st.candAssigned)
    ensures Inv(Settle(st, st.heap[0], st.heap[1..], eps, pick), g)
  {
    hide Resolution, Sorted, Ledger, Ranked, Commit, InsertTree;
    var seed, rest := st.heap[0], st.heap[1..];
    SortedDrop(st.heap, 1);
    var t := Resolution(seed, rest, eps, pick, st.jobAssigned, st.candAssigned, st.ties);
    ResolutionFacts(seed, rest, eps, pick, st.jobAssigned, st.candAssigned, st.ties);
    assert forall x | x in rest :: x in st.heap;
    assert t.chosen in g && forall x | x in t.queue :: x in g;
    CommitKeepsInv(st, g, t.chosen, t.queue, st.processed + 1 + t.popped, if t.broke then st.ties + 1 else st.ties);
  }

  /** Step keeps the invariant. */
  lemma StepKeepsInv(st: State, g: seq<Edge>, eps: real, pick: (nat, nat) -> nat)
    requires Inv(st, g) && st.heap != []
    ensures Inv(Step(st, eps, pick), g)
  {
    if Free(st.heap[0], st.jobAssigned, st.candAssigned) {
      SettleKeepsInv(st, g, eps, pick);
    } else {
      assert forall x | x in st.heap[1..] :: x in st.heap;
    }
  }

  /** Run keeps the invariant. */
  lemma {:induction false} RunKeepsInv(st: State, g: seq<Edge>, eps: real, pick: (nat, nat) -> nat)
    requires Inv(st, g)
    ensures Inv(Run(st, eps, pick), g)
    decreases |st.heap|
  {
    if st.heap != [] {
      StepKeepsInv(st, g, eps, pick);
      RunKeepsInv(Step(st, eps, pick), g, eps, pick);
    }
  }

  /**
   * One iteration either commits nothing and leaves the maps alone, or commits one
   * edge that was queued, had both endpoints free, and is the best queued edge or
   * scores within eps of it. The queue only loses edges.
   */
  lemma StepCommitsNearBest(st: State, eps: real, pick: (nat, nat) -> nat)
    requires st.heap != [] && Sorted(st.heap)
    ensures var r := Step(st, eps, pick);
      (forall x | x in r.heap :: x in st.heap) &&
      (r.committed == st.committed ==>
         r.jobAssigned == st.jobAssigned && r.candAssigned == st.candAssigned && r.ties == st.ties) &&
      (r.committed != st.committed ==>
         |r.committed| == |st.committed| + 1 &&
         var e := r.committed[|st.committed|];
         r.committed == st.committed + [e] &&
         e in st.heap && Free(e, st.jobAssigned, st.candAssigned) &&
         r.jobAssigned == st.jobAssigned[e.job := e.cand] &&
         r.candAssigned == st.candAssigned[e.cand := e.job] &&
         (e == st.heap[0] || Abs(e.score - st.heap[0].score) <= eps) &&
         forall x | x in st.heap :: x.score <= st.heap[0].score)
  {
    if Free(st.heap[0], st.jobAssigned, st.candAssigned) {
      SettleCommitsNearBest(st, eps, pick);
    } else {
      assert forall x | x in st.heap[1..] :: x in st.heap;
    }
  }

  /** The tie branch commits one queued, free edge: the best queued edge or one within eps of it. */
  lemma SettleCommitsNearBest(st: State, eps: real, pick: (nat, nat) -> nat)
    requires st.heap != [] && Sorted(st.heap) && Free(st.heap[0], st.jobAssigned, st.candAssigned)
    ensures var r := Settle(st, st.heap[0], st.heap[1..], eps, pick);
      (forall x | x in r.heap :: x in st.heap) &&
      |r.committed| == |st.committed| + 1 &&
      var e := r.committed[|st.committed|];
      r.committed == st.committed + [e] &&
      e in st.heap && Free(e, st.jobAssigned, st.candAssigned) &&
      r.jobAssigned == st.jobAssigned[e.job := e.cand] &&
      r.candAssigned == st.candAssigned[e.cand := e.job] &&
      (e == st.heap[0] || Abs(e.score - st.heap[0].score) <= eps) &&
      forall x | x in st.heap :: x.score <= st.heap[0].score
  {
    hide Resolution, Sorted;
    var seed, rest := st.heap[0], st.heap[1..];
    SortedDrop(st.heap, 1);
    ResolutionFacts(seed, rest, eps, pick, st.jobAssigned, st.candAssigned, st.ties);
    assert forall x | x in rest :: x in st.heap;
    forall x | x in st.heap
      ensures x.score <= st.heap[0].score
    {
      HeadIsMax(st.heap, x);
    }
  }

  /**
   * No edge of g is left behind: each one is still queued or has an allocated
   * endpoint. Once the queue drains, no edge of g has both endpoints free.
   */
  ghost predicate Maximal(st: State, g: seq<Edge>)
  {
    forall e | e in g :: e in st.heap || !Free(e, st.jobAssigned, st.candAssigned)
  }

  /**
   * The tie branch leaves no free edge behind: an edge that was the seed or queued and
   * had both endpoints free is re-pushed, or lost an endpoint to the chosen edge.
   */
  lemma ResolutionMaximal(seed: Edge, rest: seq<Edge>, eps: real, pick: (nat, nat) -> nat,
                          ja: map<string, string>, ca: map<string, string>, ties: nat)
    requires Sorted(rest) && seed.job !in ja && seed.cand !in ca
    ensures var t := Resolution(seed, rest, eps, pick, ja, ca, ties);
      forall e | (e == seed || e in rest) && Free(e, ja, ca) ::
        e in t.queue || !Free(e, ja[t.chosen.job := t.chosen.cand], ca[t.chosen.cand := t.chosen.job])
  {
    hide Sorted;
    var n := TieCount(rest, seed.score, eps);
    var tied := TieGroup(seed, rest, eps);
    var valid := ValidEdges(tied, ja, ca);
    var chosen := Choose(valid, ties, pick);
    var ja', ca' := ja[chosen.job := chosen.cand], ca[chosen.cand := chosen.job];
    SortedDrop(rest, n);
    var h := Repush(rest[n..], valid, chosen, ja', ca');
    assert Resolution(seed, rest, eps, pick, ja, ca, ties) == Tie(chosen, h, n, |valid| > 1);
    assert tied == [seed] + rest[..n];
    assert rest == rest[..n] + rest[n..];
    forall e | (e == seed || e in rest) && Free(e, ja, ca)
      ensures e in h || !Free(e, ja', ca')
    {
      if e !in rest[n..] {
        assert e in tied;
        if e != chosen && Free(e, ja', ca') {
          assert Kept(e, chosen, ja', ca');
        }
      }
    }
  }

  /** One iteration keeps every edge of g queued or with an allocated endpoint. */
  lemma StepKeepsMaximal(st: State, g: seq<Edge>, eps: real, pick: (nat, nat) -> nat)
    requires st.heap != [] && Sorted(st.heap) && Maximal(st, g)
    ensures Maximal(Step(st, eps, pick), g)
  {
    if Free(st.heap[0], st.jobAssigned, st.candAssigned) {
      StepSettle(st, eps, pick);
      SettleKeepsMaximal(st, g, eps, pick);
    } else {
      StepSkip(st, eps, pick);
      assert forall x | x in st.heap :: x == st.heap[0] || x in st.heap[1..];
    }
  }

  /** The tie branch keeps every edge of g queued or with an allocated endpoint. */
  lemma SettleKeepsMaximal(st: State, g: seq<Edge>, eps: real, pick: (nat, nat) -> nat)
    requires st.heap != [] && Sorted(st.heap[1..]) && Maximal(st, g)
    requires Free(st.heap[0], st.jobAssigned, st.candAssigned)
    ensures var t := Resolution(st.heap[0], st.heap[1..], eps, pick, st.jobAssigned, st.candAssigned, st.ties);
      Maximal(Commit(st, t.chosen, t.queue, st.processed + 1 + t.popped, if t.broke then st.ties + 1 else st.ties), g)
  {
    hide Resolution, Sorted, Commit, Repush, ValidEdges, TieGroup, TieCount, InsertTree;
    var seed, rest := st.heap[0], st.heap[1..];
    var ja, ca := st.jobAssigned, st.candAssigned;
    assert forall x | x in st.heap :: x == seed || x in rest;
    var t := Resolution(seed, rest, eps, pick, ja, ca, st.ties);
    ResolutionMaximal(seed, rest, eps, pick, ja, ca, st.ties);
    var r := Commit(st, t.chosen, t.queue, st.processed + 1 + t.popped, if t.broke then st.ties + 1 else st.ties);
    assert r.heap == t.queue;
    assert r.jobAssigned == ja[t.chosen.job := t.chosen.cand] && r.candAssigned == ca[t.chosen.cand := t.chosen.job];
  }

  /**
   * Growing the graph by edges that are all queued, on a queue that keeps every edge
   * it had, leaves no edge behind.
   */
  lemma RequeueKeepsMaximal(st: State, g: seq<Edge>, g': seq<Edge>, h: seq<Edge>)
    requires Maximal(st, g)
    requires forall x | x in st.heap :: x in h
    requires forall x | x in g' :: x in g || x in h
    ensures Maximal(st.(heap := h), g')
  {
  }

  /** The whole loop keeps every edge of g queued or with an allocated endpoint. */
  lemma {:induction false} RunKeepsMaximal(st: State, g: seq<Edge>, eps: real, pick: (nat, nat) -> nat)
    requires Sorted(st.heap) && Maximal(st, g)
    ensures Maximal(Run(st, eps, pick), g)
    decreases |st.heap|
  {
    if st.heap != [] {
      StepKeepsMaximal(st, g, eps, pick);
      RunKeepsMaximal(Step(st, eps, pick), g, eps, pick);
    }
  }

  /**
   * When the loop ends, every edge of g that was queued or already had an allocated
   * endpoint has an allocated endpoint: a job or candidate stays unassigned only if no
   * edge of theirs is left with a free partner.
   */
  lemma GreedyMaximal(st: State, g: seq<Edge>, eps: real, pick: (nat, nat) -> nat)
    requires Sorted(st.heap) && Maximal(st, g)
    ensures forall e | e in g :: !Free(e, Run(st, eps, pick).jobAssigned, Run(st, eps, pick).candAssigned)
  {
    RunKeepsMaximal(st, g, eps, pick);
  }

  /**
   * The tie scenario of the usage examples: three identical candidates C1, C2, C3 for
   * the one job V1, each scoring 0.6 + 0.3 * 5/6 + 0.1 = 0.95.
   */
  const TiedSlot: seq<Edge> := [Edge(0.95, "V1", "C1"), Edge(0.95, "V1", "C2"), Edge(0.95, "V1", "C3")]

  /**
   * Three equally scored candidates for one job: the allocator breaks one tie, makes
   * one match, and the two candidates not chosen are not re-queued, since the job is
   * taken.
   */
  lemma TiedSlotOutcome(pick: (nat, nat) -> nat)
    ensures Sorted(TiedSlot)
    ensures var r := Run(Init(TiedSlot), 0.000001, pick);
      r.heap == [] && r.matches == 1 && r.ties == 1 && |r.jobAssigned| == 1 && r.processed == 3
  {
    hide Step, Settle, Resolution, Sorted, Run, Repush, ValidEdges, TieGroup, TieCount, InsertTree, StrLess, KeyLe;
    var h, eps := TiedSlot, 0.000001;
    TiedSlotSorted();
    var st := Init(h);
    TiedSlotResolution(pick);
    StepSettle(st, eps, pick);
    var t := Resolution(h[0], h[1..], eps, pick, map[], map[], 0);
    var r := Step(st, eps, pick);
    assert r == Commit(st, t.chosen, [], 3, 1);
    RunStep(st, eps, pick);
    RunDone(r, eps, pick);
  }

  lemma TiedSlotSorted()
    ensures Sorted(TiedSlot)
  {
    assert StrLess("C1", "C2") && StrLess("C2", "C3") && StrLess("C1", "C3");
  }

  /** The tie branch on the tied slot pops both other edges, breaks a tie and re-pushes nothing. */
  lemma TiedSlotResolution(pick: (nat, nat) -> nat)
    ensures Sorted(TiedSlot[1..])
    ensures var t := Resolution(TiedSlot[0], TiedSlot[1..], 0.000001, pick, map[], map[], 0);
      t.queue == [] && t.popped == 2 && t.broke && t.chosen in TiedSlot
  {
    hide Sorted, StrLess, KeyLe, Repush, Choose, ValidEdges, TieGroup, TieCount;
    var h, eps := TiedSlot, 0.000001;
    TiedSlotSorted();
    SortedDrop(h, 1);
    TiedSlotGroup();
    var chosen := Choose(h, 0, pick);
    var ja, ca := map[chosen.job := chosen.cand], map[chosen.cand := chosen.job];
    assert h[1..][2..] == [];
    TiedSlotRepush(chosen);
    assert Resolution(h[0], h[1..], eps, pick, map[], map[], 0) == Tie(chosen, [], 2, true);
  }

  /** All three edges are tied with the first, and all three are valid. */
  lemma TiedSlotGroup()
    ensures TieCount(TiedSlot[1..], 0.95, 0.000001) == 2
    ensures ValidEdges(TieGroup(TiedSlot[0], TiedSlot[1..], 0.000001), map[], map[]) == TiedSlot
  {
    hide Sorted, StrLess, KeyLe, ValidEdges;
    var h, eps := TiedSlot, 0.000001;
    TieCountIs(h[1..], 0.95, eps, 2);
    assert TieGroup(h[0], h[1..], eps) == h;
    TiedSlotValid();
  }

  lemma TiedSlotValid()
    ensures ValidEdges(TiedSlot, map[], map[]) == TiedSlot
  {
    hide Sorted, StrLess, KeyLe, TieCount, TieGroup;
    var h := TiedSlot;
    assert ValidEdges(h[..1], map[], map[]) == [h[0]];
    assert ValidEdges(h[..2], map[], map[]) == [h[0], h[1]] by {
      assert h[..2][..1] == h[..1];
    }
    assert h[..3][..2] == h[..2];
    assert h[..3] == h;
  }

  /** Once the job is taken, none of the tied edges is re-pushed. */
  lemma TiedSlotRepush(chosen: Edge)
    requires chosen in TiedSlot
    ensures Repush([], TiedSlot, chosen, map[chosen.job := chosen.cand], map[chosen.cand := chosen.job]) == []
  {
    hide StrLess, KeyLe;
    RepushNoneKept([], TiedSlot, chosen, map[chosen.job := chosen.cand], map[chosen.cand := chosen.job]);
  }

  /** The re-push loop over edges none of which is kept leaves the queue as it was. */
  lemma {:induction false} RepushNoneKept(h: seq<Edge>, es: seq<Edge>, chosen: Edge, ja: map<string, string>, ca: map<string, string>)
    requires Sorted(h) && forall e | e in es :: !Kept(e, chosen, ja, ca)
    ensures Repush(h, es, chosen, ja, ca) == h
  {
    if es != [] {
      var init := es[..|es| - 1];
      assert es[|es| - 1] in es;
      assert forall e | e in init :: e in es;
      RepushNoneKept(h, init, chosen, ja, ca);
    }
  }

  /** The job ids and candidate ids of the edges of g. */
  function JobsOf(g: seq<Edge>): (r: set<string>)
    ensures forall e | e in g :: e.job in r
  {
    set e | e in g :: e.job
  }

  function CandsOf(g: seq<Edge>): (r: set<string>)
    ensures forall e | e in g :: e.cand in r
  {
    set e | e in g :: e.cand
  }

  /**
   * Only endpoints of graph edges get allocated, so there are at most as many matches
   * as jobs with an edge, and at most as many as candidates with an edge.
   */
  lemma AssignedWithinGraph(st: State, g: seq<Edge>)
    requires Inv(st, g)
    ensures st.jobAssigned.Keys <= JobsOf(g) && st.candAssigned.Keys <= CandsOf(g)
    ensures st.matches <= |JobsOf(g)| && st.matches <= |CandsOf(g)|
  {
    forall j | j in st.jobAssigned
      ensures j in JobsOf(g)
    {
      var e :| e in st.committed && e.job == j;
    }
    forall c | c in st.candAssigned
      ensures c in CandsOf(g)
    {
      var j := st.candAssigned[c];
      var e :| e in st.committed && e.job == j;
      assert st.jobAssigned[j] == e.cand;
    }
    Scoring.SubsetCard(st.jobAssigned.Keys, JobsOf(g));
    Scoring.SubsetCard(st.candAssigned.Keys, CandsOf(g));
  }

  /**
   * What greedy_matching leaves behind: an empty queue, every queued edge counted as
   * processed, the invariant (inverse maps drawn from graph edges, one ranked triple per
   * match, ties at most matches), no more matches than jobs or candidates, and no
   * queued edge whose job and candidate both stayed unassigned.
   */
  lemma GreedyOutcome(st: State, g: seq<Edge>, eps: real, pick: (nat, nat) -> nat)
    requires Inv(st, g)
    ensures var r := Run(st, eps, pick);
      r.heap == [] && Inv(r, g) &&
      r.processed >= st.processed + |st.heap| &&
      |r.jobAssigned| == r.matches && |r.candAssigned| == r.matches &&
      Inverse(r.jobAssigned, r.candAssigned) &&
      r.ties <= r.matches &&
      IndexInv(r.ranking, r.matches, PairsOf(r.committed)) &&
      r.matches <= |JobsOf(g)| && r.matches <= |CandsOf(g)| &&
      forall e | e in st.heap :: !Free(e, r.jobAssigned, r.candAssigned)
  {
    var r := Run(st, eps, pick);
    GreedyMaximal(st, st.heap, eps, pick);
    RunKeepsInv(st, g, eps, pick);
    RankedIndex(r.committed);
    AssignedWithinGraph(r, g);
  }
}
