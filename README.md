# SkillMatch360 matching engine, modelled in Dafny

SkillMatch360 (`Gs2025.2.py`) matches candidates to job openings in four steps.

1. **Scoring.** `calculate_score` rates one candidate for one job. The rating is 60% skill overlap (lower-cased skill sets), plus 30% an experience ratio that saturates at twice the required minimum, plus a flat 0.1 bonus when the lower-cased locations agree.
2. **Building.** `build_graph_and_heap` scores every (job, candidate) pair, jobs in insertion order and candidates inside. Every pair scoring strictly above `min_score` is appended to its job's adjacency list, pushed on a max-priority queue keyed `(-score, job_id, candidate_id)`, and counted.
3. **Matching.** `greedy_matching` pops the best edge and skips it when either endpoint is already allocated. Otherwise it gathers the following edges whose score lies within `epsilon` of it. It keeps the ones whose endpoints are both free, commits one of them (a random choice on a real tie), and re-pushes the others that are still free.
4. **Ranking.** Committed matches go into `MatchBST`, an unbalanced binary search tree keyed by score. An insert walks the search path from the root and joins the bucket of the first node whose key lies within 1e-9 of its score; if no node on that path does, it becomes a new leaf at the end of the path. `get_all_matches` walks the tree in reverse order.

The model has seven modules.

- **`Scoring`** models `calculate_score` as pure functions over exact reals.
- **`EdgeQueue`** models the heap as a sequence sorted on the heap key `(-score, job, candidate)`. Its head is what `heappop` returns, and `Push` is `heappush`.
- **`MatchIndex`** has a value-level specification: the `Tree` datatype, with `InsertTree` for `_insert_recursive` and `Flatten` for `_inorder_reverse`. Beside it are the linked classes `BSTNode` and `MatchBST`. Their methods update nodes in place and are proved to compute exactly `InsertTree` and `Flatten`.
- **`Greedy`** states one iteration of the outer loop of `greedy_matching` as `Step`, and the whole loop as `Run`. It proves the loop's invariants: inverse assignment maps, committed edges drawn from the graph, and the ranked index equal to the committed matches. It also proves the counter bounds, that each commit is the best queued edge or one within `epsilon` of it, and that when the queue drains no edge is left with both endpoints unassigned.
- **`Build`** states `build_graph_and_heap` on values (`BuildEdges`, `Group`, `PushAll`).
- **`Shortlist`** models the sort and slice that `get_top_k_per_job` applies to one adjacency list.
- **`Engine`** holds the class `SkillMatch360`. Its fields are the source's dicts, heap, index and counters, and its methods update them in place. Each method is proved to leave the engine in the state the value-level functions compute. Its invariant `Valid` ties the fields to a log of created edges and a log of committed edges.

## Model

| member | source | states |
|---|---|---|
| Scoring.LowerChar | Gs2025.2.py:106-107 | Upper-case ASCII letters map to lower-case letters, and every other character is unchanged. |
| Scoring.Lower | Gs2025.2.py:106-107 | Lower-casing keeps the length of the string. |
| Scoring.LowerAt | Gs2025.2.py:106-107 | Lower-casing acts character by character. |
| Scoring.LowerSet | Gs2025.2.py:106-107 | The set of lower-cased tags has no more elements than the list has entries. |
| Scoring.LowerSetMembers | Gs2025.2.py:106-107 | A string is in the set exactly when it is the lower-casing of some tag in the list, as the set comprehension says. |
| Scoring.Max1 | Gs2025.2.py:109 | `max(1, n)` is at least 1 and at least n, and is one of the two. |
| Scoring.Overlap | Gs2025.2.py:108 | The overlap counts shared distinct lower-cased skills, so it is at most the number of distinct skills on either side and at most the length of the required list. |
| Scoring.SkillScore | Gs2025.2.py:106-109 | The skill component lies in [0, 1]. It is 1 exactly when the required list is non-empty and the overlap equals its length. It is 0 exactly when no skill is shared. |
| Scoring.ExpScore | Gs2025.2.py:112-113 | The experience component is at most 1, and at least 0 for non-negative years. It is 1 exactly when the years reach twice `max(1, min_exp)`. |
| Scoring.ExpScoreBelowCap | Gs2025.2.py:112-113 | Below the cap, the experience component is the years over twice the minimum. |
| Scoring.SameLocation | Gs2025.2.py:116 | The location test compares the lower-cased locations; `LocationIgnoresCase` and `ElsewhereByInitial` state what that means. |
| Scoring.LowerIdempotent | Gs2025.2.py:116 | Lower-casing an already lower-cased string changes nothing. |
| Scoring.LocationIgnoresCase | Gs2025.2.py:116 | The location bonus does not depend on the case of either location, and it is either the whole `loc_bonus` or 0. |
| Scoring.CalculateScore | Gs2025.2.py:100-118 | With non-negative weights and experience, the score lies between 0 and skill weight + experience weight + bonus. |
| Scoring.WeightedSumBounds | Gs2025.2.py:118 | A weighted sum of components in [0, 1], plus a bonus in [0, loc_bonus], lies in [0, sum of weights]. |
| Scoring.DefaultScoreAtMostOne | Gs2025.2.py:100-118 | With the default weights 0.6/0.3/0.1 and non-negative experience, the score lies in [0, 1]. |
| Scoring.ScoreMaximal | Gs2025.2.py:100-118 | With positive weights, the score is maximal exactly when all skills match, the experience is saturated and the location agrees. |
| Scoring.LowerIs | Gs2025.2.py:106-107 | A string lower-cases to t when t is its character-wise lower-casing. |
| Scoring.LowerSetOfTwo | Gs2025.2.py:106-107 | The lower-cased set of a two-tag list is the set of the two lowered tags. |
| Scoring.LowerSetOfThree | Gs2025.2.py:106-107 | The lower-cased set of a three-tag list is the set of the three lowered tags. |
| Scoring.LowerOfExampleSkills | test_skillmatch.py:107-126 | The skills used by the scoring test lower-case as expected. |
| Scoring.PerfectMatchSkills | test_skillmatch.py:107-109 | The perfect-match case has skill component 1. |
| Scoring.NoMatchSkills | test_skillmatch.py:116-118 | The no-overlap case has skill component 0. |
| Scoring.PartialOverlap | test_skillmatch.py:125-127 | The partial case shares exactly one skill. |
| Scoring.PartialSkills | test_skillmatch.py:125-127 | The partial case has skill component 1/3. |
| Scoring.PerfectMatchScore | test_skillmatch.py:107-113 | The perfect-match case scores exactly 0.95. This is inside the test's accepted band [0.95, 1.05] (line 132). |
| Scoring.NoOverlapScore | test_skillmatch.py:116-122 | The no-overlap case scores exactly 0.3, as the test expects. |
| Scoring.PartialMatchScore | test_skillmatch.py:125-132 | The partial case scores exactly 0.4, strictly between 0 and 1 as the test requires. |
| Scoring.ElsewhereByInitial | Gs2025.2.py:116 | Locations whose lower-cased first letters differ are different locations. |
| EdgeQueue.StrLessIrreflexive | Gs2025.2.py:175 | Python's string order (the job and candidate parts of the heap key) is irreflexive. |
| EdgeQueue.StrLessTotal | Gs2025.2.py:175 | Python's string order is total. |
| EdgeQueue.StrLessTransitive | Gs2025.2.py:175 | Python's string order is transitive. |
| EdgeQueue.StrNotLessTransitive | Gs2025.2.py:175 | The non-strict string order is transitive. |
| EdgeQueue.KeyLeTotalOrder | Gs2025.2.py:175 | The heap key order `(-score, job, candidate)` is reflexive, total, antisymmetric and transitive. |
| EdgeQueue.HeadIsMax | Gs2025.2.py:189-190 | The head of the sorted queue has the least key, so it has the highest score of all queued edges. |
| EdgeQueue.SortedDrop | Gs2025.2.py:189-191 | Popping edges off the queue keeps it ordered. |
| EdgeQueue.Push | Gs2025.2.py:175 | heappush keeps the queue ordered and adds exactly the pushed edge to its contents (as a multiset). |
| EdgeQueue.SortedCons | Gs2025.2.py:175 | An edge that keys no later than every queued edge may go in front of the queue. |
| EdgeQueue.PushFront | Gs2025.2.py:175 | A push that lands at the head keeps the queue ordered. |
| EdgeQueue.PushBehind | Gs2025.2.py:175 | A push past the head keeps the queue ordered and adds exactly the pushed edge. |
| MatchIndex.LandingKey | Gs2025.2.py:68-81 | The key of the node an insert lands in lies within 1e-9 of the inserted score. |
| MatchIndex.SpreadSnoc | Gs2025.2.py:88-89 | One more pair of the bucket appends one more triple. |
| MatchIndex.InsertTree | Gs2025.2.py:65-82 | The insert on tree values; `InsertKeepsInv`, `InsertKeys`, `InsertSplice` and `InsertPosition` state that it keeps the search-tree order and splices one triple into the reverse in-order walk. |
| MatchIndex.Flatten | Gs2025.2.py:84-90 | The reverse in-order walk on tree values; `FlattenNonIncreasing`, `FlattenScoresAreKeys` and `InsertAddsPair` state that it lists every pair once, by non-increasing key. |
| MatchIndex.InsertKeys | Gs2025.2.py:65-82 | An insert adds the key of the node it lands in and no other key. |
| MatchIndex.LandingFar | Gs2025.2.py:68-81 | An insert lands on an existing key, or on the inserted score itself when every existing key is at least 1e-9 away. |
| MatchIndex.InsertKeepsIndex | Gs2025.2.py:65-82 | An insert keeps the search-tree order: smaller keys left, larger right, no empty bucket. Either it joins an existing node, or it adds a key at least 1e-9 from all others. |
| MatchIndex.InsertKeepsSeparated | Gs2025.2.py:74 | An insert keeps all node keys pairwise at least 1e-9 apart. |
| MatchIndex.FlattenScoresAreKeys | Gs2025.2.py:84-90 | Every reported score is a node key, not the exact inserted score. |
| MatchIndex.FlattenNonIncreasing | Gs2025.2.py:84-96 | The reverse in-order walk of a search tree reports non-increasing scores. |
| MatchIndex.InsertSplice | Gs2025.2.py:65-90 | An insert adds exactly one triple to the walk, at the landing key and for the inserted pair. The order of all other triples is unchanged. |
| MatchIndex.SpliceIntoBucket | Gs2025.2.py:74-75 | A pair appended to a bucket comes out after the pairs already in it. |
| MatchIndex.SpliceLeft | Gs2025.2.py:77-78 | A triple added in the left subtree is placed after the right subtree and the bucket. |
| MatchIndex.SpliceRight | Gs2025.2.py:80-81 | A triple added in the right subtree is placed before the bucket and the left subtree. |
| MatchIndex.SplitConcat | Gs2025.2.py:84-90 | Walk pieces that each split at a key concatenate into a walk that splits at that key. |
| MatchIndex.ScoresAbove | Gs2025.2.py:87 | A subtree whose keys are all at least k reports only scores at least k. |
| MatchIndex.ScoresBelow | Gs2025.2.py:90 | A subtree whose keys are all below k reports only scores below k. |
| MatchIndex.InsertPosition | Gs2025.2.py:65-90 | In a search tree, the new triple goes after every triple scoring at least its key and before every lower one, which is the end of its bucket. |
| MatchIndex.InsertAddsPair | Gs2025.2.py:60-82 | After an insert, the walk reports the pairs reported before plus the inserted pair, one triple longer. |
| MatchIndex.SpliceAddsPair | Gs2025.2.py:88-89 | Splicing one triple into a walk adds exactly its pair. |
| MatchIndex.InsertKeepsInv | Gs2025.2.py:60-63 | insert keeps the index invariant: search tree, separated keys, one triple per inserted match, exactly the inserted pairs. |
| MatchIndex.NodeParts | Gs2025.2.py:84-90 | The children of a valid node are valid with smaller footprints, and the node's walk is right walk, bucket, left walk. |
| MatchIndex.BSTNode.constructor | Gs2025.2.py:47-51 | A new node holds the score, an empty bucket and no children. |
| MatchIndex.MatchBST.constructor | Gs2025.2.py:56-58 | A new index is empty, with no matches counted. |
| MatchIndex.MatchBST.Insert | Gs2025.2.py:60-63 | The tree becomes `InsertTree` of the old tree, `total_matches` grows by 1, the pair is recorded, and the index invariant holds. |
| MatchIndex.MatchBST.InsertRecursive | Gs2025.2.py:65-82 | Returns a new node holding the pair for an empty subtree, or the same node with the pair inserted. Its value is `InsertTree` of the old subtree. |
| MatchIndex.MatchBST.InsertLeft | Gs2025.2.py:77-78 | The left child becomes `InsertTree` of the old left subtree; key, bucket and right subtree are unchanged. |
| MatchIndex.MatchBST.InsertRight | Gs2025.2.py:80-81 | The right child becomes `InsertTree` of the old right subtree; key, bucket and left subtree are unchanged. |
| MatchIndex.MatchBST.InorderReverse | Gs2025.2.py:84-90 | Appends to the accumulator exactly the walk of the subtree: right, bucket, left. |
| MatchIndex.MatchBST.AppendBucket | Gs2025.2.py:88-89 | Appends one triple per bucket pair, in insertion order, at the node key. |
| MatchIndex.MatchBST.GetAllMatches | Gs2025.2.py:92-96 | Returns the walk of the tree: non-increasing scores, `total_matches` triples, and exactly the inserted pairs. |
| Greedy.TieCount | Gs2025.2.py:201-210 | The tie run is the longest prefix of the queue within eps of the seed score; the next edge, if any, lies beyond eps. |
| Greedy.TieCountIs | Gs2025.2.py:201-210 | A run stopped by the end of the queue or by an edge beyond eps is exactly the counted run. |
| Greedy.TieGroup | Gs2025.2.py:198-207 | `tied_edges` starts with the seed; every other member was queued within eps of the seed score. |
| Greedy.Free | Gs2025.2.py:213-216 | An edge is valid when neither its job nor its candidate is allocated; `ValidEdges` and `LedgerCommit` state what the filter and a commit do with it. |
| Greedy.ValidEdges | Gs2025.2.py:213-216 | Keeps exactly the edges of the group whose endpoints are both free. A free seed stays first, so the group is never empty at line 218. |
| Greedy.Repush | Gs2025.2.py:235-238 | The queue stays ordered. It loses nothing and gains exactly the valid edges other than the chosen one that are still free after the commit. It grows by fewer than the number of valid edges. |
| Greedy.Choose | Gs2025.2.py:222-226 | The committed edge is one of the valid edges: the oracle's pick on a real tie, the only one otherwise. |
| Greedy.Resolution | Gs2025.2.py:198-238 | The tie branch leaves an ordered queue. It pops at most the queued edges and re-pushes fewer than it popped. |
| Greedy.ResolutionFacts | Gs2025.2.py:198-238 | The committed edge is the seed or a queued edge within eps of it, with both endpoints free. Only the seed and queued edges are re-pushed. |
| Greedy.Settle | Gs2025.2.py:198-238 | After the tie branch the queue is ordered and shorter than before the pop, and no popped edge goes uncounted. |
| Greedy.Step | Gs2025.2.py:187-238 | One iteration keeps the queue ordered and strictly shortens it, with every popped edge counted as processed. |
| Greedy.Run | Gs2025.2.py:187-238 | The loop terminates with an empty queue, having processed at least every edge that was queued. |
| Greedy.RankedSnoc | Gs2025.2.py:231 | Committing one more edge inserts it into the ranked index. |
| Greedy.RankedIndex | Gs2025.2.py:231 | The index built from the committed edges is a separated search tree holding exactly the committed pairs, one triple each. |
| Greedy.LedgerCommit | Gs2025.2.py:229-230 | Committing an edge with both endpoints free keeps the maps inverse, records it in `job_assigned`, and adds one entry to each map. |
| Greedy.InitInv | Gs2025.2.py:132-152 | A fresh state over an ordered queue drawn from the graph satisfies the matching invariant. |
| Greedy.RequeueKeepsInv | Gs2025.2.py:168-176 | Growing the graph and replacing the queue by an ordered one drawn from it keeps the invariant. |
| Greedy.CommitKeepsInv | Gs2025.2.py:229-238 | Committing a free graph edge keeps the invariant: inverse maps, committed edges in the graph, the ranked index, and ties ≤ matches. |
| Greedy.SettleKeepsInv | Gs2025.2.py:198-238 | The tie branch keeps the invariant. |
| Greedy.StepKeepsInv | Gs2025.2.py:187-238 | One iteration keeps the invariant. |
| Greedy.RunKeepsInv | Gs2025.2.py:187-238 | The whole loop keeps the invariant. |
| Greedy.StepCommitsNearBest | Gs2025.2.py:189-232 | Each iteration commits nothing, or commits one queued edge with both endpoints free. That edge is the best queued edge or scores within eps of it, and the maps change by that edge alone. |
| Greedy.SettleCommitsNearBest | Gs2025.2.py:198-232 | The tie branch commits exactly one queued, free edge, the best one or one within eps of it. |
| Greedy.JobsOf | Gs2025.2.py:174 | Every edge's job is among the jobs of the graph. |
| Greedy.CandsOf | Gs2025.2.py:174 | Every edge's candidate is among the candidates of the graph. |
| Greedy.AssignedWithinGraph | Gs2025.2.py:229-230 | Only endpoints of graph edges are allocated, so there are no more matches than jobs with an edge, or than candidates with one. |
| Greedy.GreedyOutcome | Gs2025.2.py:182-238 | After the loop: empty queue, `edges_processed` ≥ queued edges, `job_assigned` and `candidate_assigned` inverse with one entry per match, ties ≤ matches, the ranked index holds exactly the committed pairs, matches ≤ jobs and ≤ candidates, and no queued edge has both endpoints still unassigned. |
| Greedy.ResolutionMaximal | Gs2025.2.py:198-238 | An edge of the tie branch (the seed or a queued edge) that was free is re-pushed, or has lost an endpoint to the chosen edge. |
| Greedy.SettleKeepsMaximal | Gs2025.2.py:198-238 | The tie branch leaves every graph edge queued or with an allocated endpoint. |
| Greedy.StepKeepsMaximal | Gs2025.2.py:187-238 | One iteration leaves every graph edge queued or with an allocated endpoint: a skipped seed already has one, and allocations only grow. |
| Greedy.RunKeepsMaximal | Gs2025.2.py:187-238 | The whole loop leaves every graph edge queued or with an allocated endpoint. |
| Greedy.GreedyMaximal | Gs2025.2.py:187-238 | When the queue drains, every edge that was queued or already blocked has an allocated job or candidate: nobody stays unassigned while a viable edge remains. |
| Greedy.RequeueKeepsMaximal | Gs2025.2.py:168-176 | Adding edges that are all queued, without dropping queued ones, leaves no edge behind. |
| Greedy.RepushNoneKept | Gs2025.2.py:235-238 | When no valid edge stays free, the re-push loop leaves the queue as it was. |
| Greedy.TiedSlotSorted | Gs2025.2.py:175 | The three tied edges of the example are in heap order. |
| Greedy.TiedSlotGroup | Gs2025.2.py:198-216 | In the example, both queued edges are tied with the seed and all three are valid. |
| Greedy.TiedSlotValid | Gs2025.2.py:213-216 | In the example, all three tied edges pass the validity filter. |
| Greedy.TiedSlotRepush | Gs2025.2.py:235-238 | In the example, no edge is re-pushed once the job is taken. |
| Greedy.TiedSlotResolution | Gs2025.2.py:198-238 | In the example, the tie branch pops both other edges, breaks a tie and re-pushes nothing. |
| Greedy.TiedSlotOutcome | exemplos_uso.py:101-110 | Three equally scored candidates for one job give, for every random choice, exactly one match, one tie break, three processed edges and an empty queue. |
| Build.BuildEdges | Gs2025.2.py:168-176 | The edge log of the double build loop, jobs outer and candidates inner; `BuildMembers`, `BuildCount` and `BuildThreshold` state which edges it holds. |
| Build.AppendEdges | Gs2025.2.py:174 | The `self.graph[job_id].append` steps over a run of edges; `AppendEdgesSnoc` and `AppendEdgesConcat` state their effect. |
| Build.Group | Gs2025.2.py:174 | The adjacency dict built from the edge log; `GroupColumns` and `ColumnMembers` state its keys and lists. |
| Build.Row | Gs2025.2.py:169-176 | One job yields at most one edge per candidate. |
| Build.RowMembers | Gs2025.2.py:169-173 | An edge is in a job's row exactly when its candidate is loaded, its score is the pair's score, and that score is strictly above `min_score`. |
| Build.RowNothing | Gs2025.2.py:169 | Before the first candidate, nothing has been created, appended or pushed. |
| Build.RowSnoc | Gs2025.2.py:169-176 | Scoring one more candidate appends its edge exactly when its score clears `min_score`. |
| Build.BuildNothing | Gs2025.2.py:168 | Before the first job, nothing has been created, appended or pushed. |
| Build.BuildSnoc | Gs2025.2.py:168-176 | Scoring one more job appends its row. |
| Build.BuildCount | Gs2025.2.py:168-176 | At most one edge is created per (job, candidate) position. |
| Build.BuildMembers | Gs2025.2.py:168-176 | An edge is created exactly when both ids are loaded, its score is the pair's score, and that score is strictly above `min_score`. |
| Build.BuildThreshold | Gs2025.2.py:173 | Every created edge scores strictly above `min_score`. |
| Build.AppendEdgesSnoc | Gs2025.2.py:174 | Appending one more edge appends its (candidate, score) to its job's list and creates the list on first use. |
| Build.AppendEdgesConcat | Gs2025.2.py:174 | Appending two runs of edges is appending their concatenation. |
| Build.Column | Gs2025.2.py:174 | A job's list has no more entries than the edge log. |
| Build.GroupColumns | Gs2025.2.py:174 | The adjacency dict has a key for exactly the jobs with an edge. Each list is that job's edges, in creation order. |
| Build.ColumnMembers | Gs2025.2.py:174 | An entry (c, s) is in job j's list exactly when edge (s, j, c) was created. |
| Build.PushAll | Gs2025.2.py:175 | Pushing a run of edges keeps the queue ordered and adds exactly those edges. |
| Build.PushAllSnoc | Gs2025.2.py:175 | Pushing one more edge is one more heappush. |
| Build.PushAllConcat | Gs2025.2.py:175 | Pushing two runs is pushing their concatenation. |
| Shortlist.InsertDesc | Gs2025.2.py:249 | Inserting into a descending list keeps it descending and adds exactly the entry. |
| Shortlist.DescendingTail | Gs2025.2.py:249 | The tail of a descending list is descending. |
| Shortlist.InsertDescBehind | Gs2025.2.py:249 | An insert past the head keeps the head in front. |
| Shortlist.ConsDescending | Gs2025.2.py:249 | An entry scoring at least every entry of a descending list may go in front. |
| Shortlist.SortDesc | Gs2025.2.py:249 | `sorted(..., reverse=True)` is descending by score and a permutation of its input. |
| Shortlist.WithScore | Gs2025.2.py:249 | The entries of one score, in list order, are never more than the list has; the lemmas below use it to state stability. |
| Shortlist.WithScoreConcat | Gs2025.2.py:249 | Picking the entries of one score distributes over concatenation. |
| Shortlist.InsertDescStable | Gs2025.2.py:249 | An insert puts the new entry behind every entry of equal score. |
| Shortlist.SortDescStable | Gs2025.2.py:249 | The sort is stable: the entries of each score come out in their input order. |
| Shortlist.TopKStable | Gs2025.2.py:249-250 | Among equal scores, the top-k list keeps the earliest entries of the adjacency list, in order. |
| Shortlist.TopK | Gs2025.2.py:249-250 | The top-k list has min(k, n) entries for k ≥ 0, and for negative k it drops the last -k entries (none left when -k ≥ n), as the slice `[:k]` does. |
| Shortlist.TopKBest | Gs2025.2.py:249-250 | The top-k list is best first and drawn from the adjacency list. No entry left out scores above an entry kept. |
| Shortlist.SplitMultiset | Gs2025.2.py:250 | A slice and the rest of the list split the list's contents. |
| Shortlist.CutBelow | Gs2025.2.py:250 | In a descending list, every entry past the cut scores at most every entry before it. |
| Engine.DistinctCard | Gs2025.2.py:125-126 | An insertion order without repeats has as many ids as entries. |
| Engine.OrderCard | Gs2025.2.py:125-126 | A dict has as many keys as its insertion order has entries. |
| Engine.SkillMatch360.constructor | Gs2025.2.py:123-152 | A new engine has empty dicts, an empty heap and index, no assignments and all counters 0, and it is valid. |
| Engine.SkillMatch360.AddCandidate | Gs2025.2.py:154-156 | Stores the candidate under its id. A new id joins the insertion order; a repeated id keeps its place. Nothing else changes. |
| Engine.SkillMatch360.AddJob | Gs2025.2.py:158-160 | Stores the job under its id. A new id joins the insertion order; a repeated id keeps its place. Nothing else changes. |
| Engine.SkillMatch360.BuildGraphAndHeap | Gs2025.2.py:162-176 | The same created edges join the edge log, the adjacency dict (through the invariant) and the heap, and `edges_created` grows by their count. The catalogue and assignments are unchanged. |
| Engine.SkillMatch360.ScorePairs | Gs2025.2.py:168-176 | The outer build loop appends, pushes and counts exactly the created edges. |
| Engine.SkillMatch360.ScoreRow | Gs2025.2.py:169-176 | The inner build loop appends, pushes and counts exactly one job's row. |
| Engine.SkillMatch360.GreedyMatching | Gs2025.2.py:182-238 | The engine ends in `Run` of the matching state it started in. The catalogue and graph are untouched, and the invariant still holds. The heap is empty, and every created edge has an assigned job or an assigned candidate. |
| Engine.SkillMatch360.Round | Gs2025.2.py:187-238 | One outer iteration moves the matching state to `Step` of what it was. |
| Engine.SkillMatch360.Record | Gs2025.2.py:229-232 | Recording the chosen match moves the matching state to `Commit` of what it was. |
| Engine.SkillMatch360.Allocate | Gs2025.2.py:229-230 | Both assignment maps take the chosen pair; the heap and counters take the values the tie branch left. |
| Engine.SkillMatch360.Rank | Gs2025.2.py:231-232 | The index takes the insert and the match count grows by one. |
| Engine.SkillMatch360.ResolveTie | Gs2025.2.py:198-238 | The imperative tie branch computes exactly `Resolution`. |
| Engine.SkillMatch360.GatherTies | Gs2025.2.py:198-210 | The tie-gathering loop pops exactly the run `TieCount` measures. |
| Engine.SkillMatch360.Requeue | Gs2025.2.py:235-238 | The re-push loop computes exactly `Repush`. |
| Engine.SkillMatch360.TopKPerJob | Gs2025.2.py:245-251 | One list per job with edges, each of min(k, edges) entries as the slice keeps them. |
| Engine.SkillMatch360.GetTopKPerJob | Gs2025.2.py:245-251 | The loop over the adjacency dict builds exactly `TopKPerJob`: every job's list, sorted and sliced. |
| Engine.SkillMatch360.TopKPerJobSpec | Gs2025.2.py:245-251 | Each top-k list is best first and drawn from the job's adjacency list. Nothing left out scores above an entry kept, and every entry is a created edge. |
| Engine.SkillMatch360.GetAssignments | Gs2025.2.py:253-255 | Returns `job_assigned` without changing state. No two jobs share a candidate, each entry is mirrored in `candidate_assigned`, and each pair is a created edge. |
| Engine.SkillMatch360.GetRanking | Gs2025.2.py:257-259 | The ranking is the reverse in-order walk of the index built by inserting the committed edges in order, so each triple carries the key its score landed at. Its scores are non-increasing, and it has one triple per match (= len(`job_assigned`)). Its pairs are exactly the committed ones, each an assignment. It has no more entries than jobs or candidates. |
| Engine.EmptyConsistent | Gs2025.2.py:123-152 | A fresh engine satisfies the engine invariant. |
| Engine.PushKeepsMaximal | Gs2025.2.py:174-175 | The new edges are all pushed, so every created edge is still queued or blocked. |
| Engine.BuildConsistent | Gs2025.2.py:162-176 | Building keeps the engine invariant: the new edges join the log, the dict and the heap together. |
| Engine.BuildBound | Gs2025.2.py:168-176 | One build creates at most len(jobs)·len(candidates) edges. |
| Engine.RankingAssigned | Gs2025.2.py:257-259 | A ranking with the committed pairs lists assignments only, one per allocated job, and is no longer than the jobs or the candidates. |
| Engine.PairsAssigned | Gs2025.2.py:229-231 | A list with the committed pairs lists only pairs recorded in `job_assigned`. |
| Engine.GreedyConsistent | Gs2025.2.py:182-238 | Matching keeps the engine invariant. |
| Engine.DrainedAllocated | Gs2025.2.py:187-238 | With the queue empty, every created edge has an assigned job or an assigned candidate. |
| Engine.ConsistentGraph | Gs2025.2.py:174 | The adjacency dict is the grouping of the created edges. |
| Engine.TopKOfColumn | Gs2025.2.py:245-251 | One job's top-k list is best first, from its list, and made of created edges only. |

## Left out

- Console output is not modelled. This covers every `print`, the ANSI colour codes, the UTF-8 re-wrapping of `sys.stdout`/`sys.stderr`, `print_stats`, the report in `run_matching`, `get_sample_data`, and the interactive `exemplos_uso.py`. None of it affects the engine's state.
- The pseudo-random generator is not modelled. The `seed` field and `random.seed` are left out, and `random.choice` becomes an oracle `pick(t, n)`: the index, taken modulo n, chosen at the t-th tie break among n valid edges. Every property is proved for every oracle, so "the same seed gives the same assignment" becomes "the same oracle gives the same state".
- Floats are modelled as exact reals. IEEE rounding of the score arithmetic and of the two epsilon comparisons is not captured.
- `str.lower` lower-cases ASCII letters only. Unicode case folding is not modelled.
- `heapq` is modelled as a sequence sorted on the heap key. Pops come in the same order, because `heappop` always returns the least key and equal keys are equal tuples. The internal array layout of the binary heap is not modelled.
- The `stats` dict is modelled as four counter fields. The `defaultdict(list)` graph is a map whose missing key reads as an empty list. The insertion order of `candidates` and `jobs` is kept as an id sequence beside each map, because `build_graph_and_heap` iterates them. `graph`, `job_assigned` and `candidate_assigned` are plain maps, so the key order of the dicts returned by `get_top_k_per_job` and `get_assignments` is not modelled.
- `Engine.SkillMatch360.GreedyMatching`: the outer loop body is split into the methods `Round`, `Record` (`Allocate`, `Rank`), `ResolveTie`, `GatherTies` and `Requeue`. `ResolveTie`, `GatherTies` and `Requeue` work on the queue as a value. The pops of the tie loop reach the `heap` field only when the chosen match is recorded, not one pop at a time. Nothing reads the heap in between.
- The unreachable `if not valid_edges: continue` branch has no code in the model. `Greedy.ValidEdges` proves that a free seed keeps the group non-empty.
- `MatchIndex.MatchBST.InorderReverse`: the accumulator list is passed and returned as a value rather than appended in place. Aliasing of `result` is not modelled, but the source never aliases it.
- `Engine.SkillMatch360.GetTopKPerJob` visits the jobs in an arbitrary order, since the key order of `graph` is not modelled. Python's `sorted` is modelled by an insertion sort rather than Timsort. Both are stable sorts on the score, so they return the same list; `Shortlist.SortDescStable` proves the stability.
- Default arguments are not modelled as defaults: `min_score=0.0` (line 162), `epsilon=1e-6` (line 182) and `k=3` (line 245) are parameters every caller passes. `calculate_score`'s default weights appear as `Scoring.DefaultWeights`.
- `Candidate(**data)` construction from dicts is not modelled. Records are built directly.
- Scoring: the 10% location bonus is added unweighted, as in the source, so custom weights bound the score by `skill_weight + exp_weight + loc_bonus`. The scoring test's "perfect match" (5 years against 3 required) scores 0.95 in exact arithmetic, not the "~1.000" its message expects. It still lies inside the test's accepted band [0.95, 1.05]. Whether float rounding puts it just below 0.95 is not captured.
