/**
 * The ranked index of committed matches: an unbalanced binary search tree keyed
 * by score whose nodes hold a bucket of (job, candidate) pairs. An insert whose
 * score lies within 1e-9 of a node key on its search path joins that node's
 * bucket; otherwise it becomes a new leaf. A reverse in-order walk replays every
 * match, highest score first.
 *
 * The tree is specified by the value type Tree with the functions InsertTree and
 * Flatten; the classes BSTNode and MatchBST are the linked, in-place structure,
 * each node carrying its Tree value and its footprint as ghost fields.
 */
module MatchIndex {
  import opened EdgeQueue

  /** A committed (job, candidate) pair as held in a bucket. */
  datatype Pair = Pair(job: string, cand: string)

  /** The tree as a value: key, bucket in insertion order, smaller keys left, larger right. */
  datatype Tree = Leaf | Node(key: real, bucket: seq<Pair>, left: Tree, right: Tree)

  /** Two scores closer than this share a node. */
  const IndexEps: real := 0.000000001

  function Abs(x: real): real
  {
    if x < 0.0 then -x else x
  }

  function Keys(t: Tree): set<real>
  {
    match t
    case Leaf => {}
    case Node(k, _, l, r) => Keys(l) + {k} + Keys(r)
  }

  /** The search-tree invariant: keys left are smaller, keys right larger, no empty bucket. */
  ghost predicate IsIndex(t: Tree)
  {
    match t
    case Leaf => true
    case Node(k, b, l, r) =>
      b != [] && IsIndex(l) && IsIndex(r) &&
      (forall x :: x in Keys(l) ==> x < k) &&
      (forall x :: x in Keys(r) ==> x > k)
  }

  /** No two node keys lie within IndexEps of each other. */
  ghost predicate Separated(t: Tree)
  {
    forall x, y :: x in Keys(t) && y in Keys(t) && x != y ==> Abs(x - y) >= IndexEps
  }

  /** _insert_recursive on values. */
  function InsertTree(t: Tree, s: real, p: Pair): Tree
  {
    match t
    case Leaf => Node(s, [p], Leaf, Leaf)
    case Node(k, b, l, r) =>
      if Abs(s - k) < IndexEps then Node(k, b + [p], l, r)
      else if s < k then Node(k, b, InsertTree(l, s, p), r)
      else Node(k, b, l, InsertTree(r, s, p))
  }

  /** The key of the node an insert of score s lands in: a key met on the way, or s itself. */
  function LandingKey(t: Tree, s: real): (k: real)
    ensures Abs(k - s) < IndexEps
  {
    match t
    case Leaf => s
    case Node(k, _, l, r) =>
      if Abs(s - k) < IndexEps then k
      else if s < k then LandingKey(l, s)
      else LandingKey(r, s)
  }

  /** The bucket of one node as ranked triples. */
  function Spread(k: real, b: seq<Pair>): (r: seq<Edge>)
    ensures |r| == |b|
    ensures forall i :: 0 <= i < |b| ==> r[i] == Edge(k, b[i].job, b[i].cand)
  {
    seq(|b|, i requires 0 <= i < |b| => Edge(k, b[i].job, b[i].cand))
  }

  lemma SpreadSnoc(k: real, b: seq<Pair>, i: nat)
    requires i < |b|
    ensures Spread(k, b[..i + 1]) == Spread(k, b[..i]) + [Edge(k, b[i].job, b[i].cand)]
  {
  }

  /** _inorder_reverse on values: right subtree, the bucket in order, left subtree. */
  function Flatten(t: Tree): seq<Edge>
  {
    match t
    case Leaf => []
    case Node(k, b, l, r) => Flatten(r) + Spread(k, b) + Flatten(l)
  }

  /** The position in Flatten(t) at which an insert of score s places its triple. */
  function InsertPos(t: Tree, s: real): nat
  {
    match t
    case Leaf => 0
    case Node(k, b, l, r) =>
      if Abs(s - k) < IndexEps then |Flatten(r)| + |b|
      else if s < k then |Flatten(r)| + |b| + InsertPos(l, s)
      else InsertPos(r, s)
  }

  ghost predicate NonIncreasing(s: seq<Edge>)
  {
    forall i, j :: 0 <= i < j < |s| ==> s[i].score >= s[j].score
  }

  function PairsOf(s: seq<Edge>): (r: seq<Pair>)
    ensures |r| == |s|
    ensures forall i :: 0 <= i < |s| ==> r[i] == Pair(s[i].job, s[i].cand)
  {
    seq(|s|, i requires 0 <= i < |s| => Pair(s[i].job, s[i].cand))
  }

  /** An insert adds the key of the node it lands in, and no other. */
  lemma {:induction false} InsertKeys(t: Tree, s: real, p: Pair)
    ensures Keys(InsertTree(t, s, p)) == Keys(t) + {LandingKey(t, s)}
  {
    match t
    case Leaf =>
    case Node(k, b, l, r) =>
      if Abs(s - k) < IndexEps {
      } else if s < k {
        InsertKeys(l, s, p);
      } else {
        InsertKeys(r, s, p);
      }
  }

  /**
   * In a search tree an insert lands on an existing key, or on s itself when every
   * existing key lies at least IndexEps away from s.
   */
  lemma {:induction false} LandingFar(t: Tree, s: real)
    requires IsIndex(t)
    ensures LandingKey(t, s) in Keys(t) ||
            (LandingKey(t, s) == s && forall x :: x in Keys(t) ==> Abs(x - s) >= IndexEps)
  {
    match t
    case Leaf =>
    case Node(k, b, l, r) =>
      if Abs(s - k) >= IndexEps {
        var c := if s < k then l else r;
        LandingFar(c, s);
        assert LandingKey(t, s) == LandingKey(c, s);
        if LandingKey(c, s) !in Keys(c) {
          NodeFar(k, l, r, s);
        }
      }
  }

  /**
   * When s lies at least IndexEps from a node key k, and from every key on its own side
   * of k, it lies at least IndexEps from every key of the node.
   */
  lemma NodeFar(k: real, l: Tree, r: Tree, s: real)
    requires Abs(s - k) >= IndexEps
    requires (forall x :: x in Keys(l) ==> x < k) && (forall x :: x in Keys(r) ==> x > k)
    requires s < k ==> forall x :: x in Keys(l) ==> Abs(x - s) >= IndexEps
    requires s >= k ==> forall x :: x in Keys(r) ==> Abs(x - s) >= IndexEps
    ensures forall x :: x in Keys(l) + {k} + Keys(r) ==> Abs(x - s) >= IndexEps
  {
    forall x | x in Keys(l) + {k} + Keys(r)
      ensures Abs(x - s) >= IndexEps
    {
      if x in Keys(l) && s >= k {
        assert x < k;
      } else if x in Keys(r) && s < k {
        assert x > k;
      }
    }
  }

  /**
   * An insert keeps the search-tree invariant, and either lands in an existing node or
   * adds the key s, which then lies at least IndexEps from every existing key.
   */
  lemma {:induction false} InsertKeepsIndex(t: Tree, s: real, p: Pair)
    requires IsIndex(t)
    ensures IsIndex(InsertTree(t, s, p))
    ensures (LandingKey(t, s) in Keys(t) && Keys(InsertTree(t, s, p)) == Keys(t)) ||
            (LandingKey(t, s) == s && Keys(InsertTree(t, s, p)) == Keys(t) + {s} &&
             forall x :: x in Keys(t) ==> Abs(x - s) >= IndexEps)
  {
    InsertKeys(t, s, p);
    LandingFar(t, s);
    match t
    case Leaf =>
    case Node(k, b, l, r) =>
      if Abs(s - k) < IndexEps {
      } else if s < k {
        InsertKeepsIndex(l, s, p);
        InsertKeys(l, s, p);
      } else {
        InsertKeepsIndex(r, s, p);
        InsertKeys(r, s, p);
      }
  }

  /** Inserting keeps the keys pairwise IndexEps apart. */
  lemma InsertKeepsSeparated(t: Tree, s: real, p: Pair)
    requires IsIndex(t) && Separated(t)
    ensures Separated(InsertTree(t, s, p))
  {
    InsertKeepsIndex(t, s, p);
    var t' := InsertTree(t, s, p);
    if Keys(t') != Keys(t) {
      forall x, y | x in Keys(t') && y in Keys(t') && x != y
        ensures Abs(x - y) >= IndexEps
      {
        if x == s {
          assert y in Keys(t) && Abs(y - s) >= IndexEps;
        } else if y == s {
          assert x in Keys(t);
        } else {
          assert x in Keys(t) && y in Keys(t);
        }
      }
    }
  }

  lemma {:induction false} FlattenScoresAreKeys(t: Tree)
    ensures forall i :: 0 <= i < |Flatten(t)| ==> Flatten(t)[i].score in Keys(t)
  {
    match t
    case Leaf =>
    case Node(k, b, l, r) =>
      FlattenScoresAreKeys(l);
      FlattenScoresAreKeys(r);
      var fr, sp, fl := Flatten(r), Spread(k, b), Flatten(l);
      assert Flatten(t) == fr + sp + fl;
      forall i | 0 <= i < |Flatten(t)|
        ensures Flatten(t)[i].score in Keys(t)
      {
        if i < |fr| {
          assert Flatten(t)[i] == fr[i];
        } else if i < |fr| + |sp| {
          assert Flatten(t)[i] == sp[i - |fr|];
        } else {
          assert Flatten(t)[i] == fl[i - |fr| - |sp|];
        }
      }
  }

  lemma ConcatNonIncreasing(a: seq<Edge>, b: seq<Edge>)
    requires NonIncreasing(a) && NonIncreasing(b)
    requires forall i, j :: 0 <= i < |a| && 0 <= j < |b| ==> a[i].score >= b[j].score
    ensures NonIncreasing(a + b)
  {
    forall i, j | 0 <= i < j < |a + b|
      ensures (a + b)[i].score >= (a + b)[j].score
    {
      if j < |a| {
      } else if i >= |a| {
        assert (a + b)[i] == b[i - |a|] && (a + b)[j] == b[j - |a|];
      } else {
        assert (a + b)[i] == a[i] && (a + b)[j] == b[j - |a|];
      }
    }
  }

  /** get_all_matches of a search tree comes out highest score first. */
  lemma {:induction false} FlattenNonIncreasing(t: Tree)
    requires IsIndex(t)
    ensures NonIncreasing(Flatten(t))
  {
    match t
    case Leaf =>
    case Node(k, b, l, r) =>
      FlattenNonIncreasing(l);
      FlattenNonIncreasing(r);
      FlattenScoresAreKeys(l);
      FlattenScoresAreKeys(r);
      var fr, sp, fl := Flatten(r), Spread(k, b), Flatten(l);
      ConcatNonIncreasing(fr, sp);
      ConcatNonIncreasing(fr + sp, fl);
  }

  /**
   * An insert adds exactly one triple to the replay, for the inserted pair and at the
   * key of the node it landed in, and leaves the order of all other triples unchanged.
   */
  lemma {:induction false} InsertSplice(t: Tree, s: real, p: Pair)
    ensures InsertPos(t, s) <= |Flatten(t)|
    ensures Flatten(InsertTree(t, s, p)) ==
            Flatten(t)[..InsertPos(t, s)] + [Edge(LandingKey(t, s), p.job, p.cand)] + Flatten(t)[InsertPos(t, s)..]
  {
    match t
    case Leaf =>
    case Node(k, b, l, r) =>
      if Abs(s - k) < IndexEps {
        SpliceIntoBucket(k, b, l, r, p);
      } else if s < k {
        InsertSplice(l, s, p);
        SpliceLeft(k, b, l, r, InsertPos(l, s), Edge(LandingKey(l, s), p.job, p.cand));
      } else {
        InsertSplice(r, s, p);
        SpliceRight(k, b, l, r, InsertPos(r, s), Edge(LandingKey(r, s), p.job, p.cand));
      }
  }

  lemma SpliceIntoBucket(k: real, b: seq<Pair>, l: Tree, r: Tree, p: Pair)
    ensures Flatten(Node(k, b + [p], l, r)) ==
            Flatten(Node(k, b, l, r))[..|Flatten(r)| + |b|] + [Edge(k, p.job, p.cand)] +
            Flatten(Node(k, b, l, r))[|Flatten(r)| + |b|..]
  {
    var f := Flatten(Node(k, b, l, r));
    var n := |Flatten(r)| + |b|;
    assert Spread(k, b + [p]) == Spread(k, b) + [Edge(k, p.job, p.cand)];
    assert f[..n] == Flatten(r) + Spread(k, b);
    assert f[n..] == Flatten(l);
  }

  lemma SpliceLeft(k: real, b: seq<Pair>, l: Tree, r: Tree, q: nat, e: Edge)
    requires q <= |Flatten(l)|
    ensures var f := Flatten(Node(k, b, l, r));
            var n := |Flatten(r)| + |b| + q;
            Flatten(r) + Spread(k, b) + (Flatten(l)[..q] + [e] + Flatten(l)[q..]) == f[..n] + [e] + f[n..]
  {
    hide Flatten, Spread;
    NodeFlatten(k, b, l, r);
    SpliceThird(Flatten(r), Spread(k, b), Flatten(l), q, e);
  }

  lemma SpliceRight(k: real, b: seq<Pair>, l: Tree, r: Tree, q: nat, e: Edge)
    requires q <= |Flatten(r)|
    ensures var f := Flatten(Node(k, b, l, r));
            (Flatten(r)[..q] + [e] + Flatten(r)[q..]) + Spread(k, b) + Flatten(l) == f[..q] + [e] + f[q..]
  {
    hide Flatten, Spread;
    NodeFlatten(k, b, l, r);
    SpliceFirst(Flatten(r), Spread(k, b), Flatten(l), q, e);
  }

  /** The walk of a node is its right walk, its bucket and its left walk. */
  lemma NodeFlatten(k: real, b: seq<Pair>, l: Tree, r: Tree)
    ensures Flatten(Node(k, b, l, r)) == Flatten(r) + Spread(k, b) + Flatten(l)
    ensures |Spread(k, b)| == |b|
  {
  }

  /** Splicing e into the third part of x + y + z is splicing it into the whole. */
  lemma SpliceThird(x: seq<Edge>, y: seq<Edge>, z: seq<Edge>, q: nat, e: Edge)
    requires q <= |z|
    ensures var f, n := x + y + z, |x| + |y| + q;
            x + y + (z[..q] + [e] + z[q..]) == f[..n] + [e] + f[n..]
  {
    var f, n := x + y + z, |x| + |y| + q;
    assert f[..n] == x + y + z[..q];
    assert f[n..] == z[q..];
  }

  /** Splicing e into the first part of x + y + z is splicing it into the whole. */
  lemma SpliceFirst(x: seq<Edge>, y: seq<Edge>, z: seq<Edge>, q: nat, e: Edge)
    requires q <= |x|
    ensures var f := x + y + z;
            (x[..q] + [e] + x[q..]) + y + z == f[..q] + [e] + f[q..]
  {
    var f := x + y + z;
    assert f[..q] == x[..q];
    assert f[q..] == x[q..] + y + z;
  }

  /** The first n triples of f score at least key and the others less. */
  ghost predicate SplitAt(f: seq<Edge>, n: nat, key: real)
  {
    n <= |f| &&
    (forall i :: 0 <= i < n ==> f[i].score >= key) &&
    (forall i :: n <= i < |f| ==> f[i].score < key)
  }

  lemma SplitConcat(a: seq<Edge>, qa: nat, b: seq<Edge>, qb: nat, c: seq<Edge>, qc: nat, key: real)
    requires SplitAt(a, qa, key) && SplitAt(b, qb, key) && SplitAt(c, qc, key)
    requires qa < |a| ==> qb == 0 && qc == 0
    requires qb < |b| ==> qc == 0
    ensures SplitAt(a + b + c, qa + qb + qc, key)
  {
    var f := a + b + c;
    forall i | 0 <= i < |f|
      ensures i < qa + qb + qc ==> f[i].score >= key
      ensures i >= qa + qb + qc ==> f[i].score < key
    {
      if i < |a| {
        assert f[i] == a[i];
      } else if i < |a| + |b| {
        assert f[i] == b[i - |a|];
      } else {
        assert f[i] == c[i - |a| - |b|];
      }
    }
  }

  lemma ScoresAbove(t: Tree, key: real)
    requires forall x :: x in Keys(t) ==> x >= key
    ensures SplitAt(Flatten(t), |Flatten(t)|, key)
  {
    FlattenScoresAreKeys(t);
  }

  lemma ScoresBelow(t: Tree, key: real)
    requires forall x :: x in Keys(t) ==> x < key
    ensures SplitAt(Flatten(t), 0, key)
  {
    FlattenScoresAreKeys(t);
  }

  /**
   * In a search tree the new triple goes after every triple whose score is at least its
   * key and before every triple with a smaller score: at the end of its bucket.
   */
  lemma {:induction false} InsertPosition(t: Tree, s: real)
    requires IsIndex(t)
    ensures SplitAt(Flatten(t), InsertPos(t, s), LandingKey(t, s))
  {
    match t
    case Leaf =>
    case Node(k, b, l, r) =>
      var lk := LandingKey(t, s);
      if Abs(s - k) < IndexEps {
        ScoresAbove(r, lk);
        ScoresBelow(l, lk);
        SplitConcat(Flatten(r), |Flatten(r)|, Spread(k, b), |b|, Flatten(l), 0, lk);
      } else if s < k {
        InsertPosition(l, s);
        InsertKeepsIndex(l, s, Pair([], []));
        ScoresAbove(r, lk);
        SplitConcat(Flatten(r), |Flatten(r)|, Spread(k, b), |b|, Flatten(l), InsertPos(l, s), lk);
      } else {
        InsertPosition(r, s);
        InsertKeepsIndex(r, s, Pair([], []));
        ScoresBelow(l, lk);
        SplitConcat(Flatten(r), InsertPos(r, s), Spread(k, b), 0, Flatten(l), 0, lk);
      }
  }

  /** The pairs replayed after an insert are those replayed before plus the new pair. */
  lemma InsertAddsPair(t: Tree, s: real, p: Pair)
    ensures multiset(PairsOf(Flatten(InsertTree(t, s, p)))) == multiset(PairsOf(Flatten(t))) + multiset{p}
    ensures |Flatten(InsertTree(t, s, p))| == |Flatten(t)| + 1
  {
    InsertSplice(t, s, p);
    SpliceAddsPair(Flatten(t), InsertPos(t, s), Edge(LandingKey(t, s), p.job, p.cand));
  }

  lemma SpliceAddsPair(f: seq<Edge>, n: nat, e: Edge)
    requires n <= |f|
    ensures multiset(PairsOf(f[..n] + [e] + f[n..])) == multiset(PairsOf(f)) + multiset{Pair(e.job, e.cand)}
  {
    var a, c := PairsOf(f[..n]), PairsOf(f[n..]);
    PairsOfConcat(f[..n] + [e], f[n..]);
    PairsOfConcat(f[..n], [e]);
    assert PairsOf([e]) == [Pair(e.job, e.cand)];
    PairsOfConcat(f[..n], f[n..]);
    assert f == f[..n] + f[n..];
    assert multiset(a + [Pair(e.job, e.cand)] + c) == multiset(a) + multiset{Pair(e.job, e.cand)} + multiset(c);
  }

  lemma PairsOfConcat(a: seq<Edge>, b: seq<Edge>)
    ensures PairsOf(a + b) == PairsOf(a) + PairsOf(b)
  {
  }

  /** The index invariant: search tree, separated keys, one triple per insert, the inserted pairs. */
  ghost predicate IndexInv(t: Tree, total: nat, inserted: seq<Pair>)
  {
    IsIndex(t) && Separated(t) &&
    |Flatten(t)| == total &&
    multiset(PairsOf(Flatten(t))) == multiset(inserted)
  }

  /** insert keeps the index invariant, with one more match counted and recorded. */
  lemma InsertKeepsInv(t: Tree, total: nat, inserted: seq<Pair>, s: real, p: Pair)
    requires IndexInv(t, total, inserted)
    ensures IndexInv(InsertTree(t, s, p), total + 1, inserted + [p])
  {
    InsertKeepsIndex(t, s, p);
    InsertKeepsSeparated(t, s, p);
    InsertAddsPair(t, s, p);
  }

  ghost function ModelOf(n: BSTNode?): Tree
    reads n
  {
    if n == null then Leaf else n.Model
  }

  /** The children of a valid node are valid, own smaller footprints, and replay around its bucket. */
  lemma NodeParts(node: BSTNode)
    requires node.Valid()
    ensures node.left != null ==> node.left.Valid() && node.left.Repr < node.Repr
    ensures node.right != null ==> node.right.Valid() && node.right.Repr < node.Repr
    ensures node in node.Repr && ModelOf(node) == node.Model
    ensures Flatten(node.Model) == Flatten(ModelOf(node.right)) + Spread(node.score, node.matches) + Flatten(ModelOf(node.left))
  {
  }

  /** What a valid node guarantees, one link at a time. */
  lemma Unlink(node: BSTNode)
    requires node.Valid()
    ensures node in node.Repr && ModelOf(node) == node.Model
    ensures node.left != null ==> node.left in node.Repr && node.left.Repr <= node.Repr && node !in node.left.Repr && node.left.Valid() && node.left in node.left.Repr
    ensures node.right != null ==> node.right in node.Repr && node.right.Repr <= node.Repr && node !in node.right.Repr && node.right.Valid() && node.right in node.right.Repr
    ensures node.left != null && node.right != null ==> node.left.Repr !! node.right.Repr
    ensures node.Model == Node(node.score, node.matches, ModelOf(node.left), ModelOf(node.right))
  {
  }

  /** A node whose links are sound and whose Model is its own key, bucket and subtrees is valid. */
  lemma Relink(node: BSTNode)
    requires node in node.Repr
    requires node.left != null ==> node.left in node.Repr && node.left.Repr <= node.Repr && node !in node.left.Repr && node.left.Valid()
    requires node.right != null ==> node.right in node.Repr && node.right.Repr <= node.Repr && node !in node.right.Repr && node.right.Valid()
    requires node.left != null && node.right != null ==> node.left.Repr !! node.right.Repr
    requires node.Model == Node(node.score, node.matches, ModelOf(node.left), ModelOf(node.right))
    ensures node.Valid()
  {
  }

  /** A node of the linked tree; Model is the Tree value of the subtree rooted here. */
  class BSTNode {
    var score: real
    var matches: seq<Pair>
    var left: BSTNode?
    var right: BSTNode?
    ghost var Repr: set<object>
    ghost var Model: Tree

    ghost predicate Valid()
      reads this, Repr
      decreases Repr
    {
      this in Repr &&
      (left != null ==> left in Repr && left.Repr <= Repr && this !in left.Repr && left.Valid()) &&
      (right != null ==> right in Repr && right.Repr <= Repr && this !in right.Repr && right.Valid()) &&
      (left != null && right != null ==> left.Repr !! right.Repr) &&
      Model == Node(score, matches, ModelOf(left), ModelOf(right))
    }

    /** A node with an empty bucket and no children. */
    constructor (score: real)
      ensures Valid() && fresh(Repr)
      ensures this.score == score && matches == [] && left == null && right == null
      ensures Model == Node(score, [], Leaf, Leaf)
    {
      this.score := score;
      matches := [];
      left := null;
      right := null;
      Repr := {this};
      Model := Node(score, [], Leaf, Leaf);
    }
  }

  /** The ranked index: the root of the linked tree and the number of matches inserted. */
  class MatchBST {
    var root: BSTNode?
    var totalMatches: nat
    ghost var Repr: set<object>
    /** Every pair inserted so far, in insertion order. */
    ghost var Inserted: seq<Pair>

    ghost function Model(): Tree
      reads this, root
    {
      ModelOf(root)
    }

    ghost predicate Valid()
      reads this, Repr
    {
      this in Repr &&
      (root != null ==> root in Repr && root.Repr <= Repr && this !in root.Repr && root.Valid()) &&
      IndexInv(Model(), totalMatches, Inserted)
    }

    constructor ()
      ensures Valid() && fresh(Repr)
      ensures Model() == Leaf && totalMatches == 0 && Inserted == []
    {
      root := null;
      totalMatches := 0;
      Repr := {this};
      Inserted := [];
    }

    /** insert: add one match and count it. */
    method Insert(score: real, jobId: string, candId: string)
      requires Valid()
      modifies Repr
      ensures Valid() && fresh(Repr - old(Repr))
      ensures Model() == InsertTree(old(Model()), score, Pair(jobId, candId))
      ensures totalMatches == old(totalMatches) + 1
      ensures Inserted == old(Inserted) + [Pair(jobId, candId)]
    {
      hide IndexInv, InsertTree, BSTNode.Valid;
      ghost var before := Model();
      var n := InsertRecursive(root, score, jobId, candId);
      Unlink(n);
      root := n;
      totalMatches := totalMatches + 1;
      Repr := Repr + n.Repr;
      InsertKeepsInv(before, totalMatches - 1, Inserted, score, Pair(jobId, candId));
      Inserted := Inserted + [Pair(jobId, candId)];
    }

    /** _insert_recursive: returns the root of the subtree after the insert. */
    method InsertRecursive(node: BSTNode?, score: real, jobId: string, candId: string) returns (n: BSTNode)
      requires node != null ==> node.Valid()
      modifies if node == null then {} else node.Repr
      ensures n.Valid()
      ensures node == null ==> fresh(n.Repr)
      ensures node != null ==> n == node && fresh(n.Repr - old(node.Repr))
      ensures n.Model == InsertTree(old(ModelOf(node)), score, Pair(jobId, candId))
      decreases if node == null then {} else node.Repr, 1
    {
      hide BSTNode.Valid;
      if node == null {
        n := new BSTNode(score);
        n.matches := n.matches + [Pair(jobId, candId)];
        n.Model := Node(score, n.matches, Leaf, Leaf);
        Relink(n);
        return;
      }
      Unlink(node);
      if Abs(score - node.score) < IndexEps {
        node.matches := node.matches + [Pair(jobId, candId)];
        node.Model := Node(node.score, node.matches, ModelOf(node.left), ModelOf(node.right));
        Relink(node);
      } else if score < node.score {
        InsertLeft(node, score, jobId, candId);
      } else {
        InsertRight(node, score, jobId, candId);
      }
      n := node;
    }

    /** The branch of _insert_recursive that descends into the left subtree. */
    method InsertLeft(node: BSTNode, score: real, jobId: string, candId: string)
      requires node.Valid() && score < node.score
      modifies node.Repr
      ensures node.Valid() && fresh(node.Repr - old(node.Repr))
      ensures node.Model == Node(old(node.score), old(node.matches),
                                 InsertTree(old(ModelOf(node.left)), score, Pair(jobId, candId)), old(ModelOf(node.right)))
      decreases node.Repr, 0
    {
      hide *;
      Unlink(node);
      var l := InsertRecursive(node.left, score, jobId, candId);
      Unlink(l);
      node.left := l;
      node.Repr := node.Repr + l.Repr;
      node.Model := Node(node.score, node.matches, l.Model, ModelOf(node.right));
      Relink(node);
    }

    /** The branch of _insert_recursive that descends into the right subtree. */
    method InsertRight(node: BSTNode, score: real, jobId: string, candId: string)
      requires node.Valid() && score >= node.score
      modifies node.Repr
      ensures node.Valid() && fresh(node.Repr - old(node.Repr))
      ensures node.Model == Node(old(node.score), old(node.matches),
                                 old(ModelOf(node.left)), InsertTree(old(ModelOf(node.right)), score, Pair(jobId, candId)))
      decreases node.Repr, 0
    {
      hide *;
      Unlink(node);
      var r := InsertRecursive(node.right, score, jobId, candId);
      Unlink(r);
      node.right := r;
      node.Repr := node.Repr + r.Repr;
      node.Model := Node(node.score, node.matches, ModelOf(node.left), r.Model);
      Relink(node);
    }

    /** _inorder_reverse: appends the subtree's triples, highest key first, to result. */
    method InorderReverse(node: BSTNode?, result: seq<Edge>) returns (r: seq<Edge>)
      requires node != null ==> node.Valid()
      ensures r == result + Flatten(ModelOf(node))
      decreases if node == null then {} else node.Repr
    {
      hide BSTNode.Valid, Spread;
      r := result;
      if node != null {
        NodeParts(node);
        var r1 := InorderReverse(node.right, r);
        var r2 := AppendBucket(node.score, node.matches, r1);
        r := InorderReverse(node.left, r2);
      }
    }

    /** The bucket loop of _inorder_reverse: one triple per pair, in insertion order. */
    static method AppendBucket(key: real, bucket: seq<Pair>, result: seq<Edge>) returns (r: seq<Edge>)
      ensures r == result + Spread(key, bucket)
    {
      r := result;
      for i := 0 to |bucket|
        invariant r == result + Spread(key, bucket[..i])
      {
        SpreadSnoc(key, bucket, i);
        r := r + [Edge(key, bucket[i].job, bucket[i].cand)];
      }
      assert bucket[..|bucket|] == bucket;
    }

    /**
     * get_all_matches: every inserted pair exactly once, highest score first, as many
     * triples as inserts.
     */
    method GetAllMatches() returns (r: seq<Edge>)
      requires Valid()
      ensures r == Flatten(Model())
      ensures NonIncreasing(r)
      ensures |r| == totalMatches
      ensures multiset(PairsOf(r)) == multiset(Inserted)
    {
      r := InorderReverse(root, []);
      FlattenNonIncreasing(Model());
    }
  }
}
