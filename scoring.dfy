/**
 * The compatibility score of one candidate for one job: a weighted sum of a
 * skill-overlap ratio, an experience ratio saturating at twice the required
 * minimum, and a flat bonus when the locations agree (ignoring case).
 */
module Scoring {

  /** A person who can be assigned to a job. Skills is the list as loaded, duplicates included. */
  datatype Candidate = Candidate(id: string, name: string, skills: seq<string>, expYears: int, location: string)

  /** A job opening. ReqSkills is the list as loaded, duplicates included. */
  datatype Job = Job(id: string, title: string, reqSkills: seq<string>, minExp: int, location: string)

  /** The three weights of the score; the location bonus is added unweighted. */
  datatype Weights = Weights(skill: real, exp: real, locBonus: real)

  const DefaultWeights: Weights := Weights(0.6, 0.3, 0.1)

  /** Lower-cases one character (ASCII letters only). */
  function LowerChar(c: char): (r: char)
    ensures 'A' <= c <= 'Z' ==> 'a' <= r <= 'z'
    ensures !('A' <= c <= 'Z') ==> r == c
  {
    if 'A' <= c <= 'Z' then (c as int + 32) as char else c
  }

  /** Lower-cases a string character by character. */
  function Lower(s: string): (r: string)
    ensures |r| == |s|
  {
    if s == [] then [] else [LowerChar(s[0])] + Lower(s[1..])
  }

  /** The set of lower-cased tags of a tag list. */
  function LowerSet(tags: seq<string>): (r: set<string>)
    ensures |r| <= |tags|
  {
    if tags == [] then {} else {Lower(tags[0])} + LowerSet(tags[1..])
  }

  /** LowerSet is the set comprehension over the lower-cased tags. */
  lemma {:induction false} LowerSetMembers(tags: seq<string>)
    ensures forall t :: t in LowerSet(tags) <==> exists i :: 0 <= i < |tags| && Lower(tags[i]) == t
  {
    hide Lower;
    if tags != [] {
      LowerSetMembers(tags[1..]);
      assert forall i :: 1 <= i < |tags| ==> tags[i] == tags[1..][i - 1];
      forall t | t in LowerSet(tags)
        ensures exists i :: 0 <= i < |tags| && Lower(tags[i]) == t
      {
        if t != Lower(tags[0]) {
          assert t in LowerSet(tags[1..]);
          var k :| 0 <= k < |tags[1..]| && Lower(tags[1..][k]) == t;
          assert Lower(tags[k + 1]) == t;
        }
      }
    }
  }

  function Max1(n: int): (r: int)
    ensures r >= 1 && r >= n
    ensures r == 1 || r == n
  {
    if n > 1 then n else 1
  }

  /** Number of distinct lower-cased skills the candidate shares with the job. */
  function Overlap(c: Candidate, j: Job): (r: nat)
    ensures r <= |LowerSet(c.skills)| && r <= |LowerSet(j.reqSkills)| && r <= |j.reqSkills|
  {
    var a, b := LowerSet(c.skills), LowerSet(j.reqSkills);
    SubsetCard(a * b, a);
    SubsetCard(a * b, b);
    |a * b|
  }

  /** Skill component: overlap divided by the length of the required list (at least 1). */
  function SkillScore(c: Candidate, j: Job): (r: real)
    ensures 0.0 <= r <= 1.0
    ensures r == 1.0 <==> j.reqSkills != [] && Overlap(c, j) == |j.reqSkills|
    ensures r == 0.0 <==> Overlap(c, j) == 0
  {
    assert j.reqSkills == [] ==> LowerSet(j.reqSkills) == {};
    RatioUnit(Overlap(c, j) as real, Max1(|j.reqSkills|) as real);
    Overlap(c, j) as real / Max1(|j.reqSkills|) as real
  }

  lemma RatioUnit(x: real, d: real)
    requires 0.0 <= x <= d && d > 0.0
    ensures 0.0 <= x / d <= 1.0
    ensures x / d == 1.0 <==> x == d
    ensures x / d == 0.0 <==> x == 0.0
  {
    RatioCompare(x, d, 0.0);
    RatioCompare(x, d, 1.0);
  }

  /** Comparing a quotient with k is comparing the numerator with k times the denominator. */
  lemma RatioCompare(x: real, d: real, k: real)
    requires d > 0.0
    ensures x / d >= k <==> x >= k * d
    ensures x / d <= k <==> x <= k * d
  {
    var q := x / d;
    assert q * d == x;
    assert (q - k) * d == x - k * d;
    if q > k {
      assert (q - k) * d > 0.0;
    } else if q < k {
      assert (k - q) * d > 0.0;
    }
  }

  lemma SubsetCard<T>(a: set<T>, b: set<T>)
    requires a <= b
    ensures |a| <= |b|
  {
    assert b == a + (b - a);
  }

  /** Experience component: the ratio to the minimum (at least 1), capped at 2, halved. */
  function ExpScore(c: Candidate, j: Job): (r: real)
    ensures r <= 1.0
    ensures c.expYears >= 0 ==> 0.0 <= r
    ensures r == 1.0 <==> c.expYears >= 2 * Max1(j.minExp)
  {
    var ratio := c.expYears as real / Max1(j.minExp) as real;
    RatioCompare(c.expYears as real, Max1(j.minExp) as real, 2.0);
    RatioCompare(c.expYears as real, Max1(j.minExp) as real, 0.0);
    (if ratio < 2.0 then ratio else 2.0) / 2.0
  }

  /** Below the cap the experience component is the years over twice the minimum. */
  lemma ExpScoreBelowCap(c: Candidate, j: Job)
    requires c.expYears < 2 * Max1(j.minExp)
    ensures ExpScore(c, j) == c.expYears as real / (2 * Max1(j.minExp)) as real
  {
    var e, d := c.expYears as real, Max1(j.minExp) as real;
    RatioCompare(e, d, 2.0);
    var q := e / d;
    assert q * d == e;
    assert (q / 2.0) * (2.0 * d) == e;
  }

  /** True when the two locations agree after lower-casing. */
  predicate SameLocation(c: Candidate, j: Job)
  {
    Lower(c.location) == Lower(j.location)
  }

  /** The location component: the whole bonus or nothing. */
  function LocationBonus(c: Candidate, j: Job, w: Weights): (r: real)
    ensures SameLocation(c, j) ==> r == w.locBonus
    ensures !SameLocation(c, j) ==> r == 0.0
  {
    if SameLocation(c, j) then w.locBonus else 0.0
  }

  /** Lower-casing twice is lower-casing once. */
  lemma LowerIdempotent(s: string)
    ensures Lower(Lower(s)) == Lower(s)
  {
    hide Lower;
    LowerAt(s);
    LowerAt(Lower(s));
    LowerIs(Lower(s), Lower(s));
  }

  /**
   * The location bonus ignores case: lower-casing either location first changes
   * nothing, and the bonus is the whole weight or nothing.
   */
  lemma LocationIgnoresCase(c: Candidate, j: Job, w: Weights)
    ensures LocationBonus(c, j, w) == LocationBonus(c.(location := Lower(c.location)), j, w)
    ensures LocationBonus(c, j, w) == LocationBonus(c, j.(location := Lower(j.location)), w)
    ensures LocationBonus(c, j, w) in {0.0, w.locBonus}
  {
    hide Lower;
    LowerIdempotent(c.location);
    LowerIdempotent(j.location);
  }

  /**
   * The compatibility score of candidate c for job j. With non-negative weights and
   * experience it lies between 0 and skill + exp + locBonus.
   */
  function CalculateScore(c: Candidate, j: Job, w: Weights): (r: real)
    ensures NonNegative(w) && c.expYears >= 0 ==> 0.0 <= r <= w.skill + w.exp + w.locBonus
  {
    var s, e, l := SkillScore(c, j), ExpScore(c, j), LocationBonus(c, j, w);
    assert NonNegative(w) && c.expYears >= 0 ==> 0.0 <= Scale(w.skill, s) + Scale(w.exp, e) + l <= w.skill + w.exp + w.locBonus by {
      if NonNegative(w) && c.expYears >= 0 {
        WeightedSumBounds(w, s, e, l);
      }
    }
    Scale(w.skill, s) + Scale(w.exp, e) + l
  }

  /** A weight applied to a component. */
  function Scale(k: real, x: real): real
  {
    k * x
  }

  predicate NonNegative(w: Weights)
  {
    w.skill >= 0.0 && w.exp >= 0.0 && w.locBonus >= 0.0
  }

  lemma ScaledUnit(k: real, x: real)
    requires k >= 0.0 && 0.0 <= x <= 1.0
    ensures 0.0 <= Scale(k, x) <= k
  {
    assert k * x <= k * 1.0 by {
      assert k * (1.0 - x) >= 0.0;
    }
  }

  lemma WeightedSumBounds(w: Weights, s: real, e: real, l: real)
    requires NonNegative(w) && 0.0 <= s <= 1.0 && 0.0 <= e <= 1.0 && 0.0 <= l <= w.locBonus
    ensures 0.0 <= Scale(w.skill, s) + Scale(w.exp, e) + l <= w.skill + w.exp + w.locBonus
  {
    ScaledUnit(w.skill, s);
    ScaledUnit(w.exp, e);
    SumBounds(Scale(w.skill, s), Scale(w.exp, e), l, w.skill, w.exp, w.locBonus);
  }

  lemma SumBounds(a: real, b: real, c: real, x: real, y: real, z: real)
    requires 0.0 <= a <= x && 0.0 <= b <= y && 0.0 <= c <= z
    ensures 0.0 <= a + b + c <= x + y + z
    ensures a + b + c == x + y + z <==> a == x && b == y && c == z
  {
  }

  /** With the default weights the score lies in [0, 1]: the bonus is not weighted again. */
  lemma DefaultScoreAtMostOne(c: Candidate, j: Job)
    requires c.expYears >= 0
    ensures 0.0 <= CalculateScore(c, j, DefaultWeights) <= 1.0
  {
  }

  /** The maximum is reached exactly when all three components are full. */
  lemma ScoreMaximal(c: Candidate, j: Job, w: Weights)
    requires w.skill > 0.0 && w.exp > 0.0 && w.locBonus > 0.0 && c.expYears >= 0
    ensures CalculateScore(c, j, w) == w.skill + w.exp + w.locBonus
            <==> SkillScore(c, j) == 1.0 && ExpScore(c, j) == 1.0 && SameLocation(c, j)
  {
    var s, e, l := SkillScore(c, j), ExpScore(c, j), LocationBonus(c, j, w);
    ScaledFull(w.skill, s);
    ScaledFull(w.exp, e);
    SumBounds(Scale(w.skill, s), Scale(w.exp, e), l, w.skill, w.exp, w.locBonus);
  }

  lemma ScaledFull(k: real, x: real)
    requires k > 0.0 && 0.0 <= x <= 1.0
    ensures 0.0 <= Scale(k, x) <= k
    ensures Scale(k, x) == k <==> x == 1.0
  {
    ScaledUnit(k, x);
    if x < 1.0 {
      assert k * (1.0 - x) > 0.0;
    }
  }

  // The three scoring cases of the repository's scoring test.
  const PerfectCandidate := Candidate("C1", "Perfect Match", ["Python", "Django", "SQL"], 5, "S\U{e3}o Paulo")
  const PerfectJob := Job("J1", "Dev Python", ["Python", "Django", "SQL"], 3, "S\U{e3}o Paulo")
  const NoMatchCandidate := Candidate("C2", "No Match", ["Java", "Spring"], 10, "Rio de Janeiro")
  const NoMatchJob := Job("J2", "Dev Python", ["Python", "Django"], 5, "S\U{e3}o Paulo")
  const PartialCandidate := Candidate("C3", "Partial", ["Python", "Java"], 4, "Belo Horizonte")
  const PartialJob := Job("J3", "Dev Python", ["Python", "Django", "SQL"], 3, "S\U{e3}o Paulo")

  lemma LowerSetOfTwo(a: string, b: string)
    ensures LowerSet([a, b]) == {Lower(a), Lower(b)}
  {
    hide Lower;
    assert [a, b][1..] == [b];
    assert [b][1..] == [];
  }

  lemma LowerSetOfThree(a: string, b: string, c: string)
    ensures LowerSet([a, b, c]) == {Lower(a), Lower(b), Lower(c)}
  {
    assert [a, b, c][1..] == [b, c];
    LowerSetOfTwo(b, c);
  }

  /** Lower acts character by character. */
  lemma {:induction false} LowerAt(s: string)
    ensures forall i | 0 <= i < |s| :: Lower(s)[i] == LowerChar(s[i])
  {
    if s != [] {
      LowerAt(s[1..]);
    }
  }

  /** A string lower-cases to t when t is its character-wise lower-casing. */
  lemma LowerIs(s: string, t: string)
    requires |s| == |t| && forall i | 0 <= i < |s| :: LowerChar(s[i]) == t[i]
    ensures Lower(s) == t
  {
    hide Lower;
    LowerAt(s);
  }

  lemma LowerOfExampleSkills()
    ensures Lower("Python") == "python" && Lower("Django") == "django" && Lower("SQL") == "sql"
    ensures Lower("Java") == "java" && Lower("Spring") == "spring"
  {
    hide Lower;
    LowerIs("Python", "python");
    LowerIs("Django", "django");
    LowerIs("SQL", "sql");
    LowerIs("Java", "java");
    LowerIs("Spring", "spring");
  }

  lemma PerfectMatchSkills()
    ensures SkillScore(PerfectCandidate, PerfectJob) == 1.0
  {
    hide Lower;
    LowerOfExampleSkills();
    LowerSetOfThree("Python", "Django", "SQL");
    var b := {"python", "django", "sql"};
    assert LowerSet(PerfectJob.reqSkills) == b;
    assert b * b == b;
    assert |b| == 3;
  }

  lemma NoMatchSkills()
    ensures SkillScore(NoMatchCandidate, NoMatchJob) == 0.0
  {
    hide Lower;
    LowerOfExampleSkills();
    LowerSetOfTwo("Java", "Spring");
    LowerSetOfTwo("Python", "Django");
    assert {"java", "spring"} * {"python", "django"} == {};
  }

  lemma PartialOverlap()
    ensures Overlap(PartialCandidate, PartialJob) == 1
  {
    hide Lower;
    LowerOfExampleSkills();
    LowerSetOfTwo("Python", "Java");
    LowerSetOfThree("Python", "Django", "SQL");
    assert {"python", "java"} * {"python", "django", "sql"} == {"python"};
  }

  lemma PartialSkills()
    ensures SkillScore(PartialCandidate, PartialJob) == 1.0 / 3.0
  {
    hide Lower, LowerSet, Overlap;
    PartialOverlap();
    assert Max1(|PartialJob.reqSkills|) == 3;
  }

  /**
   * The "perfect match" of the scoring test (3 of 3 skills, 5 years against 3, same city)
   * scores 0.95, not 1: the experience ratio 5/3 lies below the cap of 2, so that
   * component is 5/6 and contributes 0.25.
   */
  lemma PerfectMatchScore()
    ensures CalculateScore(PerfectCandidate, PerfectJob, DefaultWeights) == 0.95
  {
    PerfectMatchSkills();
    ExpScoreBelowCap(PerfectCandidate, PerfectJob);
    assert ExpScore(PerfectCandidate, PerfectJob) == 5.0 / 6.0;
  }

  /** No shared skill, 10 years against 5, another city: only the experience weight, 0.3, remains. */
  lemma NoOverlapScore()
    ensures CalculateScore(NoMatchCandidate, NoMatchJob, DefaultWeights) == 0.3
  {
    hide Lower, LowerSet, SkillScore, ExpScore, SameLocation;
    NoMatchSkills();
    ElsewhereByInitial(NoMatchCandidate, NoMatchJob);
    assert ExpScore(NoMatchCandidate, NoMatchJob) == 1.0;
  }

  /** One of three skills, 4 years against 3, another city: 0.6/3 + 0.3 * 2/3 = 0.4. */
  lemma PartialMatchScore()
    ensures CalculateScore(PartialCandidate, PartialJob, DefaultWeights) == 0.4
  {
    hide Lower, LowerSet, SkillScore, ExpScore, SameLocation;
    PartialSkills();
    ExpScoreBelowCap(PartialCandidate, PartialJob);
    assert ExpScore(PartialCandidate, PartialJob) == 4.0 / 6.0;
    ElsewhereByInitial(PartialCandidate, PartialJob);
  }

  /** Locations whose first letters differ after lower-casing are different locations. */
  lemma ElsewhereByInitial(c: Candidate, j: Job)
    requires c.location != [] && j.location != []
    requires LowerChar(c.location[0]) != LowerChar(j.location[0])
    ensures !SameLocation(c, j)
  {
    assert Lower(c.location)[0] == LowerChar(c.location[0]);
    assert Lower(j.location)[0] == LowerChar(j.location[0]);
  }
}
