/**
  Best-match selection (services/face_match_service.py).

  The candidate list is a parameter, in the order the directory returns it:
  the function the service calls to fetch it, crud.get_all_employees, is not
  part of this model (crud.py defines no such function).  The threshold is a
  parameter instead of the global settings object.

  The scan keeps a running maximum that starts at -1.0 and is replaced only by
  a strictly greater score, so the earliest candidate with the highest score
  wins, and a list whose every score is at most -1.0 leaves no match at all.
 */
module FaceMatchService {
  import opened Failures
  import opened Vectors
  import opened Directory

  datatype MatchResult = MatchResult(employeeId: string, name: string, role: string, score: real)

  function MatchOf(e: Employee, score: real): MatchResult {
    MatchResult(e.employeeId, e.name, e.role, score)
  }

  /** Every candidate can be scored against the (normalised) query. */
  predicate Scorable(k: Kernel, queryVec: Vector, employees: seq<Employee>) {
    forall j :: 0 <= j < |employees| ==> CosineSimilarity(k, queryVec, employees[j].embedding).Ok?
  }

  function Scores(k: Kernel, queryVec: Vector, employees: seq<Employee>): (s: seq<real>)
    requires Scorable(k, queryVec, employees)
    ensures |s| == |employees|
    ensures forall j :: 0 <= j < |s| ==> s[j] == CosineSimilarity(k, queryVec, employees[j].embedding).value
  {
    seq(|employees|, j requires 0 <= j < |employees| => CosineSimilarity(k, queryVec, employees[j].embedding).value)
  }

  /** The highest score, or -1.0 when no score exceeds it (the scan's start value). */
  function Peak(scores: seq<real>): (m: real)
    ensures m >= -1.0
    ensures forall j :: 0 <= j < |scores| ==> scores[j] <= m
    ensures m == -1.0 || exists j :: 0 <= j < |scores| && scores[j] == m
  {
    if |scores| == 0 then -1.0
    else
      var p := Peak(scores[..|scores| - 1]);
      assert forall j :: 0 <= j < |scores| - 1 ==> scores[j] == scores[..|scores| - 1][j];
      if scores[|scores| - 1] > p then scores[|scores| - 1] else p
  }

  /** Position b holds the first occurrence of the peak, and the peak is above -1.0. */
  predicate IsFirstBest(scores: seq<real>, b: nat) {
    && b < |scores|
    && scores[b] > -1.0
    && (forall j :: 0 <= j < |scores| ==> scores[j] <= scores[b])
    && (forall j :: 0 <= j < b ==> scores[j] < scores[b])
  }

  /** At most one position is the first best. */
  lemma FirstBestUnique(scores: seq<real>, b1: nat, b2: nat)
    requires IsFirstBest(scores, b1) && IsFirstBest(scores, b2)
    ensures b1 == b2
  {
  }

  /** A first best exists exactly when some score exceeds -1.0, and it holds the peak. */
  lemma {:induction false} FirstBestExists(scores: seq<real>)
    requires exists j :: 0 <= j < |scores| && scores[j] > -1.0
    ensures exists b: nat :: IsFirstBest(scores, b) && scores[b] == Peak(scores)
  {
    var m := Peak(scores);
    var b :| 0 <= b < |scores| && scores[b] == m;
    FirstIndexOf(scores, m, b);
  }

  lemma {:induction false} FirstIndexOf(scores: seq<real>, m: real, k: nat)
    requires k < |scores| && scores[k] == m && m > -1.0
    requires forall j :: 0 <= j < |scores| ==> scores[j] <= m
    ensures exists b: nat :: IsFirstBest(scores, b) && scores[b] == m
    decreases k
  {
    if forall j :: 0 <= j < k ==> scores[j] < m {
      assert IsFirstBest(scores, k);
    } else {
      var j :| 0 <= j < k && scores[j] >= m;
      FirstIndexOf(scores, m, j);
    }
  }

  /** The data on which the scan is defined: a non-zero query, and no zero
      stored embedding. */
  predicate ScanDefined(k: Kernel, query: Vector, employees: seq<Employee>) {
    !IsZero(query) && Scorable(k, k.unitOf(query), employees)
  }

  /** get_best_match. */
  method GetBestMatch(k: Kernel, query: Vector, employees: seq<Employee>, threshold: real)
    returns (r: Result<Option<MatchResult>>)
    ensures |employees| == 0 ==> r == Err(NoEmployees)
    ensures |employees| > 0 && !ScanDefined(k, query, employees) ==> r == Err(InvalidVector)
    // np.dot refuses a stored embedding whose length differs from the query's.
    ensures |employees| > 0 && (exists j :: 0 <= j < |employees| && |employees[j].embedding| != |query|)
            ==> r == Err(InvalidVector)
    ensures |employees| > 0 && ScanDefined(k, query, employees) ==>
      var scores := Scores(k, k.unitOf(query), employees);
      && (Peak(scores) < threshold ==> r == Err(FaceConfidenceTooLow))
      && (Peak(scores) >= threshold ==> r.Ok?)
      && (r.Ok? && r.value.Some? ==>
            exists b: nat :: IsFirstBest(scores, b) && r.value.value == MatchOf(employees[b], scores[b]))
      && (r.Ok? && r.value.None? ==> forall j :: 0 <= j < |scores| ==> scores[j] <= -1.0)
    ensures r.Ok? ==> r.value.Some? || threshold <= -1.0
    ensures r.Ok? && r.value.Some? ==> r.value.value.score >= threshold
  {
    if |employees| == 0 {
      return Err(NoEmployees);
    }
    var normalized := Normalize(k, query);
    if normalized.Err? {
      return Err(normalized.failure);
    }
    var queryVec := normalized.value;
    var bestMatch: Option<MatchResult> := None;
    var bestScore := -1.0;
    ghost var seen: seq<real> := [];
    ghost var best: nat := 0;
    var i := 0;
    while i < |employees|
      invariant 0 <= i <= |employees| && |seen| == i
      invariant ScoredPrefix(k, queryVec, employees, seen)
      invariant bestScore == Peak(seen)
      invariant bestMatch.None? ==> forall j :: 0 <= j < i ==> seen[j] <= -1.0
      invariant bestMatch.Some? ==> IsFirstBest(seen, best) && bestMatch.value == MatchOf(employees[best], seen[best])
    {
      var score := CosineSimilarity(k, queryVec, employees[i].embedding);
      if score.Err? {
        return Err(score.failure);
      }
      ScoredPrefixExtends(k, queryVec, employees, seen, score.value);
      ScanStep(seen, score.value, best, bestMatch.Some?);
      if score.value > bestScore {
        bestScore := score.value;
        bestMatch := Some(MatchOf(employees[i], score.value));
        best := i;
      }
      seen := seen + [score.value];
      i := i + 1;
    }
    ScoredPrefixComplete(k, queryVec, employees, seen);
    if bestScore < threshold {
      return Err(FaceConfidenceTooLow);
    }
    r := Ok(bestMatch);
  }

  /** `seen` holds the scores of the first |seen| candidates. */
  predicate ScoredPrefix(k: Kernel, queryVec: Vector, employees: seq<Employee>, seen: seq<real>) {
    && |seen| <= |employees|
    && forall j :: 0 <= j < |seen| ==> CosineSimilarity(k, queryVec, employees[j].embedding) == Ok(seen[j])
  }

  lemma ScoredPrefixExtends(k: Kernel, queryVec: Vector, employees: seq<Employee>, seen: seq<real>, x: real)
    requires ScoredPrefix(k, queryVec, employees, seen) && |seen| < |employees|
    requires CosineSimilarity(k, queryVec, employees[|seen|].embedding) == Ok(x)
    ensures ScoredPrefix(k, queryVec, employees, seen + [x])
  {
  }

  lemma ScoredPrefixComplete(k: Kernel, queryVec: Vector, employees: seq<Employee>, seen: seq<real>)
    requires ScoredPrefix(k, queryVec, employees, seen) && |seen| == |employees|
    ensures Scorable(k, queryVec, employees) && seen == Scores(k, queryVec, employees)
  {
  }

  /** One step of the scan: a strictly greater score takes over, anything
      else leaves the running best where it was. */
  lemma ScanStep(seen: seq<real>, x: real, best: nat, found: bool)
    requires found ==> IsFirstBest(seen, best)
    requires !found ==> forall j :: 0 <= j < |seen| ==> seen[j] <= -1.0
    ensures Peak(seen + [x]) == if x > Peak(seen) then x else Peak(seen)
    ensures x > Peak(seen) ==> IsFirstBest(seen + [x], |seen|)
    ensures x <= Peak(seen) && found ==> IsFirstBest(seen + [x], best)
    ensures x <= Peak(seen) && !found ==> forall j :: 0 <= j < |seen| + 1 ==> (seen + [x])[j] <= -1.0
  {
    assert (seen + [x])[..|seen|] == seen;
  }

  /** Two candidates with the same top score: the scan reports the earlier one. */
  method TieGoesToFirst(k: Kernel, query: Vector, e0: Employee, e1: Employee, a: real, threshold: real)
    returns (r: Result<Option<MatchResult>>)
    requires !IsZero(query)
    requires CosineSimilarity(k, k.unitOf(query), e0.embedding) == Ok(a)
    requires CosineSimilarity(k, k.unitOf(query), e1.embedding) == Ok(a)
    requires -1.0 < a && threshold <= a
    ensures r == Ok(Some(MatchOf(e0, a)))
  {
    r := GetBestMatch(k, query, [e0, e1], threshold);
    assert Scores(k, k.unitOf(query), [e0, e1]) == [a, a];
    assert [a, a][0] == [a, a][1];
  }

  /** A strictly higher later score takes over from an earlier tie. */
  method HigherLaterScoreWins(k: Kernel, query: Vector, e0: Employee, e1: Employee, e2: Employee,
                              a: real, c: real, threshold: real)
    returns (r: Result<Option<MatchResult>>)
    requires !IsZero(query)
    requires CosineSimilarity(k, k.unitOf(query), e0.embedding) == Ok(a)
    requires CosineSimilarity(k, k.unitOf(query), e1.embedding) == Ok(a)
    requires CosineSimilarity(k, k.unitOf(query), e2.embedding) == Ok(c)
    requires -1.0 < a < c && threshold <= c
    ensures r == Ok(Some(MatchOf(e2, c)))
  {
    r := GetBestMatch(k, query, [e0, e1, e2], threshold);
    assert Scores(k, k.unitOf(query), [e0, e1, e2]) == [a, a, c];
    assert [a, a, c][0] < [a, a, c][2] && [a, a, c][1] < [a, a, c][2];
  }
}
