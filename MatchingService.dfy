/** `MatchingService.evaluate_candidates` (app/services/matching_service.py):
    score and analyse every candidate against the job text, then rank the
    results by score, highest first. The embedding model is the parameter
    `similarity`: the rounded cosine similarity of the two texts times 100,
    or `None` when encoding raised. */
module MatchingService {
  import opened Wrappers
  import opened Schemas
  import opened AiService
  import opened Ranking

  /** The result the loop body builds for one candidate, before any e-mail is attached. */
  function Evaluation(jdText: string, c: Candidate, similarity: (string, string) -> Option<real>): MatchingResult {
    var analysis := AnalysisOf(jdText, c.resumeText);
    MatchingResult(c, CalculateSimilarity(similarity(jdText, c.resumeText)), analysis.0, analysis.1, None, None)
  }

  /** The results in candidate order, as the loop leaves them before sorting. */
  function Unranked(jdText: string, candidates: seq<Candidate>, similarity: (string, string) -> Option<real>): seq<MatchingResult> {
    seq(|candidates|, i requires 0 <= i < |candidates| => Evaluation(jdText, candidates[i], similarity))
  }

  /** A result of the evaluation: it belongs to one of the candidates, its
      score is the clamped similarity of its resume to the job text, its
      analysis is the keyword analysis of that resume, and no e-mail is set yet. */
  predicate Evaluates(r: MatchingResult, jdText: string, candidates: seq<Candidate>, similarity: (string, string) -> Option<real>) {
    && r.candidate in candidates
    && r.score == CalculateSimilarity(similarity(jdText, r.candidate.resumeText))
    && 0.0 <= r.score <= 100.0
    && (r.missingSkills, r.remarks) == AnalysisOf(jdText, r.candidate.resumeText)
    && r.interviewEmail.None? && r.rejectionEmail.None?
  }

  /** The list `evaluate_candidates` returns. */
  function Ranked(jdText: string, candidates: seq<Candidate>, similarity: (string, string) -> Option<real>): seq<MatchingResult> {
    SortByScoreDesc(Unranked(jdText, candidates, similarity))
  }

  /** `evaluate_candidates`: one pass that scores and analyses each
      candidate, then the sort. */
  method EvaluateCandidates(jdText: string, candidates: seq<Candidate>, similarity: (string, string) -> Option<real>)
    returns (results: seq<MatchingResult>)
    ensures results == Ranked(jdText, candidates, similarity)
    ensures |results| == |candidates| && SortedByScoreDesc(results)
    ensures forall r :: r in results ==> Evaluates(r, jdText, candidates, similarity)
  {
    results := [];
    for i := 0 to |candidates|
      invariant |results| == i
      invariant forall k :: 0 <= k < i ==> results[k] == Evaluation(jdText, candidates[k], similarity)
    {
      var candidate := candidates[i];
      var score := CalculateSimilarity(similarity(jdText, candidate.resumeText));
      var missingSkills, remarks := AnalyzeMissingSkills(jdText, candidate.resumeText);
      var result := MatchingResult(candidate, score, missingSkills, remarks, None, None);
      assert result == Evaluation(jdText, candidate, similarity);
      results := results + [result];
    }
    assert results == Unranked(jdText, candidates, similarity);
    results := SortByScoreDesc(results);
    RankedIsSortedPermutation(jdText, candidates, similarity);
    RankedResultsEvaluate(jdText, candidates, similarity);
  }

  /** The ranking has one result per candidate, highest score first, and
      results with equal scores keep the candidates' order. */
  lemma RankedIsSortedPermutation(jdText: string, candidates: seq<Candidate>, similarity: (string, string) -> Option<real>)
    ensures |Ranked(jdText, candidates, similarity)| == |candidates|
    ensures multiset(Ranked(jdText, candidates, similarity)) == multiset(Unranked(jdText, candidates, similarity))
    ensures SortedByScoreDesc(Ranked(jdText, candidates, similarity))
    ensures forall v :: WithScore(Ranked(jdText, candidates, similarity), v) == WithScore(Unranked(jdText, candidates, similarity), v)
  {
    var unranked := Unranked(jdText, candidates, similarity);
    SortPermutes(unranked);
    SortSorts(unranked);
    forall v ensures WithScore(Ranked(jdText, candidates, similarity), v) == WithScore(unranked, v) {
      SortIsStable(unranked, v);
    }
  }

  /** Every ranked result is the evaluation of one of the candidates. */
  lemma RankedResultsEvaluate(jdText: string, candidates: seq<Candidate>, similarity: (string, string) -> Option<real>)
    ensures forall r :: r in Ranked(jdText, candidates, similarity) ==> Evaluates(r, jdText, candidates, similarity)
  {
    var unranked := Unranked(jdText, candidates, similarity);
    SortPermutes(unranked);
    forall r | r in Ranked(jdText, candidates, similarity) ensures Evaluates(r, jdText, candidates, similarity) {
      assert r in multiset(unranked);
      var k :| 0 <= k < |unranked| && unranked[k] == r;
    }
  }

  /** Every candidate has its result in the ranking. */
  lemma RankedCoversCandidates(jdText: string, candidates: seq<Candidate>, similarity: (string, string) -> Option<real>)
    ensures forall c :: c in candidates ==> exists r :: r in Ranked(jdText, candidates, similarity) && r.candidate == c
  {
    var unranked := Unranked(jdText, candidates, similarity);
    SortPermutes(unranked);
    forall c | c in candidates ensures exists r :: r in Ranked(jdText, candidates, similarity) && r.candidate == c {
      var k :| 0 <= k < |candidates| && candidates[k] == c;
      assert unranked[k] in multiset(Ranked(jdText, candidates, similarity));
    }
  }

  /** Every ranked result belongs to one of the candidates and scores
      within [0, 100]. */
  lemma RankedScoresInRange(jdText: string, candidates: seq<Candidate>, similarity: (string, string) -> Option<real>)
    ensures forall r :: r in Ranked(jdText, candidates, similarity) ==>
      r.candidate in candidates && 0.0 <= r.score <= 100.0
  {
    RankedResultsEvaluate(jdText, candidates, similarity);
  }
}
