/** The endpoints of app/main.py that carry decisions: `/generate_jd`,
    `/upload_jd` and `/evaluate_candidates`. The world outside the service is
    the `Environment`: what writing an upload to disk raises, what the
    document readers return, the embedding model and Python's rendering of a
    float. Each endpoint turns every exception into one 500 error whose
    detail is its own prefix followed by the exception's text. */
module RecruitmentApi {
  import opened Wrappers
  import opened Text
  import opened Http
  import opened Schemas
  import opened AiService
  import opened Ranking
  import opened MatchingService
  import opened FileProcessor

  datatype Environment = Environment(
    /** The message of the exception raised while copying an upload to the
        path, or `None` when the copy succeeds. */
    saveFailure: string -> Option<string>,
    readers: DocumentReaders,
    similarity: (string, string) -> Option<real>,
    formatScore: real -> string)

  // ---------------------------------------------------------------------
  // /generate_jd
  // ---------------------------------------------------------------------

  /** `generate_job_description` (the endpoint): the service falls back to
      the template on every failure of the model call, so the handler's
      500 path is never taken. Its JSON body holds the description. */
  function GenerateJd(p: JobPosting, openAiApiKey: Option<string>, completion: Result<string, string>): (r: Result<string, HttpError>)
    ensures r.Success?
    ensures !ApiKeyConfigured(openAiApiKey) || completion.Failure? ==>
      forall f :: Contains(r.value, FieldText(p, f))
    ensures ApiKeyConfigured(openAiApiKey) && completion.Success? ==> r.value == completion.value
  {
    if !ApiKeyConfigured(openAiApiKey) || completion.Failure? then
      FallbackDescriptionMentionsFields(p, openAiApiKey, completion);
      Success(GenerateJobDescription(p, openAiApiKey, completion))
    else
      Success(GenerateJobDescription(p, openAiApiKey, completion))
  }

  // ---------------------------------------------------------------------
  // /upload_jd
  // ---------------------------------------------------------------------

  /** `UPLOAD_DIR / f"jd_{filename}"` */
  function JdPath(filename: string): string {
    "uploads/jd_" + filename
  }

  /** The JSON body of a successful `/upload_jd`. */
  datatype JdResponse = JdResponse(jobDescription: string, message: string)

  const JdProcessedMessage := "JD processed successfully"
  const JdErrorPrefix := "Error processing JD: "
  const NoJdGiven := Describe(HttpError(BadRequest, "Either file or text " + "must be provided"))

  /** The text `NoJdGiven` stands for. */
  lemma NoJdGivenText()
    ensures NoJdGiven == "400: " + "Either file or text " + "must be provided"
  {
  }

  /** The job description the handler settles on, or the text of the
      exception raised on the way: the uploaded file's text when a file is
      sent, else the form text when it is not empty, else the 400. */
  function JdContent(jdFile: Option<string>, jdText: Option<string>, env: Environment): (r: Result<string, string>)
    ensures jdFile.Some? ==>
      (r.Success? <==> env.saveFailure(JdPath(jdFile.value)).None? && ExtractedText(JdPath(jdFile.value), env.readers).Success?)
    ensures jdFile.Some? && r.Success? ==>
      IsStripped(r.value) && r.value == ExtractedText(JdPath(jdFile.value), env.readers).value
    ensures jdFile.Some? && env.saveFailure(JdPath(jdFile.value)).Some? ==>
      r == Failure(env.saveFailure(JdPath(jdFile.value)).value)
    ensures jdFile.Some? && env.saveFailure(JdPath(jdFile.value)).None? && ExtractedText(JdPath(jdFile.value), env.readers).Failure? ==>
      r == Failure(Describe(ExtractedText(JdPath(jdFile.value), env.readers).error))
    ensures jdFile.None? ==> (r.Success? <==> jdText.Some? && jdText.value != "")
    ensures jdFile.None? && r.Success? ==> r.value == jdText.value
    ensures jdFile.None? && r.Failure? ==> r.error == NoJdGiven
  {
    match jdFile
    case Some(filename) =>
      (match env.saveFailure(JdPath(filename))
       case Some(message) => Failure(message)
       case None =>
         match ExtractedText(JdPath(filename), env.readers)
         case Success(text) => Success(text)
         case Failure(e) => Failure(Describe(e)))
    case None =>
      if jdText.Some? && jdText.value != "" then Success(jdText.value) else Failure(NoJdGiven)
  }

  /** What `upload_job_description` returns or raises. `jdFile` is the name
      of the uploaded file, if one was sent; `jdText` the form field. */
  function ProcessedJd(jdFile: Option<string>, jdText: Option<string>, env: Environment): (r: Result<JdResponse, HttpError>)
    ensures r.Success? <==> JdContent(jdFile, jdText, env).Success?
    ensures r.Success? ==> r.value == JdResponse(JdContent(jdFile, jdText, env).value, JdProcessedMessage)
    ensures r.Failure? ==> r.error.status == InternalServerError && StartsWith(r.error.detail, JdErrorPrefix)
    ensures jdFile.None? && r.Failure? ==>
      r.error.detail == JdErrorPrefix + "400: " + "Either file or text " + "must be provided"
    ensures r.Failure? ==> JdContent(jdFile, jdText, env).Failure? && r.error == Reraise(JdErrorPrefix, JdContent(jdFile, jdText, env).error)
  {
    NoJdGivenText();
    match JdContent(jdFile, jdText, env)
    case Success(text) => Success(JdResponse(text, JdProcessedMessage))
    case Failure(message) =>
      assert (JdErrorPrefix + message)[..|JdErrorPrefix|] == JdErrorPrefix;
      Failure(Reraise(JdErrorPrefix, message))
  }

  /** `upload_job_description`: a file, when one is sent, wins over the text. */
  method UploadJobDescription(jdFile: Option<string>, jdText: Option<string>, env: Environment)
    returns (r: Result<JdResponse, HttpError>)
    ensures r == ProcessedJd(jdFile, jdText, env)
  {
    var content: Result<string, string>;
    if jdFile.Some? {
      var filePath := JdPath(jdFile.value);
      var saved := env.saveFailure(filePath);
      if saved.Some? {
        content := Failure(saved.value);
      } else {
        var extracted := ExtractTextFromFile(filePath, env.readers);
        content := if extracted.Success? then Success(extracted.value) else Failure(Describe(extracted.error));
      }
    } else if jdText.Some? && jdText.value != "" {
      content := Success(jdText.value);
    } else {
      content := Failure(NoJdGiven);
    }
    if content.Success? {
      r := Success(JdResponse(content.value, JdProcessedMessage));
    } else {
      r := Failure(Reraise(JdErrorPrefix, content.error));
    }
  }

  // ---------------------------------------------------------------------
  // /evaluate_candidates
  // ---------------------------------------------------------------------

  const MaxResumes: nat := 10
  const PreviewLength: nat := 500
  const Ellipsis := "..."

  /** The job description as the results page shows it: cut to its first
      500 characters, with "..." after them, when it is longer. */
  function Preview(jobDescription: string): (p: string)
    ensures |p| <= PreviewLength + |Ellipsis|
    ensures |jobDescription| <= PreviewLength ==> p == jobDescription
    ensures |jobDescription| > PreviewLength ==>
      |p| == PreviewLength + |Ellipsis| && StartsWith(jobDescription, p[..PreviewLength]) && EndsWith(p, Ellipsis)
  {
    if |jobDescription| > PreviewLength then jobDescription[..PreviewLength] + Ellipsis
    else jobDescription
  }

  /** `results[i]` is the first result of highest score. */
  predicate IsFirstMaximum(results: seq<MatchingResult>, i: int) {
    && 0 <= i < |results|
    && (forall j :: 0 <= j < |results| ==> results[j].score <= results[i].score)
    && (forall j :: 0 <= j < i ==> results[j].score < results[i].score)
  }

  /** The scan `max(results, key=...)` makes: `best` is the index of the
      first maximum of `results[..next]`, replaced only by a strictly
      greater score. */
  function MaxIndexFrom(results: seq<MatchingResult>, best: nat, next: nat): (m: nat)
    requires best < next <= |results|
    requires IsFirstMaximum(results[..next], best)
    ensures IsFirstMaximum(results, m)
    decreases |results| - next
  {
    if next == |results| then
      assert results[..next] == results;
      best
    else
      var best' := if results[next].score > results[best].score then next else best;
      assert forall j :: 0 <= j < next ==> results[..next + 1][j] == results[..next][j];
      MaxIndexFrom(results, best', next + 1)
  }

  /** `max(results, key=lambda x: x.score) if results else None` */
  function BestCandidate(results: seq<MatchingResult>): (best: Option<MatchingResult>)
    ensures best.None? <==> results == []
    ensures best.Some? ==> exists i :: IsFirstMaximum(results, i) && best.value == results[i]
  {
    if results == [] then None else Some(results[MaxIndexFrom(results, 0, 1)])
  }

  lemma FirstMaximumIsUnique(results: seq<MatchingResult>, i: int, j: int)
    requires IsFirstMaximum(results, i) && IsFirstMaximum(results, j)
    ensures i == j
  {
    assert results[j].score <= results[i].score;
    assert results[i].score <= results[j].score;
  }

  /** On results ranked highest first, the best candidate is the first one. */
  lemma BestOfRankedIsFirst(results: seq<MatchingResult>)
    requires SortedByScoreDesc(results) && results != []
    ensures BestCandidate(results) == Some(results[0])
  {
    var i :| IsFirstMaximum(results, i) && BestCandidate(results).value == results[i];
    assert IsFirstMaximum(results, 0);
    FirstMaximumIsUnique(results, 0, i);
  }

  /** `UPLOAD_DIR / f"resume_{filename}"` */
  function ResumePath(filename: string): string {
    "uploads/resume_" + filename
  }

  /** One pass of the candidate loop: the resume copied to its path and its
      text read back, or the text of the exception either step raised. */
  function ResumeUpload(filename: string, env: Environment): (r: Result<Candidate, string>)
    ensures r.Success? <==> env.saveFailure(ResumePath(filename)).None? && ExtractedText(ResumePath(filename), env.readers).Success?
    ensures r.Success? ==> r.value.filename == filename && IsStripped(r.value.resumeText)
    ensures r.Success? ==> r.value.resumeText == ExtractedText(ResumePath(filename), env.readers).value
    ensures env.saveFailure(ResumePath(filename)).Some? ==> r == Failure(env.saveFailure(ResumePath(filename)).value)
    ensures env.saveFailure(ResumePath(filename)).None? && ExtractedText(ResumePath(filename), env.readers).Failure? ==>
      r == Failure(Describe(ExtractedText(ResumePath(filename), env.readers).error))
  {
    var path := ResumePath(filename);
    match env.saveFailure(path)
    case Some(message) => Failure(message)
    case None =>
      match ExtractedText(path, env.readers)
      case Success(text) => Success(Candidate(filename, text))
      case Failure(e) => Failure(Describe(e))
  }

  /** The outcomes of a run of steps collected in order: every value, or
      the failure of the first step that fails. */
  function Collected(outcomes: seq<Result<Candidate, string>>): Result<seq<Candidate>, string>
    decreases |outcomes|
  {
    if outcomes == [] then Success([])
    else
      match Collected(outcomes[..|outcomes| - 1])
      case Failure(message) => Failure(message)
      case Success(values) =>
        match outcomes[|outcomes| - 1]
        case Failure(message) => Failure(message)
        case Success(v) => Success(values + [v])
  }

  /** Once a prefix has failed, the whole run fails the same way. */
  lemma {:induction false} CollectedFailurePersists(outcomes: seq<Result<Candidate, string>>, k: nat)
    requires k <= |outcomes|
    requires Collected(outcomes[..k]).Failure?
    ensures Collected(outcomes) == Collected(outcomes[..k])
    decreases |outcomes|
  {
    if k < |outcomes| {
      var n := |outcomes| - 1;
      assert outcomes[..n][..k] == outcomes[..k];
      CollectedFailurePersists(outcomes[..n], k);
    } else {
      assert outcomes[..k] == outcomes;
    }
  }

  /** A run succeeds exactly when no step fails. */
  lemma {:induction false} CollectedSuccess(outcomes: seq<Result<Candidate, string>>)
    ensures Collected(outcomes).Success? <==> forall i :: 0 <= i < |outcomes| ==> outcomes[i].Success?
    decreases |outcomes|
  {
    if outcomes != [] {
      var n := |outcomes| - 1;
      CollectedSuccess(outcomes[..n]);
      assert forall i :: 0 <= i < n ==> outcomes[..n][i] == outcomes[i];
    }
  }

  /** A successful run holds one value per step, in order. */
  lemma {:induction false} CollectedValues(outcomes: seq<Result<Candidate, string>>)
    requires Collected(outcomes).Success?
    ensures |Collected(outcomes).value| == |outcomes|
    ensures forall i :: 0 <= i < |outcomes| ==>
      outcomes[i].Success? && Collected(outcomes).value[i] == outcomes[i].value
    decreases |outcomes|
  {
    if outcomes != [] {
      var n := |outcomes| - 1;
      CollectedValues(outcomes[..n]);
      assert forall i :: 0 <= i < n ==> outcomes[..n][i] == outcomes[i];
    }
  }

  /** A failed run fails with the failure of its first failing step. */
  lemma {:induction false} CollectedFailure(outcomes: seq<Result<Candidate, string>>)
    requires Collected(outcomes).Failure?
    ensures exists i :: && 0 <= i < |outcomes|
                        && outcomes[i] == Failure(Collected(outcomes).error)
                        && forall j :: 0 <= j < i ==> outcomes[j].Success?
    decreases |outcomes|
  {
    var n := |outcomes| - 1;
    var prefix := outcomes[..n];
    assert forall i :: 0 <= i < n ==> prefix[i] == outcomes[i];
    if Collected(prefix).Failure? {
      CollectedFailure(prefix);
      var i :| && 0 <= i < n && prefix[i] == Failure(Collected(prefix).error)
               && forall j :: 0 <= j < i ==> prefix[j].Success?;
      assert outcomes[i] == Failure(Collected(outcomes).error);
    } else {
      CollectedSuccess(prefix);
      assert outcomes[n] == Failure(Collected(outcomes).error);
    }
  }

  /** The outcome of every upload, in the order the files were sent. */
  function Uploads(filenames: seq<string>, env: Environment): (r: seq<Result<Candidate, string>>)
    ensures |r| == |filenames|
  {
    seq(|filenames|, i requires 0 <= i < |filenames| => ResumeUpload(filenames[i], env))
  }

  /** The candidates built from the uploads in order, or the first failure. */
  function CandidatesOf(filenames: seq<string>, env: Environment): Result<seq<Candidate>, string> {
    Collected(Uploads(filenames, env))
  }

  /** Every upload yields its candidate, in the order the files were sent,
      exactly when no upload fails. */
  lemma CandidatesOfSuccess(filenames: seq<string>, env: Environment)
    ensures CandidatesOf(filenames, env).Success? <==>
      forall i :: 0 <= i < |filenames| ==> ResumeUpload(filenames[i], env).Success?
    ensures CandidatesOf(filenames, env).Success? ==>
      && |CandidatesOf(filenames, env).value| == |filenames|
      && forall i :: 0 <= i < |filenames| ==> Success(CandidatesOf(filenames, env).value[i]) == ResumeUpload(filenames[i], env)
  {
    var outcomes := Uploads(filenames, env);
    assert forall i :: 0 <= i < |filenames| ==> outcomes[i] == ResumeUpload(filenames[i], env);
    CollectedSuccess(outcomes);
    if Collected(outcomes).Success? {
      CollectedValues(outcomes);
      var cs := Collected(outcomes).value;
      assert forall i :: 0 <= i < |filenames| ==> Success(cs[i]) == outcomes[i];
    }
  }

  /** Each built candidate is named after its uploaded file and holds the
      text extracted from the copy of that file. */
  lemma CandidatesReadTheirFiles(filenames: seq<string>, env: Environment)
    requires CandidatesOf(filenames, env).Success?
    ensures |CandidatesOf(filenames, env).value| == |filenames|
    ensures forall i :: 0 <= i < |filenames| ==>
      && CandidatesOf(filenames, env).value[i].filename == filenames[i]
      && ExtractedText(ResumePath(filenames[i]), env.readers).Success?
      && CandidatesOf(filenames, env).value[i].resumeText == ExtractedText(ResumePath(filenames[i]), env.readers).value
  {
    CandidatesOfSuccess(filenames, env);
  }

  /** A failure is the failure of the first upload that fails. */
  lemma CandidatesOfFailure(filenames: seq<string>, env: Environment)
    requires CandidatesOf(filenames, env).Failure?
    ensures exists i :: && 0 <= i < |filenames|
                        && ResumeUpload(filenames[i], env) == Failure(CandidatesOf(filenames, env).error)
                        && forall j :: 0 <= j < i ==> ResumeUpload(filenames[j], env).Success?
  {
    var outcomes := Uploads(filenames, env);
    CollectedFailure(outcomes);
    var i :| && 0 <= i < |outcomes| && outcomes[i] == Failure(Collected(outcomes).error)
             && forall j :: 0 <= j < i ==> outcomes[j].Success?;
    assert ResumeUpload(filenames[i], env) == Failure(CandidatesOf(filenames, env).error);
    assert forall j :: 0 <= j < i ==> ResumeUpload(filenames[j], env).Success? by {
      forall j | 0 <= j < i ensures ResumeUpload(filenames[j], env).Success? {
        assert outcomes[j].Success?;
      }
    }
  }

  /** The candidate loop of `evaluate_candidates`. */
  method BuildCandidates(filenames: seq<string>, env: Environment) returns (r: Result<seq<Candidate>, string>)
    ensures r == CandidatesOf(filenames, env)
  {
    ghost var outcomes := Uploads(filenames, env);
    var candidates: seq<Candidate> := [];
    for i := 0 to |filenames|
      invariant Collected(outcomes[..i]) == Success(candidates)
    {
      assert outcomes[..i + 1][..i] == outcomes[..i];
      var filePath := ResumePath(filenames[i]);
      var saved := env.saveFailure(filePath);
      if saved.Some? {
        r := Failure(saved.value);
        CollectedFailurePersists(outcomes, i + 1);
        return;
      }
      var resumeText := ExtractTextFromFile(filePath, env.readers);
      if resumeText.Failure? {
        r := Failure(Describe(resumeText.error));
        CollectedFailurePersists(outcomes, i + 1);
        return;
      }
      candidates := candidates + [Candidate(filenames[i], resumeText.value)];
    }
    assert outcomes[..|filenames|] == outcomes;
    r := Success(candidates);
  }

  /** A result with both e-mails attached. */
  function WithEmails(result: MatchingResult, formatScore: real -> string): MatchingResult {
    result.(interviewEmail := Some(InterviewEmail(result, formatScore)),
            rejectionEmail := Some(RejectionEmail(result)))
  }

  function Emailed(results: seq<MatchingResult>, formatScore: real -> string): seq<MatchingResult> {
    seq(|results|, i requires 0 <= i < |results| => WithEmails(results[i], formatScore))
  }

  /** The loop that sets `interview_email` and `rejection_email` on every result. */
  method AttachEmails(results: seq<MatchingResult>, formatScore: real -> string) returns (updated: seq<MatchingResult>)
    ensures updated == Emailed(results, formatScore)
  {
    updated := results;
    for i := 0 to |results|
      invariant |updated| == |results|
      invariant forall k :: 0 <= k < i ==> updated[k] == WithEmails(results[k], formatScore)
      invariant forall k :: i <= k < |results| ==> updated[k] == results[k]
    {
      updated := updated[i := WithEmails(updated[i], formatScore)];
    }
  }

  /** Attaching the e-mails keeps every result's candidate, score and
      analysis, so the ranking stays as it was. */
  lemma EmailedKeepsRanking(results: seq<MatchingResult>, formatScore: real -> string)
    ensures |Emailed(results, formatScore)| == |results|
    ensures forall i :: 0 <= i < |results| ==>
      var e := Emailed(results, formatScore)[i];
      e.candidate == results[i].candidate && e.score == results[i].score &&
      e.missingSkills == results[i].missingSkills && e.remarks == results[i].remarks
    ensures SortedByScoreDesc(results) ==> SortedByScoreDesc(Emailed(results, formatScore))
  {
  }

  /** The data `results.html` is rendered from. */
  datatype ResultsPage = ResultsPage(jobDescription: string, results: seq<MatchingResult>, bestCandidate: Option<MatchingResult>)

  const EvaluationErrorPrefix := "Error evaluating candidates: "
  const TooManyResumes := Describe(HttpError(BadRequest, "Maximum 10 resumes allowed"))

  /** The text `TooManyResumes` stands for. */
  lemma TooManyResumesText()
    ensures TooManyResumes == "400: Maximum 10 resumes allowed"
  {
  }

  /** What `evaluate_candidates` renders or raises. */
  function EvaluationOutcome(jobDescription: string, filenames: seq<string>, env: Environment): (r: Result<ResultsPage, HttpError>)
    ensures r.Failure? ==> r.error.status == InternalServerError && StartsWith(r.error.detail, EvaluationErrorPrefix)
    ensures |filenames| > MaxResumes ==>
      r == Failure(HttpError(InternalServerError, EvaluationErrorPrefix + "400: Maximum 10 resumes allowed"))
    ensures r.Success? ==> |filenames| <= MaxResumes && r.value.jobDescription == Preview(jobDescription)
    ensures |filenames| <= MaxResumes ==> (r.Success? <==> CandidatesOf(filenames, env).Success?)
    ensures |filenames| <= MaxResumes && CandidatesOf(filenames, env).Failure? ==>
      r.error == Reraise(EvaluationErrorPrefix, CandidatesOf(filenames, env).error)
    ensures r.Success? ==>
      && r.value.results == Emailed(Ranked(jobDescription, CandidatesOf(filenames, env).value, env.similarity), env.formatScore)
      && r.value.bestCandidate == BestCandidate(r.value.results)
  {
    if |filenames| > MaxResumes then
      TooManyResumesText();
      assert (EvaluationErrorPrefix + TooManyResumes)[..|EvaluationErrorPrefix|] == EvaluationErrorPrefix;
      Failure(Reraise(EvaluationErrorPrefix, TooManyResumes))
    else
      match CandidatesOf(filenames, env)
      case Failure(message) =>
        assert (EvaluationErrorPrefix + message)[..|EvaluationErrorPrefix|] == EvaluationErrorPrefix;
        Failure(Reraise(EvaluationErrorPrefix, message))
      case Success(candidates) =>
        var results := Emailed(Ranked(jobDescription, candidates, env.similarity), env.formatScore);
        Success(ResultsPage(Preview(jobDescription), results, BestCandidate(results)))
  }

  /** `evaluate_candidates`: the cap on the number of resumes, the candidate
      loop, the matching service, the e-mails and the page. */
  method EvaluateCandidatesEndpoint(jobDescription: string, filenames: seq<string>, env: Environment)
    returns (r: Result<ResultsPage, HttpError>)
    ensures r == EvaluationOutcome(jobDescription, filenames, env)
  {
    if |filenames| > MaxResumes {
      r := Failure(Reraise(EvaluationErrorPrefix, TooManyResumes));
      return;
    }
    var candidates := BuildCandidates(filenames, env);
    if candidates.Failure? {
      r := Failure(Reraise(EvaluationErrorPrefix, candidates.error));
      return;
    }
    var results := EvaluateCandidates(jobDescription, candidates.value, env.similarity);
    results := AttachEmails(results, env.formatScore);
    r := Success(ResultsPage(Preview(jobDescription), results, BestCandidate(results)));
  }

  /** Every e-mailed result carries both e-mails, addressed to its
      candidate, the interview e-mail quoting its score. */
  lemma EmailedResultsCarryEmails(results: seq<MatchingResult>, formatScore: real -> string)
    ensures forall r :: r in Emailed(results, formatScore) ==>
      && r.interviewEmail.Some? && r.rejectionEmail.Some?
      && Contains(r.interviewEmail.value, Salutation(CandidateName(r.candidate.filename)))
      && Contains(r.interviewEmail.value, ScoreSentence(formatScore(r.score)))
      && Contains(r.rejectionEmail.value, Salutation(CandidateName(r.candidate.filename)))
  {
    forall r | r in Emailed(results, formatScore)
      ensures Contains(r.interviewEmail.value, ScoreSentence(formatScore(r.score)))
    {
      var k :| 0 <= k < |results| && Emailed(results, formatScore)[k] == r;
      assert r == WithEmails(results[k], formatScore);
    }
  }

  /** A rendered page lists one result per uploaded resume, highest score
      first, and its best candidate is the first result. */
  lemma EvaluationPageRanking(jobDescription: string, filenames: seq<string>, env: Environment)
    requires EvaluationOutcome(jobDescription, filenames, env).Success?
    ensures var page := EvaluationOutcome(jobDescription, filenames, env).value;
      && |page.results| == |filenames| <= MaxResumes
      && SortedByScoreDesc(page.results)
      && page.bestCandidate == (if page.results == [] then None else Some(page.results[0]))
  {
    var candidates := CandidatesOf(filenames, env).value;
    CollectedValues(Uploads(filenames, env));
    var ranked := Ranked(jobDescription, candidates, env.similarity);
    RankedIsSortedPermutation(jobDescription, candidates, env.similarity);
    EmailedKeepsRanking(ranked, env.formatScore);
    var page := EvaluationOutcome(jobDescription, filenames, env).value;
    if page.results != [] {
      BestOfRankedIsFirst(page.results);
    }
  }

  /** Every uploaded file has its result on the page. */
  lemma EvaluationPageCoversUploads(jobDescription: string, filenames: seq<string>, env: Environment)
    requires EvaluationOutcome(jobDescription, filenames, env).Success?
    ensures var page := EvaluationOutcome(jobDescription, filenames, env).value;
      forall i :: 0 <= i < |filenames| ==> exists r :: r in page.results && r.candidate.filename == filenames[i]
  {
    var candidates := CandidatesOf(filenames, env).value;
    CollectedValues(Uploads(filenames, env));
    var ranked := Ranked(jobDescription, candidates, env.similarity);
    RankedCoversCandidates(jobDescription, candidates, env.similarity);
    var page := EvaluationOutcome(jobDescription, filenames, env).value;
    assert page.results == Emailed(ranked, env.formatScore);
    forall i | 0 <= i < |filenames|
      ensures exists r :: r in page.results && r.candidate.filename == filenames[i]
    {
      assert candidates[i] in candidates;
      var k :| 0 <= k < |ranked| && ranked[k].candidate == candidates[i];
      assert page.results[k].candidate == candidates[i];
    }
  }

  /** Every result on the page carries a score within [0, 100] and the
      stripped text of its resume. */
  lemma EvaluationPageScores(jobDescription: string, filenames: seq<string>, env: Environment)
    requires EvaluationOutcome(jobDescription, filenames, env).Success?
    ensures forall r :: r in EvaluationOutcome(jobDescription, filenames, env).value.results ==>
      0.0 <= r.score <= 100.0 && IsStripped(r.candidate.resumeText)
  {
    var candidates := CandidatesOf(filenames, env).value;
    var ranked := Ranked(jobDescription, candidates, env.similarity);
    RankedScoresInRange(jobDescription, candidates, env.similarity);
    var page := EvaluationOutcome(jobDescription, filenames, env).value;
    assert page.results == Emailed(ranked, env.formatScore);
    forall r | r in page.results
      ensures 0.0 <= r.score <= 100.0 && IsStripped(r.candidate.resumeText)
    {
      var k :| 0 <= k < |page.results| && page.results[k] == r;
      assert ranked[k] in ranked;
      assert r.candidate == ranked[k].candidate && r.score == ranked[k].score;
      CandidateTextIsStripped(filenames, env, ranked[k].candidate);
    }
  }

  /** The candidate is the one built from one of the uploaded files: it has
      that file's name and the text extracted from it. */
  predicate ReadFromUpload(c: Candidate, filenames: seq<string>, env: Environment) {
    exists i :: 0 <= i < |filenames| && c.filename == filenames[i] &&
      ExtractedText(ResumePath(filenames[i]), env.readers).Success? &&
      c.resumeText == ExtractedText(ResumePath(filenames[i]), env.readers).value
  }

  /** Every result on the page is the evaluation of one uploaded file: it
      carries that file's name and extracted text, the clamped similarity of
      that text to the job description, and the keyword analysis of the two. */
  lemma EvaluationPageEvaluates(jobDescription: string, filenames: seq<string>, env: Environment)
    requires EvaluationOutcome(jobDescription, filenames, env).Success?
    ensures forall r :: r in EvaluationOutcome(jobDescription, filenames, env).value.results ==>
      && ReadFromUpload(r.candidate, filenames, env)
      && r.score == CalculateSimilarity(env.similarity(jobDescription, r.candidate.resumeText))
      && (r.missingSkills, r.remarks) == AnalysisOf(jobDescription, r.candidate.resumeText)
  {
    var candidates := CandidatesOf(filenames, env).value;
    var ranked := Ranked(jobDescription, candidates, env.similarity);
    RankedResultsEvaluate(jobDescription, candidates, env.similarity);
    CandidatesReadTheirFiles(filenames, env);
    var page := EvaluationOutcome(jobDescription, filenames, env).value;
    forall r | r in page.results
      ensures ReadFromUpload(r.candidate, filenames, env)
      ensures r.score == CalculateSimilarity(env.similarity(jobDescription, r.candidate.resumeText))
      ensures (r.missingSkills, r.remarks) == AnalysisOf(jobDescription, r.candidate.resumeText)
    {
      var k :| 0 <= k < |page.results| && page.results[k] == r;
      assert ranked[k] in ranked;
      assert r.candidate == ranked[k].candidate && r.score == ranked[k].score;
      assert r.missingSkills == ranked[k].missingSkills && r.remarks == ranked[k].remarks;
      var i :| 0 <= i < |candidates| && candidates[i] == r.candidate;
      assert r.candidate.filename == filenames[i];
    }
  }

  /** Every result on the page carries both e-mails, addressed to its
      candidate, the interview e-mail quoting its score. */
  lemma EvaluationPageEmails(jobDescription: string, filenames: seq<string>, env: Environment)
    requires EvaluationOutcome(jobDescription, filenames, env).Success?
    ensures forall r :: r in EvaluationOutcome(jobDescription, filenames, env).value.results ==>
      && r.interviewEmail.Some? && r.rejectionEmail.Some?
      && Contains(r.interviewEmail.value, Salutation(CandidateName(r.candidate.filename)))
      && Contains(r.interviewEmail.value, ScoreSentence(env.formatScore(r.score)))
      && Contains(r.rejectionEmail.value, Salutation(CandidateName(r.candidate.filename)))
  {
    var candidates := CandidatesOf(filenames, env).value;
    EmailedResultsCarryEmails(Ranked(jobDescription, candidates, env.similarity), env.formatScore);
  }

  /** Every candidate built from the uploads holds stripped text. */
  lemma CandidateTextIsStripped(filenames: seq<string>, env: Environment, c: Candidate)
    requires CandidatesOf(filenames, env).Success? && c in CandidatesOf(filenames, env).value
    ensures IsStripped(c.resumeText)
  {
    CollectedValues(Uploads(filenames, env));
    var k :| 0 <= k < |CandidatesOf(filenames, env).value| && CandidatesOf(filenames, env).value[k] == c;
  }
}
