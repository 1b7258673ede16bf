/** The records exchanged between the services (app/models/schemas.py). */
module Schemas {
  import opened Wrappers

  /** A job description and where it came from ("file", "text" or
      "generated"). The endpoints return plain dictionaries instead. */
  datatype JobDescription = JobDescription(text: string, source: string)

  /** An uploaded resume: its file name and the text extracted from it. */
  datatype Candidate = Candidate(filename: string, resumeText: string)

  /** The evaluation of one candidate. The two e-mails are attached after ranking. */
  datatype MatchingResult = MatchingResult(
    candidate: Candidate,
    score: real,
    missingSkills: seq<string>,
    remarks: string,
    interviewEmail: Option<string>,
    rejectionEmail: Option<string>)
}
