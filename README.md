# Recruitment AI agent: the candidate-evaluation pipeline in Dafny

This project models the deterministic core of a small FastAPI service. The
service scores resumes against a job description, finds the keyword skills a
resume is missing, ranks the candidates and writes interview and rejection
e-mails. Five Python files are modelled:

- `ai_service.py` (module `AiService`):
  - the keyword skill-gap analysis and the remark decision table;
  - the clamp of the similarity score;
  - the candidate name, the two e-mails and the fallback job-description
    template;
  - the branch that picks the template when there is no API key or the model
    call fails.
- `matching_service.py` (module `MatchingService`, with `Ranking` for the
  sort): one result per candidate, built in a loop, then a stable sort by
  score, highest first.
- `helpers.py` (module `Helpers`):
  - `clean_text`;
  - the second skill extractor, with its own vocabulary;
  - the extension checks.
- `file_processor.py` (module `FileProcessor`): the dispatch on the file
  suffix, the line-by-line accumulation of page or paragraph texts, and the
  collapsing of every failure into one 500 error.
- `main.py` (module `RecruitmentApi`): the decisions of the three endpoints
  `/generate_jd`, `/upload_jd` and `/evaluate_candidates`:
  - the 10-resume cap;
  - the file-over-text precedence;
  - the 500-character preview;
  - the best candidate;
  - attaching the e-mails;
  - how each handler re-raises an exception as a 500 error.

The supporting modules are:

- `Text`: the parts of Python's `str` the code uses:
  - `lower`, `title`, `in`, `startswith` and `endswith`;
  - `strip`, `split` and `join`.
- `Http`: `HTTPException` and its `str()`, which is `"<code>: <detail>"`.
- `Schemas`: the records.
- `Wrappers`: `Option` and `Result`.

Everything outside the service is a parameter:

- The embedding model is `similarity`. It gives the rounded cosine similarity
  times 100, or `None` when encoding raised.
- The language model's reply is `completion`, with the API key beside it.
- The document readers are `DocumentReaders`. They give the page or paragraph
  texts of a path, or the exception's message.
- Saving an upload is `saveFailure`. It gives the message of the exception the
  copy raised, if any.
- Python's rendering of a float is `formatScore`.

Operations that work step by step in the source are methods with loops. Each
loop is proved against a specification function, and the properties are
lemmas about those functions. The loops are:

- the vocabulary pass of `analyze_missing_skills`;
- the pattern pass of `extract_skills_from_text`;
- the `text +=` loops of the extractors;
- the candidate loop;
- the e-mail loop of `evaluate_candidates`;
- `evaluate_candidates` of the matching service.

Code that is a single expression in the source is a function with a contract.

Three behaviours of the code shape the model:

- **Fallback template skills.** The template (ai_service.py:66, 86) lists
  `', '.join(skill.strip() for skill in must_have_skills.split(','))`, not
  the raw skills field. `JdTemplateMentionsField` proves that the template
  contains that list and the other six fields verbatim.
- **Candidate name.** The e-mails (ai_service.py:164, 187) greet the
  candidate by the file name up to its first dot, so `"cv.v2.pdf"` is
  greeted as `"cv"`. `CandidateName` states this.
- **Error status.** An unsupported suffix (file_processor.py:15) and more
  than ten resumes (main.py:92-93) raise a 400 inside a `try` whose
  `except Exception` handler raises a 500. The caller sees a 500 whose
  detail is the handler's prefix followed by `400: ` and the original
  detail. `ExtractedText` and `EvaluationOutcome` state this.

## Model

| member | source | states |
|---|---|---|
| AiService.CalculateSimilarity | ai_service.py:102-118 | the score is always within [0, 100]; an exception gives 0; a value within range is kept, one above 100 becomes 100 and one below 0 becomes 0 |
| AiService.TechnicalSkillsWellFormed | ai_service.py:123-129 | the 28-keyword vocabulary is lower case and has no duplicates |
| AiService.TechnicalSkillsLowerCase | ai_service.py:123-129 | no vocabulary keyword contains an upper-case letter |
| AiService.TechnicalSkillsDistinct | ai_service.py:123-129 | no keyword occurs twice in the vocabulary |
| AiService.ClassifySkills | ai_service.py:134-142 | the loop leaves in `missing_skills` and `present_skills` exactly the title-cased keywords the job text mentions, that the resume lacks or has respectively, in vocabulary order |
| AiService.AnalyzeMissingSkills | ai_service.py:120-147 | returns the missing skills of the lower-cased texts and the remark computed from the present count and the missing list |
| AiService.SelectedElements | ai_service.py:137-142 | a name is in a list the loop builds exactly when it is the title case of a vocabulary keyword classified into that list |
| AiService.SelectedMembership | ai_service.py:137-142 | for a lower-case duplicate-free vocabulary, a keyword's title case is in a list exactly when the keyword is classified into it |
| AiService.SelectedNoDuplicates | ai_service.py:137-142 | the lists the loop builds have no duplicates |
| AiService.SelectedNone | ai_service.py:137-142 | when no keyword is classified into a list, the list is empty |
| AiService.MissingSkillsCharacterized | ai_service.py:123-142 | a vocabulary skill is missing exactly when the lower-cased job text contains it and the lower-cased resume does not; every entry is such a title-cased keyword; no duplicates |
| AiService.PresentAndMissingPartitionJobSkills | ai_service.py:137-142 | present and missing skills are disjoint, and together they are the title-cased vocabulary skills the job text mentions |
| AiService.AnalysisIgnoresCase | ai_service.py:131-132 | changing the letter case of either text never changes the missing skills or the remark |
| AiService.AnalysisOfUpperCase | ai_service.py:131-132 | upper-casing both texts leaves the analysis unchanged |
| AiService.NoSharedSkillMeansLacking | ai_service.py:145-152 | when the resume has none of the job text's vocabulary skills, the remark is "Candidate lacks most required technical skills" |
| AiService.NoJobSkillMeansLackingAndNothingMissing | ai_service.py:137-152 | a job text naming no vocabulary skill gives no missing skill and still the "lacks" remark |
| AiService.AllJobSkillsPresentMeansExcellent | ai_service.py:137-154 | when the job text names a vocabulary skill and the resume has all it names, nothing is missing and the remark is the "Excellent match!" sentence |
| AiService.JavascriptCountsAsJava | ai_service.py:137-142 | matching is by substring: a resume mentioning "javascript" is never missing "Java" |
| AiService.EmailCountsAsAi | ai_service.py:137-142 | a resume mentioning "email" is never missing "Ai" |
| AiService.SkillNeverMissingWhenMentioned | ai_service.py:137-142 | a keyword the lower-cased resume contains is never reported missing |
| AiService.Take | ai_service.py:156-160 | `xs[:n]` has `min(n, len(xs))` elements, the first ones of `xs` |
| AiService.GenerateRemarks | ai_service.py:149-160 | the remark is the sentence of the tier the decision table picks (no present skill, else nothing missing, else at most 2, at most 4, more), and it contains the first two (Strong) or three (Moderate, Limited) missing skills |
| AiService.RemarkListsFirstMissing | ai_service.py:149-160 | a listing sentence opens with its tier's words, and when no skill name holds a comma or outer whitespace its tail, read back as a comma-separated list, is exactly the first two (Strong) or three (Moderate, Limited) missing skills, in order and nothing else |
| AiService.RemarkNamesSkills | ai_service.py:151-160 | each sentence is recognised as its tier, opens with its tier's words, and the missing skills it lists all occur in it |
| AiService.NamedSkillsReadBack | ai_service.py:156-160 | a non-empty list joined with ", " and split again at the commas, each piece stripped, gives the list back |
| AiService.CandidateName | ai_service.py:164 | the name is the prefix of the file name up to, not including, its first dot, or the whole name when it has no dot |
| AiService.InterviewEmail | ai_service.py:162-183 | the interview e-mail greets the candidate by name and quotes the score as a percentage |
| AiService.RejectionEmail | ai_service.py:185-206 | the rejection e-mail greets the candidate by name |
| AiService.RejectionEmailIgnoresScore | ai_service.py:185-206 | the rejection e-mail does not depend on the score |
| AiService.SkillsList | ai_service.py:66 | one skill per comma-separated piece of the skills field, each exactly the `strip()` of its piece: free of commas, neither starting nor ending with whitespace, and holding the piece's other characters, inner spaces included |
| AiService.TemplateMentionsValue | ai_service.py:68-100 | filling the template's text with the posting's values puts each value in it |
| AiService.JdTemplateMentionsField | ai_service.py:62-100 | the fallback template contains the title, experience, company, employment type, industry, location and the stripped skills list |
| AiService.GenerateJobDescription | ai_service.py:45-60 | with a configured key and a successful call the reply is returned; without a key, or when the call fails, the template |
| AiService.FallbackDescriptionMentionsFields | ai_service.py:45-100 | without a key or on a failed call, the description names every field of the posting |
| Ranking.InsertPermutes | matching_service.py:31 | inserting a result neither adds nor drops one |
| Ranking.InsertKeepsSorted | matching_service.py:31 | inserting into a list ordered by descending score keeps it ordered |
| Ranking.InsertWithScore | matching_service.py:31 | an inserted result goes in front of the results of its own score |
| Ranking.SortPermutes | matching_service.py:31 | the sort is a permutation and keeps the length |
| Ranking.SortSorts | matching_service.py:31 | after the sort the scores never increase |
| Ranking.SortIsStable | matching_service.py:31 | for every score, the results with that score keep their order |
| Ranking.SortOfSorted | matching_service.py:31 | a list already in descending order is left unchanged |
| MatchingService.EvaluateCandidates | matching_service.py:9-33 | one result per candidate, ranked: sorted by score, highest first, each the clamped similarity and the analysis of one candidate's resume |
| MatchingService.RankedIsSortedPermutation | matching_service.py:11-31 | the ranking is a permutation of the per-candidate results, sorted by descending score, and stable |
| MatchingService.RankedResultsEvaluate | matching_service.py:13-28 | each ranked result belongs to a candidate, scores the clamped similarity of its resume and carries that resume's analysis |
| MatchingService.RankedCoversCandidates | matching_service.py:13-31 | every candidate has its result in the ranking |
| MatchingService.RankedScoresInRange | matching_service.py:13-31 | every ranked result belongs to a candidate and scores within [0, 100] |
| Helpers.CollapseWhitespace | helpers.py:11 | the only whitespace left is the space and no space follows another; empty stays empty; the result starts with a space exactly when the text starts with whitespace |
| Helpers.CollapseConcat | helpers.py:11 | text that ends in other than whitespace collapses independently of what follows it |
| Helpers.CollapseRun | helpers.py:11 | a whitespace run between a text not ending in whitespace and one not starting with it becomes exactly one space, each side collapsing on its own |
| Helpers.KeepAllowed | helpers.py:14 | only word characters, whitespace and `.,!?;:()-` remain, all taken from the text |
| Helpers.CleanText | helpers.py:5-16 | empty text gives ""; the result holds only allowed characters, its only whitespace is the space, it is stripped, and its other characters are the allowed ones of the text, in order (that each whitespace run between words becomes one space is `CleanTextRun`) |
| Helpers.CleanTextRun | helpers.py:5-16 | two words, each an allowed character other than whitespace at the joint, separated by any whitespace run, clean to the two cleaned words joined by one space |
| Helpers.KeepAllowedConcat | helpers.py:14 | filtering a concatenation filters each part |
| Helpers.CleanedCharacters | helpers.py:11-16 | filtering and stripping collapsed text leaves allowed characters and spaces only |
| Helpers.CleanedContent | helpers.py:11-16 | cleaning keeps exactly the allowed characters of the text that are not whitespace |
| Helpers.CollapseKeepsContent | helpers.py:11 | collapsing whitespace keeps every character that is not whitespace |
| Helpers.KeepAllowedCommutes | helpers.py:14 | filtering commutes with dropping whitespace |
| Helpers.Deduplicate | helpers.py:39 | `list(set(xs))`: the same elements, each once |
| Helpers.FindSkills | helpers.py:31-37 | the loop appends the name of every pattern whose literal occurs in the lower-cased text, in pattern order |
| Helpers.FoundSkillsMembership | helpers.py:34-37 | a name is appended exactly when some pattern with that name occurs in the text |
| Helpers.ExtractSkillsFromText | helpers.py:18-39 | duplicate-free, and a name is reported exactly when some pattern's unescaped literal occurs in the lower-cased text |
| Helpers.PatternReported | helpers.py:34-37 | a pattern that occurs in the text contributes its name |
| Helpers.CPlusPlusPattern | helpers.py:21-37 | the pattern `c\+\+` matches the literal "c++" and is named "C++" |
| Helpers.CPlusPlusReported | helpers.py:21-37 | a text containing "c++" reports "C++" |
| Helpers.CiCdPattern | helpers.py:21-37 | the pattern `ci/cd` matches as written and is named "Cicd" |
| Helpers.CiCdReportedWithoutSlash | helpers.py:21-37 | a text containing "ci/cd" reports "Cicd" |
| Helpers.ValidateFileExtension | helpers.py:41-43 | true exactly when the lower-cased file name ends with one of the allowed extensions; false for an empty list |
| Helpers.LastIndexOf | helpers.py:47 | the index of the last occurrence of a character, or -1 |
| Helpers.GetFileExtension | helpers.py:45-47 | the extension is empty or a dot followed by neither a dot nor a slash, and the lower-cased file name ends with it |
| Helpers.SplitExtRoundTrip | helpers.py:47 | the root and the extension of `splitext` give the path back |
| Helpers.NoExtensionWithoutInnerDot | helpers.py:45-47 | a last path component with no dot, or only leading dots, has the empty extension |
| Helpers.ExtensionFromLastDot | helpers.py:45-47 | otherwise the extension is the lower-cased text from the last dot on |
| FileProcessor.AccumulateText | file_processor.py:19-34 | the loop `text += part + "\n"` and the final `strip()` give the strip of the parts each followed by a newline |
| FileProcessor.LinesAreJoinedParts | file_processor.py:19-34 | that text is the strip of the parts joined by newlines |
| FileProcessor.LinesAreJoin | file_processor.py:19-34 | the accumulated text is the newline join of the parts plus a final newline |
| FileProcessor.ExtractFromPdf | file_processor.py:19-26 | the stripped accumulated text of the pages, or the reader's error |
| FileProcessor.ExtractFromDocx | file_processor.py:28-34 | the stripped accumulated text of the paragraphs, or the reader's error |
| FileProcessor.Extracted | file_processor.py:7-34 | succeeds exactly when the extractor does, with the strip of its parts each followed by a newline; a failure is a 500 whose detail is "Error extracting text: " followed by the extractor's message |
| FileProcessor.ExtractedText | file_processor.py:7-17 | a lower-cased `.pdf` suffix goes to the PDF reader, else `.doc`/`.docx` to the Word reader, else the 500 "Error extracting text: 400: Unsupported file format"; success is stripped, failure is always that 500 form |
| FileProcessor.ExtractTextFromFile | file_processor.py:7-17 | the dispatch and the re-raise produce exactly that outcome |
| Http.Reraise | file_processor.py:16-17 | the handler's re-raise is a 500 whose detail is its prefix followed by the text of the caught exception |
| FileProcessor.SuffixIgnoresCase | file_processor.py:10-13 | the suffix test does not depend on letter case |
| RecruitmentApi.GenerateJd | main.py:34-57 | the endpoint always answers; with a key and a reply it is the reply, otherwise the template naming every field |
| RecruitmentApi.NoJdGivenText | main.py:77 | the text of the 400 raised when neither a file nor text is sent |
| RecruitmentApi.JdContent | main.py:66-77 | with a file: success exactly when saving and extraction succeed, and then the file's extracted text (the form text is ignored); otherwise the save error, or the text of the extraction error; without a file: success exactly when the text is given and non-empty, and then it is that text; otherwise the 400 |
| RecruitmentApi.ProcessedJd | main.py:59-82 | success exactly when the content is found, answered with "JD processed successfully"; any failure is a 500 whose detail is "Error processing JD: " followed by the content's failure text (the save error, the text of the extraction error, or "400: Either file or text must be provided") |
| RecruitmentApi.UploadJobDescription | main.py:59-82 | the handler, a file winning over text, produces exactly that outcome |
| RecruitmentApi.Preview | main.py:124 | a description of at most 500 characters is shown unchanged; a longer one as its first 500 characters followed by "..." |
| RecruitmentApi.MaxIndexFrom | main.py:126 | the scan of `max` ends on the first result of highest score |
| RecruitmentApi.BestCandidate | main.py:126 | None exactly when there are no results; otherwise the first result of highest score |
| RecruitmentApi.FirstMaximumIsUnique | main.py:126 | there is only one first maximum |
| RecruitmentApi.BestOfRankedIsFirst | main.py:126 | on results sorted by descending score, the best candidate is the first result |
| RecruitmentApi.ResumeUpload | main.py:97-110 | succeeds exactly when saving and extraction succeed, giving a candidate with the uploaded file name and the file's extracted text; otherwise the save error, or the text of the extraction error |
| RecruitmentApi.CollectedFailurePersists | main.py:95-110 | once a prefix of the uploads fails, the loop fails the same way |
| RecruitmentApi.CollectedSuccess | main.py:95-110 | the loop succeeds exactly when no upload fails |
| RecruitmentApi.CollectedValues | main.py:95-110 | a successful loop holds one value per upload, in order |
| RecruitmentApi.CollectedFailure | main.py:95-110 | a failed loop fails with the failure of the first failing upload |
| RecruitmentApi.Uploads | main.py:96-110 | one outcome per uploaded file |
| RecruitmentApi.CandidatesOfSuccess | main.py:95-110 | candidates are built exactly when every upload succeeds, one per file and in upload order |
| RecruitmentApi.CandidatesReadTheirFiles | main.py:96-110 | each built candidate has its file's name and the text extracted from that file |
| RecruitmentApi.CandidatesOfFailure | main.py:95-110 | otherwise the error is the one of the first upload that fails, all earlier ones having succeeded |
| RecruitmentApi.BuildCandidates | main.py:95-110 | the loop, stopping at the first exception, produces exactly those candidates or that error |
| RecruitmentApi.AttachEmails | main.py:116-118 | every result gets its interview and rejection e-mail, in place |
| RecruitmentApi.EmailedKeepsRanking | main.py:116-118 | attaching e-mails keeps each result's candidate, score and analysis, and hence the order |
| RecruitmentApi.TooManyResumesText | main.py:93 | the text of the 400 raised for too many resumes |
| RecruitmentApi.EvaluationOutcome | main.py:84-131 | more than 10 files give "Error evaluating candidates: 400: Maximum 10 resumes allowed" before any upload; otherwise a page is rendered exactly when every upload succeeds, and a failed upload gives "Error evaluating candidates: " followed by its failure text; a page shows the preview of the description, the matching service's ranking of the built candidates with e-mails attached, and the best of those results |
| RecruitmentApi.EvaluateCandidatesEndpoint | main.py:84-131 | the handler (cap, candidate loop, matching, e-mails, page) produces exactly that outcome |
| RecruitmentApi.EmailedResultsCarryEmails | main.py:116-118 | every e-mailed result has both e-mails, greeting its candidate, the interview one quoting its score |
| RecruitmentApi.EvaluationPageRanking | main.py:113-126 | a page has one result per uploaded file (at most 10), sorted by descending score, and its best candidate is the first result |
| RecruitmentApi.EvaluationPageCoversUploads | main.py:95-125 | every uploaded file has its result on the page |
| RecruitmentApi.EvaluationPageScores | main.py:95-125 | every result on the page scores within [0, 100] and holds stripped resume text |
| RecruitmentApi.EvaluationPageEvaluates | main.py:95-113 | every result on the page belongs to an uploaded file, carrying its name and extracted text, and holds the clamped similarity of that text to the description and the keyword analysis of the two |
| RecruitmentApi.EvaluationPageEmails | main.py:116-125 | every result on the page carries both e-mails, addressed to its candidate |
| RecruitmentApi.CandidateTextIsStripped | main.py:103-110 | every candidate built from the uploads holds stripped text |
| Text.LowerStr | ai_service.py:131-132 | `lower()` keeps the length and lowers each ASCII capital |
| Text.TitleFrom | ai_service.py:140 | `title()` keeps the length and every non-letter and changes only letter case; a letter becomes upper case exactly when the character before it is not a letter (or it starts the text) |
| Text.TitleOfDottedName | ai_service.py:140 | `"node.js".title()` is `"Node.Js"`: a letter after a dot starts a word |
| Text.TitleOfSlashedName | ai_service.py:140 | `"ci/cd".title()` is `"Ci/Cd"`: a letter after a slash starts a word |
| Text.TitleOfLowerCase | ai_service.py:140 | lowering the title case of lower-case text gives it back |
| Text.TitleInjective | ai_service.py:140 | distinct lower-case keywords have distinct title cases |
| Text.Split | ai_service.py:164 | `split(sep)` gives at least one piece, none holding the separator, the first a prefix of the text ending at the first separator |
| Text.JoinSnoc | ai_service.py:86 | `sep.join` of one more piece appends the separator and the piece |
| Text.ContainsInConcat | ai_service.py:138-139 | `p in s` holds whenever `p` is a piece of `s` |
| Text.ContainsTransitive | ai_service.py:138-139 | `in` is transitive: a piece of a piece of `s` is in `s` |
| Text.JoinSplit | ai_service.py:164 | joining the pieces of `split(sep)` with `sep` gives the text back |
| Text.LStrip | file_processor.py:26 | `lstrip()` removes the longest whitespace prefix |
| Text.RStrip | file_processor.py:26 | `rstrip()` removes the longest whitespace suffix |
| Text.StripSpec | file_processor.py:26 | `strip()` leaves a slice framed by whitespace that neither starts nor ends with whitespace |
| Text.StripAroundSpace | helpers.py:16 | `strip()` of two texts with content at the joint, joined by a space, strips each of them and keeps the space |
| Text.StripKeepsContent | file_processor.py:26 | `strip()` keeps every character that is not whitespace |
| Text.StripAppendWhitespace | file_processor.py:26 | `strip()` ignores a whitespace character added at the end |

## Left out

- The sentence-transformer model, the cosine similarity and `round(..., 2)` are left out; they are floating point inside a foreign library. The rounded value reaches the model as the parameter `similarity`. Scores are reals, with no NaN and no float rounding.
- The OpenAI call is a network call to a foreign library. Only its outcome is modelled: the reply, or a failure. The prompt text at ai_service.py:24-43 and the request parameters are not modelled.
- PyPDF2 and python-docx are left out; their page and paragraph texts arrive through `DocumentReaders`.
- Writing an upload to the `uploads` directory (`open` and `shutil.copyfileobj`) is modelled only by whether it raises, through `saveFailure`. The file contents and the path normalisation `pathlib` performs are not modelled. Paths are plain strings of the form `"uploads/jd_" + name` and `"uploads/resume_" + name`.
- `async`/`await` is modelled as sequential code, since nothing in the pipeline runs concurrently.
- Jinja2 rendering of `results.html` is left out. The model stops at the data the page is rendered from (`ResultsPage`).
- The `/` and `/health` routes, `StaticFiles` and `uvicorn` are left out as framework plumbing.
- The `JobDescription` record is declared but no endpoint uses it.
- Service construction is not modelled, and nothing is claimed about it. `def _init_` at ai_service.py:10 and matching_service.py:6 is not a Python constructor, and neither is the `_name_ == "_main_"` guard at main.py:137. The model assumes the services have their model, API key and scorer. The API key is the parameter `openAiApiKey`.
- Letter case is ASCII only:
  - `lower`, `upper` and `title` change only `A`-`Z` and `a`-`z`;
  - the regular-expression class `\w` is ASCII letters, digits and `_`;
  - Unicode letters, digits and case mappings are not modelled.
- The skill patterns are modelled as literal substring tests after unescaping. They are literals once unescaped, so the full regular-expression engine is not modelled.
- `os.path.splitext` is modelled with POSIX separators only. Windows `\` separators and drive letters are not modelled.
- Python's `list.sort` (Timsort) is modelled by a stable insertion sort. It has the same output for a key sort, but not the same steps or cost.
- AiService.InterviewEmail: the e-mail text is not reproduced character for character. The f-strings' eight-space indentation of each line is not modelled. The contract states only that the name and the score are substituted.
- AiService.RejectionEmail: the same as for the interview e-mail; the contract states only the substituted name.
- AiService.JdTemplateMentionsField: the template's prose is reproduced without the f-string's indentation. The contract states only which fields appear, not the exact text.
- `formatScore` stands for Python's `str()` of a float, which is not modelled.
- `print` of the similarity error at ai_service.py:117 is output only and is not modelled.
- GenerateRemarks: its own contract gives the tier and that the first two or three missing skills occur in the sentence. That the sentence names those skills and no others is stated separately by `RemarkListsFirstMissing`, and only for skill names without commas or outer whitespace. The vocabulary keywords all have that shape, but the model does not prove it for the literal vocabulary, because the proof is too costly for the verifier.
