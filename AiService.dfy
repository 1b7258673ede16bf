/** The deterministic parts of the AI service (app/services/ai_service.py):
    keyword skill-gap analysis, the remark decision table, the similarity
    clamp, the candidate name used in e-mails, the e-mail bodies and the
    job-description fallback template. The embedding model and the language
    model are not modelled; their outputs arrive as parameters. */
module AiService {
  import opened Wrappers
  import opened Text
  import opened Schemas

  // ---------------------------------------------------------------------
  // Similarity score
  // ---------------------------------------------------------------------

  /** `calculate_similarity`: `embedded` is the rounded cosine similarity of
      the two embeddings times 100, or `None` when encoding raised. The result
      is clamped to [0, 100] and an exception gives 0. */
  function CalculateSimilarity(embedded: Option<real>): (score: real)
    ensures 0.0 <= score <= 100.0
    ensures embedded.None? ==> score == 0.0
    ensures embedded.Some? && 0.0 <= embedded.value <= 100.0 ==> score == embedded.value
    ensures embedded.Some? && embedded.value > 100.0 ==> score == 100.0
    ensures embedded.Some? && embedded.value < 0.0 ==> score == 0.0
  {
    match embedded
    case None => 0.0
    case Some(s) =>
      var capped := if s < 100.0 then s else 100.0;
      if capped > 0.0 then capped else 0.0
  }

  // ---------------------------------------------------------------------
  // Missing-skills analysis
  // ---------------------------------------------------------------------

  /** The keyword vocabulary of `analyze_missing_skills`. */
  const TechnicalSkills: seq<string> := [
    "python", "java", "javascript", "sql", "aws", "docker", "kubernetes",
    "machine learning", "ai", "data analysis", "project management",
    "agile", "scrum", "react", "angular", "vue", "node.js", "express",
    "mongodb", "postgresql", "mysql", "git", "jenkins", "ci/cd",
    "rest api", "graphql", "microservices", "devops"
  ]

  predicate WellFormedVocabulary(vocabulary: seq<string>) {
    && NoDuplicates(vocabulary)
    && forall i :: 0 <= i < |vocabulary| ==> IsLowerCase(vocabulary[i])
  }

  lemma TechnicalSkillsWellFormed()
    ensures WellFormedVocabulary(TechnicalSkills)
  {
    TechnicalSkillsLowerCase();
    TechnicalSkillsDistinct();
  }

  lemma TechnicalSkillsLowerCase()
    ensures forall i :: 0 <= i < |TechnicalSkills| ==> IsLowerCase(TechnicalSkills[i])
  {
    forall i | 0 <= i < |TechnicalSkills| ensures IsLowerCase(TechnicalSkills[i]) {
      var k := TechnicalSkills[i];
      forall j | 0 <= j < |k| ensures !IsUpper(k[j]) {
      }
    }
  }

  lemma TechnicalSkillsDistinct()
    ensures NoDuplicates(TechnicalSkills)
  {
    forall i | 0 <= i < |TechnicalSkills| ensures KeywordPosition(TechnicalSkills[i]) == i {
    }
  }

  /** Where a keyword stands in the vocabulary; a left inverse of indexing. */
  function KeywordPosition(k: string): int {
    match k
    case "python" => 0
    case "java" => 1
    case "javascript" => 2
    case "sql" => 3
    case "aws" => 4
    case "docker" => 5
    case "kubernetes" => 6
    case "machine learning" => 7
    case "ai" => 8
    case "data analysis" => 9
    case "project management" => 10
    case "agile" => 11
    case "scrum" => 12
    case "react" => 13
    case "angular" => 14
    case "vue" => 15
    case "node.js" => 16
    case "express" => 17
    case "mongodb" => 18
    case "postgresql" => 19
    case "mysql" => 20
    case "git" => 21
    case "jenkins" => 22
    case "ci/cd" => 23
    case "rest api" => 24
    case "graphql" => 25
    case "microservices" => 26
    case "devops" => 27
    case _ => -1
  }

  /** The keyword occurs in the job text, and its occurrence in the resume is `inResume`. */
  predicate Classified(skill: string, jdLower: string, resumeLower: string, inResume: bool) {
    Contains(jdLower, skill) && Contains(resumeLower, skill) == inResume
  }

  /** The title-cased keywords of `vocabulary` classified as `inResume`, in
      vocabulary order: the list the loop of `analyze_missing_skills` builds
      (`missing_skills` for `false`, `present_skills` for `true`). */
  function Selected(vocabulary: seq<string>, jdLower: string, resumeLower: string, inResume: bool): seq<string> {
    if vocabulary == [] then []
    else
      var k := vocabulary[|vocabulary| - 1];
      Selected(vocabulary[..|vocabulary| - 1], jdLower, resumeLower, inResume)
        + (if Classified(k, jdLower, resumeLower, inResume) then [Title(k)] else [])
  }

  /** The first component of `analyze_missing_skills(jd_text, resume_text)`. */
  function MissingSkillsOf(jdText: string, resumeText: string): seq<string> {
    Selected(TechnicalSkills, LowerStr(jdText), LowerStr(resumeText), false)
  }

  /** `present_skills` inside `analyze_missing_skills`. */
  function PresentSkillsOf(jdText: string, resumeText: string): seq<string> {
    Selected(TechnicalSkills, LowerStr(jdText), LowerStr(resumeText), true)
  }

  /** The pair `analyze_missing_skills(jd_text, resume_text)` returns. */
  function AnalysisOf(jdText: string, resumeText: string): (seq<string>, string) {
    var present := PresentSkillsOf(jdText, resumeText);
    var missing := MissingSkillsOf(jdText, resumeText);
    (missing, GenerateRemarks(present, missing, |present|))
  }

  /** The loop of `analyze_missing_skills`: one pass over the vocabulary
      that appends each keyword the job text mentions, title-cased, to the
      missing or the present list. */
  method ClassifySkills(vocabulary: seq<string>, jdLower: string, resumeLower: string)
    returns (missingSkills: seq<string>, presentSkills: seq<string>)
    ensures missingSkills == Selected(vocabulary, jdLower, resumeLower, false)
    ensures presentSkills == Selected(vocabulary, jdLower, resumeLower, true)
  {
    missingSkills := [];
    presentSkills := [];
    for i := 0 to |vocabulary|
      invariant missingSkills == Selected(vocabulary[..i], jdLower, resumeLower, false)
      invariant presentSkills == Selected(vocabulary[..i], jdLower, resumeLower, true)
    {
      var skill := vocabulary[i];
      assert vocabulary[..i + 1][..i] == vocabulary[..i];
      if Contains(jdLower, skill) {
        if !Contains(resumeLower, skill) {
          missingSkills := missingSkills + [Title(skill)];
        } else {
          presentSkills := presentSkills + [Title(skill)];
        }
      }
    }
    assert vocabulary[..|vocabulary|] == vocabulary;
  }

  /** `analyze_missing_skills`: the keyword pass over `TechnicalSkills`,
      then the remark. */
  method AnalyzeMissingSkills(jdText: string, resumeText: string) returns (missingSkills: seq<string>, remarks: string)
    ensures (missingSkills, remarks) == AnalysisOf(jdText, resumeText)
  {
    var jdLower := LowerStr(jdText);
    var resumeLower := LowerStr(resumeText);
    var presentSkills;
    missingSkills, presentSkills := ClassifySkills(TechnicalSkills, jdLower, resumeLower);
    remarks := GenerateRemarks(presentSkills, missingSkills, |presentSkills|);
  }

  /** The selection holds exactly the title-cased keywords classified as `inResume`. */
  lemma {:induction false} SelectedElements(vocabulary: seq<string>, jdLower: string, resumeLower: string, inResume: bool)
    ensures forall s :: s in Selected(vocabulary, jdLower, resumeLower, inResume) <==>
      exists k :: k in vocabulary && s == Title(k) && Classified(k, jdLower, resumeLower, inResume)
  {
    if vocabulary != [] {
      var n := |vocabulary| - 1;
      var init := vocabulary[..n];
      SelectedElements(init, jdLower, resumeLower, inResume);
      var sel := Selected(vocabulary, jdLower, resumeLower, inResume);
      var prevSel := Selected(init, jdLower, resumeLower, inResume);
      var last := Classified(vocabulary[n], jdLower, resumeLower, inResume);
      assert sel == prevSel + (if last then [Title(vocabulary[n])] else []);
      assert vocabulary == init + [vocabulary[n]];
      forall s ensures s in sel <==> exists k :: k in vocabulary && s == Title(k) && Classified(k, jdLower, resumeLower, inResume) {
        if s in sel && s !in prevSel {
          assert s == Title(vocabulary[n]) && vocabulary[n] in vocabulary;
        }
        if exists k :: k in vocabulary && s == Title(k) && Classified(k, jdLower, resumeLower, inResume) {
          var k :| k in vocabulary && s == Title(k) && Classified(k, jdLower, resumeLower, inResume);
          if k != vocabulary[n] {
            assert k in init;
          }
        }
      }
    }
  }

  /** A title-cased keyword is selected exactly when its keyword is classified so. */
  lemma SelectedMembership(vocabulary: seq<string>, jdLower: string, resumeLower: string, inResume: bool)
    requires WellFormedVocabulary(vocabulary)
    ensures forall k :: k in vocabulary ==>
      (Title(k) in Selected(vocabulary, jdLower, resumeLower, inResume) <==> Classified(k, jdLower, resumeLower, inResume))
    ensures forall s :: s in Selected(vocabulary, jdLower, resumeLower, inResume) ==>
      exists k :: k in vocabulary && s == Title(k) && Classified(k, jdLower, resumeLower, inResume)
  {
    SelectedElements(vocabulary, jdLower, resumeLower, inResume);
    forall k | k in vocabulary
      ensures Title(k) in Selected(vocabulary, jdLower, resumeLower, inResume) <==> Classified(k, jdLower, resumeLower, inResume)
    {
      if Title(k) in Selected(vocabulary, jdLower, resumeLower, inResume) {
        var k' :| k' in vocabulary && Title(k) == Title(k') && Classified(k', jdLower, resumeLower, inResume);
        TitleInjective(k, k');
      }
    }
  }

  lemma {:induction false} SelectedNoDuplicates(vocabulary: seq<string>, jdLower: string, resumeLower: string, inResume: bool)
    requires WellFormedVocabulary(vocabulary)
    ensures NoDuplicates(Selected(vocabulary, jdLower, resumeLower, inResume))
  {
    if vocabulary != [] {
      var n := |vocabulary| - 1;
      var init := vocabulary[..n];
      assert WellFormedVocabulary(init);
      SelectedNoDuplicates(init, jdLower, resumeLower, inResume);
      SelectedElements(init, jdLower, resumeLower, inResume);
      var prevSel := Selected(init, jdLower, resumeLower, inResume);
      if Classified(vocabulary[n], jdLower, resumeLower, inResume) {
        var t := Title(vocabulary[n]);
        if t in prevSel {
          var k :| k in init && t == Title(k) && Classified(k, jdLower, resumeLower, inResume);
          var p :| 0 <= p < n && init[p] == k;
          TitleInjective(k, vocabulary[n]);
          assert false;
        }
        assert Selected(vocabulary, jdLower, resumeLower, inResume) == prevSel + [t];
      }
    }
  }

  lemma {:induction false} SelectedNone(vocabulary: seq<string>, jdLower: string, resumeLower: string, inResume: bool)
    requires forall k :: k in vocabulary ==> !Classified(k, jdLower, resumeLower, inResume)
    ensures Selected(vocabulary, jdLower, resumeLower, inResume) == []
  {
    if vocabulary != [] {
      var n := |vocabulary| - 1;
      assert vocabulary[n] in vocabulary;
      forall k | k in vocabulary[..n] ensures !Classified(k, jdLower, resumeLower, inResume) {
        assert k in vocabulary;
      }
      SelectedNone(vocabulary[..n], jdLower, resumeLower, inResume);
    }
  }

  /** A vocabulary skill is reported missing exactly when the lower-cased job
      text mentions it and the lower-cased resume does not; the list has no
      duplicates, and every entry is the title-cased form of such a keyword. */
  lemma MissingSkillsCharacterized(jdText: string, resumeText: string)
    ensures forall k :: k in TechnicalSkills ==>
      (Title(k) in MissingSkillsOf(jdText, resumeText) <==>
        Contains(LowerStr(jdText), k) && !Contains(LowerStr(resumeText), k))
    ensures forall s :: s in MissingSkillsOf(jdText, resumeText) ==>
      exists k :: k in TechnicalSkills && s == Title(k) && Contains(LowerStr(jdText), k) && !Contains(LowerStr(resumeText), k)
    ensures NoDuplicates(MissingSkillsOf(jdText, resumeText))
  {
    TechnicalSkillsWellFormed();
    SelectedMembership(TechnicalSkills, LowerStr(jdText), LowerStr(resumeText), false);
    SelectedNoDuplicates(TechnicalSkills, LowerStr(jdText), LowerStr(resumeText), false);
  }

  /** Present and missing skills are disjoint, and together they are the
      title-cased vocabulary skills that the job text mentions. */
  lemma PresentAndMissingPartitionJobSkills(jdText: string, resumeText: string)
    ensures (set s | s in PresentSkillsOf(jdText, resumeText) :: s)
        !! (set s | s in MissingSkillsOf(jdText, resumeText) :: s)
    ensures (set s | s in PresentSkillsOf(jdText, resumeText) :: s)
        + (set s | s in MissingSkillsOf(jdText, resumeText) :: s)
        == set k | k in TechnicalSkills && Contains(LowerStr(jdText), k) :: Title(k)
  {
    var jdLower, resumeLower := LowerStr(jdText), LowerStr(resumeText);
    TechnicalSkillsWellFormed();
    SelectedMembership(TechnicalSkills, jdLower, resumeLower, false);
    SelectedMembership(TechnicalSkills, jdLower, resumeLower, true);
    var present := set s | s in PresentSkillsOf(jdText, resumeText) :: s;
    var missing := set s | s in MissingSkillsOf(jdText, resumeText) :: s;
    var mentioned := set k | k in TechnicalSkills && Contains(jdLower, k) :: Title(k);
    forall s | s in present ensures s !in missing && s in mentioned {
      var k :| k in TechnicalSkills && s == Title(k) && Classified(k, jdLower, resumeLower, true);
    }
    forall s | s in missing ensures s in mentioned {
      var k :| k in TechnicalSkills && s == Title(k) && Classified(k, jdLower, resumeLower, false);
    }
    forall s | s in mentioned ensures s in present + missing {
      var k :| k in TechnicalSkills && Contains(jdLower, k) && s == Title(k);
      if Contains(resumeLower, k) {
        assert Classified(k, jdLower, resumeLower, true);
      } else {
        assert Classified(k, jdLower, resumeLower, false);
      }
    }
  }

  /** Matching ignores letter case: changing the case of any letters of
      either text leaves the analysis unchanged. */
  lemma AnalysisIgnoresCase(jdText: string, jdText': string, resumeText: string, resumeText': string)
    requires SameUpToCase(jdText, jdText') && SameUpToCase(resumeText, resumeText')
    ensures AnalysisOf(jdText, resumeText) == AnalysisOf(jdText', resumeText')
  {
    SameUpToCaseLower(jdText, jdText');
    SameUpToCaseLower(resumeText, resumeText');
  }

  /** In particular, upper-casing both texts changes nothing. */
  lemma AnalysisOfUpperCase(jdText: string, resumeText: string)
    ensures AnalysisOf(UpperStr(jdText), UpperStr(resumeText)) == AnalysisOf(jdText, resumeText)
  {
    AnalysisIgnoresCase(UpperStr(jdText), jdText, UpperStr(resumeText), resumeText);
  }

  /** When the resume shares no vocabulary skill with the job text the remark
      is the lowest tier, even when nothing is missing because the job text
      names no vocabulary skill at all. */
  lemma NoSharedSkillMeansLacking(jdText: string, resumeText: string)
    requires forall k :: k in TechnicalSkills && Contains(LowerStr(jdText), k) ==> !Contains(LowerStr(resumeText), k)
    ensures AnalysisOf(jdText, resumeText).1 == LacksRemark
  {
    SelectedNone(TechnicalSkills, LowerStr(jdText), LowerStr(resumeText), true);
  }

  /** A job text that names no vocabulary skill yields no missing skill and
      still the lowest-tier remark. */
  lemma NoJobSkillMeansLackingAndNothingMissing(jdText: string, resumeText: string)
    requires forall k :: k in TechnicalSkills ==> !Contains(LowerStr(jdText), k)
    ensures AnalysisOf(jdText, resumeText) == ([], LacksRemark)
  {
    SelectedNone(TechnicalSkills, LowerStr(jdText), LowerStr(resumeText), true);
    SelectedNone(TechnicalSkills, LowerStr(jdText), LowerStr(resumeText), false);
  }

  /** A resume that mentions every vocabulary skill the job text mentions, for
      a job text that mentions at least one, has nothing missing and gets the
      "Excellent match!" remark. */
  lemma AllJobSkillsPresentMeansExcellent(jdText: string, resumeText: string)
    requires exists k :: k in TechnicalSkills && Contains(LowerStr(jdText), k)
    requires forall k :: k in TechnicalSkills && Contains(LowerStr(jdText), k) ==> Contains(LowerStr(resumeText), k)
    ensures AnalysisOf(jdText, resumeText) == ([], ExcellentRemark)
  {
    var jdLower, resumeLower := LowerStr(jdText), LowerStr(resumeText);
    SelectedNone(TechnicalSkills, jdLower, resumeLower, false);
    TechnicalSkillsWellFormed();
    SelectedMembership(TechnicalSkills, jdLower, resumeLower, true);
    var k :| k in TechnicalSkills && Contains(jdLower, k);
    assert Title(k) in PresentSkillsOf(jdText, resumeText);
  }

  /** Matching is by plain substring: a resume mentioning "javascript" is
      never missing "Java". */
  lemma JavascriptCountsAsJava(jdText: string, resumeText: string)
    requires Contains(LowerStr(resumeText), "javascript")
    ensures "Java" !in MissingSkillsOf(jdText, resumeText)
  {
    assert OccursAt("javascript", "java", 0);
    ContainsTransitive(LowerStr(resumeText), "javascript", "java");
    assert TechnicalSkills[1] == "java";
    SkillNeverMissingWhenMentioned(jdText, resumeText, 1);
    assert Title("java") == "Java";
  }

  /** Likewise a resume mentioning "email" is never missing "Ai". */
  lemma EmailCountsAsAi(jdText: string, resumeText: string)
    requires Contains(LowerStr(resumeText), "email")
    ensures "Ai" !in MissingSkillsOf(jdText, resumeText)
  {
    assert OccursAt("email", "ai", 2);
    ContainsTransitive(LowerStr(resumeText), "email", "ai");
    assert TechnicalSkills[8] == "ai";
    SkillNeverMissingWhenMentioned(jdText, resumeText, 8);
    assert Title("ai") == "Ai";
  }

  lemma SkillNeverMissingWhenMentioned(jdText: string, resumeText: string, i: nat)
    requires i < |TechnicalSkills| && Contains(LowerStr(resumeText), TechnicalSkills[i])
    ensures Title(TechnicalSkills[i]) !in MissingSkillsOf(jdText, resumeText)
  {
    TechnicalSkillsWellFormed();
    SelectedMembership(TechnicalSkills, LowerStr(jdText), LowerStr(resumeText), false);
  }

  // ---------------------------------------------------------------------
  // Remarks
  // ---------------------------------------------------------------------

  /** The five buckets of `_generate_remarks`. */
  datatype Tier = LacksSkills | Excellent | Strong | Moderate | Limited

  /** The decision table: no present skill first, then no missing skill, then
      by the number of missing skills. */
  function TierOf(skillCount: nat, missingCount: nat): Tier {
    if skillCount == 0 then LacksSkills
    else if missingCount == 0 then Excellent
    else if missingCount <= 2 then Strong
    else if missingCount <= 4 then Moderate
    else Limited
  }

  /** How many missing skills a remark of the tier names (the slice bound). */
  function NamedCount(t: Tier): nat {
    match t
    case Strong => 2
    case Moderate => 3
    case Limited => 3
    case _ => 0
  }

  // The sentences are written in two pieces so that the verifier can read
  // their first characters (it does not index into long literals).
  const LacksRemark := "Candidate lacks most " + "required technical skills"
  const ExcellentRemark := "Excellent match! Candidate possesses " + "all key technical skills"
  const StrongPrefix := "Strong candidate with most required " + "skills. Missing: "
  const ModeratePrefix := "Moderate match. Has core skills " + "but missing: "
  const LimitedPrefix := "Limited match. Candidate lacks " + "several key skills including "

  /** Python's `xs[:n]` */
  function Take(xs: seq<string>, n: nat): (r: seq<string>)
    ensures |r| == if n < |xs| then n else |xs|
    ensures forall j :: 0 <= j < |r| ==> r[j] == xs[j]
  {
    if n < |xs| then xs[..n] else xs
  }

  /** Reads the tier back from a remark sentence. */
  function ClassifyRemark(remark: string): Option<Tier> {
    if remark == LacksRemark then Some(LacksSkills)
    else if remark == ExcellentRemark then Some(Excellent)
    else if StartsWith(remark, StrongPrefix) then Some(Strong)
    else if StartsWith(remark, ModeratePrefix) then Some(Moderate)
    else if StartsWith(remark, LimitedPrefix) then Some(Limited)
    else None
  }

  /** The opening of the sentences that list missing skills; empty for the
      two fixed sentences. */
  function TierPrefix(t: Tier): string {
    match t
    case Strong => StrongPrefix
    case Moderate => ModeratePrefix
    case Limited => LimitedPrefix
    case _ => ""
  }

  /** Skill names that a comma-separated list can carry back: no comma and
      no whitespace at either end. */
  predicate ListableSkills(skills: seq<string>) {
    forall i :: 0 <= i < |skills| ==> ',' !in skills[i] && IsStripped(skills[i])
  }

  /** `_generate_remarks`. `presentSkills` is passed by the source but unused.
      Which skills a listing sentence names, and no others, is stated by
      `RemarkListsFirstMissing`. */
  function GenerateRemarks(presentSkills: seq<string>, missingSkills: seq<string>, skillCount: nat): (remark: string)
    ensures ClassifyRemark(remark) == Some(TierOf(skillCount, |missingSkills|))
    ensures forall j :: 0 <= j < |missingSkills| && j < NamedCount(TierOf(skillCount, |missingSkills|)) ==>
      Contains(remark, missingSkills[j])
  {
    var tier := TierOf(skillCount, |missingSkills|);
    var named := Join(", ", Take(missingSkills, NamedCount(tier)));
    var remark :=
      match tier
      case LacksSkills => LacksRemark
      case Excellent => ExcellentRemark
      case _ => TierPrefix(tier) + named;
    RemarkNamesSkills(remark, tier, missingSkills, named);
    remark
  }

  /** A sentence that lists skills lists exactly the first `NamedCount` of
      the missing skills: its tail, read back as a comma-separated list (the
      way the posting's skills are read), gives those skills in order and no
      others. */
  lemma {:induction false} RemarkListsFirstMissing(presentSkills: seq<string>, missingSkills: seq<string>, skillCount: nat)
    requires ListableSkills(missingSkills)
    ensures var tier := TierOf(skillCount, |missingSkills|);
      NamedCount(tier) > 0 ==>
        && StartsWith(GenerateRemarks(presentSkills, missingSkills, skillCount), TierPrefix(tier))
        && SkillsList(GenerateRemarks(presentSkills, missingSkills, skillCount)[|TierPrefix(tier)|..])
          == Take(missingSkills, NamedCount(tier))
  {
    var tier := TierOf(skillCount, |missingSkills|);
    if NamedCount(tier) > 0 {
      var named := Join(", ", Take(missingSkills, NamedCount(tier)));
      var remark := GenerateRemarks(presentSkills, missingSkills, skillCount);
      assert remark == TierPrefix(tier) + named;
      assert remark[..|TierPrefix(tier)|] == TierPrefix(tier);
      assert remark[|TierPrefix(tier)|..] == named;
      NamedSkillsReadBack(Take(missingSkills, NamedCount(tier)));
    }
  }

  lemma RemarkNamesSkills(remark: string, tier: Tier, missingSkills: seq<string>, named: string)
    requires named == Join(", ", Take(missingSkills, NamedCount(tier)))
    requires remark == match tier
      case LacksSkills => LacksRemark
      case Excellent => ExcellentRemark
      case _ => TierPrefix(tier) + named
    ensures ClassifyRemark(remark) == Some(tier)
    ensures StartsWith(remark, TierPrefix(tier))
    ensures forall j :: 0 <= j < |missingSkills| && j < NamedCount(tier) ==> Contains(remark, missingSkills[j])
  {
    var prefix := TierPrefix(tier);
    if tier.Strong? || tier.Moderate? || tier.Limited? {
      assert remark == prefix + named;
      assert remark[..|prefix|] == prefix;
      assert remark[0] == prefix[0];
      assert LacksRemark[0] == 'C' && ExcellentRemark[0] == 'E';
      assert StrongPrefix[0] == 'S' && ModeratePrefix[0] == 'M' && LimitedPrefix[0] == 'L';
      forall j | 0 <= j < |missingSkills| && j < NamedCount(tier) ensures Contains(remark, missingSkills[j]) {
        JoinContainsEach(", ", Take(missingSkills, NamedCount(tier)), j);
        ContainsInConcat(prefix, named, "");
        assert prefix + named + "" == remark;
        ContainsTransitive(remark, named, missingSkills[j]);
      }
    } else {
      assert remark[..0] == prefix;
    }
  }

  /** The comma-separated list the remarks write is read back item for item. */
  lemma NamedSkillsReadBack(skills: seq<string>)
    requires skills != [] && ListableSkills(skills)
    ensures SkillsList(Join(", ", skills)) == skills
  {
    var joined := Join(", ", skills);
    SplitCommaJoin(skills);
    ReadBackAll(joined, skills);
  }

  lemma ReadBackAll(joined: string, skills: seq<string>)
    requires ListableSkills(skills)
    requires |Split(joined, ',')| == |skills|
    requires forall i :: 0 <= i < |skills| ==> Split(joined, ',')[i] == (if i == 0 then "" else " ") + skills[i]
    ensures SkillsList(joined) == skills
  {
    var read := SkillsList(joined);
    forall i | 0 <= i < |skills| ensures read[i] == skills[i] {
      ReadBackItem(joined, skills, i);
    }
  }

  lemma ReadBackItem(joined: string, skills: seq<string>, i: nat)
    requires i < |skills| && ListableSkills(skills)
    requires |Split(joined, ',')| == |skills|
    requires Split(joined, ',')[i] == (if i == 0 then "" else " ") + skills[i]
    ensures SkillsList(joined)[i] == skills[i]
  {
    StripOfStripped(if i == 0 then "" else " ", skills[i]);
  }

  // ---------------------------------------------------------------------
  // E-mails
  // ---------------------------------------------------------------------

  /** `filename.split('.')[0]` */
  function CandidateName(filename: string): (name: string)
    ensures StartsWith(filename, name)
    ensures '.' !in name
    ensures |name| < |filename| ==> filename[|name|] == '.'
  {
    Split(filename, '.')[0]
  }

  /** The salutation both e-mails open their body with. */
  function Salutation(name: string): string {
    "Dear " + name + ","
  }

  // The fixed text is written in short pieces: the verifier handles many
  // short literals far more cheaply than one long one.
  const InterviewSubject :=
    "\nSubject: Interview " +
    "Invitation - Congratulations!\n\n"
  const InterviewBody :=
    "\n\nThank you for " +
    "applying to our " +
    "position. We were " +
    "impressed with your " +
    "background and experience, " +
    "particularly your " +
    "strengths in key " +
    "areas that match " +
    "our requirements.\n\n"
  const InterviewClosing :=
    " to our position, " +
    "which is quite notable!\n" +
    "\nWe would like to " +
    "invite you for an " +
    "interview to discuss " +
    "your qualifications " +
    "and how you can " +
    "contribute to our " +
    "team.\n\nPlease let " +
    "us know your availability " +
    "for a virtual meeting " +
    "next week.\n\nBest " +
    "regards,\nRecruitment Team\n"
  const RejectionSubject :=
    "\nSubject: Update " +
    "on Your Application\n\n"
  const RejectionBody :=
    "\n\nThank you for " +
    "taking the time " +
    "to apply for our " +
    "position and for " +
    "sharing your qualifications " +
    "with us.\n\nWhile " +
    "we were impressed " +
    "with your background, " +
    "we have decided " +
    "to move forward " +
    "with candidates " +
    "whose experience " +
    "more closely aligns " +
    "with our current " +
    "requirements.\n\nWe " +
    "appreciate your " +
    "interest in our " +
    "company and encourage " +
    "you to apply for " +
    "future positions " +
    "that may be a better " +
    "fit.\n\nWe wish you " +
    "the best in your " +
    "job search.\n\nBest " +
    "regards,\nRecruitment Team\n"

  /** The sentence of the interview e-mail that quotes the score. */
  function ScoreSentence(scoreText: string): string {
    "Your application scored " + scoreText + "% relevance"
  }

  /** `generate_interview_email`; `formatScore` is Python's rendering of a float. */
  function InterviewEmail(result: MatchingResult, formatScore: real -> string): (email: string)
    ensures Contains(email, Salutation(CandidateName(result.candidate.filename)))
    ensures Contains(email, ScoreSentence(formatScore(result.score)))
  {
    var parts := [InterviewSubject, Salutation(CandidateName(result.candidate.filename)), InterviewBody,
                  ScoreSentence(formatScore(result.score)), InterviewClosing];
    JoinContainsEach("", parts, 1);
    JoinContainsEach("", parts, 3);
    Join("", parts)
  }

  /** `generate_rejection_email`: greets the candidate by name. */
  function RejectionEmail(result: MatchingResult): (email: string)
    ensures Contains(email, Salutation(CandidateName(result.candidate.filename)))
  {
    var parts := [RejectionSubject, Salutation(CandidateName(result.candidate.filename)), RejectionBody];
    JoinContainsEach("", parts, 1);
    Join("", parts)
  }

  /** The rejection e-mail depends on the file name alone, never on the score. */
  lemma RejectionEmailIgnoresScore(result: MatchingResult, score: real)
    ensures RejectionEmail(result.(score := score)) == RejectionEmail(result)
  {
  }

  // ---------------------------------------------------------------------
  // Job-description generation
  // ---------------------------------------------------------------------

  /** The form fields of `generate_job_description`. */
  datatype JobPosting = JobPosting(
    jobTitle: string,
    yearsExperience: string,
    mustHaveSkills: string,
    companyName: string,
    employmentType: string,
    industry: string,
    location: string)

  /** `[skill.strip() for skill in must_have_skills.split(',')]` */
  function SkillsList(mustHaveSkills: string): (skills: seq<string>)
    ensures |skills| == |Split(mustHaveSkills, ',')|
    ensures forall i :: 0 <= i < |skills| ==>
      && ',' !in skills[i]
      && IsStripped(skills[i])
      && NonWhitespace(skills[i]) == NonWhitespace(Split(mustHaveSkills, ',')[i])
    ensures forall i :: 0 <= i < |skills| ==> skills[i] == Strip(Split(mustHaveSkills, ',')[i])
  {
    var pieces := Split(mustHaveSkills, ',');
    var skills := seq(|pieces|, i requires 0 <= i < |pieces| => Strip(pieces[i]));
    forall i | 0 <= i < |skills|
      ensures ',' !in skills[i] && IsStripped(skills[i]) && NonWhitespace(skills[i]) == NonWhitespace(pieces[i])
    {
      StripSpec(pieces[i]);
      StripKeepsContent(pieces[i]);
      StripWithin(pieces[i]);
    }
    skills
  }

  // The fixed text of the template, in short pieces as for the e-mails.
  const TemplateCompany := "\nCompany: "
  const TemplateLocation := "\nLocation: "
  const TemplateEmploymentType := "\nEmployment Type: "
  const TemplateIndustry := "\nIndustry: "
  const TemplateSummary :=
    "\n\nJob Summary:\nWe " +
    "are seeking an experienced "
  const TemplateWith := " with "
  const TemplateJoin :=
    " years of experience " +
    "to join our dynamic " +
    "team at "
  const TemplateRole :=
    ". The ideal candidate " +
    "will play a key " +
    "role in driving " +
    "success in the "
  const TemplateResponsibilities :=
    " industry.\n\nKey " +
    "Responsibilities:\n" +
    "• Develop and implement " +
    "strategic initiatives\n" +
    "• Collaborate with " +
    "cross-functional " +
    "teams\n• Drive projects " +
    "from conception " +
    "to completion\n• " +
    "Analyze and optimize " +
    "business processes\n" +
    "\nRequired Qualifications:\n• "
  const TemplateProficiency :=
    " years of relevant " +
    "experience\n• Proficiency in: "
  const TemplatePreferred :=
    "\n• Strong communication " +
    "and leadership skills\n" +
    "• Bachelor's degree " +
    "in relevant field\n" +
    "\nPreferred Qualifications:\n" +
    "• Master's degree " +
    "or higher\n• Experience in "
  const TemplateOffer :=
    " industry\n• Professional " +
    "certifications\n\n" +
    "What We Offer:\n• " +
    "Competitive salary " +
    "and benefits\n• Professional " +
    "development opportunities\n" +
    "• Dynamic and inclusive " +
    "work environment\n" +
    "• Career growth " +
    "potential\n"

  /** The literal pieces of the f-string of `_generate_jd_template`. */
  const JdTemplatePieces: seq<string> := [
    "\nJob Title: ", TemplateCompany, TemplateLocation, TemplateEmploymentType,
    TemplateIndustry, TemplateSummary, TemplateWith, TemplateJoin, TemplateRole,
    TemplateResponsibilities, TemplateProficiency, TemplatePreferred, TemplateOffer ]

  /** The values substituted between the pieces, in order, `skillsText`
      standing for the list of skills. */
  function TemplateValues(p: JobPosting, skillsText: string): seq<string> {
    [ p.jobTitle, p.companyName, p.location, p.employmentType, p.industry,
      p.jobTitle, p.yearsExperience, p.companyName, p.industry,
      p.yearsExperience, skillsText, p.industry ]
  }

  /** `_generate_jd_template` */
  function JdTemplate(p: JobPosting): string {
    Fill(JdTemplatePieces, TemplateValues(p, SkillsText(p)))
  }

  /** The skills as the template prints them: `', '.join` of the stripped pieces. */
  function SkillsText(p: JobPosting): string {
    Join(", ", SkillsList(p.mustHaveSkills))
  }

  /** The posting fields the template substitutes. */
  datatype Field = JobTitle | YearsExperience | CompanyName | EmploymentType | Industry | Location | Skills

  /** The text the template substitutes for `f`: the field itself, or for
      the skills the comma-separated list after stripping each of them. */
  function FieldText(p: JobPosting, f: Field): string {
    FieldValue(p, SkillsText(p), f)
  }

  function FieldValue(p: JobPosting, skillsText: string, f: Field): string {
    match f
    case JobTitle => p.jobTitle
    case YearsExperience => p.yearsExperience
    case CompanyName => p.companyName
    case EmploymentType => p.employmentType
    case Industry => p.industry
    case Location => p.location
    case Skills => skillsText
  }

  /** The first position of `f` among the template's values. */
  function FieldSlot(f: Field): nat {
    match f
    case JobTitle => 0
    case CompanyName => 1
    case Location => 2
    case EmploymentType => 3
    case Industry => 4
    case YearsExperience => 6
    case Skills => 10
  }

  /** Filling the template's pieces puts every field's text in it. */
  lemma TemplateMentionsValue(p: JobPosting, skillsText: string, f: Field)
    ensures Contains(Fill(JdTemplatePieces, TemplateValues(p, skillsText)), FieldValue(p, skillsText, f))
  {
    var values := TemplateValues(p, skillsText);
    assert values[FieldSlot(f)] == FieldValue(p, skillsText, f);
    FillContainsEach(JdTemplatePieces, values, FieldSlot(f));
  }

  /** The fallback template names every field of the posting. */
  lemma JdTemplateMentionsField(p: JobPosting, f: Field)
    ensures Contains(JdTemplate(p), FieldText(p, f))
  {
    TemplateMentionsValue(p, SkillsText(p), f);
  }

  /** A key is configured when it is set and non-empty (Python truthiness). */
  predicate ApiKeyConfigured(openAiApiKey: Option<string>) {
    openAiApiKey.Some? && openAiApiKey.value != ""
  }

  /** `generate_job_description`: `completion` is the outcome of the
      chat-completion call on the formatted prompt, the reply text or the
      message of the exception it raised. The call is made only when a key is
      configured; without one, or when the call fails, the template is used. */
  function GenerateJobDescription(p: JobPosting, openAiApiKey: Option<string>, completion: Result<string, string>): (jd: string)
    ensures !ApiKeyConfigured(openAiApiKey) || completion.Failure? ==> jd == JdTemplate(p)
    ensures ApiKeyConfigured(openAiApiKey) && completion.Success? ==> jd == completion.value
  {
    if ApiKeyConfigured(openAiApiKey) then
      match completion
      case Success(reply) => reply
      case Failure(_) => JdTemplate(p)
    else JdTemplate(p)
  }

  /** Without a configured key, or when the model call fails, the description
      is the template and so names every field. */
  lemma FallbackDescriptionMentionsFields(p: JobPosting, openAiApiKey: Option<string>, completion: Result<string, string>)
    requires !ApiKeyConfigured(openAiApiKey) || completion.Failure?
    ensures forall f :: Contains(GenerateJobDescription(p, openAiApiKey, completion), FieldText(p, f))
  {
    forall f ensures Contains(GenerateJobDescription(p, openAiApiKey, completion), FieldText(p, f)) {
      JdTemplateMentionsField(p, f);
    }
  }
}
