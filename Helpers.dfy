/** The text helpers of app/utils/helpers.py: text cleaning, a keyword skill
    extractor with its own vocabulary, and file-extension checks. */
module Helpers {
  import opened Text

  // ---------------------------------------------------------------------
  // clean_text
  // ---------------------------------------------------------------------

  /** The regular-expression class `\w` on ASCII: letters, digits and `_`. */
  predicate IsWordChar(c: char) {
    IsLetter(c) || ('0' <= c <= '9') || c == '_'
  }

  /** The characters `[\w\s.,!?;:()\-]` keeps. */
  predicate IsAllowed(c: char) {
    IsWordChar(c) || IsWhitespace(c) || c in ".,!?;:()-"
  }

  /** No space follows another space. */
  predicate NoDoubleSpace(s: string) {
    forall i :: 0 <= i < |s| - 1 && s[i] == ' ' ==> s[i + 1] != ' '
  }

  /** `re.sub(r'\s+', ' ', s)`: every maximal run of whitespace becomes one space. */
  function CollapseWhitespace(s: string): (r: string)
    ensures forall i :: 0 <= i < |r| && IsWhitespace(r[i]) ==> r[i] == ' '
    ensures NoDoubleSpace(r)
    ensures r == [] <==> s == []
    ensures r != [] ==> (r[0] == ' ' <==> IsWhitespace(s[0]))
    decreases |s|
  {
    if s == [] then []
    else if IsWhitespace(s[0]) then
      var rest := LStrip(s);
      assert rest != s;
      " " + CollapseWhitespace(rest)
    else
      [s[0]] + CollapseWhitespace(s[1..])
  }

  /** `re.sub(r'[^\w\s.,!?;:()\-]', '', s)`: drops every other character. */
  function KeepAllowed(s: string): (r: string)
    ensures |r| <= |s|
    ensures forall i :: 0 <= i < |r| ==> IsAllowed(r[i])
    ensures forall c :: c in r ==> c in s
  {
    if s == [] then []
    else (if IsAllowed(s[0]) then [s[0]] else []) + KeepAllowed(s[1..])
  }

  /** `clean_text`: empty text stays empty; otherwise whitespace runs become
      single spaces, characters outside the allowed class are dropped and the
      ends are stripped. What remains are allowed characters, the only
      whitespace is the plain space, the text neither begins nor ends with
      it, and the characters other than whitespace are exactly the allowed
      ones of the input, in order. */
  function CleanText(text: string): (r: string)
    ensures text == "" ==> r == ""
    ensures forall i :: 0 <= i < |r| ==> IsAllowed(r[i]) && (IsWhitespace(r[i]) ==> r[i] == ' ')
    ensures IsStripped(r)
    ensures NonWhitespace(r) == KeepAllowed(NonWhitespace(text))
  {
    if text == "" then ""
    else
      CleanedCharacters(CollapseWhitespace(text));
      StripSpec(KeepAllowed(CollapseWhitespace(text)));
      CleanedContent(text);
      Strip(KeepAllowed(CollapseWhitespace(text)))
  }

  /** Filtering and stripping text whose only whitespace is the space leaves
      allowed characters and no whitespace but the space. */
  lemma CleanedCharacters(collapsed: string)
    requires forall i :: 0 <= i < |collapsed| && IsWhitespace(collapsed[i]) ==> collapsed[i] == ' '
    ensures var r := Strip(KeepAllowed(collapsed));
      forall i :: 0 <= i < |r| ==> IsAllowed(r[i]) && (IsWhitespace(r[i]) ==> r[i] == ' ')
  {
    var kept := KeepAllowed(collapsed);
    var r := Strip(kept);
    StripWithin(kept);
    forall i | 0 <= i < |r| ensures IsAllowed(r[i]) && (IsWhitespace(r[i]) ==> r[i] == ' ') {
      assert r[i] in kept;
      var j :| 0 <= j < |kept| && kept[j] == r[i];
      assert r[i] in collapsed;
    }
  }

  lemma CleanedContent(text: string)
    ensures NonWhitespace(Strip(KeepAllowed(CollapseWhitespace(text)))) == KeepAllowed(NonWhitespace(text))
  {
    var collapsed := CollapseWhitespace(text);
    StripKeepsContent(KeepAllowed(collapsed));
    KeepAllowedCommutes(collapsed);
    CollapseKeepsContent(text);
  }

  /** Collapsing whitespace keeps every character that is not whitespace. */
  lemma {:induction false} CollapseKeepsContent(s: string)
    ensures NonWhitespace(CollapseWhitespace(s)) == NonWhitespace(s)
    decreases |s|
  {
    if s != [] {
      if IsWhitespace(s[0]) {
        var rest := LStrip(s);
        CollapseKeepsContent(rest);
        NonWhitespaceFramed(s, s[..|s| - |rest|], rest, rest, []);
        assert (" " + CollapseWhitespace(rest))[1..] == CollapseWhitespace(rest);
      } else {
        CollapseKeepsContent(s[1..]);
        assert ([s[0]] + CollapseWhitespace(s[1..]))[1..] == CollapseWhitespace(s[1..]);
      }
    }
  }

  /** Dropping disallowed characters and dropping whitespace commute. */
  lemma {:induction false} KeepAllowedCommutes(s: string)
    ensures NonWhitespace(KeepAllowed(s)) == KeepAllowed(NonWhitespace(s))
  {
    if s != [] {
      KeepAllowedCommutes(s[1..]);
      var head := if IsAllowed(s[0]) then [s[0]] else [];
      assert KeepAllowed(s) == head + KeepAllowed(s[1..]);
      NonWhitespaceConcat(head, KeepAllowed(s[1..]));
      if IsWhitespace(s[0]) {
        assert NonWhitespace(s) == NonWhitespace(s[1..]);
        assert NonWhitespace(head) == [];
      } else {
        assert NonWhitespace(s) == [s[0]] + NonWhitespace(s[1..]);
        assert ([s[0]] + NonWhitespace(s[1..]))[1..] == NonWhitespace(s[1..]);
        assert KeepAllowed(NonWhitespace(s)) == head + KeepAllowed(NonWhitespace(s[1..]));
        assert NonWhitespace(head) == head by {
          if head != [] {
            assert head[1..] == [];
          }
        }
      }
    }
  }

  /** Each whitespace run between two pieces of text becomes exactly one
      space, and the text on either side collapses on its own. */
  lemma CollapseRun(a: string, w: string, b: string)
    requires a == [] || !IsWhitespace(a[|a| - 1])
    requires w != [] && AllWhitespace(w)
    requires b == [] || !IsWhitespace(b[0])
    ensures CollapseWhitespace(a + w + b) == CollapseWhitespace(a) + " " + CollapseWhitespace(b)
  {
    AppendAssoc(a, w, b);
    CollapseConcat(a, w + b);
    CollapseLeadingRun(w, b);
    AppendAssoc(CollapseWhitespace(a), " ", CollapseWhitespace(b));
  }

  /** Text that ends in something other than whitespace collapses apart from
      whatever follows it. */
  lemma {:induction false} CollapseConcat(a: string, t: string)
    requires a == [] || !IsWhitespace(a[|a| - 1])
    ensures CollapseWhitespace(a + t) == CollapseWhitespace(a) + CollapseWhitespace(t)
    decreases |a|
  {
    if a == [] {
      assert a + t == t;
    } else if IsWhitespace(a[0]) {
      LStripKeepsLast(a);
      CollapseConcat(LStrip(a), t);
      CollapseConcatAfterSpace(a, t);
    } else {
      CollapseConcat(a[1..], t);
      CollapseConcatAfterChar(a, t);
    }
  }

  lemma CollapseLeadingRun(w: string, b: string)
    requires w != [] && AllWhitespace(w)
    requires b == [] || !IsWhitespace(b[0])
    ensures CollapseWhitespace(w + b) == " " + CollapseWhitespace(b)
  {
    LStripWhitespacePrefix(w, b);
    assert (w + b)[0] == w[0];
  }

  /** The step of `CollapseConcat` for text that begins with whitespace. */
  lemma CollapseConcatAfterSpace(a: string, t: string)
    requires a != [] && IsWhitespace(a[0]) && !IsWhitespace(a[|a| - 1])
    requires CollapseWhitespace(LStrip(a) + t) == CollapseWhitespace(LStrip(a)) + CollapseWhitespace(t)
    ensures CollapseWhitespace(a + t) == CollapseWhitespace(a) + CollapseWhitespace(t)
  {
    LStripConcat(a, t);
    assert (a + t)[0] == a[0];
    AppendAssoc(" ", CollapseWhitespace(LStrip(a)), CollapseWhitespace(t));
  }

  /** The step of `CollapseConcat` for text that begins with other than whitespace. */
  lemma CollapseConcatAfterChar(a: string, t: string)
    requires a != [] && !IsWhitespace(a[0])
    requires CollapseWhitespace(a[1..] + t) == CollapseWhitespace(a[1..]) + CollapseWhitespace(t)
    ensures CollapseWhitespace(a + t) == CollapseWhitespace(a) + CollapseWhitespace(t)
  {
    ConsAppend(a, t);
    CollapseCons(a[0], a[1..] + t);
    CollapseCons(a[0], a[1..]);
    AppendAssoc([a[0]], CollapseWhitespace(a[1..]), CollapseWhitespace(t));
  }

  lemma ConsAppend(a: string, t: string)
    requires a != []
    ensures a + t == [a[0]] + (a[1..] + t)
    ensures a == [a[0]] + a[1..]
  {
  }

  lemma CollapseCons(c: char, x: string)
    requires !IsWhitespace(c)
    ensures CollapseWhitespace([c] + x) == [c] + CollapseWhitespace(x)
  {
    assert ([c] + x)[1..] == x;
  }

  /** Collapsing keeps the last character of text that ends in content. */
  lemma {:induction false} CollapseKeepsLast(a: string)
    requires a != [] && !IsWhitespace(a[|a| - 1])
    ensures CollapseWhitespace(a) != []
    ensures CollapseWhitespace(a)[|CollapseWhitespace(a)| - 1] == a[|a| - 1]
    decreases |a|
  {
    if IsWhitespace(a[0]) {
      LStripKeepsLast(a);
      CollapseKeepsLast(LStrip(a));
    } else if |a| > 1 {
      CollapseKeepsLast(a[1..]);
    }
  }

  lemma {:induction false} KeepAllowedConcat(x: string, y: string)
    ensures KeepAllowed(x + y) == KeepAllowed(x) + KeepAllowed(y)
  {
    if x != [] {
      assert (x + y)[1..] == x[1..] + y;
      KeepAllowedConcat(x[1..], y);
    } else {
      assert x + y == y;
    }
  }

  /** `clean_text` turns the whitespace run between two words into one space
      and cleans each word on its own. */
  lemma CleanTextRun(a: string, w: string, b: string)
    requires a != [] && IsAllowed(a[|a| - 1]) && !IsWhitespace(a[|a| - 1])
    requires w != [] && AllWhitespace(w)
    requires b != [] && IsAllowed(b[0]) && !IsWhitespace(b[0])
    ensures CleanText(a + w + b) == CleanText(a) + " " + CleanText(b)
  {
    CollapseRun(a, w, b);
    var ca, cb := CollapseWhitespace(a), CollapseWhitespace(b);
    KeepAllowedAroundSpace(ca, cb);
    CollapseKeepsLast(a);
    KeepAllowedKeepsLast(ca);
    CollapseCons(b[0], b[1..]);
    ConsAppend(b, []);
    StripAroundSpace(KeepAllowed(ca), KeepAllowed(cb));
  }

  lemma KeepAllowedAroundSpace(x: string, y: string)
    ensures KeepAllowed(x + " " + y) == KeepAllowed(x) + " " + KeepAllowed(y)
  {
    KeepAllowedConcat(x + " ", y);
    KeepAllowedConcat(x, " ");
    assert KeepAllowed(" ") == " ";
  }

  lemma KeepAllowedKeepsLast(x: string)
    requires x != [] && IsAllowed(x[|x| - 1])
    ensures KeepAllowed(x) != [] && KeepAllowed(x)[|KeepAllowed(x)| - 1] == x[|x| - 1]
  {
    assert x[..|x| - 1] + [x[|x| - 1]] == x;
    KeepAllowedConcat(x[..|x| - 1], [x[|x| - 1]]);
  }

  // ---------------------------------------------------------------------
  // extract_skills_from_text
  // ---------------------------------------------------------------------

  /** The regular expressions of `extract_skills_from_text`, as written. */
  const SkillPatterns: seq<string> := [
    "python", "java", "javascript", "typescript", "c\\+\\+", "c#",
    "sql", "mongodb", "postgresql", "mysql", "redis",
    "aws", "azure", "gcp", "docker", "kubernetes",
    "react", "angular", "vue", "node\\.js", "express",
    "machine learning", "ai", "data analysis", "data science",
    "agile", "scrum", "devops", "ci/cd", "git",
    "rest api", "graphql", "microservices", "api development"
  ]

  /** `s.replace(c, '')` for one character. */
  function RemoveChar(s: string, c: char): string {
    if s == [] then []
    else (if s[0] == c then [] else [s[0]]) + RemoveChar(s[1..], c)
  }

  /** The text a pattern matches: every pattern is a literal once its
      backslash escapes are removed. */
  function Unescape(pattern: string): string {
    RemoveChar(pattern, '\\')
  }

  /** `pattern.replace('\\', '').replace('/', '').title()` */
  function SkillName(pattern: string): string {
    Title(RemoveChar(RemoveChar(pattern, '\\'), '/'))
  }

  /** The skills `extract_skills_from_text` reports, as a set. */
  function SkillSet(text: string): set<string> {
    set p | p in SkillPatterns && Contains(LowerStr(text), Unescape(p)) :: SkillName(p)
  }

  /** `list(set(xs))`: the distinct elements in an order the model leaves open. */
  method Deduplicate(xs: seq<string>) returns (ys: seq<string>)
    ensures NoDuplicates(ys)
    ensures forall s :: s in ys <==> s in xs
  {
    var remaining := set x | x in xs;
    ys := [];
    while remaining != {}
      invariant NoDuplicates(ys)
      invariant forall s :: s in xs <==> s in ys || s in remaining
      invariant forall s :: s in ys ==> s !in remaining
      decreases remaining
    {
      var x :| x in remaining;
      ys := ys + [x];
      remaining := remaining - {x};
    }
  }

  /** The names the loop of `extract_skills_from_text` appends, in pattern order. */
  function FoundSkills(textLower: string, patterns: seq<string>): seq<string> {
    if patterns == [] then []
    else
      var p := patterns[|patterns| - 1];
      FoundSkills(textLower, patterns[..|patterns| - 1])
        + (if Contains(textLower, Unescape(p)) then [SkillName(p)] else [])
  }

  /** A name is appended exactly when some pattern with that name is found. */
  lemma {:induction false} FoundSkillsMembership(textLower: string, patterns: seq<string>)
    ensures forall s :: s in FoundSkills(textLower, patterns) <==>
      exists p :: p in patterns && Contains(textLower, Unescape(p)) && s == SkillName(p)
  {
    if patterns != [] {
      var n := |patterns| - 1;
      var init := patterns[..n];
      FoundSkillsMembership(textLower, init);
      assert patterns == init + [patterns[n]];
      forall s ensures s in FoundSkills(textLower, patterns) <==>
        exists p :: p in patterns && Contains(textLower, Unescape(p)) && s == SkillName(p)
      {
        if exists p :: p in patterns && Contains(textLower, Unescape(p)) && s == SkillName(p) {
          var p :| p in patterns && Contains(textLower, Unescape(p)) && s == SkillName(p);
          if p != patterns[n] {
            assert p in init;
          }
        }
      }
    }
  }

  /** The loop of `extract_skills_from_text`: the name of every pattern
      found in the lower-cased text, in pattern order. */
  method FindSkills(textLower: string, patterns: seq<string>) returns (found: seq<string>)
    ensures found == FoundSkills(textLower, patterns)
  {
    found := [];
    for i := 0 to |patterns|
      invariant found == FoundSkills(textLower, patterns[..i])
    {
      var pattern := patterns[i];
      assert patterns[..i + 1][..i] == patterns[..i];
      if Contains(textLower, Unescape(pattern)) {
        found := found + [SkillName(pattern)];
      }
    }
    assert patterns[..|patterns|] == patterns;
  }

  /** `extract_skills_from_text`: the name of every pattern found in the
      lower-cased text, each once. */
  method ExtractSkillsFromText(text: string) returns (skills: seq<string>)
    ensures NoDuplicates(skills)
    ensures forall s :: s in skills <==> s in SkillSet(text)
  {
    var textLower := LowerStr(text);
    var found := FindSkills(textLower, SkillPatterns);
    FoundSkillsMembership(textLower, SkillPatterns);
    skills := Deduplicate(found);
  }

  /** A pattern found in the text contributes its name. */
  lemma PatternReported(text: string, i: nat)
    requires i < |SkillPatterns| && Contains(LowerStr(text), Unescape(SkillPatterns[i]))
    ensures SkillName(SkillPatterns[i]) in SkillSet(text)
  {
  }

  /** The pattern "c\+\+" stands for the literal "c++" and is named "C++". */
  lemma CPlusPlusPattern()
    ensures Unescape(SkillPatterns[4]) == "c++" && SkillName(SkillPatterns[4]) == "C++"
  {
    assert SkillPatterns[4] == "c\\+\\+";
    assert RemoveChar("c++", '/') == "c++";
  }

  /** "c\+\+" is found as the literal "c++" and reported as "C++". */
  lemma CPlusPlusReported(text: string)
    requires Contains(LowerStr(text), "c++")
    ensures "C++" in SkillSet(text)
  {
    CPlusPlusPattern();
    PatternReported(text, 4);
  }

  /** The pattern "ci/cd" is matched as written and named without its
      slash, "Cicd". */
  lemma CiCdPattern()
    ensures Unescape(SkillPatterns[28]) == "ci/cd" && SkillName(SkillPatterns[28]) == "Cicd"
  {
    assert SkillPatterns[28] == "ci/cd";
    assert RemoveChar("ci/cd", '\\') == "ci/cd";
    assert RemoveChar("cd", '/') == "cd";
    assert RemoveChar("ci/cd", '/') == "cicd";
    assert TitleFrom("icd", true) == "icd";
  }

  /** "ci/cd" is found as written and reported without its slash, as "Cicd". */
  lemma CiCdReportedWithoutSlash(text: string)
    requires Contains(LowerStr(text), "ci/cd")
    ensures "Cicd" in SkillSet(text)
  {
    CiCdPattern();
    PatternReported(text, 28);
  }

  // ---------------------------------------------------------------------
  // validate_file_extension and get_file_extension
  // ---------------------------------------------------------------------

  /** `any(filename.lower().endswith(ext) for ext in allowed_extensions)` */
  function ValidateFileExtension(filename: string, allowedExtensions: seq<string>): (valid: bool)
    ensures valid <==> exists i :: 0 <= i < |allowedExtensions| && EndsWith(LowerStr(filename), allowedExtensions[i])
  {
    if allowedExtensions == [] then false
    else if EndsWith(LowerStr(filename), allowedExtensions[0]) then true
    else
      var rest := ValidateFileExtension(filename, allowedExtensions[1..]);
      assert forall i :: 1 <= i < |allowedExtensions| ==> allowedExtensions[i] == allowedExtensions[1..][i - 1];
      rest
  }

  /** `s.rfind(c)`: the last index of `c`, or -1. */
  function LastIndexOf(s: string, c: char): (i: int)
    ensures -1 <= i < |s|
    ensures i >= 0 ==> s[i] == c
    ensures forall k :: i < k < |s| ==> s[k] != c
  {
    if s == [] then -1
    else if s[|s| - 1] == c then |s| - 1
    else LastIndexOf(s[..|s| - 1], c)
  }

  /** Index `i` lies in the last path component: no slash from `i` on. */
  predicate AfterLastSlash(p: string, i: int) {
    0 <= i <= |p| && forall j :: i <= j < |p| ==> p[j] != '/'
  }

  /** Some character strictly between `lo` and `hi` is not a dot. */
  predicate HasNonDot(p: string, lo: int, hi: int) {
    exists k :: lo < k < hi && 0 <= k < |p| && p[k] != '.'
  }

  /** `os.path.splitext` on POSIX: the extension starts at the last dot of
      the last path component, unless every character before that dot in the
      component is a dot as well. */
  function SplitExt(p: string): (string, string) {
    var slash := LastIndexOf(p, '/');
    var dot := LastIndexOf(p, '.');
    if dot > slash && HasNonDot(p, slash, dot) then (p[..dot], p[dot..])
    else (p, "")
  }

  /** `os.path.splitext(filename)[1].lower()` */
  function GetFileExtension(filename: string): (ext: string)
    ensures ext == "" || (ext[0] == '.' && '.' !in ext[1..] && '/' !in ext)
    ensures EndsWith(LowerStr(filename), ext)
  {
    var (root, e) := SplitExt(filename);
    SplitExtRoundTrip(filename);
    assert LowerStr(filename)[|filename| - |e|..] == LowerStr(e);
    LowerStr(e)
  }

  /** The two parts of `splitext` give the path back, and the extension is
      empty or a dot followed by neither a dot nor a slash. */
  lemma SplitExtRoundTrip(p: string)
    ensures SplitExt(p).0 + SplitExt(p).1 == p
    ensures var e := SplitExt(p).1; e == "" || (e[0] == '.' && '.' !in e[1..] && '/' !in e)
  {
    var slash := LastIndexOf(p, '/');
    var dot := LastIndexOf(p, '.');
    var e := SplitExt(p).1;
    if e != "" {
      assert p[..dot] + p[dot..] == p;
      assert e == p[dot..];
      forall j | 1 <= j < |e| ensures e[j] != '.' && e[j] != '/' {
        assert e[j] == p[dot + j];
      }
    }
  }

  /** A file name with no dot after another character of its last component
      (no dot at all, or only leading dots as in ".bashrc") has no extension. */
  lemma NoExtensionWithoutInnerDot(filename: string)
    requires forall i, j :: 0 <= i < j < |filename| && AfterLastSlash(filename, i) && filename[i] != '.' ==> filename[j] != '.'
    ensures GetFileExtension(filename) == ""
  {
    var slash := LastIndexOf(filename, '/');
    var dot := LastIndexOf(filename, '.');
    if dot > slash {
      forall k | slash < k < dot && 0 <= k < |filename| ensures filename[k] == '.' {
        assert AfterLastSlash(filename, k);
      }
      assert !HasNonDot(filename, slash, dot);
    }
  }

  /** Otherwise the extension is the lower-cased text from the last dot on. */
  lemma ExtensionFromLastDot(filename: string, k: nat, d: nat)
    requires k < d < |filename| && AfterLastSlash(filename, k)
    requires filename[k] != '.' && filename[d] == '.'
    ensures LastIndexOf(filename, '.') >= d
    ensures GetFileExtension(filename) == LowerStr(filename[LastIndexOf(filename, '.')..])
  {
    var slash := LastIndexOf(filename, '/');
    var dot := LastIndexOf(filename, '.');
    assert slash < k;
    assert HasNonDot(filename, slash, dot);
  }
}
