/** The operations of Python's `str` that the pipeline relies on: whitespace,
    ASCII letter case, `title()`, `in`, `startswith`/`endswith`, `strip()`,
    `split(sep)` and `sep.join(...)`. */
module Text {

  /** Python's `str.isspace()`; a `\s` class in a `re` pattern over `str`
      matches the same characters. */
  predicate IsWhitespace(c: char) {
    || c == ' '
    || ('\t' <= c <= '\r')
    || ('\U{1c}' <= c <= '\U{1f}')
    || c == '\U{85}' || c == '\U{a0}' || c == '\U{1680}'
    || ('\U{2000}' <= c <= '\U{200a}')
    || c == '\U{2028}' || c == '\U{2029}' || c == '\U{202f}' || c == '\U{205f}' || c == '\U{3000}'
  }

  predicate IsUpper(c: char) { 'A' <= c <= 'Z' }

  predicate IsLowerLetter(c: char) { 'a' <= c <= 'z' }

  /** The cased characters of the ASCII range. */
  predicate IsLetter(c: char) { IsUpper(c) || IsLowerLetter(c) }

  function Lower(c: char): (d: char)
    ensures !IsUpper(d)
    ensures IsLetter(c) <==> IsLetter(d)
    ensures !IsLetter(c) ==> d == c
  {
    if IsUpper(c) then (c as int + 32) as char else c
  }

  function Upper(c: char): (d: char)
    ensures !IsLowerLetter(d)
    ensures IsLetter(c) <==> IsLetter(d)
    ensures Lower(d) == Lower(c)
  {
    if IsLowerLetter(c) then (c as int - 32) as char else c
  }

  /** `s.lower()` */
  function LowerStr(s: string): (r: string)
    ensures |r| == |s|
    ensures forall i :: 0 <= i < |s| ==> r[i] == Lower(s[i])
  {
    seq(|s|, i requires 0 <= i < |s| => Lower(s[i]))
  }

  /** `s.upper()` */
  function UpperStr(s: string): (r: string)
    ensures |r| == |s|
    ensures forall i :: 0 <= i < |s| ==> r[i] == Upper(s[i])
  {
    seq(|s|, i requires 0 <= i < |s| => Upper(s[i]))
  }

  predicate IsLowerCase(s: string) {
    forall i :: 0 <= i < |s| ==> !IsUpper(s[i])
  }

  /** Two strings that differ at most in the letter case of their characters. */
  predicate SameUpToCase(a: string, b: string) {
    |a| == |b| && forall i :: 0 <= i < |a| ==> Lower(a[i]) == Lower(b[i])
  }

  lemma SameUpToCaseLower(a: string, b: string)
    requires SameUpToCase(a, b)
    ensures LowerStr(a) == LowerStr(b)
  {
    assert forall i :: 0 <= i < |a| ==> LowerStr(a)[i] == LowerStr(b)[i];
  }

  /** `s.title()`: a letter that follows a letter is lowered, any other letter
      is raised; `afterCased` says whether the character before `s` was a letter. */
  function TitleFrom(s: string, afterCased: bool): (r: string)
    ensures |r| == |s|
    ensures forall i :: 0 <= i < |s| ==> Lower(r[i]) == Lower(s[i])
    ensures forall i :: 0 <= i < |s| && !IsLetter(s[i]) ==> r[i] == s[i]
    ensures forall i :: 0 <= i < |s| && IsLetter(s[i]) ==>
      (IsUpper(r[i]) <==> !(if i == 0 then afterCased else IsLetter(s[i - 1])))
  {
    if s == [] then []
    else
      var c := s[0];
      var d := if !IsLetter(c) then c else if afterCased then Lower(c) else Upper(c);
      var rest := TitleFrom(s[1..], IsLetter(c));
      [d] + rest
  }

  function Title(s: string): string {
    TitleFrom(s, false)
  }

  /** A letter after a dot or a slash starts a new word. */
  lemma TitleOfDottedName()
    ensures Title("node.js") == "Node.Js"
  {
    var r := Title("node.js");
    assert r[0] == 'N' && r[1] == 'o' && r[2] == 'd' && r[3] == 'e';
    assert r[4] == '.' && r[5] == 'J' && r[6] == 's';
  }

  lemma TitleOfSlashedName()
    ensures Title("ci/cd") == "Ci/Cd"
  {
    var r := Title("ci/cd");
    assert r[0] == 'C' && r[1] == 'i' && r[2] == '/' && r[3] == 'C' && r[4] == 'd';
  }

  /** On lower-case text `title()` loses nothing: lowering its result gives the text back. */
  lemma TitleOfLowerCase(s: string)
    requires IsLowerCase(s)
    ensures LowerStr(Title(s)) == s
  {
    var t := Title(s);
    forall i | 0 <= i < |s| ensures LowerStr(t)[i] == s[i] {
      assert Lower(t[i]) == Lower(s[i]);
    }
  }

  lemma TitleInjective(a: string, b: string)
    requires IsLowerCase(a) && IsLowerCase(b)
    requires Title(a) == Title(b)
    ensures a == b
  {
    TitleOfLowerCase(a);
    TitleOfLowerCase(b);
  }

  /** `p` occurs in `s` starting at index `i`. */
  predicate OccursAt(s: string, p: string, i: int) {
    0 <= i <= |s| - |p| && s[i..i + |p|] == p
  }

  /** Python's `p in s` for strings. */
  predicate Contains(s: string, p: string) {
    exists i | 0 <= i <= |s| - |p| :: OccursAt(s, p, i)
  }

  lemma ContainsAt(s: string, p: string, i: int)
    requires OccursAt(s, p, i)
    ensures Contains(s, p)
  {
  }

  lemma ContainsTransitive(s: string, m: string, p: string)
    requires Contains(s, m) && Contains(m, p)
    ensures Contains(s, p)
  {
    var i :| 0 <= i <= |s| - |m| && OccursAt(s, m, i);
    var j :| 0 <= j <= |m| - |p| && OccursAt(m, p, j);
    assert s[i..i + |m|] == m && m[j..j + |p|] == p;
    forall k | 0 <= k < |p| ensures s[i + j..i + j + |p|][k] == p[k] {
      assert p[k] == m[j + k] == s[i + j + k];
    }
    ContainsAt(s, p, i + j);
  }

  lemma ContainsInConcat(a: string, p: string, b: string)
    ensures Contains(a + p + b, p)
  {
    assert OccursAt(a + p + b, p, |a|);
    ContainsAt(a + p + b, p, |a|);
  }

  /** `s.startswith(p)` */
  predicate StartsWith(s: string, p: string) {
    |p| <= |s| && s[..|p|] == p
  }

  /** `s.endswith(p)` */
  predicate EndsWith(s: string, p: string) {
    |p| <= |s| && s[|s| - |p|..] == p
  }

  /** `sep.join(xs)` */
  function Join(sep: string, xs: seq<string>): string {
    if |xs| == 0 then ""
    else if |xs| == 1 then xs[0]
    else xs[0] + sep + Join(sep, xs[1..])
  }

  /** Every joined item occurs in the joined text. */
  lemma {:induction false} JoinContainsEach(sep: string, xs: seq<string>, k: nat)
    requires k < |xs|
    ensures Contains(Join(sep, xs), xs[k])
  {
    if |xs| == 1 {
      ContainsInConcat("", xs[0], "");
      assert "" + xs[0] + "" == xs[0];
    } else if k == 0 {
      ContainsInConcat("", xs[0], sep + Join(sep, xs[1..]));
      assert xs[0] + sep + Join(sep, xs[1..]) == "" + xs[0] + (sep + Join(sep, xs[1..]));
    } else {
      JoinContainsEach(sep, xs[1..], k - 1);
      var rest := Join(sep, xs[1..]);
      ContainsInConcat(xs[0] + sep, rest, "");
      assert xs[0] + sep + rest == xs[0] + sep + rest + "";
      ContainsTransitive(xs[0] + sep + rest, rest, xs[k]);
    }
  }

  /** The text of an f-string: the literal pieces with the substituted values
      between them, `pieces[0] + values[0] + pieces[1] + ... + pieces[n]`. */
  function Fill(pieces: seq<string>, values: seq<string>): string
    requires |pieces| == |values| + 1
    decreases |values|
  {
    if values == [] then pieces[0]
    else pieces[0] + values[0] + Fill(pieces[1..], values[1..])
  }

  /** Every substituted value occurs in the filled text. */
  lemma {:induction false} FillContainsEach(pieces: seq<string>, values: seq<string>, k: nat)
    requires |pieces| == |values| + 1 && k < |values|
    ensures Contains(Fill(pieces, values), values[k])
    decreases |values|
  {
    var rest := Fill(pieces[1..], values[1..]);
    if k == 0 {
      ContainsInConcat(pieces[0], values[0], rest);
    } else {
      FillContainsEach(pieces[1..], values[1..], k - 1);
      ContainsInConcat(pieces[0] + values[0], rest, "");
      assert pieces[0] + values[0] + rest == pieces[0] + values[0] + rest + "";
      ContainsTransitive(pieces[0] + values[0] + rest, rest, values[k]);
    }
  }

  predicate AllWhitespace(s: string) {
    forall i :: 0 <= i < |s| ==> IsWhitespace(s[i])
  }

  /** A whitespace character followed by whitespace is whitespace. */
  lemma WhitespacePrefixCons(s: string, k: nat)
    requires 0 < k <= |s| && IsWhitespace(s[0]) && AllWhitespace(s[1..][..k - 1])
    ensures AllWhitespace(s[..k])
  {
    forall i | 0 <= i < k ensures IsWhitespace(s[i]) {
      if i > 0 {
        assert s[i] == s[1..][..k - 1][i - 1];
      }
    }
  }

  /** Whitespace followed by a whitespace character is whitespace. */
  lemma WhitespaceSuffixSnoc(s: string, k: nat)
    requires k < |s| && IsWhitespace(s[|s| - 1]) && AllWhitespace(s[..|s| - 1][k..])
    ensures AllWhitespace(s[k..])
  {
    forall i | k <= i < |s| ensures IsWhitespace(s[i]) {
      if i < |s| - 1 {
        assert s[i] == s[..|s| - 1][k..][i - k];
      }
    }
  }

  /** The length of the longest whitespace prefix. */
  function LeadingWhitespace(s: string): (n: nat)
    ensures n <= |s| && AllWhitespace(s[..n])
    ensures n == |s| || !IsWhitespace(s[n])
  {
    if s != [] && IsWhitespace(s[0]) then
      var n := 1 + LeadingWhitespace(s[1..]);
      WhitespacePrefixCons(s, n);
      n
    else 0
  }

  /** The length of the longest whitespace suffix. */
  function TrailingWhitespace(s: string): (n: nat)
    ensures n <= |s| && AllWhitespace(s[|s| - n..])
    ensures n == |s| || !IsWhitespace(s[|s| - n - 1])
  {
    if s != [] && IsWhitespace(s[|s| - 1]) then
      var n := 1 + TrailingWhitespace(s[..|s| - 1]);
      WhitespaceSuffixSnoc(s, |s| - n);
      n
    else 0
  }

  /** Only one prefix length is all whitespace and followed by something else. */
  lemma LeadingWhitespaceUnique(s: string, n: nat)
    requires n <= |s| && AllWhitespace(s[..n])
    requires n == |s| || !IsWhitespace(s[n])
    ensures LeadingWhitespace(s) == n
  {
    var m := LeadingWhitespace(s);
    forall k | 0 <= k < m ensures IsWhitespace(s[k]) {
      assert s[k] == s[..m][k];
    }
    forall k | 0 <= k < n ensures IsWhitespace(s[k]) {
      assert s[k] == s[..n][k];
    }
  }

  /** Only one suffix length is all whitespace and preceded by something else. */
  lemma TrailingWhitespaceUnique(s: string, n: nat)
    requires n <= |s| && AllWhitespace(s[|s| - n..])
    requires n == |s| || !IsWhitespace(s[|s| - n - 1])
    ensures TrailingWhitespace(s) == n
  {
    var m := TrailingWhitespace(s);
    forall k | |s| - m <= k < |s| ensures IsWhitespace(s[k]) {
      assert s[k] == s[|s| - m..][k - (|s| - m)];
    }
    forall k | |s| - n <= k < |s| ensures IsWhitespace(s[k]) {
      assert s[k] == s[|s| - n..][k - (|s| - n)];
    }
  }

  /** `s.lstrip()`: drops the longest whitespace prefix. */
  function LStrip(s: string): (r: string)
    ensures |r| <= |s| && r == s[|s| - |r|..]
    ensures AllWhitespace(s[..|s| - |r|])
    ensures r == [] || !IsWhitespace(r[0])
  {
    s[LeadingWhitespace(s)..]
  }

  /** `s.rstrip()`: drops the longest whitespace suffix. */
  function RStrip(s: string): (r: string)
    ensures |r| <= |s| && r == s[..|r|]
    ensures AllWhitespace(s[|r|..])
    ensures r == [] || !IsWhitespace(r[|r| - 1])
  {
    s[..|s| - TrailingWhitespace(s)]
  }

  /** `s.strip()` */
  function Strip(s: string): string {
    RStrip(LStrip(s))
  }

  predicate IsStripped(s: string) {
    s == [] || (!IsWhitespace(s[0]) && !IsWhitespace(s[|s| - 1]))
  }

  /** `strip()` removes whitespace from the two ends and nothing else: the text
      is the result framed by whitespace, and the result begins and ends with
      something other than whitespace. */
  lemma StripSpec(s: string)
    ensures IsStripped(Strip(s))
    ensures exists i, j :: 0 <= i <= j <= |s| && Strip(s) == s[i..j] && AllWhitespace(s[..i]) && AllWhitespace(s[j..])
  {
    StripEnds(s);
    var i, j := StripBounds(s);
  }

  lemma StripEnds(s: string)
    ensures IsStripped(Strip(s))
  {
    var l := LStrip(s);
    if RStrip(l) != [] {
      assert RStrip(l)[0] == l[0];
    }
  }

  lemma StripBounds(s: string) returns (i: nat, j: nat)
    ensures i <= j <= |s| && Strip(s) == s[i..j]
    ensures AllWhitespace(s[..i]) && AllWhitespace(s[j..])
  {
    var l := LStrip(s);
    var r := RStrip(l);
    i, j := |s| - |l|, |s| - |l| + |r|;
    SliceOfSuffix(s, i, |r|);
    assert s[j..] == l[|r|..];
  }

  lemma SliceOfSuffix(s: string, i: nat, n: nat)
    requires i + n <= |s|
    ensures s[i..][..n] == s[i..i + n]
  {
  }

  /** `strip()` only removes characters. */
  lemma StripWithin(s: string)
    ensures forall c :: c in Strip(s) ==> c in s
  {
    StripSpec(s);
    var i, j :| 0 <= i <= j <= |s| && Strip(s) == s[i..j] && AllWhitespace(s[..i]) && AllWhitespace(s[j..]);
    SliceWithin(s, i, j);
  }

  lemma SliceWithin(s: string, i: int, j: int)
    requires 0 <= i <= j <= |s|
    ensures forall c :: c in s[i..j] ==> c in s
  {
    forall c | c in s[i..j] ensures c in s {
      var k :| 0 <= k < j - i && s[i..j][k] == c;
      assert s[i + k] == c;
    }
  }

  /** The characters of `s` that are not whitespace, in order. */
  function NonWhitespace(s: string): (r: string)
    ensures |r| <= |s|
    ensures forall i :: 0 <= i < |r| ==> !IsWhitespace(r[i])
  {
    if s == [] then []
    else (if IsWhitespace(s[0]) then [] else [s[0]]) + NonWhitespace(s[1..])
  }

  lemma {:induction false} NonWhitespaceConcat(a: string, b: string)
    ensures NonWhitespace(a + b) == NonWhitespace(a) + NonWhitespace(b)
  {
    if a == [] {
      assert a + b == b;
    } else {
      assert (a + b)[1..] == a[1..] + b;
      NonWhitespaceConcat(a[1..], b);
    }
  }

  lemma {:induction false} NonWhitespaceOfWhitespace(s: string)
    requires AllWhitespace(s)
    ensures NonWhitespace(s) == []
  {
    if s != [] {
      NonWhitespaceOfWhitespace(s[1..]);
    }
  }

  /** Stripping keeps every character that is not whitespace. */
  lemma StripKeepsContent(s: string)
    ensures NonWhitespace(Strip(s)) == NonWhitespace(s)
  {
    StripSpec(s);
    var i, j :| 0 <= i <= j <= |s| && Strip(s) == s[i..j] && AllWhitespace(s[..i]) && AllWhitespace(s[j..]);
    NonWhitespaceOfSlice(s, i, j);
  }

  /** A slice framed by whitespace has all the content of the text. */
  lemma NonWhitespaceOfSlice(s: string, i: int, j: int)
    requires 0 <= i <= j <= |s| && AllWhitespace(s[..i]) && AllWhitespace(s[j..])
    ensures NonWhitespace(s[i..j]) == NonWhitespace(s)
  {
    assert s == s[..i] + s[i..] && s[i..] == s[i..j] + s[j..];
    NonWhitespaceFramed(s, s[..i], s[i..], s[i..j], s[j..]);
  }

  lemma NonWhitespaceFramed(s: string, lead: string, l: string, mid: string, trail: string)
    requires s == lead + l && l == mid + trail
    requires AllWhitespace(lead) && AllWhitespace(trail)
    ensures NonWhitespace(mid) == NonWhitespace(s)
  {
    assert s == lead + mid + trail;
    NonWhitespaceConcat(lead + mid, trail);
    NonWhitespaceConcat(lead, mid);
    NonWhitespaceOfWhitespace(lead);
    NonWhitespaceOfWhitespace(trail);
  }

  /** Joining one more item appends the separator and the item. */
  lemma {:induction false} JoinSnoc(sep: string, xs: seq<string>, x: string)
    requires xs != []
    ensures Join(sep, xs + [x]) == Join(sep, xs) + sep + x
  {
    if |xs| == 1 {
      assert (xs + [x])[1..] == [x];
    } else {
      JoinSnoc(sep, xs[1..], x);
      assert (xs + [x])[1..] == xs[1..] + [x];
    }
  }

  /** A whitespace character added at the end survives `lstrip()` unless
      everything before it was whitespace too. */
  lemma LStripAppendWhitespace(s: string, c: char)
    requires IsWhitespace(c)
    ensures LStrip(s + [c]) == if LStrip(s) == [] then [] else LStrip(s) + [c]
  {
    var n := LeadingWhitespace(s);
    var t := s + [c];
    if n == |s| {
      forall i | 0 <= i < |t| ensures IsWhitespace(t[i]) {
        if i < |s| {
          assert t[i] == s[..n][i];
        }
      }
      assert t[..|t|] == t;
      LeadingWhitespaceUnique(t, |t|);
    } else {
      assert t[..n] == s[..n];
      LeadingWhitespaceUnique(t, n);
      assert t[n..] == s[n..] + [c];
    }
  }

  /** `rstrip()` ignores a whitespace character added at the end. */
  lemma RStripAppendWhitespace(s: string, c: char)
    requires IsWhitespace(c)
    ensures RStrip(s + [c]) == RStrip(s)
  {
    var n := TrailingWhitespace(s);
    var t := s + [c];
    var suffix := t[|s| - n..];
    forall k | 0 <= k < |suffix| ensures IsWhitespace(suffix[k]) {
      if k < n {
        assert suffix[k] == s[|s| - n..][k];
      }
    }
    if n < |s| {
      assert t[|s| - n - 1] == s[|s| - n - 1];
    }
    TrailingWhitespaceUnique(t, n + 1);
    assert t[..|s| - n] == s[..|s| - n];
  }

  /** `strip()` ignores a whitespace character added at the end. */
  lemma StripAppendWhitespace(s: string, c: char)
    requires IsWhitespace(c)
    ensures Strip(s + [c]) == Strip(s)
  {
    LStripAppendWhitespace(s, c);
    var l := LStrip(s);
    if l != [] {
      RStripAppendWhitespace(l, c);
    }
  }

  /** Text that ends in something other than whitespace keeps that last
      character through `lstrip()`. */
  lemma LStripKeepsLast(s: string)
    requires s != [] && !IsWhitespace(s[|s| - 1])
    ensures LStrip(s) != [] && LStrip(s)[|LStrip(s)| - 1] == s[|s| - 1]
  {
    assert s[..|s|] == s;
  }

  /** Whatever follows text with content is left alone by `lstrip()`. */
  lemma LStripConcat(s: string, t: string)
    requires s != [] && !IsWhitespace(s[|s| - 1])
    ensures LStrip(s + t) == LStrip(s) + t
  {
    LStripKeepsLast(s);
    var n := LeadingWhitespace(s);
    var u := s + t;
    assert u[..n] == s[..n];
    assert u[n] == s[n];
    LeadingWhitespaceUnique(u, n);
    assert u[n..] == s[n..] + t;
  }

  /** `lstrip()` of whitespace followed by text that does not begin with
      whitespace is that text. */
  lemma LStripWhitespacePrefix(w: string, t: string)
    requires AllWhitespace(w)
    requires t == [] || !IsWhitespace(t[0])
    ensures LStrip(w + t) == t
  {
    var u := w + t;
    assert u[..|w|] == w;
    LeadingWhitespaceUnique(u, |w|);
    assert u[|w|..] == t;
  }

  /** Whatever precedes text that begins with content is left alone by `rstrip()`. */
  lemma RStripConcat(t: string, s: string)
    requires s != [] && !IsWhitespace(s[0])
    ensures RStrip(t + s) == t + RStrip(s)
  {
    var n := TrailingWhitespace(s);
    assert s[|s| - |s|..] == s;
    var u := t + s;
    assert u[|u| - n..] == s[|s| - n..];
    assert u[|u| - n - 1] == s[|s| - n - 1];
    TrailingWhitespaceUnique(u, n);
    assert u[..|u| - n] == t + s[..|s| - n];
  }

  /** `strip()` of two texts with content joined by one space strips each
      of them and keeps the space. */
  lemma StripAroundSpace(a: string, b: string)
    requires a != [] && !IsWhitespace(a[|a| - 1])
    requires b != [] && !IsWhitespace(b[0])
    ensures Strip(a + " " + b) == Strip(a) + " " + Strip(b)
  {
    var l := LStrip(a);
    AppendAssoc(a, " ", b);
    LStripConcat(a, " " + b);
    AppendAssoc(l, " ", b);
    RStripConcat(l + " ", b);
    LStripKeepsLast(a);
    RStripOfContentEnd(l);
    LStripWhitespacePrefix([], b);
    AppendAssoc([], [], b);
  }

  lemma RStripOfContentEnd(s: string)
    requires s != [] && !IsWhitespace(s[|s| - 1])
    ensures RStrip(s) == s
  {
    assert s[..|s|] == s;
    TrailingWhitespaceUnique(s, 0);
  }

  lemma AppendAssoc(x: string, y: string, z: string)
    ensures x + y + z == x + (y + z)
  {
  }

  /** `s.split(sep)` for a one-character separator. */
  function Split(s: string, sep: char): (r: seq<string>)
    ensures |r| >= 1
    ensures forall k :: 0 <= k < |r| ==> sep !in r[k]
    ensures StartsWith(s, r[0]) && (|r[0]| < |s| ==> s[|r[0]|] == sep)
  {
    if s == [] then [""]
    else
      var rest := Split(s[1..], sep);
      if s[0] == sep then [""] + rest
      else [[s[0]] + rest[0]] + rest[1..]
  }

  /** Splitting and joining again with the same separator gives the text back. */
  lemma {:induction false} JoinSplit(s: string, sep: char)
    ensures Join([sep], Split(s, sep)) == s
  {
    if s != [] {
      var rest := Split(s[1..], sep);
      JoinSplit(s[1..], sep);
      if s[0] == sep {
        assert Join([sep], [""] + rest) == "" + [sep] + Join([sep], rest);
        assert s == [s[0]] + s[1..];
      } else {
        var pieces := [[s[0]] + rest[0]] + rest[1..];
        if |rest| == 1 {
          assert Join([sep], rest) == rest[0];
        } else {
          assert Join([sep], rest) == rest[0] + [sep] + Join([sep], rest[1..]);
          assert pieces[1..] == rest[1..];
        }
        assert s == [s[0]] + s[1..];
      }
    }
  }

  /** Text without the separator is a single piece. */
  lemma {:induction false} SplitWithoutSeparator(s: string, sep: char)
    requires sep !in s
    ensures Split(s, sep) == [s]
  {
    if s != [] {
      SplitWithoutSeparator(s[1..], sep);
      assert [s[0]] + s[1..] == s;
    }
  }

  /** A separator closes the piece before it. */
  lemma {:induction false} SplitAtSeparator(a: string, b: string, sep: char)
    requires sep !in a
    ensures Split(a + [sep] + b, sep) == [a] + Split(b, sep)
  {
    var s := a + [sep] + b;
    if a == [] {
      assert s == [sep] + b;
      assert s[1..] == b;
    } else {
      SplitAtSeparator(a[1..], b, sep);
      assert s[1..] == a[1..] + [sep] + b;
      assert [a[0]] + a[1..] == a;
    }
  }

  /** `", ".join(xs).split(",")` for items without a comma: the first item,
      then each further item behind the space of the separator. */
  lemma {:induction false} SplitCommaJoin(xs: seq<string>)
    requires xs != []
    requires forall i :: 0 <= i < |xs| ==> ',' !in xs[i]
    ensures |Split(Join(", ", xs), ',')| == |xs|
    ensures Split(Join(", ", xs), ',')[0] == xs[0]
    ensures forall i :: 0 < i < |xs| ==> Split(Join(", ", xs), ',')[i] == " " + xs[i]
  {
    if |xs| == 1 {
      SplitWithoutSeparator(xs[0], ',');
    } else {
      var tail := Join(", ", xs[1..]);
      SplitCommaJoin(xs[1..]);
      assert Join(", ", xs) == xs[0] + [','] + (" " + tail);
      SplitAtSeparator(xs[0], " " + tail, ',');
      assert (" " + tail)[1..] == tail;
      var pieces := Split(Join(", ", xs), ',');
      var inner := Split(tail, ',');
      assert pieces == [xs[0]] + ([" " + inner[0]] + inner[1..]);
      forall i | 0 < i < |xs| ensures pieces[i] == " " + xs[i] {
        if i > 1 {
          assert pieces[i] == inner[i - 1];
        }
      }
    }
  }

  /** `strip()` removes leading whitespace from text that is already stripped. */
  lemma StripOfStripped(w: string, x: string)
    requires AllWhitespace(w) && IsStripped(x)
    ensures Strip(w + x) == x
  {
    LStripWhitespacePrefix(w, x);
    if x != [] {
      RStripOfContentEnd(x);
    }
  }

  predicate NoDuplicates<T(==)>(s: seq<T>) {
    forall i, j :: 0 <= i < j < |s| ==> s[i] != s[j]
  }
}
