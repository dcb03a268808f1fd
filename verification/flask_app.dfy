/** The deterministic helpers of the Flask application `app.py`: the upload
    filter, the ATS readability score and the HTML escaper. */
module FlaskApp {
  import opened Wrappers
  import opened Seqs
  import opened Text

  // ---------------------------------------------------------------------
  // allowed_file
  // ---------------------------------------------------------------------

  /** Position of the last `c` in `s`. */
  function LastIndexOf(s: string, c: char): (k: Option<nat>)
    ensures k.None? <==> c !in s
    ensures k.Some? ==> k.value < |s| && s[k.value] == c
    ensures k.Some? ==> forall m :: k.value < m < |s| ==> s[m] != c
  {
    if |s| == 0 then None
    else if s[|s| - 1] == c then Some(|s| - 1)
    else
      assert s == s[..|s| - 1] + [s[|s| - 1]];
      LastIndexOf(s[..|s| - 1], c)
  }

  /** `ALLOWED_EXTENSIONS` */
  const AllowedExtensions: set<string> := {"pdf"}

  /** `allowed_file`: the name has a '.', and what follows the last one,
      lower-cased, is an allowed extension. */
  function AllowedFile(filename: string): (ok: bool)
    ensures ok ==> '.' in filename
  {
    match LastIndexOf(filename, '.')
    case None => false
    case Some(k) => Lower(filename[k + 1..]) in AllowedExtensions
  }

  /** The same test read from the end: the name ends in ".pdf" in any
      letter case. */
  lemma {:induction false} AllowedFileIffPdfSuffix(filename: string)
    ensures AllowedFile(filename) <==>
              |filename| >= 4 && filename[|filename| - 4] == '.' && Lower(filename[|filename| - 3..]) == "pdf"
  {
    var n := |filename|;
    if AllowedFile(filename) {
      var k := LastIndexOf(filename, '.').value;
      assert |Lower(filename[k + 1..])| == 3;
      assert filename[k + 1..] == filename[n - 3..];
    }
    if n >= 4 && filename[n - 4] == '.' && Lower(filename[n - 3..]) == "pdf" {
      var tail := filename[n - 3..];
      forall m | n - 3 <= m < n ensures filename[m] != '.' {
        assert LowerChar(tail[m - (n - 3)]) == "pdf"[m - (n - 3)];
      }
      var k := LastIndexOf(filename, '.');
      assert k.Some? && k.value == n - 4;
    }
  }

  /** The cases of the unit test. */
  lemma AllowedFileCases()
    ensures AllowedFile("resume.pdf")
    ensures AllowedFile("document.PDF")
    ensures !AllowedFile("resume.docx")
    ensures !AllowedFile("resume.txt")
    ensures !AllowedFile("resume")
  {
    PdfAllowed();
    UpperPdfAllowed();
    DocxRefused();
    TxtRefused();
    NoExtensionRefused();
  }

  lemma PdfAllowed() ensures AllowedFile("resume.pdf") {
    AllowedFileIffPdfSuffix("resume.pdf");
    assert "resume.pdf"[7..] == "pdf";
  }

  lemma UpperPdfAllowed() ensures AllowedFile("document.PDF") {
    AllowedFileIffPdfSuffix("document.PDF");
    assert "document.PDF"[9..] == "PDF";
    assert Lower("PDF") == "pdf";
  }

  lemma DocxRefused() ensures !AllowedFile("resume.docx") {
    AllowedFileIffPdfSuffix("resume.docx");
    assert "resume.docx"[7] != '.';
  }

  lemma TxtRefused() ensures !AllowedFile("resume.txt") {
    AllowedFileIffPdfSuffix("resume.txt");
    assert "resume.txt"[7..] == "txt";
    assert Lower("txt")[0] != "pdf"[0];
  }

  lemma NoExtensionRefused() ensures !AllowedFile("resume") {
    AllowedFileIffPdfSuffix("resume");
    assert "resume"[2] != '.';
  }

  // ---------------------------------------------------------------------
  // calculate_ats_score
  // ---------------------------------------------------------------------

  const MaxAtsScore: int := 100

  /** Python's `str.isspace`: what `\s` matches in a `str` pattern. */
  predicate IsPySpace(c: char) {
    || c == '\t' || c == '\n' || c == '\U{000B}' || c == '\U{000C}' || c == '\r'
    || ('\U{001C}' <= c <= '\U{001F}') || c == ' ' || c == '\U{0085}' || c == '\U{00A0}'
    || c == '\U{1680}' || ('\U{2000}' <= c <= '\U{200A}') || c == '\U{2028}' || c == '\U{2029}'
    || c == '\U{202F}' || c == '\U{205F}' || c == '\U{3000}'
  }

  /** Every character of `t[i..j]` satisfies `p`. */
  predicate AllIn(t: string, i: nat, j: nat, p: char -> bool)
    requires i <= j <= |t|
  {
    forall k :: i <= k < j ==> p(t[k])
  }

  /** `[A-Za-z0-9._%+-]` */
  predicate IsLocalChar(c: char) {
    IsLetter(c) || IsDigit(c) || c == '.' || c == '_' || c == '%' || c == '+' || c == '-'
  }

  /** `[A-Za-z0-9.-]` */
  predicate IsDomainChar(c: char) {
    IsLetter(c) || IsDigit(c) || c == '.' || c == '-'
  }

  /** `[A-Z|a-z]`: the class includes the bar. */
  predicate IsTopLevelChar(c: char) {
    IsLetter(c) || c == '|'
  }

  /** `\b[A-Za-z0-9._%+-]+@[A-Za-z0-9.-]+\.[A-Z|a-z]{2,}\b` matches
      `t[s..e]`, with the '@' at `at` and the last '.' at `dot`. */
  predicate EmailAt(t: string, s: nat, at: nat, dot: nat, e: nat)
    requires s < at < dot < e <= |t|
  {
    && WordBoundary(t, s)
    && AllIn(t, s, at, IsLocalChar)
    && t[at] == '@'
    && at + 1 < dot
    && AllIn(t, at + 1, dot, IsDomainChar)
    && t[dot] == '.'
    && dot + 3 <= e
    && AllIn(t, dot + 1, e, IsTopLevelChar)
    && WordBoundary(t, e)
  }

  /** `re.search` of the email pattern succeeds. */
  function HasEmail(t: string): (b: bool)
    ensures b ==> 6 <= |t| && '@' in t
  {
    exists s, at, dot, e | 0 <= s < at < dot < e <= |t| :: EmailAt(t, s, at, dot, e)
  }

  function Digits(t: string, i: nat, n: nat): bool {
    i + n <= |t| && AllIn(t, i, i + n, IsDigit)
  }

  /** `\d{3}-\d{4}` at `j`. */
  predicate LocalNumberAt(t: string, j: nat) {
    Digits(t, j, 3) && j + 3 < |t| && t[j + 3] == '-' && Digits(t, j + 4, 4)
  }

  /** `\(\d{3}\)\s*\d{3}-\d{4}` at `i`. */
  predicate ParenPhoneAt(t: string, i: nat) {
    && i + 5 <= |t|
    && t[i] == '(' && Digits(t, i + 1, 3) && t[i + 4] == ')'
    && exists j | i + 5 <= j <= |t| :: AllIn(t, i + 5, j, IsPySpace) && LocalNumberAt(t, j)
  }

  /** `\d{3}-\d{3}-\d{4}` at `i`. */
  predicate DashedPhoneAt(t: string, i: nat) {
    Digits(t, i, 3) && i + 3 < |t| && t[i + 3] == '-' && LocalNumberAt(t, i + 4)
  }

  /** `re.search` of the phone pattern succeeds. */
  function HasPhone(t: string): (b: bool)
    ensures b ==> 12 <= |t| && '-' in t
  {
    exists i | 0 <= i <= |t| :: ParenPhoneAt(t, i) || DashedPhoneAt(t, i)
  }

  const Sections: seq<string> := ["experience", "education", "skills", "summary", "objective"]
  const ActionVerbs: seq<string> := ["developed", "created", "implemented", "managed", "led", "designed", "built"]

  /** The section loop: ten points per section name found. */
  function SectionPoints(lower: string, sections: seq<string>): (points: nat)
    ensures points <= 10 * |sections|
  {
    if |sections| == 0 then 0
    else (if Contains(lower, sections[0]) then 10 else 0) + SectionPoints(lower, sections[1..])
  }

  /** The verb loop: five points at the first verb found, then `break`. */
  function VerbBonus(lower: string, verbs: seq<string>): (bonus: nat)
    ensures bonus == 0 || bonus == 5
    ensures bonus == 5 <==> exists v :: v in verbs && Contains(lower, v)
  {
    if |verbs| == 0 then 0
    else if Contains(lower, verbs[0]) then 5
    else
      assert forall v :: v in verbs <==> v == verbs[0] || v in verbs[1..];
      VerbBonus(lower, verbs[1..])
  }

  /** Reference: how many of the section names occur. */
  function SectionsFound(lower: string): nat {
    |Filter(Sections, s => Contains(lower, s))|
  }

  /** Reference: the uncapped total, term by term. */
  function AtsTerms(t: string): int {
    (if |t| > 200 then 20 else 0)
    + (if HasEmail(t) then 15 else 0)
    + (if HasPhone(t) then 15 else 0)
    + 10 * SectionsFound(Lower(t))
    + (if exists v :: v in ActionVerbs && Contains(Lower(t), v) then 5 else 0)
  }

  /** `calculate_ats_score`: the points accumulated in source order, capped
      at 100. */
  function CalculateAtsScore(resumeText: string): (score: int)
    ensures 0 <= score <= MaxAtsScore
    ensures score == if AtsTerms(resumeText) < MaxAtsScore then AtsTerms(resumeText) else MaxAtsScore
  {
    var lower := Lower(resumeText);
    var score := 0;
    var score := if |resumeText| > 200 then score + 20 else score;
    var score := if HasEmail(resumeText) then score + 15 else score;
    var score := if HasPhone(resumeText) then score + 15 else score;
    var score := score + SectionPoints(lower, Sections);
    var score := score + VerbBonus(lower, ActionVerbs);
    SectionPointsCount(lower, Sections);
    if score < MaxAtsScore then score else MaxAtsScore
  }

  lemma {:induction false} SectionPointsCount(lower: string, sections: seq<string>)
    ensures SectionPoints(lower, sections) == 10 * |Filter(sections, s => Contains(lower, s))|
  {
    if |sections| > 0 {
      SectionPointsCount(lower, sections[1..]);
    }
  }

  /** Without the cap the terms can reach 105, so the cap is live. */
  lemma TermsBound(t: string)
    ensures AtsTerms(t) <= 105
  {
  }

  /** The unit test's sample résumé, in pieces: the indented lines of the
      triple-quoted string, split around the words that earn points. */
  const SampleHead := "\n        John Doe\n        Software Developer\n        john.doe@email.com\n        (555) 123-4567\n        \n        "
  const SampleExperience := "EXPERIENCE"
  const SampleJob := "\n        Software Developer at Tech Corp (2020-2023)\n        - "
  const SampleVerb := "Developed"
  const SampleBullets := " web applications using Python and Flask\n        - Implemented machine learning solutions\n        - Led a team of 5 developers\n        \n        "
  const SampleEducation := "EDUCATION"
  const SampleDegree := "\n        Bachelor of Computer Science, University of Technology (2016-2020)\n        \n        "
  const SampleSkills := "SKILLS"
  const SampleTail := "\n        Python, Flask, Machine Learning, SQL, Git\n        "

  const SampleResume: string :=
    SampleHead + SampleExperience + SampleJob + SampleVerb + SampleBullets
    + SampleEducation + SampleDegree + SampleSkills + SampleTail

  /** The sample scores above 50: length, three sections and a verb alone
      give 55. */
  lemma SampleScoresAbove50()
    ensures CalculateAtsScore(SampleResume) > 50
  {
    SampleIsLong();
    SampleHasExperience();
    SampleHasEducation();
    SampleHasSkills();
    ThreeSections(Lower(SampleResume));
    SampleHasVerb();
    ScoreLowerBound(SampleResume);
  }

  /** Any text that is long enough and names three sections and a verb
      scores above 50. */
  lemma ScoreLowerBound(t: string)
    requires |t| > 200
    requires SectionsFound(Lower(t)) >= 3
    requires Contains(Lower(t), "developed")
    ensures CalculateAtsScore(t) > 50
  {
    assert "developed" in ActionVerbs;
  }

  lemma SampleIsLong()
    ensures |SampleResume| > 200
  {
    assert |SampleBullets| > 100;
    assert |SampleDegree| > 80;
    assert |SampleHead| > 20;
  }

  /** `Lower` of the sample, piece by piece. */
  lemma SampleLowerParts()
    ensures Lower(SampleResume)
         == Lower(SampleHead) + "experience" + Lower(SampleJob) + "developed" + Lower(SampleBullets)
          + "education" + Lower(SampleDegree) + "skills" + Lower(SampleTail)
  {
    LowerAppend(SampleHead + SampleExperience + SampleJob + SampleVerb + SampleBullets
                + SampleEducation + SampleDegree + SampleSkills, SampleTail);
    LowerAppend(SampleHead + SampleExperience + SampleJob + SampleVerb + SampleBullets
                + SampleEducation + SampleDegree, SampleSkills);
    LowerAppend(SampleHead + SampleExperience + SampleJob + SampleVerb + SampleBullets
                + SampleEducation, SampleDegree);
    LowerAppend(SampleHead + SampleExperience + SampleJob + SampleVerb + SampleBullets, SampleEducation);
    LowerAppend(SampleHead + SampleExperience + SampleJob + SampleVerb, SampleBullets);
    LowerAppend(SampleHead + SampleExperience + SampleJob, SampleVerb);
    LowerAppend(SampleHead + SampleExperience, SampleJob);
    LowerAppend(SampleHead, SampleExperience);
    assert Lower(SampleExperience) == "experience";
    assert Lower(SampleVerb) == "developed";
    assert Lower(SampleEducation) == "education";
    assert Lower(SampleSkills) == "skills";
  }

  lemma WordFound(a: string, w: string, b: string)
    ensures Contains(a + w + b, w)
  {
    assert SliceAt(w, w, 0);
    ContainsExtend(a, w, b, w);
  }

  /** Three section names give at least three sections. */
  lemma ThreeSections(lower: string)
    requires Contains(lower, "experience") && Contains(lower, "education") && Contains(lower, "skills")
    ensures SectionsFound(lower) >= 3
  {
    var keep := s => Contains(lower, s);
    assert Sections == ["experience"] + Sections[1..];
    assert Sections[1..] == ["education"] + Sections[2..];
    assert Sections[2..] == ["skills"] + Sections[3..];
    FilterCons("experience", Sections[1..], keep);
    FilterCons("education", Sections[2..], keep);
    FilterCons("skills", Sections[3..], keep);
  }

  lemma SampleHasExperience()
    ensures Contains(Lower(SampleResume), "experience")
  {
    var h, j, bl, d, tl := Lower(SampleHead), Lower(SampleJob), Lower(SampleBullets), Lower(SampleDegree), Lower(SampleTail);
    SampleLowerParts();
    ContainsSelf("experience");
    ContainsRight(h, "experience", "experience");
    var x := h + "experience";
    ContainsLeft(x, j, "experience");
    ContainsLeft(x + j, "developed", "experience");
    ContainsLeft(x + j + "developed", bl, "experience");
    ContainsLeft(x + j + "developed" + bl, "education", "experience");
    ContainsLeft(x + j + "developed" + bl + "education", d, "experience");
    ContainsLeft(x + j + "developed" + bl + "education" + d, "skills", "experience");
    ContainsLeft(x + j + "developed" + bl + "education" + d + "skills", tl, "experience");
  }

  lemma SampleHasVerb()
    ensures Contains(Lower(SampleResume), "developed")
  {
    var h, j, bl, d, tl := Lower(SampleHead), Lower(SampleJob), Lower(SampleBullets), Lower(SampleDegree), Lower(SampleTail);
    SampleLowerParts();
    ContainsSelf("developed");
    var x := h + "experience" + j;
    ContainsRight(x, "developed", "developed");
    var y := x + "developed";
    ContainsLeft(y, bl, "developed");
    ContainsLeft(y + bl, "education", "developed");
    ContainsLeft(y + bl + "education", d, "developed");
    ContainsLeft(y + bl + "education" + d, "skills", "developed");
    ContainsLeft(y + bl + "education" + d + "skills", tl, "developed");
  }

  lemma SampleHasEducation()
    ensures Contains(Lower(SampleResume), "education")
  {
    var h, j, bl, d, tl := Lower(SampleHead), Lower(SampleJob), Lower(SampleBullets), Lower(SampleDegree), Lower(SampleTail);
    SampleLowerParts();
    ContainsSelf("education");
    var x := h + "experience" + j + "developed" + bl;
    ContainsRight(x, "education", "education");
    var y := x + "education";
    ContainsLeft(y, d, "education");
    ContainsLeft(y + d, "skills", "education");
    ContainsLeft(y + d + "skills", tl, "education");
  }

  lemma SampleHasSkills()
    ensures Contains(Lower(SampleResume), "skills")
  {
    var h, j, bl, d, tl := Lower(SampleHead), Lower(SampleJob), Lower(SampleBullets), Lower(SampleDegree), Lower(SampleTail);
    SampleLowerParts();
    ContainsSelf("skills");
    var x := h + "experience" + j + "developed" + bl + "education" + d;
    ContainsRight(x, "skills", "skills");
    ContainsLeft(x + "skills", tl, "skills");
  }

  /** A text longer than 200 characters with an e-mail address, a phone
      number and all five section names reaches the cap. */
  lemma FullMarksReachCap(t: string)
    requires |t| > 200 && HasEmail(t) && HasPhone(t)
    requires forall s :: s in Sections ==> Contains(Lower(t), s)
    ensures AtsTerms(t) >= MaxAtsScore
    ensures CalculateAtsScore(t) == MaxAtsScore
  {
    AllSectionsFound(Lower(t));
    TermsOfFullMarks(t);
    CapFromTerms(t);
  }

  lemma TermsOfFullMarks(t: string)
    requires |t| > 200 && HasEmail(t) && HasPhone(t) && SectionsFound(Lower(t)) == 5
    ensures AtsTerms(t) >= MaxAtsScore
  {
  }

  /** Terms of 100 or more give exactly the cap. */
  lemma CapFromTerms(t: string)
    requires AtsTerms(t) >= MaxAtsScore
    ensures CalculateAtsScore(t) == MaxAtsScore
  {
  }

  lemma AllSectionsFound(lower: string)
    requires forall s :: s in Sections ==> Contains(lower, s)
    ensures SectionsFound(lower) == 5
  {
    FilterKeepsAll(Sections, s => Contains(lower, s));
  }

  /** A contact line with an e-mail address and a dashed phone number. */
  const CapContact := "a@b.cd 555-123-4567 "

  /** The contact line, the five section names and enough padding to pass
      200 characters. */
  const CapText: string := CapContact + Join(Sections, " ") + seq(200, i => ' ')

  /** The cap is reached: `CapText` earns every term but the verb. */
  lemma CapIsReachable()
    ensures AtsTerms(CapText) >= MaxAtsScore
    ensures CalculateAtsScore(CapText) == MaxAtsScore
  {
    ContactAtFront(CapText);
    CapTextHasSections();
    FullMarksReachCap(CapText);
  }

  /** A text that opens with `CapContact` has an e-mail address and a
      phone number. */
  lemma ContactAtFront(t: string)
    requires CapContact <= t
    ensures HasEmail(t) && HasPhone(t)
  {
    assert forall k :: 0 <= k < |CapContact| ==> t[k] == CapContact[k];
    assert EmailAt(t, 0, 1, 3, 6);
    assert DashedPhoneAt(t, 7);
  }

  lemma SectionsAreLowerCase()
    ensures forall s :: s in Sections ==> IsLowerCase(s)
  {
    assert IsLowerCase(Sections[0]) && IsLowerCase(Sections[1]) && IsLowerCase(Sections[2]);
    assert IsLowerCase(Sections[3]) && IsLowerCase(Sections[4]);
  }

  lemma CapTextHasSections()
    ensures forall s :: s in Sections ==> Contains(Lower(CapText), s)
  {
    var j := Join(Sections, " ");
    var pad: string := seq(200, i => ' ');
    SectionsAreLowerCase();
    JoinIsLowerCase(Sections, " ");
    LowerOfLowerCase(j);
    LowerAppend(CapContact + j, pad);
    LowerAppend(CapContact, j);
    forall s | s in Sections ensures Contains(Lower(CapText), s) {
      var k :| 0 <= k < |Sections| && Sections[k] == s;
      JoinContainsEach(Sections, " ", k);
      ContainsExtend(Lower(CapContact), j, Lower(pad), s);
    }
  }

  /** "short" scores nothing. */
  lemma ShortScoresBelow30()
    ensures CalculateAtsScore("short") < 30
  {
    var t := "short";
    assert Lower(t) == t;
    assert forall k :: 0 <= k < |t| ==> t[k] != '@' && t[k] != '(' && !IsDigit(t[k]);
    assert !HasEmail(t);
    assert !HasPhone(t);
    ShortHasNoVerb();
    ShortHasNoSection();
  }

  lemma ShortHasNoSection()
    ensures SectionPoints("short", Sections) == 0
  {
    var t := "short";
    assert Sections[1..][1..][1..][1..][1..] == [];
    NoMatchWhenLonger(t, "experience", Includes);
    NoMatchWhenLonger(t, "education", Includes);
    NoMatchWhenLonger(t, "skills", Includes);
    NoMatchWhenLonger(t, "summary", Includes);
    NoMatchWhenLonger(t, "objective", Includes);
  }

  lemma ShortHasNoVerb()
    ensures VerbBonus("short", ActionVerbs) == 0
  {
    var t := "short";
    NoMatchWhenLonger(t, "developed", Includes);
    NoMatchWhenLonger(t, "created", Includes);
    NoMatchWhenLonger(t, "implemented", Includes);
    NoMatchWhenLonger(t, "managed", Includes);
    NoMatchWhenLonger(t, "designed", Includes);
    LedNotInShort();
    BuiltNotInShort();
  }

  lemma LedNotInShort()
    ensures !Contains("short", "led")
  {
    forall i: nat | i + 3 <= 5 ensures !SliceAt("short", "led", i) {
      assert "short"[i] != 'l';
    }
  }

  lemma BuiltNotInShort()
    ensures !Contains("short", "built")
  {
    assert !SliceAt("short", "built", 0) by { assert "short"[0] != 'b'; }
  }

  // ---------------------------------------------------------------------
  // escape_html
  // ---------------------------------------------------------------------

  /** `s.replace(c, r)` for a one-character `c`. */
  function ReplaceChar(s: string, c: char, r: string): (out: string)
    ensures c !in s ==> out == s
    ensures |r| > 0 ==> |s| <= |out|
  {
    if |s| == 0 then ""
    else (if s[0] == c then r else [s[0]]) + ReplaceChar(s[1..], c, r)
  }

  /** `escape_html`: nothing for a falsy value, else the five replacements
      in source order, '&' first. */
  function EscapeHtml(text: Option<string>): (out: string)
    ensures text.None? ==> out == ""
    ensures text.Some? ==> out == EscapeAll(text.value)
    ensures forall i :: 0 <= i < |out| ==> !(out[i] in "<>\"'")
  {
    if text.None? || |text.value| == 0 then ""
    else
      EscapeChainIsPerChar(text.value);
      EscapedHasNoMarkup(text.value);
      EscapeChain(text.value)
  }

  function EscapeChain(s: string): (r: string)
    ensures |s| <= |r|
    ensures (forall i :: 0 <= i < |s| ==> !IsSpecial(s[i])) ==> r == s
  {
    ReplaceChar(ReplaceChar(ReplaceChar(ReplaceChar(ReplaceChar(s, '&', "&amp;"), '<', "&lt;"), '>', "&gt;"), '"', "&quot;"), '\'', "&#x27;")
  }

  predicate IsSpecial(c: char) {
    c == '&' || c == '<' || c == '>' || c == '"' || c == '\''
  }

  /** Reference: each character escaped on its own. */
  function EscapeChar(c: char): (r: string)
    ensures |r| > 0 && (r[0] == '&' <==> IsSpecial(c))
    ensures !IsSpecial(c) ==> r == [c]
  {
    match c
    case '&' => "&amp;"
    case '<' => "&lt;"
    case '>' => "&gt;"
    case '"' => "&quot;"
    case '\'' => "&#x27;"
    case _ => [c]
  }

  function EscapeAll(s: string): string {
    if |s| == 0 then "" else EscapeChar(s[0]) + EscapeAll(s[1..])
  }

  lemma {:induction false} ReplaceCharAppend(a: string, b: string, c: char, r: string)
    ensures ReplaceChar(a + b, c, r) == ReplaceChar(a, c, r) + ReplaceChar(b, c, r)
  {
    if |a| == 0 {
      assert a + b == b;
    } else {
      assert (a + b)[1..] == a[1..] + b;
      ReplaceCharAppend(a[1..], b, c, r);
    }
  }

  lemma EscapeChainAppend(a: string, b: string)
    ensures EscapeChain(a + b) == EscapeChain(a) + EscapeChain(b)
  {
    ReplaceCharAppend(a, b, '&', "&amp;");
    var a1 := ReplaceChar(a, '&', "&amp;");
    var b1 := ReplaceChar(b, '&', "&amp;");
    ReplaceCharAppend(a1, b1, '<', "&lt;");
    var a2 := ReplaceChar(a1, '<', "&lt;");
    var b2 := ReplaceChar(b1, '<', "&lt;");
    ReplaceCharAppend(a2, b2, '>', "&gt;");
    var a3 := ReplaceChar(a2, '>', "&gt;");
    var b3 := ReplaceChar(b2, '>', "&gt;");
    ReplaceCharAppend(a3, b3, '"', "&quot;");
    var a4 := ReplaceChar(a3, '"', "&quot;");
    var b4 := ReplaceChar(b3, '"', "&quot;");
    ReplaceCharAppend(a4, b4, '\'', "&#x27;");
  }

  /** On one character the chain of replacements is the per-character
      escape: no entity written by an earlier step holds a character a
      later step replaces. */
  lemma EscapeChainChar(c: char)
    ensures EscapeChain([c]) == EscapeChar(c)
  {
    ReplaceCharOne(c, '&', "&amp;");
    if c == '&' {
      EntityUntouched("&amp;");
    } else {
      ReplaceCharOne(c, '<', "&lt;");
      if c == '<' {
        EntityUntouched("&lt;");
      } else {
        ReplaceCharOne(c, '>', "&gt;");
        if c == '>' {
          EntityUntouched("&gt;");
        } else {
          ReplaceCharOne(c, '"', "&quot;");
          ReplaceCharOne(c, '\'', "&#x27;");
          if c == '"' {
            assert '\'' !in "&quot;";
          }
        }
      }
    }
  }

  lemma ReplaceCharOne(x: char, c: char, r: string)
    ensures ReplaceChar([x], c, r) == if x == c then r else [x]
  {
    assert [x][1..] == [];
  }

  /** The entities hold none of `< > " '`. */
  lemma EntityUntouched(e: string)
    requires e == "&amp;" || e == "&lt;" || e == "&gt;"
    ensures ReplaceChar(e, '<', "&lt;") == e
    ensures ReplaceChar(e, '>', "&gt;") == e
    ensures ReplaceChar(e, '"', "&quot;") == e
    ensures ReplaceChar(e, '\'', "&#x27;") == e
  {
    assert forall i :: 0 <= i < |e| ==> !(e[i] in "<>\"'");
    assert '<' !in e && '>' !in e && '"' !in e && '\'' !in e;
  }

  /** The chained replacements equal the one-pass escape. */
  lemma {:induction false} EscapeChainIsPerChar(s: string)
    ensures EscapeChain(s) == EscapeAll(s)
  {
    if |s| > 0 {
      assert s == [s[0]] + s[1..];
      EscapeChainAppend([s[0]], s[1..]);
      EscapeChainChar(s[0]);
      EscapeChainIsPerChar(s[1..]);
    }
  }

  /** The output holds none of `< > " '`. */
  lemma {:induction false} EscapedHasNoMarkup(s: string)
    ensures forall i :: 0 <= i < |EscapeAll(s)| ==> !(EscapeAll(s)[i] in "<>\"'")
  {
    if |s| > 0 {
      EscapedHasNoMarkup(s[1..]);
      var e := EscapeChar(s[0]);
      assert forall i :: 0 <= i < |e| ==> !(e[i] in "<>\"'");
    }
  }

  const Entities: seq<string> := ["&amp;", "&lt;", "&gt;", "&quot;", "&#x27;"]

  /** Every '&' in the output starts one of the five entities. */
  lemma {:induction false} AmpersandStartsEntity(s: string, i: nat)
    requires i < |EscapeAll(s)| && EscapeAll(s)[i] == '&'
    ensures exists e :: e in Entities && SliceAt(EscapeAll(s), e, i)
  {
    var e := EscapeChar(s[0]);
    var rest := EscapeAll(s[1..]);
    assert EscapeAll(s) == e + rest;
    EscapeCharShape(s[0]);
    if i < |e| {
      assert i == 0;
      SliceAtFront(e, rest);
    } else {
      AmpersandStartsEntity(s[1..], i - |e|);
      var x :| x in Entities && SliceAt(rest, x, i - |e|);
      SliceAtShift(e, rest, x, i - |e|);
    }
  }

  lemma SliceAtFront(e: string, rest: string)
    ensures SliceAt(e + rest, e, 0)
  {
    assert (e + rest)[..|e|] == e;
  }

  lemma SliceAtShift(e: string, rest: string, x: string, j: nat)
    requires SliceAt(rest, x, j)
    ensures SliceAt(e + rest, x, |e| + j)
  {
    assert (e + rest)[|e| + j..|e| + j + |x|] == rest[j..j + |x|];
  }

  /** An escaped character holds '&' only in front, and only as an entity. */
  lemma EscapeCharShape(c: char)
    ensures forall k :: 0 < k < |EscapeChar(c)| ==> EscapeChar(c)[k] != '&'
    ensures EscapeChar(c)[0] == '&' ==> EscapeChar(c) in Entities
  {
    if IsSpecial(c) {
      var e := EscapeChar(c);
      assert e in Entities;
      assert forall k :: 0 < k < |e| ==> e[k] != '&';
    }
  }

  /** A text with none of the five special characters is returned as is. */
  lemma {:induction false} PlainTextUnchanged(s: string)
    requires forall i :: 0 <= i < |s| ==> !IsSpecial(s[i])
    ensures EscapeHtml(Some(s)) == s
  {
    EscapeChainIsPerChar(s);
    PlainEscapeAll(s);
  }

  lemma {:induction false} PlainEscapeAll(s: string)
    requires forall i :: 0 <= i < |s| ==> !IsSpecial(s[i])
    ensures EscapeAll(s) == s
  {
    if |s| > 0 {
      PlainEscapeAll(s[1..]);
      assert s == [s[0]] + s[1..];
    }
  }

  /** Reading the entities back. */
  function Unescape(s: string): string
    decreases |s|
  {
    if |s| == 0 then ""
    else if s[0] == '&' && "&amp;" <= s then "&" + Unescape(s[5..])
    else if s[0] == '&' && "&lt;" <= s then "<" + Unescape(s[4..])
    else if s[0] == '&' && "&gt;" <= s then ">" + Unescape(s[4..])
    else if s[0] == '&' && "&quot;" <= s then "\"" + Unescape(s[6..])
    else if s[0] == '&' && "&#x27;" <= s then "'" + Unescape(s[6..])
    else [s[0]] + Unescape(s[1..])
  }

  /** Escaping loses nothing: reading the entities back gives the text. */
  lemma {:induction false} UnescapeEscape(s: string)
    ensures Unescape(EscapeAll(s)) == s
  {
    if |s| > 0 {
      UnescapeEscape(s[1..]);
      UnescapeStep(s[0], EscapeAll(s[1..]));
      assert s == [s[0]] + s[1..];
    }
  }

  lemma UnescapeStep(c: char, rest: string)
    ensures Unescape(EscapeChar(c) + rest) == [c] + Unescape(rest)
  {
    var t := EscapeChar(c) + rest;
    var e := EscapeChar(c);
    assert t[..|e|] == e;
    assert t[|e|..] == rest;
    if c == '&' {
      assert "&amp;" <= t;
    } else if c == '<' {
      assert !("&amp;" <= t) by { assert t[1] != "&amp;"[1]; }
      assert "&lt;" <= t;
    } else if c == '>' {
      assert !("&amp;" <= t) by { assert t[1] != "&amp;"[1]; }
      assert !("&lt;" <= t) by { assert t[1] != "&lt;"[1]; }
      assert "&gt;" <= t;
    } else if c == '"' {
      assert !("&amp;" <= t) by { assert t[1] != "&amp;"[1]; }
      assert !("&lt;" <= t) by { assert t[1] != "&lt;"[1]; }
      assert !("&gt;" <= t) by { assert t[1] != "&gt;"[1]; }
      assert "&quot;" <= t;
    } else if c == '\'' {
      assert !("&amp;" <= t) by { assert t[1] != "&amp;"[1]; }
      assert !("&lt;" <= t) by { assert t[1] != "&lt;"[1]; }
      assert !("&gt;" <= t) by { assert t[1] != "&gt;"[1]; }
      assert !("&quot;" <= t) by { assert t[1] != "&quot;"[1]; }
      assert "&#x27;" <= t;
    }
  }
}
