/** `resumeAnalysis.ts`: runs every analysis over one text, builds the
    improvement tips, and computes the skills gap when a job target is
    given. */
module ResumeAnalysis {
  import opened Wrappers
  import opened Seqs
  import opened Text
  import KeywordExtractor
  import ProjectExtractor
  import Scoring
  import SummaryGenerator
  import JobCompare

  // ---------------------------------------------------------------------
  // buildSuggestions
  // ---------------------------------------------------------------------

  /** The five tips, in the order they are considered. */
  datatype Tip = SummaryTip | SkillsTip | ProjectsTip | ExperienceTip | WordingTip

  const TipOrder: seq<Tip> := [SummaryTip, SkillsTip, ProjectsTip, ExperienceTip, WordingTip]

  function TipText(tip: Tip): string {
    match tip
    case SummaryTip => "Add a brief professional summary at the top (2 lines)."
    case SkillsTip => "List at least 5-8 key skills relevant to your target role."
    case ProjectsTip => "Add 1-2 impact-focused projects with metrics and tech stack."
    case ExperienceTip => "Include a Work Experience section with action verbs and results."
    case WordingTip => "Tighten wording: use active voice and quantify outcomes (e.g., increased X%...)."
  }

  /** `/\bexperience|work experience\b/i`: the alternation splits into a
      word-initial "experience" or a word-final "work experience". */
  function MentionsExperience(text: string): (b: bool)
    ensures b ==> 10 <= |text|
  {
    Matches(text, "experience", WordStart) || Matches(text, "work experience", WordEnd)
  }

  /** Reference table: when each tip is due. */
  predicate Applies(tip: Tip, text: string, skills: seq<string>, projects: seq<string>, rating: int) {
    match tip
    case SummaryTip => !Matches(text, "summary", WholeWord)
    case SkillsTip => |skills| < 5
    case ProjectsTip => |projects| == 0
    case ExperienceTip => !MentionsExperience(text)
    case WordingTip => rating < 7
  }

  /** A numbered tip; its wording is `TipText(tip)`. */
  datatype Suggestion = Suggestion(id: nat, tip: Tip) {
    function Text(): string { TipText(tip) }
  }

  /** `out.push({ id: id++, text })` when `due`: the id counts the tips
      pushed so far, starting at 1. */
  function Push(out: seq<Suggestion>, due: bool, tip: Tip): seq<Suggestion> {
    if due then out + [Suggestion(|out| + 1, tip)] else out
  }

  /** The tips of `tips` that are due, in their order. */
  function DueAmong(tips: seq<Tip>, text: string, skills: seq<string>, projects: seq<string>, rating: int): (due: seq<Tip>)
    ensures IsSubsequence(due, tips)
    ensures forall tip :: tip in due <==> tip in tips && Applies(tip, text, skills, projects, rating)
  {
    if |tips| == 0 then []
    else
      var prefix := tips[..|tips| - 1];
      var last := tips[|tips| - 1];
      var due := DueAmong(prefix, text, skills, projects, rating);
      var step := Only(Applies(last, text, skills, projects, rating), last);
      assert tips == prefix + [last];
      assert step == [] ==> due + step == due;
      SubsequenceExtend(due, prefix, last);
      SubsequenceSnoc(due, prefix, last);
      due + step
  }

  /** The tips that are due, in the fixed order. */
  function DueTips(text: string, skills: seq<string>, projects: seq<string>, rating: int): seq<Tip> {
    DueAmong(TipOrder, text, skills, projects, rating)
  }

  /** `tips` numbered 1, 2, ... */
  function Numbered(tips: seq<Tip>): (out: seq<Suggestion>)
    ensures |out| == |tips|
    ensures forall i :: 0 <= i < |out| ==> out[i] == Suggestion(i + 1, tips[i])
  {
    seq(|tips|, i requires 0 <= i < |tips| => Suggestion(i + 1, tips[i]))
  }

  function Only(due: bool, tip: Tip): seq<Tip> {
    if due then [tip] else []
  }

  /** Pushing keeps the list numbered from 1. */
  lemma PushNumbered(tips: seq<Tip>, due: bool, tip: Tip)
    ensures Push(Numbered(tips), due, tip) == Numbered(tips + Only(due, tip))
  {
  }

  /** `buildSuggestions`: exactly the due tips, in the fixed order, numbered
      1, 2, ... */
  function BuildSuggestions(text: string, skills: seq<string>, projects: seq<string>, rating: int): (out: seq<Suggestion>)
    ensures |out| == |DueTips(text, skills, projects, rating)|
    ensures forall i :: 0 <= i < |out| ==>
              out[i] == Suggestion(i + 1, DueTips(text, skills, projects, rating)[i])
  {
    var c1 := !Matches(text, "summary", WholeWord);
    var c2 := |skills| < 5;
    var c3 := |projects| == 0;
    var c4 := !MentionsExperience(text);
    var c5 := rating < 7;
    var out := Push(Push(Push(Push(Push([], c1, SummaryTip), c2, SkillsTip), c3, ProjectsTip), c4, ExperienceTip), c5, WordingTip);
    PushChain(c1, c2, c3, c4, c5);
    DueTipsUnfold(text, skills, projects, rating);
    AppliesUnfold(text, skills, projects, rating);
    out
  }

  lemma AppliesUnfold(text: string, skills: seq<string>, projects: seq<string>, rating: int)
    ensures Applies(SummaryTip, text, skills, projects, rating) == !Matches(text, "summary", WholeWord)
    ensures Applies(SkillsTip, text, skills, projects, rating) == (|skills| < 5)
    ensures Applies(ProjectsTip, text, skills, projects, rating) == (|projects| == 0)
    ensures Applies(ExperienceTip, text, skills, projects, rating) == !MentionsExperience(text)
    ensures Applies(WordingTip, text, skills, projects, rating) == (rating < 7)
  {
  }

  /** Five pushes number the pushed tips 1, 2, ... */
  lemma PushChain(c1: bool, c2: bool, c3: bool, c4: bool, c5: bool)
    ensures Push(Push(Push(Push(Push([], c1, SummaryTip), c2, SkillsTip), c3, ProjectsTip), c4, ExperienceTip), c5, WordingTip)
         == Numbered([] + Only(c1, SummaryTip) + Only(c2, SkillsTip) + Only(c3, ProjectsTip) + Only(c4, ExperienceTip) + Only(c5, WordingTip))
  {
    assert Numbered([]) == [];
    PushNumbered([], c1, SummaryTip);
    var t1 := [] + Only(c1, SummaryTip);
    PushNumbered(t1, c2, SkillsTip);
    var t2 := t1 + Only(c2, SkillsTip);
    PushNumbered(t2, c3, ProjectsTip);
    var t3 := t2 + Only(c3, ProjectsTip);
    PushNumbered(t3, c4, ExperienceTip);
    var t4 := t3 + Only(c4, ExperienceTip);
    PushNumbered(t4, c5, WordingTip);
  }

  /** `DueTips` written out tip by tip. */
  lemma DueTipsUnfold(text: string, skills: seq<string>, projects: seq<string>, rating: int)
    ensures DueTips(text, skills, projects, rating)
         == [] + Only(Applies(SummaryTip, text, skills, projects, rating), SummaryTip)
          + Only(Applies(SkillsTip, text, skills, projects, rating), SkillsTip)
          + Only(Applies(ProjectsTip, text, skills, projects, rating), ProjectsTip)
          + Only(Applies(ExperienceTip, text, skills, projects, rating), ExperienceTip)
          + Only(Applies(WordingTip, text, skills, projects, rating), WordingTip)
  {
    var p0: seq<Tip> := [];
    var p1 := p0 + [SummaryTip];
    var p2 := p1 + [SkillsTip];
    var p3 := p2 + [ProjectsTip];
    var p4 := p3 + [ExperienceTip];
    assert p4 + [WordingTip] == TipOrder;
    DueAmongSnoc(p0, SummaryTip, text, skills, projects, rating);
    DueAmongSnoc(p1, SkillsTip, text, skills, projects, rating);
    DueAmongSnoc(p2, ProjectsTip, text, skills, projects, rating);
    DueAmongSnoc(p3, ExperienceTip, text, skills, projects, rating);
    DueAmongSnoc(p4, WordingTip, text, skills, projects, rating);
  }

  lemma DueAmongSnoc(tips: seq<Tip>, tip: Tip, text: string, skills: seq<string>, projects: seq<string>, rating: int)
    ensures DueAmong(tips + [tip], text, skills, projects, rating)
         == DueAmong(tips, text, skills, projects, rating) + Only(Applies(tip, text, skills, projects, rating), tip)
  {
    assert (tips + [tip])[..|tips|] == tips;
  }

  /** A tip is in the list exactly when its condition holds. */
  lemma SuggestionIffCondition(text: string, skills: seq<string>, projects: seq<string>, rating: int, tip: Tip)
    ensures (exists i :: 0 <= i < |BuildSuggestions(text, skills, projects, rating)|
                         && BuildSuggestions(text, skills, projects, rating)[i].tip == tip)
            <==> Applies(tip, text, skills, projects, rating)
  {
    var out := BuildSuggestions(text, skills, projects, rating);
    var due := DueTips(text, skills, projects, rating);
    if Applies(tip, text, skills, projects, rating) {
      assert tip in TipOrder;
      var i := IndexOf(due, tip);
      assert out[i].tip == tip;
    } else {
      forall i | 0 <= i < |out| ensures out[i].tip != tip {
        assert due[i] in due;
      }
    }
  }

  /** Tips keep the fixed order: a tip earlier in `TipOrder` is listed
      before a later one. */
  lemma TipsInFixedOrder(text: string, skills: seq<string>, projects: seq<string>, rating: int)
    ensures IsSubsequence(DueTips(text, skills, projects, rating), TipOrder)
    ensures |BuildSuggestions(text, skills, projects, rating)| <= 5
  {
    DueTipsUnfold(text, skills, projects, rating);
  }

  /** The second alternative adds nothing: "work experience" ending a word
      always holds a word-initial "experience". */
  lemma WorkExperienceImpliesExperience(text: string)
    requires Matches(text, "work experience", WordEnd)
    ensures Matches(text, "experience", WordStart)
  {
    var i: nat :| MatchAt(text, "work experience", i, WordEnd);
    var w := "work experience";
    var e := "experience";
    SameAtSuffix(text, w, i, 5, true);
    assert w[5..] == e;
    assert CharMatches(text[i + 4], w[4], true);
    assert CharMatches(text[i + 5], w[5], true);
    assert MatchAt(text, e, i + 5, WordStart);
  }

  /** The experience tip is suppressed by any word starting with
      "experience", such as "Experienced". */
  lemma ExperiencedCounts()
    ensures MentionsExperience("Experienced")
  {
    assert MatchAt("Experienced", "experience", 0, WordStart);
  }

  /** The summary tip needs the whole word: "Summary" suppresses it,
      "summaryless" does not. */
  lemma SummaryIsAWholeWord()
    ensures Matches("Summary", "summary", WholeWord)
    ensures !Matches("summaryless", "summary", WholeWord)
  {
    assert MatchAt("Summary", "summary", 0, WholeWord);
    var t := "summaryless";
    forall i: nat | i + 7 <= |t| ensures !MatchAt(t, "summary", i, WholeWord) {
      if i == 0 {
        assert !WordBoundary(t, 7);
      } else {
        assert !CharMatches(t[i + 0], "summary"[0], true);
      }
    }
  }

  // ---------------------------------------------------------------------
  // analyzeText
  // ---------------------------------------------------------------------

  /** `AnalyzeOptions`: both fields optional. */
  datatype AnalyzeOptions = AnalyzeOptions(jobTitle: Option<string>, jobSkills: Option<seq<string>>)

  datatype Highlights = Highlights(skills: seq<string>, projects: seq<string>, keywords: seq<string>)

  datatype Analysis = Analysis(
    highlights: Highlights,
    rating: int,
    summary: string,
    suggestions: seq<Suggestion>,
    skillsGap: seq<string>,
    jobTitle: Option<string>)

  /** JavaScript truthiness of an optional string: present and non-empty. */
  predicate Truthy(s: Option<string>) {
    s.Some? && |s.value| > 0
  }

  /** `options.jobTitle || (options.jobSkills && options.jobSkills.length)` */
  predicate HasJobTarget(options: AnalyzeOptions) {
    Truthy(options.jobTitle) || (options.jobSkills.Some? && |options.jobSkills.value| > 0)
  }

  /** `analyzeText`: the highlights, rating and summary come from the
      component analyses of the same text; the skills gap is the job's
      skills the extracted skills lack, and empty without a job target; the
      job title is echoed only when non-empty. */
  function AnalyzeText(text: string, options: AnalyzeOptions): (a: Analysis)
    ensures a.highlights.skills == KeywordExtractor.ExtractSkills(text)
    ensures a.highlights.projects == ProjectExtractor.ExtractProjects(text)
    ensures a.highlights.keywords == KeywordExtractor.ExtractKeywords(text)
    ensures a.rating == Scoring.ScoreResume(text) && 0 <= a.rating <= 10
    ensures a.summary == SummaryGenerator.GenerateSummary(text, a.highlights.skills, a.highlights.projects)
    ensures a.suggestions == BuildSuggestions(text, a.highlights.skills, a.highlights.projects, a.rating)
    ensures IsSubsequence(a.skillsGap, options.jobSkills.GetOr([]))
    ensures forall s :: s in a.skillsGap <==>
              HasJobTarget(options) && s in options.jobSkills.GetOr([]) && s !in a.highlights.skills
    ensures a.jobTitle == (if Truthy(options.jobTitle) then options.jobTitle else None)
  {
    var keywords := KeywordExtractor.ExtractKeywords(text);
    var skills := KeywordExtractor.ExtractSkills(text);
    var projects := ProjectExtractor.ExtractProjects(text);
    var rating := Scoring.ScoreResume(text);
    var summary := SummaryGenerator.GenerateSummary(text, skills, projects);
    var suggestions := BuildSuggestions(text, skills, projects, rating);
    var skillsGap :=
      if HasJobTarget(options) then
        var title := if Truthy(options.jobTitle) then options.jobTitle.value else "Target Role";
        var job := JobCompare.Job(title, options.jobSkills.GetOr([]));
        JobCompare.CompareResumeToJob(JobCompare.Resume(skills), job)
      else [];
    Analysis(
      Highlights(skills, projects, keywords),
      rating,
      summary,
      suggestions,
      skillsGap,
      if Truthy(options.jobTitle) then options.jobTitle else None)
  }

  /** The gap is exactly the job comparison of the extracted skills, and
      a title without skills still gives an empty gap. */
  lemma GapIsComparison(text: string, options: AnalyzeOptions)
    ensures HasJobTarget(options) ==>
              AnalyzeText(text, options).skillsGap
              == JobCompare.CompareResumeToJob(
                   JobCompare.Resume(KeywordExtractor.ExtractSkills(text)),
                   JobCompare.Job("", options.jobSkills.GetOr([])))
    ensures options.jobSkills.None? ==> AnalyzeText(text, options).skillsGap == []
  {
  }

  // ---------------------------------------------------------------------
  // The one-character text
  // ---------------------------------------------------------------------

  /** "x" earns nothing: rating 0, no skills, no projects, and all five
      tips. */
  lemma SingleLetterGetsEveryTip()
    ensures AnalyzeText("x", AnalyzeOptions(None, None)).rating == 0
    ensures AnalyzeText("x", AnalyzeOptions(None, None)).highlights.skills == []
    ensures AnalyzeText("x", AnalyzeOptions(None, None)).highlights.projects == []
    ensures |AnalyzeText("x", AnalyzeOptions(None, None)).suggestions| == 5
  {
    var t := "x";
    assert Scoring.ScoreResume(t) == 0 by {
      NoMatchWhenLonger(t, "skills", Includes);
      NoMatchWhenLonger(t, "projects", Includes);
      NoMatchWhenLonger(t, "experience", Includes);
    }
    NoSkillsInX();
    NoProjectsInX();
    NoMatchWhenLonger(t, "summary", WholeWord);
    NoMatchWhenLonger(t, "experience", WordStart);
    NoMatchWhenLonger(t, "work experience", WordEnd);
    DueTipsUnfold(t, [], [], 0);
  }

  lemma NoSkillsInX()
    ensures KeywordExtractor.ExtractSkills("x") == []
  {
    var r := KeywordExtractor.ExtractSkills("x");
    NothingMentionedInX();
    NoMembersIsEmpty(r);
  }

  lemma NothingMentionedInX()
    ensures forall d :: d in KeywordExtractor.SkillDictionary ==> !KeywordExtractor.SkillMentioned("x", d)
  {
    KeywordExtractor.EntriesAreLong();
    NoEntryInX(KeywordExtractor.SkillDictionary);
  }

  /** A list whose only short entry can be "r" has no entry in "x". */
  lemma NoEntryInX(dict: seq<string>)
    requires KeywordExtractor.OnlyRIsShort(dict)
    ensures forall d :: d in dict ==> !KeywordExtractor.SkillMentioned("x", d)
  {
    assert Lower("x") == "x";
    RIsNotInX();
    forall d | d in dict && |d| > 1 ensures !KeywordExtractor.SkillMentioned("x", d) {
      NoMatchWhenLonger("x", d, LetterDelimited);
    }
  }

  lemma RIsNotInX()
    ensures !KeywordExtractor.SkillMentioned("x", "r")
  {
    assert Lower("x") == "x";
    forall i: nat | i + 1 <= 1 ensures !MatchAt("x", "r", i, LetterDelimited) {
      assert !CharMatches("x"[i + 0], "r"[0], true);
    }
  }

  lemma NoProjectsInX()
    ensures ProjectExtractor.ExtractProjects("x") == []
  {
    OneLetterHasNoProjects("x");
  }

  /** A one-letter text is neither a header nor a bullet. */
  lemma OneLetterHasNoProjects(t: string)
    requires |t| == 1 && IsLower(t[0])
    ensures ProjectExtractor.ExtractProjects(t) == []
  {
    ProjectExtractor.OneLine(t);
    TrimUntouched(t);
    assert ProjectExtractor.MarkerLength(t) == 0;
    assert !ProjectExtractor.IsProjectsHeader(t);
    assert ProjectExtractor.ScanLine(false, t).item.None?;
    ProjectExtractor.QuietLine(t, false);
    assert ProjectExtractor.Found(t) == [];
  }
}
