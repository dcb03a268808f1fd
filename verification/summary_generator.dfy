/** `summaryGenerator.ts`: a role lead chosen by the first matching rule,
    a sentence naming up to five skills, an optional sentence naming up to
    two projects, cut to 300 characters. */
module SummaryGenerator {
  import opened Seqs
  import opened Text

  const MaxSummary: nat := 300
  const MaxSkills: nat := 5
  const MaxProjects: nat := 2

  /** The leads `inferTitleOrRole` can return, in the order its rules are
      tried; `Generalist` is the fallback. */
  datatype Role = DataFocused | Frontend | Backend | FullStack | DevOps | Generalist

  function Priority(role: Role): nat {
    match role
    case DataFocused => 0
    case Frontend => 1
    case Backend => 2
    case FullStack => 3
    case DevOps => 4
    case Generalist => 5
  }

  function Lead(role: Role): string {
    match role
    case DataFocused => "Data-focused professional"
    case Frontend => "Frontend engineer"
    case Backend => "Backend engineer"
    case FullStack => "Full\U{2011}stack engineer"  // U+2011 NON-BREAKING HYPHEN
    case DevOps => "DevOps/Cloud engineer"
    case Generalist => "Results-driven professional"
  }

  /** The alternatives of each rule's `\b(...)\b` pattern; `full[- ]?stack`
      is spelled out as its three forms. */
  function Alternatives(role: Role): seq<string> {
    match role
    case DataFocused => ["data scientist", "machine learning engineer"]
    case Frontend => ["frontend", "react", "ui"]
    case Backend => ["backend", "node", "api", "microservices"]
    case FullStack => ["full-stack", "full stack", "fullstack"]
    case DevOps => ["devops", "cloud", "sre"]
    case Generalist => []
  }

  /** The rule of `role` matches: one of its alternatives occurs as a whole
      word, ignoring ASCII case. */
  function Fires(text: string, role: Role): (b: bool)
    ensures b ==> role != Generalist && 2 <= |text|
  {
    exists w :: w in Alternatives(role) && Matches(text, w, WholeWord)
  }

  /** `inferTitleOrRole`: the first rule that fires, in priority order. */
  function InferRole(text: string): (role: Role)
    ensures role != Generalist ==> Fires(text, role)
    ensures forall q :: Priority(q) < Priority(role) ==> !Fires(text, q)
  {
    if Fires(text, DataFocused) then DataFocused
    else if Fires(text, Frontend) then Frontend
    else if Fires(text, Backend) then Backend
    else if Fires(text, FullStack) then FullStack
    else if Fires(text, DevOps) then DevOps
    else Generalist
  }

  /** A text whose rule for `role` fires, and no earlier one, gets `role`,
      whatever later rules would say. */
  lemma FirstFiringRuleWins(text: string, role: Role)
    requires role != Generalist && Fires(text, role)
    requires forall q :: Priority(q) < Priority(role) ==> !Fires(text, q)
    ensures InferRole(text) == role
  {
    var r := InferRole(text);
    assert Priority(r) < Priority(role) ==> !Fires(text, r);
    assert Priority(role) < Priority(r) ==> !Fires(text, role);
  }

  /** No lead is a prefix of another, so a summary starts with exactly one
      of them. */
  lemma LeadsArePrefixFree(p: Role, q: Role)
    requires p != q
    ensures !(Lead(p) <= Lead(q))
  {
    assert Lead(p)[0] != Lead(q)[0] || Lead(p)[1] != Lead(q)[1];
  }

  const NoSkills := "core problem-solving and collaboration"
  const BuiltTail := " leveraging impact and measurable outcomes."

  /** The first sentence: the lead and the first five skills. */
  function LeadSentence(text: string, skills: seq<string>): string {
    var top := Take(skills, MaxSkills);
    Lead(InferRole(text)) + " with strengths in " + (if |top| > 0 then Join(top, ", ") else NoSkills) + "."
  }

  /** The second sentence: the first two projects. */
  function BuiltSentence(projects: seq<string>): string {
    "Built " + Join(Take(projects, MaxProjects), "; ") + BuiltTail
  }

  /** The summary before the cut: `parts.join(' ')`. */
  function FullSummary(text: string, skills: seq<string>, projects: seq<string>): string {
    var parts := [LeadSentence(text, skills)] + (if |projects| > 0 then [BuiltSentence(projects)] else []);
    Join(parts, " ")
  }

  /** `generateSummary`: the full summary cut to 300 characters. It always
      starts with the lead of the inferred role, and is long enough to be
      more than a stub. */
  function GenerateSummary(text: string, skills: seq<string>, projects: seq<string>): (summary: string)
    ensures |summary| <= MaxSummary
    ensures |summary| > 10
    ensures summary <= FullSummary(text, skills, projects)
    ensures |FullSummary(text, skills, projects)| <= MaxSummary ==> summary == FullSummary(text, skills, projects)
    ensures |FullSummary(text, skills, projects)| > MaxSummary ==> |summary| == MaxSummary
    ensures Lead(InferRole(text)) <= summary
  {
    var full := FullSummary(text, skills, projects);
    LeadStartsSummary(text, skills, projects);
    Take(full, MaxSummary)
  }

  lemma LeadStartsSummary(text: string, skills: seq<string>, projects: seq<string>)
    ensures Lead(InferRole(text)) <= FullSummary(text, skills, projects)
    ensures 16 <= |Lead(InferRole(text))| <= 27
  {
    var lead := Lead(InferRole(text));
    var first := LeadSentence(text, skills);
    var full := FullSummary(text, skills, projects);
    LeadLength(InferRole(text));
    LeadSentenceStartsSummary(text, skills, projects);
    assert first[..|lead|] == lead;
    assert full[..|lead|] == first[..|lead|];
  }

  lemma LeadLength(role: Role)
    ensures 16 <= |Lead(role)| <= 27
  {
  }

  /** The summary begins with the lead of the inferred role and with no
      other lead. */
  lemma ExactlyOneLead(text: string, skills: seq<string>, projects: seq<string>, q: Role)
    ensures Lead(q) <= GenerateSummary(text, skills, projects) <==> q == InferRole(text)
  {
    var s := GenerateSummary(text, skills, projects);
    var r := InferRole(text);
    if q != r && Lead(q) <= s {
      assert Lead(r) <= s;
      if |Lead(q)| <= |Lead(r)| {
        assert Lead(q) <= Lead(r);
        LeadsArePrefixFree(q, r);
      } else {
        assert Lead(r) <= Lead(q);
        LeadsArePrefixFree(r, q);
      }
    }
  }

  /** Only the first five skills and the first two projects matter. */
  lemma OnlyLeadingEntriesMatter(text: string, s1: seq<string>, s2: seq<string>, p1: seq<string>, p2: seq<string>)
    requires Take(s1, MaxSkills) == Take(s2, MaxSkills)
    requires Take(p1, MaxProjects) == Take(p2, MaxProjects)
    ensures GenerateSummary(text, s1, p1) == GenerateSummary(text, s2, p2)
  {
    assert |p1| > 0 <==> |p2| > 0;
  }

  /** With skills, each of the first five is named in the full summary;
      without, the stock phrase is used. */
  lemma SkillsNamed(text: string, skills: seq<string>, projects: seq<string>, k: nat)
    requires k < |skills| && k < MaxSkills
    ensures Occurs(FullSummary(text, skills, projects), skills[k])
  {
    var top := Take(skills, MaxSkills);
    var first := LeadSentence(text, skills);
    assert top[k] == skills[k];
    JoinContainsEach(top, ", ", k);
    var pre := Lead(InferRole(text)) + " with strengths in ";
    assert first == pre + Join(top, ", ") + ".";
    assert SliceAt(first, Join(top, ", "), |pre|);
    OccursInOccurs(first, Join(top, ", "), skills[k]);
    LeadSentenceStartsSummary(text, skills, projects);
    OccursInOccurs(FullSummary(text, skills, projects), first, skills[k]);
  }

  lemma NoSkillsPhrase(text: string, projects: seq<string>)
    ensures Occurs(FullSummary(text, [], projects), NoSkills)
  {
    var first := LeadSentence(text, []);
    var pre := Lead(InferRole(text)) + " with strengths in ";
    assert first == pre + NoSkills + ".";
    assert SliceAt(first, NoSkills, |pre|);
    LeadSentenceStartsSummary(text, [], projects);
    OccursInOccurs(FullSummary(text, [], projects), first, NoSkills);
  }

  lemma LeadSentenceStartsSummary(text: string, skills: seq<string>, projects: seq<string>)
    ensures SliceAt(FullSummary(text, skills, projects), LeadSentence(text, skills), 0)
  {
    var first := LeadSentence(text, skills);
    var rest := if |projects| > 0 then [BuiltSentence(projects)] else [];
    JoinCons(first, rest, " ");
  }

  /** The second sentence is there exactly when there is a project: with
      none the summary is the lead sentence alone, and with some it follows
      the lead sentence after one space. */
  lemma BuiltSentenceIffProjects(text: string, skills: seq<string>, projects: seq<string>)
    ensures |projects| == 0 ==> FullSummary(text, skills, projects) == LeadSentence(text, skills)
    ensures |projects| > 0 ==>
              FullSummary(text, skills, projects) == LeadSentence(text, skills) + " " + BuiltSentence(projects)
  {
    var first := LeadSentence(text, skills);
    var rest := if |projects| > 0 then [BuiltSentence(projects)] else [];
    JoinCons(first, rest, " ");
  }

  /** With projects, each of the first two is named in the full summary. */
  lemma ProjectsNamed(text: string, skills: seq<string>, projects: seq<string>, k: nat)
    requires k < |projects| && k < MaxProjects
    ensures Occurs(FullSummary(text, skills, projects), projects[k])
  {
    var top := Take(projects, MaxProjects);
    assert top[k] == projects[k];
    JoinContainsEach(top, "; ", k);
    var built := BuiltSentence(projects);
    assert built == "Built " + Join(top, "; ") + BuiltTail;
    assert SliceAt(built, Join(top, "; "), 6);
    OccursInOccurs(built, Join(top, "; "), projects[k]);
    BuiltSentenceIffProjects(text, skills, projects);
    var full := FullSummary(text, skills, projects);
    var pre := LeadSentence(text, skills) + " ";
    assert full == pre + built;
    assert SliceAt(full, built, |pre|);
    OccursInOccurs(full, built, projects[k]);
  }

  /** Whole-word matching: "ui" inside "build" selects no rule. */
  lemma UiInsideBuildIsNotFrontend()
    ensures InferRole("build") == Generalist
  {
    var t := "build";
    assert !Fires(t, DataFocused) by {
      NoMatchWhenLonger(t, "data scientist", WholeWord);
      NoMatchWhenLonger(t, "machine learning engineer", WholeWord);
    }
    BuildMissesFrontend();
    BuildMissesBackend();
    assert !Fires(t, FullStack) by {
      NoMatchWhenLonger(t, "full-stack", WholeWord);
      NoMatchWhenLonger(t, "full stack", WholeWord);
      NoMatchWhenLonger(t, "fullstack", WholeWord);
    }
    BuildMissesDevOps();
  }

  lemma BuildMissesFrontend()
    ensures !Fires("build", Frontend)
  {
    var t := "build";
    NoMatchWhenLonger(t, "frontend", WholeWord);
    forall i: nat | i + 5 <= |t| ensures !MatchAt(t, "react", i, WholeWord) {
      assert !CharMatches(t[i + 0], "react"[0], true);
    }
    forall i: nat | i + 2 <= |t| ensures !MatchAt(t, "ui", i, WholeWord) {
      if i == 1 {
        assert !WordBoundary(t, 1);
      } else {
        assert !CharMatches(t[i + 0], "ui"[0], true);
      }
    }
  }

  lemma BuildMissesBackend()
    ensures !Fires("build", Backend)
  {
    var t := "build";
    NoMatchWhenLonger(t, "backend", WholeWord);
    NoMatchWhenLonger(t, "microservices", WholeWord);
    forall i: nat | i + 4 <= |t| ensures !MatchAt(t, "node", i, WholeWord) {
      assert !CharMatches(t[i + 0], "node"[0], true);
    }
    forall i: nat | i + 3 <= |t| ensures !MatchAt(t, "api", i, WholeWord) {
      assert !CharMatches(t[i + 0], "api"[0], true);
    }
  }

  lemma BuildMissesDevOps()
    ensures !Fires("build", DevOps)
  {
    var t := "build";
    NoMatchWhenLonger(t, "devops", WholeWord);
    forall i: nat | i + 5 <= |t| ensures !MatchAt(t, "cloud", i, WholeWord) {
      assert !CharMatches(t[i + 0], "cloud"[0], true);
    }
    forall i: nat | i + 3 <= |t| ensures !MatchAt(t, "sre", i, WholeWord) {
      assert !CharMatches(t[i + 0], "sre"[0], true);
    }
  }

  /** Priority is strict: a text naming both React and full-stack gets the
      Frontend lead, whose rule is tried first. */
  lemma ReactBeatsFullStack()
    ensures Fires("React full-stack", FullStack)
    ensures InferRole("React full-stack") == Frontend
  {
    ReactFires();
    FullStackFires();
    DataRuleSilent();
  }

  lemma DataRuleSilent()
    ensures !Fires("React full-stack", DataFocused)
  {
    var t := "React full-stack";
    forall i: nat | i + 14 <= |t| ensures !MatchAt(t, "data scientist", i, WholeWord) {
      assert !CharMatches(t[i + 0], "data scientist"[0], true);
    }
    NoMatchWhenLonger(t, "machine learning engineer", WholeWord);
  }

  lemma ReactFires()
    ensures Fires("React full-stack", Frontend)
  {
    var t := "React full-stack";
    assert MatchAt(t, "react", 0, WholeWord);
    assert "react" in Alternatives(Frontend);
  }

  lemma FullStackFires()
    ensures Fires("React full-stack", FullStack)
  {
    var t := "React full-stack";
    assert MatchAt(t, "full-stack", 6, WholeWord);
    assert "full-stack" in Alternatives(FullStack);
  }
}
