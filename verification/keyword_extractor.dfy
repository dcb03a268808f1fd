/** The extraction heuristics of `keywordExtractor.ts`: frequency-ranked
    keywords and dictionary skills matched between non-letters. The
    project scan of the same file is the module ProjectExtractor. */
module KeywordExtractor {
  import opened Wrappers
  import opened Seqs
  import opened Text

  // ---------------------------------------------------------------------
  // extractKeywords
  // ---------------------------------------------------------------------

  /** Characters that `WORD_SPLIT = /[^a-zA-Z0-9+.#]+/g` keeps inside a token. */
  predicate IsTokenChar(c: char) {
    IsLetter(c) || IsDigit(c) || c == '+' || c == '.' || c == '#'
  }

  /** `[a-z0-9+.#]`: what a lower-cased token is made of. */
  predicate IsKeywordChar(c: char) {
    IsLower(c) || IsDigit(c) || c == '+' || c == '.' || c == '#'
  }

  predicate IsTokenSeparator(c: char) { !IsTokenChar(c) }

  /** `text.toLowerCase().split(WORD_SPLIT).filter(Boolean)`. */
  function Tokens(text: string): (ts: seq<string>)
    ensures forall w :: w in ts ==> |w| > 0 && forall c :: c in w ==> IsKeywordChar(c)
  {
    var lc := Lower(text);
    SplitDropEmptyIsRuns(lc, IsTokenSeparator, IsTokenChar);
    assert forall c :: c in lc ==> !IsUpper(c);
    Filter(SplitOn(lc, IsTokenSeparator), (w: string) => |w| > 0)
  }

  /** The tokens are exactly the maximal runs of `[a-zA-Z0-9+.#]` in the
      lower-cased text, in text order. */
  lemma TokensAreRuns(text: string)
    ensures Tokens(text) == Runs(Lower(text), IsTokenChar)
  {
    SplitDropEmptyIsRuns(Lower(text), IsTokenSeparator, IsTokenChar);
  }

  /** The tokens `extractKeywords` counts: those at least 3 characters long,
      in text order, with repetitions. */
  function Counted(text: string): (ws: seq<string>)
    ensures forall w :: w in ws <==> w in Tokens(text) && |w| >= 3
  {
    Filter(Tokens(text), (w: string) => |w| >= 3)
  }

  /** Every entry of `ranked` is at least as frequent in `stream` as every
      later entry. */
  ghost predicate NonIncreasing(ranked: seq<string>, stream: seq<string>) {
    forall i, j :: 0 <= i < j < |ranked| ==> Count(stream, ranked[i]) >= Count(stream, ranked[j])
  }

  /** Places `w` after every entry at least as frequent as it. */
  function InsertByFrequency(w: string, ranked: seq<string>, stream: seq<string>): (r: seq<string>)
    ensures |r| == |ranked| + 1
    ensures forall x :: x in r <==> x in ranked || x == w
  {
    if |ranked| == 0 then [w]
    else if Count(stream, ranked[0]) >= Count(stream, w) then
      [ranked[0]] + InsertByFrequency(w, ranked[1..], stream)
    else
      [w] + ranked
  }

  lemma NonIncreasingTail(ranked: seq<string>, stream: seq<string>)
    requires |ranked| > 0 && NonIncreasing(ranked, stream)
    ensures NonIncreasing(ranked[1..], stream)
    ensures forall x :: x in ranked ==> Count(stream, ranked[0]) >= Count(stream, x)
  {
    forall i, j | 0 <= i < j < |ranked[1..]|
      ensures Count(stream, ranked[1..][i]) >= Count(stream, ranked[1..][j])
    {
      assert ranked[1..][i] == ranked[i + 1] && ranked[1..][j] == ranked[j + 1];
    }
  }

  lemma NonIncreasingCons(x: string, xs: seq<string>, stream: seq<string>)
    requires NonIncreasing(xs, stream)
    requires forall y :: y in xs ==> Count(stream, x) >= Count(stream, y)
    ensures NonIncreasing([x] + xs, stream)
  {
    var c := [x] + xs;
    forall i, j | 0 <= i < j < |c| ensures Count(stream, c[i]) >= Count(stream, c[j]) {
      ConsPair(x, xs, stream, i, j);
    }
  }

  /** One pair of positions of `[x] + xs`. */
  lemma ConsPair(x: string, xs: seq<string>, stream: seq<string>, i: nat, j: nat)
    requires NonIncreasing(xs, stream)
    requires forall y :: y in xs ==> Count(stream, x) >= Count(stream, y)
    requires i < j < |xs| + 1
    ensures Count(stream, ([x] + xs)[i]) >= Count(stream, ([x] + xs)[j])
  {
    var c := [x] + xs;
    assert c[j] == xs[j - 1];
    if i == 0 {
      assert c[i] == x && xs[j - 1] in xs;
    } else {
      assert c[i] == xs[i - 1];
    }
  }

  lemma {:induction false} InsertKeepsOrder(w: string, ranked: seq<string>, stream: seq<string>)
    requires NonIncreasing(ranked, stream)
    ensures NonIncreasing(InsertByFrequency(w, ranked, stream), stream)
  {
    if |ranked| > 0 {
      NonIncreasingTail(ranked, stream);
      if Count(stream, ranked[0]) >= Count(stream, w) {
        InsertKeepsOrder(w, ranked[1..], stream);
        NonIncreasingCons(ranked[0], InsertByFrequency(w, ranked[1..], stream), stream);
      } else {
        NonIncreasingCons(w, ranked, stream);
      }
    }
  }

  lemma DistinctCons<T>(x: T, xs: seq<T>)
    requires Distinct(xs) && x !in xs
    ensures Distinct([x] + xs)
  {
    forall i, j | 0 <= i < j < |xs| + 1 ensures ([x] + xs)[i] != ([x] + xs)[j] {
      assert ([x] + xs)[j] == xs[j - 1];
      if i > 0 {
        assert ([x] + xs)[i] == xs[i - 1];
      }
    }
  }

  lemma DistinctTail<T>(xs: seq<T>)
    requires |xs| > 0 && Distinct(xs)
    ensures Distinct(xs[1..]) && xs[0] !in xs[1..]
  {
    forall i, j | 0 <= i < j < |xs[1..]| ensures xs[1..][i] != xs[1..][j] {
      assert xs[1..][i] == xs[i + 1] && xs[1..][j] == xs[j + 1];
    }
    forall k | 0 <= k < |xs[1..]| ensures xs[1..][k] != xs[0] {
      assert xs[1..][k] == xs[k + 1];
    }
  }

  lemma {:induction false} InsertKeepsDistinct(w: string, ranked: seq<string>, stream: seq<string>)
    ensures Distinct(ranked) && w !in ranked ==> Distinct(InsertByFrequency(w, ranked, stream))
  {
    if !(Distinct(ranked) && w !in ranked) {
    } else if |ranked| > 0 {
      DistinctTail(ranked);
      if Count(stream, ranked[0]) >= Count(stream, w) {
        InsertKeepsDistinct(w, ranked[1..], stream);
        DistinctCons(ranked[0], InsertByFrequency(w, ranked[1..], stream));
      } else {
        DistinctCons(w, ranked);
      }
    } else {
      assert Distinct([w]);
    }
  }

  /** `Object.entries(freq).sort((a, b) => b[1] - a[1])`: a stable sort by
      decreasing frequency, written as an insertion sort that takes the
      entries in their original order. */
  function RankByFrequency(ws: seq<string>, stream: seq<string>): (r: seq<string>)
    ensures |r| == |ws|
    ensures forall x :: x in r <==> x in ws
    ensures Distinct(ws) ==> Distinct(r)
    ensures NonIncreasing(r, stream)
  {
    if |ws| == 0 then []
    else
      var init := ws[..|ws| - 1];
      var last := ws[|ws| - 1];
      assert ws == init + [last];
      var ranked := RankByFrequency(init, stream);
      InsertKeepsOrder(last, ranked, stream);
      assert Distinct(ws) ==> Distinct(init) && last !in init by {
        if Distinct(ws) {
          forall i, j | 0 <= i < j < |init| ensures init[i] != init[j] {
            assert init[i] == ws[i] && init[j] == ws[j];
          }
        }
      }
      InsertKeepsDistinct(last, ranked, stream);
      InsertByFrequency(last, ranked, stream)
  }

  /** `extractKeywords`: the 50 most frequent distinct tokens of at least 3
      characters, most frequent first. */
  function ExtractKeywords(text: string): (r: seq<string>)
    ensures |r| <= 50
    ensures Distinct(r)
    ensures forall w :: w in r ==>
              && w in Tokens(text)
              && |w| >= 3
              && forall c :: c in w ==> IsKeywordChar(c)
    ensures NonIncreasing(r, Counted(text))
  {
    var stream := Counted(text);
    var ranked := RankByFrequency(Dedup(stream), stream);
    var r := Take(ranked, 50);
    assert forall i :: 0 <= i < |r| ==> r[i] == ranked[i];
    r
  }

  /** A token left out of the keywords is no more frequent than any keyword,
      and it is only left out when all 50 places are taken. */
  lemma KeywordsAreMostFrequent(text: string, w: string)
    requires w in Counted(text)
    requires w !in ExtractKeywords(text)
    ensures |ExtractKeywords(text)| == 50
    ensures forall v :: v in ExtractKeywords(text) ==> Count(Counted(text), v) >= Count(Counted(text), w)
  {
    var stream := Counted(text);
    var ranked := RankByFrequency(Dedup(stream), stream);
    TopOfRanking(ranked, stream, w, 50);
  }

  /** The first `n` entries of a ranking are at least as frequent as any
      entry that did not make the cut. */
  lemma TopOfRanking(ranked: seq<string>, stream: seq<string>, w: string, n: nat)
    requires NonIncreasing(ranked, stream)
    requires w in ranked && w !in Take(ranked, n)
    ensures |Take(ranked, n)| == n
    ensures forall v :: v in Take(ranked, n) ==> Count(stream, v) >= Count(stream, w)
  {
    var r := Take(ranked, n);
    var k :| 0 <= k < |ranked| && ranked[k] == w;
    assert forall i :: 0 <= i < |r| ==> r[i] == ranked[i] && r[i] != w;
    assert k >= |r|;
    forall v | v in r
      ensures Count(stream, v) >= Count(stream, w)
    {
      var i :| 0 <= i < |r| && r[i] == v;
    }
  }

  // ---- tie order ----

  /** The entries of `xs` whose frequency in `stream` is exactly `n`, in order. */
  function WithFrequency(xs: seq<string>, stream: seq<string>, n: nat): seq<string>
  {
    if |xs| == 0 then []
    else (if Count(stream, xs[0]) == n then [xs[0]] else []) + WithFrequency(xs[1..], stream, n)
  }

  lemma {:induction false} WithFrequencyAppend(xs: seq<string>, ys: seq<string>, stream: seq<string>, n: nat)
    ensures WithFrequency(xs + ys, stream, n) == WithFrequency(xs, stream, n) + WithFrequency(ys, stream, n)
  {
    if |xs| == 0 {
      assert xs + ys == ys;
    } else {
      assert (xs + ys)[1..] == xs[1..] + ys;
      WithFrequencyAppend(xs[1..], ys, stream, n);
    }
  }

  lemma {:induction false} WithFrequencyNone(xs: seq<string>, stream: seq<string>, n: nat)
    requires forall i :: 0 <= i < |xs| ==> Count(stream, xs[i]) < n
    ensures WithFrequency(xs, stream, n) == []
  {
    if |xs| > 0 {
      WithFrequencyNone(xs[1..], stream, n);
    }
  }

  /** Inserting `w` appends it to the entries of its own frequency and leaves
      the others alone. */
  lemma {:induction false} InsertByFrequencyStable(w: string, ranked: seq<string>, stream: seq<string>, n: nat)
    requires NonIncreasing(ranked, stream)
    ensures WithFrequency(InsertByFrequency(w, ranked, stream), stream, n)
            == WithFrequency(ranked, stream, n) + (if Count(stream, w) == n then [w] else [])
  {
    if |ranked| == 0 {
      assert WithFrequency([w], stream, n) == (if Count(stream, w) == n then [w] else []) + WithFrequency([], stream, n);
    } else if Count(stream, ranked[0]) >= Count(stream, w) {
      NonIncreasingTail(ranked, stream);
      InsertByFrequencyStable(w, ranked[1..], stream, n);
      InsertBehindHead(w, ranked, stream, n);
      var head := if Count(stream, ranked[0]) == n then [ranked[0]] else [];
      var tail := if Count(stream, w) == n then [w] else [];
      var before := WithFrequency(ranked[1..], stream, n);
      assert head + (before + tail) == (head + before) + tail;
    } else {
      InsertInFront(w, ranked, stream, n);
    }
  }

  /** `w` goes behind the head: the head's contribution comes first. */
  lemma InsertBehindHead(w: string, ranked: seq<string>, stream: seq<string>, n: nat)
    requires |ranked| > 0 && Count(stream, ranked[0]) >= Count(stream, w)
    ensures WithFrequency(InsertByFrequency(w, ranked, stream), stream, n)
            == (if Count(stream, ranked[0]) == n then [ranked[0]] else [])
               + WithFrequency(InsertByFrequency(w, ranked[1..], stream), stream, n)
    ensures WithFrequency(ranked, stream, n)
            == (if Count(stream, ranked[0]) == n then [ranked[0]] else []) + WithFrequency(ranked[1..], stream, n)
  {
    var rest := InsertByFrequency(w, ranked[1..], stream);
    assert InsertByFrequency(w, ranked, stream) == [ranked[0]] + rest;
    assert ([ranked[0]] + rest)[1..] == rest;
  }

  /** `w` goes in front of a ranking whose entries are all more frequent. */
  lemma InsertInFront(w: string, ranked: seq<string>, stream: seq<string>, n: nat)
    requires NonIncreasing(ranked, stream)
    requires |ranked| > 0 && Count(stream, ranked[0]) < Count(stream, w)
    ensures WithFrequency(InsertByFrequency(w, ranked, stream), stream, n)
            == WithFrequency(ranked, stream, n) + (if Count(stream, w) == n then [w] else [])
  {
    if Count(stream, w) == n {
      NonIncreasingTail(ranked, stream);
      assert forall i :: 0 <= i < |ranked| ==> ranked[i] in ranked;
      WithFrequencyNone(ranked, stream, n);
    }
    assert InsertByFrequency(w, ranked, stream) == [w] + ranked;
    assert ([w] + ranked)[1..] == ranked;
  }

  /** The ranking is stable: among entries of equal frequency it keeps the
      order they had before sorting. */
  lemma {:induction false} RankByFrequencyStable(ws: seq<string>, stream: seq<string>, n: nat)
    ensures WithFrequency(RankByFrequency(ws, stream), stream, n) == WithFrequency(ws, stream, n)
  {
    if |ws| > 0 {
      var init := ws[..|ws| - 1];
      var last := ws[|ws| - 1];
      assert ws == init + [last];
      RankByFrequencyStable(init, stream, n);
      InsertByFrequencyStable(last, RankByFrequency(init, stream), stream, n);
      WithFrequencyAppend(init, [last], stream, n);
      assert WithFrequency([last], stream, n) == (if Count(stream, last) == n then [last] else []) + WithFrequency([], stream, n);
    }
  }

  /** Keywords of equal frequency appear in the order in which the tokens
      first occur in the text. */
  lemma KeywordTiesKeepFirstOccurrenceOrder(text: string, n: nat)
    ensures var stream := Counted(text);
            var ranked := RankByFrequency(Dedup(stream), stream);
            && ExtractKeywords(text) <= ranked
            && WithFrequency(ranked, stream, n) == WithFrequency(Dedup(stream), stream, n)
            && forall i, j :: 0 <= i < j < |Dedup(stream)| ==>
                 IndexOf(stream, Dedup(stream)[i]) < IndexOf(stream, Dedup(stream)[j])
  {
    var stream := Counted(text);
    RankByFrequencyStable(Dedup(stream), stream, n);
    DedupFirstOccurrenceOrder(stream);
  }

  // ---------------------------------------------------------------------
  // extractSkills
  // ---------------------------------------------------------------------

  /** `SKILL_DICTIONARY`, group by group, in source order. */
  const Languages: seq<string> := ["javascript", "typescript", "python", "java", "c++", "c#", "ruby", "go", "rust", "php", "swift", "kotlin", "scala", "perl", "r"]  // Programming languages
  const WebSkills: seq<string> := ["react", "angular", "vue", "svelte", "next.js", "node.js", "express", "nestjs", "graphql", "rest", "html", "css", "sass", "less", "tailwind"]  // Web
  const DataSkills: seq<string> := ["sql", "mysql", "postgresql", "mongodb", "redis", "dynamodb", "elasticsearch", "kafka", "spark", "hadoop", "pandas", "numpy", "tensorflow", "pytorch", "scikit-learn"]  // Data/ML
  const CloudSkills: seq<string> := ["docker", "kubernetes", "aws", "gcp", "azure", "terraform", "ansible", "jenkins", "circleci", "github actions"]  // DevOps & Cloud
  const TestingSkills: seq<string> := ["jest", "mocha", "chai", "cypress", "playwright", "vitest"]  // Testing
  const MobileSkills: seq<string> := ["react native", "flutter", "android", "ios"]  // Mobile
  const ToolSkills: seq<string> := ["git", "jira", "confluence", "figma", "postman"]  // Tools
  const GeneralSkills: seq<string> := ["leadership", "communication", "collaboration", "agile", "scrum", "mentoring", "stakeholder management"]  // Soft skills / general

  /** `SKILL_DICTIONARY`: the known skills, all in lower case. */
  const SkillDictionary: seq<string> :=
    Languages + WebSkills + DataSkills + CloudSkills + TestingSkills + MobileSkills + ToolSkills + GeneralSkills

  /** The display casing `normalizeSkill` uses for the entries it lists,
      written as three maps with disjoint keys. */
  const CasingMap: map<string, string> := CasingFirst + CasingSecond + CasingThird

  const CasingFirst: map<string, string> := map[
    "javascript" := "JavaScript",
    "typescript" := "TypeScript",
    "python" := "Python",
    "java" := "Java",
    "c++" := "C++",
    "c#" := "C#",
    "react" := "React"
  ]

  const CasingSecond: map<string, string> := map[
    "node.js" := "Node.js",
    "next.js" := "Next.js",
    "graphql" := "GraphQL",
    "html" := "HTML",
    "css" := "CSS",
    "aws" := "AWS",
    "gcp" := "GCP"
  ]

  const CasingThird: map<string, string> := map[
    "azure" := "Azure",
    "sql" := "SQL",
    "mongodb" := "MongoDB",
    "postgresql" := "PostgreSQL",
    "docker" := "Docker",
    "kubernetes" := "Kubernetes",
    "git" := "Git"
  ]

  /** `s.replace(/\b([a-z])/g, c => c.toUpperCase())`: every lower-case
      letter that starts a word is capitalised. */
  function TitleCase(s: string): (r: string)
    ensures |r| == |s|
    ensures Lower(r) == Lower(s)
    ensures forall i :: 0 <= i < |s| && WordBoundary(s, i) ==> !IsLower(r[i])
    ensures forall i :: 0 <= i < |s| && !(IsLower(s[i]) && WordBoundary(s, i)) ==> r[i] == s[i]
  {
    seq(|s|, i requires 0 <= i < |s| =>
      if IsLower(s[i]) && WordBoundary(s, i) then UpperChar(s[i]) else s[i])
  }

  /** `normalizeSkill`: the casing map for the entries it lists, otherwise
      title case. */
  function NormalizeSkill(s: string): (r: string)
    ensures Lower(r) == Lower(s)
    ensures Lower(s) in CasingMap ==> r == CasingMap[Lower(s)]
    ensures Lower(s) !in CasingMap ==> r == TitleCase(s)
  {
    var lc := Lower(s);
    CasingMapRecases();
    if lc in CasingMap then CasingMap[lc] else TitleCase(s)
  }

  /** Every entry the casing map lists is a dictionary entry: the map
      recases found skills only. */
  lemma CasingKeysAreEntries()
    ensures forall k :: k in CasingMap ==> k in SkillDictionary
  {
    GroupsInDictionary();
    assert forall k :: k in CasingFirst ==> k in Languages || k in WebSkills;
    assert forall k :: k in CasingSecond ==> k in WebSkills || k in CloudSkills;
    assert forall k :: k in CasingThird ==> k in CloudSkills || k in DataSkills || k in ToolSkills;
  }

  lemma GroupsInDictionary()
    ensures forall d :: d in Languages || d in WebSkills || d in DataSkills ==> d in SkillDictionary
    ensures forall d :: d in CloudSkills || d in ToolSkills ==> d in SkillDictionary
  {
    var rest := TestingSkills + MobileSkills + ToolSkills + GeneralSkills;
    assert SkillDictionary == Languages + WebSkills + DataSkills + CloudSkills + rest;
    assert forall d :: d in ToolSkills ==> d in rest;
  }

  /** The casing map changes nothing but letter case. */
  lemma CasingMapRecases()
    ensures forall k :: k in CasingMap ==> Lower(CasingMap[k]) == k
  {
    FirstRecases();
    SecondRecases();
    ThirdRecases();
  }

  lemma FirstRecases() ensures forall k :: k in CasingFirst ==> Lower(CasingFirst[k]) == k {}
  lemma SecondRecases() ensures forall k :: k in CasingSecond ==> Lower(CasingSecond[k]) == k {}
  lemma ThirdRecases() ensures forall k :: k in CasingThird ==> Lower(CasingThird[k]) == k {}

  /** No dictionary entry has an upper-case letter. */
  lemma DictionaryIsLowerCase()
    ensures forall d :: d in SkillDictionary ==> Lower(d) == d
  {
    LanguagesAreLowerCase();
    WebSkillsAreLowerCase();
    DataSkillsAreLowerCase();
    CloudSkillsAreLowerCase();
    TestingSkillsAreLowerCase();
    MobileSkillsAreLowerCase();
    ToolSkillsAreLowerCase();
    GeneralSkillsAreLowerCase();
    forall d | d in SkillDictionary ensures Lower(d) == d {
      LowerOfLowerCase(d);
    }
  }

  lemma LanguagesAreLowerCase() ensures forall d :: d in Languages ==> IsLowerCase(d) {}
  lemma WebSkillsAreLowerCase() ensures forall d :: d in WebSkills ==> IsLowerCase(d) {}
  lemma DataSkillsAreLowerCase() ensures forall d :: d in DataSkills ==> IsLowerCase(d) {
    assert forall i :: 0 <= i < 8 ==> IsLowerCase(DataSkills[i]);
    assert forall i :: 8 <= i < |DataSkills| ==> IsLowerCase(DataSkills[i]);
  }
  lemma CloudSkillsAreLowerCase() ensures forall d :: d in CloudSkills ==> IsLowerCase(d) {}
  lemma TestingSkillsAreLowerCase() ensures forall d :: d in TestingSkills ==> IsLowerCase(d) {}
  lemma MobileSkillsAreLowerCase() ensures forall d :: d in MobileSkills ==> IsLowerCase(d) {}
  lemma ToolSkillsAreLowerCase() ensures forall d :: d in ToolSkills ==> IsLowerCase(d) {}
  lemma GeneralSkillsAreLowerCase() ensures forall d :: d in GeneralSkills ==> IsLowerCase(d) {}

  /** The only entry of `xs` shorter than two characters is "r". */
  predicate OnlyRIsShort(xs: seq<string>) {
    forall d :: d in xs && |d| <= 1 ==> d == "r"
  }

  lemma OnlyRIsShortAppend(a: seq<string>, b: seq<string>)
    requires OnlyRIsShort(a)
    requires forall d :: d in b ==> |d| >= 2
    ensures OnlyRIsShort(a + b)
  {
  }

  lemma EntriesAreLong()
    ensures OnlyRIsShort(SkillDictionary)
  {
    LanguagesAreLong();
    GroupIsLong(WebSkills);
    OnlyRIsShortAppend(Languages, WebSkills);
    GroupIsLong(DataSkills);
    OnlyRIsShortAppend(Languages + WebSkills, DataSkills);
    GroupIsLong(CloudSkills);
    OnlyRIsShortAppend(Languages + WebSkills + DataSkills, CloudSkills);
    GroupIsLong(TestingSkills);
    OnlyRIsShortAppend(Languages + WebSkills + DataSkills + CloudSkills, TestingSkills);
    GroupIsLong(MobileSkills);
    OnlyRIsShortAppend(Languages + WebSkills + DataSkills + CloudSkills + TestingSkills, MobileSkills);
    GroupIsLong(ToolSkills);
    OnlyRIsShortAppend(Languages + WebSkills + DataSkills + CloudSkills + TestingSkills + MobileSkills, ToolSkills);
    GroupIsLong(GeneralSkills);
    OnlyRIsShortAppend(Languages + WebSkills + DataSkills + CloudSkills + TestingSkills + MobileSkills + ToolSkills, GeneralSkills);
  }

  lemma LanguagesAreLong()
    ensures OnlyRIsShort(Languages)
  {
  }

  /** Every entry of a group has two or more characters. */
  lemma GroupIsLong(group: seq<string>)
    requires group in [WebSkills, DataSkills, CloudSkills, TestingSkills, MobileSkills, ToolSkills, GeneralSkills]
    ensures forall d :: d in group ==> |d| >= 2
  {
  }

  /** Title casing a title-cased string changes nothing. */
  lemma TitleCaseIdempotent(s: string)
    ensures TitleCase(TitleCase(s)) == TitleCase(s)
  {
    var t := TitleCase(s);
    forall i | 0 <= i < |s| ensures IsWordChar(t[i]) == IsWordChar(s[i]) {
    }
    forall i | 0 <= i < |s| ensures WordBoundary(t, i) == WordBoundary(s, i) {
    }
  }

  lemma TitleCaseGithubActions()
    ensures TitleCase("github actions") == "Github Actions"
  {
    GithubActionsWords();
    TitleCaseTwoWords("github", ' ', "actions");
  }

  /** The literal facts behind `TitleCaseGithubActions`, apart from
      `TitleCase`. */
  lemma GithubActionsWords()
    ensures forall i :: 0 <= i < |"github"| ==> IsLower("github"[i])
    ensures forall i :: 0 <= i < |"actions"| ==> IsLower("actions"[i])
    ensures "github" + [' '] + "actions" == "github actions"
    ensures [UpperChar("github"[0])] + "github"[1..] + [' '] + [UpperChar("actions"[0])] + "actions"[1..] == "Github Actions"
  {
    var a, b := "github", "actions";
    assert forall i :: 0 <= i < |a| ==> IsLower(a[i]);
    assert forall i :: 0 <= i < |b| ==> IsLower(b[i]);
    assert a + [' '] + b == "github actions";
    assert [UpperChar(a[0])] + a[1..] + [' '] + [UpperChar(b[0])] + b[1..] == "Github Actions";
  }

  lemma TitleCaseScikitLearn()
    ensures TitleCase("scikit-learn") == "Scikit-Learn"
  {
    ScikitLearnWords();
    TitleCaseTwoWords("scikit", '-', "learn");
  }

  /** The literal facts behind `TitleCaseScikitLearn`, apart from
      `TitleCase`. */
  lemma ScikitLearnWords()
    ensures forall i :: 0 <= i < |"scikit"| ==> IsLower("scikit"[i])
    ensures forall i :: 0 <= i < |"learn"| ==> IsLower("learn"[i])
    ensures "scikit" + ['-'] + "learn" == "scikit-learn"
    ensures [UpperChar("scikit"[0])] + "scikit"[1..] + ['-'] + [UpperChar("learn"[0])] + "learn"[1..] == "Scikit-Learn"
  {
    var a, b := "scikit", "learn";
    assert forall i :: 0 <= i < |a| ==> IsLower(a[i]);
    assert forall i :: 0 <= i < |b| ==> IsLower(b[i]);
    assert a + ['-'] + b == "scikit-learn";
    assert [UpperChar(a[0])] + a[1..] + ['-'] + [UpperChar(b[0])] + b[1..] == "Scikit-Learn";
  }

  /** Two lower-case words around a non-word character: each word gets a
      capital. */
  lemma TitleCaseTwoWords(a: string, sep: char, b: string)
    requires |a| > 0 && |b| > 0 && !IsWordChar(sep)
    requires forall i :: 0 <= i < |a| ==> IsLower(a[i])
    requires forall i :: 0 <= i < |b| ==> IsLower(b[i])
    ensures TitleCase(a + [sep] + b) == [UpperChar(a[0])] + a[1..] + [sep] + [UpperChar(b[0])] + b[1..]
  {
    var s := a + [sep] + b;
    var e := [UpperChar(a[0])] + a[1..] + [sep] + [UpperChar(b[0])] + b[1..];
    var r := TitleCase(s);
    var n := |a|;
    assert |e| == |s|;
    forall i | 0 <= i < |s| ensures r[i] == e[i] {
      if i == 0 {
        assert s[0] == a[0] && e[0] == UpperChar(a[0]);
        assert WordBoundary(s, 0);
      } else if i < n {
        assert s[i - 1] == a[i - 1] && s[i] == a[i] && e[i] == a[i];
        assert !WordBoundary(s, i);
      } else if i == n {
        assert s[i] == sep && e[i] == sep;
      } else if i == n + 1 {
        assert s[i] == b[0] && s[i - 1] == sep && e[i] == UpperChar(b[0]);
        assert WordBoundary(s, i);
      } else {
        assert s[i - 1] == b[i - n - 2] && s[i] == b[i - n - 1] && e[i] == b[i - n - 1];
        assert !WordBoundary(s, i);
      }
    }
  }

  /** Every entry of `xs` comes strictly before every later one. */
  predicate StrictlyAscending(xs: seq<string>) {
    forall i, j :: 0 <= i < j < |xs| ==> LexLess(xs[i], xs[j])
  }

  /** Adds `x` to an ascending list unless it is already there. */
  function InsertAscending(x: string, xs: seq<string>): (r: seq<string>)
    requires StrictlyAscending(xs)
    ensures StrictlyAscending(r)
    ensures forall y :: y in r <==> y in xs || y == x
    ensures |r| <= |xs| + 1
  {
    if |xs| == 0 then [x]
    else if x == xs[0] then xs
    else if LexLess(x, xs[0]) then
      assert forall j :: 0 <= j < |xs| ==> LexLess(x, xs[j]) by {
        forall j | 0 < j < |xs| ensures LexLess(x, xs[j]) {
          LexLessTransitive(x, xs[0], xs[j]);
        }
      }
      assert StrictlyAscending([x] + xs) by {
        forall i, j | 0 <= i < j < |xs| + 1 ensures LexLess(([x] + xs)[i], ([x] + xs)[j]) {
          assert ([x] + xs)[j] == xs[j - 1];
          if i > 0 {
            assert ([x] + xs)[i] == xs[i - 1];
          }
        }
      }
      [x] + xs
    else
      assert StrictlyAscending(xs[1..]) by {
        forall i, j | 0 <= i < j < |xs[1..]| ensures LexLess(xs[1..][i], xs[1..][j]) {
          assert xs[1..][i] == xs[i + 1] && xs[1..][j] == xs[j + 1];
        }
      }
      var rest := InsertAscending(x, xs[1..]);
      LexLessTotal(x, xs[0]);
      assert forall y :: y in rest ==> LexLess(xs[0], y) by {
        forall y | y in rest ensures LexLess(xs[0], y) {
          if y != x {
            var k :| 0 <= k < |xs[1..]| && xs[1..][k] == y;
            assert xs[k + 1] == y;
          }
        }
      }
      assert StrictlyAscending([xs[0]] + rest) by {
        forall i, j | 0 <= i < j < |rest| + 1 ensures LexLess(([xs[0]] + rest)[i], ([xs[0]] + rest)[j]) {
          assert ([xs[0]] + rest)[j] == rest[j - 1];
          if i > 0 {
            assert ([xs[0]] + rest)[i] == rest[i - 1];
          } else {
            assert rest[j - 1] in rest;
          }
        }
      }
      [xs[0]] + rest
  }

  /** `Array.from(new Set(xs)).sort()`: the distinct values of `xs`, in
      ascending order. */
  function SortUnique(xs: seq<string>): (r: seq<string>)
    ensures StrictlyAscending(r)
    ensures forall y :: y in r <==> y in xs
    ensures |r| <= |xs|
  {
    if |xs| == 0 then []
    else
      var init := xs[..|xs| - 1];
      assert xs == init + [xs[|xs| - 1]];
      InsertAscending(xs[|xs| - 1], SortUnique(init))
  }

  /** A strictly ascending list holds no value twice. */
  lemma AscendingIsDistinct(xs: seq<string>)
    requires StrictlyAscending(xs)
    ensures Distinct(xs)
  {
    forall i, j | 0 <= i < j < |xs| ensures xs[i] != xs[j] {
      LexLessIrreflexive(xs[i]);
    }
  }

  /** The dictionary entry `d` occurs in the lower-cased text with a
      non-letter or the edge of the text on each side:
      `new RegExp(`(^|[^a-zA-Z])${escapeRegex(d)}([^a-zA-Z]|$)`, 'i').test(lc)`. */
  function SkillMentioned(text: string, d: string): (b: bool)
    ensures b ==> |d| <= |text|
  {
    Matches(Lower(text), d, LetterDelimited)
  }

  /** `extractSkills`: the canonical names of the dictionary entries
      mentioned in the text, without repeats, in ascending order. */
  function ExtractSkills(text: string): (r: seq<string>)
    ensures StrictlyAscending(r)
    ensures forall s :: s in r <==>
              exists d :: d in SkillDictionary && SkillMentioned(text, d) && NormalizeSkill(d) == s
    ensures |r| <= |SkillDictionary|
  {
    var found := Filter(SkillDictionary, d => SkillMentioned(text, d));
    var names := Apply(found, NormalizeSkill);
    var r := SortUnique(names);
    assert forall s :: s in names <==> exists d :: d in found && NormalizeSkill(d) == s by {
      forall s | s in names ensures exists d :: d in found && NormalizeSkill(d) == s {
        var k :| 0 <= k < |names| && names[k] == s;
        assert found[k] in found;
      }
      forall s | (exists d :: d in found && NormalizeSkill(d) == s) ensures s in names {
        var d :| d in found && NormalizeSkill(d) == s;
        var k :| 0 <= k < |found| && found[k] == d;
        assert names[k] == s;
      }
    }
    r
  }

  /** No two skills differ only in letter case. */
  lemma SkillsDistinctIgnoringCase(text: string)
    ensures forall i, j :: 0 <= i < j < |ExtractSkills(text)| ==>
              Lower(ExtractSkills(text)[i]) != Lower(ExtractSkills(text)[j])
  {
    var r := ExtractSkills(text);
    DictionaryIsLowerCase();
    forall i, j | 0 <= i < j < |r| ensures Lower(r[i]) != Lower(r[j]) {
      assert r[i] in r && r[j] in r;
      var d1 :| d1 in SkillDictionary && SkillMentioned(text, d1) && NormalizeSkill(d1) == r[i];
      var d2 :| d2 in SkillDictionary && SkillMentioned(text, d2) && NormalizeSkill(d2) == r[j];
      LexLessIrreflexive(r[i]);
    }
  }

  /** Matching is between non-letters: "javascript" alone yields
      JavaScript ... */
  lemma JavaScriptFound()
    ensures "JavaScript" in ExtractSkills("javascript")
  {
    JavaScriptMentioned();
    MentionedSkillIsExtracted("javascript", "javascript");
  }

  /** Every dictionary entry the text mentions contributes its canonical
      name. */
  lemma MentionedSkillIsExtracted(text: string, d: string)
    requires d in SkillDictionary && SkillMentioned(text, d)
    ensures NormalizeSkill(d) in ExtractSkills(text)
  {
  }

  lemma JavaScriptMentioned()
    ensures "javascript" in SkillDictionary && SkillMentioned("javascript", "javascript")
    ensures NormalizeSkill("javascript") == "JavaScript"
  {
    JavaScriptInText();
    JavaScriptCased();
  }

  lemma JavaScriptInText()
    ensures "javascript" in SkillDictionary && SkillMentioned("javascript", "javascript")
  {
    assert SkillDictionary[0] == "javascript";
    assert Lower("javascript") == "javascript";
    WordMatchesAlone("javascript");
  }

  lemma JavaScriptCased()
    ensures NormalizeSkill("javascript") == "JavaScript"
  {
    assert Lower("javascript") == "javascript";
    assert "javascript" in CasingFirst;
  }

  /** An entry the casing map does not list is title-cased: "github
      actions" is shown as "Github Actions". */
  lemma NormalizeGithubActions()
    ensures NormalizeSkill("github actions") == "Github Actions"
  {
    GithubActionsWords();
    LowerOfLowerCase("github actions");
    assert "github actions" !in CasingMap;
    TitleCaseGithubActions();
  }

  /** The hyphen starts a word: "scikit-learn" is shown as "Scikit-Learn". */
  lemma NormalizeScikitLearn()
    ensures NormalizeSkill("scikit-learn") == "Scikit-Learn"
  {
    ScikitLearnWords();
    LowerOfLowerCase("scikit-learn");
    assert "scikit-learn" !in CasingMap;
    TitleCaseScikitLearn();
  }

  /** ... but not Java. */
  lemma JavaIsNotJavaScript()
    ensures "Java" !in ExtractSkills("javascript")
  {
    JavaNotInJavaScript();
    OnlyJavaNamesJava();
  }

  lemma JavaNotInJavaScript()
    ensures !SkillMentioned("javascript", "java")
  {
    var t := "javascript";
    assert Lower(t) == t;
    assert !SearchFrom(t, "java", LetterDelimited, 9);
    assert !SearchFrom(t, "java", LetterDelimited, 6);
    assert !SearchFrom(t, "java", LetterDelimited, 3);
    assert !SearchFrom(t, "java", LetterDelimited, 0);
  }

  lemma OnlyJavaNamesJava()
    ensures forall d :: d in SkillDictionary && NormalizeSkill(d) == "Java" ==> d == "java"
  {
    DictionaryIsLowerCase();
    assert Lower("Java") == "java";
  }
}
