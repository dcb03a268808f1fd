/** `scoring.ts`: the 0-10 rating from three exact, case-sensitive marker
    words, and the three-way clarity verdict. */
module Scoring {
  import opened Seqs
  import opened Text

  const MaxRating: int := 10

  /** The marker words and the points each one is worth. */
  datatype Marker = Marker(word: string, points: nat)

  const Markers: seq<Marker> := [Marker("skills", 3), Marker("projects", 3), Marker("experience", 4)]

  /** Reference definition: the points of every marker the text contains. */
  function MarkerPoints(resume: string, markers: seq<Marker>): (total: nat)
    ensures total <= TotalPoints(markers)
  {
    if |markers| == 0 then 0
    else (if Contains(resume, markers[0].word) then markers[0].points else 0) + MarkerPoints(resume, markers[1..])
  }

  function TotalPoints(markers: seq<Marker>): nat {
    if |markers| == 0 then 0 else markers[0].points + TotalPoints(markers[1..])
  }

  /** `scoreResume`. */
  function ScoreResume(resume: string): (score: int)
    ensures score in {0, 3, 4, 6, 7, 10}
    ensures 0 <= score <= MaxRating
  {
    var score := 0
      + (if Contains(resume, "skills") then 3 else 0)
      + (if Contains(resume, "projects") then 3 else 0)
      + (if Contains(resume, "experience") then 4 else 0);
    if score < MaxRating then score else MaxRating
  }

  /** The cap at 10 never applies: the rating is the plain sum of the
      points of the markers present. */
  lemma ScoreIsMarkerSum(resume: string)
    ensures ScoreResume(resume) == MarkerPoints(resume, Markers)
    ensures TotalPoints(Markers) == MaxRating
  {
    var rest := Markers[1..];
    assert rest[1..][1..] == [];
    assert MarkerPoints(resume, rest[1..]) == if Contains(resume, "experience") then 4 else 0;
    assert MarkerPoints(resume, rest) == (if Contains(resume, "projects") then 3 else 0) + MarkerPoints(resume, rest[1..]);
  }

  /** A text that contains every marker some other text contains scores at
      least as much. */
  lemma ScoreMonotone(a: string, b: string)
    requires forall m :: m in Markers && Contains(a, m.word) ==> Contains(b, m.word)
    ensures ScoreResume(a) <= ScoreResume(b)
  {
    assert Markers[0].word == "skills" && Markers[1].word == "projects" && Markers[2].word == "experience";
  }

  /** Adding text before or after never lowers the rating. */
  lemma ExtendingNeverLowersScore(a: string, t: string, b: string)
    ensures ScoreResume(t) <= ScoreResume(a + t + b)
  {
    forall m | m in Markers && Contains(t, m.word) ensures Contains(a + t + b, m.word) {
      ContainsExtend(a, t, b, m.word);
    }
    ScoreMonotone(t, a + t + b);
  }

  /** A word of two or more characters whose first two characters never
      stand side by side in the text does not occur in it. */
  lemma AbsentWithoutPair(t: string, w: string)
    requires |w| >= 2
    requires forall i :: 0 <= i < |t| - 1 ==> !(t[i] == w[0] && t[i + 1] == w[1])
    ensures !Contains(t, w)
  {
  }

  /** Matching is case-sensitive: capitalised section names earn nothing. */
  lemma CapitalisedMarkersScoreZero()
    ensures ScoreResume("Skills Projects Experience") == 0
  {
    forall m | m in Markers ensures !Contains("Skills Projects Experience", m.word) {
      NoLowerMarker(m);
    }
  }

  /** No marker word occurs in lower case in the capitalised headings. */
  lemma NoLowerMarker(m: Marker)
    requires m in Markers
    ensures !Contains("Skills Projects Experience", m.word)
  {
    assert Markers[0].word == "skills" && Markers[1].word == "projects" && Markers[2].word == "experience";
    AbsentWithoutPair("Skills Projects Experience", m.word);
  }

  // ---------------------------------------------------------------------
  // evaluateClarity
  // ---------------------------------------------------------------------

  const ClarityWords: seq<string> := ["clear", "concise", "organized"]

  /** `clarityKeywords.filter(keyword => resume.includes(keyword))` */
  function FoundClarityWords(resume: string): (found: seq<string>)
    ensures IsSubsequence(found, ClarityWords)
    ensures forall w :: w in found <==> w in ClarityWords && Contains(resume, w)
  {
    Filter(ClarityWords, w => Contains(resume, w))
  }

  /** Reference definition: how many of the three words occur. */
  function ClarityCount(resume: string): nat {
    (if Contains(resume, "clear") then 1 else 0)
    + (if Contains(resume, "concise") then 1 else 0)
    + (if Contains(resume, "organized") then 1 else 0)
  }

  lemma FoundClarityWordsCount(resume: string)
    ensures |FoundClarityWords(resume)| == ClarityCount(resume)
  {
    var keep := (w: string) => Contains(resume, w);
    assert ClarityWords == ["clear"] + (["concise"] + ["organized"]);
    FilterAppend(["clear"], ["concise"] + ["organized"], keep);
    FilterAppend(["concise"], ["organized"], keep);
  }

  /** `evaluateClarity`: three words found is excellent, exactly two is
      good, fewer is "needs improvement". */
  function EvaluateClarity(resume: string): (verdict: string)
    ensures verdict == "Excellent clarity" <==> ClarityCount(resume) == 3
    ensures verdict == "Good clarity" <==> ClarityCount(resume) == 2
    ensures verdict == "Needs improvement in clarity" <==> ClarityCount(resume) <= 1
  {
    var found := FoundClarityWords(resume);
    FoundClarityWordsCount(resume);
    if |found| > 2 then "Excellent clarity"
    else if |found| == 2 then "Good clarity"
    else "Needs improvement in clarity"
  }
}
