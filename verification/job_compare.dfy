/** `jobCompare.ts`: the required skills a résumé lacks, and the two-line
    report that lists them. */
module JobCompare {
  import opened Seqs
  import opened Text

  /** Only the fields the comparison reads. */
  datatype Resume = Resume(skills: seq<string>)
  datatype Job = Job(title: string, requiredSkills: seq<string>)

  /** Required skill `s` is not among the résumé's skills; the test is
      JavaScript's `includes`, exact and case-sensitive. */
  predicate Lacks(resume: Resume, s: string) {
    s !in resume.skills
  }

  /** `compareResumeToJob`: the required skills the résumé lacks, in the
      job's order, with repeats kept. */
  function CompareResumeToJob(resume: Resume, job: Job): (missing: seq<string>)
    ensures IsSubsequence(missing, job.requiredSkills)
    ensures forall s :: s in missing <==> s in job.requiredSkills && Lacks(resume, s)
    ensures |missing| <= |job.requiredSkills|
  {
    Filter(job.requiredSkills, s => Lacks(resume, s))
  }

  /** A lacking skill is reported as often as it is required; a skill the
      résumé has is never reported. */
  lemma MissingKeepsRepeats(resume: Resume, job: Job, s: string)
    ensures Count(CompareResumeToJob(resume, job), s) == if Lacks(resume, s) then Count(job.requiredSkills, s) else 0
  {
    FilterCount(job.requiredSkills, s => Lacks(resume, s), s);
  }

  /** Nothing is missing when nothing is required or when every required
      skill is on the résumé, and only then. */
  lemma NothingMissingIffCovered(resume: Resume, job: Job)
    ensures CompareResumeToJob(resume, job) == [] <==> forall s :: s in job.requiredSkills ==> s in resume.skills
  {
    var missing := CompareResumeToJob(resume, job);
    if missing != [] {
      assert missing[0] in missing;
    }
  }

  /** The `forEach`/`push` loop of the source; it builds exactly the
      filtered list. */
  method CompareByLoop(resume: Resume, job: Job) returns (missing: seq<string>)
    ensures missing == CompareResumeToJob(resume, job)
  {
    var keep := (s: string) => Lacks(resume, s);
    var req := job.requiredSkills;
    missing := [];
    var i := 0;
    while i < |req|
      invariant 0 <= i <= |req|
      invariant missing == Filter(req[..i], keep)
    {
      FilterPrefixStep(req, i, keep);
      if req[i] !in resume.skills {
        missing := missing + [req[i]];
      }
      i := i + 1;
    }
    assert req[..i] == req;
  }

  const NoneMissing := "None"

  function ReportHeader(title: string): string {
    "Comparison Report for " + title + ":\nMissing Skills: "
  }

  /** `generateComparisonReport`: the header naming the job, then the
      missing skills joined by ", ", or "None" when there are none. */
  function GenerateComparisonReport(resume: Resume, job: Job): (report: string)
    ensures ReportHeader(job.title) <= report
    ensures CompareResumeToJob(resume, job) != [] ==>
              report == ReportHeader(job.title) + Join(CompareResumeToJob(resume, job), ", ")
    ensures CompareResumeToJob(resume, job) == [] ==> report == ReportHeader(job.title) + NoneMissing
    ensures (report == ReportHeader(job.title) + NoneMissing)
        <==> (CompareResumeToJob(resume, job) == [] || CompareResumeToJob(resume, job) == [NoneMissing])
  {
    var missing := CompareResumeToJob(resume, job);
    var report := ReportHeader(job.title) + (if |missing| > 0 then Join(missing, ", ") else NoneMissing);
    var header := ReportHeader(job.title);
    assert missing != [] ==> report[|header|..] == Join(missing, ", ");
    assert (header + NoneMissing)[|header|..] == NoneMissing;
    JoinOfOneAmbiguity(missing);
    report
  }

  /** A list of strings joins to "None" with ", " only if it is the one
      string "None"; a list of two or more contains the separator. */
  lemma JoinOfOneAmbiguity(missing: seq<string>)
    ensures |missing| > 0 && Join(missing, ", ") == NoneMissing ==> missing == [NoneMissing]
  {
    if |missing| == 1 {
      assert missing == [missing[0]];
    } else if |missing| > 1 {
      var j := Join(missing, ", ");
      JoinShowsSeparator(missing, ", ");
      assert j[|missing[0]|] == ',';
      assert forall i :: 0 <= i < |NoneMissing| ==> NoneMissing[i] != ',';
    }
  }

  predicate IsComma(c: char) { c == ',' }

  /** A piece of a ", " list without the space the separator left at its
      front. */
  function DropSpace(p: string): (q: string)
    ensures |p| > 0 && p[0] == ' ' ==> p == " " + q
  {
    if |p| > 0 && p[0] == ' ' then p[1..] else p
  }

  /** Reads a ", "-joined list back: split at the commas and drop the
      space that starts every piece after the first. */
  function ReadList(tail: string): (skills: seq<string>)
    ensures |skills| == |SplitOn(tail, IsComma)|
  {
    var pieces := SplitOn(tail, IsComma);
    [pieces[0]] + Apply(pieces[1..], DropSpace)
  }

  /** Splitting `a + ", " + rest` at the commas, with no comma in `a`:
      `a`, then the first piece of `rest` behind a space, then the other
      pieces of `rest`. */
  lemma SplitAfterFirst(a: string, rest: string)
    requires ',' !in a
    ensures SplitOn(a + ", " + rest, IsComma)
         == [a] + ([" " + SplitOn(rest, IsComma)[0]] + SplitOn(rest, IsComma)[1..])
  {
    var u := " " + rest;
    var j := a + ", " + rest;
    SplitPrefix(u, IsComma, 1);
    assert u[1..] == rest && u[..1] == " ";
    assert forall i :: 0 <= i < |a| ==> !IsComma(j[i]) by {
      forall i | 0 <= i < |a| ensures !IsComma(j[i]) {
        assert j[i] == a[i];
      }
    }
    SplitAtRunEnd(j, IsComma, |a|);
    assert j[..|a|] == a && j[|a| + 1..] == u;
  }

  /** Splitting a ", "-joined list of comma-free strings at the commas
      gives the first string, then every later one behind a space. */
  lemma {:induction false} SplitCommaJoin(xs: seq<string>)
    requires |xs| > 0
    requires forall k :: 0 <= k < |xs| ==> ',' !in xs[k]
    ensures |SplitOn(Join(xs, ", "), IsComma)| == |xs|
    ensures SplitOn(Join(xs, ", "), IsComma)[0] == xs[0]
    ensures forall k :: 1 <= k < |xs| ==> SplitOn(Join(xs, ", "), IsComma)[k] == " " + xs[k]
  {
    var a := xs[0];
    if |xs| == 1 {
      assert forall i :: 0 <= i < |a| ==> !IsComma(a[i]);
      SplitWholeRun(a, IsComma);
    } else {
      var rest := Join(xs[1..], ", ");
      var r' := SplitOn(rest, IsComma);
      assert Join(xs, ", ") == a + ", " + rest;
      SplitCommaJoin(xs[1..]);
      SplitAfterFirst(a, rest);
      var r := SplitOn(Join(xs, ", "), IsComma);
      assert r == [a] + ([" " + r'[0]] + r'[1..]);
      forall k | 1 <= k < |xs| ensures r[k] == " " + xs[k] {
        if k > 1 {
          assert r[k] == r'[k - 1];
          assert xs[1..][k - 1] == xs[k];
        }
      }
    }
  }

  /** Read back, the missing-skills line of a report gives exactly the
      missing skills, in order, when none of them holds a comma. */
  lemma ReportReadsBack(resume: Resume, job: Job)
    requires CompareResumeToJob(resume, job) != []
    requires forall s :: s in CompareResumeToJob(resume, job) ==> ',' !in s
    ensures ReadList(GenerateComparisonReport(resume, job)[|ReportHeader(job.title)|..]) == CompareResumeToJob(resume, job)
  {
    var missing := CompareResumeToJob(resume, job);
    var report := GenerateComparisonReport(resume, job);
    var tail := Join(missing, ", ");
    assert report[|ReportHeader(job.title)|..] == tail;
    SplitCommaJoin(missing);
    var pieces := SplitOn(tail, IsComma);
    var back := ReadList(tail);
    forall k | 0 <= k < |missing| ensures back[k] == missing[k] {
      if k > 0 {
        assert back[k] == DropSpace(pieces[k]);
        assert pieces[k] == " " + missing[k];
        assert (" " + missing[k])[1..] == missing[k];
      }
    }
  }

  /** Each missing skill is named in the report. */
  lemma ReportNamesMissingSkills(resume: Resume, job: Job, k: nat)
    requires k < |CompareResumeToJob(resume, job)|
    ensures Occurs(GenerateComparisonReport(resume, job), CompareResumeToJob(resume, job)[k])
  {
    var missing := CompareResumeToJob(resume, job);
    var report := GenerateComparisonReport(resume, job);
    JoinContainsEach(missing, ", ", k);
    assert report == ReportHeader(job.title) + Join(missing, ", ");
    assert SliceAt(report, Join(missing, ", "), |ReportHeader(job.title)|);
    OccursInOccurs(report, Join(missing, ", "), missing[k]);
  }

  /** A job that requires a skill literally called "None" the résumé lacks
      reports the same text as a job with nothing missing. */
  lemma NoneSkillReadsAsNothingMissing(title: string)
    ensures GenerateComparisonReport(Resume([]), Job(title, [NoneMissing]))
         == GenerateComparisonReport(Resume([]), Job(title, []))
  {
    assert CompareResumeToJob(Resume([]), Job(title, [NoneMissing])) == [NoneMissing];
  }
}
