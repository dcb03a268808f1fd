# Résumé analysis pipeline, modelled in Dafny

This project models the deterministic part of ResumeAnalyzer. That is the
Node service that reads the text of a résumé and returns:

- highlights (skills, projects and keywords);
- a 0-10 rating and a one-paragraph summary;
- numbered improvement tips;
- the skills a target job asks for that the résumé lacks.

It also models three pure helpers of the legacy Flask application: the ATS
readability score, the `.pdf` upload check and the HTML escaper.

Every operation is a pure function over `string` (`seq<char>`) and
`seq<string>`. The regular expressions of the source are hand-written
recognisers over characters. Module `Text` defines one `Pattern` datatype
for the five shapes used:

| shape | regex | where it is used |
|---|---|---|
| `Includes` | exact `includes` / Python `in` | rating, clarity, ATS |
| `WholeWord` | `/\bw\b/i` | role rules, summary tip |
| `WordStart` | `/\bw/i` | experience tip |
| `WordEnd` | `/w\b/i` | experience tip, Projects header |
| `LetterDelimited` | `/(^\|[^a-zA-Z])w([^a-zA-Z]\|$)/i` | dictionary skills |

`MatchAt` states what a match at one position means. `SearchFrom` is the
left-to-right recogniser, and the `Matches` contract proves the two agree.
`\b` is a change of word character (`[A-Za-z0-9_]`) status. The `i` flag
folds ASCII letters only.

Modules follow the source files:

- `Wrappers`, `Seqs`, `Text`: `Option`, sequence helpers (filter, dedup, join), character classes, case, trim, split, pattern matching.
- `KeywordExtractor`: `extractKeywords`, `extractSkills`, `normalizeSkill` and the skill dictionary.
- `ProjectExtractor`: `extractProjects`, the line scanner with its one "inside Projects" flag.
- `Scoring`: `scoreResume` and `evaluateClarity`.
- `SummaryGenerator`: `inferTitleOrRole` and `generateSummary`.
- `JobCompare`: `compareResumeToJob` and `generateComparisonReport`.
- `ResumeAnalysis`: `buildSuggestions` and `analyzeText`.
- `FlaskApp`: `allowed_file`, `calculate_ats_score` and the `escape_html` nested in `generate_resume_html`.

Facts the proofs bring out about the code as written:

- The `Math.min(score, 10)` in `scoreResume` never changes anything. The three markers add up to exactly 10 (`Scoring.ScoreIsMarkerSum`).
- The ATS cap at 100 is reachable. The terms add up to at most 105 (`FlaskApp.TermsBound`). A text over 200 characters with an e-mail address, a phone number and all five section names earns at least 100, and such a text exists (`FlaskApp.CapIsReachable`).
- The `work experience\b` alternative of the experience rule never decides anything. Every text it matches also matches `\bexperience` (`ResumeAnalysis.WorkExperienceImpliesExperience`).
- A job that requires a skill literally named "None", which the résumé lacks, gets the same report as a job with nothing missing (`JobCompare.NoneSkillReadsAsNothingMissing`). The report's "None" is ambiguous only in that case (`JobCompare.GenerateComparisonReport`).
- The Projects header is not anchored at the end of the line. A title-shaped line inside the section is taken as a project before the section-exit test is reached. So "Experience" under "Projects" is reported as a project (`ProjectExtractor.SectionWordAsTitle`).

## Model

| member | source | states |
|---|---|---|
| Seqs.Take | server/src/services/summaryGenerator.ts:9 | `slice(0, n)`: a prefix of the input, of length n when the input is longer and the whole input otherwise |
| Text.Lower | server/src/services/keywordExtractor.ts:25 | `toLowerCase` on ASCII: same length, each character lower-cased on its own |
| Text.Trim | server/src/services/keywordExtractor.ts:54 | `trim`: the result is a piece of the line with no ECMAScript whitespace at either end |
| Text.TrimStripsSpace | server/src/services/keywordExtractor.ts:54 | the trimmed line is the slice `s[a..b]` with only ECMAScript whitespace before `a` and after `b`; with the row above, this fixes the result |
| Text.TrimIdempotent | server/src/services/keywordExtractor.ts:54 | trimming a trimmed line changes nothing |
| Text.TrimTrailingSpace | server/src/services/keywordExtractor.ts:62 | trimming a trimmed text followed by whitespace gives the text back |
| Text.SplitOn | server/src/services/keywordExtractor.ts:26 | `split` at separator characters: at least one piece, and no piece holds a separator |
| Text.SplitRejoin | server/src/services/keywordExtractor.ts:26 | a split has one piece more than there are separators, and putting the separators back between the pieces, in order, gives the text back |
| Text.SplitDropEmptyIsRuns | server/src/services/keywordExtractor.ts:26 | `split` followed by `filter(Boolean)` leaves exactly the maximal runs of non-separator characters, in text order |
| Text.SplitJoin | server/src/services/keywordExtractor.ts:50 | splitting at one separator character and joining back with it gives the text back |
| Text.SplitPiecesOccur | server/src/services/keywordExtractor.ts:50 | every piece of a split occurs whole in the text, and the first piece is a prefix |
| Text.SearchFromSound | server/src/services/keywordExtractor.ts:42 | the left-to-right recogniser answers true exactly when the pattern matches at some position at or after its start |
| Text.Matches | server/src/services/keywordExtractor.ts:42 | `RegExp.test` for one pattern shape: true iff there is a position where the word matches with its boundary conditions |
| Text.Contains | server/src/utils/scoring.ts:6 | `includes`: true iff the word occurs as a contiguous, exact piece of the text |
| Text.ContainsExtend | server/src/utils/scoring.ts:6-8 | a word contained in a text is contained in any text that extends it on either side |
| KeywordExtractor.Tokens | server/src/services/keywordExtractor.ts:22-26 | every token is non-empty and uses only `[a-z0-9+.#]` |
| KeywordExtractor.TokensAreRuns | server/src/services/keywordExtractor.ts:22-26 | the tokens are exactly the maximal runs of `[a-zA-Z0-9+.#]` characters of the lower-cased text, in text order |
| KeywordExtractor.Counted | server/src/services/keywordExtractor.ts:28-31 | the tokens that are counted are exactly those of three or more characters |
| KeywordExtractor.InsertByFrequency | server/src/services/keywordExtractor.ts:32-33 | inserting one word into a ranking adds exactly that word |
| KeywordExtractor.InsertKeepsOrder | server/src/services/keywordExtractor.ts:33 | insertion keeps a ranking in non-increasing order of frequency |
| KeywordExtractor.RankByFrequency | server/src/services/keywordExtractor.ts:32-33 | the ranking is a rearrangement of the counted words, duplicate-free when they are, ordered by non-increasing frequency |
| KeywordExtractor.ExtractKeywords | server/src/services/keywordExtractor.ts:24-36 | at most 50 distinct tokens, each of three or more `[a-z0-9+.#]` characters, in non-increasing frequency order |
| KeywordExtractor.KeywordsAreMostFrequent | server/src/services/keywordExtractor.ts:32-35 | a counted token that is left out lost to 50 tokens that are at least as frequent |
| KeywordExtractor.TopOfRanking | server/src/services/keywordExtractor.ts:34 | the first n words of an ordered ranking are at least as frequent as any word after them |
| KeywordExtractor.RankByFrequencyStable | server/src/services/keywordExtractor.ts:33 | the sort is stable: the words of any one frequency keep their first-occurrence order |
| KeywordExtractor.KeywordTiesKeepFirstOccurrenceOrder | server/src/services/keywordExtractor.ts:32-35 | the keywords are a prefix of a ranking that lists the tokens of each frequency in the order they first appear in the text |
| KeywordExtractor.TitleCase | server/src/services/keywordExtractor.ts:109 | `\b([a-z])` upper-cased: no lower-case letter is left at a word start, every other character is unchanged, and only letter case changes |
| KeywordExtractor.TitleCaseTwoWords | server/src/services/keywordExtractor.ts:109 | two lower-case words around a non-word character each get a capital first letter and nothing else changes |
| KeywordExtractor.TitleCaseIdempotent | server/src/services/keywordExtractor.ts:109 | title-casing twice is title-casing once |
| KeywordExtractor.TitleCaseGithubActions | server/src/services/keywordExtractor.ts:109 | "github actions" becomes "Github Actions" |
| KeywordExtractor.TitleCaseScikitLearn | server/src/services/keywordExtractor.ts:109 | "scikit-learn" becomes "Scikit-Learn": the hyphen is a word boundary |
| KeywordExtractor.NormalizeSkill | server/src/services/keywordExtractor.ts:83-110 | an entry the casing map lists gets the map's spelling; any other gets title case; either way only letter case changes |
| KeywordExtractor.NormalizeGithubActions | server/src/services/keywordExtractor.ts:108-109 | "github actions", which the map does not list, is shown as "Github Actions" |
| KeywordExtractor.NormalizeScikitLearn | server/src/services/keywordExtractor.ts:108-109 | "scikit-learn" is shown as "Scikit-Learn": the hyphen starts a word |
| KeywordExtractor.CasingMapRecases | server/src/services/keywordExtractor.ts:85-107 | every value of the casing map lower-cases to its key |
| KeywordExtractor.CasingKeysAreEntries | server/src/services/keywordExtractor.ts:85-107 | every entry the casing map lists is also an entry of the skill dictionary |
| KeywordExtractor.DictionaryIsLowerCase | server/src/services/keywordExtractor.ts:3-20 | every dictionary entry is its own lower case |
| KeywordExtractor.EntriesAreLong | server/src/services/keywordExtractor.ts:3-20 | "r" is the only dictionary entry shorter than two characters |
| KeywordExtractor.SkillMentioned | server/src/services/keywordExtractor.ts:42-43 | the entry occurs in the lower-cased text with a non-letter or an end of the text on each side; a mentioned entry is no longer than the text |
| KeywordExtractor.SortUnique | server/src/services/keywordExtractor.ts:45 | `Array.from(set).sort()`: strictly ascending in code-unit order, with exactly the members given |
| KeywordExtractor.AscendingIsDistinct | server/src/services/keywordExtractor.ts:40-45 | a strictly ascending list has no duplicates |
| KeywordExtractor.ExtractSkills | server/src/services/keywordExtractor.ts:38-46 | strictly ascending, no longer than the dictionary, and holds `normalizeSkill(d)` exactly for the entries `d` found between non-letters in the lower-cased text |
| KeywordExtractor.SkillsDistinctIgnoringCase | server/src/services/keywordExtractor.ts:40-45 | no two skills differ only in letter case |
| KeywordExtractor.MentionedSkillIsExtracted | server/src/services/keywordExtractor.ts:41-43 | every dictionary entry the text mentions contributes its canonical name |
| KeywordExtractor.JavaScriptFound | server/src/services/keywordExtractor.ts:42-43 | the text "javascript" yields "JavaScript" |
| KeywordExtractor.JavaIsNotJavaScript | server/src/services/keywordExtractor.ts:42-43 | the text "javascript" does not yield "Java": "java" is followed by a letter there |
| ProjectExtractor.IsProjectsHeader | server/src/services/keywordExtractor.ts:56 | `/^projects?\b[:]?/i`: the line starts with "project" or "projects" in any case, then a word boundary; such a line has at least seven characters |
| ProjectExtractor.IsTitleLine | server/src/services/keywordExtractor.ts:60 | `/^\s*[A-Z][A-Za-z0-9 _\-]{2,}$/`: optional whitespace, an upper-case letter, then two or more title characters to the end; such a line has at least three characters |
| ProjectExtractor.IsSectionStart | server/src/services/keywordExtractor.ts:71 | `/^\s*(experience\|education\|skills\|certifications\|summary)\b/i`: after leading whitespace one of the five section words, in any case, then a word boundary; such a line has at least six characters |
| ProjectExtractor.TitleText | server/src/services/keywordExtractor.ts:62 | the title pushed for a title line has no whitespace at either end and occurs verbatim in the line |
| ProjectExtractor.DropTrailAppend | server/src/services/keywordExtractor.ts:62 | `replace(/[:•\-]+$/, '')` removes exactly a run of `:`, `•`, `-` appended to a text that does not end in one |
| ProjectExtractor.TitleDropsTrail | server/src/services/keywordExtractor.ts:62 | a trimmed title followed by spaces and a run of `:`, `•`, `-` is reported as the title alone |
| ProjectExtractor.ChatAppTitle | server/src/services/keywordExtractor.ts:62 | "Chat App -" is reported as "Chat App" |
| ProjectExtractor.BulletItem | server/src/services/keywordExtractor.ts:65-69 | a bullet contributes the trimmed text after its marker cut to 120 characters: the whole text when it has at most 120, otherwise exactly its first 120; nothing when that text is empty; the entry does not start with whitespace and occurs verbatim in the line |
| ProjectExtractor.ScanLine | server/src/services/keywordExtractor.ts:54-73 | one loop iteration: a header line opens the section and contributes nothing; an entry comes only from a title line inside the section or from a bullet, and occurs verbatim in the line; the flag is set only by a header and cleared only by a section-start line |
| ProjectExtractor.DropTrail | server/src/services/keywordExtractor.ts:62 | `replace(/[:•\-]+$/, '')`: the longest prefix not ending in `:`, `•` or `-`, and only those were dropped |
| ProjectExtractor.BulletStart | server/src/services/keywordExtractor.ts:65-67 | a bullet is `•`, `-` or digits with `.` or `)`, then at least one whitespace character; the text starts after that whitespace |
| ProjectExtractor.ScanLineItemIsPiece | server/src/services/keywordExtractor.ts:54-69 | whatever one line contributes is a non-empty piece of that line that does not start with whitespace |
| ProjectExtractor.ScanLines | server/src/services/keywordExtractor.ts:53-74 | every entry of the scan is a non-empty piece of one of the lines |
| ProjectExtractor.Found | server/src/services/keywordExtractor.ts:48-74 | every entry found is a verbatim, non-empty piece of the text |
| ProjectExtractor.ExtractProjects | server/src/services/keywordExtractor.ts:75-76 | at most five entries, no duplicates, all found by the scan and all verbatim pieces of the text |
| ProjectExtractor.ProjectsInFirstOccurrenceOrder | server/src/services/keywordExtractor.ts:76 | entries are in first-occurrence order; an entry found but not listed lost to five found earlier |
| ProjectExtractor.HeaderOpensSection | server/src/services/keywordExtractor.ts:56-59 | a header line contributes nothing and opens the section whatever the flag was |
| ProjectExtractor.BulletsCountEverywhere | server/src/services/keywordExtractor.ts:65-69 | a bullet line contributes its bullet text inside and outside the section |
| ProjectExtractor.TitleKeepsSectionOpen | server/src/services/keywordExtractor.ts:60-64 | inside the section a title line contributes its title and never closes the section |
| ProjectExtractor.FlagChanges | server/src/services/keywordExtractor.ts:56-73 | the flag is set only by a header, and cleared only by a section-start line that is neither a header nor a title line |
| ProjectExtractor.NoHeaderOnlyBullets | server/src/services/keywordExtractor.ts:65-69 | without a header line the entries are exactly the bullet texts, in order |
| ProjectExtractor.TitlesAreNotCut | server/src/services/keywordExtractor.ts:60-62 | a title is kept whole however long it is; only bullet texts are cut to 120 characters |
| ProjectExtractor.OneLine | server/src/services/keywordExtractor.ts:50 | a text without a line break is one line |
| ProjectExtractor.HeaderLineYieldsNothing | server/src/services/keywordExtractor.ts:56 | a one-line text that starts with "Project"/"Projects" yields no projects, whatever follows |
| ProjectExtractor.InlineProjectListIsLost | server/src/services/keywordExtractor.ts:56-59 | "Projects: Inventory System, Chat App" is consumed as a header and contributes nothing |
| ProjectExtractor.SectionWordAsTitle | server/src/services/keywordExtractor.ts:60-64 | inside the section, "Experience" is reported as a project and the section stays open |
| Scoring.ScoreResume | server/src/utils/scoring.ts:1-12 | the rating is one of 0, 3, 4, 6, 7, 10, so within 0..10 |
| Scoring.MarkerPoints | server/src/utils/scoring.ts:6-8 | reference sum of the points of the markers present; never above the total of all points |
| Scoring.ScoreIsMarkerSum | server/src/utils/scoring.ts:6-11 | the rating equals 3·[skills] + 3·[projects] + 4·[experience]; the cap at 10 never applies |
| Scoring.ScoreMonotone | server/src/utils/scoring.ts:6-8 | a text that contains every marker another text contains scores at least as much |
| Scoring.ExtendingNeverLowersScore | server/src/utils/scoring.ts:6-8 | adding text before or after never lowers the rating |
| Scoring.CapitalisedMarkersScoreZero | server/src/utils/scoring.ts:6-8 | "Skills Projects Experience" scores 0: matching is case-sensitive |
| Scoring.NoLowerMarker | server/src/utils/scoring.ts:6-8 | no marker word occurs, with its lower-case spelling, in "Skills Projects Experience" |
| Scoring.FoundClarityWords | server/src/utils/scoring.ts:16-17 | the clarity words found, in list order, are exactly those the text contains |
| Scoring.FoundClarityWordsCount | server/src/utils/scoring.ts:17 | the number found is the count of the three words present |
| Scoring.EvaluateClarity | server/src/utils/scoring.ts:14-26 | "Excellent clarity" iff all three words occur, "Good clarity" iff exactly two, otherwise "Needs improvement in clarity" |
| SummaryGenerator.Fires | server/src/services/summaryGenerator.ts:13-17 | a rule fires when one of its alternatives occurs as a whole word, ignoring ASCII case; the fallback never fires, and a firing text has at least two characters |
| SummaryGenerator.InferRole | server/src/services/summaryGenerator.ts:12-19 | the chosen rule fires (unless it is the fallback) and no earlier rule fires |
| SummaryGenerator.FirstFiringRuleWins | server/src/services/summaryGenerator.ts:12-18 | a rule that fires with no earlier rule firing decides the lead, whatever later rules say |
| SummaryGenerator.LeadsArePrefixFree | server/src/services/summaryGenerator.ts:13-18 | no lead is a prefix of another |
| SummaryGenerator.GenerateSummary | server/src/services/summaryGenerator.ts:1-10 | at most 300 and more than 10 characters; a prefix of the full text, equal to it when that fits in 300 characters and exactly its first 300 otherwise; starts with the inferred lead |
| SummaryGenerator.ExactlyOneLead | server/src/services/summaryGenerator.ts:2-9 | the summary starts with the lead of a role iff that role is the inferred one |
| SummaryGenerator.LeadStartsSummary | server/src/services/summaryGenerator.ts:7 | the untruncated text starts with the inferred lead, which has 16 to 27 characters |
| SummaryGenerator.OnlyLeadingEntriesMatter | server/src/services/summaryGenerator.ts:3-4 | only the first five skills and the first two projects affect the summary |
| SummaryGenerator.SkillsNamed | server/src/services/summaryGenerator.ts:7 | each of the first five skills is named in the untruncated text |
| SummaryGenerator.NoSkillsPhrase | server/src/services/summaryGenerator.ts:7 | with no skills the text says "core problem-solving and collaboration" |
| SummaryGenerator.BuiltSentenceIffProjects | server/src/services/summaryGenerator.ts:8 | the "Built …" sentence is present iff there is at least one project |
| SummaryGenerator.ProjectsNamed | server/src/services/summaryGenerator.ts:4-8 | each of the first two projects is named in the untruncated text |
| SummaryGenerator.UiInsideBuildIsNotFrontend | server/src/services/summaryGenerator.ts:13-17 | "build" gets the fallback lead: "ui" inside a word is not a whole word |
| SummaryGenerator.ReactBeatsFullStack | server/src/services/summaryGenerator.ts:14-16 | "React full-stack" fires the full-stack rule yet gets "Frontend engineer" |
| JobCompare.CompareResumeToJob | server/src/services/jobCompare.ts:10-20 | a subsequence of the required skills, no longer, holding exactly the required skills the résumé lacks |
| JobCompare.MissingKeepsRepeats | server/src/services/jobCompare.ts:13-17 | a lacking skill is reported as often as it is required; a skill the résumé has is never reported |
| JobCompare.NothingMissingIffCovered | server/src/services/jobCompare.ts:11-19 | nothing is missing iff every required skill is on the résumé |
| JobCompare.CompareByLoop | server/src/services/jobCompare.ts:11-19 | the `forEach`/`push` loop computes the same list as the filter |
| JobCompare.GenerateComparisonReport | server/src/services/jobCompare.ts:28-34 | the report is the header naming the job followed by the missing skills joined with ", ", or by "None" when nothing is missing; it reads as "None" exactly when nothing is missing or the only missing skill is called "None" |
| JobCompare.ReadList | server/src/services/jobCompare.ts:31 | reading a ", " list back gives one entry per comma-separated piece |
| JobCompare.SplitCommaJoin | server/src/services/jobCompare.ts:31 | splitting a ", "-joined list of comma-free skills at the commas gives the first skill, then each later one behind one space |
| JobCompare.ReportReadsBack | server/src/services/jobCompare.ts:28-34 | when no missing skill holds a comma, reading the missing-skills line back gives exactly the missing skills, in order |
| JobCompare.ReportNamesMissingSkills | server/src/services/jobCompare.ts:30-31 | every missing skill is named in the report |
| JobCompare.NoneSkillReadsAsNothingMissing | server/src/services/jobCompare.ts:31 | a missing skill called "None" reads the same as nothing missing |
| ResumeAnalysis.MentionsExperience | server/src/services/resumeAnalysis.ts:44 | `/\bexperience\|work experience\b/i`: a word-initial "experience" or a word-final "work experience", ignoring ASCII case; a text that mentions it has at least ten characters |
| ResumeAnalysis.Applies | server/src/services/resumeAnalysis.ts:41-45 | reference table of the five conditions: no whole word "summary", fewer than five skills, no projects, no experience mention, rating below 7 |
| ResumeAnalysis.DueAmong | server/src/services/resumeAnalysis.ts:41-45 | the tips due are those whose condition holds, in their given order |
| ResumeAnalysis.Numbered | server/src/services/resumeAnalysis.ts:39-45 | numbering gives the k-th suggestion the id k, counting from 1 |
| ResumeAnalysis.BuildSuggestions | server/src/services/resumeAnalysis.ts:38-47 | the suggestions are the due tips in fixed order with ids 1..k |
| ResumeAnalysis.SuggestionIffCondition | server/src/services/resumeAnalysis.ts:41-45 | each tip is suggested iff its condition holds |
| ResumeAnalysis.TipsInFixedOrder | server/src/services/resumeAnalysis.ts:40-46 | tips come in the order summary, skills, projects, experience, wording, at most five |
| ResumeAnalysis.WorkExperienceImpliesExperience | server/src/services/resumeAnalysis.ts:44 | any match of `work experience\b` is also a match of `\bexperience` |
| ResumeAnalysis.ExperiencedCounts | server/src/services/resumeAnalysis.ts:44 | "Experienced" suppresses the experience tip |
| ResumeAnalysis.SummaryIsAWholeWord | server/src/services/resumeAnalysis.ts:41 | "Summary" suppresses the summary tip, "summaryless" does not |
| ResumeAnalysis.AnalyzeText | server/src/services/resumeAnalysis.ts:11-36 | the highlights, rating, summary and tips are the components applied to the text; the gap holds exactly the job skills the extracted skills lack, and is empty without a job target; the title is the given one when it is non-empty and absent otherwise, never an empty string |
| ResumeAnalysis.GapIsComparison | server/src/services/resumeAnalysis.ts:21-25 | with a job target the gap is exactly `compareResumeToJob` on the extracted skills, otherwise empty |
| ResumeAnalysis.SingleLetterGetsEveryTip | server/src/services/resumeAnalysis.ts:11-46 | "x" gets rating 0, no skills, no projects and all five tips |
| ResumeAnalysis.OneLetterHasNoProjects | server/src/services/keywordExtractor.ts:48-77 | a one-letter text yields no projects |
| FlaskApp.LastIndexOf | app.py:40 | where `rsplit('.', 1)` cuts: the last occurrence of the character, or none when it is absent |
| FlaskApp.AllowedFile | app.py:39-40 | only a name with a '.' is accepted |
| FlaskApp.AllowedFileIffPdfSuffix | app.py:39-40 | accepted iff the name ends in '.' followed by three characters that lower-case to "pdf" |
| FlaskApp.AllowedFileCases | test_app.py:27-33 | "resume.pdf" and "document.PDF" are accepted; "resume.docx", "resume.txt" and "resume" are refused |
| FlaskApp.HasEmail | app.py:129 | the e-mail pattern matches somewhere: a word boundary, local characters, '@', domain characters, the last '.', two or more of `[A-Z\|a-z]`, a word boundary; such a text holds an '@' and has at least six characters |
| FlaskApp.HasPhone | app.py:132 | the phone pattern matches somewhere: `(ddd)` with optional whitespace before `ddd-dddd`, or `ddd-ddd-dddd`; such a text holds a '-' and has at least twelve characters |
| FlaskApp.SectionPoints | app.py:136-139 | 10 points per section word, never more than 10 per word listed |
| FlaskApp.SectionPointsCount | app.py:136-139 | the section points are 10 times the number of section words present |
| FlaskApp.VerbBonus | app.py:142-146 | the verb bonus is 0 or 5, and it is 5 iff some action verb occurs |
| FlaskApp.CalculateAtsScore | app.py:119-148 | the score lies in 0..100 and is the sum of the length, email, phone, section and verb terms, capped at 100 |
| FlaskApp.TermsBound | app.py:125-146 | the uncapped terms add up to at most 105 |
| FlaskApp.FullMarksReachCap | app.py:125-146 | length, an e-mail address, a phone number and all five section names give terms of at least 100, so the score is exactly 100 |
| FlaskApp.CapIsReachable | app.py:125-146 | a concrete text scores exactly 100 |
| FlaskApp.ScoreLowerBound | app.py:125-146 | a text over 200 characters with three section words and the verb "developed" scores above 50 |
| FlaskApp.SampleScoresAbove50 | test_app.py:38-58 | the sample résumé scores above 50 |
| FlaskApp.ShortScoresBelow30 | test_app.py:60-63 | "short" scores below 30 |
| FlaskApp.EscapeHtml | app.py:373-376 | "" for no text; otherwise the per-character escape, with no `<`, `>`, `"` or `'` left |
| FlaskApp.EscapeChain | app.py:376 | the five chained `replace` calls, '&' first: never shorter than the input, and the identity on a text without special characters |
| FlaskApp.EscapeChar | app.py:376 | a special character becomes an entity starting with '&'; any other character stays as it is |
| FlaskApp.EscapeChainIsPerChar | app.py:376 | the five chained `replace` calls equal one escape per character; '&' goes first, so no entity is escaped twice |
| FlaskApp.EscapedHasNoMarkup | app.py:376 | the escaped text contains none of `<`, `>`, `"`, `'` |
| FlaskApp.AmpersandStartsEntity | app.py:376 | every '&' in the escaped text begins one of the five entities |
| FlaskApp.PlainTextUnchanged | app.py:376 | a text with none of the five special characters is returned as is |
| FlaskApp.UnescapeEscape | app.py:376 | escaping loses nothing: decoding the five entities gives the text back |

## Left out

- PDF text extraction, file upload and saving, downloads, and the Express and Flask routing and controllers: all I/O and foreign libraries.
- The Hugging Face client and `analyze_resume_with_ai`, which returns a fixed mock dictionary.
- HTML and ReportLab résumé generation, except the escaper.
- The `/compare` endpoint: floating-point division and rounding.
- The React client, `static/js/main.js`, `config.py` and `run.py`: UI and configuration.
- The comma-separated job-skills normalisation in the upload controller: request plumbing.
- Text.Lower: folds ASCII letters only. JavaScript `toLowerCase`, Python `lower` and the `i` flag also fold other scripts.
- KeywordExtractor.ExtractKeywords: ties keep first-occurrence order. `Object.entries` lists integer-like keys such as "2020" first, and a token "constructor" reads a property inherited from `Object.prototype`. Neither engine detail is modelled.
- ProjectExtractor.BulletItem: the 120 cut of a bullet's text counts characters. JavaScript's `slice` counts UTF-16 code units, so a bullet with characters outside the Basic Multilingual Plane is cut at a different place.
- SummaryGenerator.GenerateSummary: the 300 cut counts characters. JavaScript's `slice` counts UTF-16 code units, which differ for characters outside the Basic Multilingual Plane.
- ResumeAnalysis.AnalyzeText: `analyzeText` is `async` but awaits nothing, so it is modelled as a plain function. The default title "Target Role" is passed on but never read by the comparison.
- FlaskApp.CalculateAtsScore: the email and phone tests are exact-shape recognisers over ASCII. Python's `\d` and `\b` also accept non-ASCII digits and letters.
- FlaskApp.AllowedFile: the extension is lower-cased over ASCII only.
- FlaskApp.EscapeHtml: the text is a string or absent. The source also accepts any value, turns it into a string with `str`, and maps every falsy value to "".
