/** `extractProjects` of the keyword extractor: a line-by-line scan that
    carries one flag, "inside a Projects section", and collects project
    titles (only inside the section) and bullet texts (anywhere). */
module ProjectExtractor {
  import opened Wrappers
  import opened Seqs
  import opened Text

  const MaxProjects: nat := 5
  const MaxSnippet: nat := 120
  const Bullet: char := '\U{2022}'

  /** `/^projects?\b[:]?/i` on a trimmed line: the line starts with
      "project" or "projects" in any case, followed by a word boundary.
      Nothing is required after the boundary. */
  function IsProjectsHeader(line: string): (b: bool)
    ensures b ==> 7 <= |line|
  {
    MatchAt(line, "projects", 0, WordEnd) || MatchAt(line, "project", 0, WordEnd)
  }

  /** `[A-Za-z0-9 _\-]` */
  predicate IsTitleChar(c: char) {
    IsLetter(c) || IsDigit(c) || c == ' ' || c == '_' || c == '-'
  }

  /** `/^\s*[A-Z][A-Za-z0-9 _\-]{2,}$/`: optional leading whitespace, an
      upper-case letter, then at least two title characters up to the end
      of the line, with no upper bound on the length. */
  function IsTitleLine(line: string): (b: bool)
    ensures b ==> 3 <= |line|
  {
    var k := RunLength(line, 0, IsSpace);
    && k + 3 <= |line|
    && IsUpper(line[k])
    && forall i :: k < i < |line| ==> IsTitleChar(line[i])
  }

  /** `[:•\-]` */
  predicate IsTitleTrail(c: char) {
    c == ':' || c == Bullet || c == '-'
  }

  /** `s.replace(/[:•\-]+$/, '')`: the longest prefix of `s` that does not
      end in one of the trail characters. */
  function DropTrail(s: string): (r: string)
    ensures r <= s
    ensures |r| == 0 || !IsTitleTrail(r[|r| - 1])
    ensures forall i :: |r| <= i < |s| ==> IsTitleTrail(s[i])
  {
    if |s| > 0 && IsTitleTrail(s[|s| - 1]) then DropTrail(s[..|s| - 1]) else s
  }

  /** The project title pushed for a title line. */
  function TitleText(line: string): (title: string)
    ensures IsTrimmed(title)
    ensures Occurs(line, title)
  {
    var d := DropTrail(line);
    assert SliceAt(line, d, 0);
    OccursInOccurs(line, d, Trim(d));
    Trim(d)
  }

  /** `replace(/[:•\-]+$/, '')` removes exactly a run of trail characters
      appended to a text that does not end in one. */
  lemma {:induction false} DropTrailAppend(t: string, trail: string)
    requires |t| == 0 || !IsTitleTrail(t[|t| - 1])
    requires forall i :: 0 <= i < |trail| ==> IsTitleTrail(trail[i])
    ensures DropTrail(t + trail) == t
  {
    var s := t + trail;
    if |trail| == 0 {
      assert s == t;
    } else {
      assert s[|s| - 1] == trail[|trail| - 1];
      assert s[..|s| - 1] == t + trail[..|trail| - 1];
      DropTrailAppend(t, trail[..|trail| - 1]);
    }
  }

  /** A title followed by spaces and a run of `:`, `•` or `-` is reported
      without them: "Chat App -" gives "Chat App". */
  lemma TitleDropsTrail(t: string, gap: string, trail: string)
    requires IsTrimmed(t) && |t| > 0 && !IsTitleTrail(t[|t| - 1])
    requires forall i :: 0 <= i < |gap| ==> gap[i] == ' '
    requires forall i :: 0 <= i < |trail| ==> IsTitleTrail(trail[i])
    ensures TitleText(t + gap + trail) == t
  {
    var body := t + gap;
    assert |body| > 0 && !IsTitleTrail(body[|body| - 1]) by {
      if |gap| > 0 {
        assert body[|body| - 1] == ' ';
      } else {
        assert body == t;
      }
    }
    DropTrailAppend(body, trail);
    TrimTrailingSpace(t, gap);
  }

  lemma ChatAppTitle()
    ensures TitleText("Chat App -") == "Chat App"
  {
    TitleDropsTrail("Chat App", " ", "-");
    assert "Chat App" + " " + "-" == "Chat App -";
  }

  /** Length of the list marker at the start of the line (`•`, `-`, or
      digits followed by `.` or `)`), or 0 when there is none. */
  function MarkerLength(line: string): (m: nat)
    ensures m <= |line|
    ensures m > 0 ==> !IsSpace(line[0])
  {
    if |line| > 0 && (line[0] == Bullet || line[0] == '-') then 1
    else
      var d := RunLength(line, 0, IsDigit);
      if 0 < d < |line| && (line[d] == '.' || line[d] == ')') then d + 1 else 0
  }

  /** `/^(•|-|\d+[.)])\s+/`: where the text of a bullet starts, after the
      marker and the whitespace that must follow it; `None` when the line
      is not a bullet. */
  function BulletStart(line: string): (start: Option<nat>)
    ensures start.Some? ==> 0 < start.value <= |line| && !IsSpace(line[0])
    ensures start.Some? ==> forall i :: MarkerLength(line) <= i < start.value ==> IsSpace(line[i])
    ensures start.Some? && start.value < |line| ==> !IsSpace(line[start.value])
  {
    var m := MarkerLength(line);
    var w := RunLength(line, m, IsSpace);
    if m > 0 && w > 0 then Some(m + w) else None
  }

  /** What a bullet line contributes: its text without the marker, trimmed
      and cut to 120 characters, unless that text is empty. */
  function BulletItem(line: string): (r: Option<string>)
    ensures r.Some? ==> BulletStart(line).Some? && 0 < |r.value| <= MaxSnippet
    ensures r.Some? ==> r.value <= Trim(line[BulletStart(line).value..])
    ensures r.Some? ==> |r.value| == if |Trim(line[BulletStart(line).value..])| <= MaxSnippet
                                     then |Trim(line[BulletStart(line).value..])| else MaxSnippet
    ensures r.Some? ==> !IsSpace(r.value[0]) && Occurs(line, r.value)
  {
    match BulletStart(line)
    case None => None
    case Some(p) =>
      var snippet := Trim(line[p..]);
      if |snippet| > 0 then
        var item := Take(snippet, MaxSnippet);
        assert SliceAt(line, line[p..], p);
        OccursInOccurs(line, line[p..], snippet);
        assert SliceAt(snippet, item, 0);
        OccursInOccurs(line, snippet, item);
        Some(item)
      else None
  }

  const SectionWords: seq<string> := ["experience", "education", "skills", "certifications", "summary"]

  /** `/^\s*(experience|education|skills|certifications|summary)\b/i` */
  function IsSectionStart(line: string): (b: bool)
    ensures b ==> 6 <= |line|
  {
    var k := RunLength(line, 0, IsSpace);
    exists w :: w in SectionWords && MatchAt(line, w, k, WordEnd)
  }

  /** The flag after a line, and the entry the line contributes, if any. */
  datatype LineOutcome = LineOutcome(inProjects: bool, item: Option<string>)

  /** Entries are never empty, never start with whitespace, and are
      verbatim pieces of the line they come from. */
  ghost predicate IsPieceOf(line: string, s: string) {
    && |s| > 0
    && !IsSpace(s[0])
    && Occurs(line, s)
  }

  /** One iteration of the loop, given the trimmed line. */
  function ScanLine(inProjects: bool, line: string): (o: LineOutcome)
    ensures IsProjectsHeader(line) ==> o.inProjects && o.item.None?
    ensures o.inProjects ==> inProjects || IsProjectsHeader(line)
    ensures inProjects && !o.inProjects ==> IsSectionStart(line)
    ensures o.item.Some? ==> Occurs(line, o.item.value)
    ensures o.item.Some? ==> (inProjects && IsTitleLine(line)) || BulletStart(line).Some?
  {
    if |line| == 0 then LineOutcome(inProjects, None)
    else if IsProjectsHeader(line) then LineOutcome(true, None)
    else if inProjects && IsTitleLine(line) then LineOutcome(true, Some(TitleText(line)))
    else LineOutcome(inProjects && !IsSectionStart(line), BulletItem(line))
  }

  /** Every entry is a non-empty piece of its line that does not start
      with whitespace. */
  lemma ScanLineItemIsPiece(inProjects: bool, line: string)
    requires IsTrimmed(line)
    ensures ScanLine(inProjects, line).item.Some? ==> IsPieceOf(line, ScanLine(inProjects, line).item.value)
  {
    if |line| > 0 && !IsProjectsHeader(line) {
      if inProjects && IsTitleLine(line) {
        TitleIsPiece(line);
      } else {
        BulletIsPiece(line);
      }
    }
  }

  lemma RawLineItemIsPiece(inProjects: bool, raw: string)
    ensures ScanLine(inProjects, Trim(raw)).item.Some? ==>
              IsPieceOf(raw, ScanLine(inProjects, Trim(raw)).item.value)
  {
    var o := ScanLine(inProjects, Trim(raw));
    ScanLineItemIsPiece(inProjects, Trim(raw));
    if o.item.Some? {
      PieceOfPiece(raw, Trim(raw), o.item.value);
    }
  }

  lemma PieceOfPiece(raw: string, line: string, s: string)
    requires Occurs(raw, line)
    requires IsPieceOf(line, s)
    ensures IsPieceOf(raw, s)
  {
    OccursInOccurs(raw, line, s);
  }

  /** A title taken from a trimmed title line starts with the line's
      upper-case letter. */
  lemma TitleIsPiece(line: string)
    requires |line| > 0 && !IsSpace(line[0]) && IsTitleLine(line)
    ensures IsPieceOf(line, TitleText(line))
    ensures TitleText(line)[0] == line[0]
  {
    var d := DropTrail(line);
    assert |d| > 0 && d[0] == line[0];
    TrimKeepsFirst(d);
    assert SliceAt(line, d, 0);
    OccursInOccurs(line, d, TitleText(line));
  }

  /** The text of a bullet in a trimmed line is never empty. */
  lemma BulletIsPiece(line: string)
    requires |line| > 0 && !IsSpace(line[0]) && !IsSpace(line[|line| - 1])
    ensures BulletStart(line).Some? ==> BulletItem(line).Some?
    ensures BulletItem(line).Some? ==> IsPieceOf(line, BulletItem(line).value)
  {
    if BulletStart(line).Some? {
      var p := BulletStart(line).value;
      assert p < |line|;
      var snippet := Trim(line[p..]);
      TrimKeepsFirst(line[p..]);
      assert SliceAt(line, line[p..], p);
      OccursInOccurs(line, line[p..], snippet);
      var item := Take(snippet, MaxSnippet);
      assert SliceAt(snippet, item, 0);
      OccursInOccurs(line, snippet, item);
    }
  }

  /** The entries of the lines, in order, starting with the given flag. */
  function ScanLines(lines: seq<string>, inProjects: bool): (items: seq<string>)
    ensures forall s :: s in items ==> exists k :: 0 <= k < |lines| && IsPieceOf(lines[k], s)
  {
    if |lines| == 0 then []
    else
      var o := ScanLine(inProjects, Trim(lines[0]));
      var rest := ScanLines(lines[1..], o.inProjects);
      RawLineItemIsPiece(inProjects, lines[0]);
      PiecesOfLines(lines, o.item, rest);
      match o.item
      case Some(s) => [s] + rest
      case None => rest
  }

  /** The entries found from the second line on, and the entry of the
      first line, are all pieces of some line. */
  lemma PiecesOfLines(lines: seq<string>, item: Option<string>, rest: seq<string>)
    requires |lines| > 0
    requires item.Some? ==> IsPieceOf(lines[0], item.value)
    requires forall s :: s in rest ==> exists k :: 0 <= k < |lines[1..]| && IsPieceOf(lines[1..][k], s)
    ensures forall s :: s in rest ==> exists k :: 0 <= k < |lines| && IsPieceOf(lines[k], s)
    ensures item.Some? ==> forall s :: s in [item.value] + rest ==> exists k :: 0 <= k < |lines| && IsPieceOf(lines[k], s)
  {
    forall s | s in rest ensures exists k :: 0 <= k < |lines| && IsPieceOf(lines[k], s) {
      var k :| 0 <= k < |lines[1..]| && IsPieceOf(lines[1..][k], s);
      assert lines[k + 1] == lines[1..][k];
    }
  }

  predicate IsNewline(c: char) { c == '\n' }

  /** `text.split(/\r?\n/)`: a `\r` left at the end of a line is removed
      by the trim every line goes through. */
  function Lines(text: string): (lines: seq<string>)
    ensures forall k :: 0 <= k < |lines| ==> Occurs(text, lines[k])
  {
    SplitPiecesOccur(text, IsNewline);
    SplitOn(text, IsNewline)
  }

  /** Every entry the scan finds, with repeats, in order. */
  function Found(text: string): (items: seq<string>)
    ensures forall s :: s in items ==> IsPieceOf(text, s)
  {
    FoundArePieces(text);
    ScanLines(Lines(text), false)
  }

  lemma FoundArePieces(text: string)
    ensures forall s :: s in ScanLines(Lines(text), false) ==> IsPieceOf(text, s)
  {
    var lines := Lines(text);
    forall s | s in ScanLines(lines, false) ensures IsPieceOf(text, s) {
      var k :| 0 <= k < |lines| && IsPieceOf(lines[k], s);
      PieceOfPiece(text, lines[k], s);
    }
  }

  /** `extractProjects`: the distinct entries in order of first occurrence,
      at most five; each is a verbatim, non-empty piece of the text. */
  function ExtractProjects(text: string): (r: seq<string>)
    ensures |r| <= MaxProjects
    ensures Distinct(r)
    ensures forall s :: s in r ==> s in Found(text)
    ensures forall s :: s in r ==> IsPieceOf(text, s)
  {
    var found := Found(text);
    var r := Take(Dedup(found), MaxProjects);
    assert forall s :: s in r ==> s in Dedup(found);
    r
  }

  /** Projects are listed in the order they are first found; an entry
      that was found but not listed lost to five that were found earlier. */
  lemma ProjectsInFirstOccurrenceOrder(text: string)
    ensures var found := Found(text);
            var listed := ExtractProjects(text);
            forall i, j :: 0 <= i < j < |listed| ==> IndexOf(found, listed[i]) < IndexOf(found, listed[j])
    ensures var found := Found(text);
            var listed := ExtractProjects(text);
            forall s :: s in found && s !in listed ==>
              && |listed| == MaxProjects
              && forall t :: t in listed ==> IndexOf(found, t) < IndexOf(found, s)
  {
    var found := Found(text);
    var r := ExtractProjects(text);
    assert r == Take(Dedup(found), MaxProjects);
    TakeDedupOrder(found, MaxProjects);
    forall s | s in found && s !in r
      ensures |r| == MaxProjects
      ensures forall t :: t in r ==> IndexOf(found, t) < IndexOf(found, s)
    {
      TakeDedupCutoff(found, MaxProjects, s);
    }
  }

  // ---------------------------------------------------------------------
  // The flag
  // ---------------------------------------------------------------------

  /** A header line contributes nothing and opens the section, whatever
      follows "Projects" on it. */
  lemma HeaderOpensSection(lines: seq<string>, inProjects: bool)
    requires |lines| > 0 && IsProjectsHeader(Trim(lines[0]))
    ensures ScanLines(lines, inProjects) == ScanLines(lines[1..], true)
  {
  }

  /** A bullet line contributes its text whether or not the section is
      open: it can be neither a header nor a title. */
  lemma BulletsCountEverywhere(inProjects: bool, line: string)
    requires IsTrimmed(line) && BulletStart(line).Some?
    ensures ScanLine(inProjects, line).item.Some?
    ensures ScanLine(inProjects, line).item == BulletItem(line)
  {
    assert !IsLetter(line[0]) by {
      assert line[0] == Bullet || line[0] == '-' || IsDigit(line[0]);
    }
    assert !IsProjectsHeader(line) by {
      assert !CharMatches(line[0], "project"[0], true);
      assert !CharMatches(line[0], "projects"[0], true);
    }
    assert !IsTitleLine(line) by {
      assert RunLength(line, 0, IsSpace) == 0;
    }
    BulletIsPiece(line);
  }

  /** Inside the section a title line is always an entry and never closes
      the section, even when it is a section word such as "Experience". */
  lemma TitleKeepsSectionOpen(line: string)
    requires IsTitleLine(line) && !IsProjectsHeader(line)
    ensures ScanLine(true, line).inProjects
    ensures ScanLine(true, line).item == Some(TitleText(line))
  {
  }

  /** Outside the section only a header opens it; inside, only a line that
      is neither a header nor a title and starts with a section word closes
      it. */
  lemma FlagChanges(inProjects: bool, line: string)
    ensures !inProjects ==> (ScanLine(inProjects, line).inProjects <==> IsProjectsHeader(line))
    ensures inProjects ==> (!ScanLine(inProjects, line).inProjects <==>
              && |line| > 0
              && !IsProjectsHeader(line)
              && !IsTitleLine(line)
              && IsSectionStart(line))
  {
  }

  /** Reference definition: the bullet texts of the lines, in order. */
  function BulletItems(lines: seq<string>): (items: seq<string>)
    ensures |items| <= |lines|
  {
    if |lines| == 0 then []
    else
      var rest := BulletItems(lines[1..]);
      match BulletItem(Trim(lines[0]))
      case Some(s) => [s] + rest
      case None => rest
  }

  /** Without a header line the section never opens, and the entries are
      exactly the bullet texts. */
  lemma {:induction false} NoHeaderOnlyBullets(lines: seq<string>)
    requires forall k :: 0 <= k < |lines| ==> !IsProjectsHeader(Trim(lines[k]))
    ensures ScanLines(lines, false) == BulletItems(lines)
  {
    if |lines| > 0 {
      var line := Trim(lines[0]);
      assert !IsProjectsHeader(line);
      assert !ScanLine(false, line).inProjects;
      if |line| > 0 {
        BulletIsPiece(line);
      }
      NoHeaderOnlyBullets(lines[1..]);
    }
  }

  /** A single line that contributes nothing yields nothing. */
  lemma QuietLine(line: string, inProjects: bool)
    requires ScanLine(inProjects, Trim(line)).item.None?
    ensures ScanLines([line], inProjects) == []
  {
    assert [line][1..] == [];
  }

  /** A title is kept whole, however long: only bullet texts are cut. */
  lemma TitlesAreNotCut(header: string, title: string)
    requires IsProjectsHeader(Trim(header))
    requires IsTrimmed(title) && IsTitleLine(title) && !IsProjectsHeader(title) && title[|title| - 1] != '-'
    ensures ScanLines([header, title], false) == [title]
  {
    HeaderOpensSection([header, title], false);
    assert [header, title][1..] == [title];
    TitleLineAlone(title);
  }

  /** Inside the section, a trimmed title line on its own yields itself. */
  lemma TitleLineAlone(title: string)
    requires IsTrimmed(title) && IsTitleLine(title) && !IsProjectsHeader(title) && title[|title| - 1] != '-'
    ensures ScanLines([title], true) == [title]
  {
    TrimUntouched(title);
    assert DropTrail(title) == title;
    assert TitleText(title) == title;
    TitleKeepsSectionOpen(title);
    assert [title][1..] == [];
  }

  /** A text without line breaks is one line. */
  lemma {:induction false} OneLine(text: string)
    requires forall i :: 0 <= i < |text| ==> text[i] != '\n'
    ensures Lines(text) == [text]
  {
    SplitWithoutSeparator(text);
  }

  lemma {:induction false} SplitWithoutSeparator(s: string)
    requires forall i :: 0 <= i < |s| ==> s[i] != '\n'
    ensures SplitOn(s, IsNewline) == [s]
  {
    if |s| > 0 {
      SplitWithoutSeparator(s[1..]);
      assert [s[0]] + s[1..] == s;
    }
  }

  /** The header is not anchored at the end of the line: a one-line text
      that starts with "Projects" yields nothing, whatever follows. */
  lemma HeaderLineYieldsNothing(text: string)
    requires forall i :: 0 <= i < |text| ==> text[i] != '\n'
    requires IsProjectsHeader(Trim(text))
    ensures ExtractProjects(text) == []
  {
    OneLine(text);
    HeaderOpensSection([text], false);
    assert Found(text) == [];
  }

  lemma InlineListIsHeader()
    ensures IsProjectsHeader("Projects: Inventory System, Chat App")
  {
    assert MatchAt("Projects: Inventory System, Chat App", "projects", 0, WordEnd);
  }

  /** "Projects: Inventory System, Chat App" is a header line: it opens the
      section and its two project names are lost. */
  lemma InlineProjectListIsLost()
    ensures ScanLine(false, "Projects: Inventory System, Chat App") == LineOutcome(true, None)
  {
    InlineListIsHeader();
  }

  lemma ExperienceIsATitleLine()
    ensures IsTitleLine("Experience") && !IsProjectsHeader("Experience")
  {
    assert RunLength("Experience", 0, IsSpace) == 0;
  }

  lemma ExperienceTitleText()
    ensures TitleText("Experience") == "Experience"
  {
    TrimUntouched("Experience");
    assert DropTrail("Experience") == "Experience";
  }

  /** A section word shaped like a title is taken as a project and keeps
      the section open. */
  lemma SectionWordAsTitle()
    ensures ScanLine(true, "Experience") == LineOutcome(true, Some("Experience"))
  {
    ExperienceIsATitleLine();
    ExperienceTitleText();
    TitleKeepsSectionOpen("Experience");
  }
}
