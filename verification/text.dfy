/** Characters and strings as the pipeline reads them: ASCII character
    classes, ASCII case folding, JavaScript's `trim` and `split`, and
    recognisers for the few regular-expression shapes the pipeline uses to
    look for a literal word in a text. */
module Text {
  import opened Seqs

  predicate IsUpper(c: char) { 'A' <= c <= 'Z' }
  predicate IsLower(c: char) { 'a' <= c <= 'z' }
  predicate IsLetter(c: char) { IsUpper(c) || IsLower(c) }
  predicate IsDigit(c: char) { '0' <= c <= '9' }

  /** `\w` of a regular expression without the `u` flag: `[A-Za-z0-9_]`. */
  predicate IsWordChar(c: char) { IsLetter(c) || IsDigit(c) || c == '_' }

  /** ECMAScript WhiteSpace and LineTerminator: what `\s` matches and what
      `String.prototype.trim` removes. */
  predicate IsSpace(c: char) {
    || c == '\t' || c == '\n' || c == '\U{000B}' || c == '\U{000C}' || c == '\r' || c == ' '
    || c == '\U{00A0}' || c == '\U{1680}' || ('\U{2000}' <= c <= '\U{200A}')
    || c == '\U{2028}' || c == '\U{2029}' || c == '\U{202F}' || c == '\U{205F}'
    || c == '\U{3000}' || c == '\U{FEFF}'
  }

  function LowerChar(c: char): (d: char)
    ensures !IsUpper(d)
    ensures IsLetter(c) <==> IsLetter(d)
  {
    if IsUpper(c) then (c as int + 32) as char else c
  }

  function UpperChar(c: char): (d: char)
    ensures !IsLower(d)
    ensures LowerChar(d) == LowerChar(c)
  {
    if IsLower(c) then (c as int - 32) as char else c
  }

  /** ASCII `toLowerCase`. */
  function Lower(s: string): (r: string)
    ensures |r| == |s|
    ensures forall i :: 0 <= i < |s| ==> r[i] == LowerChar(s[i])
  {
    seq(|s|, i requires 0 <= i < |s| => LowerChar(s[i]))
  }

  /** No ASCII upper-case letter occurs in `s`. */
  predicate IsLowerCase(s: string) {
    forall i :: 0 <= i < |s| ==> !IsUpper(s[i])
  }

  lemma LowerOfLowerCase(s: string)
    requires IsLowerCase(s)
    ensures Lower(s) == s
  {
  }

  /** Joining lower-case strings with a lower-case separator gives a
      lower-case string. */
  lemma {:induction false} JoinIsLowerCase(xs: seq<string>, sep: string)
    requires IsLowerCase(sep) && forall x :: x in xs ==> IsLowerCase(x)
    ensures IsLowerCase(Join(xs, sep))
  {
    if |xs| > 1 {
      JoinIsLowerCase(xs[1..], sep);
      var rest := Join(xs[1..], sep);
      assert Join(xs, sep) == xs[0] + sep + rest;
      assert xs[0] in xs;
    }
  }

  lemma LowerAppend(a: string, b: string)
    ensures Lower(a + b) == Lower(a) + Lower(b)
  {
  }

  /** `s` without its leading whitespace. */
  function TrimStart(s: string): (r: string)
    ensures |r| <= |s| && r == s[|s| - |r|..]
    ensures |r| == 0 || !IsSpace(r[0])
    ensures forall i :: 0 <= i < |s| - |r| ==> IsSpace(s[i])
  {
    if |s| > 0 && IsSpace(s[0]) then
      var r := TrimStart(s[1..]);
      assert forall i :: 0 < i < |s| - |r| ==> s[i] == s[1..][i - 1];
      r
    else s
  }

  /** `s` without its trailing whitespace. */
  function TrimEnd(s: string): (r: string)
    ensures |r| <= |s| && r == s[..|r|]
    ensures |r| == 0 || !IsSpace(r[|r| - 1])
    ensures forall i :: |r| <= i < |s| ==> IsSpace(s[i])
  {
    if |s| > 0 && IsSpace(s[|s| - 1]) then TrimEnd(s[..|s| - 1]) else s
  }

  /** No whitespace at either end. */
  predicate IsTrimmed(s: string) {
    |s| == 0 || (!IsSpace(s[0]) && !IsSpace(s[|s| - 1]))
  }

  /** `r` is `s` with nothing but whitespace removed at its two ends. */
  predicate StripsSpace(s: string, r: string) {
    exists a, b :: 0 <= a <= b <= |s| && r == s[a..b]
                && (forall i :: 0 <= i < a ==> IsSpace(s[i]))
                && (forall i :: b <= i < |s| ==> IsSpace(s[i]))
  }

  /** `String.prototype.trim`. */
  function Trim(s: string): (r: string)
    ensures IsTrimmed(r)
    ensures Occurs(s, r)
  {
    var a := TrimStart(s);
    var r := TrimEnd(a);
    assert SliceAt(s, r, |s| - |a|) by {
      assert s[|s| - |a|..][..|r|] == r;
    }
    r
  }

  /** Trimming removes whitespace at the two ends of `s` and nothing more. */
  lemma TrimStripsSpace(s: string)
    ensures StripsSpace(s, Trim(s))
  {
    var a := TrimStart(s);
    var r := TrimEnd(a);
    var lo, hi := |s| - |a|, |s| - |a| + |r|;
    assert s[lo..hi] == r by {
      assert s[lo..][..|r|] == r;
    }
    assert forall i :: hi <= i < |s| ==> IsSpace(s[i]) by {
      forall i | hi <= i < |s| ensures IsSpace(s[i]) {
        assert s[i] == a[i - lo];
      }
    }
  }

  /** A string that starts with a non-space keeps its first character when
      trimmed. */
  lemma TrimKeepsFirst(s: string)
    requires |s| > 0 && !IsSpace(s[0])
    ensures |Trim(s)| > 0 && Trim(s)[0] == s[0]
  {
    assert TrimStart(s) == s;
  }

  /** A string with no whitespace at either end is its own trim. */
  lemma TrimUntouched(s: string)
    requires IsTrimmed(s)
    ensures Trim(s) == s
  {
    assert TrimStart(s) == s;
  }

  /** Whitespace behind a trimmed string is all that trimming removes. */
  lemma TrimTrailingSpace(t: string, gap: string)
    requires IsTrimmed(t) && |t| > 0
    requires forall i :: 0 <= i < |gap| ==> IsSpace(gap[i])
    ensures Trim(t + gap) == t
  {
    assert TrimStart(t + gap) == t + gap by {
      assert (t + gap)[0] == t[0];
    }
    TrimEndSpaces(t, gap);
  }

  lemma {:induction false} TrimEndSpaces(t: string, gap: string)
    requires |t| == 0 || !IsSpace(t[|t| - 1])
    requires forall i :: 0 <= i < |gap| ==> IsSpace(gap[i])
    ensures TrimEnd(t + gap) == t
  {
    var s := t + gap;
    if |gap| == 0 {
      assert s == t;
    } else {
      assert s[|s| - 1] == gap[|gap| - 1];
      assert s[..|s| - 1] == t + gap[..|gap| - 1];
      TrimEndSpaces(t, gap[..|gap| - 1]);
    }
  }

  /** Trimming a trimmed string changes nothing. */
  lemma TrimIdempotent(s: string)
    ensures Trim(Trim(s)) == Trim(s)
  {
  }

  /** Splits `s` at every character satisfying `isSep`; separators are
      dropped and neighbouring separators produce empty pieces, as
      `String.prototype.split` does. */
  function SplitOn(s: string, isSep: char -> bool): (r: seq<string>)
    ensures |r| >= 1
    ensures forall k :: 0 <= k < |r| ==> forall c :: c in r[k] ==> !isSep(c)
  {
    if |s| == 0 then [""]
    else
      var rest := SplitOn(s[1..], isSep);
      if isSep(s[0]) then [""] + rest
      else [[s[0]] + rest[0]] + rest[1..]
  }

  /** A split has one piece more than there are separators, and putting
      the separators back between the pieces, in order, gives the text
      back. */
  lemma {:induction false} SplitRejoin(s: string, isSep: char -> bool)
    ensures |SplitOn(s, isSep)| == |Filter(s, isSep)| + 1
    ensures Rejoin(SplitOn(s, isSep), Filter(s, isSep)) == s
  {
    if |s| > 0 {
      var rest := SplitOn(s[1..], isSep);
      SplitRejoin(s[1..], isSep);
      FilterCons(s[0], s[1..], isSep);
      assert s == [s[0]] + s[1..];
      if isSep(s[0]) {
        var r := [""] + rest;
        assert r[1..] == rest;
      } else {
        RejoinExtendFirst(s[0], rest, Filter(s[1..], isSep));
      }
    }
  }

  /** The pieces with the separators `seps` put back between them, in order. */
  function Rejoin(pieces: seq<string>, seps: string): string
    requires |pieces| == |seps| + 1
    decreases |seps|
  {
    if |seps| == 0 then pieces[0]
    else pieces[0] + [seps[0]] + Rejoin(pieces[1..], seps[1..])
  }

  /** Growing the first piece by one character grows the rejoined text by it. */
  lemma RejoinExtendFirst(c: char, pieces: seq<string>, seps: string)
    requires |pieces| == |seps| + 1
    ensures Rejoin([[c] + pieces[0]] + pieces[1..], seps) == [c] + Rejoin(pieces, seps)
  {
    var grown := [[c] + pieces[0]] + pieces[1..];
    assert grown[1..] == pieces[1..];
  }

  /** A split cuts nowhere inside a leading stretch of non-separators. */
  lemma {:induction false} SplitPrefix(s: string, isSep: char -> bool, k: nat)
    requires k <= |s|
    requires forall i :: 0 <= i < k ==> !isSep(s[i])
    ensures SplitOn(s, isSep) == [s[..k] + SplitOn(s[k..], isSep)[0]] + SplitOn(s[k..], isSep)[1..]
  {
    if k == 0 {
      assert s[..0] + SplitOn(s, isSep)[0] == SplitOn(s, isSep)[0];
      assert s[0..] == s;
    } else {
      SplitPrefix(s[1..], isSep, k - 1);
      assert s[1..][k - 1..] == s[k..];
      assert s[1..][..k - 1] == s[1..k];
      SplitPrefixStep(s, isSep, k, SplitOn(s[k..], isSep));
    }
  }

  /** The step of `SplitPrefix`: one more leading non-separator. */
  lemma SplitPrefixStep(s: string, isSep: char -> bool, k: nat, q: seq<string>)
    requires 0 < k <= |s| && !isSep(s[0]) && |q| >= 1
    requires SplitOn(s[1..], isSep) == [s[1..k] + q[0]] + q[1..]
    ensures SplitOn(s, isSep) == [s[..k] + q[0]] + q[1..]
  {
    var rest := SplitOn(s[1..], isSep);
    var first := s[1..k] + q[0];
    assert rest[0] == first && rest[1..] == q[1..] by {
      assert rest == [first] + q[1..];
    }
    SplitAtNonSeparator(s, isSep);
    assert s[..k] + q[0] == [s[0]] + first by {
      assert s[..k] == [s[0]] + s[1..k];
    }
  }

  /** A leading non-separator joins the first piece of the rest. */
  lemma SplitAtNonSeparator(s: string, isSep: char -> bool)
    requires |s| > 0 && !isSep(s[0])
    ensures SplitOn(s, isSep) == [[s[0]] + SplitOn(s[1..], isSep)[0]] + SplitOn(s[1..], isSep)[1..]
  {
  }

  /** The maximal runs of characters satisfying `inRun`, in text order. */
  function Runs(s: string, inRun: char -> bool): (rs: seq<string>)
    decreases |s|
    ensures forall w :: w in rs ==> |w| > 0 && forall c :: c in w ==> inRun(c) && c in s
  {
    if |s| == 0 then []
    else if !inRun(s[0]) then Runs(s[1..], inRun)
    else
      var n := RunLength(s, 0, inRun);
      assert forall c :: c in s[..n] ==> inRun(c) && c in s;
      assert forall c :: c in s[n..] ==> c in s;
      [s[..n]] + Runs(s[n..], inRun)
  }

  /** Splitting at the separators and dropping the empty pieces leaves the
      maximal runs of non-separators. */
  lemma {:induction false} SplitDropEmptyIsRuns(s: string, isSep: char -> bool, inRun: char -> bool)
    requires forall c :: inRun(c) <==> !isSep(c)
    decreases |s|
    ensures Filter(SplitOn(s, isSep), (w: string) => |w| > 0) == Runs(s, inRun)
  {
    var nonEmpty := (w: string) => |w| > 0;
    if |s| > 0 {
      if isSep(s[0]) {
        SplitDropEmptyIsRuns(s[1..], isSep, inRun);
        SplitAtSeparator(s, isSep);
        FilterCons("", SplitOn(s[1..], isSep), nonEmpty);
      } else {
        var n := RunLength(s, 0, inRun);
        if n == |s| {
          SplitWholeRun(s, isSep);
          FilterCons(s, [], nonEmpty);
          RunsWhole(s, inRun);
        } else {
          var t := s[n + 1..];
          SplitDropEmptyIsRuns(t, isSep, inRun);
          SplitAtRunEnd(s, isSep, n);
          FilterCons(s[..n], SplitOn(t, isSep), nonEmpty);
          RunsAtRunEnd(s, inRun, n);
        }
      }
    }
  }

  lemma SplitAtSeparator(s: string, isSep: char -> bool)
    requires |s| > 0 && isSep(s[0])
    ensures SplitOn(s, isSep) == [""] + SplitOn(s[1..], isSep)
  {
  }

  /** A text without separators is its own single piece. */
  lemma SplitWholeRun(s: string, isSep: char -> bool)
    requires forall i :: 0 <= i < |s| ==> !isSep(s[i])
    ensures SplitOn(s, isSep) == [s]
  {
    SplitPrefix(s, isSep, |s|);
    var empty := s[|s|..];
    assert empty == [];
    var q := SplitOn(empty, isSep);
    assert q == [""];
    assert s[..|s|] + q[0] == s;
    assert q[1..] == [];
  }

  /** A leading run ended by a separator is the first piece. */
  lemma SplitAtRunEnd(s: string, isSep: char -> bool, n: nat)
    requires n < |s| && isSep(s[n])
    requires forall i :: 0 <= i < n ==> !isSep(s[i])
    ensures SplitOn(s, isSep) == [s[..n]] + SplitOn(s[n + 1..], isSep)
  {
    var u, t := s[n..], s[n + 1..];
    SplitPrefix(s, isSep, n);
    assert u[1..] == t;
    SplitAtSeparator(u, isSep);
    var q := SplitOn(u, isSep);
    assert q[0] == "" && q[1..] == SplitOn(t, isSep);
    assert s[..n] + q[0] == s[..n];
  }

  lemma RunsWhole(s: string, inRun: char -> bool)
    requires |s| > 0 && RunLength(s, 0, inRun) == |s|
    ensures Runs(s, inRun) == [s]
  {
    assert s[..|s|] == s;
    assert s[|s|..] == [];
  }

  lemma RunsAtRunEnd(s: string, inRun: char -> bool, n: nat)
    requires 0 < n < |s| && RunLength(s, 0, inRun) == n
    ensures Runs(s, inRun) == [s[..n]] + Runs(s[n + 1..], inRun)
  {
    assert s[n..][1..] == s[n + 1..];
  }

  /** Splitting at one separator character and joining back with it gives
      the text back. */
  lemma {:induction false} SplitJoin(s: string, isSep: char -> bool, sep: char)
    requires forall c :: isSep(c) <==> c == sep
    ensures Join(SplitOn(s, isSep), [sep]) == s
  {
    if |s| > 0 {
      var rest := SplitOn(s[1..], isSep);
      SplitJoin(s[1..], isSep, sep);
      if isSep(s[0]) {
        JoinAfterEmpty(rest, [sep]);
      } else {
        JoinExtendFirst(s[0], rest, [sep]);
      }
      assert s == [s[0]] + s[1..];
    }
  }

  /** Putting an empty piece in front adds one separator. */
  lemma JoinAfterEmpty(rest: seq<string>, sep: string)
    requires |rest| >= 1
    ensures Join([""] + rest, sep) == sep + Join(rest, sep)
  {
    JoinCons("", rest, sep);
  }

  /** Growing the first piece by one character grows the join by it. */
  lemma JoinExtendFirst(c: char, rest: seq<string>, sep: string)
    requires |rest| >= 1
    ensures Join([[c] + rest[0]] + rest[1..], sep) == [c] + Join(rest, sep)
  {
    var head, tail := rest[0], rest[1..];
    JoinCons([c] + head, tail, sep);
    JoinCons(head, tail, sep);
    assert rest == [head] + tail;
    if |tail| > 0 {
      assert [c] + head + sep + Join(tail, sep) == [c] + (head + sep + Join(tail, sep));
    }
  }

  /** Every piece of a split sits, whole, somewhere in the text; the first
      one at its start. */
  lemma {:induction false} SplitPiecesOccur(s: string, isSep: char -> bool)
    ensures SplitOn(s, isSep)[0] <= s
    ensures forall k :: 0 <= k < |SplitOn(s, isSep)| ==> Occurs(s, SplitOn(s, isSep)[k])
  {
    var r := SplitOn(s, isSep);
    if |s| == 0 {
      assert SliceAt(s, r[0], 0);
    } else {
      var rest := SplitOn(s[1..], isSep);
      SplitPiecesOccur(s[1..], isSep);
      SplitHead(s, isSep);
      assert SliceAt(s, s[1..], 1);
      forall k | 0 < k < |r| ensures Occurs(s, r[k]) {
        assert r[k] in rest[..];
        var m :| 0 <= m < |rest| && rest[m] == r[k];
        OccursInOccurs(s, s[1..], rest[m]);
      }
      assert SliceAt(s, r[0], 0);
    }
  }

  /** The pieces of a split after the first are pieces of the split of
      the rest. */
  lemma SplitHead(s: string, isSep: char -> bool)
    requires |s| > 0
    ensures forall k :: 0 < k < |SplitOn(s, isSep)| ==> SplitOn(s, isSep)[k] in SplitOn(s[1..], isSep)
  {
    var r := SplitOn(s, isSep);
    var rest := SplitOn(s[1..], isSep);
    if isSep(s[0]) {
      assert forall k :: 0 < k < |r| ==> r[k] == rest[k - 1];
    } else {
      assert s == [s[0]] + s[1..];
      assert forall k :: 0 < k < |r| ==> r[k] == rest[k];
    }
  }

  lemma JoinCons(a: string, xs: seq<string>, sep: string)
    ensures Join([a] + xs, sep) == if |xs| == 0 then a else a + sep + Join(xs, sep)
  {
    assert ([a] + xs)[1..] == xs;
  }

  /** `w` is read at position `i` of `t`, ignoring ASCII case when `fold`. */
  predicate SameAt(t: string, w: string, i: nat, fold: bool) {
    && i + |w| <= |t|
    && forall k :: 0 <= k < |w| ==> CharMatches(t[i + k], w[k], fold)
  }

  predicate CharMatches(a: char, b: char, fold: bool) {
    if fold then LowerChar(a) == LowerChar(b) else a == b
  }

  lemma SameAtExact(t: string, w: string, i: nat)
    ensures SameAt(t, w, i, false) <==> SliceAt(t, w, i)
  {
    if SameAt(t, w, i, false) {
      assert t[i..i + |w|] == w;
    }
  }

  /** A match of `w` is a match of each of its suffixes, further on. */
  lemma SameAtSuffix(t: string, w: string, i: nat, j: nat, fold: bool)
    requires SameAt(t, w, i, fold) && j <= |w|
    ensures SameAt(t, w[j..], i + j, fold)
  {
    forall k | 0 <= k < |w| - j ensures CharMatches(t[i + j + k], w[j..][k], fold) {
      assert CharMatches(t[i + (j + k)], w[j + k], fold);
    }
  }

  /** `\b`: exactly one of the two characters around position `p` is a word
      character (outside the text counts as a non-word character). */
  predicate WordBoundary(t: string, p: nat) {
    (0 < p <= |t| && IsWordChar(t[p - 1])) != (p < |t| && IsWordChar(t[p]))
  }

  /** The regular-expression shapes used to look for a literal word `w`. */
  datatype Pattern =
    | Includes        // `t.includes(w)`, Python's `w in t`: exact, anywhere
    | WholeWord       // `/\bw\b/i`
    | WordStart       // `/\bw/i`
    | WordEnd         // `/w\b/i`
    | LetterDelimited // `/(^|[^a-zA-Z])w([^a-zA-Z]|$)/i`

  /** The pattern for `w` matches `t` at position `i`. All shapes except
      `Includes` carry the `i` flag and so ignore ASCII case. */
  predicate MatchAt(t: string, w: string, i: nat, p: Pattern) {
    match p
    case Includes => SameAt(t, w, i, false)
    case WholeWord => SameAt(t, w, i, true) && WordBoundary(t, i) && WordBoundary(t, i + |w|)
    case WordStart => SameAt(t, w, i, true) && WordBoundary(t, i)
    case WordEnd => SameAt(t, w, i, true) && WordBoundary(t, i + |w|)
    case LetterDelimited =>
      && SameAt(t, w, i, true)
      && (i == 0 || !IsLetter(t[i - 1]))
      && (i + |w| == |t| || !IsLetter(t[i + |w|]))
  }

  /** Reads `w[k..]` against `t[i + k..]` one character at a time. */
  function SameFrom(t: string, w: string, i: nat, k: nat, fold: bool): bool
    requires k <= |w|
    decreases |w| - k
  {
    if k == |w| then i + |w| <= |t|
    else i + k < |t| && CharMatches(t[i + k], w[k], fold) && SameFrom(t, w, i, k + 1, fold)
  }

  lemma {:induction false} SameFromSound(t: string, w: string, i: nat, k: nat, fold: bool)
    requires k <= |w|
    decreases |w| - k
    ensures SameFrom(t, w, i, k, fold)
            <==> i + |w| <= |t| && forall m :: k <= m < |w| ==> CharMatches(t[i + m], w[m], fold)
  {
    if k < |w| {
      SameFromSound(t, w, i, k + 1, fold);
    }
  }

  /** Decides `MatchAt` at one position, reading characters one at a time. */
  function ProbeAt(t: string, w: string, i: nat, p: Pattern): bool
  {
    var same := SameFrom(t, w, i, 0, p != Includes);
    match p
    case Includes => same
    case WholeWord => same && WordBoundary(t, i) && WordBoundary(t, i + |w|)
    case WordStart => same && WordBoundary(t, i)
    case WordEnd => same && WordBoundary(t, i + |w|)
    case LetterDelimited =>
      && same
      && (i == 0 || (i <= |t| && !IsLetter(t[i - 1])))
      && (i + |w| >= |t| || !IsLetter(t[i + |w|]))
  }

  lemma ProbeAtSound(t: string, w: string, i: nat, p: Pattern)
    ensures ProbeAt(t, w, i, p) <==> MatchAt(t, w, i, p)
  {
    SameFromSound(t, w, i, 0, p != Includes);
  }

  /** Tries the positions `from`, `from + 1`, ... of `t` in turn, as a
      regular-expression search does. */
  function SearchFrom(t: string, w: string, p: Pattern, from: nat): bool
    decreases |t| + 1 - from
  {
    if from > |t| then false
    else ProbeAt(t, w, from, p) || SearchFrom(t, w, p, from + 1)
  }

  lemma {:induction false} SearchFromSound(t: string, w: string, p: Pattern, from: nat)
    decreases |t| + 1 - from
    ensures SearchFrom(t, w, p, from) <==> exists i: nat :: from <= i && MatchAt(t, w, i, p)
  {
    if from <= |t| {
      ProbeAtSound(t, w, from, p);
      SearchFromSound(t, w, p, from + 1);
      if exists i: nat :: from <= i && MatchAt(t, w, i, p) {
        var i: nat :| from <= i && MatchAt(t, w, i, p);
        assert i == from || from + 1 <= i;
      }
    }
  }

  /** The pattern for `w` matches somewhere in `t` (`RegExp.prototype.test`). */
  function Matches(t: string, w: string, p: Pattern): (found: bool)
    ensures found <==> exists i: nat :: MatchAt(t, w, i, p)
  {
    SearchFromSound(t, w, p, 0);
    SearchFrom(t, w, p, 0)
  }

  /** Exact substring test: `String.prototype.includes`, Python's `in`. */
  function Contains(t: string, w: string): (found: bool)
    ensures found <==> Occurs(t, w)
  {
    var found := Matches(t, w, Includes);
    assert found <==> exists i: nat :: SliceAt(t, w, i) by {
      forall i: nat ensures MatchAt(t, w, i, Includes) <==> SliceAt(t, w, i) {
        SameAtExact(t, w, i);
      }
    }
    found
  }

  /** A word that is the whole text matches it between non-letters. */
  lemma WordMatchesAlone(w: string)
    ensures Matches(w, w, LetterDelimited)
  {
    assert MatchAt(w, w, 0, LetterDelimited);
  }

  /** A word longer than the text never matches it. */
  lemma NoMatchWhenLonger(t: string, w: string, p: Pattern)
    requires |t| < |w|
    ensures !Matches(t, w, p)
  {
  }

  /** Text around an occurrence never removes it. */
  lemma ContainsExtend(a: string, t: string, b: string, w: string)
    requires Contains(t, w)
    ensures Contains(a + t + b, w)
  {
    var i: nat :| SliceAt(t, w, i);
    assert (a + t + b)[|a| + i..|a| + i + |w|] == t[i..i + |w|];
    assert SliceAt(a + t + b, w, |a| + i);
  }

  lemma ContainsLeft(a: string, b: string, w: string)
    requires Contains(a, w)
    ensures Contains(a + b, w)
  {
    ContainsExtend([], a, b, w);
    assert [] + a + b == a + b;
  }

  lemma ContainsRight(a: string, b: string, w: string)
    requires Contains(b, w)
    ensures Contains(a + b, w)
  {
    ContainsExtend(a, b, [], w);
    assert a + b + [] == a + b;
  }

  lemma ContainsSelf(w: string)
    ensures Contains(w, w)
  {
    assert SliceAt(w, w, 0);
  }

  /** Number of consecutive characters satisfying `inRun` from position `from`. */
  function RunLength(s: string, from: nat, inRun: char -> bool): (n: nat)
    decreases |s| - from
    ensures from <= |s| ==> from + n <= |s|
    ensures from > |s| ==> n == 0
    ensures forall k :: from <= k < from + n ==> inRun(s[k])
    ensures from + n < |s| ==> !inRun(s[from + n])
  {
    if from < |s| && inRun(s[from]) then 1 + RunLength(s, from + 1, inRun) else 0
  }

  /** Code-unit order of `Array.prototype.sort` without a comparator: the
      first differing character decides, and a proper prefix comes first. */
  predicate LexLess(a: string, b: string)
    decreases |a|
  {
    if |a| == 0 then |b| > 0
    else if |b| == 0 then false
    else if a[0] != b[0] then a[0] < b[0]
    else LexLess(a[1..], b[1..])
  }

  lemma {:induction false} LexLessIrreflexive(a: string)
    ensures !LexLess(a, a)
  {
    if |a| > 0 {
      LexLessIrreflexive(a[1..]);
    }
  }

  lemma {:induction false} LexLessTransitive(a: string, b: string, c: string)
    requires LexLess(a, b) && LexLess(b, c)
    ensures LexLess(a, c)
    decreases |a|
  {
    if |a| > 0 && a[0] == b[0] && b[0] == c[0] {
      LexLessTransitive(a[1..], b[1..], c[1..]);
    }
  }

  lemma {:induction false} LexLessTotal(a: string, b: string)
    requires a != b
    ensures LexLess(a, b) != LexLess(b, a)
    decreases |a|
  {
    if |a| > 0 && |b| > 0 && a[0] == b[0] {
      assert a == [a[0]] + a[1..] && b == [b[0]] + b[1..];
      LexLessTotal(a[1..], b[1..]);
    }
  }
}
