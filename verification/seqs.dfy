/** Generic sequence helpers shared by the pipeline: filtering, mapping,
    counting, first-occurrence de-duplication and joining. */
module Seqs {

  /** `xs` holds no value twice. */
  predicate Distinct<T(==)>(xs: seq<T>) {
    forall i, j :: 0 <= i < j < |xs| ==> xs[i] != xs[j]
  }

  /** `xs` can be obtained from `ys` by deleting elements. */
  predicate IsSubsequence<T(==)>(xs: seq<T>, ys: seq<T>)
    decreases |ys|
  {
    if |xs| == 0 then true
    else if |ys| == 0 then false
    else if xs[0] == ys[0] then IsSubsequence(xs[1..], ys[1..])
    else IsSubsequence(xs, ys[1..])
  }

  /** A subsequence stays one when the longer sequence grows at the end. */
  lemma {:induction false} SubsequenceExtend<T>(xs: seq<T>, ys: seq<T>, y: T)
    requires IsSubsequence(xs, ys)
    ensures IsSubsequence(xs, ys + [y])
    decreases |ys|
  {
    if |xs| > 0 && |ys| > 0 {
      assert (ys + [y])[0] == ys[0];
      assert (ys + [y])[1..] == ys[1..] + [y];
      if xs[0] == ys[0] {
        SubsequenceExtend(xs[1..], ys[1..], y);
      } else {
        SubsequenceExtend(xs, ys[1..], y);
      }
    }
  }

  /** ... and when both grow by the same last element. */
  lemma {:induction false} SubsequenceSnoc<T>(xs: seq<T>, ys: seq<T>, y: T)
    requires IsSubsequence(xs, ys)
    ensures IsSubsequence(xs + [y], ys + [y])
    decreases |ys|
  {
    if |ys| == 0 {
      if |xs| == 0 {
        assert xs + [y] == ys + [y];
        assert (xs + [y])[1..] == [];
      }
    } else {
      assert (ys + [y])[0] == ys[0];
      assert (ys + [y])[1..] == ys[1..] + [y];
      if |xs| == 0 {
        SubsequenceSnoc(xs, ys[1..], y);
        if ys[0] == y {
          assert (xs + [y])[1..] == [];
        }
      } else {
        assert (xs + [y])[0] == xs[0];
        assert (xs + [y])[1..] == xs[1..] + [y];
        if xs[0] == ys[0] {
          SubsequenceSnoc(xs[1..], ys[1..], y);
        } else {
          SubsequenceSnoc(xs, ys[1..], y);
        }
      }
    }
  }

  /** Number of occurrences of `x` in `xs`. */
  function Count<T(==)>(xs: seq<T>, x: T): (n: nat)
    ensures n <= |xs|
    ensures n > 0 <==> x in xs
  {
    if |xs| == 0 then 0
    else (if xs[0] == x then 1 else 0) + Count(xs[1..], x)
  }

  lemma {:induction false} CountAppend<T>(xs: seq<T>, ys: seq<T>, x: T)
    ensures Count(xs + ys, x) == Count(xs, x) + Count(ys, x)
  {
    if |xs| == 0 {
      assert xs + ys == ys;
    } else {
      assert (xs + ys)[1..] == xs[1..] + ys;
      CountAppend(xs[1..], ys, x);
    }
  }

  /** Position of the first occurrence of `x` in `xs`. */
  function IndexOf<T(==)>(xs: seq<T>, x: T): (k: nat)
    requires x in xs
    ensures k < |xs| && xs[k] == x
    ensures forall j :: 0 <= j < k ==> xs[j] != x
  {
    if xs[0] == x then 0 else 1 + IndexOf(xs[1..], x)
  }

  /** The elements of `xs` that satisfy `keep`, in their original order
      (JavaScript's `Array.prototype.filter`). */
  function Filter<T(==,!new)>(xs: seq<T>, keep: T -> bool): (r: seq<T>)
    ensures |r| <= |xs|
    ensures forall x :: x in r <==> x in xs && keep(x)
    ensures IsSubsequence(r, xs)
  {
    if |xs| == 0 then []
    else if keep(xs[0]) then [xs[0]] + Filter(xs[1..], keep)
    else Filter(xs[1..], keep)
  }

  /** Filtering keeps every kept value with its full multiplicity and drops
      every other value entirely. */
  lemma {:induction false} FilterCount<T(!new)>(xs: seq<T>, keep: T -> bool, x: T)
    ensures Count(Filter(xs, keep), x) == if keep(x) then Count(xs, x) else 0
  {
    if |xs| > 0 {
      FilterCount(xs[1..], keep, x);
      if keep(xs[0]) {
        assert ([xs[0]] + Filter(xs[1..], keep))[1..] == Filter(xs[1..], keep);
      }
    }
  }

  /** Filtering a sequence whose every element is kept changes nothing. */
  lemma {:induction false} FilterKeepsAll<T(!new)>(xs: seq<T>, keep: T -> bool)
    requires forall x :: x in xs ==> keep(x)
    ensures Filter(xs, keep) == xs
  {
    if |xs| > 0 {
      FilterKeepsAll(xs[1..], keep);
    }
  }

  /** A sequence with no members is empty. */
  lemma NoMembersIsEmpty<T>(xs: seq<T>)
    requires forall x :: x !in xs
    ensures xs == []
  {
    HeadIsMember(xs);
  }

  lemma HeadIsMember<T>(xs: seq<T>)
    ensures |xs| > 0 ==> xs[0] in xs
  {
  }

  /** One step of `Filter`. */
  lemma FilterCons<T(!new)>(x: T, rest: seq<T>, keep: T -> bool)
    ensures Filter([x] + rest, keep) == (if keep(x) then [x] else []) + Filter(rest, keep)
  {
    assert ([x] + rest)[0] == x;
    assert ([x] + rest)[1..] == rest;
  }

  lemma {:induction false} FilterAppend<T(!new)>(xs: seq<T>, ys: seq<T>, keep: T -> bool)
    ensures Filter(xs + ys, keep) == Filter(xs, keep) + Filter(ys, keep)
  {
    if |xs| == 0 {
      assert xs + ys == ys;
    } else {
      assert (xs + ys)[1..] == xs[1..] + ys;
      FilterAppend(xs[1..], ys, keep);
    }
  }

  /** One more element of a prefix, filtered. */
  lemma FilterPrefixStep<T(!new)>(xs: seq<T>, i: nat, keep: T -> bool)
    requires i < |xs|
    ensures Filter(xs[..i + 1], keep) == Filter(xs[..i], keep) + Filter([xs[i]], keep)
    ensures Filter([xs[i]], keep) == if keep(xs[i]) then [xs[i]] else []
  {
    FilterAppend(xs[..i], [xs[i]], keep);
    assert xs[..i + 1] == xs[..i] + [xs[i]];
    assert [xs[i]][1..] == [];
  }

  /** `f` applied to every element of `xs` (JavaScript's `Array.prototype.map`). */
  function Apply<A, B>(xs: seq<A>, f: A -> B): (r: seq<B>)
    ensures |r| == |xs|
    ensures forall i :: 0 <= i < |xs| ==> r[i] == f(xs[i])
  {
    if |xs| == 0 then [] else [f(xs[0])] + Apply(xs[1..], f)
  }

  /** The first `n` elements, or all of them if there are fewer
      (JavaScript's `slice(0, n)`). */
  function Take<T>(xs: seq<T>, n: nat): (r: seq<T>)
    ensures |r| == if |xs| <= n then |xs| else n
    ensures |xs| <= n ==> r == xs
    ensures r <= xs
  {
    if |xs| <= n then xs else xs[..n]
  }

  /** The distinct elements of `xs` in order of first occurrence
      (`Array.from(new Set(xs))`). */
  function Dedup<T(==,!new)>(xs: seq<T>): (r: seq<T>)
    ensures Distinct(r)
    ensures forall x :: x in r <==> x in xs
    ensures |r| <= |xs|
  {
    if |xs| == 0 then []
    else
      var r0 := Dedup(xs[..|xs| - 1]);
      var last := xs[|xs| - 1];
      assert forall x :: x in xs <==> x in xs[..|xs| - 1] || x == last by {
        assert xs == xs[..|xs| - 1] + [last];
      }
      if last in r0 then r0 else r0 + [last]
  }

  /** Dedup lists the values in the order in which they first occur. */
  lemma {:induction false} DedupFirstOccurrenceOrder<T(!new)>(xs: seq<T>)
    ensures forall i, j :: 0 <= i < j < |Dedup(xs)| ==>
              IndexOf(xs, Dedup(xs)[i]) < IndexOf(xs, Dedup(xs)[j])
  {
    if |xs| > 0 {
      var init := xs[..|xs| - 1];
      var last := xs[|xs| - 1];
      DedupFirstOccurrenceOrder(init);
      var r0 := Dedup(init);
      assert xs == init + [last];
      forall y | y in init
        ensures IndexOf(xs, y) == IndexOf(init, y)
      {
        IndexOfPrefix(init, [last], y);
      }
      if last !in r0 {
        assert last !in init;
        forall i | 0 <= i < |r0|
          ensures IndexOf(xs, r0[i]) < IndexOf(xs, last)
        {
          assert r0[i] in init;
        }
      }
    }
  }

  lemma {:induction false} IndexOfPrefix<T>(xs: seq<T>, ys: seq<T>, x: T)
    requires x in xs
    ensures IndexOf(xs + ys, x) == IndexOf(xs, x)
  {
    if xs[0] != x {
      assert (xs + ys)[1..] == xs[1..] + ys;
      IndexOfPrefix(xs[1..], ys, x);
    }
  }

  /** `w` appears in `t` starting at position `i`. */
  predicate SliceAt<T(==)>(t: seq<T>, w: seq<T>, i: nat) {
    i + |w| <= |t| && t[i..i + |w|] == w
  }

  /** `w` appears somewhere in `t`, as one contiguous piece. */
  ghost predicate Occurs<T>(t: seq<T>, w: seq<T>) {
    exists off: nat :: SliceAt(t, w, off)
  }

  /** The elements of `xs` separated by `sep` (JavaScript's `join`). */
  function Join(xs: seq<string>, sep: string): string
  {
    if |xs| == 0 then ""
    else if |xs| == 1 then xs[0]
    else xs[0] + sep + Join(xs[1..], sep)
  }

  /** A join of two or more elements holds the separator right after the
      first element. */
  lemma JoinShowsSeparator(xs: seq<string>, sep: string)
    requires |xs| > 1
    ensures |xs[0]| + |sep| <= |Join(xs, sep)|
    ensures Join(xs, sep)[|xs[0]|..|xs[0]| + |sep|] == sep
  {
    var j := Join(xs, sep);
    assert j == xs[0] + sep + Join(xs[1..], sep);
  }

  /** Every element of a joined list sits, whole, at a known offset. */
  lemma {:induction false} JoinContainsEach(xs: seq<string>, sep: string, k: nat)
    requires k < |xs|
    ensures Occurs(Join(xs, sep), xs[k])
  {
    var j := Join(xs, sep);
    if k == 0 {
      if |xs| == 1 {
        assert SliceAt(j, xs[0], 0);
      } else {
        assert j == xs[0] + (sep + Join(xs[1..], sep));
        assert j[0..|xs[0]|] == xs[0];
        assert SliceAt(j, xs[0], 0);
      }
    } else {
      JoinContainsEach(xs[1..], sep, k - 1);
      var rest := Join(xs[1..], sep);
      var off: nat :| SliceAt(rest, xs[k], off);
      var pre := xs[0] + sep;
      assert j == pre + rest;
      assert j[|pre| + off..|pre| + off + |xs[k]|] == rest[off..off + |xs[k]|];
      assert SliceAt(j, xs[k], |pre| + off);
    }
  }

  /** Joining with a separator of length `m` adds `m` characters between
      neighbouring elements and nothing else. */
  lemma {:induction false} JoinLength(xs: seq<string>, sep: string)
    ensures |Join(xs, sep)| == TotalLength(xs) + (if |xs| == 0 then 0 else (|xs| - 1) * |sep|)
  {
    if |xs| > 1 {
      JoinLength(xs[1..], sep);
    }
  }

  function TotalLength(xs: seq<string>): nat
  {
    if |xs| == 0 then 0 else |xs[0]| + TotalLength(xs[1..])
  }

  /** A slice of a slice is a slice. */
  lemma OccursInOccurs<T>(a: seq<T>, b: seq<T>, c: seq<T>)
    requires Occurs(a, b) && Occurs(b, c)
    ensures Occurs(a, c)
  {
    var i: nat :| SliceAt(a, b, i);
    var j: nat :| SliceAt(b, c, j);
    SliceOfSlice(a, b, c, i, j);
  }

  lemma SliceOfSlice<T>(a: seq<T>, b: seq<T>, c: seq<T>, i: nat, j: nat)
    requires SliceAt(a, b, i) && SliceAt(b, c, j)
    ensures SliceAt(a, c, i + j)
  {
    forall k | 0 <= k < |c| ensures a[i + j + k] == c[k] {
      assert a[i..i + |b|][j + k] == b[j + k];
      assert b[j..j + |c|][k] == c[k];
    }
    assert a[i + j..i + j + |c|] == c;
  }

  /** When the first `n` distinct values leave `x` out, there are `n` of them
      and each occurs before `x` does. */
  lemma TakeDedupCutoff<T(!new)>(xs: seq<T>, n: nat, x: T)
    requires x in xs && x !in Take(Dedup(xs), n)
    ensures |Take(Dedup(xs), n)| == n
    ensures forall y :: y in Take(Dedup(xs), n) ==> IndexOf(xs, y) < IndexOf(xs, x)
  {
    var d := Dedup(xs);
    var r := Take(d, n);
    var m :| 0 <= m < |d| && d[m] == x;
    assert forall i :: 0 <= i < |r| ==> r[i] == d[i];
    assert m >= |r|;
    DedupFirstOccurrenceOrder(xs);
    forall y | y in r ensures IndexOf(xs, y) < IndexOf(xs, x) {
      var i :| 0 <= i < |r| && r[i] == y;
      assert d[i] == y;
    }
  }

  /** The first `n` distinct elements keep the order of first occurrence. */
  lemma TakeDedupOrder<T(!new)>(xs: seq<T>, n: nat)
    ensures forall i, j :: 0 <= i < j < |Take(Dedup(xs), n)| ==>
              IndexOf(xs, Take(Dedup(xs), n)[i]) < IndexOf(xs, Take(Dedup(xs), n)[j])
  {
    var d := Dedup(xs);
    var r := Take(d, n);
    DedupFirstOccurrenceOrder(xs);
    assert forall i :: 0 <= i < |r| ==> r[i] == d[i];
  }
}
