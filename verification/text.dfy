/**
 String helpers with Python `str` semantics: whitespace stripping, substring search,
 `split`/`join`, and code-point ordering of strings (the order `sorted` uses on titles).
 */
module Text {
  import opened Wrappers

  /** The separator of rendered paths and URLs. */
  const Slash: char := '/'

  /** Python's `str.isspace` for a single character. */
  predicate IsSpace(c: char) {
    || ('\t' <= c <= '\r')
    || ('\U{1C}' <= c <= '\U{1F}')
    || c == ' '
    || c == '\U{85}'
    || c == '\U{A0}'
    || c == '\U{1680}'
    || ('\U{2000}' <= c <= '\U{200A}')
    || c == '\U{2028}'
    || c == '\U{2029}'
    || c == '\U{202F}'
    || c == '\U{205F}'
    || c == '\U{3000}'
  }

  predicate AllSpace(s: string) {
    forall i :: 0 <= i < |s| ==> IsSpace(s[i])
  }

  /** Python's `s.lstrip()`: the longest suffix of `s` that does not start with whitespace. */
  function LStrip(s: string): (r: string)
    ensures |r| <= |s| && r == s[|s| - |r|..]
    ensures AllSpace(s[..|s| - |r|])
    ensures r == [] || !IsSpace(r[0])
  {
    if |s| > 0 && IsSpace(s[0]) then
      var r := LStrip(s[1..]);
      assert s[1..][..|s| - 1 - |r|] == s[1..|s| - |r|];
      r
    else s
  }

  predicate StartsWith(s: string, prefix: string) {
    |prefix| <= |s| && s[..|prefix|] == prefix
  }

  predicate EndsWith(s: string, suffix: string) {
    |suffix| <= |s| && s[|s| - |suffix|..] == suffix
  }

  /** `pat` occurs in `s` starting at index `k`. */
  predicate OccursAt(s: string, pat: string, k: int) {
    0 <= k && k + |pat| <= |s| && s[k..k + |pat|] == pat
  }

  predicate Contains(s: string, pat: string) {
    exists k :: 0 <= k <= |s| && OccursAt(s, pat, k)
  }

  /** Python's `s.find(pat, start)`: the first occurrence of `pat` at or after `start`. */
  function Find(s: string, pat: string, start: nat): (r: Option<nat>)
    ensures r.Some? ==> start <= r.value && OccursAt(s, pat, r.value)
    ensures r.Some? ==> forall k :: start <= k < r.value ==> !OccursAt(s, pat, k)
    ensures r.None? ==> forall k :: start <= k ==> !OccursAt(s, pat, k)
    decreases |s| - start
  {
    if start + |pat| > |s| then None
    else if s[start..start + |pat|] == pat then Some(start)
    else Find(s, pat, start + 1)
  }

  /** Python's `sep.join(parts)`. */
  function Join(parts: seq<string>, sep: string): string {
    if |parts| == 0 then ""
    else if |parts| == 1 then parts[0]
    else parts[0] + sep + Join(parts[1..], sep)
  }

  /** Python's `s.split(sep, 2)`: at most two splits, left to right, non-overlapping. */
  function SplitAtMostTwice(s: string, sep: string): (r: seq<string>)
    requires |sep| > 0
    ensures 1 <= |r| <= 3
    ensures Join(r, sep) == s
    ensures forall i :: 0 <= i < |r| - 1 ==> !Contains(r[i], sep)
    // fewer than two cuts only when no separator is left to cut at
    ensures |r| < 3 ==> !Contains(r[|r| - 1], sep)
    // each cut falls at the first separator left after the previous cut
    ensures |r| >= 2 ==> Find(s, sep, 0) == Some(|r[0]|)
    ensures |r| == 3 ==> forall k :: |r[0]| + |sep| <= k < |r[0]| + |sep| + |r[1]| ==> !OccursAt(s, sep, k)
  {
    match Find(s, sep, 0)
    case None =>
      NoOccurrenceAfter(s, sep, 0);
      [s]
    case Some(i) =>
      match Find(s, sep, i + |sep|)
      case None =>
        OneCut(s, sep, i);
        [s[..i], s[i + |sep|..]]
      case Some(j) =>
        TwoCuts(s, sep, i, j);
        [s[..i], s[i + |sep|..j], s[j + |sep|..]]
  }

  /** `Find` returns the one occurrence that has no occurrence before it. */
  lemma FindFirst(s: string, pat: string, start: nat, k: nat)
    requires start <= k && OccursAt(s, pat, k)
    requires forall m :: start <= m < k ==> !OccursAt(s, pat, m)
    ensures Find(s, pat, start) == Some(k)
  {
  }

  /** The second cut of `split(sep, 2)` is where `find` puts the first separator after the first cut. */
  lemma SecondCutFirst(s: string, sep: string)
    requires |sep| > 0
    ensures var r := SplitAtMostTwice(s, sep);
      |r| == 3 ==> Find(s, sep, |r[0]| + |sep|) == Some(|r[0]| + |sep| + |r[1]|)
  {
    var r := SplitAtMostTwice(s, sep);
    if |r| == 3 {
      var at := |r[0]| + |sep| + |r[1]|;
      JoinThree(r[0], r[1], r[2], sep);
      assert s == r[0] + sep + r[1] + sep + r[2];
      assert s[at..at + |sep|] == sep;
      FindFirst(s, sep, |r[0]| + |sep|, at);
    }
  }

  /** `split(sep, 2)` when only one separator is found. */
  lemma OneCut(s: string, sep: string, i: nat)
    requires |sep| > 0 && Find(s, sep, 0) == Some(i) && Find(s, sep, i + |sep|).None?
    ensures var r := [s[..i], s[i + |sep|..]];
      && Join(r, sep) == s
      && !Contains(r[0], sep) && !Contains(r[1], sep)
      && |r[0]| == i
  {
    TwoParts(s, sep, i);
    NoOccurrenceAfter(s, sep, i + |sep|);
  }

  /** `split(sep, 2)` when two separators are found. */
  lemma TwoCuts(s: string, sep: string, i: nat, j: nat)
    requires |sep| > 0 && Find(s, sep, 0) == Some(i) && Find(s, sep, i + |sep|) == Some(j)
    ensures var r := [s[..i], s[i + |sep|..j], s[j + |sep|..]];
      && Join(r, sep) == s
      && !Contains(r[0], sep) && !Contains(r[1], sep)
      && |r[0]| == i && |r[0]| + |sep| + |r[1]| == j
      && forall k :: |r[0]| + |sep| <= k < |r[0]| + |sep| + |r[1]| ==> !OccursAt(s, sep, k)
  {
    ThreeParts(s, sep, i, j);
    JoinAtCuts(s, sep, i, j);
  }

  /** One cut at the first occurrence of `sep`. */
  lemma TwoParts(s: string, sep: string, i: nat)
    requires |sep| > 0 && OccursAt(s, sep, i)
    requires forall k :: 0 <= k < i ==> !OccursAt(s, sep, k)
    ensures Join([s[..i], s[i + |sep|..]], sep) == s
    ensures !Contains(s[..i], sep)
  {
    NoOccurrenceBefore(s, sep, i);
    CutAt(s, sep, i);
    JoinTwo(s[..i], s[i + |sep|..], sep);
  }

  /** The prefix before the first occurrence contains none. */
  lemma NoOccurrenceBefore(s: string, pat: string, hi: nat)
    requires |pat| > 0 && hi <= |s|
    requires forall k :: 0 <= k < hi ==> !OccursAt(s, pat, k)
    ensures !Contains(s[..hi], pat)
  {
    NoEarlierOccurrence(s, pat, 0, hi);
    assert s[0..hi] == s[..hi];
  }

  /** The suffix after the last place an occurrence could start contains none. */
  lemma NoOccurrenceAfter(s: string, pat: string, lo: nat)
    requires |pat| > 0 && lo <= |s|
    requires forall k :: lo <= k ==> !OccursAt(s, pat, k)
    ensures !Contains(s[lo..], pat)
  {
    NoEarlierOccurrence(s, pat, lo, |s|);
    assert s[lo..|s|] == s[lo..];
  }

  /** Cutting at the first occurrence of `sep` and at the next one after it leaves no
      occurrence in the first two pieces. */
  lemma ThreeParts(s: string, sep: string, i: nat, j: nat)
    requires |sep| > 0 && OccursAt(s, sep, i) && OccursAt(s, sep, j) && i + |sep| <= j
    requires forall k :: 0 <= k < i ==> !OccursAt(s, sep, k)
    requires forall k :: i + |sep| <= k < j ==> !OccursAt(s, sep, k)
    ensures !Contains(s[..i], sep) && !Contains(s[i + |sep|..j], sep)
  {
    NoOccurrenceBefore(s, sep, i);
    NoEarlierOccurrence(s, sep, i + |sep|, j);
  }

  lemma JoinAtCuts(s: string, sep: string, i: nat, j: nat)
    requires OccursAt(s, sep, i) && OccursAt(s, sep, j) && i + |sep| <= j
    ensures Join([s[..i], s[i + |sep|..j], s[j + |sep|..]], sep) == s
  {
    var a, b, c := s[..i], s[i + |sep|..j], s[j + |sep|..];
    CutBetween(s, sep, i, j);
    JoinThree(a, b, c, sep);
  }

  lemma JoinTwo(a: string, b: string, sep: string)
    ensures Join([a, b], sep) == a + sep + b
  {
    assert [a, b][1..] == [b];
  }

  lemma JoinThree(a: string, b: string, c: string, sep: string)
    ensures Join([a, b, c], sep) == a + sep + b + sep + c
  {
    assert [a, b, c][1..] == [b, c];
    JoinTwo(b, c, sep);
  }

  lemma CutAt(s: string, sep: string, i: nat)
    requires OccursAt(s, sep, i)
    ensures s == s[..i] + sep + s[i + |sep|..]
  {
  }

  lemma CutBetween(s: string, sep: string, i: nat, j: nat)
    requires OccursAt(s, sep, i) && OccursAt(s, sep, j) && i + |sep| <= j
    ensures s == s[..i] + sep + s[i + |sep|..j] + sep + s[j + |sep|..]
  {
    CutAt(s, sep, i);
    CutAt(s, sep, j);
    assert s[..j] == s[..i] + sep + s[i + |sep|..j];
  }

  /** A slice that lies strictly before the first occurrence found from `lo` contains no occurrence. */
  lemma NoEarlierOccurrence(s: string, pat: string, lo: nat, hi: nat)
    requires |pat| > 0 && lo <= hi <= |s|
    requires forall k :: lo <= k < hi ==> !OccursAt(s, pat, k)
    ensures !Contains(s[lo..hi], pat)
  {
    var t := s[lo..hi];
    forall k | 0 <= k <= |t|
      ensures !OccursAt(t, pat, k)
    {
      if k + |pat| <= |t| {
        var u, v := t[k..k + |pat|], s[lo + k..lo + k + |pat|];
        forall m | 0 <= m < |pat|
          ensures u[m] == v[m]
        {
          assert u[m] == t[k + m] == s[lo + k + m];
        }
        assert u == v;
        assert !OccursAt(s, pat, lo + k);
      }
    }
  }

  /** The index of the first `c` in `s`. */
  function IndexOf(s: string, c: char): (r: nat)
    requires c in s
    ensures r < |s| && s[r] == c
    ensures forall k :: 0 <= k < r ==> s[k] != c
  {
    if s[0] == c then 0
    else
      IndexOf(s[1..], c) + 1
  }

  /** The index of the last `c` in `s` (Python's `rfind`), if any. */
  function LastIndexOf(s: string, c: char): (r: Option<nat>)
    ensures r.Some? ==> r.value < |s| && s[r.value] == c && c !in s[r.value + 1..]
    ensures r.None? ==> c !in s
  {
    if |s| == 0 then None
    else if s[|s| - 1] == c then Some(|s| - 1)
    else
      var r := LastIndexOf(s[..|s| - 1], c);
      if r.Some? then
        assert s[r.value + 1..] == s[..|s| - 1][r.value + 1..] + [s[|s| - 1]];
        r
      else
        assert s == s[..|s| - 1] + [s[|s| - 1]];
        r
  }

  /** Python's `s.split(sep)` for a one-character separator. */
  function SplitOn(s: string, sep: char): (r: seq<string>)
    ensures |r| >= 1
    ensures forall i :: 0 <= i < |r| ==> sep !in r[i]
    ensures Join(r, [sep]) == s
    decreases |s|
  {
    if sep !in s then [s]
    else
      var i := IndexOf(s, sep);
      var rest := SplitOn(s[i + 1..], sep);
      var r := [s[..i]] + rest;
      assert r[1..] == rest;
      assert s == s[..i] + [sep] + s[i + 1..];
      r
  }

  /** Splitting a join of separator-free parts gives the parts back. */
  lemma {:induction false} SplitJoin(parts: seq<string>, sep: char)
    requires |parts| >= 1
    requires forall i :: 0 <= i < |parts| ==> sep !in parts[i]
    ensures SplitOn(Join(parts, [sep]), sep) == parts
  {
    if |parts| > 1 {
      var rest := parts[1..];
      assert Join(parts, [sep]) == parts[0] + [sep] + Join(rest, [sep]);
      SplitOnFirst(parts[0], Join(rest, [sep]), sep);
      SplitJoin(rest, sep);
      assert parts == [parts[0]] + rest;
    }
  }

  /** The first separator of `head + [sep] + tail` is the one right after a separator-free head. */
  lemma SplitOnFirst(head: string, tail: string, sep: char)
    requires sep !in head
    ensures SplitOn(head + [sep] + tail, sep) == [head] + SplitOn(tail, sep)
  {
    var s := head + [sep] + tail;
    assert s[|head|] == sep;
    var i := IndexOf(s, sep);
    assert forall k :: 0 <= k < |head| ==> s[k] == head[k] && head[k] in head;
    assert i == |head|;
    assert s[..i] == head;
    assert s[i + 1..] == tail;
  }

  /** No two adjacent slashes. */
  predicate NoDoubleSlash(s: string) {
    forall i :: 0 <= i < |s| - 1 ==> !(s[i] == Slash && s[i + 1] == Slash)
  }

  /** Joining non-empty slash-free segments with "/" never yields an empty segment. */
  lemma {:induction false} JoinSegmentsShape(parts: seq<string>)
    requires |parts| >= 1
    requires forall i :: 0 <= i < |parts| ==> parts[i] != "" && Slash !in parts[i]
    ensures var s := Join(parts, [Slash]);
      |s| >= 1 && s[0] != Slash && s[|s| - 1] != Slash && NoDoubleSlash(s)
  {
    var s := Join(parts, [Slash]);
    if |parts| == 1 {
      assert s == parts[0];
      assert s[0] in parts[0] && s[|s| - 1] in parts[0];
    } else {
      var head := parts[0];
      var tail := Join(parts[1..], [Slash]);
      JoinSegmentsShape(parts[1..]);
      assert s == head + [Slash] + tail;
      assert s[0] == head[0];
      assert head[0] in head;
      assert s[|s| - 1] == tail[|tail| - 1];
      forall i | 0 <= i < |s| - 1
        ensures !(s[i] == Slash && s[i + 1] == Slash)
      {
        if i < |head| {
          assert s[i] == head[i] && head[i] in head;
        } else if i > |head| {
          assert s[i + 1] == tail[i - |head|];
          assert s[i] == tail[i - |head| - 1];
        } else {
          assert s[i + 1] == tail[0];
        }
      }
    }
  }

  /** Python's `a < b` on `str`: lexicographic order of code points. */
  predicate Less(a: string, b: string) {
    if |a| == 0 then |b| > 0
    else if |b| == 0 then false
    else if a[0] != b[0] then a[0] < b[0]
    else Less(a[1..], b[1..])
  }

  /** `a <= b` in the same order. */
  predicate LessEq(a: string, b: string) {
    !Less(b, a)
  }

  lemma {:induction false} LessIrreflexive(a: string)
    ensures !Less(a, a)
  {
    if |a| > 0 {
      LessIrreflexive(a[1..]);
    }
  }

  lemma {:induction false} LessTransitive(a: string, b: string, c: string)
    requires Less(a, b) && Less(b, c)
    ensures Less(a, c)
  {
    if |a| > 0 && a[0] == b[0] && b[0] == c[0] {
      LessTransitive(a[1..], b[1..], c[1..]);
    }
  }

  /** Any two distinct strings are ordered one way or the other. */
  lemma {:induction false} LessTotal(a: string, b: string)
    ensures a == b || Less(a, b) || Less(b, a)
  {
    if |a| > 0 && |b| > 0 && a[0] == b[0] {
      LessTotal(a[1..], b[1..]);
      if a[1..] == b[1..] {
        assert a == [a[0]] + a[1..] && b == [b[0]] + b[1..];
      }
    }
  }

  lemma {:induction false} LessAsymmetric(a: string, b: string)
    ensures !(Less(a, b) && Less(b, a))
  {
    if |a| > 0 && |b| > 0 && a[0] == b[0] {
      LessAsymmetric(a[1..], b[1..]);
    }
  }
}
