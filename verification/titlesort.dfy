/**
 `sorted(children, key=lambda p: p.title)`: Python's sort is stable, so pages with equal
 titles keep their discovery order. Modelled as an insertion sort on sequences.
 */
module TitleSort {
  import opened Text
  import opened Pages

  /** Titles never decrease along the sequence. */
  predicate SortedByTitle(s: seq<Page>) {
    forall i, j :: 0 <= i < j < |s| ==> LessEq(s[i].title, s[j].title)
  }

  /** The pages of `s` titled `t`, in their order in `s`. */
  function WithTitle(s: seq<Page>, t: string): (r: seq<Page>)
    ensures |r| <= |s|
  {
    if s == [] then []
    else (if s[0].title == t then [s[0]] else []) + WithTitle(s[1..], t)
  }

  /** Every title in `s` is strictly after `t`, so no page of `s` carries `t`. */
  lemma {:induction false} NoneWithTitle(s: seq<Page>, t: string)
    requires forall i :: 0 <= i < |s| ==> Less(t, s[i].title)
    ensures WithTitle(s, t) == []
  {
    if s != [] {
      LessIrreflexive(t);
      NoneWithTitle(s[1..], t);
    }
  }

  /** Insert `x` into a sorted sequence after every page whose title is not after its own. */
  function Insert(s: seq<Page>, x: Page): (r: seq<Page>)
    requires SortedByTitle(s)
    ensures SortedByTitle(r)
    ensures multiset(r) == multiset(s) + multiset{x}
    // among equal titles, `x` comes last
    ensures forall t :: WithTitle(r, t) == WithTitle(s, t) + (if x.title == t then [x] else [])
  {
    if s == [] then [x]
    else if Less(x.title, s[0].title) then
      InsertInFront(s, x);
      [x] + s
    else
      var rest := Insert(s[1..], x);
      InsertFurther(s, x, rest);
      [s[0]] + rest
  }

  lemma InsertInFront(s: seq<Page>, x: Page)
    requires SortedByTitle(s) && s != [] && Less(x.title, s[0].title)
    ensures SortedByTitle([x] + s)
    ensures forall t :: WithTitle([x] + s, t) == WithTitle(s, t) + (if x.title == t then [x] else [])
  {
    var r := [x] + s;
    forall i | 0 <= i < |s|
      ensures Less(x.title, s[i].title)
    {
      if i > 0 {
        LessTotal(s[0].title, s[i].title);
        if Less(s[0].title, s[i].title) {
          LessTransitive(x.title, s[0].title, s[i].title);
        }
      }
    }
    forall i, j | 0 <= i < j < |r|
      ensures LessEq(r[i].title, r[j].title)
    {
      if i == 0 {
        LessAsymmetric(x.title, r[j].title);
      }
    }
    NoneWithTitle(s, x.title);
    assert r[1..] == s;
  }

  lemma InsertFurther(s: seq<Page>, x: Page, rest: seq<Page>)
    requires SortedByTitle(s) && s != [] && !Less(x.title, s[0].title)
    requires SortedByTitle(rest)
    requires multiset(rest) == multiset(s[1..]) + multiset{x}
    requires forall t :: WithTitle(rest, t) == WithTitle(s[1..], t) + (if x.title == t then [x] else [])
    ensures SortedByTitle([s[0]] + rest)
    ensures multiset([s[0]] + rest) == multiset(s) + multiset{x}
    ensures forall t :: WithTitle([s[0]] + rest, t) == WithTitle(s, t) + (if x.title == t then [x] else [])
  {
    HeadBeforeRest(s, x, rest);
    InsertFurtherTitles(s, x, rest);
    assert s == [s[0]] + s[1..];
  }

  lemma InsertFurtherTitles(s: seq<Page>, x: Page, rest: seq<Page>)
    requires s != []
    requires forall t :: WithTitle(rest, t) == WithTitle(s[1..], t) + (if x.title == t then [x] else [])
    ensures forall t :: WithTitle([s[0]] + rest, t) == WithTitle(s, t) + (if x.title == t then [x] else [])
  {
    forall t
      ensures WithTitle([s[0]] + rest, t) == WithTitle(s, t) + (if x.title == t then [x] else [])
    {
      InsertFurtherTitle(s, x, rest, t);
    }
  }

  lemma InsertFurtherTitle(s: seq<Page>, x: Page, rest: seq<Page>, t: string)
    requires s != []
    requires WithTitle(rest, t) == WithTitle(s[1..], t) + (if x.title == t then [x] else [])
    ensures WithTitle([s[0]] + rest, t) == WithTitle(s, t) + (if x.title == t then [x] else [])
  {
    var a := if s[0].title == t then [s[0]] else [];
    var b := if x.title == t then [x] else [];
    var w := WithTitle(s[1..], t);
    assert WithTitle(s, t) == a + w;
    ConsWithTitle(s[0], rest, t);
    assert a + (w + b) == (a + w) + b;
  }

  lemma ConsWithTitle(p: Page, s: seq<Page>, t: string)
    ensures WithTitle([p] + s, t) == (if p.title == t then [p] else []) + WithTitle(s, t)
  {
    assert ([p] + s)[1..] == s;
  }

  /** The head of a sorted sequence can stay in front of anything inserted behind it. */
  lemma HeadBeforeRest(s: seq<Page>, x: Page, rest: seq<Page>)
    requires SortedByTitle(s) && s != [] && !Less(x.title, s[0].title)
    requires SortedByTitle(rest)
    requires multiset(rest) == multiset(s[1..]) + multiset{x}
    ensures SortedByTitle([s[0]] + rest)
  {
    var r := [s[0]] + rest;
    forall j | 0 <= j < |rest|
      ensures LessEq(s[0].title, rest[j].title)
    {
      assert rest[j] in multiset(rest);
      if rest[j] != x {
        assert rest[j] in multiset(s[1..]);
        var k :| 0 <= k < |s[1..]| && s[1..][k] == rest[j];
        assert s[k + 1] == rest[j];
      }
    }
    forall i, j | 0 <= i < j < |r|
      ensures LessEq(r[i].title, r[j].title)
    {
      if i > 0 {
        assert r[i] == rest[i - 1] && r[j] == rest[j - 1];
      }
    }
  }

  /** The listing order: titles ascending, equal titles in their original order. */
  function SortByTitle(s: seq<Page>): (r: seq<Page>)
    ensures SortedByTitle(r)
    ensures multiset(r) == multiset(s)
    ensures forall t :: WithTitle(r, t) == WithTitle(s, t)
  {
    if s == [] then []
    else
      var prefix := s[..|s| - 1];
      var last := s[|s| - 1];
      assert s == prefix + [last];
      WithTitleAppendAll(prefix, last);
      Insert(SortByTitle(prefix), last)
  }

  lemma WithTitleAppendAll(s: seq<Page>, x: Page)
    ensures forall t :: WithTitle(s + [x], t) == WithTitle(s, t) + (if x.title == t then [x] else [])
  {
    forall t {
      WithTitleAppend(s, x, t);
    }
  }

  lemma {:induction false} WithTitleAppend(s: seq<Page>, x: Page, t: string)
    ensures WithTitle(s + [x], t) == WithTitle(s, t) + (if x.title == t then [x] else [])
  {
    if s != [] {
      assert (s + [x])[1..] == s[1..] + [x];
      WithTitleAppend(s[1..], x, t);
    }
  }
}
