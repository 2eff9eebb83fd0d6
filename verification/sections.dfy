/**
 The section map of the parse phase: `sections.setdefault(section, []).append(page)`,
 an insertion-ordered mapping from a page's parent directory to the pages discovered in it.
 */
module Sections {
  import opened Wrappers
  import opened Paths
  import opened Pages

  /** One key of the map with its list. */
  datatype Entry = Entry(key: RelPath, pages: seq<Page>)

  /** The map, as its entries in insertion order. */
  type SectionMap = seq<Entry>

  /** Python dictionaries hold each key once. */
  predicate DistinctKeys(secs: SectionMap) {
    forall i, j :: 0 <= i < j < |secs| ==> secs[i].key != secs[j].key
  }

  /** Where `key` sits in the map, if it is there. */
  function KeyIndex(secs: SectionMap, key: RelPath): (r: Option<nat>)
    ensures r.Some? ==> r.value < |secs| && secs[r.value].key == key
    ensures r.None? ==> forall i :: 0 <= i < |secs| ==> secs[i].key != key
  {
    if secs == [] then None
    else if secs[|secs| - 1].key == key then Some(|secs| - 1)
    else KeyIndex(secs[..|secs| - 1], key)
  }

  /** The list stored under `key`; an absent key reads as no pages. */
  function PagesOf(secs: SectionMap, key: RelPath): seq<Page> {
    match KeyIndex(secs, key)
    case Some(i) => secs[i].pages
    case None => []
  }

  /** The number of pages held by all lists together. */
  function TotalPages(secs: SectionMap): nat {
    if secs == [] then 0 else TotalPages(secs[..|secs| - 1]) + |secs[|secs| - 1].pages|
  }

  /** The pages of `pages` whose section is `key`, in discovery order. */
  function InSection(pages: seq<Page>, key: RelPath): (r: seq<Page>)
    ensures |r| <= |pages|
    ensures forall p :: p in r ==> p in pages && p.section == key
    ensures forall p :: p in pages && p.section == key ==> p in r
  {
    if pages == [] then []
    else
      var last := pages[|pages| - 1];
      assert pages == pages[..|pages| - 1] + [last];
      InSection(pages[..|pages| - 1], key) + (if last.section == key then [last] else [])
  }

  /** `sections.setdefault(page.section, []).append(page)`. */
  function AddPage(secs: SectionMap, page: Page): (r: SectionMap)
    requires DistinctKeys(secs)
    ensures DistinctKeys(r) && |r| >= |secs|
    // a known section's list grows by the page at its end; other lists are untouched
    ensures KeyIndex(secs, page.section).Some? ==> |r| == |secs|
    ensures forall i :: 0 <= i < |secs| ==> r[i].key == secs[i].key
    ensures forall i :: 0 <= i < |secs| ==>
      r[i].pages == secs[i].pages + (if secs[i].key == page.section then [page] else [])
    // a new section is appended as the last key, holding just this page
    ensures KeyIndex(secs, page.section).None? ==>
      |r| == |secs| + 1 && r[|secs|] == Entry(page.section, [page])
    ensures TotalPages(r) == TotalPages(secs) + 1
  {
    match KeyIndex(secs, page.section)
    case Some(k) =>
      var r := secs[k := Entry(page.section, secs[k].pages + [page])];
      TotalAfterAppend(secs, k, page);
      r
    case None =>
      var r := secs + [Entry(page.section, [page])];
      assert r[..|r| - 1] == secs;
      r
  }

  /** Appending one page to one list adds one to the total. */
  lemma {:induction false} TotalAfterAppend(secs: SectionMap, k: nat, page: Page)
    requires k < |secs|
    ensures TotalPages(secs[k := Entry(secs[k].key, secs[k].pages + [page])]) == TotalPages(secs) + 1
  {
    var r := secs[k := Entry(secs[k].key, secs[k].pages + [page])];
    if k == |secs| - 1 {
      assert r[..|r| - 1] == secs[..|secs| - 1];
    } else {
      var prefix := secs[..|secs| - 1];
      TotalAfterAppend(prefix, k, page);
      assert r[..|r| - 1] == prefix[k := Entry(prefix[k].key, prefix[k].pages + [page])];
    }
  }

  /** The parse loop's accumulation of the section map over the discovered pages. */
  function Group(pages: seq<Page>): (r: SectionMap)
    ensures GroupedFrom(r, pages)
    // every page is held exactly once overall
    ensures TotalPages(r) == |pages|
  {
    if pages == [] then []
    else
      var before := Group(pages[..|pages| - 1]);
      GroupStep(before, pages);
      AddPage(before, pages[|pages| - 1])
  }

  /** The map keeps its keys in the order in which their sections were first discovered,
      as a Python dictionary keeps insertion order. */
  lemma {:induction false} GroupKeyOrder(pages: seq<Page>)
    ensures KeysInFirstOrder(Group(pages), pages)
  {
    if pages != [] {
      GroupKeyOrder(pages[..|pages| - 1]);
      StepOrder(Group(pages[..|pages| - 1]), pages);
    }
  }

  /** The index of the first page of section `key`, or `|pages|` when there is none. */
  function FirstWith(pages: seq<Page>, key: RelPath): (r: nat)
    ensures r <= |pages|
    ensures r < |pages| ==> pages[r].section == key
    ensures forall k :: 0 <= k < r ==> pages[k].section != key
  {
    if pages == [] then 0
    else
      var r := FirstWith(pages[..|pages| - 1], key);
      if r < |pages| - 1 then r
      else if pages[|pages| - 1].section == key then |pages| - 1
      else |pages|
  }

  /** The keys are ordered by the first page of their section. */
  predicate KeysInFirstOrder(secs: SectionMap, pages: seq<Page>) {
    forall i, j :: 0 <= i < j < |secs| ==> FirstWith(pages, secs[i].key) < FirstWith(pages, secs[j].key)
  }

  /** A section with a page among `pages` has its first page there. */
  lemma SeenFirst(pages: seq<Page>, p: Page)
    requires p in pages
    ensures FirstWith(pages, p.section) < |pages|
  {
    var k :| 0 <= k < |pages| && pages[k] == p;
  }

  /** One iteration of the parse loop keeps the keys in first-seen order: an old key's first
      page is unchanged, and a new key is first seen at the page just added. */
  lemma StepOrder(before: SectionMap, pages: seq<Page>)
    requires |pages| >= 1 && GroupedFrom(before, pages[..|pages| - 1])
    requires KeysInFirstOrder(before, pages[..|pages| - 1])
    ensures KeysInFirstOrder(AddPage(before, pages[|pages| - 1]), pages)
  {
    var n := |pages| - 1;
    var last := pages[n];
    var r := AddPage(before, last);
    OldKeysKeepFirst(before, pages);
    var isNew := KeyIndex(before, last.section).None?;
    if isNew {
      NewKeyFirst(before, pages);
    }
    forall i, j | 0 <= i < j < |r|
      ensures FirstWith(pages, r[i].key) < FirstWith(pages, r[j].key)
    {
      assert r[i].key == before[i].key;
      if j < |before| {
        assert r[j].key == before[j].key;
      } else {
        assert isNew && r[j].key == last.section;
      }
    }
  }

  /** A key already in the map keeps the first page it had among the pages seen before. */
  lemma OldKeysKeepFirst(before: SectionMap, pages: seq<Page>)
    requires |pages| >= 1 && GroupedFrom(before, pages[..|pages| - 1])
    ensures forall i :: 0 <= i < |before| ==>
      FirstWith(pages, before[i].key) == FirstWith(pages[..|pages| - 1], before[i].key) < |pages| - 1
  {
    var prefix := pages[..|pages| - 1];
    forall i | 0 <= i < |before|
      ensures FirstWith(pages, before[i].key) == FirstWith(prefix, before[i].key) < |prefix|
    {
      var p := before[i].pages[0];
      assert p in before[i].pages;
      SeenFirst(prefix, p);
    }
  }

  /** A section that is not yet a key is first seen at the page just added. */
  lemma NewKeyFirst(before: SectionMap, pages: seq<Page>)
    requires |pages| >= 1 && GroupedFrom(before, pages[..|pages| - 1])
    requires KeyIndex(before, pages[|pages| - 1].section).None?
    ensures FirstWith(pages, pages[|pages| - 1].section) == |pages| - 1
  {
    var prefix := pages[..|pages| - 1];
    var key := pages[|pages| - 1].section;
    NoPagesYet(before, prefix, key);
  }

  /** What the section map promises about the pages it was built from: keys are distinct,
      each list is exactly its section's pages in discovery order and is never empty,
      and every page's section is a key. */
  ghost predicate GroupedFrom(secs: SectionMap, pages: seq<Page>) {
    && DistinctKeys(secs)
    && (forall i :: 0 <= i < |secs| ==> secs[i].pages == InSection(pages, secs[i].key))
    && (forall i :: 0 <= i < |secs| ==> secs[i].pages != [])
    && (forall p :: p in pages ==> KeyIndex(secs, p.section).Some?)
  }

  /** One iteration of the parse loop keeps the section map faithful to the pages seen so far. */
  lemma GroupStep(before: SectionMap, pages: seq<Page>)
    requires |pages| >= 1 && GroupedFrom(before, pages[..|pages| - 1])
    ensures GroupedFrom(AddPage(before, pages[|pages| - 1]), pages)
  {
    StepLists(before, pages);
    StepCovers(before, pages);
  }

  /** After the step, every list is its section's pages among those seen so far. */
  lemma StepLists(before: SectionMap, pages: seq<Page>)
    requires |pages| >= 1 && GroupedFrom(before, pages[..|pages| - 1])
    ensures var r := AddPage(before, pages[|pages| - 1]);
      forall i :: 0 <= i < |r| ==> r[i].pages == InSection(pages, r[i].key)
  {
    var prefix := pages[..|pages| - 1];
    var last := pages[|pages| - 1];
    var r := AddPage(before, last);
    forall i | 0 <= i < |r|
      ensures r[i].pages == InSection(pages, r[i].key)
    {
      InSectionSnoc(pages, r[i].key);
      if i >= |before| {
        NoPagesYet(before, prefix, last.section);
      }
    }
  }

  /** The sections of a sequence's pages, read one page at a time from the end. */
  lemma InSectionSnoc(pages: seq<Page>, key: RelPath)
    requires |pages| >= 1
    ensures var last := pages[|pages| - 1];
      InSection(pages, key) == InSection(pages[..|pages| - 1], key) + (if last.section == key then [last] else [])
  {
  }

  /** After the step, every page seen so far has its section among the keys. */
  lemma StepCovers(before: SectionMap, pages: seq<Page>)
    requires |pages| >= 1 && GroupedFrom(before, pages[..|pages| - 1])
    ensures var r := AddPage(before, pages[|pages| - 1]);
      forall p :: p in pages ==> KeyIndex(r, p.section).Some?
  {
    var prefix := pages[..|pages| - 1];
    var last := pages[|pages| - 1];
    var r := AddPage(before, last);
    assert pages == prefix + [last];
    forall p | p in pages
      ensures KeyIndex(r, p.section).Some?
    {
      var i := if p in prefix then KeyIndex(before, p.section) else KeyIndex(before, last.section);
      if i.Some? {
        assert r[i.value].key == p.section;
      } else {
        assert r[|before|].key == p.section;
      }
    }
  }

  /** A section that is not yet a key has no pages among those already seen. */
  lemma NoPagesYet(secs: SectionMap, pages: seq<Page>, key: RelPath)
    requires GroupedFrom(secs, pages) && KeyIndex(secs, key).None?
    ensures InSection(pages, key) == []
  {
    forall p | p in pages
      ensures p.section != key
    {
      var j := KeyIndex(secs, p.section).value;
      assert secs[j].key == p.section;
    }
    NoneInSection(pages, key);
  }

  lemma {:induction false} NoneInSection(pages: seq<Page>, key: RelPath)
    requires forall p :: p in pages ==> p.section != key
    ensures InSection(pages, key) == []
  {
    if pages != [] {
      NoneInSection(pages[..|pages| - 1], key);
      assert pages[|pages| - 1] in pages;
    }
  }

  /** Reading the grouped map under any key gives that section's pages in discovery order,
      and nothing for a directory without pages of its own. */
  lemma GroupLookup(pages: seq<Page>, key: RelPath)
    ensures PagesOf(Group(pages), key) == InSection(pages, key)
  {
    var g := Group(pages);
    if KeyIndex(g, key).None? {
      NoPagesYet(g, pages, key);
    }
  }
}
