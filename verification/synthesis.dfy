/**
 The synthetic section index: for a section without an index document of its own, a
 listing page whose items link to the section's other pages, sorted by title.
 */
module Synthesis {
  import opened Wrappers
  import opened Text
  import opened Paths
  import opened Titles
  import opened Pages
  import opened TitleSort

  /** One `<li>` of the listing: a link to `url` reading `title`. */
  datatype ListItem = ListItem(url: string, title: string)

  /** A generated listing page, written to `outDir/index.html` under the build root. */
  datatype SyntheticIndex = SyntheticIndex(
    section: RelPath,
    outDir: RelPath,
    title: string,
    description: string,
    items: seq<ListItem>)

  /** The description prefix of a generated listing. */
  const IndexOfPrefix: string := "Index of "

  /** The page was read from a file named `_index.md`. */
  predicate IsIndexPage(p: Page) {
    |p.source| >= 1 && Name(p.source) == IndexFileName
  }

  /** The section's pages other than its index document, in discovery order. */
  function Children(pages: seq<Page>): (r: seq<Page>)
    ensures |r| <= |pages|
    ensures forall p :: p in r <==> p in pages && !IsIndexPage(p)
  {
    if pages == [] then []
    else (if IsIndexPage(pages[0]) then [] else [pages[0]]) + Children(pages[1..])
  }

  /** The list item of each page, in the same order. */
  function ItemsOf(pages: seq<Page>): (r: seq<ListItem>)
    ensures |r| == |pages|
    ensures forall i :: 0 <= i < |pages| ==> r[i] == ListItem(pages[i].url, pages[i].title)
  {
    if pages == [] then [] else [ListItem(pages[0].url, pages[0].title)] + ItemsOf(pages[1..])
  }

  /** The items of `items` whose link text is `t`, in order. */
  function ItemsWithTitle(items: seq<ListItem>, t: string): seq<ListItem> {
    if items == [] then []
    else (if items[0].title == t then [items[0]] else []) + ItemsWithTitle(items[1..], t)
  }

  lemma {:induction false} ItemsWithTitleOf(pages: seq<Page>, t: string)
    ensures ItemsWithTitle(ItemsOf(pages), t) == ItemsOf(WithTitle(pages, t))
  {
    if pages != [] {
      ItemsWithTitleOf(pages[1..], t);
      assert ItemsOf(pages)[1..] == ItemsOf(pages[1..]);
      if pages[0].title == t {
        assert ItemsOf(WithTitle(pages, t)) == [ListItem(pages[0].url, pages[0].title)] + ItemsOf(WithTitle(pages[1..], t));
      }
    }
  }

  /** The listing decision and its contents for one section; `indexOnDisk` is whether
      `<section>/_index.md` exists under the content root. */
  function Synthesize(section: RelPath, pages: seq<Page>, indexOnDisk: bool): (r: Option<SyntheticIndex>)
    // a listing is generated exactly for a non-root section without an index document
    // that has at least one other page
    ensures r.Some? <==> section != [] && !indexOnDisk && Children(pages) != []
    ensures r.Some? ==>
      && r.value.section == section && r.value.outDir == section
      && r.value.title == SectionHeading(section)
      && r.value.description == IndexOfPrefix + r.value.title
    // one item per child, titles ascending
    ensures r.Some? ==> |r.value.items| == |Children(pages)|
    ensures r.Some? ==> forall i, j :: 0 <= i < j < |r.value.items| ==>
      LessEq(r.value.items[i].title, r.value.items[j].title)
    // the items titled `t` are the children titled `t`, in discovery order
    ensures r.Some? ==> forall t :: ItemsWithTitle(r.value.items, t) == ItemsOf(WithTitle(Children(pages), t))
  {
    if section == [] || indexOnDisk then None
    else
      var children := Children(pages);
      if children == [] then None
      else
        var sorted := SortByTitle(children);
        var heading := SectionHeading(section);
        ItemsOfSorted(children);
        Some(SyntheticIndex(section, section, heading, IndexOfPrefix + heading, ItemsOf(sorted)))
  }

  /** The items of the sorted children are sorted and keep each title's discovery order. */
  lemma ItemsOfSorted(children: seq<Page>)
    ensures var items := ItemsOf(SortByTitle(children));
      && |items| == |children|
      && (forall i, j :: 0 <= i < j < |items| ==> LessEq(items[i].title, items[j].title))
      && (forall t :: ItemsWithTitle(items, t) == ItemsOf(WithTitle(children, t)))
  {
    var sorted := SortByTitle(children);
    assert |multiset(sorted)| == |multiset(children)|;
    forall t
      ensures ItemsWithTitle(ItemsOf(sorted), t) == ItemsOf(WithTitle(children, t))
    {
      ItemsWithTitleOf(sorted, t);
    }
  }
}
