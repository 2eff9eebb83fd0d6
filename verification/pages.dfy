/**
 The page record of the parse phase and the assembly of one page from the router's
 result, the front matter and the rendered body.
 */
module Pages {
  import opened Text
  import opened Paths
  import opened Titles
  import opened Router

  /** One content file after the parse phase. `source` is the path relative to the content root,
      `outDir` the directory relative to the build root, `section` the parent directory. */
  datatype Page = Page(
    source: RelPath,
    outDir: RelPath,
    url: string,
    title: string,
    description: string,
    html: string,
    section: RelPath)

  /** The front-matter keys the build reads. */
  const TitleKey: string := "title"
  const DescriptionKey: string := "description"

  /** The page of the file at `rel`, given its front matter and its rendered body. */
  function AssemblePage(rel: RelPath, frontMatter: map<string, string>, html: string): (p: Page)
    requires |rel| >= 1
    // where the page lives is the router's decision, and its section is its parent directory
    ensures p.source == rel && p.section == Parent(rel) && p.html == html
    ensures Route(p.outDir, p.url) == RouteOf(rel)
    // an explicit title or description wins
    ensures TitleKey in frontMatter ==> p.title == frontMatter[TitleKey]
    ensures DescriptionKey in frontMatter ==> p.description == frontMatter[DescriptionKey]
    // otherwise the title comes from the file name and the description is empty
    ensures TitleKey !in frontMatter ==> p.title == TitleFromPath(rel)
    ensures DescriptionKey !in frontMatter ==> p.description == ""
  {
    var route := RouteOf(rel);
    Page(
      rel,
      route.outDir,
      route.url,
      if TitleKey in frontMatter then frontMatter[TitleKey] else TitleFromPath(rel),
      if DescriptionKey in frontMatter then frontMatter[DescriptionKey] else "",
      html,
      Parent(rel))
  }

  /** A page without a front-matter title is titled after its file: same length as the stem,
      hyphens turned into spaces, each word capitalised. */
  lemma FallbackTitle(rel: RelPath, frontMatter: map<string, string>, html: string)
    requires |rel| >= 1 && TitleKey !in frontMatter
    ensures var p := AssemblePage(rel, frontMatter, html);
      var stem := Stem(Name(rel));
      && |p.title| == |stem| && '-' !in p.title
      && (forall i :: 0 <= i < |stem| && stem[i] == '-' ==> p.title[i] == ' ')
      && (forall i :: 0 <= i < |stem| && IsLetter(stem[i]) ==> ToLower(p.title[i]) == ToLower(stem[i]))
      && (forall i :: 0 <= i < |stem| && IsLetter(stem[i]) ==>
            (if i == 0 || !IsLetter(stem[i - 1]) then IsUpper(p.title[i]) else IsLower(p.title[i])))
  {
  }

  /** Every page's URL spells out its output directory. */
  lemma PageUrlNamesOutDir(rel: RelPath, frontMatter: map<string, string>, html: string)
    requires WellFormed(rel)
    ensures var p := AssemblePage(rel, frontMatter, html);
      UrlSegments(p.url) == p.outDir && NoDoubleSlash(p.url)
  {
    RouteRoundTrip(rel);
  }
}
