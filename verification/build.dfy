/**
 The whole build as three phases over the discovered content files: parse every file into a
 page and group the pages by section, then (after the real pages are written) generate a
 listing for every section that needs one.
 */
module Build {
  import opened Wrappers
  import opened Text
  import opened Paths
  import opened Router
  import opened FrontMatter
  import opened Titles
  import opened Pages
  import opened Sections
  import opened TitleSort
  import opened Synthesis

  /** A discovered content file: its path relative to the content root and its text. */
  datatype SourceFile = SourceFile(rel: RelPath, text: string)

  /** A front-matter failure aborts the build; it names the file. */
  datatype BuildError = BadFrontMatter(rel: RelPath, reason: LoadError)

  /** What the build produces: the real pages (in discovery order), the section map and the
      generated listings (in section-map order). */
  datatype Site = Site(pages: seq<Page>, sections: SectionMap, listings: seq<SyntheticIndex>)

  /** Every discovered path is a proper `Path` relative to the content root. */
  predicate Discovered(files: seq<SourceFile>) {
    forall i :: 0 <= i < |files| ==> WellFormed(files[i].rel)
  }

  /** `index_md.exists()`: the file `<section>/_index.md` is among the content files. */
  predicate IndexOnDisk(files: seq<SourceFile>, section: RelPath): (r: bool)
    // some discovered file is named `_index.md` and lies directly in `section`
    ensures r <==> exists i :: (0 <= i < |files| && IndexFileIn(files[i].rel, section))
  {
    assert forall i :: 0 <= i < |files| ==>
      (files[i].rel == section + [IndexFileName] <==> IndexFileIn(files[i].rel, section)) by {
      forall i | 0 <= i < |files|
        ensures files[i].rel == section + [IndexFileName] <==> IndexFileIn(files[i].rel, section)
      {
        var rel := files[i].rel;
        if |rel| >= 1 {
          assert rel == Parent(rel) + [Name(rel)];
        }
      }
    }
    exists i :: 0 <= i < |files| && files[i].rel == section + [IndexFileName]
  }

  /** `rel` is named `_index.md` and lies directly in `section`. */
  predicate IndexFileIn(rel: RelPath, section: RelPath) {
    |rel| >= 1 && Name(rel) == IndexFileName && Parent(rel) == section
  }

  /** The mapping a file's metadata block loads to, if it loads to one. */
  function LoadedMapping(file: SourceFile, load: string -> Yaml): (r: Option<map<string, string>>)
    ensures r.Some? <==> SplitFrontMatter(file.text).meta.Some? && load(SplitFrontMatter(file.text).meta.value).Mapping?
  {
    var meta := SplitFrontMatter(file.text).meta;
    if meta.Some? && load(meta.value).Mapping? then Some(load(meta.value).entries) else None
  }

  /** One iteration of the parse loop: split, load front matter, render, route, assemble.
      `load` stands for the YAML library and `render` for the Markdown converter. */
  function ParseFile(file: SourceFile, load: string -> Yaml, render: string -> string): (r: Result<Page, BuildError>)
    requires WellFormed(file.rel)
    ensures r.Success? ==> SourcedFrom(r.value, file)
    ensures r.Failure? ==> r.error.rel == file.rel
    // a title or description the metadata block loads to wins ...
    ensures r.Success? && LoadedMapping(file, load).Some? && TitleKey in LoadedMapping(file, load).value ==>
      r.value.title == LoadedMapping(file, load).value[TitleKey]
    ensures r.Success? && LoadedMapping(file, load).Some? && DescriptionKey in LoadedMapping(file, load).value ==>
      r.value.description == LoadedMapping(file, load).value[DescriptionKey]
    // ... and otherwise the file name gives the title and the description is empty
    ensures r.Success? && !(LoadedMapping(file, load).Some? && TitleKey in LoadedMapping(file, load).value) ==>
      r.value.title == TitleFromPath(file.rel)
    ensures r.Success? && !(LoadedMapping(file, load).Some? && DescriptionKey in LoadedMapping(file, load).value) ==>
      r.value.description == ""
  {
    var split := SplitFrontMatter(file.text);
    match LoadFrontMatter(split.meta, load)
    case Failure(e) => Failure(BadFrontMatter(file.rel, e))
    case Success(frontMatter) => Success(AssemblePage(file.rel, frontMatter, render(split.body)))
  }

  /** The page was read from `file`: same path, and its section is the file's directory. */
  predicate SourcedFrom(page: Page, file: SourceFile) {
    |file.rel| >= 1 && page.source == file.rel && page.section == Parent(file.rel)
  }

  /** A file's page is routed by its path and renders the body left after the front matter;
      the file fails exactly when its front matter cannot be loaded. */
  lemma ParseFileOutcome(file: SourceFile, load: string -> Yaml, render: string -> string)
    requires WellFormed(file.rel)
    ensures var r := ParseFile(file, load, render);
      var split := SplitFrontMatter(file.text);
      && (r.Failure? <==> LoadFrontMatter(split.meta, load).Failure?)
      && (r.Success? ==> Route(r.value.outDir, r.value.url) == RouteOf(file.rel))
      && (r.Success? ==> r.value.html == render(split.body))
  {
  }

  /** A file without a metadata block becomes a page of its whole text, with empty front
      matter: the fallback title and the empty description. */
  lemma ParseWithoutBlock(file: SourceFile, load: string -> Yaml, render: string -> string)
    requires WellFormed(file.rel) && SplitFrontMatter(file.text).meta.None?
    ensures ParseFile(file, load, render) == Success(AssemblePage(file.rel, map[], render(file.text)))
  {
    assert LoadFrontMatter(None, load) == Success(map[]);
  }

  /** The parse phase: every file in discovery order; the first failure aborts. `step` is
      the parse of one file. */
  function ParseEach(files: seq<SourceFile>, step: SourceFile --> Result<Page, BuildError>): (r: Result<seq<Page>, BuildError>)
    requires forall i :: 0 <= i < |files| ==> step.requires(files[i])
    // on success there is one page per file, in the same order
    ensures r.Success? ==> |r.value| == |files|
    ensures r.Success? ==> forall i :: 0 <= i < |files| ==> step(files[i]) == Success(r.value[i])
    // on failure the error is that of the first file that fails
    ensures r.Failure? ==> exists i :: 0 <= i < |files| && FirstFailure(files, step, i, r.error)
    decreases |files|
  {
    if files == [] then Success([])
    else
      match step(files[0])
      case Failure(e) =>
        assert FirstFailure(files, step, 0, e);
        Failure(e)
      case Success(page) =>
        match ParseEach(files[1..], step)
        case Failure(e) =>
          assert forall k :: 1 <= k < |files| ==> files[k] == files[1..][k - 1];
          assert forall j :: 0 <= j < |files[1..]| && FirstFailure(files[1..], step, j, e) ==>
            FirstFailure(files, step, j + 1, e);
          Failure(e)
        case Success(rest) =>
          Success([page] + rest)
  }

  /** File `i` is the first whose parse fails, and it fails with `e`. */
  predicate FirstFailure(files: seq<SourceFile>, step: SourceFile --> Result<Page, BuildError>, i: nat, e: BuildError)
    requires forall k :: 0 <= k < |files| ==> step.requires(files[k])
  {
    && i < |files|
    && step(files[i]) == Failure(e)
    && forall k :: 0 <= k < i ==> step(files[k]).Success?
  }

  /** The parse phase of the build. */
  function ParseAll(files: seq<SourceFile>, load: string -> Yaml, render: string -> string): (r: Result<seq<Page>, BuildError>)
    requires Discovered(files)
    // on success, the i-th page is the parse of the i-th file and was read from it
    ensures r.Success? ==> |r.value| == |files|
    ensures r.Success? ==> forall i :: 0 <= i < |files| ==> ParseFile(files[i], load, render) == Success(r.value[i])
    ensures r.Success? ==> forall i :: 0 <= i < |files| ==> SourcedFrom(r.value[i], files[i])
    // on failure, the error is that of the first file whose front matter cannot be loaded
    ensures r.Failure? ==> exists i :: (0 <= i < |files| && ParseFile(files[i], load, render) == Failure(r.error)
      && forall k :: 0 <= k < i ==> ParseFile(files[k], load, render).Success?)
    ensures r.Failure? ==> exists i :: 0 <= i < |files| && r.error.rel == files[i].rel
  {
    var step := (f: SourceFile) requires WellFormed(f.rel) => ParseFile(f, load, render);
    assert forall i :: 0 <= i < |files| ==> step(files[i]) == ParseFile(files[i], load, render);
    var r := ParseEach(files, step);
    if r.Success? then
      assert forall i :: 0 <= i < |files| ==> step(files[i]) == Success(r.value[i]);
      r
    else
      assert forall i :: 0 <= i < |files| && FirstFailure(files, step, i, r.error) ==> r.error.rel == files[i].rel;
      r
  }

  /** The generator's verdict for one section of the map. */
  function Candidate(entry: Entry, files: seq<SourceFile>): (r: Option<SyntheticIndex>)
    // a listing for a non-root directory with no `_index.md` on disk and some other page
    ensures r.Some? <==> entry.key != [] && !IndexOnDisk(files, entry.key) && Children(entry.pages) != []
    ensures r.Some? ==> r.value.section == entry.key
  {
    Synthesize(entry.key, entry.pages, IndexOnDisk(files, entry.key))
  }

  /** The listings present among the candidates, in order. */
  function Present(xs: seq<Option<SyntheticIndex>>): (r: seq<SyntheticIndex>)
    ensures forall x :: x in r <==> Some(x) in xs
    ensures |r| <= |xs|
  {
    if xs == [] then []
    else (if xs[0].Some? then [xs[0].value] else []) + Present(xs[1..])
  }

  /** `Present` keeps the candidates' order: it distributes over concatenation. */
  lemma {:induction false} PresentAppend(xs: seq<Option<SyntheticIndex>>, ys: seq<Option<SyntheticIndex>>)
    ensures Present(xs + ys) == Present(xs) + Present(ys)
  {
    if xs == [] {
      assert xs + ys == ys;
    } else {
      assert (xs + ys)[1..] == xs[1..] + ys;
      PresentAppend(xs[1..], ys);
    }
  }

  /** The generator's verdicts for every section, in the map's key order. */
  function Candidates(secs: SectionMap, files: seq<SourceFile>): (r: seq<Option<SyntheticIndex>>)
    ensures |r| == |secs| && forall i :: 0 <= i < |secs| ==> r[i] == Candidate(secs[i], files)
  {
    seq(|secs|, i requires 0 <= i < |secs| => Candidate(secs[i], files))
  }

  /** The listings phase: one listing per section whose candidate is generated, in the map's
      key order. */
  function ListingsFor(secs: SectionMap, files: seq<SourceFile>): (r: seq<SyntheticIndex>)
    ensures forall x :: x in r <==> exists i :: 0 <= i < |secs| && Candidate(secs[i], files) == Some(x)
  {
    var candidates := Candidates(secs, files);
    assert forall x :: Some(x) in candidates <==> exists i :: 0 <= i < |secs| && candidates[i] == Some(x);
    Present(candidates)
  }

  /** Listings follow the map's key order: a further key adds its listing, if any, at the end. */
  lemma ListingsInKeyOrder(secs: SectionMap, e: Entry, files: seq<SourceFile>)
    ensures ListingsFor(secs + [e], files) ==
      ListingsFor(secs, files) + (match Candidate(e, files) case Some(x) => [x] case None => [])
  {
    var before := Candidates(secs, files);
    var c := Candidate(e, files);
    CandidatesSnoc(secs, e, files);
    PresentAppend(before, [c]);
    assert Present([c]) == (match c case Some(x) => [x] case None => []);
  }

  lemma CandidatesSnoc(secs: SectionMap, e: Entry, files: seq<SourceFile>)
    ensures Candidates(secs + [e], files) == Candidates(secs, files) + [Candidate(e, files)]
  {
    var l, r := Candidates(secs + [e], files), Candidates(secs, files) + [Candidate(e, files)];
    assert |l| == |r|;
    forall i | 0 <= i < |l|
      ensures l[i] == r[i]
    {
      if i < |secs| {
        assert (secs + [e])[i] == secs[i];
      }
    }
  }

  /** The build: parse, group, then generate listings. */
  function BuildSite(files: seq<SourceFile>, load: string -> Yaml, render: string -> string): (r: Result<Site, BuildError>)
    requires Discovered(files)
    // the build fails exactly when some file's front matter cannot be loaded, with the first such error
    ensures r.Success? <==> forall i :: 0 <= i < |files| ==> ParseFile(files[i], load, render).Success?
    ensures r.Failure? ==> exists i :: (0 <= i < |files| && ParseFile(files[i], load, render) == Failure(r.error)
      && forall k :: 0 <= k < i ==> ParseFile(files[k], load, render).Success?)
    // one page per file, in discovery order
    ensures r.Success? ==> |r.value.pages| == |files|
    ensures r.Success? ==> forall i :: 0 <= i < |files| ==> ParseFile(files[i], load, render) == Success(r.value.pages[i])
    // the section map holds every page once, under its directory, in discovery order
    ensures r.Success? ==> GroupedFrom(r.value.sections, r.value.pages)
    // no directory gets two listings, and each listing is the generator's verdict on its directory
    ensures r.Success? ==> DistinctSections(r.value.listings)
    ensures r.Success? ==> forall x :: x in r.value.listings ==>
      Synthesize(x.section, InSection(r.value.pages, x.section), IndexOnDisk(files, x.section)) == Some(x)
    // a directory gets a listing iff it is not the root, has no `_index.md` and holds another page
    ensures r.Success? ==> forall section :: Listed(r.value.listings, section) <==> Accepted(files, r.value.pages, section)
  {
    var parsed := ParseAll(files, load, render);
    if parsed.Failure? then
      Failure(parsed.error)
    else
      var pages := parsed.value;
      ListingsFacts(files, pages);
      Success(Site(pages, Group(pages), ListingsFor(Group(pages), files)))
  }

  /** Some listing is for `section`. */
  predicate Listed(listings: seq<SyntheticIndex>, section: RelPath) {
    exists x :: x in listings && x.section == section
  }

  /** The generator's three conditions on a directory: not the content root, no `_index.md`
      on disk, and some page of its own that is not an index document. */
  predicate Accepted(files: seq<SourceFile>, pages: seq<Page>, section: RelPath) {
    && section != []
    && !IndexOnDisk(files, section)
    && exists p :: p in pages && p.section == section && !IsIndexPage(p)
  }

  /** The listings of the grouped pages: one per directory, each the generator's verdict on
      its directory, and present exactly for the directories the generator accepts. */
  lemma ListingsFacts(files: seq<SourceFile>, pages: seq<Page>)
    ensures var listings := ListingsFor(Group(pages), files);
      && DistinctSections(listings)
      && (forall x :: x in listings ==>
            Synthesize(x.section, InSection(pages, x.section), IndexOnDisk(files, x.section)) == Some(x))
      && (forall section :: Listed(listings, section) <==> Accepted(files, pages, section))
  {
    OneListingPerSection(files, pages);
    ListingsAreVerdicts(files, pages);
    ListingsExactly(files, pages);
  }

  /** Every listing is the generator's verdict on its own directory. */
  lemma ListingsAreVerdicts(files: seq<SourceFile>, pages: seq<Page>)
    ensures forall x :: x in ListingsFor(Group(pages), files) ==>
      Synthesize(x.section, InSection(pages, x.section), IndexOnDisk(files, x.section)) == Some(x)
  {
    forall x | x in ListingsFor(Group(pages), files)
      ensures Synthesize(x.section, InSection(pages, x.section), IndexOnDisk(files, x.section)) == Some(x)
    {
      ListedSection(files, pages, x);
    }
  }

  /** `ListingIff` for every directory at once. */
  lemma ListingsExactly(files: seq<SourceFile>, pages: seq<Page>)
    ensures forall section :: Listed(ListingsFor(Group(pages), files), section) <==> Accepted(files, pages, section)
  {
    forall section
      ensures Listed(ListingsFor(Group(pages), files), section) <==> Accepted(files, pages, section)
    {
      ListingIff(files, pages, section);
    }
  }

  /** `pages` is the parse of `files`, page by page. */
  predicate ParsedFrom(pages: seq<Page>, files: seq<SourceFile>) {
    |pages| == |files| && forall i :: 0 <= i < |files| ==> SourcedFrom(pages[i], files[i])
  }

  /** A page read from `<section>/_index.md` lands in that section's list; so "the index
      document exists on disk" and "the section's list holds an index page" agree. */
  lemma IndexOnDiskIffIndexPage(files: seq<SourceFile>, pages: seq<Page>, section: RelPath)
    requires Discovered(files) && ParsedFrom(pages, files)
    ensures IndexOnDisk(files, section) <==> exists p :: p in InSection(pages, section) && IsIndexPage(p)
  {
    if IndexOnDisk(files, section) {
      var i :| 0 <= i < |files| && files[i].rel == section + [IndexFileName];
      IndexFileGivesIndexPage(files, pages, section, i);
    }
    if p :| p in InSection(pages, section) && IsIndexPage(p) {
      var i :| 0 <= i < |pages| && pages[i] == p;
      IndexPageComesFromIndexFile(files, pages, section, i);
    }
  }

  lemma IndexFileGivesIndexPage(files: seq<SourceFile>, pages: seq<Page>, section: RelPath, i: nat)
    requires ParsedFrom(pages, files) && i < |files| && files[i].rel == section + [IndexFileName]
    ensures pages[i] in InSection(pages, section) && IsIndexPage(pages[i])
  {
    assert SourcedFrom(pages[i], files[i]);
    assert pages[i] in pages;
  }

  lemma IndexPageComesFromIndexFile(files: seq<SourceFile>, pages: seq<Page>, section: RelPath, i: nat)
    requires ParsedFrom(pages, files) && i < |pages|
    requires pages[i] in InSection(pages, section) && IsIndexPage(pages[i])
    ensures files[i].rel == section + [IndexFileName]
  {
    assert SourcedFrom(pages[i], files[i]);
    assert files[i].rel == Parent(files[i].rel) + [Name(files[i].rel)];
  }

  /** A section has a non-index page exactly when its children are non-empty. */
  lemma ChildrenIffOtherPage(pages: seq<Page>, section: RelPath)
    ensures Children(InSection(pages, section)) != [] <==>
      exists p :: p in pages && p.section == section && !IsIndexPage(p)
  {
    var c := Children(InSection(pages, section));
    if c != [] {
      assert c[0] in c;
    }
    if p :| p in pages && p.section == section && !IsIndexPage(p) {
      assert p in c;
    }
  }

  /** The candidate of the entry for `section` is the generator's verdict on the pages of that
      directory. */
  lemma CandidateOfEntry(pages: seq<Page>, files: seq<SourceFile>, i: nat)
    requires i < |Group(pages)|
    ensures var e := Group(pages)[i];
      Candidate(e, files) == Synthesize(e.key, InSection(pages, e.key), IndexOnDisk(files, e.key))
  {
  }

  /** Exactly the non-root directories that hold a page other than an index document, and no
      `_index.md` of their own, get a generated listing. */
  lemma ListingIff(files: seq<SourceFile>, pages: seq<Page>, section: RelPath)
    ensures var listings := ListingsFor(Group(pages), files);
      (exists x :: x in listings && x.section == section) <==>
        && section != []
        && !IndexOnDisk(files, section)
        && exists p :: p in pages && p.section == section && !IsIndexPage(p)
  {
    var listings := ListingsFor(Group(pages), files);
    ChildrenIffOtherPage(pages, section);
    if x :| x in listings && x.section == section {
      ListedSection(files, pages, x);
    }
    if section != [] && !IndexOnDisk(files, section) && exists p :: p in pages && p.section == section && !IsIndexPage(p) {
      AcceptedSectionListed(files, pages, section);
    }
  }

  /** A listing is the generator's verdict for its own section. */
  lemma ListedSection(files: seq<SourceFile>, pages: seq<Page>, x: SyntheticIndex)
    requires x in ListingsFor(Group(pages), files)
    ensures Synthesize(x.section, InSection(pages, x.section), IndexOnDisk(files, x.section)) == Some(x)
  {
    var secs := Group(pages);
    var i :| 0 <= i < |secs| && Candidate(secs[i], files) == Some(x);
    CandidateOfEntry(pages, files, i);
  }

  /** A section the generator accepts gets its listing. */
  lemma AcceptedSectionListed(files: seq<SourceFile>, pages: seq<Page>, section: RelPath)
    requires Synthesize(section, InSection(pages, section), IndexOnDisk(files, section)).Some?
    ensures exists x :: x in ListingsFor(Group(pages), files) && x.section == section
  {
    var secs := Group(pages);
    var p :| p in InSection(pages, section);
    var i := KeyIndex(secs, section).value;
    CandidateOfEntry(pages, files, i);
    var x := Candidate(secs[i], files);
    assert x.Some? && x.value.section == section;
    assert x.value in ListingsFor(secs, files);
  }

  /** The listing decision at the level of the whole build: a directory gets a generated
      listing exactly when it is not the content root, has no `_index.md` and holds another
      page. */
  lemma SiteListingIff(files: seq<SourceFile>, load: string -> Yaml, render: string -> string, section: RelPath)
    requires Discovered(files) && BuildSite(files, load, render).Success?
    ensures var site := BuildSite(files, load, render).value;
      (exists x :: x in site.listings && x.section == section) <==>
        && section != []
        && !(exists p :: p in InSection(site.pages, section) && IsIndexPage(p))
        && exists p :: p in site.pages && p.section == section && !IsIndexPage(p)
  {
    var site := BuildSite(files, load, render).value;
    assert Listed(site.listings, section) <==> Accepted(files, site.pages, section);
    BuiltPagesParsedFrom(files, load, render);
    IndexOnDiskIffIndexPage(files, site.pages, section);
  }

  /** The pages of a successful build were each read from their file. */
  lemma BuiltPagesParsedFrom(files: seq<SourceFile>, load: string -> Yaml, render: string -> string)
    requires Discovered(files) && BuildSite(files, load, render).Success?
    ensures ParsedFrom(BuildSite(files, load, render).value.pages, files)
  {
    var pages := BuildSite(files, load, render).value.pages;
    forall i | 0 <= i < |files|
      ensures SourcedFrom(pages[i], files[i])
    {
      assert ParseFile(files[i], load, render) == Success(pages[i]);
    }
  }

  /** No two listings are for the same directory. */
  predicate DistinctSections(r: seq<SyntheticIndex>) {
    forall i, j :: 0 <= i < j < |r| ==> r[i].section != r[j].section
  }

  /** Sections are map keys, so no directory gets two listings. */
  lemma OneListingPerSection(files: seq<SourceFile>, pages: seq<Page>)
    ensures DistinctSections(ListingsFor(Group(pages), files))
  {
    var secs := Group(pages);
    var candidates := Candidates(secs, files);
    forall i, j | 0 <= i < j < |candidates| && candidates[i].Some? && candidates[j].Some?
      ensures candidates[i].value.section != candidates[j].value.section
    {
      assert candidates[i].value.section == secs[i].key;
      assert candidates[j].value.section == secs[j].key;
    }
    DistinctPresent(candidates);
  }

  /** Present values of options whose sections are pairwise distinct have distinct sections. */
  lemma {:induction false} DistinctPresent(xs: seq<Option<SyntheticIndex>>)
    requires forall i, j :: 0 <= i < j < |xs| && xs[i].Some? && xs[j].Some? ==> xs[i].value.section != xs[j].value.section
    ensures DistinctSections(Present(xs))
  {
    if xs != [] {
      var tail := xs[1..];
      assert forall i :: 0 <= i < |tail| ==> tail[i] == xs[i + 1];
      DistinctPresent(tail);
      var rest := Present(tail);
      var r := Present(xs);
      if xs[0].Some? {
        forall x | x in rest
          ensures x.section != xs[0].value.section
        {
          var k :| 0 <= k < |tail| && tail[k] == Some(x);
          assert xs[k + 1] == Some(x);
        }
        assert r == [xs[0].value] + rest;
        forall i, j | 0 <= i < j < |r|
          ensures r[i].section != r[j].section
        {
          assert r[j] == rest[j - 1] && r[j] in rest;
          if i > 0 {
            assert r[i] == rest[i - 1];
          }
        }
      } else {
        assert r == rest;
      }
    }
  }
}
