# heckla build: routing and section-index synthesis

A Dafny model of the decision logic in heckla's `build.py`, the static-site build script.
The script does two things:

- It turns every Markdown file under `content/` into a page with an output directory, a URL,
  a title, a description and a section.
- It generates a listing page for each section directory that has no `_index.md` of its own.

Once file discovery, YAML, Markdown and Jinja are set aside, what remains is pure functions over
relative paths and page records. The modules mirror the pieces of the script:

- `Text`: the Python `str` behaviour the script relies on.
  - The script's own calls: `lstrip`, `startswith` and `split("---", 2)`. (`replace` and
    `title` are in `Titles`.)
  - `Find` (`str.find`) and `LastIndexOf` (`str.rfind`): the script never calls them itself.
    They define how `split` and `PurePath.suffix` behave.
  - `Join` with `/`: how a `Path` renders inside an f-string.
  - `SplitOn`: splits a URL back into segments. Nothing in the script does this; it exists only
    to state the URL round trip.
  - Code-point string order, the order `sorted` applies to titles.
- `Paths`: `pathlib` relative paths as sequences of segments, with `name`, `parent`, `suffix`,
  `stem` and `with_suffix("")`. The content root, `Path(".")`, is the empty sequence.
- `Titles`: `name.replace("-", " ").title()`, with `str.title` restricted to ASCII letters.
- `Router`: the three-way rule that gives a content file its output directory and URL.
- `FrontMatter`: the split of a document into a `---` block and a body, and the interpretation
  of the YAML result.
- `Pages`: the `Page` record and its assembly, with the title and description fallbacks.
- `Sections`: `sections.setdefault(section, []).append(page)`, an insertion-ordered map.
- `TitleSort`: `sorted(children, key=lambda p: p.title)`, a stable insertion sort.
- `Synthesis`: the listing decision for one section, and the listing's heading, description
  and items.
- `Build`: the parse phase over the discovered files, the grouping, and the listings phase.
- `Scenarios`: the model applied to a small concrete site.

Outside parameters:

- The discovered files are an input sequence of (relative path, text) pairs, in discovery order.
  The text is what `read_text(encoding="utf-8")` returns (build.py:96): already decoded, with
  line endings already translated to `\n`.
- `yaml.safe_load` is a parameter `load: string -> Yaml`.
- The Markdown converter is a parameter `render: string -> string`.
- `index_md.exists()` is modelled as "`<section>/_index.md` is among the discovered files".
  `Build.IndexOnDiskIffIndexPage` proves that this agrees with "the section's list holds a page
  read from `_index.md`".

Malformed metadata stops the build. `yaml.safe_load` raising is not caught (build.py:105), and a
truthy result that is not a mapping fails at the first `.get` (build.py:145). The model makes both
a `BuildError` that aborts the build. A null or falsy result reads as empty front matter (`or {}`).

## Model

| member | source | states |
|---|---|---|
| Text.IsSpace | build.py:101 | the characters Python's `str.isspace` accepts, which `lstrip()` removes |
| Text.StartsWith | build.py:101 | `str.startswith`: the text begins with the prefix |
| Text.LStrip | build.py:101 | `lstrip()` removes exactly a whitespace prefix and leaves text that does not start with whitespace |
| Text.Find | build.py:102 | the first occurrence at or after a position: it occurs there and nowhere between the position and it; none means no occurrence from the position on |
| Text.FindFirst | build.py:102 | `find` from a position returns the occurrence that no earlier position from there matches |
| Text.SplitAtMostTwice | build.py:102 | `split("---", 2)` yields one to three parts that join back to the text; no part but the last contains the separator, and fewer than three parts means the last holds none either; the first cut is where `find` puts the first separator, and no separator starts between the first cut and the second |
| Text.SecondCutFirst | build.py:102 | the second cut of `split("---", 2)` is where `find` puts the first separator after the first cut |
| Text.Join | build.py:136-139 | a `Path` renders as its segments joined by `/` inside `f"/{section}/"` and `f"/{rel.with_suffix('')}/"` |
| Text.SplitJoin | build.py:136-139 | splitting a `/`-join of slash-free segments on `/` gives the segments back |
| Text.JoinSegmentsShape | build.py:136-139 | joining non-empty slash-free segments with `/` neither starts nor ends with `/` and has no `//` |
| Text.Less | build.py:200 | Python's `<` on `str`, which `sorted` applies to titles: code points compared left to right, a proper prefix first |
| Text.LessTransitive | build.py:200 | the code-point order on titles is transitive |
| Text.LessTotal | build.py:200 | any two titles are equal or ordered one way or the other |
| FrontMatter.SplitFrontMatter | build.py:98-104 | a block exists iff the trimmed text opens with `---` and a later `---` closes it; then the text is indentation + fence + metadata + fence + body, with the closing fence the first after the opening one; otherwise the body is the whole text |
| FrontMatter.FencedParts | build.py:101-104 | for a text that opens with a fence, three parts exist iff a second fence follows the first; the parts are the text between the fences and everything after the second |
| FrontMatter.ComposeThenSplit | build.py:101-104 | a document built from whitespace, a fence, metadata, a fence and any body splits back into exactly that metadata and body, provided the metadata holds no `---` and does not end in `-` (which would close the block early) |
| FrontMatter.LoadFrontMatter | build.py:105 | no block gives `{}`; a loaded mapping is the front matter; null and falsy results give `{}`; a YAML error and a truthy non-mapping abort |
| Paths.Name | build.py:134 | `PurePath.name`, as in `rel.name`, `p.source.name` and `section.name`: the last segment |
| Paths.Parent | build.py:126 | `PurePath.parent`, as in `rel.parent`: every segment but the last |
| Paths.Suffix | build.py:114 | `PurePath.suffix`: non-empty exactly when the last `.` is neither the first nor the last character, and then it runs from that `.` to the end |
| Paths.WithoutSuffix | build.py:138-139 | `with_suffix("")` keeps the parent segments and replaces the last segment by its stem |
| Paths.Stem | build.py:114 | the stem followed by the suffix is the name, and a non-empty name has a non-empty stem |
| Paths.MarkdownStem | build.py:138-139 | a name ending in `.md` loses exactly those three characters; the bare name `.md` keeps its name |
| Paths.BareMarkdownKeepsPath | build.py:138-139 | `with_suffix("")` leaves a path whose last segment is the bare `.md` unchanged |
| Paths.StemIsSegment | build.py:138-139 | the stem of a well-formed segment is a well-formed segment |
| Titles.DashesToSpaces | build.py:114 | `replace("-", " ")` keeps the length, turns each hyphen into a space and keeps every other character |
| Titles.DashesBetween | build.py:114 | hyphen-free pieces survive the replacement and the hyphen between them becomes a space |
| Titles.TitleCase | build.py:114 | `title()` keeps non-letters, keeps each letter's identity, upper-cases a letter that starts a word and lower-cases one inside a word |
| Titles.TitleCaseWords | build.py:114 | title-casing a text split at a non-letter title-cases each side on its own |
| Titles.TitleCaseIdempotent | build.py:114 | title-casing twice is the same as once |
| Titles.Humanize | build.py:114 | the readable form has no hyphens, puts a space for each hyphen, and capitalises exactly the first letter of each word |
| Titles.TitleFromPath | build.py:113-114 | the fallback title has the stem's length and no hyphen |
| Titles.SectionHeading | build.py:196 | the listing heading has the directory name's length and no hyphen |
| Router.DirUrl | build.py:133-139 | a directory's URL starts and ends with `/`, and is exactly `/` only for the build root |
| Router.RouteOf | build.py:130-139 | the root `_index.md` is served from the build root at `/`; a nested `_index.md` from its parent directory; any other file from its path minus its `pathlib` suffix (a file named exactly `.md` has none and keeps its name); every URL starts and ends with `/` |
| Router.RouteRoundTrip | build.py:130-139 | every URL splits back into exactly its output directory's segments and never contains `//` |
| Router.SegmentsRoundTrip | build.py:136-139 | the URL of non-empty slash-free segments splits back into those segments |
| Router.RootUrlIffRootIndex | build.py:131-133 | a page's URL is `/` iff it is the root `_index.md` |
| Pages.AssemblePage | build.py:141-149 | the page is routed by its path, its section is its parent directory, and a front-matter title or description wins over the fallbacks `title_from_path` and `""` |
| Pages.FallbackTitle | build.py:113-114 | without a front-matter title, the title is the stem with hyphens as spaces and each word capitalised |
| Pages.PageUrlNamesOutDir | build.py:141-144 | every assembled page's URL spells out its output directory |
| Sections.KeyIndex | build.py:152 | the lookup finds the entry holding the key, or reports that no entry holds it |
| Sections.InSection | build.py:151-152 | a section's pages are exactly the pages whose parent is that section |
| Sections.AddPage | build.py:152 | `setdefault(...).append(page)` appends the page to its section's list and leaves every other list unchanged; a new section becomes the last key; keys stay distinct; the total grows by one |
| Sections.TotalAfterAppend | build.py:152 | appending to one list adds one page to the total |
| Sections.Group | build.py:124-152 | the map holds each page exactly once: keys are distinct, each list is its section's pages in discovery order and is non-empty, and every page's section is a key |
| Sections.GroupKeyOrder | build.py:124-152 | keys stand in the order their sections were first discovered, as a Python dictionary keeps them |
| Sections.StepOrder | build.py:152 | one `setdefault(...).append` keeps keys in first-seen order: an old key keeps its first page and a new key is first seen at the page just added |
| Sections.GroupStep | build.py:151-152 | one iteration of the parse loop keeps the map faithful to the pages seen so far |
| Sections.StepLists | build.py:151-152 | after one iteration every list is its section's pages seen so far |
| Sections.StepCovers | build.py:151-152 | after one iteration every page seen so far has its section as a key |
| Sections.NoPagesYet | build.py:152 | a directory that is not a key holds no page |
| Sections.GroupLookup | build.py:151-152 | reading the map under any directory gives that directory's pages in discovery order, and none for a directory without pages |
| TitleSort.WithTitle | build.py:200 | the pages of one title are never more than the input holds |
| TitleSort.Insert | build.py:200 | insertion keeps titles in order, adds exactly one page, and puts it after the pages of an equal title |
| TitleSort.SortByTitle | build.py:200 | `sorted` by title orders titles ascending, permutes its input and keeps pages of equal title in discovery order |
| TitleSort.WithTitleAppend | build.py:200 | appending a page adds it to the pages of its own title only |
| Synthesis.IsIndexPage | build.py:190 | a page is an index page when the last segment of its source path is `_index.md`, as `p.source.name != "_index.md"` tests |
| Synthesis.Children | build.py:188-191 | the children are exactly the section's pages not read from `_index.md` |
| Synthesis.ItemsOf | build.py:198-201 | one list item per page, in order, with the page's URL and title |
| Synthesis.ItemsWithTitleOf | build.py:198-201 | the items of one title are the items of that title's pages |
| Synthesis.Synthesize | build.py:174-213 | a listing exists iff the section is not the root, has no `_index.md` and has a child; it is written to the section's directory, titled by the section heading, described as `Index of ` + heading, with one item per child, titles ascending and equal titles in discovery order |
| Synthesis.ItemsOfSorted | build.py:198-201 | the items of the sorted children are ordered by title and keep each title's discovery order |
| Build.IndexOnDisk | build.py:179-184 | `<section>/_index.md` exists iff some discovered file is named `_index.md` and lies directly in the section |
| Build.ParseFile | build.py:124-149 | one file's page is read from that file and lies in its parent section; its title and description are the loaded mapping's `title` and `description` when present, otherwise the file-name title and `""`; a failure names the file |
| Build.ParseWithoutBlock | build.py:98-149 | a file without a metadata block becomes the page of its whole text with empty front matter |
| Build.ParseFileOutcome | build.py:98-149 | a file fails exactly when its front matter cannot be loaded; otherwise it is routed by its path and renders the body left after the front matter |
| Build.ParseEach | build.py:124-128 | the loop yields one page per file in order, or the error of the first file that fails |
| Build.ParseAll | build.py:124-151 | the parse phase yields, in discovery order, the parse of each file, or fails with the error of the first file whose front matter cannot be loaded |
| Build.Present | build.py:174-219 | the generated listings are exactly the candidates that are present |
| Build.Candidate | build.py:174-194 | a section's verdict is a listing for that section exactly when it is not the root, has no `_index.md` on disk and holds a non-index page |
| Build.PresentAppend | build.py:174 | keeping the present candidates respects their order: it distributes over concatenation |
| Build.ListingsInKeyOrder | build.py:174-213 | listings follow `sections.items()` order: a further key adds its listing, if any, after all earlier ones |
| Build.ListingsFor | build.py:174-219 | a listing is generated iff some section's verdict produces it |
| Build.BuildSite | build.py:121-219 | the build fails exactly when some file's front matter cannot be loaded, with the first such error; otherwise there is one page per file in discovery order, the map holds each page once under its directory, no directory gets two listings, each listing is the generator's verdict on its directory, and a directory gets one iff it is not the root, has no `_index.md` and holds another page |
| Build.ListingsFacts | build.py:174-219 | the listings of the grouped pages are distinct per directory, each the verdict on its directory, and present exactly for the accepted directories |
| Build.ListingsAreVerdicts | build.py:174-213 | every listing is the generator's verdict on its own directory |
| Build.ListingsExactly | build.py:174-194 | for every directory at once: listed iff accepted |
| Build.BuiltPagesParsedFrom | build.py:124-152 | each page of a successful build was read from its file and lies in its parent directory |
| Build.IndexOnDiskIffIndexPage | build.py:179-185 | `<section>/_index.md` exists among the discovered files iff the section's list holds a page read from `_index.md` |
| Build.IndexFileGivesIndexPage | build.py:124-152 | the page of `<section>/_index.md` is an index page in that section's list |
| Build.IndexPageComesFromIndexFile | build.py:124-152 | an index page in a section's list was read from `<section>/_index.md` |
| Build.ChildrenIffOtherPage | build.py:187-194 | a section has children iff some page of that directory is not an index document |
| Build.CandidateOfEntry | build.py:174-185 | each map entry's verdict is the generator's decision on that directory's pages |
| Build.ListingIff | build.py:174-194 | a directory gets a listing iff it is not the root, has no `_index.md` on disk and holds a non-index page |
| Build.ListedSection | build.py:174-194 | each generated listing is the generator's decision for its own section |
| Build.AcceptedSectionListed | build.py:174-194 | a section the generator accepts gets a listing |
| Build.SiteListingIff | build.py:174-194 | in a successful build, a directory gets a listing iff it is not the root, its list holds no index page and it holds another page |
| Build.OneListingPerSection | build.py:174 | no directory gets two listings |
| Build.DistinctPresent | build.py:174 | present candidates whose sections are pairwise distinct stay pairwise distinct |
| Scenarios.PostOneTitle | build.py:113-114 | `blog/post-one.md` without a front-matter title is titled "Post One" |
| Scenarios.PostOneRoute | build.py:137-139 | `blog/post-one.md` is written to `blog/post-one` and served at `/blog/post-one/` |
| Scenarios.BlogHeading | build.py:196-212 | the `blog` listing is headed "Blog" and described as "Index of Blog" |
| Scenarios.PostPage | build.py:137-148 | `blog/post-one.md` without front matter is a non-index page of `blog` titled "Post One" at `/blog/post-one/` |
| Scenarios.BlogListed | build.py:174-213 | a site with a root `_index.md` and a front-matter-free `blog/post-one.md` gets a `blog` listing headed "Blog", described "Index of Blog", whose one item links `/blog/post-one/` as "Post One" |
| Scenarios.BlogNotListed | build.py:183-185 | with a `blog/_index.md` on disk, `blog` gets no listing |

## Left out

- Command-line parsing, the first clean-up and the placeholder loop (build.py:14-48). That
  loop's output is removed again at build.py:75-77, so nothing it does lasts.
- File-system effects: `rmtree`, `mkdir`, `write_text` and `print`. The model returns the pages
  and listings as records; the writes that would use them are not modelled.
- The order in which `rglob` discovers files depends on the file system. The model takes the
  discovered files as an input sequence, in that order.
- `Page.source` is the discovered path `CONTENT_DIR / rel`, for instance `content/blog/x.md`
  under the default site root (build.py:22, 26-27). The model keeps `rel`, the path relative to
  the content root; the build only reads its name (build.py:190).
- Reading a file (build.py:96) is not modelled. A file that is not valid UTF-8 makes `read_text`
  raise and aborts the whole build; the model has no such error, because its input is the text
  after decoding and after `\r\n` and `\r` have been translated to `\n`.
- OS-specific rendering of `Path` in f-strings. URLs are modelled with POSIX `/` joins.
- Markdown conversion and `md.reset()` (build.py:87-89, 107-108) are the `render` parameter.
- `yaml.safe_load` (build.py:105) is the `load` parameter. Its result is abstracted to a syntax
  error, null, a mapping from strings to strings, or another value with its truthiness.
- FrontMatter.LoadFrontMatter: front-matter values that are not strings are not modelled. A
  `title: 3` would make the page title an integer in the source.
- Jinja environment, template lookup, rendering and autoescaping (build.py:80-84, 161-165,
  210-214). A listing is a record of title, description and list items, not an HTML string.
- Titles.TitleCase: `str.title` is modelled on ASCII letters only. Every other character counts
  as a non-letter.
- URL uniqueness and output-path collisions are not asserted, because the code never checks them.
  Example: a root `blog.md` and a generated `blog` listing both write `blog/index.html`, and the
  later write wins.
- A directory whose name ends in `.md` is not excluded from discovery. The model's input
  contains only files.
- The content root never gets a generated listing (build.py:176-177). The model states this as
  the `section != []` condition and does not model anything further for the root.
- The final `print` at build.py:225 is not modelled.
