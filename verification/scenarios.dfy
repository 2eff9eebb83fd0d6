/**
 The build on a two-file site: `_index.md` and `blog/post-one.md`, with and without a
 `blog/_index.md` of its own.
 */
module Scenarios {
  import opened Wrappers
  import opened Text
  import opened Paths
  import opened Titles
  import opened Router
  import opened Pages
  import opened TitleSort
  import opened Synthesis
  import opened Sections
  import opened FrontMatter
  import opened Build

  const PostOne: RelPath := ["blog", "post-one.md"]

  /** `title()` capitalises each hyphen-separated word of the stem. */
  lemma PostOneTitle()
    ensures TitleFromPath(PostOne) == "Post One"
  {
    PostOneStem();
    PostOneDashes();
    PostOneCase();
    assert Humanize("post-one") == TitleCase("post one");
  }

  /** The stem drops only the ".md" suffix. */
  lemma PostOneStem()
    ensures Stem(Name(PostOne)) == "post-one"
  {
    var name := "post-one.md";
    assert Name(PostOne) == name;
    assert name[8..] == MarkdownSuffix && name[..8] == "post-one";
    MarkdownStem(name);
  }

  lemma PostOneDashes()
    ensures DashesToSpaces("post-one") == "post one"
  {
    assert "post" + ['-'] + "one" == "post-one";
    DashesBetween("post", "one");
    assert "post" + [' '] + "one" == "post one";
  }

  lemma PostOneCase()
    ensures TitleCase("post one") == "Post One"
  {
    TitleCaseWords("post", ' ', "one");
    assert "post" + [' '] + "one" == "post one";
    PostCase();
    OneCase();
    assert "Post" + [' '] + "One" == "Post One";
  }

  lemma PostCase()
    ensures TitleCase("post") == "Post"
  {
    var p := TitleCase("post");
    assert p[0] == 'P' && p[1] == 'o' && p[2] == 's' && p[3] == 't';
  }

  lemma OneCase()
    ensures TitleCase("one") == "One"
  {
    var o := TitleCase("one");
    assert o[0] == 'O' && o[1] == 'n' && o[2] == 'e';
  }

  /** A leaf page is served from a directory named after its stem. */
  lemma PostOneRoute()
    ensures RouteOf(PostOne) == Route(["blog", "post-one"], "/blog/post-one/")
  {
    PostOneDir();
    RouteRoundTrip(PostOne);
    PostOneUrl();
  }

  lemma PostOneDir()
    ensures RouteOf(PostOne).outDir == ["blog", "post-one"]
  {
    PostOneStem();
    assert Parent(PostOne) == ["blog"];
    assert EndsWith(Name(PostOne), MarkdownSuffix);
  }

  lemma PostOneUrl()
    ensures DirUrl(["blog", "post-one"]) == "/blog/post-one/"
  {
    assert Join(["blog", "post-one"], [Slash]) == "blog/post-one";
  }

  /** The generated listing for `blog` is headed "Blog". */
  lemma BlogHeading()
    ensures SectionHeading(["blog"]) == "Blog"
    ensures IndexOfPrefix + SectionHeading(["blog"]) == "Index of Blog"
  {
    var r := SectionHeading(["blog"]);
    assert Name(["blog"]) == "blog";
    assert IsUpper(r[0]) && ToLower(r[0]) == 'b';
    assert r == "Blog";
  }

  /** Without `blog/_index.md`, the blog directory gets a generated listing, headed "Blog",
      whose one item links to the post under its fallback title. */
  lemma BlogListed(files: seq<SourceFile>, load: string -> Yaml, render: string -> string)
    requires |files| == 2 && files[0].rel == [IndexFileName] && files[1].rel == PostOne
    requires Discovered(files) && BuildSite(files, load, render).Success?
    requires SplitFrontMatter(files[1].text).meta.None?
    ensures exists x :: (x in BuildSite(files, load, render).value.listings && x.section == ["blog"]
      && x.title == "Blog" && x.description == "Index of Blog"
      && x.items == [ListItem("/blog/post-one/", "Post One")])
  {
    var site := BuildSite(files, load, render).value;
    var pages := site.pages;
    var post := pages[1];
    assert ParseFile(files[0], load, render) == Success(pages[0]);
    assert WellFormed(PostOne) by {
      assert PostOne[0] == "blog" && PostOne[1] == "post-one.md";
    }
    ParseWithoutBlock(files[1], load, render);
    assert post == AssemblePage(PostOne, map[], render(files[1].text));
    PostPage(files[1].rel, render(files[1].text));
    NoBlogIndex(files);
    assert post in pages;
    assert Accepted(files, pages, ["blog"]);
    var x :| x in site.listings && x.section == ["blog"];
    BlogPages(pages);
    assert Synthesize(["blog"], [post], false) == Some(x);
    BlogHeading();
    SingleItem(x.items, post);
  }

  /** The post's page without front matter: the blog section, the fallback title and the
      routed URL. */
  lemma PostPage(rel: RelPath, html: string)
    requires rel == PostOne
    ensures var post := AssemblePage(rel, map[], html);
      && post.section == ["blog"] && !IsIndexPage(post)
      && post.title == "Post One" && post.url == "/blog/post-one/"
  {
    PostPageTitle(rel, html);
    PostPageRoute(rel, html);
    PostPageSection(rel, html);
    PostPageNotIndex(rel, html);
  }

  lemma PostPageTitle(rel: RelPath, html: string)
    requires rel == PostOne
    ensures AssemblePage(rel, map[], html).title == "Post One"
  {
    PostOneTitle();
  }

  lemma PostPageRoute(rel: RelPath, html: string)
    requires rel == PostOne
    ensures AssemblePage(rel, map[], html).url == "/blog/post-one/"
  {
    PostOneRoute();
  }

  lemma PostPageSection(rel: RelPath, html: string)
    requires rel == PostOne
    ensures AssemblePage(rel, map[], html).section == ["blog"]
  {
  }

  lemma PostPageNotIndex(rel: RelPath, html: string)
    requires rel == PostOne
    ensures !IsIndexPage(AssemblePage(rel, map[], html))
  {
    assert Name(rel)[0] == 'p';
  }

  /** Of the root index page and the post, the blog directory holds exactly the post. */
  lemma BlogPages(pages: seq<Page>)
    requires |pages| == 2 && pages[0].section == [] && pages[1].section == ["blog"]
    ensures InSection(pages, ["blog"]) == [pages[1]]
  {
    assert pages[..1][..0] == [];
    assert InSection(pages[..1], ["blog"]) == [];
  }

  /** A one-page listing has that page's item. */
  lemma SingleItem(items: seq<ListItem>, post: Page)
    requires |items| == 1
    requires ItemsWithTitle(items, post.title) == ItemsOf(WithTitle([post], post.title))
    ensures items == [ListItem(post.url, post.title)]
  {
    assert WithTitle([post], post.title) == [post];
    assert ItemsWithTitle(items[1..], post.title) == [];
  }

  lemma NoBlogIndex(files: seq<SourceFile>)
    requires |files| == 2 && files[0].rel == [IndexFileName] && files[1].rel == PostOne
    ensures !IndexOnDisk(files, ["blog"])
  {
    assert |files[0].rel| == 1;
    assert files[1].rel[1][0] == 'p';
  }

  /** With a `blog/_index.md`, the blog directory is served by that page and gets no listing. */
  lemma BlogNotListed(files: seq<SourceFile>, pages: seq<Page>)
    requires |files| == 2 && files[0].rel == ["blog", IndexFileName] && files[1].rel == PostOne
    requires Discovered(files) && ParsedFrom(pages, files)
    ensures forall x :: x in ListingsFor(Group(pages), files) ==> x.section != ["blog"]
  {
    BlogIndex(files);
    ListingIff(files, pages, ["blog"]);
  }

  lemma BlogIndex(files: seq<SourceFile>)
    requires |files| >= 1 && files[0].rel == ["blog", IndexFileName]
    ensures IndexOnDisk(files, ["blog"])
  {
    assert files[0].rel == ["blog"] + [IndexFileName];
  }
}
