/**
 The routing rule of the parse loop: where a content file's page is written
 (relative to the build root) and the URL it is served under.
 */
module Router {
  import opened Text
  import opened Paths

  /** `outDir` is relative to the build root; the page is written to `outDir/index.html`. */
  datatype Route = Route(outDir: RelPath, url: string)

  /** "/" + the segments joined with "/" + "/"; just "/" for no segments. */
  function DirUrl(dir: RelPath): (u: string)
    ensures |u| >= 1 && u[0] == Slash && u[|u| - 1] == Slash
    ensures dir == [] <==> u == [Slash]
  {
    if dir == [] then [Slash] else [Slash] + Join(dir, [Slash]) + [Slash]
  }

  /** The routing rule: root index, section index, or leaf page, in that precedence. */
  function RouteOf(rel: RelPath): (r: Route)
    requires |rel| >= 1
    // the site root's index is served at "/" from the build root itself
    ensures rel == [IndexFileName] ==> r.outDir == [] && r.url == [Slash]
    // a nested index is served from its directory
    ensures rel != [IndexFileName] && Name(rel) == IndexFileName ==>
      r.outDir == Parent(rel) && |r.outDir| == |rel| - 1 >= 1
    // a leaf page gets a directory of its own, named after the file minus ".md"
    ensures Name(rel) != IndexFileName && EndsWith(Name(rel), MarkdownSuffix) && |Name(rel)| > |MarkdownSuffix| ==>
      r.outDir == Parent(rel) + [Name(rel)[..|Name(rel)| - |MarkdownSuffix|]]
    // the bare name ".md" has no suffix for `pathlib`, so it keeps its name
    ensures Name(rel) == MarkdownSuffix ==> r.outDir == rel
    // every URL starts and ends with a slash
    ensures |r.url| >= 1 && r.url[0] == Slash && r.url[|r.url| - 1] == Slash
  {
    if rel == [IndexFileName] then
      Route([], [Slash])
    else if Name(rel) == IndexFileName then
      Route(Parent(rel), [Slash] + Join(Parent(rel), [Slash]) + [Slash])
    else
      var dir := WithoutSuffix(rel);
      MarkdownStem(Name(rel));
      BareMarkdownKeepsPath(rel);
      Route(dir, [Slash] + Join(dir, [Slash]) + [Slash])
  }

  /** The segments of a URL path: strip the leading and trailing "/" and split on "/". */
  function UrlSegments(url: string): seq<string> {
    if |url| < 2 then [] else SplitOn(url[1..|url| - 1], Slash)
  }

  /** The URL of every route names exactly its output directory, segment by segment,
      and never contains an empty segment ("//"). */
  lemma RouteRoundTrip(rel: RelPath)
    requires WellFormed(rel)
    ensures UrlSegments(RouteOf(rel).url) == RouteOf(rel).outDir
    ensures NoDoubleSlash(RouteOf(rel).url)
    ensures RouteOf(rel).url == DirUrl(RouteOf(rel).outDir)
  {
    var r := RouteOf(rel);
    if rel != [IndexFileName] {
      var dir := r.outDir;
      if Name(rel) != IndexFileName {
        StemIsSegment(Name(rel));
        assert dir == Parent(rel) + [Stem(Name(rel))];
      }
      assert |dir| >= 1;
      assert forall i :: 0 <= i < |dir| ==> dir[i] != "" && Slash !in dir[i];
      SegmentsRoundTrip(dir);
    }
  }

  /** `DirUrl` of non-empty, slash-free segments splits back into those segments. */
  lemma SegmentsRoundTrip(dir: RelPath)
    requires |dir| >= 1
    requires forall i :: 0 <= i < |dir| ==> dir[i] != "" && Slash !in dir[i]
    ensures UrlSegments(DirUrl(dir)) == dir
    ensures NoDoubleSlash(DirUrl(dir))
  {
    var j := Join(dir, [Slash]);
    var u := DirUrl(dir);
    JoinSegmentsShape(dir);
    SplitJoin(dir, Slash);
    assert u == [Slash] + j + [Slash];
    assert u[1..|u| - 1] == j;
    forall i | 0 <= i < |u| - 1
      ensures !(u[i] == Slash && u[i + 1] == Slash)
    {
      if i == 0 {
        assert u[1] == j[0];
      } else if i == |u| - 2 {
        assert u[i] == j[|j| - 1];
      } else {
        assert u[i] == j[i - 1] && u[i + 1] == j[i];
      }
    }
  }

  /** Only the site root's index is served at "/". */
  lemma RootUrlIffRootIndex(rel: RelPath)
    requires WellFormed(rel)
    ensures RouteOf(rel).url == [Slash] <==> rel == [IndexFileName]
  {
    var r := RouteOf(rel);
    if rel != [IndexFileName] {
      RouteRoundTrip(rel);
      assert |r.outDir| >= 1;
      assert r.url == DirUrl(r.outDir);
    }
  }
}
