/**
 Relative paths as `pathlib` sees them: a sequence of segments, plus the parts of
 `PurePath` the build uses (`name`, `parent`, `suffix`, `stem`, `with_suffix("")`).
 */
module Paths {
  import opened Wrappers
  import opened Text

  /** A path relative to the content root (or to the build root), one entry per segment.
      The root itself, `Path(".")`, is the empty sequence. */
  type RelPath = seq<string>

  /** The reserved file name of a section's (or the site root's) index document. */
  const IndexFileName: string := "_index.md"

  /** The extension every discovered content file carries (`rglob("*.md")`). */
  const MarkdownSuffix: string := ".md"

  /** What `Path` guarantees of its parts: at least one, none empty, none containing '/'. */
  predicate WellFormed(p: RelPath) {
    |p| >= 1 && forall i :: 0 <= i < |p| ==> p[i] != "" && Slash !in p[i]
  }

  /** `PurePath.name`: the final segment. */
  function Name(p: RelPath): string
    requires |p| >= 1
  {
    p[|p| - 1]
  }

  /** `PurePath.parent`: every segment but the last. */
  function Parent(p: RelPath): RelPath
    requires |p| >= 1
  {
    p[..|p| - 1]
  }

  /** The last '.' of `name` is at `i`. */
  predicate LastDotAt(name: string, i: int) {
    0 <= i < |name| && name[i] == '.' && '.' !in name[i + 1..]
  }

  /** A name has at most one last dot. */
  lemma LastDotUnique(name: string, i: int, j: int)
    requires LastDotAt(name, i) && LastDotAt(name, j)
    ensures i == j
  {
    if i < j {
      DotAfter(name, i, j);
      assert false;
    } else if j < i {
      DotAfter(name, j, i);
      assert false;
    }
  }

  /** A dot at `j` lies in everything after an earlier position `i`. */
  lemma DotAfter(name: string, i: int, j: int)
    requires 0 <= i < j < |name| && name[j] == '.'
    ensures '.' in name[i + 1..]
  {
    assert name[i + 1..][j - i - 1] == name[j];
  }

  /** `PurePath.suffix`: from the last '.' on, unless that dot is the first or the last character. */
  function Suffix(name: string): (r: string)
    ensures EndsWith(name, r)
    // a suffix exists exactly when the last dot is neither the first nor the last character ...
    ensures r != [] <==> exists i :: LastDotAt(name, i) && 0 < i < |name| - 1
    // ... and then it runs from that dot to the end
    ensures forall i :: LastDotAt(name, i) && 0 < i < |name| - 1 ==> r == name[i..]
    ensures r != [] ==> |r| >= 2 && r[0] == '.' && '.' !in r[1..] && |r| < |name|
  {
    match LastIndexOf(name, '.')
    case Some(v) =>
      assert LastDotAt(name, v);
      assert forall i :: LastDotAt(name, i) ==> i == v by {
        forall i | LastDotAt(name, i)
          ensures i == v
        {
          LastDotUnique(name, i, v);
        }
      }
      if 0 < v < |name| - 1 then name[v..] else ""
    case None =>
      assert forall i :: 0 <= i < |name| ==> name[i] != '.';
      ""
  }

  /** `PurePath.stem`: the name without its suffix. */
  function Stem(name: string): (r: string)
    ensures r + Suffix(name) == name
    ensures name != "" ==> r != ""
  {
    var suffix := Suffix(name);
    assert name == name[..|name| - |suffix|] + name[|name| - |suffix|..];
    name[..|name| - |suffix|]
  }

  /** `p.with_suffix("")`: the same path with the suffix of its last segment removed. */
  function WithoutSuffix(p: RelPath): (r: RelPath)
    requires |p| >= 1
    ensures |r| == |p| && Parent(r) == Parent(p)
    // only the last segment changes, and it loses its suffix
    ensures Name(r) == Stem(Name(p)) && Name(r) + Suffix(Name(p)) == Name(p)
  {
    Parent(p) + [Stem(Name(p))]
  }

  /** A discovered Markdown file loses exactly its ".md": every earlier dot stays in the stem.
      Only the bare name ".md", which `pathlib` treats as having no suffix, keeps its name. */
  lemma MarkdownStem(name: string)
    ensures EndsWith(name, MarkdownSuffix) && |name| > |MarkdownSuffix| ==>
      Stem(name) == name[..|name| - |MarkdownSuffix|]
    ensures name == MarkdownSuffix ==> Stem(name) == name
  {
    if EndsWith(name, MarkdownSuffix) {
      var i := |name| - |MarkdownSuffix|;
      assert name[i] == '.' && name[i + 1..] == "md";
      assert LastIndexOf(name, '.') == Some(i);
    }
  }

  /** The bare name ".md" has no suffix, so `with_suffix("")` leaves the path as it is. */
  lemma BareMarkdownKeepsPath(p: RelPath)
    requires |p| >= 1
    ensures Name(p) == MarkdownSuffix ==> WithoutSuffix(p) == p
  {
    if Name(p) == MarkdownSuffix {
      MarkdownStem(Name(p));
      assert p == Parent(p) + [Name(p)];
    }
  }

  /** A stem is a non-empty piece of a well-formed segment, so it is a well-formed segment too. */
  lemma StemIsSegment(name: string)
    requires name != "" && Slash !in name
    ensures Stem(name) != "" && Slash !in Stem(name)
  {
    var st := Stem(name);
    assert name == st + Suffix(name);
    assert forall k :: 0 <= k < |st| ==> st[k] == name[k] && name[k] in name;
  }
}
