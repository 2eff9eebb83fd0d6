/**
 The document loader's split of a content file into an optional metadata block and a body,
 and the interpretation of the block's YAML result as a front-matter mapping.
 */
module FrontMatter {
  import opened Wrappers
  import opened Text

  /** The fence that opens and closes the metadata block. */
  const Fence: string := "---"

  /** `meta` is the text between the two fences, when there is a block; `body` is what
      the content renderer receives. */
  datatype Split = Split(meta: Option<string>, body: string)

  /** The text before the first fence of a document whose trimmed text starts with one. */
  function Indent(raw: string): string {
    raw[..|raw| - |LStrip(raw)|]
  }

  /** The front-matter split: a block exists when the left-trimmed text starts with the fence
      and splitting the raw text at the first two fences gives three parts. */
  function SplitFrontMatter(raw: string): (r: Split)
    // no block: nothing is taken away from the body
    ensures r.meta.None? ==> r.body == raw
    // a block exists exactly when the text opens with a fence that is closed later on
    ensures r.meta.Some? <==>
      StartsWith(LStrip(raw), Fence) && Find(raw, Fence, |Indent(raw)| + |Fence|).Some?
    // with a block: the document is indentation, fence, metadata, fence, body
    ensures r.meta.Some? ==>
      raw == Indent(raw) + Fence + r.meta.value + Fence + r.body
    // ... where the closing fence is the first one after the opening fence
    ensures r.meta.Some? ==>
      forall k :: 0 <= k < |r.meta.value| ==> !OccursAt(r.meta.value + Fence, Fence, k)
  {
    if StartsWith(LStrip(raw), Fence) then
      var parts := SplitAtMostTwice(raw, Fence);
      FencedParts(raw);
      if |parts| == 3 then Split(Some(parts[1]), parts[2]) else Split(None, raw)
    else
      Split(None, raw)
  }

  /** What `raw.split("---", 2)` yields for a document that opens with a fence. */
  lemma FencedParts(raw: string)
    requires StartsWith(LStrip(raw), Fence)
    ensures var parts := SplitAtMostTwice(raw, Fence);
      var from := |Indent(raw)| + |Fence|;
      && (|parts| == 3 <==> Find(raw, Fence, from).Some?)
      && (|parts| == 3 ==>
            var j := Find(raw, Fence, from).value;
            && parts[1] == raw[from..j] && parts[2] == raw[j + |Fence|..]
            && raw == Indent(raw) + Fence + parts[1] + Fence + parts[2]
            && forall k :: 0 <= k < |parts[1]| ==> !OccursAt(parts[1] + Fence, Fence, k))
  {
    var n := |Indent(raw)|;
    OpeningFence(raw);
    PartsAfterOpening(raw, n);
    assert raw[..n] == Indent(raw);
  }

  /** `raw.split("---", 2)` when the first fence is at `n`. */
  lemma PartsAfterOpening(raw: string, n: nat)
    requires Find(raw, Fence, 0) == Some(n)
    ensures var parts := SplitAtMostTwice(raw, Fence);
      && (|parts| == 3 <==> Find(raw, Fence, n + |Fence|).Some?)
      && (|parts| == 3 ==>
            var j := Find(raw, Fence, n + |Fence|).value;
            && parts[1] == raw[n + |Fence|..j] && parts[2] == raw[j + |Fence|..]
            && raw == raw[..n] + Fence + parts[1] + Fence + parts[2]
            && forall k :: 0 <= k < |parts[1]| ==> !OccursAt(parts[1] + Fence, Fence, k))
  {
    match Find(raw, Fence, n + |Fence|)
    case None =>
    case Some(j) =>
      ClosingFence(raw, n + |Fence|, j);
      CutBetween(raw, Fence, n, j);
  }

  /** When the trimmed text starts with the fence, the first fence sits right after the indentation. */
  lemma OpeningFence(raw: string)
    requires StartsWith(LStrip(raw), Fence)
    ensures Find(raw, Fence, 0) == Some(|Indent(raw)|)
  {
    var t := LStrip(raw);
    var n := |raw| - |t|;
    assert t == raw[n..];
    assert raw[n..n + |Fence|] == t[..|Fence|];
    assert OccursAt(raw, Fence, n);
    forall k | 0 <= k < n
      ensures !OccursAt(raw, Fence, k)
    {
      assert raw[..n][k] == raw[k];
      assert IsSpace(raw[k]);
      assert raw[k] != '-';
      if k + |Fence| <= |raw| {
        assert raw[k..k + |Fence|][0] == raw[k];
      }
    }
    FindFirst(raw, Fence, 0, n);
  }

  /** No occurrence of the fence strictly between the two fences, even one that runs into the
      closing fence. */
  lemma ClosingFence(raw: string, from: nat, j: nat)
    requires from <= j && OccursAt(raw, Fence, j)
    requires forall k :: from <= k < j ==> !OccursAt(raw, Fence, k)
    ensures forall k :: 0 <= k < j - from ==> !OccursAt(raw[from..j] + Fence, Fence, k)
  {
    var t := raw[from..j] + Fence;
    assert t == raw[from..j + |Fence|];
    forall k | 0 <= k < j - from
      ensures !OccursAt(t, Fence, k)
    {
      if k + |Fence| <= |t| {
        assert t[k..k + |Fence|] == raw[from + k..from + k + |Fence|];
        assert !OccursAt(raw, Fence, from + k);
      }
    }
  }

  /** Writing indentation, a fenced block and a body, then splitting, gives the block and body back,
      provided the block holds no fence and does not end in '-' (which would close it early). */
  lemma ComposeThenSplit(indent: string, meta: string, body: string)
    requires AllSpace(indent)
    requires !Contains(meta, Fence)
    requires meta == [] || meta[|meta| - 1] != '-'
    ensures SplitFrontMatter(indent + Fence + meta + Fence + body) == Split(Some(meta), body)
  {
    var raw := indent + Fence + meta + Fence + body;
    ComposedStart(raw, indent, meta, body);
    ComposedParts(raw, indent, meta, body);
    var parts := SplitAtMostTwice(raw, Fence);
    assert parts[1] == meta && parts[2] == body;
  }

  /** A composed document, once left-trimmed, starts with the fence. */
  lemma ComposedStart(raw: string, indent: string, meta: string, body: string)
    requires raw == indent + Fence + meta + Fence + body
    requires AllSpace(indent)
    ensures StartsWith(LStrip(raw), Fence)
  {
    var rest := Fence + meta + Fence + body;
    assert StartsWith(rest, Fence) by {
      assert rest == Fence + (meta + Fence + body);
    }
    assert raw == indent + rest;
    IndentBeforeFence(indent, rest);
  }

  /** `split("---", 2)` of a composed document gives back its three pieces. */
  lemma ComposedParts(raw: string, indent: string, meta: string, body: string)
    requires raw == indent + Fence + meta + Fence + body
    requires AllSpace(indent)
    requires !Contains(meta, Fence)
    requires meta == [] || meta[|meta| - 1] != '-'
    ensures SplitAtMostTwice(raw, Fence) == [indent, meta, body]
  {
    ComposedFences(raw, indent, meta, body);
    ComposedPieces(raw, indent, meta, body);
    SplitIntoPieces(raw, |indent|, |indent| + |Fence| + |meta|, indent, meta, body);
  }

  /** The first fence of `raw` is at `i` and the next one after it at `j`. */
  predicate FencesAt(raw: string, i: nat, j: nat) {
    Find(raw, Fence, 0) == Some(i) && Find(raw, Fence, i + |Fence|) == Some(j)
  }

  /** Around fences at `i` and `j`, `raw` reads `indent`, `meta` and `body`. */
  predicate PiecesAt(raw: string, i: nat, j: nat, indent: string, meta: string, body: string) {
    i + |Fence| <= j && j + |Fence| <= |raw| && raw[..i] == indent && raw[i + |Fence|..j] == meta && raw[j + |Fence|..] == body
  }

  /** Fences found at `i` and `j` cut the text into the three given pieces. */
  lemma SplitIntoPieces(raw: string, i: nat, j: nat, indent: string, meta: string, body: string)
    requires FencesAt(raw, i, j) && PiecesAt(raw, i, j, indent, meta, body)
    ensures SplitAtMostTwice(raw, Fence) == [indent, meta, body]
  {
    SplitAtFences(raw, i, j);
  }

  /** The slices of a composed document between its fences are its pieces. */
  lemma ComposedPieces(raw: string, indent: string, meta: string, body: string)
    requires raw == indent + Fence + meta + Fence + body
    ensures PiecesAt(raw, |indent|, |indent| + |Fence| + |meta|, indent, meta, body)
  {
    var i, j := |indent|, |indent| + |Fence| + |meta|;
    assert raw[..i] == indent;
    assert raw[i + |Fence|..j] == meta;
    assert raw[j + |Fence|..] == body;
  }

  /** Where the two fences of a composed document are found. */
  lemma ComposedFences(raw: string, indent: string, meta: string, body: string)
    requires raw == indent + Fence + meta + Fence + body
    requires AllSpace(indent)
    requires !Contains(meta, Fence)
    requires meta == [] || meta[|meta| - 1] != '-'
    ensures FencesAt(raw, |indent|, |indent| + |Fence| + |meta|)
  {
    var rest := Fence + meta + Fence + body;
    assert StartsWith(rest, Fence) by {
      assert rest == Fence + (meta + Fence + body);
    }
    assert raw == indent + rest;
    ComposedOpening(raw, indent, rest);
    ComposedClosing(raw, indent, meta, body);
  }

  lemma ComposedClosing(raw: string, indent: string, meta: string, body: string)
    requires raw == indent + Fence + meta + Fence + body
    requires !Contains(meta, Fence)
    requires meta == [] || meta[|meta| - 1] != '-'
    ensures Find(raw, Fence, |indent| + |Fence|) == Some(|indent| + |Fence| + |meta|)
  {
    var head := indent + Fence;
    assert raw == head + (meta + Fence + body);
    ClosingFenceFound(raw, head, meta, body, |indent| + |Fence|);
  }

  /** Indentation followed by a fence: the fence is the first one found. */
  lemma ComposedOpening(raw: string, indent: string, rest: string)
    requires raw == indent + rest
    requires AllSpace(indent) && StartsWith(rest, Fence)
    ensures Find(raw, Fence, 0) == Some(|indent|)
  {
    IndentBeforeFence(indent, rest);
    OpeningFence(raw);
  }

  /** `split("---", 2)` cuts at the first fence and at the next one after it. */
  lemma SplitAtFences(raw: string, i: nat, j: nat)
    requires Find(raw, Fence, 0) == Some(i)
    requires Find(raw, Fence, i + |Fence|) == Some(j)
    ensures SplitAtMostTwice(raw, Fence) == [raw[..i], raw[i + |Fence|..j], raw[j + |Fence|..]]
  {
    assert |Fence| > 0;
  }

  /** After the opening fence, the next fence found is the one that follows the metadata. */
  lemma ClosingFenceFound(raw: string, head: string, meta: string, body: string, from: nat)
    requires raw == head + (meta + Fence + body) && from == |head|
    requires !Contains(meta, Fence)
    requires meta == [] || meta[|meta| - 1] != '-'
    ensures Find(raw, Fence, from) == Some(from + |meta|)
  {
    var tail := meta + Fence + body;
    var j := from + |meta|;
    NoFenceBeforeClose(meta, body);
    forall k | from <= k < j
      ensures !OccursAt(raw, Fence, k)
    {
      OccursShift(head, tail, Fence, k - from);
    }
    OccursShift(head, tail, Fence, |meta|);
    assert OccursAt(tail, Fence, |meta|) by {
      assert tail[|meta|..|meta| + |Fence|] == Fence;
    }
    FindFirst(raw, Fence, from, j);
  }

  /** Indentation followed by a fence is stripped exactly. */
  lemma IndentBeforeFence(indent: string, rest: string)
    requires AllSpace(indent) && StartsWith(rest, Fence)
    ensures LStrip(indent + rest) == rest
    ensures |Indent(indent + rest)| == |indent|
  {
    assert rest[0] == '-';
    LStripSpaces(indent, rest);
  }

  /** An occurrence in `b` is an occurrence in `a + b`, shifted by `|a|`. */
  lemma OccursShift(a: string, b: string, pat: string, k: nat)
    ensures OccursAt(a + b, pat, |a| + k) <==> OccursAt(b, pat, k)
  {
    if k + |pat| <= |b| {
      assert (a + b)[|a| + k..|a| + k + |pat|] == b[k..k + |pat|];
    }
  }

  /** Inside `meta + "---"`, the first fence is the appended one. */
  lemma NoFenceBeforeClose(meta: string, body: string)
    requires !Contains(meta, Fence)
    requires meta == [] || meta[|meta| - 1] != '-'
    ensures forall k :: 0 <= k < |meta| ==> !OccursAt(meta + Fence + body, Fence, k)
  {
    var t := meta + Fence + body;
    forall k | 0 <= k < |meta|
      ensures !OccursAt(t, Fence, k)
    {
      if k + |Fence| <= |meta| {
        assert t[k..k + |Fence|] == meta[k..k + |Fence|];
        assert !OccursAt(meta, Fence, k);
      } else {
        assert t[|meta| - 1] == meta[|meta| - 1];
        assert k == |meta| - 1 || k == |meta| - 2;
        assert t[k..k + |Fence|][|meta| - 1 - k] == t[|meta| - 1];
      }
    }
  }

  /** Leading whitespace is exactly what `lstrip` removes. */
  lemma {:induction false} LStripSpaces(indent: string, rest: string)
    requires AllSpace(indent)
    requires rest == [] || !IsSpace(rest[0])
    ensures LStrip(indent + rest) == rest
  {
    if indent != [] {
      assert (indent + rest)[1..] == indent[1..] + rest;
      LStripSpaces(indent[1..], rest);
    }
  }

  /** What `yaml.safe_load` can return for a metadata block, as far as the build cares. */
  datatype Yaml =
    | SyntaxError                        // safe_load raises
    | Null                               // an empty block or an explicit null
    | Mapping(entries: map<string, string>)
    | NonMapping(truthy: bool)           // a scalar or a list

  datatype LoadError = MalformedYaml | NotAMapping

  /** `yaml.safe_load(fm) or {}`, followed by the `.get` calls that need a mapping.
      `load` stands for the YAML library. */
  function LoadFrontMatter(meta: Option<string>, load: string -> Yaml): (r: Result<map<string, string>, LoadError>)
    // without a block the front matter is empty
    ensures meta.None? ==> r == Success(map[])
    // a YAML error is not caught
    ensures meta.Some? && load(meta.value).SyntaxError? ==> r == Failure(MalformedYaml)
    // a truthy value that is not a mapping fails at the first `.get`
    ensures meta.Some? && load(meta.value).NonMapping? && load(meta.value).truthy ==> r == Failure(NotAMapping)
    // a loaded mapping is the front matter
    ensures meta.Some? && load(meta.value).Mapping? ==> r == Success(load(meta.value).entries)
    // `or {}`: null and falsy results read as empty front matter
    ensures meta.Some? && (load(meta.value).Null? || (load(meta.value).NonMapping? && !load(meta.value).truthy)) ==>
      r == Success(map[])
    // any successful front matter is either empty or exactly the loaded mapping
    ensures r.Success? ==> r.value == map[] || (meta.Some? && load(meta.value) == Mapping(r.value))
  {
    match meta
    case None => Success(map[])
    case Some(text) =>
      match load(text)
      case SyntaxError => Failure(MalformedYaml)
      case Null => Success(map[])
      case Mapping(m) => Success(m)
      case NonMapping(truthy) => if truthy then Failure(NotAMapping) else Success(map[])
  }
}
