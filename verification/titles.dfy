/**
 Human-readable titles derived from file and directory names:
 `name.replace("-", " ").title()`, with `str.title` restricted to ASCII letters.
 */
module Titles {
  import opened Paths

  predicate IsUpper(c: char) { 'A' <= c <= 'Z' }
  predicate IsLower(c: char) { 'a' <= c <= 'z' }

  /** A cased character, in the ASCII restriction of `str.title`. */
  predicate IsLetter(c: char) { IsUpper(c) || IsLower(c) }

  function ToUpper(c: char): (r: char)
    ensures IsLetter(c) ==> IsUpper(r)
    ensures IsLetter(r) <==> IsLetter(c)
  {
    if IsLower(c) then (c as int - 32) as char else c
  }

  function ToLower(c: char): (r: char)
    ensures IsLetter(c) ==> IsLower(r)
    ensures IsLetter(r) <==> IsLetter(c)
  {
    if IsUpper(c) then (c as int + 32) as char else c
  }

  /** One character of `str.title`: a letter right after another letter is lower-cased,
      any other letter is upper-cased, everything else is kept. */
  function TitleChar(c: char, afterLetter: bool): (r: char)
    ensures IsLetter(r) <==> IsLetter(c)
    ensures !IsLetter(c) ==> r == c
    ensures ToLower(r) == ToLower(c)
  {
    if !IsLetter(c) then c else if afterLetter then ToLower(c) else ToUpper(c)
  }

  /** `s.replace("-", " ")`. */
  function DashesToSpaces(s: string): (r: string)
    ensures |r| == |s| && '-' !in r
    ensures forall i :: 0 <= i < |s| && s[i] != '-' ==> r[i] == s[i]
    ensures forall i :: 0 <= i < |s| && s[i] == '-' ==> r[i] == ' '
  {
    if s == [] then []
    else [if s[0] == '-' then ' ' else s[0]] + DashesToSpaces(s[1..])
  }

  /** `str.title` on the rest of a string, `afterLetter` telling whether the character
      just before it was a letter. */
  function TitleCaseAfter(s: string, afterLetter: bool): (r: string)
    ensures |r| == |s|
    ensures |s| > 0 ==> r[0] == TitleChar(s[0], afterLetter)
    ensures forall i :: 0 < i < |s| ==> r[i] == TitleChar(s[i], IsLetter(s[i - 1]))
  {
    if s == [] then []
    else [TitleChar(s[0], afterLetter)] + TitleCaseAfter(s[1..], IsLetter(s[0]))
  }

  /** Python's `s.title()` on ASCII text. */
  function TitleCase(s: string): (r: string)
    ensures |r| == |s|
    ensures forall i :: 0 <= i < |s| && !IsLetter(s[i]) ==> r[i] == s[i]
    ensures forall i :: 0 <= i < |s| ==> IsLetter(r[i]) == IsLetter(s[i])
    ensures forall i :: 0 <= i < |s| && IsLetter(s[i]) ==>
      (if i == 0 || !IsLetter(s[i - 1]) then IsUpper(r[i]) else IsLower(r[i]))
    // each letter stays the same letter, only its case may change
    ensures forall i :: 0 <= i < |s| ==> ToLower(r[i]) == ToLower(s[i])
  {
    var r := TitleCaseAfter(s, false);
    forall i | 0 <= i < |s|
      ensures r[i] == TitleChar(s[i], i > 0 && IsLetter(s[i - 1]))
      ensures IsLetter(r[i]) == IsLetter(s[i])
      ensures !IsLetter(s[i]) ==> r[i] == s[i]
      ensures ToLower(r[i]) == ToLower(s[i])
    {
      var b := i > 0 && IsLetter(s[i - 1]);
      assert r[i] == TitleChar(s[i], b);
    }
    r
  }

  /** Title-casing keeps letters letters, so a second pass changes nothing. */
  lemma TitleCaseIdempotent(s: string)
    ensures TitleCase(TitleCase(s)) == TitleCase(s)
  {
    var t := TitleCase(s);
    var u := TitleCase(t);
    forall i | 0 <= i < |s|
      ensures u[i] == t[i]
    {
      if i > 0 {
        assert IsLetter(t[i - 1]) == IsLetter(s[i - 1]);
      }
      if IsLetter(s[i]) {
        assert IsLetter(t[i]);
      }
    }
  }

  /** Title-casing works word by word: a non-letter separates two independently cased parts. */
  lemma TitleCaseWords(a: string, c: char, b: string)
    requires !IsLetter(c)
    ensures TitleCase(a + [c] + b) == TitleCase(a) + [c] + TitleCase(b)
  {
    var s := a + [c] + b;
    var l := TitleCase(s);
    var r := TitleCase(a) + [c] + TitleCase(b);
    forall i | 0 <= i < |s|
      ensures l[i] == r[i]
    {
      TitleCaseAt(s, i);
      if i < |a| {
        TitleCaseAt(a, i);
        assert s[i] == a[i];
        if i > 0 { assert s[i - 1] == a[i - 1]; }
      } else if i > |a| {
        var k := i - |a| - 1;
        TitleCaseAt(b, k);
        assert s[i] == b[k];
        if k > 0 { assert s[i - 1] == b[k - 1]; }
      }
    }
  }

  /** Each character of `s.title()` depends only on itself and the character before it. */
  lemma TitleCaseAt(s: string, i: nat)
    requires i < |s|
    ensures TitleCase(s)[i] == TitleChar(s[i], i > 0 && IsLetter(s[i - 1]))
  {
  }

  /** Replacing hyphens works piece by piece: hyphen-free pieces are kept and the hyphen
      between them becomes a space. */
  lemma DashesBetween(a: string, b: string)
    requires '-' !in a && '-' !in b
    ensures DashesToSpaces(a + ['-'] + b) == a + [' '] + b
  {
    var s := a + ['-'] + b;
    var d := DashesToSpaces(s);
    forall i | 0 <= i < |s|
      ensures d[i] == (a + [' '] + b)[i]
    {
      if i < |a| {
        assert s[i] == a[i] && a[i] in a;
      } else if i > |a| {
        assert s[i] == b[i - |a| - 1] && b[i - |a| - 1] in b;
      }
    }
  }

  /** A file or directory name made readable: hyphens become spaces, then each word is title-cased. */
  function Humanize(name: string): (r: string)
    ensures |r| == |name| && '-' !in r
    ensures forall i :: 0 <= i < |name| && !IsLetter(name[i]) && name[i] != '-' ==> r[i] == name[i]
    ensures forall i :: 0 <= i < |name| && name[i] == '-' ==> r[i] == ' '
    // letters keep their identity: upper case at the start of a word, lower case inside one
    ensures forall i :: 0 <= i < |name| && IsLetter(name[i]) ==> ToLower(r[i]) == ToLower(name[i])
    ensures forall i :: 0 <= i < |name| && IsLetter(name[i]) ==>
      (if i == 0 || !IsLetter(name[i - 1]) then IsUpper(r[i]) else IsLower(r[i]))
  {
    var d := DashesToSpaces(name);
    var r := TitleCase(d);
    forall i | 0 <= i < |r|
      ensures r[i] != '-'
    {
      assert d[i] in d;
      if !IsLetter(d[i]) {
        assert r[i] == d[i];
      }
    }
    forall i | 0 <= i < |name| && IsLetter(name[i])
      ensures IsLetter(d[i])
      ensures i > 0 ==> (IsLetter(d[i - 1]) <==> IsLetter(name[i - 1]))
    {
    }
    r
  }

  /** `title_from_path`: the humanized stem of the file's name. */
  function TitleFromPath(rel: RelPath): (r: string)
    requires |rel| >= 1
    ensures |r| == |Stem(Name(rel))| && '-' !in r
  {
    Humanize(Stem(Name(rel)))
  }

  /** The heading of a generated section listing: the humanized last directory name. */
  function SectionHeading(section: RelPath): (r: string)
    requires |section| >= 1
    ensures |r| == |Name(section)| && '-' !in r
  {
    Humanize(Name(section))
  }
}
