/**
  POSIX-style path helpers the plugin relies on: Node's `path.extname` (used
  for the `.ttf` test) and the `replace-ext` package (used to rename to
  `.woff2`). Both are stated through one decomposition of a path into a
  directory prefix, a stem and an extension.
 */
module Paths {

  const SEP: char := '/'
  const DOT: char := '.'

  /** Index of the last occurrence of `c` among the first `n` characters of `s`, or -1. */
  function LastIndexBefore(s: string, c: char, n: nat): (i: int)
    requires n <= |s|
    ensures -1 <= i < n
  {
    if n == 0 then -1
    else if s[n - 1] == c then n - 1
    else LastIndexBefore(s, c, n - 1)
  }

  /** Index of the last occurrence of `c` in `s`, or -1 when there is none. */
  function LastIndexOf(s: string, c: char): (i: int)
    ensures -1 <= i < |s|
  {
    LastIndexBefore(s, c, |s|)
  }

  /** LastIndexBefore reports an occurrence of `c`, and none lies after it below `n`. */
  lemma {:induction false} LastIndexBeforeIsLast(s: string, c: char, n: nat)
    requires n <= |s|
    ensures 0 <= LastIndexBefore(s, c, n) ==> s[LastIndexBefore(s, c, n)] == c
    ensures forall j :: LastIndexBefore(s, c, n) < j < n ==> s[j] != c
  {
    if n > 0 && s[n - 1] != c {
      LastIndexBeforeIsLast(s, c, n - 1);
    }
  }

  /** LastIndexOf reports an occurrence of `c`, and none lies after it. */
  lemma LastIndexOfIsLast(s: string, c: char)
    ensures 0 <= LastIndexOf(s, c) ==> s[LastIndexOf(s, c)] == c
    ensures forall j :: LastIndexOf(s, c) < j < |s| ==> s[j] != c
  {
    LastIndexBeforeIsLast(s, c, |s|);
  }

  /** Being an occurrence with none after it pins the value of LastIndexOf down. */
  lemma LastIndexOfUnique(s: string, c: char, i: int)
    requires -1 <= i < |s|
    requires 0 <= i ==> s[i] == c
    requires forall j :: i < j < |s| ==> s[j] != c
    ensures LastIndexOf(s, c) == i
  {
    LastIndexOfIsLast(s, c);
  }

  /** `dir` ends at the last separator (inclusive); `stem + ext` is the last segment. */
  datatype PathParts = PathParts(dir: string, stem: string, ext: string)

  predicate NoneOf(s: string, c: char)
  {
    forall k :: 0 <= k < |s| ==> s[k] != c
  }

  predicate NoSeparator(s: string)
  {
    NoneOf(s, SEP)
  }

  /** A dot followed by characters that are neither dots nor separators. */
  predicate DotSuffix(e: string)
  {
    |e| >= 1 && e[0] == DOT && forall k :: 1 <= k < |e| ==> e[k] != DOT && e[k] != SEP
  }

  /**
    The shape Node's `path.extname` gives a path: the extension starts at the
    last dot of the last segment, unless that dot is the segment's first
    character or the segment is exactly "..", in which case it is empty.
   */
  predicate WellSplit(parts: PathParts)
  {
    && (parts.dir == [] || parts.dir[|parts.dir| - 1] == SEP)
    && NoSeparator(parts.stem)
    && (parts.ext == [] ==> IsDotDot(parts.stem) || NoDotAfterFirst(parts.stem))
    && (parts.ext != [] ==>
          DotSuffix(parts.ext) && parts.stem != [] && !IsDotDot(parts.stem + parts.ext))
  }

  /** The segment "..", which Node gives no extension. */
  predicate IsDotDot(s: string)
  {
    |s| == 2 && s[0] == DOT && s[1] == DOT
  }

  /** The only dot, if any, is the first character. */
  predicate NoDotAfterFirst(s: string)
  {
    forall k :: 0 < k < |s| ==> s[k] != DOT
  }

  function Join(parts: PathParts): string
  {
    parts.dir + parts.stem + parts.ext
  }

  /** Splits a path at its last separator and at the extension's dot. */
  function Split(p: string): PathParts
  {
    var i := LastIndexOf(p, SEP);
    var dir, base := p[..i + 1], p[i + 1..];
    var j := LastIndexOf(base, DOT);
    if j <= 0 || IsDotDot(base) then PathParts(dir, base, "")
    else PathParts(dir, base[..j], base[j..])
  }

  /** Split always yields a well-formed decomposition of its argument. */
  lemma SplitSound(p: string)
    ensures WellSplit(Split(p))
    ensures Join(Split(p)) == p
  {
    SplitJoins(p);
    SplitWellFormed(p);
  }

  lemma SplitJoins(p: string)
    ensures Join(Split(p)) == p
  {
    var i := LastIndexOf(p, SEP);
    var dir, base := p[..i + 1], p[i + 1..];
    CutJoins(p, i + 1);
    var j := LastIndexOf(base, DOT);
    if 0 < j && !IsDotDot(base) {
      CutJoins(base, j);
      assert Split(p) == PathParts(dir, base[..j], base[j..]);
      JoinRegroups(dir, base[..j], base[j..]);
    } else {
      assert Split(p) == PathParts(dir, base, "");
      assert base + "" == base;
    }
  }

  /** Cutting a string anywhere and putting the halves together gives it back. */
  lemma CutJoins(s: string, n: int)
    requires 0 <= n <= |s|
    ensures s[..n] + s[n..] == s
  {
  }

  /** A join is the directory followed by the whole last segment. */
  lemma JoinRegroups(dir: string, stem: string, ext: string)
    ensures Join(PathParts(dir, stem, ext)) == dir + (stem + ext)
  {
  }

  lemma SplitWellFormed(p: string)
    ensures WellSplit(Split(p))
  {
    var i := LastIndexOf(p, SEP);
    var base := p[i + 1..];
    SplitAtLastSeparator(p);
    var j := LastIndexOf(base, DOT);
    if j <= 0 || IsDotDot(base) {
      NoExtensionCase(base);
    } else {
      SplitAtLastDot(base);
    }
  }

  /** Without a dot after the first character, or as "..", the segment is all stem. */
  lemma NoExtensionCase(base: string)
    requires LastIndexOf(base, DOT) <= 0 || IsDotDot(base)
    ensures IsDotDot(base) || NoDotAfterFirst(base)
  {
    LastIndexOfIsLast(base, DOT);
  }

  /** Cutting a path after its last separator yields a directory prefix and a separator-free segment. */
  lemma SplitAtLastSeparator(p: string)
    ensures p == p[..LastIndexOf(p, SEP) + 1] + p[LastIndexOf(p, SEP) + 1..]
    ensures var dir := p[..LastIndexOf(p, SEP) + 1]; dir == [] || dir[|dir| - 1] == SEP
    ensures NoSeparator(p[LastIndexOf(p, SEP) + 1..])
  {
    var i := LastIndexOf(p, SEP);
    var dir, base := p[..i + 1], p[i + 1..];
    assert p == dir + base;
    LastIndexOfIsLast(p, SEP);
    if 0 <= i {
      assert dir[|dir| - 1] == p[i];
    }
    forall k | 0 <= k < |base|
      ensures base[k] != SEP
    {
      assert i < i + 1 + k < |p|;
      assert base[k] == p[i + 1 + k];
    }
  }

  /** Cutting a segment at its last dot, when that dot is not its first character, yields a stem and a dot suffix. */
  lemma SplitAtLastDot(base: string)
    requires NoSeparator(base)
    requires 0 < LastIndexOf(base, DOT) && !IsDotDot(base)
    ensures var j := LastIndexOf(base, DOT); WellSplit(PathParts([], base[..j], base[j..]))
  {
    var j := LastIndexOf(base, DOT);
    var stem, ext := base[..j], base[j..];
    assert base == stem + ext;
    LastIndexOfIsLast(base, DOT);
    forall k | 0 <= k < |stem|
      ensures stem[k] != SEP
    {
      assert stem[k] == base[k];
    }
    forall k | 0 <= k < |ext|
      ensures ext[k] == base[j + k]
    {
    }
  }

  lemma NoneOfAppend(a: string, b: string, c: char)
    requires NoneOf(a, c) && NoneOf(b, c)
    ensures NoneOf(a + b, c)
  {
    forall k | 0 <= k < |a + b|
      ensures (a + b)[k] != c
    {
      if k >= |a| {
        assert (a + b)[k] == b[k - |a|];
      }
    }
  }

  /** Node's `path.extname`: the extension of the last segment, possibly empty. */
  function Extname(p: string): (e: string)
    ensures e == [] || DotSuffix(e)
  {
    SplitSound(p);
    Split(p).ext
  }

  /** The last path segment, `path.basename`. */
  function Basename(p: string): (b: string)
    ensures NoSeparator(b)
  {
    var parts := Split(p);
    SplitWellFormed(p);
    NoneOfAppend(parts.stem, parts.ext, SEP);
    parts.stem + parts.ext
  }

  /** The decomposition is the only well-formed one: any well-split triple is recovered by Split. */
  lemma SplitUnique(parts: PathParts)
    requires WellSplit(parts)
    ensures Split(Join(parts)) == parts
  {
    var base := parts.stem + parts.ext;
    CutAfterDirectory(parts);
    if parts.ext == [] {
      assert base == parts.stem;
      if !IsDotDot(base) {
        LastIndexBeforeNotAfterFirst(base, DOT, |base|);
      }
    } else {
      var n := |parts.stem|;
      forall j | n < j < |base| ensures base[j] != DOT {
        assert base[j] == parts.ext[j - n];
      }
      LastIndexOfUnique(base, DOT, n);
      assert base[..n] == parts.stem;
      assert base[n..] == parts.ext;
    }
  }

  /** In a well-split path the last separator ends the directory prefix, and the segment after it is stem and extension. */
  lemma CutAfterDirectory(parts: PathParts)
    requires WellSplit(parts)
    ensures var p := Join(parts);
      && LastIndexOf(p, SEP) == |parts.dir| - 1
      && p[..|parts.dir|] == parts.dir
      && p[|parts.dir|..] == parts.stem + parts.ext
  {
    var p := Join(parts);
    var base := parts.stem + parts.ext;
    assert p == parts.dir + base;
    assert NoSeparator(base) by {
      forall k | 0 <= k < |base| ensures base[k] != SEP {
        if k >= |parts.stem| {
          assert base[k] == parts.ext[k - |parts.stem|];
        }
      }
    }
    forall j | |parts.dir| - 1 < j < |p| ensures p[j] != SEP {
      assert p[j] == base[j - |parts.dir|];
    }
    LastIndexOfUnique(p, SEP, |parts.dir| - 1);
    assert p[..|parts.dir|] == parts.dir;
    assert p[|parts.dir|..] == base;
  }

  /** A string whose only possible `c` is its first character has its last `c` at 0 or nowhere. */
  lemma {:induction false} LastIndexBeforeNotAfterFirst(s: string, c: char, n: nat)
    requires n <= |s|
    requires forall k :: 0 < k < n ==> s[k] != c
    ensures LastIndexBefore(s, c, n) <= 0
  {
    if n > 1 {
      LastIndexBeforeNotAfterFirst(s, c, n - 1);
    }
  }

  /** An extension that `Extname` reports back unchanged once put after a non-empty stem. */
  predicate IsExtension(e: string)
  {
    |e| >= 2 && DotSuffix(e)
  }

  /**
    The `replace-ext` package: the empty path is returned as is, otherwise the
    extension reported by `Extname` is replaced by `ext` (the `path.join`
    normalisation it also performs is not modelled).
   */
  function ReplaceExtension(p: string, ext: string): string
  {
    if |p| == 0 then p
    else
      var parts := Split(p);
      Join(parts.(ext := ext))
  }

  /**
    Renaming a path with a non-empty last segment gives it exactly the new
    extension and keeps its directory prefix and stem.
   */
  lemma ReplacedExtension(p: string, ext: string)
    requires IsExtension(ext)
    requires Basename(p) != []
    ensures Split(ReplaceExtension(p, ext)) == Split(p).(ext := ext)
    ensures Extname(ReplaceExtension(p, ext)) == ext
  {
    var parts := Split(p);
    SplitSound(p);
    var renamed := parts.(ext := ext);
    assert parts.stem != [];
    assert |parts.stem + ext| >= 3;
    SplitUnique(renamed);
  }

  /** Renaming twice is renaming once with the second extension. */
  lemma ReplaceExtensionTwice(p: string, e1: string, e2: string)
    requires IsExtension(e1)
    requires Basename(p) != []
    ensures ReplaceExtension(ReplaceExtension(p, e1), e2) == ReplaceExtension(p, e2)
  {
    ReplacedExtension(p, e1);
  }

  /** Renaming back to the original extension restores the original path. */
  lemma ReplaceExtensionRoundTrip(p: string, ext: string)
    requires IsExtension(ext)
    requires Basename(p) != []
    ensures ReplaceExtension(ReplaceExtension(p, ext), Extname(p)) == p
  {
    ReplacedExtension(p, ext);
    SplitSound(p);
  }
}
