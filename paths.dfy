/**
 * Paths as text, the way the program uses them on a Unix host: the final
 * component of a catalog path (`Path::file_name`) and a directory joined with
 * one component (`PathBuf::join`).
 */
module Paths {
  import opened Wrappers

  type Path = string

  const Separator: char := '/'

  /** A single, ordinary path component: what `file_name` can return. */
  predicate IsComponent(c: string) {
    c != [] && Separator !in c && c != "." && c != ".."
  }

  /** Drops trailing separators and trailing "/." pieces, which name no component. */
  function StripTail(p: Path): Path
    decreases |p|
  {
    if p != [] && p[|p| - 1] == Separator then StripTail(p[..|p| - 1])
    else if |p| >= 2 && p[|p| - 2] == Separator && p[|p| - 1] == '.' then StripTail(p[..|p| - 2])
    else p
  }

  /** The text after the last separator of `p` (all of `p` when it has none). */
  function AfterLastSeparator(p: Path): string
    decreases |p|
  {
    if p == [] || p[|p| - 1] == Separator then [] else AfterLastSeparator(p[..|p| - 1]) + [p[|p| - 1]]
  }

  lemma {:induction false} AfterLastSeparatorIsSuffix(p: Path)
    ensures var r := AfterLastSeparator(p);
            Separator !in r && |r| <= |p| && r == p[|p| - |r|..] && (|r| < |p| ==> p[|p| - |r| - 1] == Separator)
    decreases |p|
  {
    if p != [] && p[|p| - 1] != Separator {
      AfterLastSeparatorIsSuffix(p[..|p| - 1]);
    }
  }

  /** The final component of `p`, or None when `p` ends in nothing, the root, "." or "..". */
  function FileName(p: Path): (r: Option<string>)
    ensures r.Some? ==> IsComponent(r.value)
  {
    var c := AfterLastSeparator(StripTail(p));
    AfterLastSeparatorIsSuffix(StripTail(p));
    if c == [] || c == "." || c == ".." then None else Some(c)
  }

  /** `dir` joined with the relative component `c`: a separator is inserted only when needed. */
  function Join(dir: Path, c: string): Path {
    if dir == [] then c
    else if dir[|dir| - 1] == Separator then dir + c
    else dir + [Separator] + c
  }

  lemma {:induction false} AfterLastSeparatorOfSuffix(pre: Path, c: string)
    requires pre == [] || pre[|pre| - 1] == Separator
    requires Separator !in c
    ensures AfterLastSeparator(pre + c) == c
    decreases |c|
  {
    var p := pre + c;
    if c != [] {
      var init := c[..|c| - 1];
      assert c[|c| - 1] in c;
      assert p[|p| - 1] == c[|c| - 1] != Separator;
      assert p[..|p| - 1] == pre + init;
      AfterLastSeparatorOfSuffix(pre, init);
      assert AfterLastSeparator(p) == AfterLastSeparator(pre + init) + [p[|p| - 1]];
      assert c == init + [c[|c| - 1]];
    } else {
      assert p == pre;
    }
  }

  /** The final component of a path is the text after its last separator (filenames are kept as listed). */
  lemma FileNameOfJoin(dir: Path, c: string)
    requires IsComponent(c)
    ensures FileName(Join(dir, c)) == Some(c)
  {
    var p := Join(dir, c);
    var pre := if dir == [] then [] else if dir[|dir| - 1] == Separator then dir else dir + [Separator];
    assert p == pre + c;
    assert p[|p| - 1] == c[|c| - 1];
    assert c[|c| - 1] != Separator by { assert c[|c| - 1] in c; }
    if |c| >= 2 {
      assert p[|p| - 2] == c[|c| - 2];
      assert c[|c| - 2] in c;
    } else {
      assert c == [c[0]];
    }
    assert StripTail(p) == p;
    AfterLastSeparatorOfSuffix(pre, c);
  }

  lemma {:induction false} StripTailOfSeparators(p: Path)
    requires forall i :: 0 <= i < |p| ==> p[i] == Separator
    ensures StripTail(p) == []
    decreases |p|
  {
    if p != [] {
      StripTailOfSeparators(p[..|p| - 1]);
    }
  }

  /** An empty path and a root-only path have no final component, so the program aborts on them. */
  lemma NoFileNameWithoutComponent(p: Path)
    requires forall i :: 0 <= i < |p| ==> p[i] == Separator
    ensures FileName(p) == None
  {
    StripTailOfSeparators(p);
  }
}
