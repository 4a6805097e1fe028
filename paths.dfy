/**
 * The part of Python's pathlib that `out_path_for` relies on, for absolute
 * POSIX paths: the final component's stem and suffix, `with_name`, joining
 * with `/`, and rendering with `str`.
 */
module Paths {
  import opened Results

  /** An absolute path as its components below "/"; the root is []. */
  type Path = seq<string>

  /** `Path.name`: the final component, empty for the root. */
  function Name(p: Path): string
  {
    if p == [] then "" else p[|p| - 1]
  }

  /** `Path.parent`: all but the final component; the root is its own parent. */
  function Parent(p: Path): Path
  {
    if p == [] then [] else p[..|p| - 1]
  }

  /** `str.rfind('.')`: the index of the last dot, or -1 when there is none. */
  function LastDot(s: string): (i: int)
    ensures -1 <= i < |s|
    ensures i >= 0 ==> s[i] == '.'
    ensures forall j :: i < j < |s| ==> s[j] != '.'
  {
    if s == [] then -1
    else if s[|s| - 1] == '.' then |s| - 1
    else LastDot(s[..|s| - 1])
  }

  /** `Path.suffix`: from the last dot on, unless that dot starts or ends the name. */
  function Suffix(name: string): (x: string)
    ensures IsSuffix(x)
    ensures |x| <= |name| && x == name[|name| - |x|..]
  {
    var i := LastDot(name);
    if 0 < i < |name| - 1 then name[i..] else ""
  }

  /** `Path.stem`: the name without its suffix. */
  function Stem(name: string): (x: string)
    ensures |x| <= |name| && x == name[..|x|]
    ensures name != "" ==> x != ""
  {
    var i := LastDot(name);
    if 0 < i < |name| - 1 then name[..i] else name
  }

  /** A well-formed suffix: empty, or a dot followed by at least one character and no other dot. */
  predicate IsSuffix(x: string)
  {
    x == "" || (|x| >= 2 && x[0] == '.' && forall j :: 0 < j < |x| ==> x[j] != '.')
  }

  /** A name splits into its stem followed by its suffix, and the suffix is well formed. */
  lemma StemAndSuffix(name: string)
    ensures Stem(name) + Suffix(name) == name
    ensures IsSuffix(Suffix(name))
  {
  }

  /** A dot stands in `t`: the last dot of `s + t` is the last dot of `t`, shifted by `|s|`. */
  lemma {:induction false} LastDotOfAppended(s: string, t: string)
    requires LastDot(t) >= 0
    ensures LastDot(s + t) == |s| + LastDot(t)
  {
    if t[|t| - 1] != '.' {
      var t' := t[..|t| - 1];
      assert (s + t)[..|s + t| - 1] == s + t';
      LastDotOfAppended(s, t');
    }
  }

  /** Appending a well-formed, non-empty suffix to a non-empty prefix makes it the name's suffix. */
  lemma SuffixOfAppended(prefix: string, ext: string)
    requires |prefix| > 0 && ext != "" && IsSuffix(ext)
    ensures Suffix(prefix + ext) == ext
    ensures Stem(prefix + ext) == prefix
  {
    assert LastDot(ext) == 0;
    LastDotOfAppended(prefix, ext);
    assert (prefix + ext)[|prefix|..] == ext;
  }

  /** `PurePath.with_name`: replaces the final component; a path with no name raises instead. */
  function WithName(p: Path, name: string): (r: Option<Path>)
    ensures r == None <==> p == []
    ensures r.Some? ==> Parent(r.value) == Parent(p) && Name(r.value) == name && |r.value| == |p|
  {
    if p == [] then None else Some(p[..|p| - 1] + [name])
  }

  /** `p / name` for a single-component name: the child `name` of `p`. */
  function Join(p: Path, name: string): (r: Path)
    ensures Parent(r) == p && Name(r) == name && |r| == |p| + 1
  {
    p + [name]
  }

  /** `str(p)`: "/" for the root, otherwise every component preceded by "/". */
  function Render(p: Path): (s: string)
    ensures |s| >= 1 && s[0] == '/'
  {
    if p == [] then "/" else RenderComponents(p)
  }

  function RenderComponents(p: Path): (s: string)
    ensures p != [] ==> |s| >= 1 && s[0] == '/'
  {
    if p == [] then "" else "/" + p[0] + RenderComponents(p[1..])
  }
}
