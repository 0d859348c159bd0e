/**
 * The slice of `pathlib` the transcript code uses: a path as an anchor and
 * a list of names, `name`, `stem`, `str()`, `relative_to` and joining one
 * more name with `/`.
 */
module Paths {
  import opened Wrappers
  import opened Text

  /** One path name: not empty, not ".", no separator. pathlib never stores other names. */
  predicate IsName(n: string) {
    n != [] && n != "." && '/' !in n
  }

  /** A POSIX path: the anchor is "/" for an absolute path and "" for a relative one. */
  datatype Path = Path(anchor: string, names: seq<string>) {

    predicate Valid() {
      && (anchor == "" || anchor == "/")
      && forall i :: 0 <= i < |names| ==> IsName(names[i])
    }

    /** `p.name`: the last name, or "" for a bare anchor. */
    function Name(): string {
      if names == [] then "" else names[|names| - 1]
    }

    /** `p.stem`: the name without its last suffix. */
    function Stem(): string {
      StemOf(Name())
    }

    /** `str(p)`: the anchor, then the names joined by "/"; "." for the empty relative path. */
    function Str(): string {
      if anchor == "" && names == [] then "." else anchor + Join("/", names)
    }

    /** `p / name` for a single name. */
    function Child(name: string): (q: Path)
      requires IsName(name)
      ensures q.anchor == anchor && q.Name() == name && names <= q.names && |q.names| == |names| + 1
      ensures Valid() ==> q.Valid()
    {
      Path(anchor, names + [name])
    }
  }

  /** `s.rfind(c)`: the last index of `c` in `s`, or -1. */
  function RFind(s: string, c: char): (i: int)
    ensures -1 <= i < |s|
    ensures i >= 0 ==> s[i] == c
    ensures forall j :: i < j < |s| ==> s[j] != c
  {
    if s == [] then -1
    else if s[|s| - 1] == c then |s| - 1
    else RFind(s[..|s| - 1], c)
  }

  /** pathlib's stem rule: cut at the last ".", unless it is the first or the last character. */
  function StemOf(name: string): string {
    var i := RFind(name, '.');
    if 0 < i < |name| - 1 then name[..i] else name
  }

  /**
   * `p.relative_to(base)`: the names of `p` past those of `base`, when `base`
   * is `p` itself or one of its ancestors; None stands for the ValueError.
   */
  function RelativeTo(p: Path, base: Path): (r: Option<Path>)
    ensures r.Some? <==> p.anchor == base.anchor && base.names <= p.names
  {
    if p.anchor == base.anchor && base.names <= p.names then Some(Path("", p.names[|base.names|..]))
    else None
  }

  // ---------------------------------------------------------------------------

  /** The stem of `x.suffix` is `x` when `x` is not empty and the suffix holds no further ".". */
  lemma StemDropsSuffix(x: string, suffix: string)
    requires x != [] && suffix != [] && '.' !in suffix
    ensures StemOf(x + "." + suffix) == x
  {
    var name := x + "." + suffix;
    assert name[|x|] == '.';
    assert forall j :: |x| < j < |name| ==> name[j] == suffix[j - |x| - 1];
    assert name[..|x|] == x;
  }

  /** A name without a "." is its own stem. */
  lemma StemWithoutDot(name: string)
    requires '.' !in name
    ensures StemOf(name) == name
  {
  }

  /** Joining the base with the relative path gives back the path. */
  lemma RelativeToRoundTrip(p: Path, base: Path)
    requires RelativeTo(p, base).Some?
    ensures base.names + RelativeTo(p, base).value.names == p.names
    ensures base.anchor == p.anchor
  {
  }
}
