/** Paths as sequences of segments: `a / b` is concatenation, `relative_to` strips a prefix. */
module Paths {
  import opened Types
  import opened Strings

  /** One component of a slash-delimited path: never empty, never holding the separator. */
  type Segment = s: string | s != "" && '/' !in s witness "a"

  type Path = seq<Segment>

  /** `root / part`. */
  function Child(root: Path, part: Segment): (r: Path)
    ensures |r| == |root| + 1 && r[..|root|] == root && r[|root|] == part
  {
    root + [part]
  }

  /** `path.is_relative_to(root)`: `root` is a leading part of `path`. */
  predicate IsPrefix(root: Path, path: Path)
  {
    |root| <= |path| && path[..|root|] == root
  }

  /** `path.relative_to(root)`, which raises ValueError (None here) unless `root` is a prefix. */
  function RelativeTo(path: Path, root: Path): (r: Option<Path>)
    ensures r.Some? <==> IsPrefix(root, path)
    ensures r.Some? ==> root + r.value == path
  {
    if IsPrefix(root, path) then Some(path[|root|..]) else None
  }

  /** `path.name`: the last segment, or the empty string for a path with no segments. */
  function Name(p: Path): (r: string)
    ensures r == "" <==> p == []
    ensures p != [] ==> r == p[|p| - 1]
  {
    if p == [] then "" else p[|p| - 1]
  }

  /** `path.absolute()` for a path taken relative to the working directory `cwd`. */
  function Absolute(cwd: Path, p: Path): (r: Path)
    ensures |r| == |cwd| + |p| && r[..|cwd|] == cwd && r[|cwd|..] == p
  {
    cwd + p
  }

  /** `str(p / part)` is `str(p)`, a "/" and the new segment. */
  lemma PathStringChild(p: Path, part: Segment)
    requires p != []
    ensures PathString(Child(p, part)) == PathString(p) + "/" + part
  {
    JoinSnoc("/", p, part);
  }

  /** `str(path)`: the segments joined by "/", and "." for the empty path. */
  function PathString(p: Path): (r: string)
    ensures r != ""
    ensures p == [] ==> r == "."
    ensures |p| == 1 ==> r == p[0]
  {
    if p == [] then "." else Join("/", p)
  }
}
