/**
 * File paths as `pathlib` sees them on a POSIX system: a sequence of
 * components (`PurePath.parts`), where an absolute path begins with the root
 * component "/".
 */
module Paths {
  import opened Wrappers

  type Path = seq<string>

  /** The components after the first, joined with "/". */
  function Join(parts: seq<string>): string
  {
    if parts == [] then ""
    else if |parts| == 1 then parts[0]
    else Join(parts[..|parts| - 1]) + "/" + parts[|parts| - 1]
  }

  /** `str(path)`: the root written once, the other parts joined by "/", and the empty path as ".". */
  function Text(p: Path): string
  {
    if p == [] then "."
    else if p[0] == "/" then "/" + Join(p[1..])
    else Join(p)
  }

  /** `path.is_relative_to(base)`: some path appended to `base` gives `path`. */
  ghost predicate IsRelativeTo(path: Path, base: Path)
  {
    exists rest: Path :: base + rest == path
  }

  /**
   * `path.relative_to(base)`, with `None` where `relative_to` raises
   * `ValueError` (so `is_relative_to` is `r.Some?`): the unique path that
   * `base` extends to `path`.
   */
  function RelativeTo(path: Path, base: Path): (r: Option<Path>)
    ensures r.Some? <==> IsRelativeTo(path, base)
    ensures r.Some? ==> base + r.value == path
    ensures forall rest: Path :: base + rest == path ==> r == Some(rest)
  {
    if |base| <= |path| && path[..|base|] == base then
      assert base + path[|base|..] == path;
      Some(path[|base|..])
    else
      assert forall rest: Path :: base + rest == path ==> path[..|base|] == base;
      None
  }

  /**
   * How `format` writes a frame's file name: `./` and the path relative to
   * the working directory when the file lies under it, otherwise the path
   * itself; paths that cannot be compared never raise.
   */
  function Display(path: Path, cwd: Path): (r: string)
    ensures IsRelativeTo(path, cwd) ==> r == "./" + Text(path[|cwd|..])
    ensures !IsRelativeTo(path, cwd) ==> r == Text(path)
    ensures path == cwd ==> r == "./."
  {
    match RelativeTo(path, cwd)
    case Some(rel) => "./" + Text(rel)
    case None => Text(path)
  }
}
