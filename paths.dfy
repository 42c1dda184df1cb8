/**
 * Filesystem paths as the two scripts use them through pathlib: a path is a
 * sequence of components, anchored at the root or relative to the working
 * directory. Only the operations the scripts apply are modelled: `.name`,
 * `.parent` and `/` with a single component.
 */
module Paths {

  datatype Path = Path(absolute: bool, segs: seq<string>)

  /** The working directory `Path('.')`. */
  const Cwd: Path := Path(false, [])

  /** `p.name`: the last component, or "" for the root and for `Path('.')`. */
  function Name(p: Path): string
  {
    if p.segs == [] then "" else p.segs[|p.segs| - 1]
  }

  /**
   * `p / seg` for a single component `seg`. pathlib drops the components ""
   * and "." when it joins, so they leave the path as it was.
   */
  function Join(p: Path, seg: string): (r: Path)
    ensures r.absolute == p.absolute
    ensures seg == "" || seg == "." ==> r == p
    ensures seg != "" && seg != "." ==> Name(r) == seg && Parent(r) == p
  {
    if seg == "" || seg == "." then p else Path(p.absolute, p.segs + [seg])
  }

  /**
   * `p.parent`: the path without its last component. The parent of the root
   * is the root and the parent of `Path('.')` is `Path('.')`.
   */
  function Parent(p: Path): (q: Path)
    ensures q.absolute == p.absolute
    ensures p.segs == [] ==> q == p
    ensures p.segs != [] ==> |q.segs| == |p.segs| - 1 && q.segs + [Name(p)] == p.segs
  {
    if p.segs == [] then p else Path(p.absolute, p.segs[..|p.segs| - 1])
  }
}
