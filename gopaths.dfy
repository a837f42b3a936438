/** Slash-separated paths in the manner of Go's `path/filepath` on Unix,
    without the lexical clean-up (`filepath.Clean`) of `.`, `..` and doubled
    slashes. */
module GoPaths {

  /** Position of the last `/` in `p`, or -1. */
  function LastSlash(p: string): (i: int)
    ensures -1 <= i < |p|
    ensures i >= 0 ==> p[i] == '/'
    ensures forall k :: i < k < |p| ==> p[k] != '/'
  {
    if p == [] then -1 else if p[|p| - 1] == '/' then |p| - 1 else LastSlash(p[..|p| - 1])
  }

  /** `filepath.Dir`: everything before the last slash, `.` when there is none. */
  function Dir(p: string): (d: string)
    ensures d != []
  {
    var i := LastSlash(p);
    if i < 0 then "." else if i == 0 then "/" else p[..i]
  }

  /** `p` without its trailing slashes. */
  function StripTrailingSlashes(p: string): (q: string)
    ensures |q| <= |p| && q == p[..|q|]
    ensures q == [] || q[|q| - 1] != '/'
  {
    if p != [] && p[|p| - 1] == '/' then StripTrailingSlashes(p[..|p| - 1]) else p
  }

  /** `filepath.Base`: the last element of the path. */
  function Base(p: string): (b: string)
    ensures b != []
  {
    if p == [] then "." else
    var q := StripTrailingSlashes(p);
    if q == [] then "/" else q[LastSlash(q) + 1..]
  }

  /** `filepath.Join(dir, name)` for a non-empty `name`. */
  function Join(dir: string, name: string): string
  {
    if dir == "" || dir == "." then name
    else if dir[|dir| - 1] == '/' then dir + name
    else dir + "/" + name
  }
}
