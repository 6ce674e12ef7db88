/** Structural addresses into a nested document value. */
module Paths {

  /** A path is its sequence of keys; two paths are equal iff their keys are. */
  type Path = seq<string>

  /** `path.push(key)`: a new path one key longer; the receiver is left as it was. */
  function Push(path: Path, key: string): (r: Path)
    ensures |r| == |path| + 1 && r[..|path|] == path && r[|path|] == key
  {
    path + [key]
  }
}
