/** Optional values, used for the outcome of a pattern match at one position. */
module Wrappers {

  datatype Option<+T> = None | Some(value: T)

  /** `p` is a prefix of `s`: Go's `strings.HasPrefix(s, p)`. */
  predicate IsPrefix(p: string, s: string)
  {
    |p| <= |s| && s[..|p|] == p
  }
}
