/** The optional-value datatype used for regex matches that may fail and for
    Go's `error` results, where `None` stands for `nil`. */
module Wrappers {

  datatype Option<+T> = None | Some(value: T)

  /** Leftmost-first alternation: the first alternative that matches wins. */
  function FirstOf<T>(a: Option<T>, b: Option<T>): Option<T> {
    if a.Some? then a else b
  }
}
