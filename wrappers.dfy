/** Small helpers shared by the other modules. */
module Wrappers {

  /** A value that may be absent. */
  datatype Option<+T> = None | Some(value: T)

  /** The last element of a non-empty sequence. */
  function Last<T>(s: seq<T>): (last: T)
    requires |s| > 0
  {
    s[|s| - 1]
  }

  /** Everything but the last element of a non-empty sequence. */
  function Init<T>(s: seq<T>): (init: seq<T>)
    requires |s| > 0
  {
    s[..|s| - 1]
  }
}
