/** A value that may be absent: what `sessionStorage.getItem` returns
    (`null` for a missing key) and what parsing a URL yields (`None` when
    the parser throws). */
module Wrappers {
  datatype Option<+T> = None | Some(value: T)
}
