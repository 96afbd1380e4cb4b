/** The Some/None datatype used for JavaScript values that may be absent (null or undefined). */
module Wrappers {
  datatype Option<+T> = None | Some(value: T)

  /** The value of a string option, with a missing one read as the empty string. */
  function GetOrEmpty(o: Option<string>): string {
    match o
    case Some(s) => s
    case None => ""
  }
}
