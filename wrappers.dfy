/** The optional value a browser dialog hands back: `prompt` returns null when cancelled. */
module Wrappers {

  datatype Option<+T> = None | Some(value: T)
}
