/** The optional value used for results the bot may not have: a failed fetch, a missing file. */
module Wrappers {

  datatype Option<+T> = None | Some(value: T)

}
