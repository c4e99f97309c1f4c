/** The "maybe absent" value used where the source returns `undefined` or `null`. */
module Wrappers {

  datatype Option<+T> = None | Some(value: T)
}
