/** The optional result used where the source returns `undefined` for "absent". */
module Wrappers {

  datatype Option<+T> = None | Some(value: T)

}
