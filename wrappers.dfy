/** The "no value" marker used wherever the source produces NaN or an infinity. */
module Wrappers {

  datatype Option<+T> = None | Some(value: T)
}
