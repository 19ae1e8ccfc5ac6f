/** The one failure-compatible value type the models share. */
module Wrappers {
  datatype Option<+T> = None | Some(value: T)
}
