/** A reference that may be null in the C# program is an `Option` here. */
module Wrappers {

  datatype Option<+T> = None | Some(value: T)
}
