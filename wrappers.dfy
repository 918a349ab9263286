/** Java `null` for a string argument is modelled as `None`. */
module Wrappers {

  datatype Option<+T> = None | Some(value: T)
}
