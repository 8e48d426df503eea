/** The Some/None datatype used where the handler's Python variables may hold `None`. */
module Wrappers {

  datatype Option<+T> = None | Some(value: T)
}
