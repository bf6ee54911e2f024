/** The optional value used for "no match yet" and "no number found". */
module Wrappers {
  datatype Option<+T> = None | Some(value: T)
}
