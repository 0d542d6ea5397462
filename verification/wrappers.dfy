/** The optional value used for the fields of an inbound event that the
    chat platform may leave out of its JSON body. */
module Wrappers {

  datatype Option<+T> = None | Some(value: T)
}
