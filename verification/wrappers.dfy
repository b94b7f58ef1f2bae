/** The optional value used for shader links and texture lookups that may find nothing. */
module Wrappers {

  /** `None` plays the part of an empty link or of "no filename found". */
  datatype Option<+T> = None | Some(value: T)
}
