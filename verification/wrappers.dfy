/** The optional-value datatype used for absent clients and failed decodes. */
module Wrappers {

  datatype Option<+T> = None | Some(value: T)
}
