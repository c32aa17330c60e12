/** The optional value used wherever a Python call may find nothing
    (a regular-expression search that fails, a dictionary lookup that misses). */
module Wrappers {

  datatype Option<+T> = None | Some(value: T)

}
