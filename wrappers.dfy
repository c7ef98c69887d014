/** The optional value used where the source may find nothing (a missing form
    field, a primary key with no row). */
module Wrappers {

  datatype Option<+T> = None | Some(value: T)
}
