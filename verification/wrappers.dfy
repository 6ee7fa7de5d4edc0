/** The optional value used for the id of the task being edited: `None`
    stands for JavaScript's `null`, which never equals a numeric id. */
module Wrappers {

  datatype Option<+T> = None | Some(value: T)
}
