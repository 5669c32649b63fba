/** The optional value that `select_random_rows` returns: `None` when it refuses. */
module Wrappers {

  datatype Option<+T> = None | Some(value: T)

}
