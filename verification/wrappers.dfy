/** The optional-value datatype used for the results of path resolution,
    which either yields a canonical absolute path or fails. */
module Wrappers {

  datatype Option<+T> = None | Some(value: T)
}
