/** Failure-carrying result types shared by the board model. */
module Wrappers {

  datatype Option<+T> = None | Some(value: T)

}
