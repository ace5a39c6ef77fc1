/** Option type standing in for the exception a failed numeric parse throws. */
module Wrappers {

  datatype Option<+T> = None | Some(value: T)
}
