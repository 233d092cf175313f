/** Stock optional-value wrapper: Go's "(value, ok)" result pairs become an Option. */
module Wrappers {

  datatype Option<+T> = None | Some(value: T)

}
