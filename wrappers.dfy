/** Option type for operations of the scripts that can fail with
    an exception (an out-of-range index, a division by zero). */
module Wrappers {

  datatype Option<+T> = None | Some(value: T)

}
