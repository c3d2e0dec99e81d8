/** An optional value, used for parse results and for the list file that a
    run may or may not write. */
module Wrappers {

  datatype Option<+T> = None | Some(value: T)

}
