/** The optional value used wherever the source signals "nothing" with a
    sentinel (a -1 return, a zero status). */
module Wrappers {

  datatype Option<+T> = None | Some(value: T)
}
